/** The `changes` table of a per-version SQLite store (upgrade_analysis_parser/
    processing/db.py): whether the table exists, its rows in insertion order,
    and the AUTOINCREMENT sequence entry (`sqlite_sequence`) that numbers them. */
module Store {
  import opened Wrappers
  import opened Records

  /** The rows `insert_data` writes for `data`, numbered from `first` on. */
  function NumberedRows(first: nat, data: seq<ChangeRecord>): (r: seq<Row>)
    ensures |r| == |data|
    decreases |data|
  {
    if data == [] then [] else [ToRow(first, data[0])] + NumberedRows(first + 1, data[1..])
  }

  /** The `i`-th row written for `data` is the `i`-th record under id `first + i`. */
  lemma {:induction false} NumberedRowsAt(first: nat, data: seq<ChangeRecord>, i: nat)
    requires i < |data|
    ensures NumberedRows(first, data)[i] == ToRow(first + i, data[i])
    decreases i
  {
    if i > 0 {
      NumberedRowsAt(first + 1, data[1..], i - 1);
    }
  }

  /** Writing one more record appends one row. */
  lemma {:induction false} NumberedRowsSnoc(first: nat, data: seq<ChangeRecord>, d: ChangeRecord)
    ensures NumberedRows(first, data + [d]) == NumberedRows(first, data) + [ToRow(first + |data|, d)]
    decreases |data|
  {
    if data == [] {
      assert data + [d] == [d];
    } else {
      assert (data + [d])[1..] == data[1..] + [d];
      NumberedRowsSnoc(first + 1, data[1..], d);
    }
  }

  /** The parameter rows `executemany` binds, one per record in order, each
      under the next id. */
  method NumberRows(first: nat, data: seq<ChangeRecord>) returns (added: seq<Row>)
    ensures added == NumberedRows(first, data)
  {
    added := [];
    var i := 0;
    while i < |data|
      invariant 0 <= i <= |data|
      invariant added == NumberedRows(first, data[..i])
    {
      NumberedRowsSnoc(first, data[..i], data[i]);
      assert data[..i + 1] == data[..i] + [data[i]];
      added := added + [ToRow(first + i, data[i])];
      i := i + 1;
    }
    assert data[..i] == data;
  }

  predicate IdsIncreasing(rows: seq<Row>)
  {
    forall i, j :: 0 <= i < j < |rows| ==> rows[i].id < rows[j].id
  }

  predicate IdsAtMost(rows: seq<Row>, bound: nat)
  {
    forall i :: 0 <= i < |rows| ==> rows[i].id <= bound
  }

  /** Rows numbered after the sequence entry keep the ids strictly increasing
      and stay below the advanced entry. */
  lemma AppendKeepsIdsIncreasing(rows: seq<Row>, lastId: nat, data: seq<ChangeRecord>)
    requires IdsIncreasing(rows) && IdsAtMost(rows, lastId)
    ensures IdsIncreasing(rows + NumberedRows(lastId + 1, data))
    ensures IdsAtMost(rows + NumberedRows(lastId + 1, data), lastId + |data|)
  {
    var added := NumberedRows(lastId + 1, data);
    var all := rows + added;
    forall i | 0 <= i < |added|
      ensures added[i].id == lastId + 1 + i
    {
      NumberedRowsAt(lastId + 1, data, i);
    }
    forall i, j | 0 <= i < j < |all|
      ensures all[i].id < all[j].id
    {
      if j < |rows| {
        assert all[i] == rows[i] && all[j] == rows[j];
      } else if i < |rows| {
        assert all[i] == rows[i] && all[j] == added[j - |rows|];
      } else {
        assert all[i] == added[i - |rows|] && all[j] == added[j - |rows|];
      }
    }
    forall i | 0 <= i < |all|
      ensures all[i].id <= lastId + |data|
    {
      if i < |rows| {
        assert all[i] == rows[i];
      } else {
        assert all[i] == added[i - |rows|];
      }
    }
  }

  /** One per-version store. A fresh store is a database file without the
      `changes` table. */
  class ChangeStore {
    var tableExists: bool
    var rows: seq<Row>
    /** The `sqlite_sequence` entry for `changes`: the largest id handed out
        since the last reset (0 when there is no entry). */
    var lastId: nat

    ghost predicate Valid()
      reads this
    {
      (!tableExists ==> rows == [] && lastId == 0) && IdsIncreasing(rows) && IdsAtMost(rows, lastId)
    }

    constructor ()
      ensures Valid() && !tableExists && rows == [] && lastId == 0
    {
      tableExists := false;
      rows := [];
      lastId := 0;
    }

    /** `setup_database`: creates the table if it does not exist; an existing
        table keeps its rows. */
    method Setup()
      requires Valid()
      modifies this
      ensures Valid() && tableExists
      ensures rows == old(rows) && lastId == old(lastId)
    {
      tableExists := true;
    }

    /** `clear_all_changes`: deletes every row and the sequence entry, so that
        numbering restarts at 1. Without the table both statements fail and
        nothing changes (`ok` is false). */
    method Clear() returns (ok: bool)
      requires Valid()
      modifies this
      ensures Valid() && ok == old(tableExists) && tableExists == old(tableExists)
      ensures ok ==> rows == [] && lastId == 0
      ensures !ok ==> rows == old(rows) && lastId == old(lastId)
    {
      ok := tableExists;
      if ok {
        rows := [];
        lastId := 0;
      }
    }

    /** `insert_data`: appends one row per record, in order, with the next ids;
        the reported count is the number of records. Without the table the
        insert fails and nothing changes (`None`). */
    method Insert(data: seq<ChangeRecord>) returns (count: Option<nat>)
      requires Valid()
      modifies this
      ensures Valid() && tableExists == old(tableExists)
      ensures count.Some? <==> old(tableExists)
      ensures count.Some? ==> count.value == |data|
                              && rows == old(rows) + NumberedRows(old(lastId) + 1, data)
                              && lastId == old(lastId) + |data|
      ensures count.None? ==> rows == old(rows) && lastId == old(lastId)
    {
      if !tableExists {
        return None;
      }
      var added := NumberRows(lastId + 1, data);
      AppendKeepsIdsIncreasing(rows, lastId, data);
      rows := rows + added;
      lastId := lastId + |data|;
      count := Some(|data|);
    }
  }
}
