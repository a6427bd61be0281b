/** The `/<major_version>/changes` endpoint of server.py: the WHERE clause it
    assembles from the `module`, `model` and `version` query arguments, the
    `ORDER BY version DESC` ordering, and the validation of every fetched row
    back into a change record. */
module ChangesQuery {
  import opened Wrappers
  import opened Text
  import opened Records
  import opened Order
  import opened Store

  /** The ASCII case folding SQLite's LIKE applies by default. */
  function FoldCase(c: char): char
  {
    if 'A' <= c <= 'Z' then (c as int + 32) as char else c
  }

  /** SQLite `text LIKE pattern` without an ESCAPE clause: `%` matches any run
      of characters, `_` any single character, and every other character
      matches itself up to ASCII case. */
  predicate Like(pattern: string, text: string)
    decreases |pattern| + |text|
  {
    if pattern == [] then text == []
    else if pattern[0] == '%' then Like(pattern[1..], text) || (text != [] && Like(pattern, text[1..]))
    else text != [] && (pattern[0] == '_' || FoldCase(pattern[0]) == FoldCase(text[0]))
         && Like(pattern[1..], text[1..])
  }

  predicate NoWildcards(s: string)
  {
    forall i :: 0 <= i < |s| ==> s[i] != '%' && s[i] != '_'
  }

  /** `a` and `b` spell the same text up to ASCII case. */
  predicate SameUpToCase(a: string, b: string)
  {
    |a| == |b| && forall i :: 0 <= i < |a| ==> FoldCase(a[i]) == FoldCase(b[i])
  }

  /** A trailing `%` matches whatever is left. */
  lemma {:induction false} LikeRest(text: string)
    ensures Like("%", text)
    decreases |text|
  {
    assert "%"[1..] == [];
    if text != [] {
      LikeRest(text[1..]);
    }
  }

  /** The version filter is a prefix test: a pattern `v%` with no wildcard in
      `v` matches exactly the texts that begin with `v`, up to ASCII case. */
  lemma {:induction false} LikePrefix(v: string, text: string)
    requires NoWildcards(v)
    ensures Like(v + "%", text) <==> |v| <= |text| && SameUpToCase(v, text[..|v|])
    decreases |v|
  {
    if v == [] {
      assert v + "%" == "%";
      LikeRest(text);
    } else {
      var p := v + "%";
      assert p[0] == v[0] && p[1..] == v[1..] + "%";
      assert NoWildcards(v[1..]) by {
        forall i | 0 <= i < |v[1..]|
          ensures v[1..][i] != '%' && v[1..][i] != '_'
        {
          assert v[1..][i] == v[i + 1];
        }
      }
      if text == [] {
      } else {
        LikePrefix(v[1..], text[1..]);
        if |v| <= |text| {
          assert text[1..][..|v| - 1] == text[..|v|][1..];
          if FoldCase(v[0]) == FoldCase(text[0]) && SameUpToCase(v[1..], text[1..][..|v| - 1]) {
            forall i | 0 <= i < |v|
              ensures FoldCase(v[i]) == FoldCase(text[..|v|][i])
            {
              if i > 0 {
                assert v[1..][i - 1] == v[i];
              }
            }
          }
          if SameUpToCase(v, text[..|v|]) {
            forall i | 0 <= i < |v| - 1
              ensures FoldCase(v[1..][i]) == FoldCase(text[1..][..|v| - 1][i])
            {
              assert v[1..][i] == v[i + 1];
            }
          }
        }
      }
    }
  }

  /** The query arguments; `None` when the argument is absent. */
  datatype Filters = Filters(moduleName: Option<string>, model: Option<string>, version: Option<string>)

  /** One `AND` clause of the WHERE together with its bound parameters. */
  datatype Condition =
    | ModuleIs(moduleName: string)
    | ModelIs(model: string)
    | VersionLike(pattern: string)

  /** What a clause demands of a row; a NULL column equals nothing. */
  predicate Holds(c: Condition, r: Row)
  {
    match c
    case ModuleIs(m) => r.moduleName == m
    case ModelIs(m) => r.modelName == Some(m) || r.recordModel == Some(m)
    case VersionLike(p) => Like(p, r.version)
  }

  predicate AllHold(conds: seq<Condition>, r: Row)
  {
    forall c :: c in conds ==> Holds(c, r)
  }

  /** The rows the endpoint is meant to return: every given filter restricts
      them, and the filters combine with AND. */
  predicate Admits(f: Filters, r: Row)
  {
    && (Given(f.moduleName) ==> r.moduleName == f.moduleName.value)
    && (Given(f.model) ==> r.modelName == Some(f.model.value) || r.recordModel == Some(f.model.value))
    && (Given(f.version) ==> Like(f.version.value + "%", r.version))
  }

  /** The WHERE clause, assembled one given argument at a time after the
      neutral `1=1`. */
  method BuildQuery(f: Filters) returns (conds: seq<Condition>)
    ensures forall r :: AllHold(conds, r) <==> Admits(f, r)
    ensures conds == [] <==> !Given(f.moduleName) && !Given(f.model) && !Given(f.version)
  {
    conds := [];
    if Given(f.moduleName) {
      conds := conds + [ModuleIs(f.moduleName.value)];
    }
    if Given(f.model) {
      conds := conds + [ModelIs(f.model.value)];
    }
    if Given(f.version) {
      conds := conds + [VersionLike(f.version.value + "%")];
    }
    forall r | AllHold(conds, r)
      ensures Admits(f, r)
    {
      if Given(f.moduleName) {
        assert Holds(ModuleIs(f.moduleName.value), r);
      }
      if Given(f.model) {
        assert Holds(ModelIs(f.model.value), r);
      }
      if Given(f.version) {
        assert Holds(VersionLike(f.version.value + "%"), r);
      }
    }
  }

  /** The elements of `s` that `keep` accepts, in their order. */
  function Filter<T>(s: seq<T>, keep: T -> bool): (r: seq<T>)
    ensures |r| <= |s|
  {
    if s == [] then [] else (if keep(s[0]) then [s[0]] else []) + Filter(s[1..], keep)
  }

  /** Filtering keeps each accepted element as often as it occurs and drops
      every other one. */
  lemma {:induction false} FilterCount<T>(s: seq<T>, keep: T -> bool, x: T)
    ensures multiset(Filter(s, keep))[x] == if keep(x) then multiset(s)[x] else 0
  {
    if s != [] {
      FilterCount(s[1..], keep, x);
      assert s == [s[0]] + s[1..];
    }
  }

  /** Two tests that accept the same elements select the same elements. */
  lemma {:induction false} FilterAgree<T>(s: seq<T>, p: T -> bool, q: T -> bool)
    requires forall x :: p(x) == q(x)
    ensures Filter(s, p) == Filter(s, q)
  {
    if s != [] {
      FilterAgree(s[1..], p, q);
    }
  }

  /** A test that accepts everything keeps the whole sequence. */
  lemma {:induction false} FilterAll<T>(s: seq<T>, keep: T -> bool)
    requires forall x :: keep(x)
    ensures Filter(s, keep) == s
  {
    if s != [] {
      FilterAll(s[1..], keep);
      assert s == [s[0]] + s[1..];
    }
  }

  function VersionKey(r: Row): Key
  {
    [r.version]
  }

  /** `ORDER BY version DESC`. SQLite leaves the order of equal versions open;
      this picks the reverse of a stable ascending sort. */
  function ByVersionDesc(rows: seq<Row>): seq<Row>
  {
    Reverse(SortBy(rows, VersionKey))
  }

  predicate VersionsDescending(rows: seq<Row>)
  {
    forall i, j :: 0 <= i < j < |rows| ==> StrLe(rows[j].version, rows[i].version)
  }

  /** Reversing an ascending order by version gives a descending one. */
  lemma ReverseDescending(up: seq<Row>)
    requires SortedBy(up, VersionKey)
    ensures VersionsDescending(Reverse(up))
  {
    var down := Reverse(up);
    forall i, j | 0 <= i < j < |down|
      ensures StrLe(down[j].version, down[i].version)
    {
      assert down[i] == up[|up| - 1 - i] && down[j] == up[|up| - 1 - j];
      SingleKeyLe(up[|up| - 1 - j].version, up[|up| - 1 - i].version);
    }
  }

  /** The ordering returns the same rows, latest version first. */
  lemma ByVersionDescSpec(rows: seq<Row>)
    ensures VersionsDescending(ByVersionDesc(rows))
    ensures multiset(ByVersionDesc(rows)) == multiset(rows)
  {
    var up := SortBy(rows, VersionKey);
    ReversePermutes(up);
    ReverseDescending(up);
  }

  /** The rows `cursor.fetchall()` returns for a WHERE clause. */
  function Fetch(conds: seq<Condition>, rows: seq<Row>): seq<Row>
  {
    ByVersionDesc(Filter(rows, r => AllHold(conds, r)))
  }

  /** `model_validate` of every fetched row, in order; the first row that does
      not validate fails the whole list. */
  function ValidateAll(rows: seq<Row>): Option<seq<ChangeRecord>>
  {
    if rows == [] then Some([])
    else
      match ValidateAll(rows[..|rows| - 1])
      case None => None
      case Some(v) =>
        match FromRow(rows[|rows| - 1])
        case None => None
        case Some(c) => Some(v + [c])
  }

  /** The list validates exactly when every row does, and then holds the rows'
      records in the rows' order. */
  lemma {:induction false} ValidateAllSpec(rows: seq<Row>)
    ensures ValidateAll(rows).Some? <==> forall i :: 0 <= i < |rows| ==> FromRow(rows[i]).Some?
    ensures ValidateAll(rows).Some? ==>
              |ValidateAll(rows).value| == |rows|
              && forall i :: 0 <= i < |rows| ==> ValidateAll(rows).value[i] == FromRow(rows[i]).value
    decreases |rows|
  {
    if rows != [] {
      var init := rows[..|rows| - 1];
      ValidateAllSpec(init);
      assert forall i :: 0 <= i < |init| ==> init[i] == rows[i];
    }
  }

  /** A row that fails validation fails every longer list too. */
  lemma {:induction false} ValidateAllFailurePersists(rows: seq<Row>, k: nat)
    requires k <= |rows|
    requires ValidateAll(rows[..k]).None?
    ensures ValidateAll(rows).None?
    decreases |rows| - k
  {
    if k < |rows| {
      assert rows[..k + 1][..k] == rows[..k];
      ValidateAllFailurePersists(rows, k + 1);
    } else {
      assert rows[..k] == rows;
    }
  }

  /** The loop that fills `validated_changes`, leaving at the first row that
      does not validate. */
  method ValidateRows(rows: seq<Row>) returns (out: Option<seq<ChangeRecord>>)
    ensures out == ValidateAll(rows)
  {
    var validated := [];
    var i := 0;
    while i < |rows|
      invariant 0 <= i <= |rows|
      invariant ValidateAll(rows[..i]) == Some(validated)
    {
      assert rows[..i + 1][..i] == rows[..i];
      var c := FromRow(rows[i]);
      if c.None? {
        ValidateAllFailurePersists(rows, i + 1);
        return None;
      }
      validated := validated + [c.value];
      i := i + 1;
    }
    assert rows[..i] == rows;
    out := Some(validated);
  }

  /** The outcome of a request: 404, 500, or the listed records with 200. */
  datatype Response = NotFound | ServerError | Listed(records: seq<ChangeRecord>)

  /** The response for the fetched rows of an existing table. */
  function Respond(fetched: seq<Row>): Response
  {
    if fetched == [] then Listed([])
    else
      match ValidateAll(fetched)
      case None => ServerError
      case Some(records) => Listed(records)
  }

  /** `ChangesResource.get` on the store of the requested version (`null` when
      its database file does not exist). A store without the `changes` table
      makes the SELECT fail. */
  method Get(store: ChangeStore?, f: Filters) returns (resp: Response)
    ensures store == null ==> resp == NotFound
    ensures store != null && !store.tableExists ==> resp == ServerError
    ensures store != null && store.tableExists ==> resp == Respond(ByVersionDesc(Filter(store.rows, r => Admits(f, r))))
  {
    if store == null {
      return NotFound;
    }
    if !store.tableExists {
      return ServerError;
    }
    var conds := BuildQuery(f);
    FilterAgree(store.rows, r => AllHold(conds, r), r => Admits(f, r));
    var fetched := Fetch(conds, store.rows);
    if fetched == [] {
      return Listed([]);
    }
    var validated := ValidateRows(fetched);
    if validated.None? {
      return ServerError;
    }
    resp := Listed(validated.value);
  }

  /** What comes back: the matching rows, each as often as it is stored and
      none that fails a given filter, latest version first. */
  lemma SelectionSpec(f: Filters, rows: seq<Row>, r: Row)
    ensures multiset(ByVersionDesc(Filter(rows, x => Admits(f, x))))[r] == if Admits(f, r) then multiset(rows)[r] else 0
    ensures VersionsDescending(ByVersionDesc(Filter(rows, x => Admits(f, x))))
  {
    ByVersionDescSpec(Filter(rows, x => Admits(f, x)));
    FilterCount(rows, x => Admits(f, x), r);
  }

  /** Without filter arguments every row of the table comes back. */
  lemma NoFiltersSelectAll(rows: seq<Row>)
    ensures multiset(ByVersionDesc(Filter(rows, r => Admits(Filters(None, None, None), r)))) == multiset(rows)
  {
    FilterAll(rows, r => Admits(Filters(None, None, None), r));
    ByVersionDescSpec(rows);
  }

  /** Rows written by `insert_data` always validate: their `details_json`
      text is decoded back to the stored mapping, and the endpoint lists the
      stored records themselves. */
  lemma StoredRowsListed(first: nat, data: seq<ChangeRecord>, fetched: seq<Row>)
    requires forall r :: r in fetched ==> r in NumberedRows(first, data)
    ensures Respond(fetched).Listed?
    ensures |Respond(fetched).records| == |fetched|
    ensures forall i :: 0 <= i < |fetched| ==> Respond(fetched).records[i] in data
  {
    var rows := NumberedRows(first, data);
    forall i | 0 <= i < |fetched|
      ensures FromRow(fetched[i]).Some? && FromRow(fetched[i]).value in data
    {
      assert fetched[i] in rows;
      var k :| 0 <= k < |rows| && rows[k] == fetched[i];
      NumberedRowsAt(first, data, k);
      RowRoundTrip(first + k, data[k]);
    }
    ValidateAllSpec(fetched);
  }
}
