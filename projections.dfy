/** The YAML projections of upgrade_analysis_parser/processing/get.py, computed
    from the rows of a version's `changes` table and from the version's
    pre-migration scripts. Each generator returns the content of the files it
    would write (`None` when the store or the source directory is missing, so
    nothing is written); the text of one output line is given by the `*Line`
    functions. */
module Projections {
  import opened Wrappers
  import opened Text
  import opened Records
  import opened Order
  import opened Scanner

  /*** Removed models ***/

  /** The `WHERE` clause of `generate_removed_models`. */
  predicate IsRemovedModelRow(r: Row)
  {
    r.changeCategory == ModelCategory && r.changeType == "OBSOLETE" && r.modelName.Some?
  }

  /** `SELECT DISTINCT model_name ... WHERE ...` as a set. */
  function RemovedModelSet(rows: seq<Row>): set<string>
  {
    set r | r in rows && IsRemovedModelRow(r) :: r.modelName.value
  }

  function RemovedModelLine(m: string): string
  {
    "- ['" + m + "', '']"
  }

  /** `generate_removed_models`: the removed models, each once, in ascending
      order. */
  method GenerateRemovedModels(storeExists: bool, rows: seq<Row>) returns (models: Option<seq<string>>)
    ensures models.Some? <==> storeExists
    ensures models.Some? ==> StrictlySortedBy(models.value, StrLt)
    ensures models.Some? ==> forall m :: m in models.value <==> m in RemovedModelSet(rows)
  {
    if !storeExists {
      return None;
    }
    StrLtIsStrictTotalOrder();
    var sorted := SortSet(RemovedModelSet(rows), StrLt);
    return Some(sorted);
  }

  /** A model is listed whenever some row declares it obsolete (the converse
      is part of `GenerateRemovedModels`' ensures). */
  lemma RemovedModelListed(rows: seq<Row>, k: nat)
    requires k < |rows| && rows[k].changeCategory == ModelCategory && rows[k].changeType == "OBSOLETE"
    requires rows[k].modelName.Some?
    ensures rows[k].modelName.value in RemovedModelSet(rows)
  {
    assert rows[k] in rows;
  }

  /*** Removed fields ***/

  /** One `(module, model_name, field_name)` row of the removed-fields query. */
  datatype Selected = Selected(moduleName: string, model: string, field: string)

  /** One `(model, field)` entry of a module's file. */
  datatype FieldRef = FieldRef(model: string, field: string)

  predicate IsRemovedFieldRow(r: Row)
  {
    r.changeCategory == FieldCategory && r.changeType == "DEL" && r.modelName.Some? && r.fieldName.Some?
  }

  /** The rows the `WHERE` clause keeps, in table order. */
  function RemovedFieldRows(rows: seq<Row>): seq<Selected>
  {
    if rows == [] then []
    else
      var tail := RemovedFieldRows(rows[1..]);
      if IsRemovedFieldRow(rows[0])
      then [Selected(rows[0].moduleName, rows[0].modelName.value, rows[0].fieldName.value)] + tail
      else tail
  }

  function SelectedKey(s: Selected): Key
  {
    [s.moduleName, s.model, s.field]
  }

  function FieldRefKey(e: FieldRef): Key
  {
    [e.model, e.field]
  }

  /** `ORDER BY module, model_name, field_name`. */
  function RemovedFieldSelection(rows: seq<Row>): seq<Selected>
  {
    SortBy(RemovedFieldRows(rows), SelectedKey)
  }

  function EntryOf(s: Selected): FieldRef
  {
    FieldRef(s.model, s.field)
  }

  /** The modules that occur in a selection. */
  function ModulesOf(sel: seq<Selected>): set<string>
  {
    set i | 0 <= i < |sel| :: sel[i].moduleName
  }

  /** The entries of module `m`, in selection order. */
  function EntriesOf(sel: seq<Selected>, m: string): seq<FieldRef>
  {
    if sel == [] then []
    else EntriesOf(sel[..|sel| - 1], m)
         + (if sel[|sel| - 1].moduleName == m then [EntryOf(sel[|sel| - 1])] else [])
  }

  /** The `by_module` mapping: one list per module that occurs. */
  function GroupByModule(sel: seq<Selected>): map<string, seq<FieldRef>>
  {
    map m | m in ModulesOf(sel) :: EntriesOf(sel, m)
  }

  function RemovedFieldLine(e: FieldRef): string
  {
    "- ['" + e.model + "', '" + e.field + "', '']"
  }

  lemma GroupSnoc(sel: seq<Selected>, i: nat)
    requires i < |sel|
    ensures GroupByModule(sel[..i + 1])
         == GroupByModule(sel[..i])[sel[i].moduleName :=
              (if sel[i].moduleName in GroupByModule(sel[..i]) then GroupByModule(sel[..i])[sel[i].moduleName] else [])
              + [EntryOf(sel[i])]]
  {
    var pre := sel[..i];
    var post := sel[..i + 1];
    assert post[..|post| - 1] == pre;
    assert ModulesOf(post) == ModulesOf(pre) + {sel[i].moduleName} by {
      forall m | m in ModulesOf(post)
        ensures m in ModulesOf(pre) + {sel[i].moduleName}
      {
        var j :| 0 <= j < |post| && post[j].moduleName == m;
        if j < i {
          assert pre[j] == post[j];
        }
      }
      forall m | m in ModulesOf(pre)
        ensures m in ModulesOf(post)
      {
        var j :| 0 <= j < |pre| && pre[j].moduleName == m;
        assert post[j] == pre[j];
      }
      assert post[i] == sel[i];
    }
    forall m | m in ModulesOf(pre) && m != sel[i].moduleName
      ensures EntriesOf(post, m) == EntriesOf(pre, m)
    {
    }
    if sel[i].moduleName !in ModulesOf(pre) {
      EntriesOfAbsent(pre, sel[i].moduleName);
    }
  }

  lemma {:induction false} EntriesOfAbsent(sel: seq<Selected>, m: string)
    requires m !in ModulesOf(sel)
    ensures EntriesOf(sel, m) == []
    decreases |sel|
  {
    if sel != [] {
      var pre := sel[..|sel| - 1];
      assert ModulesOf(pre) <= ModulesOf(sel) by {
        forall x | x in ModulesOf(pre)
          ensures x in ModulesOf(sel)
        {
          var j :| 0 <= j < |pre| && pre[j].moduleName == x;
          assert sel[j] == pre[j];
        }
      }
      EntriesOfAbsent(pre, m);
      assert sel[|sel| - 1].moduleName in ModulesOf(sel);
    }
  }

  /** The loop of `generate_removed_fields` that fills `by_module`. */
  method GroupEntries(sel: seq<Selected>) returns (byModule: map<string, seq<FieldRef>>)
    ensures byModule == GroupByModule(sel)
  {
    byModule := map[];
    var i := 0;
    while i < |sel|
      invariant i <= |sel|
      invariant byModule == GroupByModule(sel[..i])
    {
      GroupSnoc(sel, i);
      var m := sel[i].moduleName;
      var items := if m in byModule then byModule[m] else [];
      byModule := byModule[m := items + [EntryOf(sel[i])]];
      i := i + 1;
    }
    assert sel[..i] == sel;
  }

  /** `generate_removed_fields`: one file per module that has removed fields. */
  method GenerateRemovedFields(storeExists: bool, rows: seq<Row>) returns (files: Option<map<string, seq<FieldRef>>>)
    ensures files.Some? <==> storeExists
    ensures files.Some? ==> files.value == GroupByModule(RemovedFieldSelection(rows))
  {
    if !storeExists {
      return None;
    }
    var byModule := GroupEntries(RemovedFieldSelection(rows));
    return Some(byModule);
  }

  lemma {:induction false} EntriesOrigin(sel: seq<Selected>, m: string, e: FieldRef)
    requires e in EntriesOf(sel, m)
    ensures exists j :: 0 <= j < |sel| && sel[j].moduleName == m && EntryOf(sel[j]) == e
    decreases |sel|
  {
    var pre := sel[..|sel| - 1];
    if e in EntriesOf(pre, m) {
      EntriesOrigin(pre, m, e);
      var j :| 0 <= j < |pre| && pre[j].moduleName == m && EntryOf(pre[j]) == e;
      assert sel[j] == pre[j];
    }
  }

  lemma {:induction false} EntriesComplete(sel: seq<Selected>, j: nat)
    requires j < |sel|
    ensures EntryOf(sel[j]) in EntriesOf(sel, sel[j].moduleName)
    decreases |sel|
  {
    if j < |sel| - 1 {
      var pre := sel[..|sel| - 1];
      assert pre[j] == sel[j];
      EntriesComplete(pre, j);
    }
  }

  /** Within one module the entries keep the selection's order, which is by
      `(model, field)` once the selection is ordered by module first. */
  lemma {:induction false} EntriesSorted(sel: seq<Selected>, m: string)
    requires SortedBy(sel, SelectedKey)
    ensures SortedBy(EntriesOf(sel, m), FieldRefKey)
    decreases |sel|
  {
    if sel != [] {
      var n := |sel| - 1;
      SortedPrefix(sel, n, SelectedKey);
      EntriesSorted(sel[..n], m);
      if sel[n].moduleName == m {
        EntriesBelowLast(sel, n, m);
        SortedSnoc(EntriesOf(sel[..n], m), EntryOf(sel[n]), FieldRefKey);
      }
    }
  }

  /** In a selection ordered by module first, the entries of a module before
      its last row come no later than that row's entry. */
  lemma EntriesBelowLast(sel: seq<Selected>, n: nat, m: string)
    requires SortedBy(sel, SelectedKey) && n + 1 == |sel| && sel[n].moduleName == m
    ensures forall i :: 0 <= i < |EntriesOf(sel[..n], m)| ==>
              KeyLe(FieldRefKey(EntriesOf(sel[..n], m)[i]), FieldRefKey(EntryOf(sel[n])))
  {
    var pre := sel[..n];
    var es := EntriesOf(pre, m);
    var last := EntryOf(sel[n]);
    forall i | 0 <= i < |es|
      ensures KeyLe(FieldRefKey(es[i]), FieldRefKey(last))
    {
      EntriesOrigin(pre, m, es[i]);
      var j :| 0 <= j < |pre| && pre[j].moduleName == m && EntryOf(pre[j]) == es[i];
      assert pre[j] == sel[j];
      assert KeyLe(SelectedKey(sel[j]), SelectedKey(sel[n]));
      assert SelectedKey(sel[j]) == [m] + FieldRefKey(es[i]);
      assert SelectedKey(sel[n]) == [m] + FieldRefKey(last);
      KeyLeDropHead(m, FieldRefKey(es[i]), FieldRefKey(last));
    }
  }

  /** What `generate_removed_fields` writes: one file for each module with a
      removed field and for no other; every file is non-empty, lists each of
      that module's removed fields, lists nothing else, and is in `(model,
      field)` order. */
  lemma RemovedFieldsSpec(rows: seq<Row>, m: string)
    ensures var sel := RemovedFieldSelection(rows);
            var g := GroupByModule(sel);
            && (m in g <==> exists j :: 0 <= j < |sel| && sel[j].moduleName == m)
            && (m in g ==> g[m] != [] && SortedBy(g[m], FieldRefKey))
            && (m in g ==> forall e :: e in g[m] <==> exists j :: 0 <= j < |sel| && sel[j].moduleName == m && EntryOf(sel[j]) == e)
  {
    var sel := RemovedFieldSelection(rows);
    var g := GroupByModule(sel);
    if m in g {
      var j :| 0 <= j < |sel| && sel[j].moduleName == m;
      EntriesComplete(sel, j);
      EntriesSorted(sel, m);
      forall e | e in g[m]
        ensures exists j :: 0 <= j < |sel| && sel[j].moduleName == m && EntryOf(sel[j]) == e
      {
        EntriesOrigin(sel, m, e);
      }
      forall e | exists j :: 0 <= j < |sel| && sel[j].moduleName == m && EntryOf(sel[j]) == e
        ensures e in g[m]
      {
        var j :| 0 <= j < |sel| && sel[j].moduleName == m && EntryOf(sel[j]) == e;
        EntriesComplete(sel, j);
      }
    }
  }

  /*** Renamed models ***/

  /** `\brenamed\s+<word>\s+([\w\.]+)` tried at position `p`: the captured
      name. Each run is greedy and cannot give back characters, so the match
      is unique. */
  function RenameMatchAt(info: string, word: string, p: nat): Option<string>
    requires p <= |info|
  {
    if (p == 0 || !IsWordChar(info[p - 1])) && OccursAt(info, "renamed", p) then
      var a := p + 7;
      var b := SpaceEnd(info, a);
      if b > a && OccursAt(info, word, b) then
        var c := b + |word|;
        var d := SpaceEnd(info, c);
        var e := NameEnd(info, d);
        if d > c && e > d then Some(info[d..e]) else None
      else None
    else None
  }

  /** `re.search` from position `p` on: the leftmost match. */
  function RenameSearch(info: string, word: string, p: nat): Option<string>
    requires p <= |info|
    decreases |info| - p
  {
    match RenameMatchAt(info, word, p)
    case Some(x) => Some(x)
    case None => if p == |info| then None else RenameSearch(info, word, p + 1)
  }

  function RenameTarget(info: string, word: string): Option<string>
  {
    RenameSearch(info, word, 0)
  }

  /** The `rename_info` entry of a `details_json` column, `None` when the column
      does not decode to a JSON object holding one. */
  function RenameInfo(details: JsonText): Json
  {
    match Deserialize(details)
    case Some(JObject(d)) => if "rename_info" in d then d["rename_info"] else JNull
    case _ => JNull
  }

  /** The `(old, new)` pair one row contributes. A truthy `rename_info` that is
      not a string makes `re.search` raise `TypeError`. */
  function RenamePair(modelName: string, details: JsonText): Result<Option<Key>, string>
  {
    var info := RenameInfo(details);
    if !Truthy(info) then Success(None)
    else if !info.JString? then Failure("TypeError")
    else
      match RenameTarget(info.s, "to")
      case Some(newModel) => Success(Some([modelName, newModel]))
      case None =>
        match RenameTarget(info.s, "from")
        case Some(oldModel) => Success(Some([oldModel, modelName]))
        case None => Success(None)
  }

  /** The `WHERE` clause of `generate_renamed_models`. A NULL `details_json`
      column, which the clause drops, contributes no pair anyway. */
  predicate IsRenameCandidate(r: Row)
  {
    r.changeCategory == ModelCategory && r.modelName.Some?
  }

  /** The `renamed_model_pairs` set after the given rows, or the error raised
      on the way. */
  function CollectPairs(rows: seq<Row>): Result<set<Key>, string>
  {
    if rows == [] then Success({})
    else
      var last := rows[|rows| - 1];
      match CollectPairs(rows[..|rows| - 1])
      case Failure(e) => Failure(e)
      case Success(pairs) =>
        if !IsRenameCandidate(last) then Success(pairs)
        else
          match RenamePair(last.modelName.value, last.detailsJson)
          case Failure(e) => Failure(e)
          case Success(None) => Success(pairs)
          case Success(Some(pair)) => Success(pairs + {pair})
  }

  /** What a generator that may raise returns. */
  datatype Outcome<T> = Missing | Raised(error: string) | Written(content: T)

  function RenamedModelLine(pair: Key): string
    requires |pair| == 2
  {
    "- [\"" + pair[0] + "\", \"" + pair[1] + "\", None]"
  }

  /** `generate_renamed_models`: the pairs of all rows, each once, in ascending
      order. The query's `ORDER BY model_name` changes neither the set nor
      whether a row raises, so the rows are read in table order. */
  method GenerateRenamedModels(storeExists: bool, rows: seq<Row>) returns (out: Outcome<seq<Key>>)
    ensures out.Missing? <==> !storeExists
    ensures out.Raised? <==> storeExists && CollectPairs(rows).Failure?
    ensures out.Written? ==> CollectPairs(rows).Success? && StrictlySortedBy(out.content, KeyLt)
    ensures out.Written? ==> forall pair :: pair in out.content <==> pair in CollectPairs(rows).value
  {
    if !storeExists {
      return Missing;
    }
    var pairs: set<Key> := {};
    var i := 0;
    while i < |rows|
      invariant i <= |rows|
      invariant CollectPairs(rows[..i]) == Success(pairs)
    {
      assert rows[..i + 1][..i] == rows[..i];
      if IsRenameCandidate(rows[i]) {
        var r := RenamePair(rows[i].modelName.value, rows[i].detailsJson);
        if r.Failure? {
          CollectPairsFailurePersists(rows, i + 1);
          return Raised(r.error);
        }
        if r.value.Some? {
          pairs := pairs + {r.value.value};
        }
      }
      i := i + 1;
    }
    assert rows[..i] == rows;
    KeyLtIsStrictTotalOrder();
    var sorted := SortSet(pairs, KeyLt);
    return Written(sorted);
  }

  /** Once a row raises, the whole projection raises. */
  lemma {:induction false} CollectPairsFailurePersists(rows: seq<Row>, i: nat)
    requires i <= |rows|
    requires CollectPairs(rows[..i]).Failure?
    ensures CollectPairs(rows).Failure?
    decreases |rows| - i
  {
    if i < |rows| {
      assert rows[..i + 1][..i] == rows[..i];
      CollectPairsFailurePersists(rows, i + 1);
    } else {
      assert rows[..i] == rows;
    }
  }

  /** A row raises or contributes a pair only through `RenamePair`. */
  predicate RowRaises(r: Row)
  {
    IsRenameCandidate(r) && RenamePair(r.modelName.value, r.detailsJson).Failure?
  }

  predicate RowGives(r: Row, pair: Key)
  {
    IsRenameCandidate(r) && RenamePair(r.modelName.value, r.detailsJson) == Success(Some(pair))
  }

  /** The projection raises exactly when one of its rows does. */
  lemma {:induction false} CollectPairsRaises(rows: seq<Row>)
    ensures CollectPairs(rows).Failure? <==> exists k :: 0 <= k < |rows| && RowRaises(rows[k])
    decreases |rows|
  {
    if rows != [] {
      var n := |rows| - 1;
      var pre := rows[..n];
      CollectPairsRaises(pre);
      forall k | 0 <= k < n
        ensures rows[k] == pre[k]
      {
      }
    }
  }

  /** When it does not raise, it holds the pairs of its rows and nothing else,
      each once. */
  lemma {:induction false} CollectPairsHolds(rows: seq<Row>, pair: Key)
    requires CollectPairs(rows).Success?
    ensures pair in CollectPairs(rows).value <==> exists k :: 0 <= k < |rows| && RowGives(rows[k], pair)
    decreases |rows|
  {
    if rows != [] {
      var n := |rows| - 1;
      var pre := rows[..n];
      CollectPairsHolds(pre, pair);
      CollectPairsLast(rows, pair);
      ExistsLast(rows, pre, n, r => RowGives(r, pair));
    }
  }

  /** Some element satisfies `p` exactly when one before the last does or the
      last does. */
  lemma ExistsLast<T>(s: seq<T>, pre: seq<T>, n: nat, p: T -> bool)
    requires n + 1 == |s| && pre == s[..n]
    ensures (exists k :: 0 <= k < |s| && p(s[k])) <==> (exists k :: 0 <= k < n && p(pre[k])) || p(s[n])
  {
    if exists k :: 0 <= k < |s| && p(s[k]) {
      var k :| 0 <= k < |s| && p(s[k]);
      if k < n {
        assert p(pre[k]);
      }
    }
    if exists k :: 0 <= k < n && p(pre[k]) {
      var k :| 0 <= k < n && p(pre[k]);
      assert p(s[k]);
    }
  }

  /** The last row adds its own pair, if it gives one, to those before it. */
  lemma CollectPairsLast(rows: seq<Row>, pair: Key)
    requires rows != [] && CollectPairs(rows).Success?
    ensures CollectPairs(rows[..|rows| - 1]).Success?
    ensures pair in CollectPairs(rows).value <==>
      pair in CollectPairs(rows[..|rows| - 1]).value || RowGives(rows[|rows| - 1], pair)
  {
  }

  /** One match of `\brenamed\s+<word>\s+([\w\.]+)` capturing `x`: `renamed`
      at `p` with no word character before it, whitespace up to `b`, `word` at
      `b`, whitespace up to `d`, and at `d` the name `x`, which the greedy
      class extends as far as it goes. */
  predicate RenameMatchShape(info: string, word: string, x: string, p: nat, b: nat, d: nat)
  {
    p + 7 < b && b + |word| < d && d + |x| <= |info|
    && (p == 0 || !IsWordChar(info[p - 1]))
    && OccursAt(info, "renamed", p)
    && AllSpace(info[p + 7..b])
    && OccursAt(info, word, b)
    && AllSpace(info[b + |word|..d])
    && x != [] && AllNameChars(x) && OccursAt(info, x, d)
    && (d + |x| == |info| || !IsNameChar(info[d + |x|]))
  }

  /** What the matcher checks on its way to a capture, and what it captures. */
  lemma RenameMatchAtParts(info: string, word: string, p: nat)
    requires p <= |info| && RenameMatchAt(info, word, p).Some?
    ensures (p == 0 || !IsWordChar(info[p - 1])) && OccursAt(info, "renamed", p)
    ensures var b := SpaceEnd(info, p + 7);
            var d := SpaceEnd(info, b + |word|);
            b > p + 7 && OccursAt(info, word, b) && d > b + |word| && NameEnd(info, d) > d
            && RenameMatchAt(info, word, p).value == info[d..NameEnd(info, d)]
  {
  }

  /** The matcher captures `info[d..e]` once each of its checks passes. */
  lemma RenameMatchAtFrom(info: string, word: string, p: nat, b: nat, d: nat, e: nat)
    requires p + 7 <= |info| && (p == 0 || !IsWordChar(info[p - 1])) && OccursAt(info, "renamed", p)
    requires b == SpaceEnd(info, p + 7) && b > p + 7 && OccursAt(info, word, b)
    requires d == SpaceEnd(info, b + |word|) && d > b + |word|
    requires e == NameEnd(info, d) && e > d
    ensures RenameMatchAt(info, word, p) == Some(info[d..e])
  {
  }

  /** The facts the matcher establishes make up a match of the pattern. */
  lemma ShapeFromParts(info: string, word: string, p: nat, b: nat, d: nat, e: nat)
    requires p + 7 < b && b + |word| < d && d < e <= |info|
    requires (p == 0 || !IsWordChar(info[p - 1])) && OccursAt(info, "renamed", p) && OccursAt(info, word, b)
    requires AllSpace(info[p + 7..b]) && AllSpace(info[b + |word|..d]) && AllNameChars(info[d..e])
    requires e == |info| || !IsNameChar(info[e])
    ensures RenameMatchShape(info, word, info[d..e], p, b, d)
  {
    assert OccursAt(info, info[d..e], d);
  }

  /** The scan the matcher performs, when each of its checks passes, reads a
      match of the pattern. */
  lemma ShapeOfScan(info: string, word: string, p: nat, b: nat, d: nat)
    requires p + 7 <= |info| && (p == 0 || !IsWordChar(info[p - 1])) && OccursAt(info, "renamed", p)
    requires b == SpaceEnd(info, p + 7) && b > p + 7 && OccursAt(info, word, b)
    requires d == SpaceEnd(info, b + |word|) && d > b + |word| && NameEnd(info, d) > d
    ensures RenameMatchShape(info, word, info[d..NameEnd(info, d)], p, b, d)
  {
    SpaceEndSpaces(info, p + 7);
    SpaceEndSpaces(info, b + |word|);
    NameEndNames(info, d);
    ShapeFromParts(info, word, p, b, d, NameEnd(info, d));
  }

  lemma RenameMatchAtSound(info: string, word: string, p: nat)
    requires p <= |info| && RenameMatchAt(info, word, p).Some?
    ensures var b := SpaceEnd(info, p + 7);
            RenameMatchShape(info, word, RenameMatchAt(info, word, p).value, p, b, SpaceEnd(info, b + |word|))
  {
    RenameMatchAtParts(info, word, p);
    var b := SpaceEnd(info, p + 7);
    ShapeOfScan(info, word, p, b, SpaceEnd(info, b + |word|));
  }

  lemma {:induction false} RenameSearchSound(info: string, word: string, p: nat)
    requires p <= |info| && RenameSearch(info, word, p).Some?
    ensures exists q :: p <= q <= |info| && RenameMatchAt(info, word, q) == RenameSearch(info, word, p)
    decreases |info| - p
  {
    if RenameMatchAt(info, word, p).None? {
      RenameSearchSound(info, word, p + 1);
    }
  }

  /** A captured model name comes from a match of the pattern: a non-empty,
      maximal run of name characters that follows `renamed`, whitespace,
      `word` and whitespace in the text. */
  lemma RenameTargetSound(info: string, word: string)
    requires RenameTarget(info, word).Some?
    ensures var x := RenameTarget(info, word).value;
            x != [] && AllNameChars(x) && exists p, b, d :: RenameMatchShape(info, word, x, p, b, d)
  {
    RenameSearchSound(info, word, 0);
    var q :| 0 <= q <= |info| && RenameMatchAt(info, word, q) == RenameTarget(info, word);
    RenameMatchAtSound(info, word, q);
  }

  /** Conversely, a match of the pattern at `p` is what the matcher finds
      there. The keyword must not start with whitespace, as "to" and "from"
      do not, so that the greedy `\s+` before it cannot swallow its start. */
  lemma RenameMatchAtComplete(info: string, word: string, x: string, p: nat, b: nat, d: nat)
    requires RenameMatchShape(info, word, x, p, b, d)
    requires word != [] && !IsSpace(word[0])
    ensures RenameMatchAt(info, word, p) == Some(x)
  {
    forall k | p + 7 <= k < b
      ensures IsSpace(info[k])
    {
      assert info[k] == info[p + 7..b][k - p - 7];
    }
    assert info[b] == info[b..b + |word|][0];
    SpaceEndAt(info, p + 7, b);
    forall k | b + |word| <= k < d
      ensures IsSpace(info[k])
    {
      assert info[k] == info[b + |word|..d][k - b - |word|];
    }
    SliceChars(info, d, x);
    NameCharNotSpace(info[d]);
    SpaceEndAt(info, b + |word|, d);
    NameEndAt(info, d, d + |x|);
    RenameMatchAtFrom(info, word, p, b, d, d + |x|);
  }

  /** The search from `q` stops at the first position holding a match. */
  lemma {:induction false} RenameSearchFinds(info: string, word: string, q: nat, p: nat, x: string)
    requires q <= p <= |info| && RenameMatchAt(info, word, p) == Some(x)
    requires forall k :: q <= k < p ==> RenameMatchAt(info, word, k).None?
    ensures RenameSearch(info, word, q) == Some(x)
    decreases p - q
  {
    if q < p {
      RenameSearchFinds(info, word, q + 1, p, x);
    }
  }

  /** The search from `q` finds something when a match starts at or after
      `q`. */
  lemma {:induction false} RenameSearchReaches(info: string, word: string, q: nat, p: nat)
    requires q <= p <= |info| && RenameMatchAt(info, word, p).Some?
    ensures RenameSearch(info, word, q).Some?
    decreases p - q
  {
    if q < p && RenameMatchAt(info, word, q).None? {
      RenameSearchReaches(info, word, q + 1, p);
    }
  }

  /** Any match of the pattern in the text makes the search succeed. */
  lemma RenameTargetComplete(info: string, word: string, x: string, p: nat, b: nat, d: nat)
    requires RenameMatchShape(info, word, x, p, b, d)
    requires word != [] && !IsSpace(word[0])
    ensures RenameTarget(info, word).Some?
  {
    RenameMatchAtComplete(info, word, x, p, b, d);
    RenameSearchReaches(info, word, 0, p);
  }

  /** `re.search` returns the leftmost match: a match at `p` with no match
      starting before `p` is the one captured. */
  lemma RenameTargetLeftmost(info: string, word: string, x: string, p: nat, b: nat, d: nat)
    requires RenameMatchShape(info, word, x, p, b, d)
    requires word != [] && !IsSpace(word[0])
    requires forall q: nat, y: string, b2: nat, d2: nat :: q < p ==> !RenameMatchShape(info, word, y, q, b2, d2)
    ensures RenameTarget(info, word) == Some(x)
  {
    RenameMatchAtComplete(info, word, x, p, b, d);
    forall k | 0 <= k < p
      ensures RenameMatchAt(info, word, k).None?
    {
      if RenameMatchAt(info, word, k).Some? {
        RenameMatchAtSound(info, word, k);
      }
    }
    RenameSearchFinds(info, word, 0, p, x);
  }

  /** A match at the start of `t` is a match at `n` in a text whose suffix
      from `n` is `t`, when a word boundary holds at `n`. */
  lemma ShapeShift(info: string, t: string, n: nat, word: string, x: string, b: nat, d: nat)
    requires n <= |info| && info[n..] == t
    requires RenameMatchShape(t, word, x, 0, b, d)
    requires n == 0 || !IsWordChar(info[n - 1])
    ensures RenameMatchShape(info, word, x, n, n + b, n + d)
  {
    assert info[n..][0..7] == info[n..n + 7];
    assert info[n..][7..b] == info[n + 7..n + b];
    assert info[n..][b..b + |word|] == info[n + b..n + b + |word|];
    assert info[n..][b + |word|..d] == info[n + b + |word|..n + d];
    assert info[n..][d..d + |x|] == info[n + d..n + d + |x|];
    if d + |x| < |t| {
      assert info[n + d + |x|] == t[d + |x|];
    }
  }

  /** Where `renamed to ` sits at the head of `renamed to <tail>`. */
  lemma RenamedToHead(info: string, tail: string)
    requires info == "renamed" + (" " + ("to" + (" " + tail)))
    ensures OccursAt(info, "renamed", 0) && OccursAt(info, "to", 8)
    ensures IsSpace(info[7]) && !IsSpace(info[8]) && IsSpace(info[10])
    ensures 11 <= |info| && info[11..] == tail
  {
    Pieces3(info, "renamed", " ", "to", " " + tail);
    assert info[..7] == info[0..7];
    assert info[7] == info[7..8][0];
    SuffixSplit(info, 8, "to", " " + tail);
    assert info[8] == info[8..10][0];
    HeadSplit(info, 10, ' ', tail);
  }

  /** Where the name sits in the tail `<x><rest>` at position `i`. */
  lemma CapturedName(info: string, i: nat, x: string, rest: string)
    requires i <= |info| && info[i..] == x + rest
    requires x != [] && AllNameChars(x)
    requires rest == [] || !IsNameChar(rest[0])
    ensures i + |x| <= |info| && info[i..i + |x|] == x
    ensures forall k :: i <= k < i + |x| ==> IsNameChar(info[k])
    ensures i + |x| == |info| || !IsNameChar(info[i + |x|])
  {
    SuffixSplit(info, i, x, rest);
    SliceChars(info, i, x);
    if rest != [] {
      HeadSplit(info, i + |x|, rest[0], rest[1..]);
    }
  }

  /** Where the pieces of `renamed to <x><rest>` sit. */
  lemma RenamedToPieces(info: string, x: string, rest: string)
    requires info == "renamed" + (" " + ("to" + (" " + (x + rest))))
    requires x != [] && AllNameChars(x)
    requires rest == [] || !IsNameChar(rest[0])
    ensures OccursAt(info, "renamed", 0) && OccursAt(info, "to", 8)
    ensures IsSpace(info[7]) && !IsSpace(info[8]) && IsSpace(info[10])
    ensures 11 + |x| <= |info| && info[11..11 + |x|] == x
    ensures forall k :: 11 <= k < 11 + |x| ==> IsNameChar(info[k])
    ensures 11 + |x| == |info| || !IsNameChar(info[11 + |x|])
  {
    RenamedToHead(info, x + rest);
    CapturedName(info, 11, x, rest);
  }

  /** The matcher at position 0 on text shaped like `renamed to <x>...`. */
  lemma RenamedToAt(info: string, e: nat)
    requires 11 < e <= |info|
    requires OccursAt(info, "renamed", 0) && OccursAt(info, "to", 8)
    requires IsSpace(info[7]) && !IsSpace(info[8]) && IsSpace(info[10])
    requires forall k :: 11 <= k < e ==> IsNameChar(info[k])
    requires e == |info| || !IsNameChar(info[e])
    ensures RenameMatchAt(info, "to", 0) == Some(info[11..e])
  {
    NameCharNotSpace(info[11]);
    SpaceEndAt(info, 7, 8);
    SpaceEndAt(info, 10, 11);
    NameEndAt(info, 11, e);
  }

  /** `renamed to <x>` at the start of the text captures `<x>` whatever follows
      a non-name character. */
  lemma RenamedToCaptures(x: string, rest: string)
    requires x != [] && AllNameChars(x)
    requires rest == [] || !IsNameChar(rest[0])
    ensures RenameTarget("renamed" + (" " + ("to" + (" " + (x + rest)))), "to") == Some(x)
  {
    var info := "renamed" + (" " + ("to" + (" " + (x + rest))));
    RenamedToPieces(info, x, rest);
    RenamedToAt(info, 11 + |x|);
  }

  /** "renamed to" is preferred: with a leading `renamed to <x>` the pair is
      `(model, x)` even when a "renamed from" clause follows. */
  lemma RenamedToWins(model: string, x: string, rest: string)
    requires x != [] && AllNameChars(x)
    requires rest == [] || !IsNameChar(rest[0])
    ensures var info := "renamed" + (" " + ("to" + (" " + (x + rest))));
            RenamePair(model, Decodes(JObject(map["rename_info" := JString(info)]))) == Success(Some([model, x]))
  {
    RenamedToCaptures(x, rest);
  }

  /** Where `renamed from ` sits at the head of `renamed from <tail>`. */
  lemma RenamedFromHead(info: string, tail: string)
    requires info == "renamed" + (" " + ("from" + (" " + tail)))
    ensures OccursAt(info, "renamed", 0) && OccursAt(info, "from", 8) && info[8] == 'f'
    ensures IsSpace(info[7]) && IsSpace(info[12])
    ensures 13 <= |info| && info[13..] == tail
  {
    Pieces3(info, "renamed", " ", "from", " " + tail);
    assert info[..7] == info[0..7];
    assert info[7] == info[7..8][0];
    assert info[8] == info[8..12][0];
    SuffixSplit(info, 8, "from", " " + tail);
    HeadSplit(info, 12, ' ', tail);
  }

  /** In `renamed from <tail>`, with no `renamed` in the tail, the only
      occurrence of `renamed` is the leading one: every other candidate
      position overlaps a separating space or lies inside the tail. */
  lemma RenamedOnlyAtHead(info: string, tail: string, q: nat)
    requires 13 <= |info| && info[13..] == tail && IsSpace(info[7]) && IsSpace(info[12])
    requires !Contains(tail, "renamed")
    requires 1 <= q <= |info|
    ensures !OccursAt(info, "renamed", q)
  {
    if q <= 12 {
      var k := if q <= 7 then 7 else 12;
      if q + 7 <= |info| {
        assert info[q..q + 7][k - q] == info[k];
      }
    } else if OccursAt(info, "renamed", q) {
      assert info[13..][q - 13..q - 6] == info[q..q + 7];
      assert OccursAt(tail, "renamed", q - 13);
    }
  }

  /** The search finds nothing from `p` on when `renamed` does not occur
      there. */
  lemma {:induction false} SearchWithoutRenamed(info: string, word: string, p: nat)
    requires p <= |info|
    requires forall q :: p <= q <= |info| ==> !OccursAt(info, "renamed", q)
    ensures RenameSearch(info, word, p) == None
    decreases |info| - p
  {
    if p < |info| {
      SearchWithoutRenamed(info, word, p + 1);
    }
  }

  /** The "to" pattern finds nothing in `renamed from <tail>` when the tail
      holds no `renamed`. */
  lemma RenamedFromNoTo(info: string, tail: string)
    requires 13 <= |info| && info[13..] == tail && !Contains(tail, "renamed")
    requires OccursAt(info, "renamed", 0) && info[8] == 'f'
    requires IsSpace(info[7]) && IsSpace(info[12])
    ensures RenameTarget(info, "to") == None
  {
    forall q | 1 <= q <= |info|
      ensures !OccursAt(info, "renamed", q)
    {
      RenamedOnlyAtHead(info, tail, q);
    }
    SearchWithoutRenamed(info, "to", 1);
    SpaceEndAt(info, 7, 8);
  }

  /** The "from" matcher at position 0 on text shaped like
      `renamed from <x>...`. */
  lemma RenamedFromAt(info: string, e: nat)
    requires 13 < e <= |info|
    requires OccursAt(info, "renamed", 0) && OccursAt(info, "from", 8) && info[8] == 'f'
    requires IsSpace(info[7]) && IsSpace(info[12])
    requires forall k :: 13 <= k < e ==> IsNameChar(info[k])
    requires e == |info| || !IsNameChar(info[e])
    ensures RenameMatchAt(info, "from", 0) == Some(info[13..e])
    ensures RenameTarget(info, "from") == Some(info[13..e])
  {
    NameCharNotSpace(info[13]);
    SpaceEndAt(info, 7, 8);
    SpaceEndAt(info, 12, 13);
    NameEndAt(info, 13, e);
  }

  /** Text laid out as `renamed from <tail>`, where the tail opens with a
      name run of length `n` and holds no `renamed`: the "to" pattern finds
      nothing and the "from" pattern captures that run. */
  lemma FromLayoutCaptures(info: string, tail: string, n: nat)
    requires 13 <= |info| && info[13..] == tail
    requires OccursAt(info, "renamed", 0) && OccursAt(info, "from", 8) && info[8] == 'f'
    requires IsSpace(info[7]) && IsSpace(info[12])
    requires 0 < n <= |tail| && (forall k :: 0 <= k < n ==> IsNameChar(tail[k]))
    requires n == |tail| || !IsNameChar(tail[n])
    requires !Contains(tail, "renamed")
    ensures RenameTarget(info, "to") == None && RenameTarget(info, "from") == Some(tail[..n])
  {
    forall k | 13 <= k < 13 + n
      ensures IsNameChar(info[k])
    {
      assert info[k] == info[13..][k - 13];
    }
    if 13 + n < |info| {
      assert info[13 + n] == info[13..][n];
    }
    RenamedFromNoTo(info, tail);
    RenamedFromAt(info, 13 + n);
    assert info[13..13 + n] == tail[..n];
  }

  lemma RenamedFromTail(tail: string, n: nat)
    requires 0 < n <= |tail| && (forall k :: 0 <= k < n ==> IsNameChar(tail[k]))
    requires n == |tail| || !IsNameChar(tail[n])
    requires !Contains(tail, "renamed")
    ensures var info := "renamed" + (" " + ("from" + (" " + tail)));
            RenameTarget(info, "to") == None && RenameTarget(info, "from") == Some(tail[..n])
  {
    var info := "renamed" + (" " + ("from" + (" " + tail)));
    RenamedFromHead(info, tail);
    FromLayoutCaptures(info, tail, n);
  }

  /** `renamed from <x>` at the start of a text holding no other `renamed`:
      the "to" pattern finds nothing and the "from" pattern captures `<x>`. */
  lemma RenamedFromCaptures(x: string, rest: string)
    requires x != [] && AllNameChars(x)
    requires rest == [] || !IsNameChar(rest[0])
    requires !Contains(x + rest, "renamed")
    ensures var info := "renamed" + (" " + ("from" + (" " + (x + rest))));
            RenameTarget(info, "to") == None && RenameTarget(info, "from") == Some(x)
  {
    assert (x + rest)[..|x|] == x;
    RenamedFromTail(x + rest, |x|);
  }

  /** The pair a string `rename_info` gives once the "to" search has found
      `x`. */
  lemma PairOfTo(model: string, info: string, x: string)
    requires RenameTarget(info, "to") == Some(x)
    ensures RenamePair(model, Decodes(JObject(map["rename_info" := JString(info)]))) == Success(Some([model, x]))
  {
    assert info != [];
  }

  /** The pair a string `rename_info` gives when only the "from" search finds
      something. */
  lemma PairOfFrom(model: string, info: string, x: string)
    requires RenameTarget(info, "to") == None && RenameTarget(info, "from") == Some(x)
    ensures RenamePair(model, Decodes(JObject(map["rename_info" := JString(info)]))) == Success(Some([x, model]))
  {
    assert info != [];
  }

  /** A model whose `rename_info` is "renamed from X" and mentions `renamed`
      nowhere else gives the pair (X, model). */
  lemma RenamedFromGives(model: string, x: string, rest: string)
    requires x != [] && AllNameChars(x)
    requires rest == [] || !IsNameChar(rest[0])
    requires !Contains(x + rest, "renamed")
    ensures var info := "renamed" + (" " + ("from" + (" " + (x + rest))));
            RenamePair(model, Decodes(JObject(map["rename_info" := JString(info)]))) == Success(Some([x, model]))
  {
    RenamedFromCaptures(x, rest);
    PairOfFrom(model, "renamed" + (" " + ("from" + (" " + (x + rest)))), x);
  }

  /** In `renamed from <y><sep>...`, with no `renamed` in `y` and `sep`
      whitespace up to `e`, no `renamed` starts between the leading one and
      `e`: each candidate overlaps a separating space or lies inside `y`. */
  lemma NoRenamedBefore(info: string, y: string, e: nat, q: nat)
    requires 13 + |y| < e <= |info| && info[13..13 + |y|] == y
    requires IsSpace(info[7]) && IsSpace(info[12])
    requires forall k :: 13 + |y| <= k < e ==> IsSpace(info[k])
    requires !Contains(y, "renamed")
    requires 1 <= q < e
    ensures !OccursAt(info, "renamed", q)
  {
    if q <= 12 {
      var k := if q <= 7 then 7 else 12;
      if q + 7 <= |info| {
        assert info[q..q + 7][k - q] == info[k];
      }
    } else if q + 7 <= 13 + |y| {
      if OccursAt(info, "renamed", q) {
        SliceChars(info, 13, y);
        assert y[q - 13..q - 6] == info[q..q + 7];
        assert OccursAt(y, "renamed", q - 13);
      }
    } else {
      var k := if q < 13 + |y| then 13 + |y| else q;
      if q + 7 <= |info| {
        assert info[q..q + 7][k - q] == info[k];
      }
    }
  }

  /** Where the pieces of `renamed from <y><sep><t>` sit, with `sep`
      whitespace ending at `e`. */
  lemma AfterFromLayout(info: string, y: string, sep: string, t: string)
    requires info == "renamed" + (" " + ("from" + (" " + (y + (sep + t)))))
    requires sep != [] && AllSpace(sep)
    ensures 13 + |y| + |sep| <= |info| && info[13..13 + |y|] == y
    ensures info[13 + |y| + |sep|..] == t
    ensures OccursAt(info, "renamed", 0) && info[8] == 'f' && IsSpace(info[7]) && IsSpace(info[12])
    ensures forall k :: 13 + |y| <= k < 13 + |y| + |sep| ==> IsSpace(info[k])
  {
    RenamedFromHead(info, y + (sep + t));
    SuffixSplit(info, 13, y, sep + t);
    SuffixSplit(info, 13 + |y|, sep, t);
    SliceChars(info, 13 + |y|, sep);
  }

  /** With that layout, no match of the "to" pattern starts before `e`: the
      leading `renamed` is followed by "from", and no other `renamed` starts
      there. */
  lemma NoToBefore(info: string, y: string, e: nat)
    requires 13 + |y| < e <= |info| && info[13..13 + |y|] == y
    requires OccursAt(info, "renamed", 0) && info[8] == 'f' && IsSpace(info[7]) && IsSpace(info[12])
    requires forall k :: 13 + |y| <= k < e ==> IsSpace(info[k])
    requires !Contains(y, "renamed")
    ensures forall q: nat, z: string, b2: nat, d2: nat :: q < e ==> !RenameMatchShape(info, "to", z, q, b2, d2)
  {
    SpaceEndAt(info, 7, 8);
    assert RenameMatchAt(info, "to", 0).None?;
    forall q: nat, z: string, b2: nat, d2: nat | q < e
      ensures !RenameMatchShape(info, "to", z, q, b2, d2)
    {
      if q == 0 {
        if RenameMatchShape(info, "to", z, q, b2, d2) {
          RenameMatchAtComplete(info, "to", z, q, b2, d2);
        }
      } else {
        NoRenamedBefore(info, y, e, q);
      }
    }
  }

  /** `renamed to <x><rest>` is a match of the "to" pattern at its start. */
  lemma RenamedToShape(t: string, x: string, rest: string)
    requires t == "renamed" + (" " + ("to" + (" " + (x + rest))))
    requires x != [] && AllNameChars(x)
    requires rest == [] || !IsNameChar(rest[0])
    ensures RenameMatchShape(t, "to", x, 0, 8, 11)
  {
    RenamedToPieces(t, x, rest);
    assert t[7..8] == [t[7]];
    assert t[10..11] == [t[10]];
  }

  /** A match of the "to" pattern at `e`, after the `renamed from <y>`
      layout, is the one the search captures. */
  lemma ToAfterFromLayout(info: string, y: string, e: nat, t: string, x: string)
    requires 13 + |y| < e <= |info| && info[13..13 + |y|] == y && info[e..] == t
    requires OccursAt(info, "renamed", 0) && info[8] == 'f' && IsSpace(info[7]) && IsSpace(info[12])
    requires forall k :: 13 + |y| <= k < e ==> IsSpace(info[k])
    requires !Contains(y, "renamed")
    requires RenameMatchShape(t, "to", x, 0, 8, 11)
    ensures RenameTarget(info, "to") == Some(x)
  {
    assert IsSpace(info[e - 1]);
    ShapeShift(info, t, e, "to", x, 8, 11);
    NoToBefore(info, y, e);
    RenameTargetLeftmost(info, "to", x, e, e + 8, e + 11);
  }

  /** `renamed from <y><sep><t>`, with a "to" match at the start of `t`,
      captures that match. */
  lemma RenamedToAfterFromAt(y: string, sep: string, t: string, x: string)
    requires !Contains(y, "renamed")
    requires sep != [] && AllSpace(sep)
    requires RenameMatchShape(t, "to", x, 0, 8, 11)
    ensures RenameTarget("renamed" + (" " + ("from" + (" " + (y + (sep + t))))), "to") == Some(x)
  {
    var info := "renamed" + (" " + ("from" + (" " + (y + (sep + t)))));
    AfterFromLayout(info, y, sep, t);
    ToAfterFromLayout(info, y, 13 + |y| + |sep|, t, x);
  }

  /** The case the order of the two searches decides: in
      `renamed from <y> renamed to <x>...` both patterns match, and the
      "to" pattern captures `<x>` from the later clause. */
  lemma RenamedToAfterFrom(y: string, sep: string, x: string, rest: string)
    requires !Contains(y, "renamed")
    requires sep != [] && AllSpace(sep)
    requires x != [] && AllNameChars(x)
    requires rest == [] || !IsNameChar(rest[0])
    ensures var t := "renamed" + (" " + ("to" + (" " + (x + rest))));
            RenameTarget("renamed" + (" " + ("from" + (" " + (y + (sep + t))))), "to") == Some(x)
  {
    var t := "renamed" + (" " + ("to" + (" " + (x + rest))));
    RenamedToShape(t, x, rest);
    RenamedToAfterFromAt(y, sep, t, x);
  }

  /** "renamed to" takes precedence: a model whose `rename_info` is
      "renamed from Y renamed to X" gives the pair (model, X). */
  lemma RenamedToAfterFromGives(model: string, y: string, sep: string, x: string, rest: string)
    requires !Contains(y, "renamed")
    requires sep != [] && AllSpace(sep)
    requires x != [] && AllNameChars(x)
    requires rest == [] || !IsNameChar(rest[0])
    ensures var info := "renamed" + (" " + ("from" + (" " + (y + (sep + ("renamed" + (" " + ("to" + (" " + (x + rest))))))))));
            RenamePair(model, Decodes(JObject(map["rename_info" := JString(info)]))) == Success(Some([model, x]))
  {
    RenamedToAfterFrom(y, sep, x, rest);
    PairOfTo(model, "renamed" + (" " + ("from" + (" " + (y + (sep + ("renamed" + (" " + ("to" + (" " + (x + rest)))))))))), x);
  }

  /** A row is skipped, without raising, when its details do not decode, do
      not decode to an object, hold no `rename_info`, or hold a falsy one. */
  lemma NoInfoNoPair(model: string, details: JsonText)
    requires Deserialize(details).None? || !Deserialize(details).value.JObject?
             || "rename_info" !in Deserialize(details).value.fields
             || !Truthy(Deserialize(details).value.fields["rename_info"])
    ensures RenamePair(model, details) == Success(None)
  {
  }

  /** A truthy `rename_info` that is not a string raises. */
  lemma NonStringInfoRaises(model: string, info: Json)
    requires Truthy(info) && !info.JString?
    ensures RenamePair(model, Decodes(JObject(map["rename_info" := info]))).Failure?
  {
  }

  /*** Renamed fields ***/

  /** A `pre-migration.py` script found under the version's source directory:
      its path components and its syntax tree, `None` when it cannot be read
      or parsed. */
  datatype Script = Script(path: seq<string>, tree: Option<Node>)

  /** The name of the script's grandparent directory,
      `.../<module>/<version>/pre-migration.py`. */
  function ScriptModule(path: seq<string>): string
  {
    if |path| >= 3 then path[|path| - 3] else ""
  }

  /** The `renamed_fields_by_module` mapping after the given scripts. */
  function CollectRenamedFields(scripts: seq<Script>): map<string, seq<RenamedField>>
  {
    if scripts == [] then map[]
    else
      var g := CollectRenamedFields(scripts[..|scripts| - 1]);
      var last := scripts[|scripts| - 1];
      var m := ScriptModule(last.path);
      var tuples := Scan(last.tree);
      if tuples == [] then g
      else g[m := (if m in g then g[m] else []) + tuples]
  }

  /** The rows of every script of module `m`, in script order. */
  function ModuleRows(scripts: seq<Script>, m: string): seq<RenamedField>
  {
    if scripts == [] then []
    else
      ModuleRows(scripts[..|scripts| - 1], m)
      + (if ScriptModule(scripts[|scripts| - 1].path) == m then Scan(scripts[|scripts| - 1].tree) else [])
  }

  /** A module has an entry exactly when its scripts yield rows, and the entry
      is all of those rows, in order and with duplicates kept. */
  lemma {:induction false} CollectRenamedFieldsSpec(scripts: seq<Script>, m: string)
    ensures m in CollectRenamedFields(scripts) <==> ModuleRows(scripts, m) != []
    ensures m in CollectRenamedFields(scripts) ==> CollectRenamedFields(scripts)[m] == ModuleRows(scripts, m)
    decreases |scripts|
  {
    if scripts != [] {
      CollectRenamedFieldsSpec(scripts[..|scripts| - 1], m);
    }
  }

  /** Python's ordering of `(model, old_field, new_field)` tuples. */
  function FieldKey(f: RenamedField): Key
  {
    [f.model, f.oldField, f.newField]
  }

  /** One written file: a module and its lines' entries. */
  datatype ModuleFile<T> = ModuleFile(moduleName: string, entries: seq<T>)

  function RenamedFieldLine(f: RenamedField): string
  {
    "- ['" + f.model + "', '" + f.oldField + "', '" + f.newField + "', '']"
  }

  /** The first loop of `generate_renamed_fields`. */
  method CollectScripts(scripts: seq<Script>) returns (byModule: map<string, seq<RenamedField>>)
    ensures byModule == CollectRenamedFields(scripts)
  {
    byModule := map[];
    var i := 0;
    while i < |scripts|
      invariant i <= |scripts|
      invariant byModule == CollectRenamedFields(scripts[..i])
    {
      assert scripts[..i + 1][..i] == scripts[..i];
      var moduleName := ScriptModule(scripts[i].path);
      var tuples := ParsePreMigration(scripts[i].tree);
      if tuples != [] {
        var entries := if moduleName in byModule then byModule[moduleName] else [];
        byModule := byModule[moduleName := entries + tuples];
      }
      i := i + 1;
    }
    assert scripts[..i] == scripts;
  }

  /** The files written for a module mapping: one per module, in ascending
      module order, each holding its module's entries sorted. */
  ghost predicate FilesFor(files: seq<ModuleFile<RenamedField>>, g: map<string, seq<RenamedField>>)
  {
    && |files| == |g.Keys|
    && (forall m :: m in g <==> exists i :: 0 <= i < |files| && files[i].moduleName == m)
    && StrictlySortedBy(Modules(files), StrLt)
    && (forall i :: 0 <= i < |files| ==>
          files[i].moduleName in g && files[i].entries == SortBy(g[files[i].moduleName], FieldKey))
  }

  function Modules<T>(files: seq<ModuleFile<T>>): (r: seq<string>)
    ensures |r| == |files|
    ensures forall i :: 0 <= i < |files| ==> r[i] == files[i].moduleName
  {
    if files == [] then [] else [files[0].moduleName] + Modules(files[1..])
  }

  /** One file per listed module, in the listed order. */
  predicate FilesOf(files: seq<ModuleFile<RenamedField>>, modules: seq<string>, byModule: map<string, seq<RenamedField>>)
    requires forall m :: m in modules ==> m in byModule
  {
    && |files| == |modules|
    && forall j :: 0 <= j < |files| ==> files[j] == ModuleFile(modules[j], SortBy(byModule[modules[j]], FieldKey))
  }

  /** The second loop of `generate_renamed_fields`. */
  method WriteFiles(modules: seq<string>, byModule: map<string, seq<RenamedField>>)
    returns (files: seq<ModuleFile<RenamedField>>)
    requires forall m :: m in modules ==> m in byModule
    ensures FilesOf(files, modules, byModule)
  {
    files := [];
    var i := 0;
    while i < |modules|
      invariant i <= |modules|
      invariant FilesOf(files, modules[..i], byModule)
    {
      FilesOfSnoc(files, modules, byModule, i);
      files := files + [ModuleFile(modules[i], SortBy(byModule[modules[i]], FieldKey))];
      i := i + 1;
    }
    assert modules[..i] == modules;
  }

  /** One more module file extends the files of the listed prefix. */
  lemma FilesOfSnoc(files: seq<ModuleFile<RenamedField>>, modules: seq<string>, byModule: map<string, seq<RenamedField>>, i: nat)
    requires forall m :: m in modules ==> m in byModule
    requires i < |modules| && FilesOf(files, modules[..i], byModule)
    ensures FilesOf(files + [ModuleFile(modules[i], SortBy(byModule[modules[i]], FieldKey))], modules[..i + 1], byModule)
  {
    var next := files + [ModuleFile(modules[i], SortBy(byModule[modules[i]], FieldKey))];
    var listed := modules[..i + 1];
    forall j | 0 <= j < i + 1
      ensures next[j] == ModuleFile(listed[j], SortBy(byModule[listed[j]], FieldKey))
    {
      if j < i {
        assert listed[j] == modules[..i][j];
      }
    }
  }

  /** Files written in the listed order carry the listed module names. */
  lemma FilesOfModules(files: seq<ModuleFile<RenamedField>>, modules: seq<string>, byModule: map<string, seq<RenamedField>>)
    requires forall m :: m in modules ==> m in byModule
    requires FilesOf(files, modules, byModule)
    ensures Modules(files) == modules
  {
    forall i | 0 <= i < |files|
      ensures Modules(files)[i] == modules[i]
    {
      assert files[i].moduleName == modules[i];
    }
  }

  /** Listing every module of the mapping leaves none without its file. */
  lemma FilesOfCover(files: seq<ModuleFile<RenamedField>>, modules: seq<string>, byModule: map<string, seq<RenamedField>>)
    requires forall m :: m in modules <==> m in byModule
    requires Modules(files) == modules
    ensures forall m :: m in byModule <==> exists i :: 0 <= i < |files| && files[i].moduleName == m
  {
    forall m | m in byModule
      ensures exists i :: 0 <= i < |files| && files[i].moduleName == m
    {
      var i :| 0 <= i < |modules| && modules[i] == m;
      assert Modules(files)[i] == m;
    }
    forall i | 0 <= i < |files|
      ensures files[i].moduleName in byModule
    {
      assert Modules(files)[i] in modules;
    }
  }

  /** Listing the modules in ascending order gives the files of `FilesFor`. */
  lemma FilesOfSorted(files: seq<ModuleFile<RenamedField>>, modules: seq<string>, byModule: map<string, seq<RenamedField>>)
    requires StrictlySortedBy(modules, StrLt) && |modules| == |byModule.Keys|
    requires forall m :: m in modules <==> m in byModule
    requires FilesOf(files, modules, byModule)
    ensures FilesFor(files, byModule)
  {
    FilesOfModules(files, modules, byModule);
    FilesOfCover(files, modules, byModule);
    forall i | 0 <= i < |files|
      ensures files[i].moduleName in byModule
      ensures files[i].entries == SortBy(byModule[files[i].moduleName], FieldKey)
    {
      assert files[i] == ModuleFile(modules[i], SortBy(byModule[modules[i]], FieldKey));
    }
  }

  /** `sorted(renamed_fields_by_module.items())` and the files written. */
  method WriteModuleFiles(byModule: map<string, seq<RenamedField>>) returns (files: seq<ModuleFile<RenamedField>>)
    ensures FilesFor(files, byModule)
  {
    StrLtIsStrictTotalOrder();
    var modules := SortSet(byModule.Keys, StrLt);
    files := WriteFiles(modules, byModule);
    FilesOfSorted(files, modules, byModule);
  }

  /** `generate_renamed_fields`: one file per module with renamed fields, in
      ascending module order, each file's entries sorted. */
  method GenerateRenamedFields(sourceExists: bool, scripts: seq<Script>)
    returns (files: Option<seq<ModuleFile<RenamedField>>>)
    ensures files.Some? <==> sourceExists
    ensures files.Some? ==> FilesFor(files.value, CollectRenamedFields(scripts))
  {
    if !sourceExists {
      return None;
    }
    var byModule := CollectScripts(scripts);
    var written := WriteModuleFiles(byModule);
    return Some(written);
  }

  /** Each written file holds exactly its module's rows, sorted, with
      duplicates kept. */
  lemma RenamedFieldsFile(scripts: seq<Script>, m: string)
    requires m in CollectRenamedFields(scripts)
    ensures var entries := SortBy(CollectRenamedFields(scripts)[m], FieldKey);
            && entries != []
            && SortedBy(entries, FieldKey)
            && multiset(entries) == multiset(ModuleRows(scripts, m))
  {
    CollectRenamedFieldsSpec(scripts, m);
    var entries := SortBy(CollectRenamedFields(scripts)[m], FieldKey);
    assert |multiset(entries)| == |ModuleRows(scripts, m)|;
  }
}
