/** The pure helpers of upgrade_analysis_parser/processing/apriori.py: version
    normalisation, the choice of the upstream `apriori.py` location, the
    classification of the internal CSV document, and the way `get_apriori`
    and `query_apriori` merge the database tables with it. */
module Apriori {
  import opened Wrappers
  import opened Text
  import opened Order

  /** `normalize_version`: a version without a dot is a major version and
      gets ".0" appended; any other version is kept. */
  function NormalizeVersion(v: string): string
  {
    if '.' in v then v else v + ".0"
  }

  /** The normalised version extends the input, holds a dot, and normalising
      again changes nothing; the input is kept exactly when it has a dot. */
  lemma NormalizeVersionSpec(v: string)
    ensures StartsWith(NormalizeVersion(v), v)
    ensures '.' in NormalizeVersion(v)
    ensures NormalizeVersion(v) == v <==> '.' in v
    ensures NormalizeVersion(NormalizeVersion(v)) == NormalizeVersion(v)
  {
    var r := v + ".0";
    assert r[..|v|] == v;
    assert r[|v|] == '.';
    if '.' !in v {
      assert |r| != |v|;
    }
  }

  const OldLayoutPrefix := "https://github.com/OCA/OpenUpgrade/raw/refs/heads/"
  const OldLayoutSuffix := "/odoo/addons/openupgrade_records/lib/apriori.py"
  const ScriptsLayoutPrefix := "https://github.com/oca/OpenUpgrade/raw/refs/heads/"
  const ScriptsLayoutSuffix := "/openupgrade_scripts/apriori.py"

  /** The version left-padded with one "0" when shorter than four characters,
      so that "9.0" compares as "09.0". */
  function ComparedVersion(v: string): string
  {
    (if |v| < 4 then "0" else "") + v
  }

  /** `get_url`: versions up to "09.0" are refused; up to "13.0" the file lives
      in the old `openupgrade_records` layout, later in `openupgrade_scripts`.
      The comparison is Python's string order. */
  function GetUrl(v: string): Result<string, string>
  {
    var compared := ComparedVersion(v);
    if StrLe(compared, "09.0") then Failure("Version " + v + " is not supported")
    else if StrLe(compared, "13.0") then Success(OldLayoutPrefix + v + OldLayoutSuffix)
    else Success(ScriptsLayoutPrefix + v + ScriptsLayoutSuffix)
  }

  /** A successful URL is one of the two layouts with the unpadded version in
      the branch position. */
  lemma GetUrlLayouts(v: string)
    ensures GetUrl(v).Success? ==>
              GetUrl(v).value == OldLayoutPrefix + v + OldLayoutSuffix
              || GetUrl(v).value == ScriptsLayoutPrefix + v + ScriptsLayoutSuffix
    ensures GetUrl(v).Failure? <==> StrLe(ComparedVersion(v), "09.0")
  {
  }

  /** The cut-offs are monotone: a version that compares at or above a
      supported one is supported, and one at or above a version in the
      `openupgrade_scripts` layout is in that layout too. */
  lemma GetUrlMonotone(a: string, b: string)
    requires StrLe(ComparedVersion(a), ComparedVersion(b))
    ensures GetUrl(a).Success? ==> GetUrl(b).Success?
    ensures GetUrl(a) == Success(ScriptsLayoutPrefix + a + ScriptsLayoutSuffix) ==>
              GetUrl(b) == Success(ScriptsLayoutPrefix + b + ScriptsLayoutSuffix)
  {
    var ca, cb := ComparedVersion(a), ComparedVersion(b);
    StrLeTotalOrder(ca, cb, "09.0");
    StrLeTotalOrder(cb, "09.0", ca);
    StrLeTotalOrder(ca, cb, "13.0");
    StrLeTotalOrder(cb, "13.0", ca);
    if StrLe(ca, "13.0") {
      assert (OldLayoutPrefix + a + OldLayoutSuffix)[19] == 'O';
      assert (ScriptsLayoutPrefix + a + ScriptsLayoutSuffix)[19] == 'o';
    }
  }

  /** The releases around the cut-offs: 8.0 and 9.0 are refused, 10.0 to 13.0
      use the old layout and 14.0 the new one. */
  lemma GetUrlReleases()
    ensures GetUrl("8.0").Failure? && GetUrl("9.0").Failure?
    ensures GetUrl("10.0") == Success(OldLayoutPrefix + "10.0" + OldLayoutSuffix)
    ensures GetUrl("13.0") == Success(OldLayoutPrefix + "13.0" + OldLayoutSuffix)
    ensures GetUrl("14.0") == Success(ScriptsLayoutPrefix + "14.0" + ScriptsLayoutSuffix)
  {
    assert ComparedVersion("8.0") == "08.0" && ComparedVersion("9.0") == "09.0";
    assert StrLt("08.0", "09.0");
    assert StrLt("09.0", "10.0") && StrLt("10.0", "13.0");
    assert StrLt("09.0", "13.0") && StrLt("13.0", "14.0");
  }

  const NotNeededStatus := "not needed anymore"
  const MovedStatus := "moved to different repo"
  const NotNeededKey := "not_needed"
  const MovedKey := "moved_modules"
  const RenamedModulesKey := "renamed_modules"
  const MergedModulesKey := "merged_modules"

  /** A value of the nested result dictionaries: a string, a
      `(detail, references)` tuple, or a dictionary. */
  datatype Entry = Str(text: string) | Pair(detail: string, references: string) | Table(entries: map<string, Entry>)

  type Results = map<string, Entry>

  /** The sub-dictionary `setdefault(key, {})` hands back. */
  function Entries(res: Results, key: string): Results
  {
    if key in res && res[key].Table? then res[key].entries else map[]
  }

  /** `res.setdefault(key, {})[name] = e`. */
  function Put(res: Results, key: string, name: string, e: Entry): (r: Results)
    ensures r.Keys == res.Keys + {key}
    ensures Entries(r, key) == Entries(res, key)[name := e]
    ensures forall k :: k in res && k != key ==> r[k] == res[k]
  {
    res[key := Table(Entries(res, key)[name := e])]
  }

  /** The section a CSV status is recorded under, if any. */
  function SectionOf(status: string): Option<string>
  {
    if status == NotNeededStatus then Some(NotNeededKey)
    else if status == MovedStatus then Some(MovedKey)
    else None
  }

  /** What a module is mapped to when the document is read for a version. */
  function VersionValue(status: string, detail: string, references: string): Entry
  {
    if status == NotNeededStatus then Pair(detail, references) else Str(detail)
  }

  /** What a module is mapped to when the document is searched by name: a
      module no longer needed is part of "odoo". */
  function QueryValue(status: string, detail: string): Entry
  {
    if status == NotNeededStatus then Str("odoo") else Str(detail)
  }

  /** The reading `_fetch_apriori_from_csv` performs: by version when
      `version` is truthy, else by module name when `query` is, else none. */
  datatype Mode = ByVersion(version: string) | ByQuery(query: string) | Unfiltered

  function ModeOf(version: Option<string>, query: Option<string>): Mode
  {
    if Given(version) then ByVersion(version.value)
    else if Given(query) then ByQuery(query.value)
    else Unfiltered
  }

  /** A CSV row is unpacked into module, repository, version, status, detail
      and references; a row of at most five columns cannot be. */
  const UnpackError := "TypeError: cannot unpack non-iterable NoneType object"

  /** The effect of one unpacked row on the results. */
  function Step(mode: Mode, res: Results, row: seq<string>): Results
    requires |row| > 5
  {
    var moduleName, status, detail, references := row[0], row[3], row[4], row[5];
    var normVersion := NormalizeVersion(row[2]);
    match mode
    case ByVersion(v) =>
      if normVersion != v then res
      else
        (match SectionOf(status)
         case None => res
         case Some(key) => Put(res, key, moduleName, VersionValue(status, detail, references)))
    case ByQuery(q) =>
      if moduleName != q then res
      else res[normVersion := Table(VersionDictStep(Entries(res, normVersion), row))]
    case Unfiltered => res
  }

  /** The effect of a row about the searched module on the dictionary of its
      version. */
  function VersionDictStep(verDict: Results, row: seq<string>): Results
    requires |row| > 5
  {
    match SectionOf(row[3])
    case None => verDict
    case Some(key) => Put(verDict, key, row[0], QueryValue(row[3], row[4]))
  }

  /** `_fetch_apriori_from_csv` over the rows of the document, in order; the
      first short row raises. */
  function Classify(mode: Mode, rows: seq<seq<string>>): Result<Results, string>
  {
    if rows == [] then Success(map[])
    else
      match Classify(mode, rows[..|rows| - 1])
      case Failure(e) => Failure(e)
      case Success(res) =>
        if |rows[|rows| - 1]| <= 5 then Failure(UnpackError)
        else Success(Step(mode, res, rows[|rows| - 1]))
  }

  /** A short row fails every longer document too. */
  lemma {:induction false} ClassifyFailurePersists(mode: Mode, rows: seq<seq<string>>, k: nat)
    requires k <= |rows|
    requires Classify(mode, rows[..k]) == Failure(UnpackError)
    ensures Classify(mode, rows) == Failure(UnpackError)
    decreases |rows| - k
  {
    if k < |rows| {
      assert rows[..k + 1][..k] == rows[..k];
      ClassifyFailurePersists(mode, rows, k + 1);
    } else {
      assert rows[..k] == rows;
    }
  }

  /** The loop of `_fetch_apriori_from_csv`, updating `results` row by row. */
  method FetchAprioriFromCsv(rows: seq<seq<string>>, version: Option<string>, query: Option<string>)
    returns (out: Result<Results, string>)
    ensures out == Classify(ModeOf(version, query), rows)
  {
    var mode := ModeOf(version, query);
    var results: Results := map[];
    var i := 0;
    while i < |rows|
      invariant 0 <= i <= |rows|
      invariant Classify(mode, rows[..i]) == Success(results)
    {
      var row := rows[i];
      assert rows[..i + 1][..i] == rows[..i] && rows[..i + 1][i] == row;
      if |row| <= 5 {
        ClassifyFailurePersists(mode, rows, i + 1);
        return Failure(UnpackError);
      }
      var moduleName, status, detail, references := row[0], row[3], row[4], row[5];
      var normVersion := NormalizeVersion(row[2]);
      if Given(version) {
        if normVersion == version.value {
          if status == NotNeededStatus {
            results := Put(results, NotNeededKey, moduleName, Pair(detail, references));
          } else if status == MovedStatus {
            results := Put(results, MovedKey, moduleName, Str(detail));
          }
        }
      } else if Given(query) {
        if moduleName == query.value {
          var verDict := Entries(results, normVersion);
          if status == NotNeededStatus {
            verDict := Put(verDict, NotNeededKey, moduleName, Str("odoo"));
          } else if status == MovedStatus {
            verDict := Put(verDict, MovedKey, moduleName, Str(detail));
          }
          results := results[normVersion := Table(verDict)];
        }
      }
      i := i + 1;
    }
    assert rows[..i] == rows;
    out := Success(results);
  }

  /** Some row of `rows` satisfies `p`. */
  predicate AnyRow(rows: seq<seq<string>>, p: seq<string> -> bool)
  {
    exists i :: 0 <= i < |rows| && p(rows[i])
  }

  lemma AnyRowLast(rows: seq<seq<string>>, p: seq<string> -> bool)
    requires rows != []
    ensures AnyRow(rows, p) <==> AnyRow(rows[..|rows| - 1], p) || p(rows[|rows| - 1])
  {
    var init := rows[..|rows| - 1];
    if AnyRow(rows, p) {
      var i :| 0 <= i < |rows| && p(rows[i]);
      if i < |init| {
        assert init[i] == rows[i];
      }
    }
    if AnyRow(init, p) {
      var i :| 0 <= i < |init| && p(init[i]);
      assert init[i] == rows[i];
    }
  }

  /** A successful reading is the last row's step on the reading of the
      rows before it. */
  lemma ClassifyLast(mode: Mode, rows: seq<seq<string>>)
    requires rows != [] && Classify(mode, rows).Success?
    ensures Classify(mode, rows[..|rows| - 1]).Success? && |rows[|rows| - 1]| > 5
    ensures Classify(mode, rows).value == Step(mode, Classify(mode, rows[..|rows| - 1]).value, rows[|rows| - 1])
  {
  }

  /** Reading fails exactly when some row has at most five columns, whatever
      the mode. */
  lemma {:induction false} ClassifyRaises(mode: Mode, rows: seq<seq<string>>)
    ensures Classify(mode, rows).Failure? <==> AnyRow(rows, r => |r| <= 5)
    decreases |rows|
  {
    if rows != [] {
      ClassifyRaises(mode, rows[..|rows| - 1]);
      AnyRowLast(rows, r => |r| <= 5);
    }
  }

  /** Without a version and without a query nothing is collected. */
  lemma {:induction false} UnfilteredEmpty(rows: seq<seq<string>>)
    ensures Classify(Unfiltered, rows).Success? ==> Classify(Unfiltered, rows).value == map[]
    decreases |rows|
  {
    if rows != [] && Classify(Unfiltered, rows).Success? {
      ClassifyLast(Unfiltered, rows);
      UnfilteredEmpty(rows[..|rows| - 1]);
    }
  }

  /** A row that counts for a version: unpackable, of that normalised version
      and with the given status. */
  predicate IsVersionRow(row: seq<string>, v: string, status: string)
  {
    |row| > 5 && NormalizeVersion(row[2]) == v && row[3] == status
  }

  /** By version, a row of a recorded status is put into its section. */
  lemma StepVersionRecords(v: string, res: Results, row: seq<string>, status: string, key: string)
    requires SectionOf(status) == Some(key) && IsVersionRow(row, v, status)
    ensures Step(ByVersion(v), res, row) == Put(res, key, row[0], VersionValue(status, row[4], row[5]))
  {
  }

  /** By version, any other row changes nothing. */
  lemma StepVersionSkips(v: string, res: Results, row: seq<string>)
    requires |row| > 5 && !IsVersionRow(row, v, NotNeededStatus) && !IsVersionRow(row, v, MovedStatus)
    ensures Step(ByVersion(v), res, row) == res
  {
  }

  /** By version, the results hold at most the two sections, each a
      dictionary, and a section exactly when some row of its status counts. */
  lemma {:induction false} VersionSections(v: string, rows: seq<seq<string>>)
    requires Classify(ByVersion(v), rows).Success?
    ensures forall k :: k in Classify(ByVersion(v), rows).value ==>
              (k == NotNeededKey || k == MovedKey) && Classify(ByVersion(v), rows).value[k].Table?
    ensures NotNeededKey in Classify(ByVersion(v), rows).value <==>
              AnyRow(rows, r => IsVersionRow(r, v, NotNeededStatus))
    ensures MovedKey in Classify(ByVersion(v), rows).value <==>
              AnyRow(rows, r => IsVersionRow(r, v, MovedStatus))
    decreases |rows|
  {
    if rows != [] {
      var init, last := rows[..|rows| - 1], rows[|rows| - 1];
      ClassifyLast(ByVersion(v), rows);
      VersionSections(v, init);
      AnyRowLast(rows, r => IsVersionRow(r, v, NotNeededStatus));
      AnyRowLast(rows, r => IsVersionRow(r, v, MovedStatus));
      var res := Classify(ByVersion(v), init).value;
      if IsVersionRow(last, v, NotNeededStatus) {
        StepVersionRecords(v, res, last, NotNeededStatus, NotNeededKey);
      } else if IsVersionRow(last, v, MovedStatus) {
        StepVersionRecords(v, res, last, MovedStatus, MovedKey);
      } else {
        StepVersionSkips(v, res, last);
      }
    }
  }

  /** The step of the last row keeps the entries of a section's other
      modules and adds the row's module when the row counts. */
  lemma StepVersionEntries(v: string, res: Results, row: seq<string>, status: string, key: string, name: string)
    requires SectionOf(status) == Some(key) && |row| > 5
    ensures name in Entries(Step(ByVersion(v), res, row), key) <==>
              name in Entries(res, key) || (IsVersionRow(row, v, status) && row[0] == name)
    ensures !(IsVersionRow(row, v, status) && row[0] == name) && name in Entries(res, key) ==>
              Entries(Step(ByVersion(v), res, row), key)[name] == Entries(res, key)[name]
  {
    if IsVersionRow(row, v, NotNeededStatus) {
      StepVersionRecords(v, res, row, NotNeededStatus, NotNeededKey);
    } else if IsVersionRow(row, v, MovedStatus) {
      StepVersionRecords(v, res, row, MovedStatus, MovedKey);
    } else {
      StepVersionSkips(v, res, row);
    }
  }

  /** By version, a module appears in a section exactly when some row of that
      status counts for it. */
  lemma {:induction false} VersionEntryKeys(v: string, rows: seq<seq<string>>, status: string, key: string, name: string)
    requires SectionOf(status) == Some(key)
    requires Classify(ByVersion(v), rows).Success?
    ensures name in Entries(Classify(ByVersion(v), rows).value, key) <==>
              AnyRow(rows, r => IsVersionRow(r, v, status) && r[0] == name)
    decreases |rows|
  {
    if rows != [] {
      var init := rows[..|rows| - 1];
      ClassifyLast(ByVersion(v), rows);
      VersionEntryKeys(v, init, status, key, name);
      AnyRowLast(rows, r => IsVersionRow(r, v, status) && r[0] == name);
      StepVersionEntries(v, Classify(ByVersion(v), init).value, rows[|rows| - 1], status, key, name);
    }
  }

  /** By version, a module's entry comes from the last row of that status
      that counts for it: later rows overwrite earlier ones. */
  lemma {:induction false} VersionLastRowWins(v: string, rows: seq<seq<string>>, status: string, key: string, i: nat)
    requires SectionOf(status) == Some(key)
    requires Classify(ByVersion(v), rows).Success?
    requires i < |rows| && IsVersionRow(rows[i], v, status)
    requires forall j :: i < j < |rows| && IsVersionRow(rows[j], v, status) ==> rows[j][0] != rows[i][0]
    ensures rows[i][0] in Entries(Classify(ByVersion(v), rows).value, key)
    ensures Entries(Classify(ByVersion(v), rows).value, key)[rows[i][0]] == VersionValue(status, rows[i][4], rows[i][5])
    decreases |rows|
  {
    var init, last := rows[..|rows| - 1], rows[|rows| - 1];
    ClassifyLast(ByVersion(v), rows);
    var res := Classify(ByVersion(v), init).value;
    if i < |init| {
      assert init[i] == rows[i];
      VersionLastRowWins(v, init, status, key, i);
      StepVersionEntries(v, res, last, status, key, rows[i][0]);
    } else {
      StepVersionRecords(v, res, last, status, key);
    }
  }

  /** A row that counts for a search: unpackable, about the searched module
      and of the given normalised version. */
  predicate IsQueryRow(row: seq<string>, q: string, nv: string)
  {
    |row| > 5 && row[0] == q && NormalizeVersion(row[2]) == nv
  }

  /** By module name, a row about the module updates the dictionary of its
      version, creating it if need be. */
  lemma StepQueryRecords(q: string, res: Results, row: seq<string>, nv: string)
    requires IsQueryRow(row, q, nv)
    ensures Step(ByQuery(q), res, row) == res[nv := Table(VersionDictStep(Entries(res, nv), row))]
  {
  }

  /** By module name, a row about another module changes nothing. */
  lemma StepQuerySkips(q: string, res: Results, row: seq<string>)
    requires |row| > 5 && row[0] != q
    ensures Step(ByQuery(q), res, row) == res
  {
  }

  /** A row updates the section of its status in its version's dictionary
      and no other section. */
  lemma VersionDictStepSpec(verDict: Results, row: seq<string>, status: string, key: string)
    requires SectionOf(status) == Some(key) && |row| > 5
    ensures key in VersionDictStep(verDict, row) <==> key in verDict || row[3] == status
    ensures Entries(VersionDictStep(verDict, row), key) ==
              if row[3] == status then Entries(verDict, key)[row[0] := QueryValue(status, row[4])]
              else Entries(verDict, key)
  {
  }

  /** The last row's step leaves every other version's dictionary alone. */
  lemma StepQueryOthers(q: string, res: Results, row: seq<string>, nv: string)
    requires |row| > 5 && !IsQueryRow(row, q, nv)
    ensures nv in Step(ByQuery(q), res, row) <==> nv in res
    ensures Entries(Step(ByQuery(q), res, row), nv) == Entries(res, nv)
  {
    if row[0] == q {
      StepQueryRecords(q, res, row, NormalizeVersion(row[2]));
    } else {
      StepQuerySkips(q, res, row);
    }
  }

  /** By module name, the results are keyed by the normalised versions of the
      rows about the module, whatever their status; each holds a dictionary
      with at most the two sections. */
  lemma {:induction false} QueryVersions(q: string, rows: seq<seq<string>>, nv: string)
    requires Classify(ByQuery(q), rows).Success?
    ensures nv in Classify(ByQuery(q), rows).value <==> AnyRow(rows, r => IsQueryRow(r, q, nv))
    ensures forall k :: k in Entries(Classify(ByQuery(q), rows).value, nv) ==> k == NotNeededKey || k == MovedKey
    decreases |rows|
  {
    if rows != [] {
      var init, last := rows[..|rows| - 1], rows[|rows| - 1];
      ClassifyLast(ByQuery(q), rows);
      QueryVersions(q, init, nv);
      AnyRowLast(rows, r => IsQueryRow(r, q, nv));
      var res := Classify(ByQuery(q), init).value;
      if IsQueryRow(last, q, nv) {
        StepQueryRecords(q, res, last, nv);
      } else {
        StepQueryOthers(q, res, last, nv);
      }
    }
  }

  /** By module name, every key of the results holds a dot: it is a
      normalised version. */
  lemma QueryKeysAreVersions(q: string, rows: seq<seq<string>>, k: string)
    requires Classify(ByQuery(q), rows).Success?
    ensures k in Classify(ByQuery(q), rows).value ==> '.' in k
  {
    QueryVersions(q, rows, k);
    if k in Classify(ByQuery(q), rows).value {
      var i :| 0 <= i < |rows| && IsQueryRow(rows[i], q, k);
      NormalizeVersionSpec(rows[i][2]);
    }
  }

  /** By module name, a version holds a section exactly when a row about the
      module of that version has the section's status, and the section names
      only the searched module. */
  lemma {:induction false} QuerySections(q: string, rows: seq<seq<string>>, nv: string, status: string, key: string)
    requires SectionOf(status) == Some(key)
    requires Classify(ByQuery(q), rows).Success?
    ensures key in Entries(Classify(ByQuery(q), rows).value, nv) <==>
              AnyRow(rows, r => IsQueryRow(r, q, nv) && r[3] == status)
    ensures forall m :: m in Entries(Entries(Classify(ByQuery(q), rows).value, nv), key) ==> m == q
    decreases |rows|
  {
    if rows != [] {
      var init, last := rows[..|rows| - 1], rows[|rows| - 1];
      ClassifyLast(ByQuery(q), rows);
      QuerySections(q, init, nv, status, key);
      AnyRowLast(rows, r => IsQueryRow(r, q, nv) && r[3] == status);
      var res := Classify(ByQuery(q), init).value;
      if IsQueryRow(last, q, nv) {
        StepQueryRecords(q, res, last, nv);
        VersionDictStepSpec(Entries(res, nv), last, status, key);
      } else {
        StepQueryOthers(q, res, last, nv);
      }
    }
  }

  /** By module name, a section's entry comes from the last row about the
      module of that version and status; a module no longer needed is always
      mapped to "odoo". */
  lemma {:induction false} QueryLastRowWins(q: string, rows: seq<seq<string>>, nv: string, status: string, key: string, i: nat)
    requires SectionOf(status) == Some(key)
    requires Classify(ByQuery(q), rows).Success?
    requires i < |rows| && IsQueryRow(rows[i], q, nv) && rows[i][3] == status
    requires forall j :: i < j < |rows| && IsQueryRow(rows[j], q, nv) ==> rows[j][3] != status
    ensures q in Entries(Entries(Classify(ByQuery(q), rows).value, nv), key)
    ensures Entries(Entries(Classify(ByQuery(q), rows).value, nv), key)[q] == QueryValue(status, rows[i][4])
    decreases |rows|
  {
    var init, last := rows[..|rows| - 1], rows[|rows| - 1];
    ClassifyLast(ByQuery(q), rows);
    var res := Classify(ByQuery(q), init).value;
    if i < |init| {
      assert init[i] == rows[i];
      QueryLastRowWins(q, init, nv, status, key, i);
      if IsQueryRow(last, q, nv) {
        StepQueryRecords(q, res, last, nv);
      } else {
        StepQueryOthers(q, res, last, nv);
      }
    } else {
      StepQueryRecords(q, res, last, nv);
    }
  }

  /** Whether `only_table` selects a database table. */
  predicate Includes(onlyTable: Option<string>, table: string)
  {
    onlyTable.None? || onlyTable.value == table
  }

  /** `dict(rows)` of a database table fetch, as a result value. */
  function Texts(m: map<string, string>): Entry
  {
    Table(map k | k in m :: Str(m[k]))
  }

  /** The database part of the answer: the renamed and the merged modules,
      each when `only_table` selects it. */
  function DatabasePart(onlyTable: Option<string>, renamed: map<string, string>, merged: map<string, string>): Results
  {
    var withRenamed := if Includes(onlyTable, RenamedModulesKey) then map[RenamedModulesKey := Texts(renamed)] else map[];
    if Includes(onlyTable, MergedModulesKey) then withRenamed[MergedModulesKey := Texts(merged)] else withRenamed
  }

  /** `apriori.update(...)` with the document's results when the document is
      configured (`csv` holds its rows). */
  function Merge(db: Results, mode: Mode, csv: Option<seq<seq<string>>>): Result<Results, string>
  {
    if csv.None? then Success(db)
    else
      match Classify(mode, csv.value)
      case Failure(e) => Failure(e)
      case Success(fromCsv) => Success(db + fromCsv)
  }

  /** `get_apriori`: the tables fetched for the version (`renamed` maps old to
      new names, `merged` source to target modules), then the document read
      by version. */
  function GetApriori(version: string, onlyTable: Option<string>, renamed: map<string, string>,
                      merged: map<string, string>, csv: Option<seq<seq<string>>>): Result<Results, string>
  {
    Merge(DatabasePart(onlyTable, renamed, merged), ModeOf(Some(version), None), csv)
  }

  /** `query_apriori`: the tables fetched for the module name (both keyed by
      version), then the document searched by that name. */
  function QueryApriori(query: string, onlyTable: Option<string>, renamed: map<string, string>,
                        merged: map<string, string>, csv: Option<seq<seq<string>>>): Result<Results, string>
  {
    Merge(DatabasePart(onlyTable, renamed, merged), ModeOf(None, Some(query)), csv)
  }

  /** The document never overwrites a database table in a version's answer:
      the tables `only_table` selects are there unchanged, and reading fails
      only on a short row. */
  lemma GetAprioriKeepsTables(version: string, onlyTable: Option<string>, renamed: map<string, string>,
                              merged: map<string, string>, csv: Option<seq<seq<string>>>)
    ensures GetApriori(version, onlyTable, renamed, merged, csv).Failure? <==>
              csv.Some? && AnyRow(csv.value, r => |r| <= 5)
    ensures GetApriori(version, onlyTable, renamed, merged, csv).Success? ==>
              var res := GetApriori(version, onlyTable, renamed, merged, csv).value;
              && (RenamedModulesKey in res <==> Includes(onlyTable, RenamedModulesKey))
              && (MergedModulesKey in res <==> Includes(onlyTable, MergedModulesKey))
              && (Includes(onlyTable, RenamedModulesKey) ==> res[RenamedModulesKey] == Texts(renamed))
              && (Includes(onlyTable, MergedModulesKey) ==> res[MergedModulesKey] == Texts(merged))
  {
    var mode := ModeOf(Some(version), None);
    if csv.Some? {
      ClassifyRaises(mode, csv.value);
      if Classify(mode, csv.value).Success? {
        if version == "" {
          UnfilteredEmpty(csv.value);
        } else {
          VersionSections(version, csv.value);
        }
      }
    }
  }

  /** Searching by name never overwrites a database table either: the
      document's keys are normalised versions, which hold a dot. */
  lemma QueryAprioriKeepsTables(query: string, onlyTable: Option<string>, renamed: map<string, string>,
                                merged: map<string, string>, csv: Option<seq<seq<string>>>)
    ensures QueryApriori(query, onlyTable, renamed, merged, csv).Failure? <==>
              csv.Some? && AnyRow(csv.value, r => |r| <= 5)
    ensures QueryApriori(query, onlyTable, renamed, merged, csv).Success? ==>
              var res := QueryApriori(query, onlyTable, renamed, merged, csv).value;
              && (RenamedModulesKey in res <==> Includes(onlyTable, RenamedModulesKey))
              && (MergedModulesKey in res <==> Includes(onlyTable, MergedModulesKey))
              && (Includes(onlyTable, RenamedModulesKey) ==> res[RenamedModulesKey] == Texts(renamed))
              && (Includes(onlyTable, MergedModulesKey) ==> res[MergedModulesKey] == Texts(merged))
  {
    var mode := ModeOf(None, Some(query));
    if csv.Some? {
      ClassifyRaises(mode, csv.value);
      if Classify(mode, csv.value).Success? {
        if query == "" {
          UnfilteredEmpty(csv.value);
        } else {
          QueryKeysAreVersions(query, csv.value, RenamedModulesKey);
          QueryKeysAreVersions(query, csv.value, MergedModulesKey);
        }
      }
    }
  }
}
