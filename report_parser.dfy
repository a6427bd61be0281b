/** `UpgradeAnalysisParser` and `run_parse_for_version`
    (upgrade_analysis_parser/processing/parser.py): reading the lines of an
    analysis report into change records, section by section, and refilling the
    per-version store with them. */
module ReportParser {
  import opened Wrappers
  import opened Text
  import opened Records
  import opened ReportLines
  import opened Store

  /** The category a header selects: its keyword ("Models", "Fields" or
      "XML records") upper-cased, with the space replaced by an underscore. */
  function CategoryName(section: Section): string
  {
    match section
    case Models => "MODELS"
    case Fields => "FIELDS"
    case XmlRecords => "XML_RECORDS"
  }

  /** The change type of a model line: its keyword upper-cased. */
  function ModelChangeType(keyword: string): string
  {
    if keyword == "obsolete" then "OBSOLETE" else if keyword == "new" then "NEW" else keyword
  }

  /** Between lines the parser remembers the current category and module:
      none before the first header. */
  datatype ParserState = Idle | InSection(category: string, moduleName: string)

  /** The clause of a model line mentions a rename. */
  predicate MentionsRename(paren: Option<string>)
  {
    paren.Some? && paren.value != [] && (Contains(paren.value, "renamed from") || Contains(paren.value, "renamed to"))
  }

  /** The details of a model line: the clause, stripped, when it mentions a
      rename, and the tag when there is one. */
  function ModelDetails(paren: Option<string>, tag: Option<string>): Details
  {
    var d: Details := if MentionsRename(paren) then map["rename_info" := JString(Strip(paren.value))] else map[];
    if tag.Some? && tag.value != [] then d["tag" := JString(tag.value)] else d
  }

  lemma ModelDetailsSpec(paren: Option<string>, tag: Option<string>)
    ensures var d := ModelDetails(paren, tag);
      && ("rename_info" in d <==> MentionsRename(paren))
      && ("rename_info" in d ==> d["rename_info"] == JString(Strip(paren.value)))
      && ("tag" in d <==> tag.Some? && tag.value != [])
      && ("tag" in d ==> d["tag"] == JString(tag.value))
      && d.Keys <= {"rename_info", "tag"}
  {
  }

  /** `_parse_model_line`: a record of category MODEL for the header's module. */
  function ParseModelLine(version: string, line: string, moduleName: string): Option<ChangeRecord>
  {
    match MatchModelLine(line)
    case None => None
    case Some(m) =>
      Some(ChangeRecord(version, moduleName, ModelCategory, ModelChangeType(m.keyword), line,
                        Some(m.name), None, None, None, None, ModelDetails(m.paren, m.tag)))
  }

  lemma ParseModelLineSpec(version: string, line: string, moduleName: string)
    ensures var r := ParseModelLine(version, line, moduleName);
      && (r.Some? <==> MatchModelLine(line).Some?)
      && (r.Some? ==> var m := MatchModelLine(line).value;
           && r.value.version == version && r.value.moduleName == moduleName && r.value.rawLine == line
           && r.value.changeCategory == ModelCategory
           && r.value.changeType == (if m.keyword == "obsolete" then "OBSOLETE" else "NEW")
           && r.value.modelName == Some(m.name)
           && r.value.fieldName.None? && r.value.recordModel.None? && r.value.xmlId.None?
           && r.value.description.None?
           && r.value.details == ModelDetails(m.paren, m.tag))
  {
  }

  /** The change type of a field line, from the start of its description. */
  function FieldChangeType(desc: string): (t: string)
    ensures t == "NEW" <==> StartsWith(desc, "NEW")
    ensures t == "DEL" <==> !StartsWith(desc, "NEW") && StartsWith(desc, "DEL")
    ensures t == "NEW" || t == "DEL" || t == "MODIFIED"
  {
    if StartsWith(desc, "NEW") then "NEW"
    else if StartsWith(desc, "DEL") then "DEL"
    else "MODIFIED"
  }

  /** `_parse_field_line`: a record of category FIELD for the module the line
      itself names; the header's module is not used. */
  function ParseFieldLine(version: string, line: string): Option<ChangeRecord>
  {
    match MatchFieldLine(line)
    case None => None
    case Some(m) =>
      var desc := Strip(m.desc);
      Some(ChangeRecord(version, m.moduleName, FieldCategory, FieldChangeType(desc), line,
                        Some(m.model), Some(m.field), None, None, Some(desc), FieldDetails(m.fieldType)))
  }

  lemma ParseFieldLineSpec(version: string, line: string)
    ensures var r := ParseFieldLine(version, line);
      && (r.Some? <==> MatchFieldLine(line).Some?)
      && (r.Some? ==> var m := MatchFieldLine(line).value;
           && r.value.version == version && r.value.moduleName == m.moduleName && r.value.rawLine == line
           && r.value.changeCategory == FieldCategory
           && r.value.changeType == FieldChangeType(Strip(m.desc))
           && r.value.modelName == Some(m.model) && r.value.fieldName == Some(m.field)
           && r.value.recordModel.None? && r.value.xmlId.None?
           && r.value.description == Some(Strip(m.desc))
           && r.value.details.Keys == {"field_type"}
           && r.value.details["field_type"] == (if m.fieldType.Some? then JString(m.fieldType.value) else JNull))
  {
  }

  /** The change type of an XML-record line: RENAMED when its remainder
      mentions a rename, otherwise its keyword. */
  function XmlChangeType(kind: string, extra: string): string
  {
    if Contains(extra, "renamed") then "RENAMED" else kind
  }

  /** The details of an XML-record line: its remainder, stripped, when it
      mentions a rename. */
  function XmlDetails(extra: string): Details
  {
    if Contains(extra, "renamed") then map["rename_info" := JString(Strip(extra))] else map[]
  }

  /** The details of a field line: its type, or null. */
  function FieldDetails(fieldType: Option<string>): Details
  {
    map["field_type" := if fieldType.Some? then JString(fieldType.value) else JNull]
  }

  /** `_parse_xml_record_line`: a record of category XML_RECORD for the header's
      module; a line whose remainder mentions "renamed" is a RENAMED change. */
  function ParseXmlLine(version: string, line: string, moduleName: string): Option<ChangeRecord>
  {
    match MatchXmlLine(line)
    case None => None
    case Some(m) =>
      Some(ChangeRecord(version, moduleName, XmlRecordCategory, XmlChangeType(m.kind, m.extra), line,
                        None, None, Some(m.recordModel), Some(m.xmlId), None, XmlDetails(m.extra)))
  }

  lemma ParseXmlLineSpec(version: string, line: string, moduleName: string)
    ensures var r := ParseXmlLine(version, line, moduleName);
      && (r.Some? <==> MatchXmlLine(line).Some?)
      && (r.Some? ==> var m := MatchXmlLine(line).value;
           && r.value.version == version && r.value.moduleName == moduleName && r.value.rawLine == line
           && r.value.changeCategory == XmlRecordCategory
           && (r.value.changeType == "RENAMED" <==> Contains(m.extra, "renamed"))
           && (!Contains(m.extra, "renamed") ==> r.value.changeType == m.kind)
           && r.value.recordModel == Some(m.recordModel) && r.value.xmlId == Some(m.xmlId)
           && r.value.modelName.None? && r.value.fieldName.None? && r.value.description.None?
           && ("rename_info" in r.value.details <==> Contains(m.extra, "renamed"))
           && (Contains(m.extra, "renamed") ==> r.value.details["rename_info"] == JString(Strip(m.extra)))
           && r.value.details.Keys <= {"rename_info"})
  {
  }

  /** A line parser: from the version, the line and the header's module to
      the record the line describes, if any. */
  type LineParser = (string, string, string) -> Option<ChangeRecord>

  /** The line parser the current category selects. */
  function ParserFor(category: string): Option<LineParser>
  {
    if category == "MODELS" then
      Some((version: string, line: string, moduleName: string) => ParseModelLine(version, line, moduleName))
    else if category == "FIELDS" then
      Some((version: string, line: string, moduleName: string) => ParseFieldLine(version, line))
    else if category == "XML_RECORDS" then
      Some((version: string, line: string, moduleName: string) => ParseXmlLine(version, line, moduleName))
    else None
  }

  /** The record a non-header line yields in the current section, if any. */
  function ParseRecord(version: string, state: ParserState, line: string): Option<ChangeRecord>
  {
    if state.Idle? then None
    else match ParserFor(state.category)
      case None => None
      case Some(parse) => parse(version, line, state.moduleName)
  }

  /** Which line parser each section uses. */
  lemma ParseRecordIn(version: string, moduleName: string, line: string)
    ensures ParseRecord(version, InSection("MODELS", moduleName), line) == ParseModelLine(version, line, moduleName)
    ensures ParseRecord(version, InSection("FIELDS", moduleName), line) == ParseFieldLine(version, line)
    ensures ParseRecord(version, InSection("XML_RECORDS", moduleName), line) == ParseXmlLine(version, line, moduleName)
  {
  }

  /** Outside a section nothing is recorded; a record keeps the version and the
      line it was read from. */
  lemma ParseRecordSpec(version: string, state: ParserState, line: string)
    ensures state.Idle? ==> ParseRecord(version, state, line).None?
    ensures ParseRecord(version, state, line).Some? ==>
              ParseRecord(version, state, line).value.version == version
              && ParseRecord(version, state, line).value.rawLine == line
  {
  }

  /** One line of the report: blank lines are skipped, a header switches the
      section, any other line may yield a record. */
  function Step(version: string, state: ParserState, rawLine: string): (ParserState, Option<ChangeRecord>)
  {
    var line := Strip(rawLine);
    if line == [] then (state, None)
    else if MatchHeader(line).Some? then
      (InSection(CategoryName(MatchHeader(line).value.section), MatchHeader(line).value.moduleName), None)
    else (state, ParseRecord(version, state, line))
  }

  function Emitted<R>(r: Option<R>): seq<R>
  {
    if r.Some? then [r.value] else []
  }

  /** Reading `lines` one at a time with `step` from `state`, collecting what
      it yields, in line order. */
  function Fold<S, R>(step: (S, string) -> (S, Option<R>), state: S, lines: seq<string>): seq<R>
    decreases |lines|
  {
    if lines == [] then []
    else
      var st := step(state, lines[0]);
      Emitted(st.1) + Fold(step, st.0, lines[1..])
  }

  /** The state `step` is in after `lines`. */
  function FoldState<S, R>(step: (S, string) -> (S, Option<R>), state: S, lines: seq<string>): S
    decreases |lines|
  {
    if lines == [] then state else FoldState(step, step(state, lines[0]).0, lines[1..])
  }

  /** Folding over two parts: the second part starts in the state the first
      leaves. */
  lemma {:induction false} FoldAppend<S, R>(step: (S, string) -> (S, Option<R>), state: S, a: seq<string>, b: seq<string>)
    ensures Fold(step, state, a + b) == Fold(step, state, a) + Fold(step, FoldState(step, state, a), b)
    decreases |a|
  {
    if a == [] {
      assert a + b == b;
    } else {
      assert (a + b)[1..] == a[1..] + b;
      FoldAppend(step, step(state, a[0]).0, a[1..], b);
    }
  }

  lemma {:induction false} FoldStateAppend<S, R>(step: (S, string) -> (S, Option<R>), state: S, a: seq<string>, b: seq<string>)
    ensures FoldState(step, state, a + b) == FoldState(step, FoldState(step, state, a), b)
    decreases |a|
  {
    if a == [] {
      assert a + b == b;
    } else {
      assert (a + b)[1..] == a[1..] + b;
      FoldStateAppend(step, step(state, a[0]).0, a[1..], b);
    }
  }

  /** At most one result per line. */
  lemma {:induction false} FoldLength<S, R>(step: (S, string) -> (S, Option<R>), state: S, lines: seq<string>)
    ensures |Fold(step, state, lines)| <= |lines|
    decreases |lines|
  {
    if lines != [] {
      FoldLength(step, step(state, lines[0]).0, lines[1..]);
    }
  }

  function StepOf(version: string): (ParserState, string) -> (ParserState, Option<ChangeRecord>)
  {
    (state: ParserState, line: string) => Step(version, state, line)
  }

  /** The records read from `lines`, starting in `state`, in line order. */
  function ParseFrom(version: string, state: ParserState, lines: seq<string>): seq<ChangeRecord>
  {
    Fold(StepOf(version), state, lines)
  }

  /** The state after reading `lines` from `state`. */
  function FinalState(version: string, state: ParserState, lines: seq<string>): ParserState
  {
    FoldState(StepOf(version), state, lines)
  }

  /** Reading one line, then the rest. */
  lemma ParseFromCons(version: string, state: ParserState, lines: seq<string>)
    requires lines != []
    ensures ParseFrom(version, state, lines)
         == Emitted(Step(version, state, lines[0]).1) + ParseFrom(version, Step(version, state, lines[0]).0, lines[1..])
    ensures FinalState(version, state, lines) == FinalState(version, Step(version, state, lines[0]).0, lines[1..])
  {
  }

  /** `parse`: the records of a report whose lines are `lines`. */
  method ParseReport(version: string, lines: seq<string>) returns (changes: seq<ChangeRecord>)
    ensures changes == ParseFrom(version, Idle, lines)
  {
    changes := [];
    var state := Idle;
    var i := 0;
    while i < |lines|
      invariant 0 <= i <= |lines|
      invariant changes == ParseFrom(version, Idle, lines[..i])
      invariant state == FinalState(version, Idle, lines[..i])
    {
      var record: Option<ChangeRecord> := None;
      var line := Strip(lines[i]);
      if line != [] {
        var header := MatchHeader(line);
        if header.Some? {
          StepHeader(version, state, lines[i], header.value);
          state := InSection(CategoryName(header.value.section), header.value.moduleName);
        } else {
          StepRecord(version, state, lines[i]);
          record := ParseRecord(version, state, line);
        }
      } else {
        StepBlank(version, state, lines[i]);
      }
      if record.Some? {
        changes := changes + [record.value];
      }
      ParseOneMore(version, lines, i);
      i := i + 1;
    }
    assert lines[..i] == lines;
  }

  /** Reading one more line of the report. */
  lemma ParseOneMore(version: string, lines: seq<string>, i: nat)
    requires i < |lines|
    ensures var st := Step(version, FinalState(version, Idle, lines[..i]), lines[i]);
      && ParseFrom(version, Idle, lines[..i + 1]) == ParseFrom(version, Idle, lines[..i]) + Emitted(st.1)
      && FinalState(version, Idle, lines[..i + 1]) == st.0
  {
    var state := FinalState(version, Idle, lines[..i]);
    assert lines[..i + 1] == lines[..i] + [lines[i]];
    FoldAppend(StepOf(version), Idle, lines[..i], [lines[i]]);
    FoldStateAppend(StepOf(version), Idle, lines[..i], [lines[i]]);
    ParseFromCons(version, state, [lines[i]]);
    assert [lines[i]][1..] == [];
  }

  /** An analysis report found under the scripts directory: its path, as a
      sequence of components, whether it is a regular file, and its lines. */
  datatype ReportFile = ReportFile(path: seq<string>, isFile: bool, lines: seq<string>)

  /** `Path(file_path).parent.name`: the directory holding the report names its
      version (the empty name when the path has no parent component). */
  function VersionOf(path: seq<string>): string
  {
    if |path| >= 2 then path[|path| - 2] else ""
  }

  /** `UpgradeAnalysisParser(file_path).parse()`: a path that is not a regular
      file raises FileNotFoundError; otherwise the report's records. */
  method ParseFile(file: ReportFile) returns (r: Result<seq<ChangeRecord>, string>)
    ensures r.Failure? <==> !file.isFile
    ensures r.Success? ==> r.value == ParseFrom(VersionOf(file.path), Idle, file.lines)
  {
    if !file.isFile {
      return Failure("FileNotFoundError");
    }
    var changes := ParseReport(VersionOf(file.path), file.lines);
    return Success(changes);
  }

  /** The records of all reports, file after file. */
  function AllChanges(files: seq<ReportFile>): seq<ChangeRecord>
  {
    if files == [] then []
    else ParseFrom(VersionOf(files[0].path), Idle, files[0].lines) + AllChanges(files[1..])
  }

  /** The records of the reports from the `i`-th on. */
  lemma AllChangesFrom(files: seq<ReportFile>, i: nat)
    requires i < |files|
    ensures AllChanges(files[i..])
         == ParseFrom(VersionOf(files[i].path), Idle, files[i].lines) + AllChanges(files[i + 1..])
  {
    assert files[i..][1..] == files[i + 1..];
  }

  /** The list comprehension of `run_parse_for_version`: every report parsed
      in turn, the first that is not a regular file aborting the whole. */
  method ParseAll(files: seq<ReportFile>) returns (r: Result<seq<ChangeRecord>, string>)
    ensures r.Failure? <==> exists k :: 0 <= k < |files| && !files[k].isFile
    ensures r.Success? ==> r.value == AllChanges(files)
  {
    var all: seq<ChangeRecord> := [];
    var i := 0;
    assert files[0..] == files;
    while i < |files|
      invariant 0 <= i <= |files|
      invariant all + AllChanges(files[i..]) == AllChanges(files)
      invariant forall k :: 0 <= k < i ==> files[k].isFile
    {
      var parsed := ParseFile(files[i]);
      if parsed.Failure? {
        return Failure(parsed.error);
      }
      AllChangesFrom(files, i);
      all := all + parsed.value;
      i := i + 1;
    }
    return Success(all);
  }

  /** `run_parse_for_version` over the reports the glob found: the store is
      set up and cleared first, then refilled with the records of all reports
      in one insert, numbered from 1. A report that is not a regular file
      aborts the run after the clear, leaving the store empty. */
  method RunParseForVersion(store: ChangeStore, files: seq<ReportFile>) returns (ok: bool)
    requires store.Valid()
    modifies store
    ensures store.Valid() && store.tableExists
    ensures ok <==> forall k :: 0 <= k < |files| ==> files[k].isFile
    ensures ok ==> store.rows == NumberedRows(1, AllChanges(files)) && store.lastId == |AllChanges(files)|
    ensures !ok ==> store.rows == [] && store.lastId == 0
  {
    store.Setup();
    var cleared := store.Clear();
    if files == [] {
      return true;
    }
    var all := ParseAll(files);
    if all.Failure? {
      return false;
    }
    if all.value != [] {
      var count := store.Insert(all.value);
    }
    return true;
  }

  /** Reading a report in two parts: the second part starts in the state the
      first leaves. */
  lemma ParseFromAppend(version: string, state: ParserState, a: seq<string>, b: seq<string>)
    ensures ParseFrom(version, state, a + b)
         == ParseFrom(version, state, a) + ParseFrom(version, FinalState(version, state, a), b)
  {
    FoldAppend(StepOf(version), state, a, b);
  }

  /** At most one record per line, each carrying the report's version and one
      of the report's lines, stripped, as its raw line. */
  lemma {:induction false} ParseFromSound(version: string, state: ParserState, lines: seq<string>)
    ensures |ParseFrom(version, state, lines)| <= |lines|
    ensures forall r :: r in ParseFrom(version, state, lines) ==>
              r.version == version && exists k :: 0 <= k < |lines| && r.rawLine == Strip(lines[k])
    decreases |lines|
  {
    if lines != [] {
      var st := Step(version, state, lines[0]);
      ParseFromCons(version, state, lines);
      ParseFromSound(version, st.0, lines[1..]);
      forall r | r in ParseFrom(version, state, lines)
        ensures r.version == version && exists k :: 0 <= k < |lines| && r.rawLine == Strip(lines[k])
      {
        if r in Emitted(st.1) {
          ParseRecordSpec(version, state, Strip(lines[0]));
          assert r.rawLine == Strip(lines[0]);
        } else {
          var k :| 0 <= k < |lines[1..]| && r.rawLine == Strip(lines[1..][k]);
          assert r.rawLine == Strip(lines[k + 1]);
        }
      }
    }
  }

  /** Blank lines change nothing and yield nothing. */
  lemma {:induction false} BlankLinesIgnored(version: string, state: ParserState, lines: seq<string>)
    requires forall k :: 0 <= k < |lines| ==> AllSpace(lines[k])
    ensures ParseFrom(version, state, lines) == []
    ensures FinalState(version, state, lines) == state
    decreases |lines|
  {
    if lines != [] {
      ParseFromCons(version, state, lines);
      StripSpec(lines[0]);
      BlankLinesIgnored(version, state, lines[1..]);
    }
  }

  /** Nothing is recorded before the first section header. */
  lemma {:induction false} NothingBeforeHeader(version: string, lines: seq<string>)
    requires forall k :: 0 <= k < |lines| ==> MatchHeader(Strip(lines[k])).None?
    ensures ParseFrom(version, Idle, lines) == []
    ensures FinalState(version, Idle, lines) == Idle
    decreases |lines|
  {
    if lines != [] {
      ParseFromCons(version, Idle, lines);
      NothingBeforeHeader(version, lines[1..]);
    }
  }

  /** A blank line changes nothing and yields nothing. */
  lemma StepBlank(version: string, state: ParserState, raw: string)
    requires Strip(raw) == []
    ensures Step(version, state, raw) == (state, None)
  {
  }

  /** A line that is not a header is read in the current section. */
  lemma StepRecord(version: string, state: ParserState, raw: string)
    requires Strip(raw) != [] && MatchHeader(Strip(raw)).None?
    ensures Step(version, state, raw) == (state, ParseRecord(version, state, Strip(raw)))
  {
  }

  /** A header line selects its section and module. */
  lemma StepHeader(version: string, state: ParserState, raw: string, h: HeaderMatch)
    requires Strip(raw) != [] && MatchHeader(Strip(raw)) == Some(h)
    ensures Step(version, state, raw) == (InSection(CategoryName(h.section), h.moduleName), None)
  {
  }

  /** A report of a header and one line that the header's section turns into
      a record. */
  lemma TwoLineReport(version: string, header: string, line: string, section: ParserState, rec: ChangeRecord)
    requires Step(version, Idle, header) == (section, None)
    requires Step(version, section, line) == (section, Some(rec))
    ensures ParseFrom(version, Idle, [header, line]) == [rec]
  {
    ParseFromCons(version, Idle, [header, line]);
    assert [header, line][1..] == [line];
    ParseFromCons(version, section, [line]);
    assert [line][1..] == [];
  }

  /** A line whose first character is not a dash is no header. */
  lemma NotHeader(line: string)
    requires line != [] && line[0] != '-'
    ensures MatchHeader(line).None?
  {
    DiffersAt(line, HeaderStart(Models), 0);
    DiffersAt(line, HeaderStart(Fields), 0);
    DiffersAt(line, HeaderStart(XmlRecords), 0);
  }

  /** A header with nothing after it is its own strip. */
  lemma HeaderLineStripped(section: Section, moduleName: string)
    ensures Strip(HeaderLine(section, moduleName, "")) == HeaderLine(section, moduleName, "")
  {
    var line := HeaderLine(section, moduleName, "");
    HeaderPieces(section, moduleName, "");
    assert line[0] == line[..|HeaderStart(section)|][0];
    assert line[|line| - 1] == line[|line| - 4..][3];
    StripOfStripped(line);
  }

  /** The last character of a rendered model line. */
  function ModelLineLast(name: string, paren: Option<string>, tag: Option<string>): char
    requires name != []
  {
    if tag.Some? then ']' else if paren.Some? then ')' else name[|name| - 1]
  }

  lemma TagTextEnds(tag: Option<string>)
    ensures tag.None? ==> TagText(tag) == []
    ensures tag.Some? ==> TagText(tag) != [] && TagText(tag)[|TagText(tag)| - 1] == ']'
  {
    if tag.Some? {
      ConcatEnds(tag.value, "]");
      ConcatEnds("[", tag.value + "]");
      ConcatEnds(" ", "[" + (tag.value + "]"));
    }
  }

  lemma ModelTailEnds(name: string, paren: Option<string>, tag: Option<string>)
    requires name != []
    ensures var rest := name + ModelTailText(paren, tag);
      rest != [] && rest[|rest| - 1] == ModelLineLast(name, paren, tag)
  {
    var t := TagText(tag);
    TagTextEnds(tag);
    if paren.Some? {
      ConcatEnds(")", t);
      ConcatEnds(paren.value, ")" + t);
      ConcatEnds("(", paren.value + (")" + t));
      ConcatEnds(" ", "(" + (paren.value + (")" + t)));
    }
    ConcatEnds(name, ModelTailText(paren, tag));
  }

  lemma ModelLineEnds(keyword: string, name: string, paren: Option<string>, tag: Option<string>)
    requires keyword != [] && name != []
    ensures var line := ModelLineText(keyword, name, paren, tag);
      line != [] && line[0] == keyword[0] && line[|line| - 1] == ModelLineLast(name, paren, tag)
  {
    var rest := name + ModelTailText(paren, tag);
    ModelTailEnds(name, paren, tag);
    ConcatEnds(" ", rest);
    ConcatEnds(ModelPrefix(keyword), " " + rest);
    ConcatEnds(keyword, " model");
  }

  lemma ModelLineEdges(keyword: string, name: string, paren: Option<string>, tag: Option<string>)
    requires keyword == "obsolete" || keyword == "new"
    requires name != [] && !IsSpace(name[|name| - 1])
    ensures var line := ModelLineText(keyword, name, paren, tag);
      line != [] && line[0] != '-' && !IsSpace(line[0]) && !IsSpace(line[|line| - 1])
  {
    ModelLineEnds(keyword, name, paren, tag);
  }

  lemma ModelLineStripped(keyword: string, name: string, paren: Option<string>, tag: Option<string>)
    requires keyword == "obsolete" || keyword == "new"
    requires name != [] && !IsSpace(name[|name| - 1])
    ensures var line := ModelLineText(keyword, name, paren, tag);
      Strip(line) == line && line[0] != '-'
  {
    ModelLineEdges(keyword, name, paren, tag);
    StripOfStripped(ModelLineText(keyword, name, paren, tag));
  }

  /** A header with nothing after it selects its section and module. */
  lemma HeaderStep(version: string, state: ParserState, section: Section, moduleName: string)
    requires moduleName != [] && !Contains(moduleName, HeaderClose)
    ensures Step(version, state, HeaderLine(section, moduleName, ""))
         == (InSection(CategoryName(section), moduleName), None)
  {
    HeaderRoundTrip(section, moduleName, "");
    HeaderLineStripped(section, moduleName);
    HeaderPieces(section, moduleName, "");
    StepHeader(version, state, HeaderLine(section, moduleName, ""), HeaderMatch(section, moduleName));
  }

  /** A model line in a models section yields its record. */
  lemma ModelLineStep(version: string, moduleName: string, keyword: string, name: string,
                      paren: Option<string>, tag: Option<string>)
    requires keyword == "obsolete" || keyword == "new"
    requires name != [] && AllNameChars(name)
    requires paren.Some? ==> paren.value != [] && ')' !in paren.value
    requires tag.Some? ==> tag.value != []
    ensures var line := ModelLineText(keyword, name, paren, tag);
      Step(version, InSection("MODELS", moduleName), line)
      == (InSection("MODELS", moduleName),
          Some(ChangeRecord(version, moduleName, ModelCategory, if keyword == "obsolete" then "OBSOLETE" else "NEW",
                            line, Some(name), None, None, None, None, ModelDetails(paren, tag))))
  {
    var line := ModelLineText(keyword, name, paren, tag);
    ModelLineRoundTrip(keyword, name, paren, tag);
    NameCharNotSpace(name[|name| - 1]);
    ModelLineStripped(keyword, name, paren, tag);
    NotHeader(line);
    ParseRecordIn(version, moduleName, line);
    StepRecord(version, InSection("MODELS", moduleName), line);
  }

  /** A report of a models header and one model line yields one MODEL record
      for the header's module. */
  lemma ModelReportExample(version: string, moduleName: string, keyword: string, name: string,
                           paren: Option<string>, tag: Option<string>)
    requires moduleName != [] && !Contains(moduleName, HeaderClose)
    requires keyword == "obsolete" || keyword == "new"
    requires name != [] && AllNameChars(name)
    requires paren.Some? ==> paren.value != [] && ')' !in paren.value
    requires tag.Some? ==> tag.value != []
    ensures var line := ModelLineText(keyword, name, paren, tag);
      ParseFrom(version, Idle, [HeaderLine(Models, moduleName, ""), line])
      == [ChangeRecord(version, moduleName, ModelCategory, if keyword == "obsolete" then "OBSOLETE" else "NEW",
                       line, Some(name), None, None, None, None, ModelDetails(paren, tag))]
  {
    var header := HeaderLine(Models, moduleName, "");
    var line := ModelLineText(keyword, name, paren, tag);
    HeaderStep(version, Idle, Models, moduleName);
    ModelLineStep(version, moduleName, keyword, name, paren, tag);
    TwoLineReport(version, header, line, InSection("MODELS", moduleName),
                  ChangeRecord(version, moduleName, ModelCategory, if keyword == "obsolete" then "OBSOLETE" else "NEW",
                               line, Some(name), None, None, None, None, ModelDetails(paren, tag)));
  }

  lemma FieldLineEnds(moduleName: string, model: string, field: string, fieldType: Option<string>, desc: string)
    requires moduleName != [] && desc != []
    ensures var line := FieldLineText(moduleName, model, field, fieldType, desc);
      line != [] && line[0] == moduleName[0] && line[|line| - 1] == desc[|desc| - 1]
  {
    var tail := TailText(fieldType, desc);
    ConcatEnds(" ", desc);
    ConcatEnds(":", " " + desc);
    if fieldType.Some? {
      ConcatEnds(")", ":" + (" " + desc));
      ConcatEnds(fieldType.value, ")" + (":" + (" " + desc)));
      ConcatEnds("(", fieldType.value + (")" + (":" + (" " + desc))));
      ConcatEnds(" ", "(" + (fieldType.value + (")" + (":" + (" " + desc)))));
    }
    ConcatEnds(SlashText(field), tail);
    ConcatEnds(SlashText(model), SlashText(field) + tail);
    ConcatEnds(moduleName, SlashText(model) + (SlashText(field) + tail));
  }

  lemma FieldLineStripped(moduleName: string, model: string, field: string, fieldType: Option<string>, desc: string)
    requires moduleName != [] && moduleName[0] != '-' && !IsSpace(moduleName[0])
    requires desc != [] && !IsSpace(desc[|desc| - 1])
    ensures var line := FieldLineText(moduleName, model, field, fieldType, desc);
      Strip(line) == line && line[0] != '-'
  {
    FieldLineEnds(moduleName, model, field, fieldType, desc);
    StripOfStripped(FieldLineText(moduleName, model, field, fieldType, desc));
  }

  /** A field line in a fields section yields its record, for the module the
      line names. */
  lemma FieldLineStep(version: string, headerModule: string, moduleName: string, model: string, field: string,
                      fieldType: Option<string>, desc: string)
    requires moduleName != [] && NoSpace(moduleName) && moduleName[0] != '-'
    requires model != [] && AllNameChars(model)
    requires field != [] && AllNameChars(field)
    requires fieldType.Some? ==> fieldType.value != [] && AllNameChars(fieldType.value)
    requires desc != [] && !IsSpace(desc[0]) && !IsSpace(desc[|desc| - 1])
    ensures var line := FieldLineText(moduleName, model, field, fieldType, desc);
      Step(version, InSection("FIELDS", headerModule), line)
      == (InSection("FIELDS", headerModule),
          Some(ChangeRecord(version, moduleName, FieldCategory, FieldChangeType(desc), line,
                            Some(model), Some(field), None, None, Some(desc), FieldDetails(fieldType))))
  {
    var line := FieldLineText(moduleName, model, field, fieldType, desc);
    FieldLineRoundTrip(moduleName, model, field, fieldType, desc);
    FieldLineStripped(moduleName, model, field, fieldType, desc);
    StripOfStripped(desc);
    NotHeader(line);
    ParseRecordIn(version, headerModule, line);
    StepRecord(version, InSection("FIELDS", headerModule), line);
  }

  /** A report of a fields header and one field line yields one FIELD record,
      for the module named on the line rather than in the header. */
  lemma FieldReportExample(version: string, headerModule: string, moduleName: string, model: string, field: string,
                           fieldType: Option<string>, desc: string)
    requires headerModule != [] && !Contains(headerModule, HeaderClose)
    requires moduleName != [] && NoSpace(moduleName) && moduleName[0] != '-'
    requires model != [] && AllNameChars(model)
    requires field != [] && AllNameChars(field)
    requires fieldType.Some? ==> fieldType.value != [] && AllNameChars(fieldType.value)
    requires desc != [] && !IsSpace(desc[0]) && !IsSpace(desc[|desc| - 1])
    ensures var line := FieldLineText(moduleName, model, field, fieldType, desc);
      ParseFrom(version, Idle, [HeaderLine(Fields, headerModule, ""), line])
      == [ChangeRecord(version, moduleName, FieldCategory, FieldChangeType(desc), line,
                       Some(model), Some(field), None, None, Some(desc), FieldDetails(fieldType))]
  {
    var header := HeaderLine(Fields, headerModule, "");
    var line := FieldLineText(moduleName, model, field, fieldType, desc);
    HeaderStep(version, Idle, Fields, headerModule);
    FieldLineStep(version, headerModule, moduleName, model, field, fieldType, desc);
    TwoLineReport(version, header, line, InSection("FIELDS", headerModule),
                  ChangeRecord(version, moduleName, FieldCategory, FieldChangeType(desc), line,
                               Some(model), Some(field), None, None, Some(desc), FieldDetails(fieldType)));
  }

  lemma XmlLineEnds(kind: string, recordModel: string, xmlId: string, extra: string)
    requires kind != [] && xmlId != []
    ensures var line := XmlLineText(kind, recordModel, xmlId, extra);
      line != [] && line[0] == kind[0]
      && line[|line| - 1] == (if extra == [] then xmlId[|xmlId| - 1] else extra[|extra| - 1])
  {
    var rest := xmlId + extra;
    ConcatEnds(xmlId, extra);
    ConcatEnds(" ", rest);
    ConcatEnds(":", " " + rest);
    ConcatEnds(recordModel, ":" + (" " + rest));
    ConcatEnds(" ", recordModel + (":" + (" " + rest)));
    ConcatEnds(kind, " " + (recordModel + (":" + (" " + rest))));
  }

  lemma XmlLineEdges(kind: string, recordModel: string, xmlId: string, extra: string)
    requires kind == "NEW" || kind == "DEL"
    requires xmlId != [] && !IsSpace(xmlId[|xmlId| - 1])
    requires extra != [] ==> !IsSpace(extra[|extra| - 1])
    ensures var line := XmlLineText(kind, recordModel, xmlId, extra);
      line != [] && line[0] != '-' && !IsSpace(line[0]) && !IsSpace(line[|line| - 1])
  {
    XmlLineEnds(kind, recordModel, xmlId, extra);
  }

  lemma XmlLineStripped(kind: string, recordModel: string, xmlId: string, extra: string)
    requires kind == "NEW" || kind == "DEL"
    requires xmlId != [] && !IsSpace(xmlId[|xmlId| - 1])
    requires extra != [] ==> !IsSpace(extra[|extra| - 1])
    ensures var line := XmlLineText(kind, recordModel, xmlId, extra);
      Strip(line) == line && line[0] != '-'
  {
    XmlLineEdges(kind, recordModel, xmlId, extra);
    StripOfStripped(XmlLineText(kind, recordModel, xmlId, extra));
  }

  /** An XML-record line in an XML-records section yields its record. */
  lemma XmlLineStep(version: string, moduleName: string, kind: string, recordModel: string, xmlId: string,
                    extra: string)
    requires kind == "NEW" || kind == "DEL"
    requires recordModel != [] && AllNameChars(recordModel)
    requires xmlId != [] && AllNameChars(xmlId)
    requires extra != [] ==> !IsNameChar(extra[0]) && !IsSpace(extra[|extra| - 1])
    ensures var line := XmlLineText(kind, recordModel, xmlId, extra);
      Step(version, InSection("XML_RECORDS", moduleName), line)
      == (InSection("XML_RECORDS", moduleName),
          Some(ChangeRecord(version, moduleName, XmlRecordCategory, XmlChangeType(kind, extra), line,
                            None, None, Some(recordModel), Some(xmlId), None, XmlDetails(extra))))
  {
    var line := XmlLineText(kind, recordModel, xmlId, extra);
    XmlLineRoundTrip(kind, recordModel, xmlId, extra);
    NameCharNotSpace(xmlId[|xmlId| - 1]);
    XmlLineStripped(kind, recordModel, xmlId, extra);
    NotHeader(line);
    ParseRecordIn(version, moduleName, line);
    StepRecord(version, InSection("XML_RECORDS", moduleName), line);
  }

  /** A report of an XML-records header and one record line yields one
      XML_RECORD record for the header's module. */
  lemma XmlReportExample(version: string, moduleName: string, kind: string, recordModel: string, xmlId: string,
                         extra: string)
    requires moduleName != [] && !Contains(moduleName, HeaderClose)
    requires kind == "NEW" || kind == "DEL"
    requires recordModel != [] && AllNameChars(recordModel)
    requires xmlId != [] && AllNameChars(xmlId)
    requires extra != [] ==> !IsNameChar(extra[0]) && !IsSpace(extra[|extra| - 1])
    ensures var line := XmlLineText(kind, recordModel, xmlId, extra);
      ParseFrom(version, Idle, [HeaderLine(XmlRecords, moduleName, ""), line])
      == [ChangeRecord(version, moduleName, XmlRecordCategory, XmlChangeType(kind, extra), line,
                       None, None, Some(recordModel), Some(xmlId), None, XmlDetails(extra))]
  {
    var header := HeaderLine(XmlRecords, moduleName, "");
    var line := XmlLineText(kind, recordModel, xmlId, extra);
    HeaderStep(version, Idle, XmlRecords, moduleName);
    XmlLineStep(version, moduleName, kind, recordModel, xmlId, extra);
    TwoLineReport(version, header, line, InSection("XML_RECORDS", moduleName),
                  ChangeRecord(version, moduleName, XmlRecordCategory, XmlChangeType(kind, extra), line,
                               None, None, Some(recordModel), Some(xmlId), None, XmlDetails(extra)));
  }
}
