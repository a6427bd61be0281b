/** The four line grammars of an analysis report (the regular expressions of
    `UpgradeAnalysisParser`), as structural matchers over positions in the
    line. Each matcher returns the groups the regular expression would
    capture, following Python's backtracking order: greedy runs first, a lazy
    group as short as the rest of the pattern allows, and an optional group
    tried before it is skipped.

    The round-trip lemmas are layered: a "pieces" lemma says where the parts of
    a rendered line sit (facts about single positions), and an "at" lemma runs
    the matcher over a line with those facts. */
module ReportLines {
  import opened Wrappers
  import opened Text

  /** The section keywords of a header; Python upper-cases them and replaces
      the space with an underscore, giving the category names MODELS, FIELDS
      and XML_RECORDS. */
  datatype Section = Models | Fields | XmlRecords

  const HeaderClose := "'---"

  /** The start of a header line up to the module name. */
  function HeaderStart(section: Section): string
  {
    match section
    case Models => "---Models in module '"
    case Fields => "---Fields in module '"
    case XmlRecords => "---XML records in module '"
  }

  /** A header line for `moduleName`, as the analysis tool writes it, followed
      by `rest` (the pattern is matched at the start of the line only). */
  function HeaderLine(section: Section, moduleName: string, rest: string): string
  {
    HeaderStart(section) + (moduleName + (HeaderClose + rest))
  }

  datatype HeaderMatch = HeaderMatch(section: Section, moduleName: string)

  /** The section-header pattern, matched at the start of the line only:
      three dashes, a section keyword, " in module '", a non-empty module name
      and the closing quote followed by three dashes. The keywords are tried
      in the order Models, Fields, XML records. */
  function MatchHeader(line: string): (r: Option<HeaderMatch>)
    ensures r.Some? ==> r.value.moduleName != [] && StartsWith(line, HeaderStart(r.value.section))
  {
    if StartsWith(line, HeaderStart(Models)) then HeaderModule(line, Models)
    else if StartsWith(line, HeaderStart(Fields)) then HeaderModule(line, Fields)
    else if StartsWith(line, HeaderStart(XmlRecords)) then HeaderModule(line, XmlRecords)
    else None
  }

  /** The lazy module group: the name ends at the first closing quote and
      dashes that leave it at least one character. */
  function HeaderModule(line: string, section: Section): (r: Option<HeaderMatch>)
    requires StartsWith(line, HeaderStart(section))
    ensures r.Some? ==> r.value.section == section && r.value.moduleName != []
    ensures r.Some? ==> exists q: nat :: HeaderModuleEnd(line, section, q) && r.value.moduleName == line[|HeaderStart(section)|..q]
  {
    var p := |HeaderStart(section)|;
    if p + 1 > |line| then None
    else
      match FindFrom(line, HeaderClose, p + 1)
      case None => None
      case Some(q) =>
        assert HeaderModuleEnd(line, section, q);
        Some(HeaderMatch(section, line[p..q]))
  }

  /** `q` is where the closing quote and dashes after the module name start. */
  predicate HeaderModuleEnd(line: string, section: Section, q: nat)
  {
    |HeaderStart(section)| < q && OccursAt(line, HeaderClose, q)
  }

  /** Whatever header is recognised, the line is that header followed by the
      rest of the line. */
  lemma HeaderSound(line: string)
    requires MatchHeader(line).Some?
    ensures exists rest :: line == HeaderLine(MatchHeader(line).value.section, MatchHeader(line).value.moduleName, rest)
  {
    var h := MatchHeader(line).value;
    var q: nat :| HeaderModuleEnd(line, h.section, q) && h.moduleName == line[|HeaderStart(h.section)|..q];
    HeaderPrefix(line, h.section, q);
  }

  lemma HeaderPrefix(line: string, section: Section, q: nat)
    requires StartsWith(line, HeaderStart(section)) && HeaderModuleEnd(line, section, q)
    ensures line == HeaderLine(section, line[|HeaderStart(section)|..q], line[q + 4..])
  {
    Join4(line, |HeaderStart(section)|, q, q + 4);
  }

  /** In `line`, the name `m` at `p` and the closing quote and dashes right
      after it: no earlier closing quote and dashes start past `p`. */
  lemma NoEarlierClose(line: string, p: nat, m: string)
    requires p + |m| + 4 <= |line| && OccursAt(line, HeaderClose, p + |m|)
    requires forall i :: p <= i < p + |m| ==> line[i] == m[i - p]
    requires !Contains(m, HeaderClose)
    ensures forall k :: p + 1 <= k < p + |m| ==> !OccursAt(line, HeaderClose, k)
  {
    var q := p + |m|;
    forall k | p + 1 <= k < q
      ensures !OccursAt(line, HeaderClose, k)
    {
      if k + 4 <= q {
        assert line[k..k + 4] == m[k - p..k - p + 4];
        assert !OccursAt(m, HeaderClose, k - p);
      } else {
        assert line[k..k + 4][q - k] == line[q];
      }
    }
  }

  /** Where the parts of a header line sit. */
  lemma HeaderPieces(section: Section, m: string, rest: string)
    ensures var line := HeaderLine(section, m, rest);
      var p := |HeaderStart(section)|;
      StartsWith(line, HeaderStart(section)) && p + |m| + 4 <= |line| && line[p..p + |m|] == m
      && OccursAt(line, HeaderClose, p + |m|)
  {
    Pieces3(HeaderLine(section, m, rest), HeaderStart(section), m, HeaderClose, rest);
  }

  /** A line whose `i`-th character differs from the prefix's does not start
      with it. */
  lemma DiffersAt(line: string, prefix: string, i: nat)
    requires i < |prefix| && i < |line| && line[i] != prefix[i]
    ensures !StartsWith(line, prefix)
  {
    if |prefix| <= |line| {
      assert line[..|prefix|][i] == line[i];
    }
  }

  /** Which alternative of the section keyword matches: the three start with
      different letters. */
  lemma MatchHeaderSection(line: string, section: Section)
    requires StartsWith(line, HeaderStart(section))
    ensures MatchHeader(line) == HeaderModule(line, section)
  {
    assert line[3] == line[..|HeaderStart(section)|][3];
    if section != Models {
      DiffersAt(line, HeaderStart(Models), 3);
    }
    if section == XmlRecords {
      DiffersAt(line, HeaderStart(Fields), 3);
    }
  }

  /** The matcher over a line whose first closing quote and dashes past the
      name's first character sit at `q`. */
  lemma HeaderAt(line: string, section: Section, q: nat)
    requires StartsWith(line, HeaderStart(section)) && |HeaderStart(section)| + 1 <= q
    requires OccursAt(line, HeaderClose, q)
    requires forall k :: |HeaderStart(section)| + 1 <= k < q ==> !OccursAt(line, HeaderClose, k)
    ensures MatchHeader(line) == Some(HeaderMatch(section, line[|HeaderStart(section)|..q]))
  {
    FindFromAt(line, HeaderClose, |HeaderStart(section)| + 1, q);
    MatchHeaderSection(line, section);
  }

  /** A header naming a module that does not itself contain `'---` is read back
      with that section and that module, whatever follows it on the line. */
  lemma HeaderRoundTrip(section: Section, moduleName: string, rest: string)
    requires moduleName != [] && !Contains(moduleName, HeaderClose)
    ensures MatchHeader(HeaderLine(section, moduleName, rest)) == Some(HeaderMatch(section, moduleName))
  {
    var line := HeaderLine(section, moduleName, rest);
    HeaderPieces(section, moduleName, rest);
    SliceChars(line, |HeaderStart(section)|, moduleName);
    NoEarlierClose(line, |HeaderStart(section)|, moduleName);
    HeaderAt(line, section, |HeaderStart(section)| + |moduleName|);
  }

  datatype ModelMatch = ModelMatch(keyword: string, name: string, paren: Option<string>, tag: Option<string>)

  /** The keyword that opens a model line, followed by " model". */
  function ModelPrefix(keyword: string): string
  {
    keyword + " model"
  }

  /** The model-line pattern: "obsolete model" or "new model", whitespace, a
      name of word characters and dots, then optionally a parenthesised clause
      (shortest first) and a bracketed tag, up to the end of the line. */
  function MatchModelLine(line: string): (r: Option<ModelMatch>)
    ensures r.Some? ==> (r.value.keyword == "obsolete" || r.value.keyword == "new")
    ensures r.Some? ==> StartsWith(line, ModelPrefix(r.value.keyword))
    ensures r.Some? ==> r.value.name != []
    ensures r.Some? && r.value.paren.Some? ==> r.value.paren.value != []
    ensures r.Some? && r.value.tag.Some? ==> r.value.tag.value != []
  {
    if StartsWith(line, ModelPrefix("obsolete")) then ModelFrom(line, "obsolete", 14)
    else if StartsWith(line, ModelPrefix("new")) then ModelFrom(line, "new", 9)
    else None
  }

  function ModelFrom(line: string, keyword: string, p: nat): (r: Option<ModelMatch>)
    requires p <= |line|
    ensures r.Some? ==> r.value.keyword == keyword
    ensures r.Some? ==> r.value.name != []
    ensures r.Some? && r.value.paren.Some? ==> r.value.paren.value != []
    ensures r.Some? && r.value.tag.Some? ==> r.value.tag.value != []
  {
    var i := SpaceEnd(line, p);
    var j := NameEnd(line, i);
    if i == p || j == i then None
    else
      match ModelTail(line, j)
      case None => None
      case Some(t) => Some(ModelMatch(keyword, line[i..j], t.0, t.1))
  }

  /** What follows the model name: an optional parenthesised clause and an
      optional bracketed tag, then the end of the line. */
  function ModelTail(line: string, j: nat): (r: Option<(Option<string>, Option<string>)>)
    requires j <= |line|
    ensures r.Some? && r.value.0.Some? ==> r.value.0.value != []
    ensures r.Some? && r.value.1.Some? ==> r.value.1.value != []
  {
    var w := SpaceEnd(line, j);
    var close := if w < |line| && line[w] == '(' then ParenClose(line, w + 2) else None;
    match close
    case Some(ct) => Some((Some(line[w + 1..ct.0]), ct.1))
    case None =>
      match TagTail(line, w)
      case Some(tag) => Some((None, tag))
      case None => None
  }

  /** The first `)` at or after `c`. */
  function NextClose(line: string, c: nat): (r: Option<nat>)
    ensures r.Some? ==> c <= r.value < |line| && line[r.value] == ')'
    decreases |line| - c
  {
    if c >= |line| then None
    else if line[c] == ')' then Some(c)
    else NextClose(line, c + 1)
  }

  /** The lazy parenthesised group: the first `)` at or after `c` after which
      the tag tail matches, with that tail's tag. */
  function ParenClose(line: string, c: nat): (r: Option<(nat, Option<string>)>)
    ensures r.Some? ==> c <= r.value.0 < |line| && line[r.value.0] == ')'
    ensures r.Some? && r.value.1.Some? ==> r.value.1.value != []
    decreases |line| - c
  {
    match NextClose(line, c)
    case None => None
    case Some(k) =>
      match TagTail(line, k + 1)
      case Some(tag) => Some((k, tag))
      case None => ParenClose(line, k + 1)
  }

  /** Optional whitespace, an optional bracketed tag, then the end of the
      line, from position `i`: `Some(tag)` when it matches. */
  function TagTail(line: string, i: nat): (r: Option<Option<string>>)
    requires i <= |line|
    ensures r.Some? && r.value.Some? ==> r.value.value != []
  {
    var u := SpaceEnd(line, i);
    if u == |line| then Some(None)
    else if line[u] == '[' && u + 3 <= |line| && line[|line| - 1] == ']' then Some(Some(line[u + 1..|line| - 1]))
    else None
  }

  function TagText(tag: Option<string>): string
  {
    if tag.Some? then " " + ("[" + (tag.value + "]")) else ""
  }

  /** The part of a model line after the name: " (clause)" and " [tag]",
      each when present. */
  function ModelTailText(paren: Option<string>, tag: Option<string>): string
  {
    if paren.Some? then " " + ("(" + (paren.value + (")" + TagText(tag)))) else TagText(tag)
  }

  /** A model line as the analysis tool writes it. */
  function ModelLineText(keyword: string, name: string, paren: Option<string>, tag: Option<string>): string
  {
    ModelPrefix(keyword) + (" " + (name + ModelTailText(paren, tag)))
  }

  lemma {:induction false} NextCloseAt(line: string, c: nat, close: nat)
    requires c <= close < |line|
    requires forall k :: c <= k < close ==> line[k] != ')'
    requires line[close] == ')'
    ensures NextClose(line, c) == Some(close)
    decreases close - c
  {
    if c < close {
      NextCloseAt(line, c + 1, close);
    }
  }

  /** Where a rendered tag sits from position `i`: " [tag]" up to the end of
      the line, or nothing. */
  predicate TagShape(line: string, i: nat, hasTag: bool)
  {
    if hasTag then i + 4 <= |line| && line[i] == ' ' && line[i + 1] == '[' && line[|line| - 1] == ']'
    else i == |line|
  }

  /** The tag the tail from `i` captures, given its shape. */
  function TagValue(line: string, i: nat, hasTag: bool): Option<string>
    requires TagShape(line, i, hasTag)
  {
    if hasTag then Some(line[i + 2..|line| - 1]) else None
  }

  lemma TagPieces(line: string, i: nat, tag: Option<string>)
    requires i <= |line| && line[i..] == TagText(tag)
    requires tag.Some? ==> tag.value != []
    ensures TagShape(line, i, tag.Some?) && TagValue(line, i, tag.Some?) == tag
  {
    if tag.Some? {
      SuffixSplit(line, i, " ", "[" + (tag.value + "]"));
      SuffixSplit(line, i + 1, "[", tag.value + "]");
      SuffixSplit(line, i + 2, tag.value, "]");
    }
  }

  lemma TagTailAt(line: string, i: nat, hasTag: bool)
    requires i <= |line| && TagShape(line, i, hasTag)
    ensures TagTail(line, i) == Some(TagValue(line, i, hasTag))
  {
    if hasTag {
      SpaceEndAt(line, i, i + 1);
    } else {
      SpaceEndAt(line, i, i);
    }
  }

  lemma ParenCloseAt(line: string, c: nat, close: nat, tag: Option<string>)
    requires NextClose(line, c) == Some(close) && TagTail(line, close + 1) == Some(tag)
    ensures ParenClose(line, c) == Some((close, tag))
  {
  }

  /** Where a rendered clause " (pv)" followed by `rest` sits from position
      `j`. */
  lemma ParenPieces(line: string, j: nat, pv: string, rest: string)
    requires j <= |line| && line[j..] == " " + ("(" + (pv + (")" + rest)))
    ensures j + 2 + |pv| < |line| && line[j] == ' ' && line[j + 1] == '(' && line[j + 2 + |pv|] == ')'
    ensures line[j + 2..j + 2 + |pv|] == pv && line[j + 3 + |pv|..] == rest
  {
    SuffixSplit(line, j, " ", "(" + (pv + (")" + rest)));
    SuffixSplit(line, j + 1, "(", pv + (")" + rest));
    SuffixSplit(line, j + 2, pv, ")" + rest);
    SuffixSplit(line, j + 2 + |pv|, ")", rest);
  }

  /** The tail after the name with a clause closing at `c`: the lazy group
      stops at the first `)`, after which the tag tail matches. */
  lemma ModelTailParen(line: string, j: nat, c: nat, hasTag: bool)
    requires j + 2 < c < |line| && line[j] == ' ' && line[j + 1] == '(' && line[c] == ')'
    requires forall k :: j + 2 <= k < c ==> line[k] != ')'
    requires TagShape(line, c + 1, hasTag)
    ensures ModelTail(line, j) == Some((Some(line[j + 2..c]), TagValue(line, c + 1, hasTag)))
  {
    SpaceEndAt(line, j, j + 1);
    NextCloseAt(line, j + 3, c);
    TagTailAt(line, c + 1, hasTag);
    ParenCloseAt(line, j + 3, c, TagValue(line, c + 1, hasTag));
  }

  /** The tail after the name without a clause. */
  lemma ModelTailPlain(line: string, j: nat, hasTag: bool)
    requires j <= |line| && TagShape(line, j, hasTag)
    ensures ModelTail(line, j) == Some((None, TagValue(line, j, hasTag)))
  {
    if hasTag {
      SpaceEndAt(line, j, j + 1);
      SpaceEndAt(line, j + 1, j + 1);
    } else {
      SpaceEndAt(line, j, j);
    }
  }

  /** Where the parts of a rendered clause and tag sit from position `j`. */
  lemma ParenTailPieces(line: string, j: nat, pv: string, tag: Option<string>)
    requires j <= |line| && line[j..] == " " + ("(" + (pv + (")" + TagText(tag))))
    requires tag.Some? ==> tag.value != []
    ensures j + 2 + |pv| < |line| && line[j] == ' ' && line[j + 1] == '(' && line[j + 2 + |pv|] == ')'
    ensures line[j + 2..j + 2 + |pv|] == pv && forall k :: j + 2 <= k < j + 2 + |pv| ==> line[k] == pv[k - j - 2]
    ensures TagShape(line, j + 3 + |pv|, tag.Some?) && TagValue(line, j + 3 + |pv|, tag.Some?) == tag
  {
    ParenPieces(line, j, pv, TagText(tag));
    SliceChars(line, j + 2, pv);
    TagPieces(line, j + 3 + |pv|, tag);
  }

  /** The tail after the name of a rendered model line with a clause. */
  lemma ModelTailParenAt(line: string, j: nat, c: nat, pv: string, tag: Option<string>)
    requires j <= |line| && line[j..] == " " + ("(" + (pv + (")" + TagText(tag)))) && c == j + 2 + |pv|
    requires pv != [] && ')' !in pv
    requires tag.Some? ==> tag.value != []
    ensures ModelTail(line, j) == Some((Some(pv), tag))
  {
    ParenTailPieces(line, j, pv, tag);
    ModelTailParen(line, j, c, tag.Some?);
    assert line[j + 2..c] == pv;
    assert TagValue(line, c + 1, tag.Some?) == tag;
  }

  lemma ModelTailAt(line: string, j: nat, paren: Option<string>, tag: Option<string>)
    requires j <= |line| && line[j..] == ModelTailText(paren, tag)
    requires paren.Some? ==> paren.value != [] && ')' !in paren.value
    requires tag.Some? ==> tag.value != []
    ensures ModelTail(line, j) == Some((paren, tag))
    ensures j == |line| || line[j] == ' '
  {
    if paren.Some? {
      ModelTailParenAt(line, j, j + 2 + |paren.value|, paren.value, tag);
      assert line[j..][0] == line[j];
    } else {
      TagPieces(line, j, tag);
      ModelTailPlain(line, j, tag.Some?);
    }
  }

  lemma ModelFromAt(line: string, keyword: string, p: nat, j: nat, tail: (Option<string>, Option<string>))
    requires p + 1 < j <= |line| && line[p] == ' '
    requires forall k :: p + 1 <= k < j ==> IsNameChar(line[k])
    requires j == |line| || line[j] == ' '
    requires ModelTail(line, j) == Some(tail)
    ensures ModelFrom(line, keyword, p) == Some(ModelMatch(keyword, line[p + 1..j], tail.0, tail.1))
  {
    NameCharNotSpace(line[p + 1]);
    SpaceEndAt(line, p, p + 1);
    NameEndAt(line, p + 1, j);
  }

  /** Where the keyword and the name of a rendered model line sit. */
  lemma ModelLinePieces(keyword: string, name: string, paren: Option<string>, tag: Option<string>)
    ensures var line := ModelLineText(keyword, name, paren, tag);
      var p := |keyword| + 6;
      p + 1 + |name| <= |line| && StartsWith(line, ModelPrefix(keyword)) && line[p] == ' '
      && line[p + 1..p + 1 + |name|] == name && line[p + 1 + |name|..] == ModelTailText(paren, tag)
  {
    var line := ModelLineText(keyword, name, paren, tag);
    var p := |keyword| + 6;
    var tail := ModelTailText(paren, tag);
    SuffixSplit(line, 0, ModelPrefix(keyword), " " + (name + tail));
    SuffixSplit(line, p, " ", name + tail);
    SuffixSplit(line, p + 1, name, tail);
  }

  /** A slice of name characters. */
  lemma NameCharsAt(s: string, i: nat, j: nat, a: string)
    requires i <= j <= |s| && s[i..j] == a && AllNameChars(a)
    ensures forall k :: i <= k < j ==> IsNameChar(s[k])
  {
    SliceChars(s, i, a);
  }

  lemma MatchObsoleteModel(line: string)
    requires StartsWith(line, ModelPrefix("obsolete"))
    ensures MatchModelLine(line) == ModelFrom(line, "obsolete", 14)
  {
  }

  lemma MatchNewModel(line: string)
    requires StartsWith(line, ModelPrefix("new"))
    ensures MatchModelLine(line) == ModelFrom(line, "new", 9)
  {
    assert line[0] == line[..9][0];
    DiffersAt(line, ModelPrefix("obsolete"), 0);
  }

  /** The matcher over a model line whose keyword, name and tail are in
      place. */
  lemma ModelLineAt(line: string, keyword: string, j: nat, tail: (Option<string>, Option<string>))
    requires keyword == "obsolete" || keyword == "new"
    requires StartsWith(line, ModelPrefix(keyword))
    requires |keyword| + 7 < j <= |line| && line[|keyword| + 6] == ' '
    requires forall k :: |keyword| + 7 <= k < j ==> IsNameChar(line[k])
    requires j == |line| || line[j] == ' '
    requires ModelTail(line, j) == Some(tail)
    ensures MatchModelLine(line) == Some(ModelMatch(keyword, line[|keyword| + 7..j], tail.0, tail.1))
  {
    ModelFromAt(line, keyword, |keyword| + 6, j, tail);
    if keyword == "obsolete" {
      MatchObsoleteModel(line);
    } else {
      MatchNewModel(line);
    }
  }

  /** A well-formed model line is read back into exactly its parts. */
  lemma ModelLineRoundTrip(keyword: string, name: string, paren: Option<string>, tag: Option<string>)
    requires keyword == "obsolete" || keyword == "new"
    requires name != [] && AllNameChars(name)
    requires paren.Some? ==> paren.value != [] && ')' !in paren.value
    requires tag.Some? ==> tag.value != []
    ensures MatchModelLine(ModelLineText(keyword, name, paren, tag)) == Some(ModelMatch(keyword, name, paren, tag))
  {
    var line := ModelLineText(keyword, name, paren, tag);
    var p := |keyword| + 6;
    var j := p + 1 + |name|;
    ModelLinePieces(keyword, name, paren, tag);
    NameCharsAt(line, p + 1, j, name);
    ModelTailAt(line, j, paren, tag);
    ModelLineAt(line, keyword, j, (paren, tag));
  }

  /** A recognised model name consists of word characters and dots only. */
  lemma ModelLineSound(line: string)
    requires MatchModelLine(line).Some?
    ensures AllNameChars(MatchModelLine(line).value.name)
  {
    if StartsWith(line, ModelPrefix("obsolete")) {
      ModelFromSound(line, "obsolete", 14);
    } else {
      ModelFromSound(line, "new", 9);
    }
  }

  lemma ModelFromSound(line: string, keyword: string, p: nat)
    requires p <= |line| && ModelFrom(line, keyword, p).Some?
    ensures AllNameChars(ModelFrom(line, keyword, p).value.name)
  {
    NameEndNames(line, SpaceEnd(line, p));
  }

  datatype FieldMatch = FieldMatch(moduleName: string, model: string, field: string, fieldType: Option<string>, desc: string)

  /** The field-line pattern: a module (non-space characters), a slash, a
      model name, a slash, a field name, an optional parenthesised type, a
      colon and a non-empty description, with optional whitespace between the
      parts. The module group is greedy and may itself contain slashes: the
      longest non-space prefix is tried first, then ever shorter ones. */
  function MatchFieldLine(line: string): (r: Option<FieldMatch>)
    ensures r.Some? ==> r.value.moduleName != [] && StartsWith(line, r.value.moduleName)
    ensures r.Some? ==> r.value.model != [] && r.value.field != [] && r.value.desc != []
    ensures r.Some? && r.value.fieldType.Some? ==> r.value.fieldType.value != []
  {
    var n := NonSpaceEnd(line, 0);
    if n == 0 then None else FieldFrom(line, n)
  }

  function FieldFrom(line: string, k: nat): (r: Option<FieldMatch>)
    requires 1 <= k <= |line|
    ensures r.Some? ==> r.value.moduleName != [] && StartsWith(line, r.value.moduleName)
    ensures r.Some? ==> r.value.model != [] && r.value.field != [] && r.value.desc != []
    ensures r.Some? && r.value.fieldType.Some? ==> r.value.fieldType.value != []
    decreases k
  {
    match FieldRest(line, k)
    case Some(m) => Some(m)
    case None => if k == 1 then None else FieldFrom(line, k - 1)
  }

  /** The rest of the field-line pattern once the module group has taken
      `line[..k]`. */
  function FieldRest(line: string, k: nat): (r: Option<FieldMatch>)
    requires k <= |line|
    ensures r.Some? ==> r.value.moduleName == line[..k]
    ensures r.Some? ==> r.value.model != [] && r.value.field != [] && r.value.desc != []
    ensures r.Some? && r.value.fieldType.Some? ==> r.value.fieldType.value != []
  {
    match SlashThenName(line, k)
    case None => None
    case Some((b, c)) =>
      match SlashThenName(line, c)
      case None => None
      case Some((e, f)) =>
        match TypeAndDesc(line, f)
        case None => None
        case Some((fieldType, desc)) => Some(FieldMatch(line[..k], line[b..c], line[e..f], fieldType, desc))
  }

  /** Optional whitespace, the optional parenthesised type, the colon and the
      description, from position `f` after the field name. */
  function TypeAndDesc(line: string, f: nat): (r: Option<(Option<string>, string)>)
    requires f <= |line|
    ensures r.Some? && r.value.0.Some? ==> r.value.0.value != []
    ensures r.Some? ==> r.value.1 != []
  {
    var g := SpaceEnd(line, f);
    var h := TypeEnd(line, g);
    match DescAfterColon(line, h)
    case None => None
    case Some(desc) => Some((if h == g then None else Some(line[g + 1..h - 1]), desc))
  }

  /** Optional whitespace, a slash, optional whitespace and a non-empty name
      from position `i`: the bounds of the name. */
  function SlashThenName(line: string, i: nat): (r: Option<(nat, nat)>)
    requires i <= |line|
    ensures r.Some? ==> i < r.value.0 < r.value.1 <= |line|
  {
    var a := SpaceEnd(line, i);
    if a == |line| || line[a] != '/' then None
    else
      var b := SpaceEnd(line, a + 1);
      var c := NameEnd(line, b);
      if c == b then None else Some((b, c))
  }

  /** The optional parenthesised field type at `g`: the position after it,
      or `g` when there is none. */
  function TypeEnd(line: string, g: nat): (h: nat)
    requires g <= |line|
    ensures h == g || g + 3 <= h <= |line|
  {
    if g < |line| && line[g] == '(' then
      var t := NameEnd(line, g + 1);
      if t > g + 1 && t < |line| && line[t] == ')' then t + 1 else g
    else g
  }

  /** Optional whitespace, a colon, optional whitespace and a non-empty
      description from position `h`. */
  function DescAfterColon(line: string, h: nat): (r: Option<string>)
    requires h <= |line|
    ensures r.Some? ==> r.value != []
  {
    var i := SpaceEnd(line, h);
    if i == |line| || line[i] != ':' then None
    else
      var j := SpaceEnd(line, i + 1);
      if j < |line| then Some(line[j..])
      // the whitespace run gives back its last character so that the
      // description has one
      else if i + 1 < |line| then Some(line[|line| - 1..])
      else None
  }

  /** The colon and the description, after " (type)" when there is a type. */
  function TailText(fieldType: Option<string>, desc: string): string
  {
    if fieldType.Some? then " " + ("(" + (fieldType.value + (")" + (":" + (" " + desc))))) else ":" + (" " + desc)
  }

  /** Where the colon sits in a rendered tail that starts at `f`. */
  function ColonAt(f: nat, fieldType: Option<string>): nat
  {
    if fieldType.Some? then f + 3 + |fieldType.value| else f
  }

  /** A separator " / " and a name. */
  function SlashText(name: string): string
  {
    " " + ("/" + (" " + name))
  }

  /** A field line as the analysis tool writes it. */
  function FieldLineText(moduleName: string, model: string, field: string, fieldType: Option<string>, desc: string): string
  {
    moduleName + (SlashText(model) + (SlashText(field) + TailText(fieldType, desc)))
  }

  /** The module `line[..n]` holds no whitespace. */
  predicate ModuleShape(line: string, n: nat)
  {
    1 <= n <= |line| && forall k :: 0 <= k < n ==> !IsSpace(line[k])
  }

  /** " / " from position `i` and a name ending at `e`. */
  predicate SlashShape(line: string, i: nat, e: nat)
  {
    i + 3 < e <= |line| && line[i] == ' ' && line[i + 1] == '/' && line[i + 2] == ' '
    && forall k :: i + 3 <= k < e ==> IsNameChar(line[k])
  }

  /** The type " (type)" from `f` when there is one, then ": " and a
      description from the colon at `h`. */
  predicate TailShape(line: string, f: nat, h: nat, hasType: bool)
  {
    f <= h && h + 2 < |line| && line[h] == ':' && line[h + 1] == ' ' && !IsSpace(line[h + 2])
    && if hasType then
         f + 3 < h && line[f] == ' ' && line[f + 1] == '(' && line[h - 1] == ')'
         && (forall k :: f + 2 <= k < h - 1 ==> IsNameChar(line[k]))
       else h == f
  }

  lemma SlashThenNameAt(line: string, i: nat, e: nat)
    requires SlashShape(line, i, e) && (e == |line| || !IsNameChar(line[e]))
    ensures SlashThenName(line, i) == Some((i + 3, e))
  {
    NameCharNotSpace(line[i + 3]);
    SpaceEndAt(line, i, i + 1);
    SpaceEndAt(line, i + 2, i + 3);
    NameEndAt(line, i + 3, e);
  }

  lemma TypeAt(line: string, f: nat, h: nat)
    requires f + 4 <= h <= |line| && line[f] == ' ' && line[f + 1] == '(' && line[h - 1] == ')'
    requires forall k :: f + 2 <= k < h - 1 ==> IsNameChar(line[k])
    ensures SpaceEnd(line, f) == f + 1 && TypeEnd(line, f + 1) == h
  {
    SpaceEndAt(line, f, f + 1);
    NameEndAt(line, f + 2, h - 1);
  }

  lemma NoTypeAt(line: string, f: nat)
    requires f < |line| && line[f] == ':'
    ensures SpaceEnd(line, f) == f && TypeEnd(line, f) == f
  {
    SpaceEndAt(line, f, f);
  }

  lemma DescAt(line: string, h: nat)
    requires h + 2 < |line| && line[h] == ':' && line[h + 1] == ' ' && !IsSpace(line[h + 2])
    ensures DescAfterColon(line, h) == Some(line[h + 2..])
  {
    SpaceEndAt(line, h, h);
    SpaceEndAt(line, h + 1, h + 2);
  }

  /** The type the tail from `f` captures, given its shape. */
  function TypeValue(line: string, f: nat, h: nat, hasType: bool): Option<string>
    requires TailShape(line, f, h, hasType)
  {
    if hasType then Some(line[f + 2..h - 1]) else None
  }

  lemma TypeAndDescAt(line: string, f: nat, h: nat, hasType: bool)
    requires TailShape(line, f, h, hasType)
    ensures TypeAndDesc(line, f) == Some((TypeValue(line, f, h, hasType), line[h + 2..]))
  {
    var g := SpaceEnd(line, f);
    if hasType {
      TypeAt(line, f, h);
      assert g + 1 == f + 2 && g != h;
      assert line[g + 1..h - 1] == line[f + 2..h - 1];
    } else {
      NoTypeAt(line, f);
      assert g == h;
    }
    assert TypeEnd(line, g) == h;
    DescAt(line, h);
  }

  /** How the rest of the pattern is assembled from its three parts. */
  lemma FieldRestParts(line: string, n: nat, b: nat, c: nat, e: nat, f: nat, td: (Option<string>, string))
    requires n <= |line| && SlashThenName(line, n) == Some((b, c)) && SlashThenName(line, c) == Some((e, f))
    requires TypeAndDesc(line, f) == Some(td)
    ensures FieldRest(line, n) == Some(FieldMatch(line[..n], line[b..c], line[e..f], td.0, td.1))
  {
  }

  /** The longest non-space prefix is tried first: it is the module when the
      rest matches after it. */
  lemma MatchFieldLineAt(line: string, n: nat)
    requires 1 <= n <= |line| && NonSpaceEnd(line, 0) == n && FieldRest(line, n).Some?
    ensures MatchFieldLine(line) == FieldRest(line, n)
  {
  }

  /** The sub-matchers over a line whose parts are in place. */
  lemma FieldPartsAt(line: string, n: nat, e1: nat, e2: nat, h: nat, hasType: bool)
    requires ModuleShape(line, n) && SlashShape(line, n, e1) && SlashShape(line, e1, e2) && TailShape(line, e2, h, hasType)
    ensures NonSpaceEnd(line, 0) == n
    ensures SlashThenName(line, n) == Some((n + 3, e1)) && SlashThenName(line, e1) == Some((e1 + 3, e2))
    ensures TypeAndDesc(line, e2) == Some((TypeValue(line, e2, h, hasType), line[h + 2..]))
  {
    NonSpaceEndAt(line, 0, n);
    SlashThenNameAt(line, n, e1);
    SlashThenNameAt(line, e1, e2);
    TypeAndDescAt(line, e2, h, hasType);
  }

  /** The whole pattern, assembled from the results of its parts. */
  lemma FieldLineFromParts(line: string, n: nat, e1: nat, e2: nat, ft: Option<string>, desc: string)
    requires 1 <= n <= |line| && NonSpaceEnd(line, 0) == n
    requires SlashThenName(line, n) == Some((n + 3, e1)) && SlashThenName(line, e1) == Some((e1 + 3, e2))
    requires TypeAndDesc(line, e2) == Some((ft, desc))
    ensures MatchFieldLine(line) == Some(FieldMatch(line[..n], line[n + 3..e1], line[e1 + 3..e2], ft, desc))
  {
    FieldRestParts(line, n, n + 3, e1, e1 + 3, e2, (ft, desc));
    MatchFieldLineAt(line, n);
  }

  lemma FieldLineAt(line: string, n: nat, e1: nat, e2: nat, h: nat, hasType: bool)
    requires ModuleShape(line, n) && SlashShape(line, n, e1) && SlashShape(line, e1, e2) && TailShape(line, e2, h, hasType)
    ensures MatchFieldLine(line)
         == Some(FieldMatch(line[..n], line[n + 3..e1], line[e1 + 3..e2], TypeValue(line, e2, h, hasType), line[h + 2..]))
  {
    FieldPartsAt(line, n, e1, e2, h, hasType);
    FieldLineFromParts(line, n, e1, e2, TypeValue(line, e2, h, hasType), line[h + 2..]);
  }

  /** Where a rendered field line's module sits. */
  lemma FieldLinePieces(moduleName: string, model: string, field: string, fieldType: Option<string>, desc: string)
    requires moduleName != [] && NoSpace(moduleName)
    ensures var line := FieldLineText(moduleName, model, field, fieldType, desc);
      ModuleShape(line, |moduleName|) && line[..|moduleName|] == moduleName
      && line[|moduleName|..] == SlashText(model) + (SlashText(field) + TailText(fieldType, desc))
  {
    var line := FieldLineText(moduleName, model, field, fieldType, desc);
    SuffixSplit(line, 0, moduleName, SlashText(model) + (SlashText(field) + TailText(fieldType, desc)));
    assert line[..|moduleName|] == line[0..|moduleName|];
    SliceChars(line, 0, moduleName);
  }

  /** Where " / name" followed by `rest` sits from position `i`. */
  lemma SlashShapeAt(line: string, i: nat, e: nat, name: string, rest: string)
    requires i <= |line| && line[i..] == SlashText(name) + rest && e == i + 3 + |name|
    requires name != [] && AllNameChars(name)
    ensures SlashShape(line, i, e) && line[i + 3..e] == name && line[e..] == rest
  {
    assert SlashText(name) + rest == " " + ("/" + (" " + (name + rest)));
    SuffixSplit(line, i, " ", "/" + (" " + (name + rest)));
    SuffixSplit(line, i + 1, "/", " " + (name + rest));
    SuffixSplit(line, i + 2, " ", name + rest);
    SuffixSplit(line, i + 3, name, rest);
    NameCharsAt(line, i + 3, i + 3 + |name|, name);
  }

  /** Where the parts of a rendered tail with a type sit from position `f`. */
  lemma TypedTailPieces(line: string, f: nat, h: nat, t: string, desc: string)
    requires f <= |line| && line[f..] == " " + ("(" + (t + (")" + (":" + (" " + desc))))) && h == f + 3 + |t|
    ensures h + 2 <= |line| && line[f] == ' ' && line[f + 1] == '(' && line[h - 1] == ')'
    ensures line[h] == ':' && line[h + 1] == ' ' && line[f + 2..h - 1] == t && line[h + 2..] == desc
  {
    var tail := ":" + (" " + desc);
    HeadSplit(line, f, ' ', "(" + (t + (")" + tail)));
    HeadSplit(line, f + 1, '(', t + (")" + tail));
    SuffixSplit(line, f + 2, t, ")" + tail);
    HeadSplit(line, h - 1, ')', tail);
    HeadSplit(line, h, ':', " " + desc);
    HeadSplit(line, h + 1, ' ', desc);
  }

  lemma TypedTailShape(line: string, f: nat, h: nat, t: string, desc: string)
    requires f + 3 + |t| == h && h + 2 <= |line| && line[f] == ' ' && line[f + 1] == '(' && line[h - 1] == ')'
    requires line[h] == ':' && line[h + 1] == ' ' && line[f + 2..h - 1] == t && line[h + 2..] == desc
    requires t != [] && AllNameChars(t)
    requires desc != [] && !IsSpace(desc[0])
    ensures TailShape(line, f, h, true) && TypeValue(line, f, h, true) == Some(t)
  {
    NameCharsAt(line, f + 2, h - 1, t);
    assert line[h + 2] == line[h + 2..][0];
  }

  lemma PlainTailShapeAt(line: string, f: nat, desc: string)
    requires f <= |line| && line[f..] == ":" + (" " + desc)
    requires desc != [] && !IsSpace(desc[0])
    ensures TailShape(line, f, f, false) && line[f + 2..] == desc
  {
    HeadSplit(line, f, ':', " " + desc);
    HeadSplit(line, f + 1, ' ', desc);
    HeadSplit(line, f + 2, desc[0], desc[1..]);
  }

  lemma TailShapeAt(line: string, f: nat, h: nat, fieldType: Option<string>, desc: string)
    requires f <= |line| && line[f..] == TailText(fieldType, desc) && h == ColonAt(f, fieldType)
    requires fieldType.Some? ==> fieldType.value != [] && AllNameChars(fieldType.value)
    requires desc != [] && !IsSpace(desc[0])
    ensures TailShape(line, f, h, fieldType.Some?) && line[h + 2..] == desc
    ensures TypeValue(line, f, h, fieldType.Some?) == fieldType
  {
    if fieldType.Some? {
      TypedTailPieces(line, f, h, fieldType.value, desc);
      TypedTailShape(line, f, h, fieldType.value, desc);
    } else {
      PlainTailShapeAt(line, f, desc);
    }
  }

  /** A well-formed field line is read back into exactly its parts. */
  lemma FieldLineRoundTrip(moduleName: string, model: string, field: string, fieldType: Option<string>, desc: string)
    requires moduleName != [] && NoSpace(moduleName)
    requires model != [] && AllNameChars(model)
    requires field != [] && AllNameChars(field)
    requires fieldType.Some? ==> fieldType.value != [] && AllNameChars(fieldType.value)
    requires desc != [] && !IsSpace(desc[0])
    ensures MatchFieldLine(FieldLineText(moduleName, model, field, fieldType, desc))
         == Some(FieldMatch(moduleName, model, field, fieldType, desc))
  {
    var line := FieldLineText(moduleName, model, field, fieldType, desc);
    var tail := TailText(fieldType, desc);
    var n := |moduleName|;
    var e1 := n + 3 + |model|;
    var e2 := e1 + 3 + |field|;
    var h := ColonAt(e2, fieldType);
    FieldLinePieces(moduleName, model, field, fieldType, desc);
    SlashShapeAt(line, n, e1, model, SlashText(field) + tail);
    SlashShapeAt(line, e1, e2, field, tail);
    TailShapeAt(line, e2, h, fieldType, desc);
    FieldLineAt(line, n, e1, e2, h, fieldType.Some?);
  }


  /** A recognised field line: the module holds no whitespace, and the model,
      the field and the type consist of word characters and dots. */
  lemma FieldLineSound(line: string)
    requires MatchFieldLine(line).Some?
    ensures var m := MatchFieldLine(line).value;
      NoSpace(m.moduleName) && AllNameChars(m.model) && AllNameChars(m.field)
      && (m.fieldType.Some? ==> AllNameChars(m.fieldType.value))
  {
    NonSpaceEndNonSpaces(line, 0);
    FieldFromSound(line, NonSpaceEnd(line, 0));
  }

  /** Every module the backtracking tries is a prefix of the first
      non-whitespace run. */
  lemma {:induction false} FieldFromSound(line: string, k: nat)
    requires 1 <= k <= |line| && NoSpace(line[..k]) && FieldFrom(line, k).Some?
    ensures var m := FieldFrom(line, k).value;
      NoSpace(m.moduleName) && AllNameChars(m.model) && AllNameChars(m.field)
      && (m.fieldType.Some? ==> AllNameChars(m.fieldType.value))
    decreases k
  {
    if FieldRest(line, k).Some? {
      FieldRestSound(line, k);
    } else {
      assert line[..k - 1] == line[..k][..k - 1];
      FieldFromSound(line, k - 1);
    }
  }

  lemma FieldRestSound(line: string, k: nat)
    requires k <= |line| && FieldRest(line, k).Some?
    ensures var m := FieldRest(line, k).value;
      AllNameChars(m.model) && AllNameChars(m.field) && (m.fieldType.Some? ==> AllNameChars(m.fieldType.value))
  {
    var bc := SlashThenName(line, k).value;
    SlashThenNameSound(line, k);
    SlashThenNameSound(line, bc.1);
    TypeAndDescSound(line, SlashThenName(line, bc.1).value.1);
  }

  lemma SlashThenNameSound(line: string, i: nat)
    requires i <= |line| && SlashThenName(line, i).Some?
    ensures AllNameChars(line[SlashThenName(line, i).value.0..SlashThenName(line, i).value.1])
  {
    var a := SpaceEnd(line, i);
    NameEndNames(line, SpaceEnd(line, a + 1));
  }

  lemma TypeAndDescSound(line: string, f: nat)
    requires f <= |line| && TypeAndDesc(line, f).Some?
    ensures TypeAndDesc(line, f).value.0.Some? ==> AllNameChars(TypeAndDesc(line, f).value.0.value)
  {
    var g := SpaceEnd(line, f);
    if g < |line| && line[g] == '(' {
      NameEndNames(line, g + 1);
    }
  }

  datatype XmlMatch = XmlMatch(kind: string, recordModel: string, xmlId: string, extra: string)

  /** The XML-record pattern: "NEW" or "DEL", whitespace, the record's model,
      a colon, whitespace, the XML id (as long as possible) and whatever
      remains of the line. */
  function MatchXmlLine(line: string): (r: Option<XmlMatch>)
    ensures r.Some? ==> (r.value.kind == "NEW" || r.value.kind == "DEL") && StartsWith(line, r.value.kind)
    ensures r.Some? ==> r.value.recordModel != [] && r.value.xmlId != []
  {
    if StartsWith(line, "NEW") then XmlFrom(line, "NEW")
    else if StartsWith(line, "DEL") then XmlFrom(line, "DEL")
    else None
  }

  function XmlFrom(line: string, kind: string): (r: Option<XmlMatch>)
    requires |kind| == 3 && StartsWith(line, kind)
    ensures r.Some? ==> r.value.kind == kind
    ensures r.Some? ==> r.value.recordModel != [] && r.value.xmlId != []
  {
    var a := SpaceEnd(line, 3);
    var b := NameEnd(line, a);
    if a == 3 || b == a || b == |line| || line[b] != ':' then None
    else
      var c := SpaceEnd(line, b + 1);
      var d := NameEnd(line, c);
      if c == b + 1 || d == c then None
      else
        Some(XmlMatch(kind, line[a..b], line[c..d], line[d..]))
  }

  /** An XML-record line as the analysis tool writes it. */
  function XmlLineText(kind: string, recordModel: string, xmlId: string, extra: string): string
  {
    kind + (" " + (recordModel + (":" + (" " + (xmlId + extra)))))
  }

  /** The positions in an XML-record line: the record model ends at the
      colon `b`, the id at `d`. */
  predicate XmlShape(line: string, b: nat, d: nat)
  {
    4 < b && b + 2 < d <= |line| && line[3] == ' '
    && (forall k :: 4 <= k < b ==> IsNameChar(line[k]))
    && line[b] == ':' && line[b + 1] == ' '
    && (forall k :: b + 2 <= k < d ==> IsNameChar(line[k]))
    && (d == |line| || !IsNameChar(line[d]))
  }

  lemma XmlFromAt(line: string, kind: string, b: nat, d: nat)
    requires |kind| == 3 && StartsWith(line, kind) && XmlShape(line, b, d)
    ensures XmlFrom(line, kind) == Some(XmlMatch(kind, line[4..b], line[b + 2..d], line[d..]))
  {
    NameCharNotSpace(line[4]);
    NameCharNotSpace(line[b + 2]);
    SpaceEndAt(line, 3, 4);
    NameEndAt(line, 4, b);
    SpaceEndAt(line, b + 1, b + 2);
    NameEndAt(line, b + 2, d);
  }

  lemma XmlLineAt(line: string, kind: string, b: nat, d: nat)
    requires (kind == "NEW" || kind == "DEL") && StartsWith(line, kind) && XmlShape(line, b, d)
    ensures MatchXmlLine(line) == Some(XmlMatch(kind, line[4..b], line[b + 2..d], line[d..]))
  {
    XmlFromAt(line, kind, b, d);
    if kind == "DEL" {
      assert line[0] == line[..3][0];
      DiffersAt(line, "NEW", 0);
    }
  }

  /** Where the parts of a rendered XML-record line sit. */
  lemma XmlLinePieces(kind: string, recordModel: string, xmlId: string, extra: string)
    requires |kind| == 3
    ensures var line := XmlLineText(kind, recordModel, xmlId, extra);
      var b := 4 + |recordModel|;
      var d := b + 2 + |xmlId|;
      d <= |line| && StartsWith(line, kind) && line[3] == ' ' && line[4..b] == recordModel
      && line[b] == ':' && line[b + 1] == ' ' && line[b + 2..d] == xmlId && line[d..] == extra
  {
    var line := XmlLineText(kind, recordModel, xmlId, extra);
    var b := 4 + |recordModel|;
    SuffixSplit(line, 0, kind, " " + (recordModel + (":" + (" " + (xmlId + extra)))));
    assert line[..3] == line[0..3];
    SuffixSplit(line, 3, " ", recordModel + (":" + (" " + (xmlId + extra))));
    SuffixSplit(line, 4, recordModel, ":" + (" " + (xmlId + extra)));
    SuffixSplit(line, b, ":", " " + (xmlId + extra));
    SuffixSplit(line, b + 1, " ", xmlId + extra);
    SuffixSplit(line, b + 2, xmlId, extra);
  }

  /** The positions of a line holding the parts of a well-formed XML-record
      line. */
  lemma XmlShapeFrom(line: string, b: nat, d: nat, recordModel: string, xmlId: string, extra: string)
    requires recordModel != [] && AllNameChars(recordModel)
    requires xmlId != [] && AllNameChars(xmlId)
    requires extra == [] || !IsNameChar(extra[0])
    requires b == 4 + |recordModel| && d == b + 2 + |xmlId| && d <= |line|
    requires line[3] == ' ' && line[4..b] == recordModel
    requires line[b] == ':' && line[b + 1] == ' ' && line[b + 2..d] == xmlId && line[d..] == extra
    ensures XmlShape(line, b, d)
  {
    NameCharsAt(line, 4, b, recordModel);
    NameCharsAt(line, b + 2, d, xmlId);
    assert extra != [] ==> line[d] == extra[0];
  }

  /** A well-formed XML-record line is read back into exactly its parts. */
  lemma XmlLineRoundTrip(kind: string, recordModel: string, xmlId: string, extra: string)
    requires kind == "NEW" || kind == "DEL"
    requires recordModel != [] && AllNameChars(recordModel)
    requires xmlId != [] && AllNameChars(xmlId)
    requires extra == [] || !IsNameChar(extra[0])
    ensures MatchXmlLine(XmlLineText(kind, recordModel, xmlId, extra)) == Some(XmlMatch(kind, recordModel, xmlId, extra))
  {
    var line := XmlLineText(kind, recordModel, xmlId, extra);
    var b := 4 + |recordModel|;
    var d := b + 2 + |xmlId|;
    XmlLinePieces(kind, recordModel, xmlId, extra);
    XmlShapeFrom(line, b, d, recordModel, xmlId, extra);
    XmlLineAt(line, kind, b, d);
  }

  /** A recognised XML-record line: the record model and the id consist of word
      characters and dots, and the remainder is the line's tail, which cannot
      continue the id. */
  lemma XmlLineSound(line: string)
    requires MatchXmlLine(line).Some?
    ensures var m := MatchXmlLine(line).value;
      AllNameChars(m.recordModel) && AllNameChars(m.xmlId)
      && EndsWith(line, m.extra) && (m.extra == [] || !IsNameChar(m.extra[0]))
  {
    var kind := if StartsWith(line, "NEW") then "NEW" else "DEL";
    XmlFromSound(line, kind);
  }

  lemma XmlFromSound(line: string, kind: string)
    requires |kind| == 3 && StartsWith(line, kind) && XmlFrom(line, kind).Some?
    ensures var m := XmlFrom(line, kind).value;
      AllNameChars(m.recordModel) && AllNameChars(m.xmlId)
      && EndsWith(line, m.extra) && (m.extra == [] || !IsNameChar(m.extra[0]))
  {
    var a := SpaceEnd(line, 3);
    var b := NameEnd(line, a);
    var c := SpaceEnd(line, b + 1);
    var d := NameEnd(line, c);
    NameEndNames(line, a);
    NameEndNames(line, c);
    assert d < |line| ==> line[d..][0] == line[d];
  }
}
