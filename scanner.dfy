/** The rename-script scanner of `parse_pre_migration_for_renamed_fields`: two
    walks over the syntax tree of a `pre-migration.py` script. The first walk
    binds variable names to the literal lists of renamed fields assigned to
    them; the second collects the rows passed as the second argument of every
    `openupgrade.rename_fields(...)` call, resolving names through the first
    walk's bindings. */
module Scanner {
  import opened Wrappers

  /** The part of Python's syntax tree the scanner looks at. Every other node
      is `Other` with its child nodes in field order; a keyword argument is
      represented by its value. */
  datatype Node =
    | StrConst(text: string)
    | OtherConst
    | Name(id: string)
    | ListLit(elts: seq<Node>)
    | TupleLit(elts: seq<Node>)
    | BinOp(left: Node, isAdd: bool, right: Node)
    | Attribute(value: Node, attr: string)
    | Call(func: Node, args: seq<Node>, keywords: seq<Node>)
    | Assign(targets: seq<Node>, rhs: Node)
    | Other(children: seq<Node>)

  /** One `(model, old_field, new_field)` tuple. */
  datatype RenamedField = RenamedField(model: string, oldField: string, newField: string)

  /** The `tuple_assignments` table filled by the first walk. */
  type Bindings = map<string, seq<RenamedField>>

  predicate IsSequenceLit(n: Node) { n.ListLit? || n.TupleLit? }

  /** The row an inner list or tuple contributes: its first element as model
      and its last two as old and new field, when it has at least three
      elements and those three are string constants. */
  function RowOf(elt: Node): Option<RenamedField>
  {
    if IsSequenceLit(elt) && |elt.elts| >= 3
       && elt.elts[0].StrConst?
       && elt.elts[|elt.elts| - 2].StrConst?
       && elt.elts[|elt.elts| - 1].StrConst?
    then Some(RenamedField(elt.elts[0].text, elt.elts[|elt.elts| - 2].text, elt.elts[|elt.elts| - 1].text))
    else None
  }

  /** The rows of the elements of a literal, in order. */
  function Rows(elts: seq<Node>): seq<RenamedField>
  {
    if elts == [] then [] else RowList(elts[0]) + Rows(elts[1..])
  }

  function RowList(elt: Node): seq<RenamedField>
  {
    match RowOf(elt) case Some(f) => [f] case None => []
  }

  lemma RowsFrom(elts: seq<Node>, i: nat)
    requires i < |elts|
    ensures Rows(elts[i..]) == RowList(elts[i]) + Rows(elts[i + 1..])
  {
    assert elts[i..][1..] == elts[i + 1..];
  }

  /** Taking in the rows of element `i` keeps the collected rows and the rows
      still ahead adding up to all rows. */
  lemma RowsStep(elts: seq<Node>, i: nat, before: seq<RenamedField>, items: seq<RenamedField>)
    requires i < |elts| && before + Rows(elts[i..]) == Rows(elts)
    requires items == before + RowList(elts[i])
    ensures items + Rows(elts[i + 1..]) == Rows(elts)
  {
    RowsFrom(elts, i);
    Assoc3(before, RowList(elts[i]), Rows(elts[i + 1..]));
  }

  lemma Assoc3<T>(a: seq<T>, b: seq<T>, c: seq<T>)
    ensures a + b + c == a + (b + c)
  {
  }

  /** `_extract_tuple_list_from_sequence`: the rows of a list or tuple literal,
      or nothing for any other node or a literal without a valid row. */
  function Extract(n: Node): Option<seq<RenamedField>>
  {
    if !IsSequenceLit(n) then None
    else if Rows(n.elts) == [] then None
    else Some(Rows(n.elts))
  }

  /** The loop of `_extract_tuple_list_from_sequence`. */
  method ExtractTupleList(n: Node) returns (r: Option<seq<RenamedField>>)
    ensures r == Extract(n)
  {
    if !IsSequenceLit(n) {
      return None;
    }
    var elts := n.elts;
    var items: seq<RenamedField> := [];
    var i := 0;
    assert elts[0..] == elts;
    while i < |elts|
      invariant i <= |elts|
      invariant items + Rows(elts[i..]) == Rows(elts)
    {
      ghost var before := items;
      var row := RowOf(elts[i]);
      if row.Some? {
        items := items + [row.value];
      }
      assert items == before + RowList(elts[i]);
      RowsStep(elts, i, before, items);
      i := i + 1;
    }
    assert elts[i..] == [];
    assert items == Rows(elts);
    r := if items == [] then None else Some(items);
  }

  /** Python's `x or []` for a resolved list. */
  function OrEmpty(r: Option<seq<RenamedField>>): seq<RenamedField>
  {
    if r.Some? then r.value else []
  }

  /** `_resolve_tuple_list_expression`: a name is looked up in the bindings, a
      literal is extracted, `a + b` concatenates both sides with an unresolved
      side counting as empty, and anything else resolves to nothing. */
  function Resolve(b: Bindings, e: Node): Option<seq<RenamedField>>
  {
    match e
    case Name(id) => if id in b then Some(b[id]) else None
    case ListLit(_) => Extract(e)
    case TupleLit(_) => Extract(e)
    case BinOp(l, isAdd, r) =>
      if !isAdd then None
      else
        var combined := OrEmpty(Resolve(b, l)) + OrEmpty(Resolve(b, r));
        if combined == [] then None else Some(combined)
    case _ => None
  }

  /** What the table looks like after the first walk: every name is bound to a
      non-empty list. */
  predicate NonEmptyBindings(b: Bindings)
  {
    forall id :: id in b ==> b[id] != []
  }

  /** `visit_Assign`: each plain-name target is bound to the rows of the
      assigned literal, when it has some. */
  function BindTargets(b: Bindings, targets: seq<Node>, value: Node): Bindings
    decreases targets
  {
    if targets == [] then b
    else
      var b' := if targets[0].Name? && Extract(value).Some?
                then b[targets[0].id := Extract(value).value] else b;
      BindTargets(b', targets[1..], value)
  }

  /** The first walk over one node: an assignment is handled by `visit_Assign`
      without descending into it; every other node is walked child by child. */
  function AssignPass(b: Bindings, n: Node): Bindings
    decreases n
  {
    match n
    case StrConst(_) => b
    case OtherConst => b
    case Name(_) => b
    case ListLit(elts) => AssignPassAll(b, elts)
    case TupleLit(elts) => AssignPassAll(b, elts)
    case BinOp(l, _, r) => AssignPass(AssignPass(b, l), r)
    case Attribute(v, _) => AssignPass(b, v)
    case Call(f, args, kws) => AssignPassAll(AssignPassAll(AssignPass(b, f), args), kws)
    case Assign(targets, value) => BindTargets(b, targets, value)
    case Other(children) => AssignPassAll(b, children)
  }

  function AssignPassAll(b: Bindings, ns: seq<Node>): Bindings
    decreases ns
  {
    if ns == [] then b else AssignPassAll(AssignPass(b, ns[0]), ns[1..])
  }

  /** The callee `openupgrade.rename_fields`. */
  predicate IsRenameFields(f: Node)
  {
    f.Attribute? && f.attr == "rename_fields" && f.value.Name? && f.value.id == "openupgrade"
  }

  /** What one call contributes by itself: the resolved second positional
      argument of a recognised call with at least two positional arguments. */
  function CallRows(b: Bindings, f: Node, args: seq<Node>): seq<RenamedField>
  {
    if IsRenameFields(f) && |args| >= 2 then OrEmpty(Resolve(b, args[1])) else []
  }

  /** The second walk over one node: a call contributes its own rows and then
      those of the calls nested inside it, in visit order. */
  function CallPass(b: Bindings, n: Node): seq<RenamedField>
    decreases n
  {
    match n
    case StrConst(_) => []
    case OtherConst => []
    case Name(_) => []
    case ListLit(elts) => CallPassAll(b, elts)
    case TupleLit(elts) => CallPassAll(b, elts)
    case BinOp(l, _, r) => CallPass(b, l) + CallPass(b, r)
    case Attribute(v, _) => CallPass(b, v)
    case Call(f, args, kws) =>
      CallRows(b, f, args) + CallPass(b, f) + CallPassAll(b, args) + CallPassAll(b, kws)
    case Assign(targets, value) => CallPassAll(b, targets) + CallPass(b, value)
    case Other(children) => CallPassAll(b, children)
  }

  function CallPassAll(b: Bindings, ns: seq<Node>): seq<RenamedField>
    decreases ns
  {
    if ns == [] then [] else CallPass(b, ns[0]) + CallPassAll(b, ns[1..])
  }

  /** `parse_pre_migration_for_renamed_fields`: `None` stands for a script that
      cannot be read or does not parse. */
  function Scan(tree: Option<Node>): seq<RenamedField>
  {
    match tree
    case None => []
    case Some(t) => CallPass(AssignPass(map[], t), t)
  }

  /** `AssignVisitor`, which fills `tuple_assignments`. */
  class AssignVisitor {
    var bindings: Bindings

    constructor()
      ensures bindings == map[]
    {
      bindings := map[];
    }

    method Visit(n: Node)
      modifies this
      ensures bindings == AssignPass(old(bindings), n)
      decreases n
    {
      match n {
        case StrConst(_) =>
        case OtherConst =>
        case Name(_) =>
        case ListLit(elts) => VisitAll(elts);
        case TupleLit(elts) => VisitAll(elts);
        case BinOp(l, _, r) =>
          Visit(l);
          Visit(r);
        case Attribute(v, _) => Visit(v);
        case Call(f, args, kws) =>
          Visit(f);
          VisitAll(args);
          VisitAll(kws);
        case Assign(targets, value) => VisitAssign(targets, value);
        case Other(children) => VisitAll(children);
      }
    }

    /** `generic_visit` over a list field. */
    method VisitAll(ns: seq<Node>)
      modifies this
      ensures bindings == AssignPassAll(old(bindings), ns)
      decreases ns
    {
      var i := 0;
      while i < |ns|
        invariant i <= |ns|
        invariant AssignPassAll(bindings, ns[i..]) == AssignPassAll(old(bindings), ns)
      {
        assert ns[i..][1..] == ns[i + 1..];
        Visit(ns[i]);
        i := i + 1;
      }
    }

    method VisitAssign(targets: seq<Node>, value: Node)
      modifies this
      ensures bindings == BindTargets(old(bindings), targets, value)
    {
      var i := 0;
      while i < |targets|
        invariant i <= |targets|
        invariant BindTargets(bindings, targets[i..], value) == BindTargets(old(bindings), targets, value)
      {
        assert targets[i..][1..] == targets[i + 1..];
        if targets[i].Name? {
          var values := ExtractTupleList(value);
          if values.Some? {
            bindings := bindings[targets[i].id := values.value];
          }
        }
        i := i + 1;
      }
    }
  }

  /** Appending four parts one after the other appends their concatenation. */
  lemma ConcatAssoc<T>(s: seq<T>, a: seq<T>, b: seq<T>, c: seq<T>, d: seq<T>)
    ensures s + a + b + c + d == s + (a + b + c + d)
  {
  }

  /** `CallVisitor`, which collects `renamed_field_tuples` using the bindings of
      the first walk. */
  class CallVisitor {
    const assignments: Bindings
    var renamedFieldTuples: seq<RenamedField>

    constructor(assignments: Bindings)
      ensures this.assignments == assignments && renamedFieldTuples == []
    {
      this.assignments := assignments;
      renamedFieldTuples := [];
    }

    method Visit(n: Node)
      modifies this
      ensures renamedFieldTuples == old(renamedFieldTuples) + CallPass(assignments, n)
      decreases n
    {
      match n {
        case StrConst(_) =>
        case OtherConst =>
        case Name(_) =>
        case ListLit(elts) => VisitAll(elts);
        case TupleLit(elts) => VisitAll(elts);
        case BinOp(l, _, r) =>
          Visit(l);
          Visit(r);
        case Attribute(v, _) => Visit(v);
        case Call(f, args, kws) => VisitCall(f, args, kws);
        case Assign(targets, value) =>
          VisitAll(targets);
          Visit(value);
        case Other(children) => VisitAll(children);
      }
    }

    /** `visit_Call`: the call's own rows, then `generic_visit`. */
    method VisitCall(f: Node, args: seq<Node>, kws: seq<Node>)
      modifies this
      ensures renamedFieldTuples == old(renamedFieldTuples) + CallPass(assignments, Call(f, args, kws))
      decreases Call(f, args, kws), 0
    {
      ghost var start := renamedFieldTuples;
      var own := OwnRows(f, args);
      renamedFieldTuples := renamedFieldTuples + own;
      Visit(f);
      VisitAll(args);
      VisitAll(kws);
      ConcatAssoc(start, own, CallPass(assignments, f), CallPassAll(assignments, args), CallPassAll(assignments, kws));
    }

    /** The test and the resolution at the head of `visit_Call`. */
    method OwnRows(f: Node, args: seq<Node>) returns (rows: seq<RenamedField>)
      ensures rows == CallRows(assignments, f, args)
    {
      rows := [];
      if IsRenameFields(f) && |args| >= 2 {
        var tuples := Resolve(assignments, args[1]);
        if tuples.Some? && tuples.value != [] {
          rows := tuples.value;
        }
      }
    }

    method VisitAll(ns: seq<Node>)
      modifies this
      ensures renamedFieldTuples == old(renamedFieldTuples) + CallPassAll(assignments, ns)
      decreases ns
    {
      var i := 0;
      while i < |ns|
        invariant i <= |ns|
        invariant renamedFieldTuples + CallPassAll(assignments, ns[i..])
               == old(renamedFieldTuples) + CallPassAll(assignments, ns)
      {
        assert ns[i..][1..] == ns[i + 1..];
        Visit(ns[i]);
        i := i + 1;
      }
    }
  }

  /** Both walks, the first over the whole tree before the second starts. */
  method ParsePreMigration(tree: Option<Node>) returns (r: seq<RenamedField>)
    ensures r == Scan(tree)
  {
    if tree.None? {
      return [];
    }
    var av := new AssignVisitor();
    av.Visit(tree.value);
    var cv := new CallVisitor(av.bindings);
    cv.Visit(tree.value);
    r := cv.renamedFieldTuples;
  }

  /** A literal's rows are those of its parts, in order: splitting a literal
      splits its rows. */
  lemma {:induction false} RowsAppend(xs: seq<Node>, ys: seq<Node>)
    ensures Rows(xs + ys) == Rows(xs) + Rows(ys)
  {
    if xs != [] {
      assert (xs + ys)[1..] == xs[1..] + ys;
      RowsAppend(xs[1..], ys);
    } else {
      assert xs + ys == ys;
    }
  }

  /** A literal resolves to nothing exactly when none of its elements is a
      valid row. */
  lemma {:induction false} RowsEmpty(elts: seq<Node>)
    ensures Rows(elts) == [] <==> forall k :: 0 <= k < |elts| ==> RowOf(elts[k]).None?
  {
    if elts != [] {
      RowsEmpty(elts[1..]);
      if RowOf(elts[0]).None? {
        forall k | 0 < k < |elts|
          ensures elts[k] == elts[1..][k - 1]
        {
        }
      }
    }
  }

  /** Every row of a literal is the row of one of its elements. */
  lemma {:induction false} RowsOrigin(elts: seq<Node>, f: RenamedField)
    requires f in Rows(elts)
    ensures exists k :: 0 <= k < |elts| && RowOf(elts[k]) == Some(f)
  {
    if RowOf(elts[0]) != Some(f) {
      RowsOrigin(elts[1..], f);
      var k :| 0 <= k < |elts[1..]| && RowOf(elts[1..][k]) == Some(f);
      assert RowOf(elts[k + 1]) == Some(f);
    }
  }

  /** A four-element row `(model, table, old, new)` contributes
      `(model, old, new)`. */
  lemma FourElementRow(model: string, table: Node, oldField: string, newField: string)
    ensures RowOf(TupleLit([StrConst(model), table, StrConst(oldField), StrConst(newField)]))
         == Some(RenamedField(model, oldField, newField))
  {
  }

  /** An element that is not a list or tuple, has fewer than three elements,
      or holds something other than a string constant first, second to last
      or last, contributes nothing. */
  lemma RowNeedsThreeStrings(elt: Node)
    requires !IsSequenceLit(elt) || |elt.elts| < 3 || !elt.elts[0].StrConst?
             || !elt.elts[|elt.elts| - 2].StrConst? || !elt.elts[|elt.elts| - 1].StrConst?
    ensures RowOf(elt) == None
  {
  }

  /** A list or tuple of at least three elements whose first and last two are
      string constants gives the row of those three texts, whatever lies
      between them. */
  lemma RowOfThreeStrings(elt: Node)
    requires IsSequenceLit(elt) && |elt.elts| >= 3 && elt.elts[0].StrConst?
             && elt.elts[|elt.elts| - 2].StrConst? && elt.elts[|elt.elts| - 1].StrConst?
    ensures RowOf(elt).Some?
    ensures RowOf(elt).value.model == elt.elts[0].text
    ensures RowOf(elt).value.oldField == elt.elts[|elt.elts| - 2].text
    ensures RowOf(elt).value.newField == elt.elts[|elt.elts| - 1].text
  {
  }

  /** Whatever resolves, resolves to a non-empty list, provided the bindings do. */
  lemma ResolveNonEmpty(b: Bindings, e: Node)
    requires NonEmptyBindings(b)
    ensures Resolve(b, e).Some? ==> Resolve(b, e).value != []
  {
  }

  /** `a + b` resolves to the concatenation of both sides, an unresolved side
      counting as empty. */
  lemma ResolveAdd(b: Bindings, l: Node, r: Node)
    ensures OrEmpty(Resolve(b, BinOp(l, true, r))) == OrEmpty(Resolve(b, l)) + OrEmpty(Resolve(b, r))
  {
  }

  /** An assignment of a literal with rows to a plain name binds the name to
      them, replacing any earlier binding. */
  lemma AssignBinds(b: Bindings, x: string, value: Node)
    requires Extract(value).Some?
    ensures AssignPass(b, Assign([Name(x)], value)) == b[x := Rows(value.elts)]
  {
    var b' := b[x := Extract(value).value];
    assert BindTargets(b', [], value) == b';
    assert [Name(x)][1..] == [];
    assert BindTargets(b, [Name(x)], value) == BindTargets(b', [], value);
  }

  /** An assignment whose value has no row binds nothing. */
  lemma AssignWithoutRows(b: Bindings, targets: seq<Node>, value: Node)
    requires Extract(value).None?
    ensures AssignPass(b, Assign(targets, value)) == b
  {
    BindTargetsKeeps(b, targets, value);
  }

  lemma {:induction false} BindTargetsKeeps(b: Bindings, targets: seq<Node>, value: Node)
    requires Extract(value).None?
    ensures BindTargets(b, targets, value) == b
    decreases targets
  {
    if targets != [] {
      BindTargetsKeeps(b, targets[1..], value);
    }
  }

  lemma {:induction false} BindTargetsNonEmpty(b: Bindings, targets: seq<Node>, value: Node)
    requires NonEmptyBindings(b)
    ensures NonEmptyBindings(BindTargets(b, targets, value))
    decreases targets
  {
    if targets != [] {
      var b' := if targets[0].Name? && Extract(value).Some?
                then b[targets[0].id := Extract(value).value] else b;
      assert NonEmptyBindings(b');
      BindTargetsNonEmpty(b', targets[1..], value);
    }
  }

  /** The first walk binds names only to non-empty lists. */
  lemma {:induction false} AssignPassNonEmpty(b: Bindings, n: Node)
    requires NonEmptyBindings(b)
    ensures NonEmptyBindings(AssignPass(b, n))
    decreases n
  {
    match n
    case StrConst(_) =>
    case OtherConst =>
    case Name(_) =>
    case ListLit(elts) => AssignPassAllNonEmpty(b, elts);
    case TupleLit(elts) => AssignPassAllNonEmpty(b, elts);
    case BinOp(l, _, r) =>
      AssignPassNonEmpty(b, l);
      AssignPassNonEmpty(AssignPass(b, l), r);
    case Attribute(v, _) => AssignPassNonEmpty(b, v);
    case Call(f, args, kws) =>
      AssignPassNonEmpty(b, f);
      AssignPassAllNonEmpty(AssignPass(b, f), args);
      AssignPassAllNonEmpty(AssignPassAll(AssignPass(b, f), args), kws);
    case Assign(targets, value) => BindTargetsNonEmpty(b, targets, value);
    case Other(children) => AssignPassAllNonEmpty(b, children);
  }

  lemma {:induction false} AssignPassAllNonEmpty(b: Bindings, ns: seq<Node>)
    requires NonEmptyBindings(b)
    ensures NonEmptyBindings(AssignPassAll(b, ns))
    decreases ns
  {
    if ns != [] {
      AssignPassNonEmpty(b, ns[0]);
      AssignPassAllNonEmpty(AssignPass(b, ns[0]), ns[1..]);
    }
  }

  /** Walking two statement lists one after the other is walking their
      concatenation: later assignments see, and may overwrite, earlier ones. */
  lemma {:induction false} AssignPassAllAppend(b: Bindings, xs: seq<Node>, ys: seq<Node>)
    ensures AssignPassAll(b, xs + ys) == AssignPassAll(AssignPassAll(b, xs), ys)
    decreases xs
  {
    if xs != [] {
      assert (xs + ys)[1..] == xs[1..] + ys;
      AssignPassAllAppend(AssignPass(b, xs[0]), xs[1..], ys);
    } else {
      assert xs + ys == ys;
    }
  }

  /** The rows of consecutive statements are concatenated in order, with no
      deduplication. */
  lemma {:induction false} CallPassAllAppend(b: Bindings, xs: seq<Node>, ys: seq<Node>)
    ensures CallPassAll(b, xs + ys) == CallPassAll(b, xs) + CallPassAll(b, ys)
    decreases xs
  {
    if xs != [] {
      assert (xs + ys)[1..] == xs[1..] + ys;
      CallPassAllAppend(b, xs[1..], ys);
    } else {
      assert xs + ys == ys;
    }
  }

  /** The tree holds a recognised `openupgrade.rename_fields` call with at least
      two positional arguments. */
  predicate HasRenameCall(n: Node)
    decreases n
  {
    match n
    case StrConst(_) => false
    case OtherConst => false
    case Name(_) => false
    case ListLit(elts) => HasRenameCallIn(elts)
    case TupleLit(elts) => HasRenameCallIn(elts)
    case BinOp(l, _, r) => HasRenameCall(l) || HasRenameCall(r)
    case Attribute(v, _) => HasRenameCall(v)
    case Call(f, args, kws) =>
      (IsRenameFields(f) && |args| >= 2) || HasRenameCall(f) || HasRenameCallIn(args) || HasRenameCallIn(kws)
    case Assign(targets, value) => HasRenameCallIn(targets) || HasRenameCall(value)
    case Other(children) => HasRenameCallIn(children)
  }

  predicate HasRenameCallIn(ns: seq<Node>)
    decreases ns
  {
    ns != [] && (HasRenameCall(ns[0]) || HasRenameCallIn(ns[1..]))
  }

  /** Only recognised calls contribute rows: a tree without one yields none. */
  lemma {:induction false} OnlyRenameCallsEmit(b: Bindings, n: Node)
    requires !HasRenameCall(n)
    ensures CallPass(b, n) == []
    decreases n
  {
    match n
    case StrConst(_) =>
    case OtherConst =>
    case Name(_) =>
    case ListLit(elts) => OnlyRenameCallsEmitIn(b, elts);
    case TupleLit(elts) => OnlyRenameCallsEmitIn(b, elts);
    case BinOp(l, _, r) =>
      OnlyRenameCallsEmit(b, l);
      OnlyRenameCallsEmit(b, r);
    case Attribute(v, _) => OnlyRenameCallsEmit(b, v);
    case Call(f, args, kws) =>
      OnlyRenameCallsEmit(b, f);
      OnlyRenameCallsEmitIn(b, args);
      OnlyRenameCallsEmitIn(b, kws);
    case Assign(targets, value) =>
      OnlyRenameCallsEmitIn(b, targets);
      OnlyRenameCallsEmit(b, value);
    case Other(children) => OnlyRenameCallsEmitIn(b, children);
  }

  lemma {:induction false} OnlyRenameCallsEmitIn(b: Bindings, ns: seq<Node>)
    requires !HasRenameCallIn(ns)
    ensures CallPassAll(b, ns) == []
    decreases ns
  {
    if ns != [] {
      OnlyRenameCallsEmit(b, ns[0]);
      OnlyRenameCallsEmitIn(b, ns[1..]);
    }
  }

  /** An unreadable or unparsable script yields no rows. */
  lemma UnparsableScript()
    ensures Scan(None) == []
  {
  }

  /** `openupgrade.rename_fields(env, <name>)` as a statement. */
  function RenameCallStmt(name: string): Node
  {
    Other([Call(Attribute(Name("openupgrade"), "rename_fields"), [Name("env"), Name(name)], [])])
  }

  /** `<name> = [(model, old, new)]`. */
  function RowsAssignStmt(name: string, f: RenamedField): Node
  {
    Assign([Name(name)], ListLit([TupleLit([StrConst(f.model), StrConst(f.oldField), StrConst(f.newField)])]))
  }

  lemma RowsAssignBinds(name: string, f: RenamedField)
    ensures AssignPass(map[], RowsAssignStmt(name, f)) == map[name := [f]]
  {
    var lit := ListLit([TupleLit([StrConst(f.model), StrConst(f.oldField), StrConst(f.newField)])]);
    assert Rows(lit.elts) == [f] by {
      assert lit.elts[1..] == [];
    }
    AssignBinds(map[], name, lit);
  }

  lemma {:induction false} LeavesHaveNoCall(ns: seq<Node>)
    requires forall k :: 0 <= k < |ns| ==> ns[k].StrConst? || ns[k].Name?
    ensures !HasRenameCallIn(ns)
    decreases ns
  {
    if ns != [] {
      LeavesHaveNoCall(ns[1..]);
    }
  }

  lemma {:induction false} LeavesBindNothing(b: Bindings, ns: seq<Node>)
    requires forall k :: 0 <= k < |ns| ==> ns[k].StrConst? || ns[k].Name?
    ensures AssignPassAll(b, ns) == b
    decreases ns
  {
    if ns != [] {
      LeavesBindNothing(b, ns[1..]);
    }
  }

  lemma RowsAssignHasNoCall(name: string, f: RenamedField)
    ensures !HasRenameCall(RowsAssignStmt(name, f))
  {
    var tup := TupleLit([StrConst(f.model), StrConst(f.oldField), StrConst(f.newField)]);
    LeavesHaveNoCall(tup.elts);
    LeavesHaveNoCall([Name(name)]);
    assert [tup][1..] == [];
    assert !HasRenameCallIn([tup]);
  }

  lemma RenameCallBindsNothing(b: Bindings, name: string)
    ensures AssignPass(b, RenameCallStmt(name)) == b
  {
    var args := [Name("env"), Name(name)];
    var call := Call(Attribute(Name("openupgrade"), "rename_fields"), args, []);
    LeavesBindNothing(b, args);
    assert AssignPass(b, call) == b;
    assert [call][1..] == [];
    calc {
      AssignPass(b, RenameCallStmt(name));
      AssignPassAll(b, [call]);
      AssignPassAll(AssignPass(b, call), []);
      b;
    }
  }

  lemma RenameCallRows(b: Bindings, name: string)
    requires name in b
    ensures CallPass(b, RenameCallStmt(name)) == b[name]
  {
    var call := Call(Attribute(Name("openupgrade"), "rename_fields"), [Name("env"), Name(name)], []);
    assert CallRows(b, call.func, call.args) == b[name];
    assert CallPassAll(b, call.args) == [] by {
      LeavesHaveNoCall(call.args);
      OnlyRenameCallsEmitIn(b, call.args);
    }
    assert CallPass(b, call) == b[name];
    assert [call][1..] == [];
  }

  /** The first walk covers the whole script before the second starts, so a
      call that comes before the assignment it names still resolves it. */
  lemma CallBeforeAssignment(name: string, f: RenamedField)
    ensures Scan(Some(Other([RenameCallStmt(name), RowsAssignStmt(name, f)]))) == [f]
  {
    var call := RenameCallStmt(name);
    var assign := RowsAssignStmt(name, f);
    var stmts := [call, assign];
    RenameCallBindsNothing(map[], name);
    RowsAssignBinds(name, f);
    var b := map[name := [f]];
    assert stmts[1..] == [assign] && [assign][1..] == [];
    calc {
      AssignPassAll(map[], stmts);
      AssignPassAll(AssignPass(map[], call), [assign]);
      AssignPassAll(AssignPass(map[], assign), []);
      b;
    }
    RenameCallRows(b, name);
    assert CallPass(b, assign) == [] by {
      RowsAssignHasNoCall(name, f);
      OnlyRenameCallsEmit(b, assign);
    }
    calc {
      CallPassAll(b, stmts);
      CallPass(b, call) + CallPassAll(b, [assign]);
      [f] + (CallPass(b, assign) + CallPassAll(b, []));
      [f];
    }
  }
}
