// The rewrites of the expression tree after parsing, and that they preserve meaning.
module XPathOptimizer {

  import opened Documents
  import opened XPath
  import opened XPathModes

  // ---------------------------------------------------------------- the rewrites

  /** `[position() = e]` becomes `[e]` for a number `e`. */
  function Unpositioned(e: Expr): Expr {
    if e.Compare? && e.op.Eq? && e.left.Position? && TypeOf(e.right).NumberType? then e.right else e
  }

  function Classify(e: Expr): PredicateTest {
    if e == Num(Fin(1.0)) then ConstantOne
    else if TypeOf(e).NumberType? then (if e.Num? || e.Variable? || e.Last? then Constant else Default)
    else if PosInvExpr(e) then PosInv
    else Default
  }

  /** `is_posinv_step`. */
  predicate PosInvPredicates(preds: Predicates) {
    preds.Pred? ==> preds.test.PosInv? && PosInvPredicates(preds.next)
  }

  /** `descendant-or-self::node()` followed by a step that can be merged with it. */
  predicate Merges(e: Expr) {
    && e.Step?
    && (e.axis.Child? || e.axis.Self? || e.axis.Descendant? || e.axis.DescendantOrSelf?)
    && e.start.From? && e.start.left.Step?
    && e.start.left.axis.DescendantOrSelf? && e.start.left.nodeTest.TestTypeNode? && e.start.left.preds.NoMore?
    && PosInvPredicates(e.preds)
  }

  function MergedAxis(a: Axis): Axis { if a.Child? || a.Descendant? then Descendant else DescendantOrSelf }

  predicate Ascii(c: char) { c as int < 128 }

  /** `translate_table_generate` gives up on characters outside ASCII, but looks no further into `to` than
      `from` is long. */
  predicate HasTable(from: string, to: string) {
    forall k | 0 <= k < |from| :: Ascii(from[k]) && (k < |to| ==> Ascii(to[k]))
  }

  function Code(from: string, to: string, c: nat): nat
    requires c < 128
  {
    var p := Find(from, c as char);
    if p >= |from| then c else if p < |to| then to[p] as nat else 128
  }

  function TableFor(from: string, to: string): seq<nat> { seq(128, c requires 0 <= c < 128 => Code(from, to, c)) }

  predicate IsAttributeTest(e: Expr) {
    && e.Compare? && e.op.Eq?
    && e.left.Step? && e.left.start.FromContext? && e.left.axis.AttributeAxis? && e.left.nodeTest.TestName? && e.left.preds.NoMore?
    && (e.right.Text? || (e.right.Variable? && e.right.ty.StringType?))
  }

  /** `optimize_self`. */
  function OptimizeSelf(e: Expr): Expr {
    match e
    case Filter(l, _, r) => Filter(l, Classify(Unpositioned(r)), Unpositioned(r))
    case Step(start, a, t, preds) => if Merges(e) then Step(start.left.start, MergedAxis(a), t, preds) else e
    case Translate(l, from, to) =>
      if from.Text? && to.Text? && HasTable(from.s, to.s) then TranslateTable(l, TableFor(from.s, to.s)) else e
    case Compare(op, l, r) => if IsAttributeTest(e) then CompareAttribute(l.nodeTest.name, r) else e
    case _ => e
  }

  /** `optimize`: the operands first. */
  function Optimize(e: Expr): Expr {
    match e
    case Or(l, r) => Or(Optimize(l), Optimize(r))
    case And(l, r) => And(Optimize(l), Optimize(r))
    case Compare(op, l, r) => OptimizeSelf(Compare(op, Optimize(l), Optimize(r)))
    case Union(l, r) => Union(Optimize(l), Optimize(r))
    case Filter(l, test, r) => OptimizeSelf(Filter(Optimize(l), test, Optimize(r)))
    case Step(start, a, t, preds) =>
      OptimizeSelf(Step(if start.From? then From(Optimize(start.left)) else FromContext, a, t, OptimizePredicates(preds)))
    case Id(l) => Id(Optimize(l))
    case Count(l) => Count(Optimize(l))
    case Call(f, args) => Call(f, OptimizeArguments(args))
    case Translate(l, from, to) => OptimizeSelf(Translate(Optimize(l), Optimize(from), Optimize(to)))
    case TranslateTable(l, table) => TranslateTable(Optimize(l), table)
    case _ => e
  }

  function OptimizePredicates(preds: Predicates): Predicates {
    match preds
    case NoMore => NoMore
    case Pred(_, e, next) => Pred(Classify(Unpositioned(Optimize(e))), Unpositioned(Optimize(e)), OptimizePredicates(next))
  }

  function OptimizeArguments(args: Arguments): Arguments {
    match args
    case End => End
    case Arg(e, next) => Arg(Optimize(e), OptimizeArguments(next))
  }

  // ---------------------------------------------------------------- the result is well formed

  lemma {:induction false} ClassifyIsHonest(e: Expr)
    ensures Honest(Classify(e), e)
  {
  }

  lemma {:induction false} OptimizeType(e: Expr)
    ensures TypeOf(Optimize(e)) == TypeOf(e)
  {
  }

  lemma {:induction false} OptimizeFormed(e: Expr)
    requires Formed(e)
    ensures Formed(Optimize(e))
    decreases e
  {
    match e
    case Or(l, r) => OptimizeFormed(l); OptimizeFormed(r);
    case And(l, r) => OptimizeFormed(l); OptimizeFormed(r);
    case Compare(_, l, r) => OptimizeFormed(l); OptimizeFormed(r);
    case Union(l, r) => OptimizeFormed(l); OptimizeFormed(r); OptimizeType(l); OptimizeType(r);
    case Filter(l, _, r) =>
      OptimizeFormed(l); OptimizeFormed(r); OptimizeType(l);
      ClassifyIsHonest(Unpositioned(Optimize(r)));
    case Step(start, _, _, preds) =>
      if start.From? { OptimizeFormed(start.left); OptimizeType(start.left); }
      OptimizePredicatesFormed(preds);
    case Id(l) => OptimizeFormed(l);
    case Count(l) => OptimizeFormed(l); OptimizeType(l);
    case Call(f, args) => OptimizeArgumentsFormed(f, args, 0);
    case Translate(l, from, to) => OptimizeFormed(l); OptimizeFormed(from); OptimizeFormed(to);
    case TranslateTable(l, _) => OptimizeFormed(l);
    case _ =>
  }

  lemma {:induction false} OptimizePredicatesFormed(preds: Predicates)
    requires FormedPredicates(preds)
    ensures FormedPredicates(OptimizePredicates(preds))
    decreases preds
  {
    if preds.Pred? {
      OptimizeFormed(preds.right);
      ClassifyIsHonest(Unpositioned(Optimize(preds.right)));
      OptimizePredicatesFormed(preds.next);
    }
  }

  lemma {:induction false} OptimizeArgumentsFormed(f: Function, args: Arguments, k: nat)
    requires FormedArguments(f, args, k)
    ensures FormedArguments(f, OptimizeArguments(args), k)
    decreases args
  {
    if args.Arg? {
      OptimizeFormed(args.e);
      OptimizeType(args.e);
      OptimizeArgumentsFormed(f, args.next, k + 1);
    }
  }

  // ---------------------------------------------------------------- translate

  /** The table does for every string what translating character by character does. */
  lemma {:induction false} TableTranslates(s: string, from: string, to: string)
    requires HasTable(from, to)
    ensures ByTable(s, TableFor(from, to)) == TranslateText(s, from, to)
  {
    if s != "" {
      TableTranslates(s[1..], from, to);
      var p := Find(from, s[0]);
      if p < |from| { assert Ascii(from[p]); }
      if Ascii(s[0]) { assert TableFor(from, to)[s[0] as int] == Code(from, to, s[0] as int); }
    }
  }

  lemma {:induction false} FindIsFirst(s: string, k: nat)
    requires k < |s|
    ensures Find(s, s[k]) <= k
  {
    if s[0] != s[k] { FindIsFirst(s[1..], k - 1); }
  }

  predicate NulFree(s: string) { '\0' !in s }

  /** `translate_table_generate`: fills the table from the pairs, the first pair of a character winning, and
      then the gaps. */
  method TranslateTableGenerate(from: string, to: string) returns (ok: bool, table: seq<nat>)
    requires NulFree(from) && NulFree(to)
    ensures ok == HasTable(from, to)
    ensures ok ==> table == TableFor(from, to)
  {
    var t := new nat[128](_ => 0);
    var i, j := 0, 0;
    while i < |from|
      invariant 0 <= i <= |from| && j == if i < |to| then i else |to|
      invariant forall k | 0 <= k < i :: Ascii(from[k]) && (k < |to| ==> Ascii(to[k]))
      invariant forall c: nat | c < 128 :: t[c] == if Find(from, c as char) < i then Code(from, to, c) else 0
    {
      var fc := from[i] as int;
      var tc := if j < |to| then to[j] as int else 0;
      if fc >= 128 || tc >= 128 {
        assert !(Ascii(from[i]) && (i < |to| ==> Ascii(to[i])));
        return false, [];
      }
      FindIsFirst(from, i);
      if t[fc] == 0 {
        FoundCode(from, to, fc);
        t[fc] := if tc != 0 then tc else 128;
      }
      i := i + 1;
      if tc != 0 { j := j + 1; }
    }
    forall c: nat | c < 128 ensures Find(from, c as char) < |from| ==> Code(from, to, c) != 0 {
      if Find(from, c as char) < |from| { FoundCode(from, to, c); }
    }
    i := 0;
    while i < 128
      invariant 0 <= i <= 128
      invariant forall c: nat | c < i :: t[c] == Code(from, to, c)
      invariant forall c: nat | i <= c < 128 :: t[c] == if Find(from, c as char) < |from| then Code(from, to, c) else 0
    {
      if t[i] == 0 { t[i] := i; }
      i := i + 1;
    }
    ok, table := true, t[..];
  }

  /** No code in use is zero, which marks the gaps. */
  lemma FoundCode(from: string, to: string, c: nat)
    requires c < 128 && NulFree(to) && Find(from, c as char) < |from|
    ensures Code(from, to, c) != 0
  {
    var p := Find(from, c as char);
    if p < |to| { assert to[p] in to; }
  }

  // ---------------------------------------------------------------- attribute tests

  lemma {:induction false} FirstAttribute(d: Doc, x: int, name: string, k: nat)
    requires Valid(d) && d.Has(x) && k <= |d.attributes[x]|
    ensures var f := FindAttribute(d, x, name, k);
            && (f == NONE || (k <= f < |d.attributes[x]| && d.attributes[x][f].name == name))
            && forall j | k <= j < (if f == NONE then |d.attributes[x]| else f) :: d.attributes[x][j].name != name
    decreases |d.attributes[x]| - k
  {
    hide Linked;
    if k < |d.attributes[x]| && d.attributes[x][k].name != name { FirstAttribute(d, x, name, k + 1); }
  }

  /** A name test on the attribute axis selects the attribute that a lookup by name finds. */
  lemma AttributeStep(d: Doc, name: string, i: Item)
    requires Valid(d) && Somewhere(d, i)
    ensures var s := StepItems(d, AttributeAxis, TestName(name), i);
            if HasItem(d, i) && i.attr == NONE && IsXPathAttribute(name) && FindAttribute(d, i.node, name, 0) != NONE
            then s == [Item(i.node, FindAttribute(d, i.node, name, 0))] else s == []
  {
    hide Linked, Passes;
    if HasItem(d, i) {
      AxisInOrder(d, AttributeAxis, i, TestName(name));
      var s := AxisItems(d, AttributeAxis, i, TestName(name));
      if s != [] { TailInOrder(s); }
      if i.attr == NONE {
        FirstAttribute(d, i.node, name, 0);
        var f := FindAttribute(d, i.node, name, 0);
        if f != NONE && IsXPathAttribute(name) {
          assert Selected(d, AttributeAxis, i, TestName(name), Item(i.node, f));
          assert Item(i.node, f) in s;
          assert s[0] in s && Selected(d, AttributeAxis, i, TestName(name), s[0]);
        }
      }
    }
  }

  /** `@name = 'value'` holds exactly when the attribute of that name has the value. */
  lemma AttributeTest(env: Env, e: Expr, c: Context)
    requires Good(env) && IsAttributeTest(e) && Somewhere(env.d, c.item)
    ensures Native(env, Full, e, c) == Native(env, Full, CompareAttribute(e.left.nodeTest.name, e.right), c)
  {
    hide Linked, StepItems, Listing, Fits;
    var name, i := e.left.nodeTest.name, c.item;
    AttributeStep(env.d, name, i);
    var s := StepItems(env.d, AttributeAxis, TestName(name), i);
    var ns := Nodes(env, Full, e.left, c, All).nodes;
    assert ns == s by {
      SingleStep(env, e.left, c, s);
    }
    StringsOf(env, ns, ns);
    if HasItem(env.d, i) { FirstAttribute(env.d, i.node, name, 0); }
    ValueOperand(env, e.right, c);
    OneString(env, s);
  }

  lemma OneString(env: Env, s: seq<Item>)
    ensures |s| == 1 ==> (set k | 0 <= k < |s| :: env.stringValue(s[k])) == {env.stringValue(s[0])}
    ensures s == [] ==> (set k | 0 <= k < |s| :: env.stringValue(s[k])) == {}
  {
    if |s| == 1 {
      assert env.stringValue(s[0]) in (set k | 0 <= k < |s| :: env.stringValue(s[k]));
    }
  }

  lemma ValueOperand(env: Env, e: Expr, c: Context)
    requires Valid(env.d) && (e.Text? || (e.Variable? && e.ty.StringType?))
    ensures Native(env, Full, e, c) == S(AsText(env, Full, e, c))
    ensures forall m: Mode :: AsOperand(env, Full, e, c, m) == Value(S(AsText(env, Full, e, c)))
  {
  }

  /** A step from the context node alone, without predicates. */
  lemma SingleStep(env: Env, e: Expr, c: Context, s: seq<Item>)
    requires Valid(env.d) && e.Step? && e.start.FromContext? && e.preds.NoMore? && Somewhere(env.d, c.item)
    requires s == StepItems(env.d, e.axis, e.nodeTest, c.item) && !IsReverse(e.axis)
    ensures Nodes(env, Full, e, c, All).nodes == s
  {
    hide Linked, StepItems, Listing;
    StepItemsFacts(env.d, e.axis, e.nodeTest, c.item);
    assert StepSet(env, Full, e, [c.item], 1) == Items(s);
    OrderedIsListing(env.d, s);
  }

  // ---------------------------------------------------------------- merging steps

  /** The node through which a merged step reaches `y` from `x`. */
  function Between(d: Doc, a: Axis, x: Item, y: Item): Item
    requires Valid(d) && HasItem(d, y)
  {
    match a
    case Child => Item(d.parent[y.node], NONE)
    case Descendant => x
    case _ => y
  }

  lemma MergeForward(d: Doc, a: Axis, t: NodeTest, x: Item, z: Item, y: Item)
    requires Valid(d) && HasItem(d, x) && HasItem(d, z)
    requires a.Child? || a.Self? || a.Descendant? || a.DescendantOrSelf?
    requires Selected(d, DescendantOrSelf, x, TestTypeNode, z) && Selected(d, a, z, t, y)
    ensures Selected(d, MergedAxis(a), x, t, y)
  {
    hide Linked, Passes, PassesAttribute, IsAncestor;
    SelectedIsThere(d, a, z, t, y);
    AncestorOfAncestor(d, x.node, z.node, y.node);
  }

  /** Ancestors of ancestors are ancestors, and a parent is an ancestor. */
  lemma AncestorOfAncestor(d: Doc, x: int, z: int, y: int)
    requires Valid(d) && d.Has(x) && d.Has(z) && d.Has(y)
    ensures d.parent[y] == z ==> IsAncestor(d, z, y)
    ensures (x == z || IsAncestor(d, x, z)) && (IsAncestor(d, z, y) || d.parent[y] == z) ==> IsAncestor(d, x, y)
    ensures (x == z || IsAncestor(d, x, z)) && z == y ==> x == y || IsAncestor(d, x, y)
  {
    hide Linked, IsAncestor;
    AncestorIsInterval(d, x, z);
    AncestorIsInterval(d, x, y);
    AncestorIsInterval(d, z, y);
    NodeFacts(d, z);
    NodeFacts(d, x);
    NodeFacts(d, y);
  }

  lemma MergeBack(d: Doc, a: Axis, t: NodeTest, x: Item, y: Item)
    requires Valid(d) && HasItem(d, x) && HasItem(d, y)
    requires a.Child? || a.Self? || a.Descendant? || a.DescendantOrSelf?
    requires Selected(d, MergedAxis(a), x, t, y)
    ensures var z := Between(d, a, x, y);
            HasItem(d, z) && Selected(d, DescendantOrSelf, x, TestTypeNode, z) && Selected(d, a, z, t, y)
  {
    hide Linked, Passes, PassesAttribute;
    AncestorIsInterval(d, x.node, y.node);
    NodeFacts(d, x.node);
    NodeFacts(d, y.node);
    if a.Child? {
      ParentInside(d, x.node, y.node);
      AncestorIsInterval(d, x.node, d.parent[y.node]);
    }
    TypeNodePasses(d, if a.Child? then d.parent[y.node] else x.node);
    TypeNodePasses(d, y.node);
  }

  lemma TypeNodePasses(d: Doc, x: int)
    requires Valid(d) && d.Has(x)
    ensures Passes(d, TestTypeNode, x)
  {
  }

  /** A list of position-independent predicates is one condition on a node. */
  predicate AllHold(env: Env, preds: Predicates, y: Item)
    requires Valid(env.d)
  {
    preds.Pred? ==> AsBool(env, Full, preds.right, Context(y, 1, 1)) && AllHold(env, preds.next, y)
  }

  lemma {:induction false} PosInvSegment(env: Env, preds: Predicates, s: seq<Item>)
    requires Valid(env.d) && PosInvPredicates(preds) && FormedPredicates(preds)
    ensures forall y {:trigger y in ApplyPredicates(env, Full, preds, s, false)} ::
              y in ApplyPredicates(env, Full, preds, s, false) <==> y in s && AllHold(env, preds, y)
    decreases preds
  {
    hide AsBool, Keep, PosInvExpr, Linked;
    if preds.Pred? {
      FullPredicate(env, preds.test, preds.right, s);
      KeepMembers(env, preds.right, s, 0);
      assert s[0..] == s;
      PosInvSegment(env, preds.next, Keep(env, Full, preds.right, s, 0, false));
    }
  }

  /** What a position-independent step selects from `x`. */
  lemma StepSelects(env: Env, step: Expr, x: Item)
    requires Valid(env.d) && step.Step? && Somewhere(env.d, x) && !step.axis.AttributeAxis?
    requires PosInvPredicates(step.preds) && FormedPredicates(step.preds)
    ensures forall y {:trigger y in Segment(env, step, x)} ::
              y in Segment(env, step, x) <==>
              HasItem(env.d, x) && Selected(env.d, step.axis, x, step.nodeTest, y) && AllHold(env, step.preds, y)
  {
    hide Linked, Selected, AllHold, AxisItems, ApplyPredicates;
    if HasItem(env.d, x) { AxisInOrder(env.d, step.axis, x, step.nodeTest); }
    PosInvSegment(env, step.preds, StepItems(env.d, step.axis, step.nodeTest, x));
  }

  lemma SelectedIsThere(d: Doc, a: Axis, x: Item, t: NodeTest, y: Item)
    requires Valid(d) && HasItem(d, x) && Selected(d, a, x, t, y)
    ensures HasItem(d, y)
  {
  }

  /** Two steps merged select the same nodes as one after the other. */
  lemma MergedStep(env: Env, e: Expr, x: Item, y: Item)
    requires Valid(env.d) && Merges(e) && FormedPredicates(e.preds) && Somewhere(env.d, x)
    ensures y in Segment(env, OptimizeSelf(e), x) <==>
            exists z :: z in Segment(env, e.start.left, x) && Somewhere(env.d, z) && y in Segment(env, e, z)
  {
    hide Linked, Selected, AllHold, Segment, StepItems, PosInvPredicates, FormedPredicates;
    var inner, merged := e.start.left, OptimizeSelf(e);
    NoPredicates();
    StepSelects(env, inner, x);
    StepSelects(env, merged, x);
    forall z | Somewhere(env.d, z)
      ensures z in Segment(env, inner, x) && y in Segment(env, e, z) ==> y in Segment(env, merged, x)
    {
      StepSelects(env, e, z);
      if z in Segment(env, inner, x) && y in Segment(env, e, z) {
        MergeForward(env.d, e.axis, e.nodeTest, x, z, y);
      }
    }
    if y in Segment(env, merged, x) {
      SelectedIsThere(env.d, merged.axis, x, e.nodeTest, y);
      MergeBack(env.d, e.axis, e.nodeTest, x, y);
      var z := Between(env.d, e.axis, x, y);
      StepSelects(env, e, z);
      NothingHolds(env, z);
      assert z in Segment(env, inner, x) && Somewhere(env.d, z) && y in Segment(env, e, z);
    }
  }

  lemma NoPredicates()
    ensures PosInvPredicates(NoMore) && FormedPredicates(NoMore)
  {
  }

  lemma NothingHolds(env: Env, z: Item)
    requires Valid(env.d)
    ensures AllHold(env, NoMore, z)
  {
  }

  /** `a/descendant-or-self::node()/child::b` means `a/descendant::b`, and so on for the other three axes. */
  lemma MergePreserves(env: Env, e: Expr, c: Context)
    requires Good(env) && Merges(e) && Formed(e) && Somewhere(env.d, c.item)
    ensures Nodes(env, Full, OptimizeSelf(e), c, All) == Nodes(env, Full, e, c, All)
  {
    hide Linked, GoodLibrary, Selected, Segment, StepSet, Listing, PosInvPredicates, FormedPredicates;
    var inner, merged := e.start.left, OptimizeSelf(e);
    var s := if inner.start.From? then Nodes(env, Full, inner.start.left, c, All).nodes else [c.item];
    if inner.start.From? { AgreeNodes(env, inner.start.left, c, All); }
    assert forall k | 0 <= k < |s| :: s[k] in Items(s);
    AgreeNodes(env, inner, c, All);
    var mid := Nodes(env, Full, inner, c, All).nodes;
    StepSetMembers(env, inner, s, |s|);
    StepSetMembers(env, e, mid, |mid|);
    StepSetMembers(env, merged, s, |s|);
    InnerSet(env, inner, s, mid);
    MergedSets(env, e, s, mid);
  }

  lemma InnerSet(env: Env, inner: Expr, s: seq<Item>, mid: seq<Item>)
    requires Good(env) && inner.Step? && forall k | 0 <= k < |s| :: Somewhere(env.d, s[k])
    requires mid == Listing(env.d, StepSet(env, Full, inner, s, |s|))
    ensures Items(mid) == StepSet(env, Full, inner, s, |s|)
    ensures forall k | 0 <= k < |mid| :: Somewhere(env.d, mid[k])
  {
    hide Linked, GoodLibrary, Segment, StepSet, Listing;
    StepSetMembers(env, inner, s, |s|);
    forall y | y in StepSet(env, Full, inner, s, |s|) ensures HasItem(env.d, y) {
      var k :| 0 <= k < |s| && y in Segment(env, inner, s[k]);
      SegmentFacts(env, inner, s[k]);
      var a := Segment(env, inner, s[k]);
      var j :| 0 <= j < |a| && a[j] == y;
    }
    ListingIsSet(env.d, StepSet(env, Full, inner, s, |s|));
  }

  /** Both ways of taking the two steps reach the same nodes. */
  lemma MergedSets(env: Env, e: Expr, s: seq<Item>, mid: seq<Item>)
    requires Good(env) && Merges(e) && FormedPredicates(e.preds)
    requires forall k | 0 <= k < |s| :: Somewhere(env.d, s[k])
    requires forall k | 0 <= k < |mid| :: Somewhere(env.d, mid[k])
    requires Items(mid) == StepSet(env, Full, e.start.left, s, |s|)
    ensures StepSet(env, Full, OptimizeSelf(e), s, |s|) == StepSet(env, Full, e, mid, |mid|)
  {
    hide Linked, GoodLibrary, Segment, StepSet, Merges, FormedPredicates, Somewhere, OptimizeSelf;
    MergedIsStep(e);
    var inner, merged := e.start.left, OptimizeSelf(e);
    StepSetMembers(env, inner, s, |s|);
    StepSetMembers(env, e, mid, |mid|);
    StepSetMembers(env, merged, s, |s|);
    forall y ensures y in StepSet(env, Full, merged, s, |s|) <==> y in StepSet(env, Full, e, mid, |mid|) {
      if k :| 0 <= k < |s| && y in Segment(env, merged, s[k]) {
        MergedStep(env, e, s[k], y);
        var z :| z in Segment(env, inner, s[k]) && Somewhere(env.d, z) && y in Segment(env, e, z);
        assert z in Items(mid);
        var j :| 0 <= j < |mid| && mid[j] == z;
      }
      if j :| 0 <= j < |mid| && y in Segment(env, e, mid[j]) {
        assert mid[j] in Items(mid);
        var k :| 0 <= k < |s| && mid[j] in Segment(env, inner, s[k]);
        MergedStep(env, e, s[k], y);
      }
    }
  }

  lemma MergedIsStep(e: Expr)
    requires Merges(e)
    ensures OptimizeSelf(e).Step? && e.Step? && e.start.From? && e.start.left.Step?
  {
  }

  // ---------------------------------------------------------------- meaning is preserved

  /** Two expressions of one type mean the same in context `c`. */
  predicate Same(env: Env, e: Expr, f: Expr, c: Context)
    requires Valid(env.d)
  {
    && TypeOf(e) == TypeOf(f)
    && (if TypeOf(e).NodeSetType? then Nodes(env, Full, e, c, All) == Nodes(env, Full, f, c, All)
        else Native(env, Full, e, c) == Native(env, Full, f, c))
  }

  lemma SameValues(env: Env, e: Expr, f: Expr, c: Context)
    requires Valid(env.d) && Same(env, e, f, c)
    ensures AsBool(env, Full, e, c) == AsBool(env, Full, f, c)
    ensures AsText(env, Full, e, c) == AsText(env, Full, f, c)
    ensures AsNum(env, Full, e, c) == AsNum(env, Full, f, c)
    ensures Holds(env, Full, e, c) == Holds(env, Full, f, c)
    ensures forall m: Mode {:trigger AsOperand(env, Full, e, c, m)} :: AsOperand(env, Full, e, c, m) == AsOperand(env, Full, f, c, m)
    ensures forall m: Mode {:trigger Nodes(env, Full, e, c, m)} ::
              TypeOf(e).NodeSetType? ==> Nodes(env, Full, e, c, m) == Nodes(env, Full, f, c, m)
  {
    hide Nodes, Native, Valid, AsOperand;
    forall m: Mode | TypeOf(e).NodeSetType?
      ensures Nodes(env, Full, e, c, m) == Nodes(env, Full, f, c, m)
    {
      SameNodes(env, e, f, c, m);
    }
    assert TypeOf(e).NodeSetType? ==>
      Nodes(env, Full, e, c, Any) == Nodes(env, Full, f, c, Any) && Nodes(env, Full, e, c, First) == Nodes(env, Full, f, c, First);
    forall m: Mode ensures AsOperand(env, Full, e, c, m) == AsOperand(env, Full, f, c, m) {
      SameOperand(env, e, f, c, m);
    }
  }

  lemma SameNodes(env: Env, e: Expr, f: Expr, c: Context, m: Mode)
    requires Valid(env.d) && Same(env, e, f, c) && TypeOf(e).NodeSetType?
    ensures Nodes(env, Full, e, c, m) == Nodes(env, Full, f, c, m)
  {
    hide Nodes, Native, Valid;
    FullIgnoresMode(env, e, c, m);
    FullIgnoresMode(env, f, c, m);
  }

  lemma SameOperand(env: Env, e: Expr, f: Expr, c: Context, m: Mode)
    requires Valid(env.d) && Same(env, e, f, c)
    ensures AsOperand(env, Full, e, c, m) == AsOperand(env, Full, f, c, m)
  {
    hide Nodes, Native, Valid;
    if TypeOf(e).NodeSetType? { SameNodes(env, e, f, c, m); }
  }

  /** `[position() = e]` and `[e]` hold in the same contexts. */
  lemma UnpositionedHolds(env: Env, e: Expr, c: Context)
    requires Good(env)
    ensures Holds(env, Full, Unpositioned(e), c) == Holds(env, Full, e, c)
  {
    hide Nodes, Linked;
    if Unpositioned(e) != e {
      NativeFits(env, Full, e.right, c);
      var o, p := AsOperand(env, Full, e.left, c, OperandMode(Eq, e.right)), AsOperand(env, Full, e.right, c, OperandMode(Eq, e.left));
      assert o == Value(N(Fin(c.position as real)));
      assert p == Value(Native(env, Full, e.right, c));
      assert Native(env, Full, e, c) == B(Equals(env, Eq, o, p));
      assert Equals(env, Eq, o, p) == NumberEq(Fin(c.position as real), AsNum(env, Full, e.right, c));
    }
  }

  /** Predicates that hold in the same contexts keep the same nodes. */
  lemma {:induction false} OptimizeKeep(env: Env, e: Expr, s: seq<Item>, k: nat)
    requires Good(env) && Formed(e) && AllThere(env.d, s) && k <= |s|
    ensures Keep(env, Full, Unpositioned(Optimize(e)), s, k, false) == Keep(env, Full, e, s, k, false)
    decreases e, 4, |s| - k
  {
    hide Holds, GoodLibrary, Linked, Unpositioned, Optimize;
    if k < |s| {
      var c := Context(s[k], k + 1, |s|);
      OptimizePreserves(env, e, c);
      SameValues(env, Optimize(e), e, c);
      UnpositionedHolds(env, Optimize(e), c);
      OptimizeKeep(env, e, s, k + 1);
    }
  }

  lemma {:induction false} OptimizePredicatesPreserve(env: Env, preds: Predicates, s: seq<Item>)
    requires Good(env) && FormedPredicates(preds) && AllThere(env.d, s)
    ensures ApplyPredicates(env, Full, OptimizePredicates(preds), s, false) == ApplyPredicates(env, Full, preds, s, false)
    decreases preds, 1
  {
    hide Keep, GoodLibrary, Linked, Unpositioned, Optimize, Classify;
    if preds.Pred? {
      var e := preds.right;
      OptimizeKeep(env, e, s, 0);
      FullPredicate(env, preds.test, e, s);
      FullPredicate(env, Classify(Unpositioned(Optimize(e))), Unpositioned(Optimize(e)), s);
      var t := Keep(env, Full, e, s, 0, false);
      assert forall k | 0 <= k < |t| :: t[k] in Items(t) && t[k] in Items(s);
      OptimizePredicatesPreserve(env, preds.next, t);
    }
  }

  lemma {:induction false} OptimizeStepSet(env: Env, step: Expr, opt: Expr, s: seq<Item>, n: nat)
    requires Good(env) && step.Step? && opt.Step? && FormedPredicates(step.preds) && n <= |s|
    requires opt.axis == step.axis && opt.nodeTest == step.nodeTest && opt.preds == OptimizePredicates(step.preds)
    requires forall k | 0 <= k < |s| :: Somewhere(env.d, s[k])
    ensures StepSet(env, Full, opt, s, n) == StepSet(env, Full, step, s, n)
    decreases step.preds, 2, n
  {
    hide ApplyPredicates, GoodLibrary, Linked, StepItems, Somewhere, OptimizePredicates;
    if n > 0 {
      OptimizeStepSet(env, step, opt, s, n - 1);
      StepItemsFacts(env.d, step.axis, step.nodeTest, s[n - 1]);
      OptimizePredicatesPreserve(env, step.preds, StepItems(env.d, step.axis, step.nodeTest, s[n - 1]));
    }
  }

  lemma SameArgument(env: Env, kind: ArgumentKind, e: Expr, f: Expr, c: Context)
    requires Valid(env.d) && Same(env, e, f, c) && (kind.FirstNode? || kind.AllNodes? ==> TypeOf(e).NodeSetType?)
    ensures ArgumentValue(env, Full, kind, e, c) == ArgumentValue(env, Full, kind, f, c)
  {
    hide Nodes, AsText, AsBool, AsNum, Linked;
    SameValues(env, e, f, c);
  }

  lemma {:induction false} OptimizeValues(env: Env, f: Function, args: Arguments, k: nat, c: Context)
    requires Good(env) && FormedArguments(f, args, k) && Somewhere(env.d, c.item)
    ensures ArgumentValues(env, Full, f, OptimizeArguments(args), k, c) == ArgumentValues(env, Full, f, args, k, c)
    decreases args, 0
  {
    hide GoodLibrary, Linked, ArgumentValue, KindOf, Optimize, Same, Formed;
    if args.Arg? {
      OptimizePreserves(env, args.e, c);
      OptimizeType(args.e);
      SameArgument(env, KindOf(f, k), Optimize(args.e), args.e, c);
      OptimizeValues(env, f, args.next, k + 1, c);
    }
  }

  /** The tree after `optimize` means what the tree meant. */
  lemma {:induction false} OptimizePreserves(env: Env, e: Expr, c: Context)
    requires Good(env) && Formed(e) && Somewhere(env.d, c.item)
    ensures Same(env, Optimize(e), e, c)
    decreases e, 2
  {
    hide Optimize, Nodes, Native, Linked, Formed, GoodLibrary;
    OptimizeType(e);
    if TypeOf(e).NodeSetType? { OptimizeNodes(env, e, c); } else { OptimizeNative(env, e, c); }
  }

  lemma {:induction false} OptimizeNodes(env: Env, e: Expr, c: Context)
    requires Good(env) && Formed(e) && Somewhere(env.d, c.item) && TypeOf(e).NodeSetType?
    ensures Nodes(env, Full, Optimize(e), c, All) == Nodes(env, Full, e, c, All)
    decreases e, 1
  {
    hide GoodLibrary, Linked, Listing, Keep, StepSet, OptimizeSelf, Classify, Unpositioned;
    match e
    case Union(l, r) =>
      OptimizePreserves(env, l, c);
      OptimizePreserves(env, r, c);
    case Filter(l, _, r) => OptimizeFilter(env, e, c);
    case Step(_, _, _, _) => OptimizeStep(env, e, c);
    case _ =>
  }

  lemma {:induction false} OptimizeFilter(env: Env, e: Expr, c: Context)
    requires Good(env) && Formed(e) && Somewhere(env.d, c.item) && e.Filter?
    ensures Nodes(env, Full, Optimize(e), c, All) == Nodes(env, Full, e, c, All)
    decreases e, 0
  {
    hide GoodLibrary, Linked, Listing, Keep, Classify, Unpositioned;
    OptimizePreserves(env, e.left, c);
    AgreeNodes(env, e.left, c, All);
    var s := Nodes(env, Full, e.left, c, All).nodes;
    ListingIsSet(env.d, Items(s));
    OptimizeKeep(env, e.right, s, 0);
  }

  lemma {:induction false} OptimizeStep(env: Env, e: Expr, c: Context)
    requires Good(env) && Formed(e) && Somewhere(env.d, c.item) && e.Step?
    ensures Nodes(env, Full, Optimize(e), c, All) == Nodes(env, Full, e, c, All)
    decreases e, 0
  {
    hide GoodLibrary, Linked, Listing, StepSet, Merges;
    var f := Step(if e.start.From? then From(Optimize(e.start.left)) else FromContext, e.axis, e.nodeTest, OptimizePredicates(e.preds));
    var s := if e.start.From? then Nodes(env, Full, e.start.left, c, All).nodes else [c.item];
    if e.start.From? {
      OptimizePreserves(env, e.start.left, c);
      OptimizeFormed(e.start.left);
      AgreeNodes(env, e.start.left, c, All);
      ListingIsSet(env.d, Items(s));
    }
    OptimizePredicatesFormed(e.preds);
    OptimizeStepSet(env, e, f, s, |s|);
    if Merges(f) { MergePreserves(env, f, c); }
  }

  lemma {:induction false} OptimizedPart(env: Env, e: Expr, c: Context)
    requires Good(env) && Formed(e) && Somewhere(env.d, c.item)
    ensures AsBool(env, Full, Optimize(e), c) == AsBool(env, Full, e, c)
    ensures AsText(env, Full, Optimize(e), c) == AsText(env, Full, e, c)
    ensures forall m: Mode {:trigger AsOperand(env, Full, Optimize(e), c, m)} ::
              AsOperand(env, Full, Optimize(e), c, m) == AsOperand(env, Full, e, c, m)
    ensures TypeOf(Optimize(e)) == TypeOf(e)
    decreases e, 3
  {
    hide Optimize, Nodes, Native, Linked, Formed, GoodLibrary;
    OptimizePreserves(env, e, c);
    SameValues(env, Optimize(e), e, c);
    OptimizeType(e);
  }

  lemma {:induction false} OptimizeNative(env: Env, e: Expr, c: Context)
    requires Good(env) && Formed(e) && Somewhere(env.d, c.item) && !TypeOf(e).NodeSetType?
    ensures Native(env, Full, Optimize(e), c) == Native(env, Full, e, c)
    decreases e, 1
  {
    hide GoodLibrary, Linked, Nodes, AsText, AsBool, AsNum, AsOperand, Compares, AttributeEquals, TranslateText, ByTable, OptimizeSelf;
    match e
    case Or(l, r) => OptimizedPart(env, l, c); OptimizedPart(env, r, c);
    case And(l, r) => OptimizedPart(env, l, c); OptimizedPart(env, r, c);
    case Compare(_, _, _) => OptimizeCompare(env, e, c);
    case Count(l) => OptimizePreserves(env, l, c);
    case Call(f, args) => OptimizeValues(env, f, args, 0, c);
    case Translate(_, _, _) => OptimizeTranslate(env, e, c);
    case TranslateTable(l, _) => OptimizedPart(env, l, c);
    case _ =>
  }

  lemma {:induction false} OptimizeCompare(env: Env, e: Expr, c: Context)
    requires Good(env) && Formed(e) && Somewhere(env.d, c.item) && e.Compare?
    ensures Native(env, Full, Optimize(e), c) == Native(env, Full, e, c)
    decreases e, 0
  {
    hide GoodLibrary, Linked, Nodes, AsOperand, Compares, AttributeEquals, IsAttributeTest;
    OptimizedPart(env, e.left, c);
    OptimizedPart(env, e.right, c);
    var f := Compare(e.op, Optimize(e.left), Optimize(e.right));
    assert Native(env, Full, f, c) == Native(env, Full, e, c);
    if IsAttributeTest(f) { AttributeTest(env, f, c); }
  }

  lemma {:induction false} OptimizeTranslate(env: Env, e: Expr, c: Context)
    requires Good(env) && Formed(e) && Somewhere(env.d, c.item) && e.Translate?
    ensures Native(env, Full, Optimize(e), c) == Native(env, Full, e, c)
    decreases e, 0
  {
    hide GoodLibrary, Linked, Nodes, TranslateText, ByTable, HasTable, TableFor;
    OptimizedPart(env, e.left, c);
    OptimizedPart(env, e.from, c);
    OptimizedPart(env, e.to, c);
    var f := Translate(Optimize(e.left), Optimize(e.from), Optimize(e.to));
    assert Native(env, Full, f, c) == Native(env, Full, e, c);
    if f.from.Text? && f.to.Text? && HasTable(f.from.s, f.to.s) {
      TableTranslates(AsText(env, Full, f.left, c), f.from.s, f.to.s);
      assert AsText(env, Full, f.from, c) == f.from.s && AsText(env, Full, f.to, c) == f.to.s;
    }
  }

  // ---------------------------------------------------------------- the program

  /** Running the optimized query gives what running the query as parsed gives: the same boolean, string and
      number, and the same nodes. */
  lemma OptimizedQuery(env: Env, e: Expr, c: Context)
    requires Good(env) && Formed(e) && Somewhere(env.d, c.item)
    ensures AsBool(env, Program, Optimize(e), c) == AsBool(env, Program, e, c)
    ensures AsText(env, Program, Optimize(e), c) == AsText(env, Program, e, c)
    ensures AsNum(env, Program, Optimize(e), c) == AsNum(env, Program, e, c)
    ensures TypeOf(e).NodeSetType? ==>
              SortDo(env.d, Nodes(env, Program, Optimize(e), c, All)).nodes == SortDo(env.d, Nodes(env, Program, e, c, All)).nodes
    ensures TypeOf(e).NodeSetType? ==>
              FirstOf(Nodes(env, Program, Optimize(e), c, First)) == FirstOf(Nodes(env, Program, e, c, First))
  {
    hide GoodLibrary, Linked, Nodes, AsText, AsBool, AsNum, Optimize, Formed, FirstOf, SortDo, Stands;
    OptimizeFormed(e);
    OptimizePreserves(env, e, c);
    SameValues(env, Optimize(e), e, c);
    AgreeValues(env, e, c);
    AgreeValues(env, Optimize(e), c);
    OptimizeType(e);
    if TypeOf(e).NodeSetType? {
      RunsToListing(env, e, c);
      RunsToListing(env, Optimize(e), c);
    }
  }

  /** In mode `all` the raw set sorts to the full one; in mode `first` its first node is the first of the full one. */
  lemma RunsToListing(env: Env, e: Expr, c: Context)
    requires Good(env) && Formed(e) && Somewhere(env.d, c.item) && TypeOf(e).NodeSetType?
    ensures SortDo(env.d, Nodes(env, Program, e, c, All)).nodes == Nodes(env, Full, e, c, All).nodes
    ensures var s := Nodes(env, Full, e, c, All).nodes;
            FirstOf(Nodes(env, Program, e, c, First)) == if s == [] then NOWHERE else s[0]
  {
    hide GoodLibrary, Linked, Nodes, Formed, SortDo;
    AgreeNodes(env, e, c, All);
    AgreeNodes(env, e, c, First);
    var s := Items(Nodes(env, Full, e, c, All).nodes);
    StandingSet(env.d, s, Nodes(env, Program, e, c, All), All);
    StandingSet(env.d, s, Nodes(env, Program, e, c, First), First);
  }
}
