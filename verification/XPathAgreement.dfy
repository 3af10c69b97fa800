// The evaluator, reading expressions as the standard does, computes the values that XPath 1.0 defines.
module XPathAgreement {

  import opened Documents
  import opened XPath
  import opened XPathModes
  import opened XPathMeaning

  // ---------------------------------------------------------------- lists and sets

  /** The nodes before the k-th of an ordered list are the first k. */
  lemma {:induction false} NearerNodes(s: seq<Item>, k: nat, reverse: bool)
    requires k < |s| && (if reverse then InReverse(s) else InOrder(s))
    ensures (set z | z in Items(s) && if reverse then Before(s[k], z) else Before(z, s[k])) == Items(s[..k])
  {
    var near := set z | z in Items(s) && if reverse then Before(s[k], z) else Before(z, s[k]);
    forall z ensures z in near <==> z in Items(s[..k]) {
      if z in near {
        var m :| 0 <= m < |s| && s[m] == z;
        assert m < k;
        assert s[..k][m] == z;
      }
    }
  }

  /** So the proximity position of a node is its place in the list. */
  lemma PlaceIsPosition(s: seq<Item>, k: nat, reverse: bool)
    requires k < |s| && (if reverse then InReverse(s) else InOrder(s))
    ensures ProximityPosition(Items(s), s[k], reverse) == k + 1 && |Items(s)| == |s|
  {
    NearerNodes(s, k, reverse);
    OrderGivesNoRepeats(s);
    SizeOfItems(s);
    assert NoRepeats(s[..k]);
    SizeOfItems(s[..k]);
  }

  lemma FirstOfList(s: seq<Item>)
    requires InOrder(s) && s != []
    ensures Items(s) != {} && FirstInDocument(Items(s)) == s[0]
  {
    assert s[0] in Items(s);
    var y := FirstInDocument(Items(s));
    var k :| 0 <= k < |s| && s[k] == y;
    assert k > 0 ==> Before(s[0], s[k]);
  }

  // ---------------------------------------------------------------- comparisons

  lemma LessIsLess(a: Number, b: Number)
    ensures NumberLt(a, b) == Less(a, b) && NumberEq(a, b) == Same(a, b) == Same(b, a)
    ensures NumberBelow(false, a, b) == Less(a, b) && NumberBelow(true, a, b) == (Less(a, b) || Same(a, b))
  {
  }

  /** What the evaluator's comparison sees of a value. */
  ghost function Seen(env: Env, v: XValue): Operand {
    match v
    case Of(x) => Value(x)
    case NodeSet(s) => Strings(set i | i in s :: env.stringValue(i))
  }

  lemma ConversionsAgree(env: Env, x: Scalar)
    ensures ToBoolean(x) == BooleanOf(Of(x)) && ToNumber(env, x) == NumberOf(env, Of(x)) && ToText(env, x) == StringOf(env, Of(x))
  {
  }

  lemma ScalarsAgree(env: Env, op: Relation, x: Scalar, y: Scalar)
    ensures Compares(env, op, Value(x), Value(y)) == ScalarsCompare(env, op, x, y)
  {
    ConversionsAgree(env, x);
    ConversionsAgree(env, y);
    LessIsLess(ToNumber(env, x), ToNumber(env, y));
    LessIsLess(ToNumber(env, y), ToNumber(env, x));
    hide NumberLt, NumberEq, NumberBelow, Less, Same, ToNumber, NumberOf, ToBoolean, BooleanOf;
    match op
    case Eq =>
    case Ne =>
    case Lt =>
    case Gt =>
    case Le =>
    case Ge =>
  }

  lemma SetAgainstScalar(env: Env, op: Relation, p: set<Item>, v: Scalar)
    requires !v.B?
    ensures Compares(env, op, Seen(env, NodeSet(p)), Value(v)) == ValuesCompare(env, op, NodeSet(p), Of(v))
    ensures Compares(env, op, Value(v), Seen(env, NodeSet(p))) == ValuesCompare(env, op, Of(v), NodeSet(p))
  {
    SetBeforeScalar(env, op, p, v);
    ScalarBeforeSet(env, op, p, v);
  }

  lemma SetBeforeScalar(env: Env, op: Relation, p: set<Item>, v: Scalar)
    requires !v.B?
    ensures Compares(env, op, Seen(env, NodeSet(p)), Value(v)) == ValuesCompare(env, op, NodeSet(p), Of(v))
  {
    var q := Seen(env, NodeSet(p)).s;
    forall i ensures ScalarsCompare(env, op, NodeAgainst(env, i, v), v) == StringCompares(env, op, env.stringValue(i), v) {
      NodeAgainstIs(env, op, i, v);
    }
    AnyString(env, op, q, v);
    hide ScalarsCompare, StringCompares, ComparesString, NodeAgainst, Compares;
    if y :| y in q && StringCompares(env, op, y, v) {
      var i :| i in p && env.stringValue(i) == y;
    }
  }

  lemma ScalarBeforeSet(env: Env, op: Relation, p: set<Item>, v: Scalar)
    requires !v.B?
    ensures Compares(env, op, Value(v), Seen(env, NodeSet(p))) == ValuesCompare(env, op, Of(v), NodeSet(p))
  {
    var q := Seen(env, NodeSet(p)).s;
    forall i ensures ScalarsCompare(env, op, v, NodeAgainst(env, i, v)) == ComparesString(env, op, v, env.stringValue(i)) {
      NodeAgainstIs(env, op, i, v);
    }
    AnyString(env, op, q, v);
    hide ScalarsCompare, StringCompares, ComparesString, NodeAgainst, Compares;
    if y :| y in q && ComparesString(env, op, v, y) {
      var i :| i in p && env.stringValue(i) == y;
    }
  }

  /** One string of a node set next to a value. */
  predicate StringCompares(env: Env, op: Relation, y: string, v: Scalar) {
    Compares(env, op, Value(if v.N? then N(env.toNumber(y)) else S(y)), Value(v))
  }

  predicate ComparesString(env: Env, op: Relation, v: Scalar, y: string) {
    Compares(env, op, Value(v), Value(if v.N? then N(env.toNumber(y)) else S(y)))
  }

  lemma NodeAgainstIs(env: Env, op: Relation, i: Item, v: Scalar)
    requires !v.B?
    ensures ScalarsCompare(env, op, NodeAgainst(env, i, v), v) == StringCompares(env, op, env.stringValue(i), v)
    ensures ScalarsCompare(env, op, v, NodeAgainst(env, i, v)) == ComparesString(env, op, v, env.stringValue(i))
  {
    ScalarsAgree(env, op, NodeAgainst(env, i, v), v);
    ScalarsAgree(env, op, v, NodeAgainst(env, i, v));
    hide ScalarsCompare, Compares;
  }

  lemma AnyString(env: Env, op: Relation, q: set<string>, v: Scalar)
    requires !v.B?
    ensures Compares(env, op, Strings(q), Value(v)) <==> exists y :: y in q && StringCompares(env, op, y, v)
    ensures Compares(env, op, Value(v), Strings(q)) <==> exists y :: y in q && ComparesString(env, op, v, y)
  {
    hide NumberLt;
  }

  lemma SetAgainstSet(env: Env, op: Relation, p: set<Item>, q: set<Item>)
    ensures Compares(env, op, Seen(env, NodeSet(p)), Seen(env, NodeSet(q))) == ValuesCompare(env, op, NodeSet(p), NodeSet(q))
  {
    var r, s := Seen(env, NodeSet(p)).s, Seen(env, NodeSet(q)).s;
    AnyStrings(env, op, r, s);
    hide ScalarsCompare, Compares;
    if x, y :| x in r && y in s && ScalarsCompare(env, op, S(x), S(y)) {
      var i :| i in p && env.stringValue(i) == x;
      var j :| j in q && env.stringValue(j) == y;
      assert ScalarsCompare(env, op, S(env.stringValue(i)), S(env.stringValue(j)));
    }
    if i, j :| i in p && j in q && ScalarsCompare(env, op, S(env.stringValue(i)), S(env.stringValue(j))) {
      assert env.stringValue(i) in r && env.stringValue(j) in s;
    }
  }

  lemma AnyStrings(env: Env, op: Relation, r: set<string>, s: set<string>)
    ensures Compares(env, op, Strings(r), Strings(s))
       <==> exists x, y :: x in r && y in s && ScalarsCompare(env, op, S(x), S(y))
  {
    AnyPair(env, op, r, s);
    forall x, y ensures ScalarsCompare(env, op, S(x), S(y)) == Compares(env, op, Value(S(x)), Value(S(y))) {
      ScalarsAgree(env, op, S(x), S(y));
    }
    hide ScalarsCompare, Compares;
  }

  lemma AnyPair(env: Env, op: Relation, r: set<string>, s: set<string>)
    ensures Compares(env, op, Strings(r), Strings(s))
       <==> exists x, y :: x in r && y in s && Compares(env, op, Value(S(x)), Value(S(y)))
  {
    hide NumberLt, NumberEq;
  }

  /** The comparisons of the evaluator are those of section 3.4. */
  lemma ComparisonsAgree(env: Env, op: Relation, x: XValue, y: XValue)
    ensures StandardCompares(env, op, Seen(env, x), Seen(env, y)) == ValuesCompare(env, op, x, y)
  {
    hide Compares, ScalarsCompare, NodeAgainst;
    match (x, y)
    case (NodeSet(p), NodeSet(q)) => SetAgainstSet(env, op, p, q);
    case (NodeSet(p), Of(v)) =>
      if v.B? { ScalarsAgree(env, op, B(p != {}), v); SeenEmpty(env, p); } else { SetAgainstScalar(env, op, p, v); }
    case (Of(v), NodeSet(q)) =>
      if v.B? { ScalarsAgree(env, op, v, B(q != {})); SeenEmpty(env, q); } else { SetAgainstScalar(env, op, q, v); }
    case (Of(v), Of(w)) => ScalarsAgree(env, op, v, w);
  }

  lemma SeenEmpty(env: Env, p: set<Item>)
    ensures Seen(env, NodeSet(p)).s == {} <==> p == {}
  {
    if p != {} {
      var i :| i in p;
      assert env.stringValue(i) in Seen(env, NodeSet(p)).s;
    }
  }

  // ---------------------------------------------------------------- steps

  /** A list of nodes of the document without repetitions, in the order of an axis. */
  predicate Lists(d: Doc, s: seq<Item>, reverse: bool)
    requires Valid(d)
  {
    AllThere(d, s) && if reverse then InReverse(s) else InOrder(s)
  }

  lemma {:induction false} XPathNodesArePart(d: Doc, s: seq<Item>)
    requires Valid(d)
    ensures PartOf(XPathNodes(d, s), s)
    ensures forall y :: y in XPathNodes(d, s) <==> y in s && IsXPathNode(d, y)
  {
    hide Linked, IsXPathNode;
    if s != [] {
      XPathNodesArePart(d, s[1..]);
      PartHead(XPathNodes(d, s[1..]), s);
      assert s == [s[0]] + s[1..];
    }
  }

  lemma DataModelNode(d: Doc, y: Item)
    requires Valid(d) && HasItem(d, y)
    ensures InDataModel(d, y) == IsXPathNode(d, y)
  {
    hide Linked;
  }

  /** The first item of a name. */
  lemma FirstNamed(d: Doc, i: Item, t: NodeTest, y: Item)
    requires Valid(d) && HasItem(d, i) && t.TestName?
    ensures y in StepItems(d, AttributeAxis, t, i)
       <==> y in Chosen(d, AttributeAxis, i, t) && HasItem(d, y) && IsFirstOfItsName(d, y)
  {
    AxisIsChosen(d, AttributeAxis, i, t);
    AxisInOrder(d, AttributeAxis, i, t);
    hide Linked, AxisItems, InAxis, Selected;
    var s := AxisItems(d, AttributeAxis, i, t);
    assert forall z :: z in s <==> z in (set z | z in s);
    if y in s {
      NamedSoFar(d, i, t, y);
      forall z | z in s ensures z == s[0] || Before(s[0], z) {
        var m :| 0 <= m < |s| && s[m] == z;
      }
      if y == s[0] {
        forall k | 0 <= k < y.attr ensures d.attributes[y.node][k].name != NameAt(d, y) {
          if d.attributes[y.node][k].name == NameAt(d, y) {
            SameNameChosen(d, i, t, y, k);
          }
        }
      } else {
        assert s[0] in s;
        NamedSoFar(d, i, t, s[0]);
      }
    }
  }

  lemma NamedSoFar(d: Doc, i: Item, t: NodeTest, y: Item)
    requires Valid(d) && HasItem(d, i) && t.TestName? && y in Chosen(d, AttributeAxis, i, t)
    ensures HasItem(d, y) && y.node == i.node && y.attr != NONE && NameAt(d, y) == t.name
  {
    hide Linked;
  }

  lemma SameNameChosen(d: Doc, i: Item, t: NodeTest, y: Item, k: int)
    requires Valid(d) && HasItem(d, i) && t.TestName? && y in Chosen(d, AttributeAxis, i, t)
    requires HasItem(d, y) && 0 <= k < y.attr && d.attributes[y.node][k].name == NameAt(d, y)
    ensures Item(y.node, k) in Chosen(d, AttributeAxis, i, t)
  {
    hide Linked;
  }

  /** What a step of the evaluator selects from one node. */
  lemma SelectionIsStep(d: Doc, a: Axis, t: NodeTest, i: Item)
    requires Valid(d) && Somewhere(d, i)
    ensures Items(StepNodes(d, Standard, a, t, i)) == Selection(d, a, t, i)
    ensures Lists(d, StepNodes(d, Standard, a, t, i), IsReverse(a))
  {
    hide Linked, AxisItems, InAxis, IsXPathNode, Chosen;
    StepItemsFacts(d, a, t, i);
    var s := StepItems(d, a, t, i);
    XPathNodesArePart(d, s);
    assert forall k | 0 <= k < |XPathNodes(d, s)| :: XPathNodes(d, s)[k] in Items(XPathNodes(d, s));
    forall y ensures y in Items(StepNodes(d, Standard, a, t, i)) <==> y in Selection(d, a, t, i) {
      SelectedOne(d, a, t, i, y);
    }
  }

  lemma SelectedOne(d: Doc, a: Axis, t: NodeTest, i: Item, y: Item)
    requires Valid(d) && Somewhere(d, i)
    ensures y in StepItems(d, a, t, i) && IsXPathNode(d, y) <==> y in Selection(d, a, t, i)
  {
    hide Linked, AxisItems, InAxis, IsXPathNode, InDataModel, IsFirstOfItsName;
    if HasItem(d, i) {
      AxisIsChosen(d, a, i, t);
      assert y in AxisItems(d, a, i, t) <==> y in (set z | z in AxisItems(d, a, i, t));
      if y in Chosen(d, a, i, t) { DataModelNode(d, y); }
      hide Chosen;
      if a.AttributeAxis? && t.TestName? { FirstNamed(d, i, t, y); }
    }
  }

  // ---------------------------------------------------------------- the evaluator computes the meaning

  /** The list of a node set is the set, in document order. */
  ghost predicate IsListOf(env: Env, e: Expr, c: Context, r: Raw)
    requires Valid(env.d)
  {
    r.order.Sorted? && Lists(env.d, r.nodes, false) && Meaning(env, e, c) == NodeSet(Items(r.nodes))
  }

  lemma ListingLists(d: Doc, s: set<Item>)
    requires Valid(d) && Within(d, s)
    ensures Lists(d, Listing(d, s), false) && Items(Listing(d, s)) == s
  {
    hide Linked, Listing;
    ListingIsSet(d, s);
  }

  lemma ItemsWithin(d: Doc, s: seq<Item>)
    requires Valid(d) && AllThere(d, s)
    ensures Within(d, Items(s))
  {
    hide Linked;
  }

  lemma {:induction false} MeaningOfNodes(env: Env, e: Expr, c: Context, m: Mode)
    requires Good(env) && Formed(e) && Written(e) && TypeOf(e).NodeSetType? && Somewhere(env.d, c.item)
    ensures IsListOf(env, e, c, Nodes(env, Standard, e, c, m))
    decreases e, 0
  {
    hide Linked, Keep, StepSet, Listing, GoodLibrary, Passing, PassingAll, Selection, Lists, Honest;
    match e
    case Union(l, r) =>
      MeaningOfNodes(env, l, c, All);
      MeaningOfNodes(env, r, c, All);
      UnionOfLists(env.d, Nodes(env, Standard, l, c, All).nodes, Nodes(env, Standard, r, c, All).nodes);
    case Filter(l, _, r) =>
      MeaningOfNodes(env, l, c, All);
      MeaningOfFilter(env, r, Nodes(env, Standard, l, c, All).nodes, false);
    case Step(start, _, _, _) =>
      if start.From? { MeaningOfNodes(env, start.left, c, All); }
      MeaningOfStep(env, e, c);
    case Root => RootIsList(env.d, c.item);
    case Variable(name, _) => VariableIsList(env, name);
    case _ => NothingIsList(env.d);
  }

  lemma UnionOfLists(d: Doc, s: seq<Item>, t: seq<Item>)
    requires Valid(d) && Lists(d, s, false) && Lists(d, t, false)
    ensures Lists(d, Listing(d, Items(s) + Items(t)), false)
    ensures Items(Listing(d, Items(s) + Items(t))) == Items(s) + Items(t)
  {
    hide Linked, Listing;
    ItemsWithin(d, s);
    ItemsWithin(d, t);
    ListingLists(d, Items(s) + Items(t));
  }

  lemma RootIsList(d: Doc, i: Item)
    requires Valid(d) && Somewhere(d, i)
    ensures Lists(d, RootOf(i), false) && Items(RootOf(i)) == if i == NOWHERE then {} else {Item(0, NONE)}
  {
    hide Linked;
    if i != NOWHERE { assert [Item(0, NONE)][0] in [Item(0, NONE)]; }
  }

  lemma VariableIsList(env: Env, name: string)
    requires Good(env)
    ensures var s := Listing(env.d, Items(env.setVar(name).nodes));
            Lists(env.d, s, false) && Items(s) == set i | i in env.setVar(name).nodes
  {
    hide Linked, Listing;
    assert Proper(env.d, env.setVar(name));
    ItemsWithin(env.d, env.setVar(name).nodes);
    ListingLists(env.d, Items(env.setVar(name).nodes));
  }

  lemma NothingIsList(d: Doc)
    requires Valid(d)
    ensures Lists(d, [], false) && Items([]) == {}
  {
    hide Linked;
  }

  /** A predicate of the evaluator keeps the nodes of which it is true at their proximity positions. */
  lemma {:induction false} MeaningOfFilter(env: Env, e: Expr, s: seq<Item>, reverse: bool)
    requires Good(env) && Formed(e) && Written(e) && Lists(env.d, s, reverse)
    ensures Lists(env.d, Keep(env, Standard, e, s, 0, false), reverse)
    ensures Items(Keep(env, Standard, e, s, 0, false)) == Passing(env, e, Items(s), reverse)
    decreases e, 3
  {
    hide Linked, Keep, GoodLibrary, Holds, IsTrue;
    forall k | 0 <= k < |s|
      ensures Holds(env, Standard, e, Context(s[k], k + 1, |s|))
           == IsTrue(env, e, Context(s[k], ProximityPosition(Items(s), s[k], reverse), |Items(s)|))
    {
      PlaceIsPosition(s, k, reverse);
      MeaningOfPredicate(env, e, Context(s[k], k + 1, |s|));
    }
    hide ProximityPosition;
    KeptOfList(env, e, s, reverse);
    forall y ensures y in Items(Keep(env, Standard, e, s, 0, false)) <==> y in Passing(env, e, Items(s), reverse) {
      if y in Items(s) {
        var k :| 0 <= k < |s| && s[k] == y;
        KeptOne(env, e, s, k, reverse);
      }
    }
  }

  lemma KeptOfList(env: Env, e: Expr, s: seq<Item>, reverse: bool)
    requires Good(env) && Lists(env.d, s, reverse)
    ensures Lists(env.d, Keep(env, Standard, e, s, 0, false), reverse)
    ensures Items(Keep(env, Standard, e, s, 0, false)) <= Items(s)
  {
    hide Linked, Keep, GoodLibrary;
    var kept := Keep(env, Standard, e, s, 0, false);
    KeepIsPart(env, Standard, e, s, 0, false);
    assert s[0..] == s;
    forall k | 0 <= k < |kept| ensures HasItem(env.d, kept[k]) { assert kept[k] in Items(kept); }
  }

  lemma {:induction false} KeptMembers(env: Env, e: Expr, s: seq<Item>, k: nat)
    requires Valid(env.d) && k <= |s|
    ensures forall y :: y in Keep(env, Standard, e, s, k, false)
                   <==> exists j :: k <= j < |s| && s[j] == y && Holds(env, Standard, e, Context(s[j], j + 1, |s|))
    decreases |s| - k
  {
    hide Linked, Holds;
    if k < |s| { KeptMembers(env, e, s, k + 1); }
  }

  lemma KeptOne(env: Env, e: Expr, s: seq<Item>, k: nat, reverse: bool)
    requires Good(env) && Lists(env.d, s, reverse) && k < |s|
    ensures s[k] in Keep(env, Standard, e, s, 0, false) <==> Holds(env, Standard, e, Context(s[k], k + 1, |s|))
  {
    KeptMembers(env, e, s, 0);
    OrderGivesNoRepeats(s);
    hide Linked, Keep, Holds, GoodLibrary;
  }

  lemma {:induction false} MeaningOfPredicates(env: Env, preds: Predicates, s: seq<Item>, reverse: bool)
    requires Good(env) && FormedPredicates(preds) && WrittenPredicates(preds) && Lists(env.d, s, reverse)
    ensures Lists(env.d, ApplyPredicates(env, Standard, preds, s, false), reverse)
    ensures Items(ApplyPredicates(env, Standard, preds, s, false)) == PassingAll(env, preds, Items(s), reverse)
    decreases preds, 0
  {
    hide Linked, Keep, GoodLibrary, Lists, Passing, Formed, Written, Honest;
    if preds.Pred? {
      var kept := ApplyPredicate(env, Standard, preds.test, preds.right, s, false);
      assert kept == Keep(env, Standard, preds.right, s, 0, false) by { KeepNothing(env, preds.right, s); }
      MeaningOfFilter(env, preds.right, s, reverse);
      MeaningOfPredicates(env, preds.next, kept, reverse);
    }
  }

  lemma KeepNothing(env: Env, e: Expr, s: seq<Item>)
    requires Valid(env.d)
    ensures s == [] ==> Keep(env, Standard, e, s, 0, false) == []
  {
  }

  /** What a step means from the nodes `from`. */
  ghost function StepMeaning(env: Env, step: Expr, from: set<Item>): set<Item>
    requires Valid(env.d) && step.Step?
  {
    set i, y | i in from && y in PassingAll(env, step.preds, Selection(env.d, step.axis, step.nodeTest, i), IsReverse(step.axis)) :: y
  }

  lemma MoreMeaning(env: Env, step: Expr, from: set<Item>, i: Item)
    requires Valid(env.d) && step.Step?
    ensures StepMeaning(env, step, from + {i})
         == StepMeaning(env, step, from)
            + PassingAll(env, step.preds, Selection(env.d, step.axis, step.nodeTest, i), IsReverse(step.axis))
  {
    hide Linked, PassingAll, Selection;
  }

  lemma {:induction false} MeaningOfLoop(env: Env, step: Expr, s: seq<Item>, n: nat)
    requires Good(env) && step.Step? && FormedPredicates(step.preds) && WrittenPredicates(step.preds)
    requires n <= |s| && forall k | 0 <= k < |s| :: Somewhere(env.d, s[k])
    ensures StepSet(env, Standard, step, s, n) == StepMeaning(env, step, Items(s[..n]))
    ensures Within(env.d, StepSet(env, Standard, step, s, n))
    decreases step.preds, 1, n
  {
    hide Linked, GoodLibrary, ApplyPredicates, StepNodes, PassingAll, Selection, FormedPredicates, WrittenPredicates, StepMeaning;
    if n == 0 {
      NoMeaning(env, step);
      assert s[..0] == [];
    } else {
      MeaningOfLoop(env, step, s, n - 1);
      var i := s[n - 1];
      SelectionIsStep(env.d, step.axis, step.nodeTest, i);
      var found := StepNodes(env.d, Standard, step.axis, step.nodeTest, i);
      MeaningOfPredicates(env, step.preds, found, IsReverse(step.axis));
      ListsWithin(env.d, ApplyPredicates(env, Standard, step.preds, found, false), IsReverse(step.axis));
      MoreMeaning(env, step, Items(s[..n - 1]), i);
      assert s[..n] == s[..n - 1] + [i];
      Concatenated(s[..n - 1], [i]);
      assert Items([i]) == {i};
    }
  }

  lemma NoMeaning(env: Env, step: Expr)
    requires Valid(env.d) && step.Step?
    ensures StepMeaning(env, step, {}) == {} && Items([]) == {}
  {
  }

  lemma ListsWithin(d: Doc, s: seq<Item>, reverse: bool)
    requires Valid(d) && Lists(d, s, reverse)
    ensures Within(d, Items(s))
  {
    hide Linked;
    ItemsWithin(d, s);
  }

  lemma {:induction false} MeaningOfStep(env: Env, e: Expr, c: Context)
    requires Good(env) && e.Step? && FormedPredicates(e.preds) && WrittenPredicates(e.preds) && Somewhere(env.d, c.item)
    requires e.start.From? ==> IsListOf(env, e.start.left, c, Nodes(env, Standard, e.start.left, c, All))
    ensures forall m: Mode :: IsListOf(env, e, c, Nodes(env, Standard, e, c, m))
    decreases e.preds, 2
  {
    hide Linked, GoodLibrary, StepSet, Listing, PassingAll, Selection, FormedPredicates, WrittenPredicates;
    var s := if e.start.From? then Nodes(env, Standard, e.start.left, c, All).nodes else [c.item];
    forall k | 0 <= k < |s| ensures Somewhere(env.d, s[k]) {
    }
    MeaningOfLoop(env, e, s, |s|);
    assert s[..|s|] == s;
    ListingLists(env.d, StepSet(env, Standard, e, s, |s|));
    assert Items([c.item]) == {c.item};
    hide Lists;
    assert Meaning(env, e, c) == NodeSet(StepMeaning(env, e, Items(s)));
  }

  // ---------------------------------------------------------------- values

  lemma {:induction false} MeaningOfValues(env: Env, e: Expr, c: Context)
    requires Good(env) && Formed(e) && Written(e) && Somewhere(env.d, c.item)
    ensures AsBool(env, Standard, e, c) == BooleanOf(Meaning(env, e, c))
    ensures AsText(env, Standard, e, c) == StringOf(env, Meaning(env, e, c))
    ensures AsNum(env, Standard, e, c) == NumberOf(env, Meaning(env, e, c))
    ensures forall m: Mode {:trigger AsOperand(env, Standard, e, c, m)} :: AsOperand(env, Standard, e, c, m) == Seen(env, Meaning(env, e, c))
    decreases e, 1
  {
    hide Linked, GoodLibrary, Nodes, Native, Meaning, Formed, Written;
    if TypeOf(e).NodeSetType? {
      forall m: Mode ensures IsListOf(env, e, c, Nodes(env, Standard, e, c, m)) {
        MeaningOfNodes(env, e, c, m);
      }
      ValuesOfNodes(env, e, c);
    } else {
      MeaningOfNative(env, e, c);
      ConversionsAgree(env, Native(env, Standard, e, c));
    }
  }

  lemma ValuesOfNodes(env: Env, e: Expr, c: Context)
    requires Good(env) && TypeOf(e).NodeSetType?
    requires forall m: Mode :: IsListOf(env, e, c, Nodes(env, Standard, e, c, m))
    ensures AsBool(env, Standard, e, c) == BooleanOf(Meaning(env, e, c))
    ensures AsText(env, Standard, e, c) == StringOf(env, Meaning(env, e, c))
    ensures AsNum(env, Standard, e, c) == NumberOf(env, Meaning(env, e, c))
    ensures forall m: Mode {:trigger AsOperand(env, Standard, e, c, m)} :: AsOperand(env, Standard, e, c, m) == Seen(env, Meaning(env, e, c))
  {
    hide Linked, GoodLibrary, Nodes, Meaning, Lists;
    FirstOfRaw(env.d, Nodes(env, Standard, e, c, First));
    FirstOfRaw(env.d, Nodes(env, Standard, e, c, Any));
    forall m: Mode ensures AsOperand(env, Standard, e, c, m) == Seen(env, Meaning(env, e, c)) {
      SeenStrings(env, Nodes(env, Standard, e, c, m).nodes);
    }
  }

  lemma SeenStrings(env: Env, s: seq<Item>)
    ensures Seen(env, NodeSet(Items(s))) == Strings(set k | 0 <= k < |s| :: env.stringValue(s[k]))
  {
    var p := set k | 0 <= k < |s| :: env.stringValue(s[k]);
    forall x ensures x in p <==> x in Seen(env, NodeSet(Items(s))).s {
      if x in p {
        var k :| 0 <= k < |s| && env.stringValue(s[k]) == x;
        assert s[k] in Items(s);
      }
    }
  }

  /** A predicate holds in the evaluator if and only if it is true. */
  lemma {:induction false} MeaningOfPredicate(env: Env, e: Expr, c: Context)
    requires Good(env) && Formed(e) && Written(e) && Somewhere(env.d, c.item)
    ensures Holds(env, Standard, e, c) == IsTrue(env, e, c)
    decreases e, 2
  {
    MeaningOfValues(env, e, c);
    hide Linked, GoodLibrary, Nodes, Native, Meaning, Formed, Written, AsNum, AsBool;
    if TypeOf(e).NodeSetType? {
      MeaningOfNodes(env, e, c, All);
    } else {
      MeaningOfNative(env, e, c);
      NativeFits(env, Standard, e, c);
    }
    hide *;
    PredicateIs(env, e, c);
  }

  lemma PredicateIs(env: Env, e: Expr, c: Context)
    requires Valid(env.d)
    requires AsBool(env, Standard, e, c) == BooleanOf(Meaning(env, e, c))
    requires AsNum(env, Standard, e, c) == NumberOf(env, Meaning(env, e, c))
    requires TypeOf(e).NumberType? <==> Meaning(env, e, c).Of? && Meaning(env, e, c).v.N?
    ensures Holds(env, Standard, e, c) == IsTrue(env, e, c)
  {
    hide Linked, AsNum, AsBool, Meaning;
    LessIsLess(AsNum(env, Standard, e, c), Fin(c.position as real));
  }

  lemma {:induction false} MeaningOfNative(env: Env, e: Expr, c: Context)
    requires Good(env) && Formed(e) && Written(e) && !TypeOf(e).NodeSetType? && Somewhere(env.d, c.item)
    ensures Meaning(env, e, c) == Of(Native(env, Standard, e, c))
    decreases e, 0
  {
    hide GoodLibrary, Linked, Nodes, AsText, AsBool, AsNum, AsOperand, StandardCompares, ValuesCompare, StandardCall, StandardTranslate,
         BooleanOf, StringOf, NumberOf, Seen, Honest;
    match e
    case Or(l, r) => MeaningOfValues(env, l, c); MeaningOfValues(env, r, c);
    case And(l, r) => MeaningOfValues(env, l, c); MeaningOfValues(env, r, c);
    case Compare(op, l, r) =>
      MeaningOfValues(env, l, c);
      MeaningOfValues(env, r, c);
      ComparisonsAgree(env, op, Meaning(env, l, c), Meaning(env, r, c));
    case Count(l) =>
      MeaningOfNodes(env, l, c, All);
      SizeOfList(env.d, Nodes(env, Standard, l, c, All).nodes);
    case Call(f, args) => MeaningOfArguments(env, f, args, 0, c);
    case Translate(l, from, to) =>
      MeaningOfValues(env, l, c);
      MeaningOfValues(env, from, c);
      MeaningOfValues(env, to, c);
    case _ =>
  }

  lemma SizeOfList(d: Doc, s: seq<Item>)
    requires Valid(d) && Lists(d, s, false)
    ensures |Items(s)| == |s| && multiset(s) == multiset(Items(s))
  {
    hide Linked;
    OrderGivesNoRepeats(s);
    SizeOfItems(s);
    forall y ensures multiset(s)[y] == multiset(Items(s))[y] { CountOfItem(s, y); }
  }

  lemma {:induction false} MeaningOfArguments(env: Env, f: Function, args: Arguments, k: nat, c: Context)
    requires Good(env) && FormedArguments(f, args, k) && WrittenArguments(args) && Somewhere(env.d, c.item)
    ensures ArgumentValues(env, Standard, f, args, k, c) == Converteds(env, f, args, k, c)
    decreases args, 0
  {
    hide GoodLibrary, Linked, Nodes, AsText, AsBool, AsNum, BooleanOf, StringOf, NumberOf, ArgumentValue, Converted, KindOf;
    if args.Arg? {
      MeaningOfArgument(env, f, k, args.e, c);
      MeaningOfArguments(env, f, args.next, k + 1, c);
    }
  }

  /** How the evaluator takes a value. */
  ghost function Taken(env: Env, kind: ArgumentKind, v: XValue): Argument {
    match kind
    case AsNumber => NumberArg(NumberOf(env, v))
    case AsString => StringArg(StringOf(env, v))
    case AsBoolean => BooleanArg(BooleanOf(v))
    case FirstNode => NodeArg(if v.NodeSet? && v.s != {} then FirstInDocument(v.s) else NOWHERE)
    case AllNodes => NodesArg(if v.NodeSet? then multiset(v.s) else multiset{})
  }

  lemma KindsAgree(env: Env, f: Function, k: nat, v: XValue)
    ensures Taken(env, KindOf(f, k), v) == Converted(env, f, k, v)
  {
    hide NumberOf, StringOf, BooleanOf;
    match f
    case Substring2 =>
    case Substring3 =>
    case _ =>
  }

  lemma {:induction false} MeaningOfArgument(env: Env, f: Function, k: nat, e: Expr, c: Context)
    requires Good(env) && Formed(e) && Written(e) && Somewhere(env.d, c.item)
    requires KindOf(f, k).FirstNode? || KindOf(f, k).AllNodes? ==> TypeOf(e).NodeSetType?
    ensures ArgumentValue(env, Standard, KindOf(f, k), e, c) == Converted(env, f, k, Meaning(env, e, c))
    decreases e, 2
  {
    hide GoodLibrary, Linked, Nodes, AsText, AsBool, AsNum, BooleanOf, StringOf, NumberOf, Meaning, Formed, Written, Lists,
         Converted, KindOf, AsOperand, Seen, FirstOf;
    KindsAgree(env, f, k, Meaning(env, e, c));
    MeaningOfValues(env, e, c);
    if TypeOf(e).NodeSetType? {
      MeaningOfNodes(env, e, c, First);
      MeaningOfNodes(env, e, c, All);
      FirstOfRaw(env.d, Nodes(env, Standard, e, c, First));
      SizeOfList(env.d, Nodes(env, Standard, e, c, All).nodes);
    }
  }

  lemma FirstOfRaw(d: Doc, r: Raw)
    requires Valid(d) && r.order.Sorted? && Lists(d, r.nodes, false)
    ensures FirstOf(r) == if Items(r.nodes) == {} then NOWHERE else FirstInDocument(Items(r.nodes))
    ensures r.nodes == [] <==> Items(r.nodes) == {}
  {
    hide Linked;
    if r.nodes != [] { FirstOfList(r.nodes); }
  }
}
