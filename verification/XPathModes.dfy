// The short-cut evaluation gives what full evaluation gives: in every mode a raw node set agrees with the
// full one, and every other value is the same.
module XPathModes {

  import opened Documents
  import opened XPath

  // ---------------------------------------------------------------- well-formed expressions

  /** `is_posinv_expr`: the value does not depend on the position or size of the context. */
  predicate PosInvExpr(e: Expr) {
    match e
    case Position => false
    case Last => false
    case Text(_) => true
    case Num(_) => true
    case Variable(_, _) => true
    case Step(_, _, _, _) => true
    case Root => true
    case Filter(_, _, _) => true
    case Or(l, r) => PosInvExpr(l) && PosInvExpr(r)
    case And(l, r) => PosInvExpr(l) && PosInvExpr(r)
    case Compare(_, l, r) => PosInvExpr(l) && PosInvExpr(r)
    case Union(l, r) => PosInvExpr(l) && PosInvExpr(r)
    case Id(l) => PosInvExpr(l)
    case Count(l) => PosInvExpr(l)
    case Call(_, args) => PosInvArguments(args)
    case Translate(l, from, to) => PosInvExpr(l) && PosInvExpr(from) && PosInvExpr(to)
    case TranslateTable(l, _) => PosInvExpr(l)
    case CompareAttribute(_, r) => PosInvExpr(r)
  }

  predicate PosInvArguments(args: Arguments) {
    args.Arg? ==> PosInvExpr(args.e) && PosInvArguments(args.next)
  }

  /** The class of a predicate is one its expression belongs to. */
  predicate Honest(test: PredicateTest, e: Expr) {
    match test
    case Default => true
    case PosInv => !TypeOf(e).NumberType? && PosInvExpr(e)
    case Constant => TypeOf(e).NumberType? && (e.Num? || e.Variable? || e.Last?)
    case ConstantOne => e == Num(Fin(1.0))
  }

  /** What the parser's type checks and the classification give. */
  predicate Formed(e: Expr) {
    match e
    case Or(l, r) => Formed(l) && Formed(r)
    case And(l, r) => Formed(l) && Formed(r)
    case Compare(_, l, r) => Formed(l) && Formed(r)
    case Union(l, r) => Formed(l) && Formed(r) && TypeOf(l).NodeSetType? && TypeOf(r).NodeSetType?
    case Filter(l, test, r) => Formed(l) && Formed(r) && TypeOf(l).NodeSetType? && Honest(test, r)
    case Step(start, _, _, preds) => (start.From? ==> Formed(start.left) && TypeOf(start.left).NodeSetType?) && FormedPredicates(preds)
    case Id(l) => Formed(l)
    case Count(l) => Formed(l) && TypeOf(l).NodeSetType?
    case Call(f, args) => FormedArguments(f, args, 0)
    case Translate(l, from, to) => Formed(l) && Formed(from) && Formed(to)
    case TranslateTable(l, _) => Formed(l)
    case CompareAttribute(_, r) => r.Text? || (r.Variable? && r.ty.StringType?)
    case _ => true
  }

  predicate FormedPredicates(preds: Predicates) {
    preds.Pred? ==> Formed(preds.right) && Honest(preds.test, preds.right) && FormedPredicates(preds.next)
  }

  predicate FormedArguments(f: Function, args: Arguments, k: nat)
    decreases args
  {
    args.Arg? ==>
      && Formed(args.e) && FormedArguments(f, args.next, k + 1)
      && (KindOf(f, k).FirstNode? || KindOf(f, k).AllNodes? ==> TypeOf(args.e).NodeSetType?)
  }

  // ---------------------------------------------------------------- ordered sequences

  lemma OrderGivesNoRepeats(s: seq<Item>)
    ensures InOrder(s) || InReverse(s) ==> NoRepeats(s)
  {
  }

  lemma TailInOrder(s: seq<Item>)
    requires s != []
    ensures Items(s) == {s[0]} + Items(s[1..])
    ensures InOrder(s) ==> InOrder(s[1..]) && forall y | y in s[1..] :: Before(s[0], y)
    ensures InReverse(s) ==> InReverse(s[1..]) && forall y | y in s[1..] :: Before(y, s[0])
    ensures NoRepeats(s) ==> NoRepeats(s[1..]) && s[0] !in s[1..]
  {
    assert s == [s[0]] + s[1..];
  }

  lemma HeadInOrder(x: Item, s: seq<Item>)
    ensures Items([x] + s) == {x} + Items(s)
    ensures InOrder(s) && (forall y | y in s :: Before(x, y)) ==> InOrder([x] + s)
    ensures InReverse(s) && (forall y | y in s :: Before(y, x)) ==> InReverse([x] + s)
    ensures NoRepeats(s) && x !in s ==> NoRepeats([x] + s)
  {
    assert forall k | 0 <= k < |s| :: s[k] in s;
  }

  lemma Concatenated(s: seq<Item>, t: seq<Item>)
    ensures Items(s + t) == Items(s) + Items(t)
    ensures NoRepeats(s) && NoRepeats(t) && Items(s) !! Items(t) ==> NoRepeats(s + t)
    ensures InOrder(s) && InOrder(t) && (forall x, y | x in s && y in t :: Before(x, y)) ==> InOrder(s + t)
    ensures InReverse(s) && InReverse(t) && (forall x, y | x in s && y in t :: Before(y, x)) ==> InReverse(s + t)
  {
    assert forall k | 0 <= k < |s| :: s[k] in Items(s);
    assert forall k | 0 <= k < |t| :: t[k] in Items(t);
  }

  /** An ordered listing is determined by its contents. */
  lemma {:induction false} OrderedListingUnique(s: seq<Item>, t: seq<Item>)
    requires InOrder(s) && InOrder(t) && Items(s) == Items(t)
    ensures s == t
  {
    if s == [] {
      if t != [] { TailInOrder(t); }
    } else {
      assert s[0] in Items(t);
      assert t != [];
      TailInOrder(s);
      TailInOrder(t);
      assert t[0] in Items(s);
      assert s[0] == t[0];
      assert Items(s[1..]) == Items(t[1..]);
      OrderedListingUnique(s[1..], t[1..]);
      assert s == [s[0]] + s[1..] && t == [t[0]] + t[1..];
    }
  }

  lemma {:induction false} Reversal(s: seq<Item>)
    ensures Items(Reverse(s)) == Items(s)
    ensures InReverse(s) ==> InOrder(Reverse(s))
  {
    if s != [] {
      Reversal(s[1..]);
      TailInOrder(s);
      Concatenated(Reverse(s[1..]), [s[0]]);
      assert InReverse(s) ==> forall y | y in Reverse(s[1..]) :: y in Items(s[1..]) && Before(y, s[0]);
      OneMore(Reverse(s[1..]), s[0]);
    }
  }

  // ---------------------------------------------------------------- listings

  lemma {:induction false} ListAtMembers(s: set<Item>, x: int, a: int)
    ensures InOrder(ListAt(s, x, a))
    ensures forall y {:trigger y in ListAt(s, x, a)} :: y in ListAt(s, x, a) <==> y in s && y.node == x && NONE <= y.attr <= a
    decreases a + 1
  {
    if a >= NONE {
      ListAtMembers(s, x, a - 1);
      OneMore(ListAt(s, x, a - 1), Item(x, a));
    }
  }

  lemma {:induction false} ListBelowMembers(d: Doc, s: set<Item>, n: nat)
    requires n <= |d.attributes|
    ensures InOrder(ListBelow(d, s, n))
    ensures forall y {:trigger y in ListBelow(d, s, n)} ::
              y in ListBelow(d, s, n) <==> y in s && 0 <= y.node < n && NONE <= y.attr < |d.attributes[y.node]|
  {
    if n > 0 {
      ListBelowMembers(d, s, n - 1);
      ListAtMembers(s, n - 1, |d.attributes[n - 1]| - 1);
      Concatenated(ListBelow(d, s, n - 1), ListAt(s, n - 1, |d.attributes[n - 1]| - 1));
    }
  }

  predicate Within(d: Doc, s: set<Item>)
    requires Valid(d)
  {
    forall i | i in s :: HasItem(d, i)
  }

  /** A listing is the set, in document order. */
  lemma ListingIsSet(d: Doc, s: set<Item>)
    requires Valid(d) && Within(d, s)
    ensures InOrder(Listing(d, s)) && Items(Listing(d, s)) == s
    ensures AllThere(d, Listing(d, s)) && NoRepeats(Listing(d, s))
  {
    ListBelowMembers(d, s, |d.attributes|);
    OrderGivesNoRepeats(Listing(d, s));
    forall k | 0 <= k < |Listing(d, s)| ensures HasItem(d, Listing(d, s)[k]) {
      assert Listing(d, s)[k] in ListBelow(d, s, |d.attributes|);
    }
  }

  lemma {:induction false} NeighboursSuffice(s: seq<Item>)
    ensures (forall k | 0 <= k < |s| - 1 :: Before(s[k], s[k + 1])) ==> InOrder(s)
    ensures (forall k | 0 <= k < |s| - 1 :: Before(s[k + 1], s[k])) ==> InReverse(s)
  {
    if |s| > 1 {
      var t := s[..|s| - 1];
      NeighboursSuffice(t);
      assert s == t + [s[|s| - 1]];
      assert forall k | 0 <= k < |t| :: t[k] == s[k];
      assert t[|t| - 1] == s[|s| - 2];
    }
  }

  /** Comparing neighbours is enough to recognise an ordered set. */
  lemma OrderOfIsRight(s: seq<Item>)
    requires NoRepeats(s)
    ensures OrderOf(s).Sorted? ==> InOrder(s)
    ensures OrderOf(s).Reversed? ==> InReverse(s)
  {
    NeighboursSuffice(s);
    if |s| >= 2 && !OrderOf(s).Unsorted? {
      forall k | 0 <= k < |s| - 1
        ensures Before(s[k], s[k + 1]) == Before(s[0], s[1]) && Before(s[k + 1], s[k]) == !Before(s[0], s[1])
      {
        assert s[k] != s[k + 1];
      }
    }
  }

  /** `sort_do` leaves the nodes of the set, in document order. */
  lemma SortDoIsListing(d: Doc, r: Raw)
    requires Valid(d) && Proper(d, r)
    ensures SortDo(d, r).nodes == Listing(d, Items(r.nodes)) && SortDo(d, r).order.Sorted?
  {
    var s := Items(r.nodes);
    assert Within(d, s);
    ListingIsSet(d, s);
    OrderOfIsRight(r.nodes);
    Reversal(r.nodes);
    OrderedListingUnique(SortDo(d, r).nodes, Listing(d, s));
  }

  lemma {:induction false} LeastIsLeast(s: seq<Item>)
    requires s != []
    ensures LeastOf(s) in s && forall y | y in s :: y == LeastOf(s) || Before(LeastOf(s), y)
  {
    if |s| > 1 {
      LeastIsLeast(s[..|s| - 1]);
      assert s == s[..|s| - 1] + [s[|s| - 1]];
    }
  }

  /** `xpath_first` finds the first node in document order, whatever the order of the set. */
  lemma FirstIsLeast(d: Doc, r: Raw)
    requires Valid(d) && Proper(d, r) && r.nodes != []
    ensures FirstOf(r) in r.nodes && forall y | y in r.nodes :: y == FirstOf(r) || Before(FirstOf(r), y)
  {
    LeastIsLeast(r.nodes);
  }

  // ---------------------------------------------------------------- agreement of a raw set with its meaning

  predicate Reached(s: seq<Item>, y: Item) { exists k | 0 <= k < |s| :: s[k] == y || Before(s[k], y) }

  /** A raw set is as good as the set it stands for, as far as the mode asks. */
  predicate Stands(d: Doc, s: set<Item>, r: Raw, mode: Mode)
    requires Valid(d)
  {
    && Proper(d, r)
    && Items(r.nodes) <= s
    && (mode.All? ==> s <= Items(r.nodes))
    && (s != {} ==> r.nodes != [])
    && (mode.First? ==> forall y | y in s :: Reached(r.nodes, y))
  }

  /** A raw set that stands for `s` gives the same first node and, in full mode, the same listing. */
  lemma StandingSet(d: Doc, s: set<Item>, r: Raw, mode: Mode)
    requires Valid(d) && Within(d, s) && Stands(d, s, r, mode)
    ensures (r.nodes == []) == (Listing(d, s) == []) == (s == {})
    ensures (SortDo(d, r).nodes == []) == (s == {})
    ensures mode.All? ==> SortDo(d, r).nodes == Listing(d, s) && |r.nodes| == |Listing(d, s)|
    ensures !mode.Any? && s != {} ==> Listing(d, s) != [] && FirstOf(r) == Listing(d, s)[0]
    ensures mode.First? && s != {} ==> SortDo(d, r).nodes != [] && SortDo(d, r).nodes[0] == Listing(d, s)[0]
  {
    ListingIsSet(d, s);
    SortDoIsListing(d, r);
    assert Listing(d, s) != [] ==> Listing(d, s)[0] in Items(Listing(d, s));
    assert r.nodes != [] ==> r.nodes[0] in Items(r.nodes);
    assert Listing(d, s) == [] ==> s == {};
    SortDoEmpty(d, r);
    if mode.All? {
      assert Items(r.nodes) == s;
      SameSize(r.nodes, Listing(d, s));
    }
    if !mode.Any? && s != {} {
      var m := Listing(d, s)[0];
      assert m in Items(Listing(d, s)) && m in s;
      FirstIsLeast(d, r);
      assert FirstOf(r) in s;
      assert forall y | y in s :: y in Items(Listing(d, s)) && (y == m || Before(m, y));
      LeastReached(r.nodes, s, m, mode);
      var t := Listing(d, Items(r.nodes));
      ListingIsSet(d, Items(r.nodes));
      assert m in Items(t) && t[0] in Items(r.nodes);
    }
  }

  lemma SortDoEmpty(d: Doc, r: Raw)
    requires Valid(d) && Proper(d, r)
    ensures (SortDo(d, r).nodes == []) == (r.nodes == [])
  {
    SortDoIsListing(d, r);
    ListingIsSet(d, Items(r.nodes));
    SizeOfItems(r.nodes);
    SizeOfItems(SortDo(d, r).nodes);
  }

  lemma LeastReached(nodes: seq<Item>, s: set<Item>, m: Item, mode: Mode)
    requires Items(nodes) <= s && m in s && forall y | y in s :: y == m || Before(m, y)
    requires mode.All? ==> s <= Items(nodes)
    requires mode.First? ==> forall y | y in s :: Reached(nodes, y)
    ensures !mode.Any? ==> m in nodes
  {
    if mode.First? {
      assert Reached(nodes, m);
      var k :| 0 <= k < |nodes| && (nodes[k] == m || Before(nodes[k], m));
      assert nodes[k] in Items(nodes);
    }
  }

  lemma {:induction false} SameSize(s: seq<Item>, t: seq<Item>)
    requires NoRepeats(s) && NoRepeats(t) && Items(s) == Items(t)
    ensures |s| == |t| && multiset(s) == multiset(t)
  {
    SizeOfItems(s);
    SizeOfItems(t);
    forall y ensures multiset(s)[y] == multiset(t)[y] {
      CountOfItem(s, y);
      CountOfItem(t, y);
      assert y in s <==> y in Items(s);
      assert y in t <==> y in Items(t);
    }
  }

  lemma {:induction false} SizeOfItems(s: seq<Item>)
    requires NoRepeats(s)
    ensures |Items(s)| == |s|
  {
    if s != [] {
      TailInOrder(s);
      SizeOfItems(s[1..]);
    }
  }

  lemma {:induction false} CountOfItem(s: seq<Item>, y: Item)
    requires NoRepeats(s)
    ensures multiset(s)[y] == if y in s then 1 else 0
  {
    if s != [] {
      TailInOrder(s);
      CountOfItem(s[1..], y);
      assert s == [s[0]] + s[1..];
    }
  }

  // ---------------------------------------------------------------- predicates

  /** What filtering keeps: nodes of the given ones, in their order. */
  predicate PartOf(p: seq<Item>, s: seq<Item>) {
    && Items(p) <= Items(s)
    && (InOrder(s) ==> InOrder(p))
    && (InReverse(s) ==> InReverse(p))
    && (NoRepeats(s) ==> NoRepeats(p))
  }

  lemma PartHead(p: seq<Item>, s: seq<Item>)
    requires s != [] && PartOf(p, s[1..])
    ensures PartOf(p, s) && PartOf([s[0]] + p, s)
  {
    TailInOrder(s);
    HeadInOrder(s[0], p);
    assert forall y | y in p :: y in Items(p) && y in Items(s[1..]);
    assert s == [s[0]] + s[1..];
  }

  lemma {:induction false} KeepIsPart(env: Env, reading: Reading, e: Expr, s: seq<Item>, k: nat, once: bool)
    requires Valid(env.d) && k <= |s|
    ensures PartOf(Keep(env, reading, e, s, k, once), s[k..])
    decreases |s| - k
  {
    hide AsNum, AsBool;
    if k < |s| {
      KeepIsPart(env, reading, e, s, k + 1, once);
      assert s[k..][1..] == s[k + 1..] && s[k..][0] == s[k];
      PartHead(Keep(env, reading, e, s, k + 1, once), s[k..]);
      PartHead([], s[k..]);
      assert [s[k]] + [] == [s[k]];
    }
  }

  lemma {:induction false} KeepOnce(env: Env, reading: Reading, e: Expr, s: seq<Item>, k: nat)
    requires Valid(env.d) && k <= |s|
    ensures Keep(env, reading, e, s, k, true) == Limit(Keep(env, reading, e, s, k, false), true)
    decreases |s| - k
  {
    hide AsNum, AsBool;
    if k < |s| { KeepOnce(env, reading, e, s, k + 1); }
  }

  lemma FullPredicate(env: Env, test: PredicateTest, e: Expr, s: seq<Item>)
    requires Valid(env.d)
    ensures ApplyPredicate(env, Full, test, e, s, false) == Keep(env, Full, e, s, 0, false)
    ensures PartOf(Keep(env, Full, e, s, 0, false), s)
  {
    assert s[0..] == s;
    KeepIsPart(env, Full, e, s, 0, false);
  }

  lemma {:induction false} FullPredicatesArePart(env: Env, preds: Predicates, s: seq<Item>)
    requires Valid(env.d)
    ensures PartOf(ApplyPredicates(env, Full, preds, s, false), s)
    decreases preds
  {
    if preds.Pred? {
      FullPredicate(env, preds.test, preds.right, s);
      FullPredicatesArePart(env, preds.next, Keep(env, Full, preds.right, s, 0, false));
    }
  }

  // ---------------------------------------------------------------- position independence

  /** A node-set expression does not see the position and size of its context. */
  lemma {:induction false} NodesIndependent(env: Env, reading: Reading, e: Expr, c: Context, d: Context, mode: Mode)
    requires Valid(env.d) && c.item == d.item
    ensures Nodes(env, reading, e, c, mode) == Nodes(env, reading, e, d, mode)
    decreases e
  {
    match e
    case Union(l, r) =>
      NodesIndependent(env, reading, l, c, d, if !reading.Program? then All else mode);
      NodesIndependent(env, reading, r, c, d, if !reading.Program? then All else mode);
    case Filter(l, test, _) =>
      NodesIndependent(env, reading, l, c, d, if reading.Program? && test.ConstantOne? then First else All);
    case Step(start, _, _, _) =>
      if start.From? { NodesIndependent(env, reading, start.left, c, d, All); }
    case _ =>
  }

  lemma {:induction false} PosInvText(env: Env, reading: Reading, e: Expr, c: Context, d: Context)
    requires Valid(env.d) && c.item == d.item && PosInvExpr(e)
    ensures AsText(env, reading, e, c) == AsText(env, reading, e, d)
    ensures AsBool(env, reading, e, c) == AsBool(env, reading, e, d)
    ensures AsNum(env, reading, e, c) == AsNum(env, reading, e, d)
    ensures forall m: Mode {:trigger AsOperand(env, reading, e, c, m)} {:trigger AsOperand(env, reading, e, d, m)} ::
              AsOperand(env, reading, e, c, m) == AsOperand(env, reading, e, d, m)
    decreases e, 1
  {
    hide Nodes, Native;
    if TypeOf(e).NodeSetType? {
      forall m: Mode ensures Nodes(env, reading, e, c, m) == Nodes(env, reading, e, d, m) {
        NodesIndependent(env, reading, e, c, d, m);
      }
      assert Nodes(env, reading, e, c, First) == Nodes(env, reading, e, d, First);
      assert Nodes(env, reading, e, c, Any) == Nodes(env, reading, e, d, Any);
    } else {
      PosInvNative(env, reading, e, c, d);
    }
  }

  /** `is_posinv_expr` is right: the value depends on the context node alone. */
  lemma {:induction false} PosInvNative(env: Env, reading: Reading, e: Expr, c: Context, d: Context)
    requires Valid(env.d) && c.item == d.item && PosInvExpr(e)
    ensures Native(env, reading, e, c) == Native(env, reading, e, d)
    decreases e, 0
  {
    hide Nodes, AsText, AsBool, AsNum, AsOperand, Compares, TranslateText, ByTable, AttributeEquals;
    match e
    case Or(l, r) => PosInvText(env, reading, l, c, d); PosInvText(env, reading, r, c, d);
    case And(l, r) => PosInvText(env, reading, l, c, d); PosInvText(env, reading, r, c, d);
    case Compare(_, l, r) => PosInvText(env, reading, l, c, d); PosInvText(env, reading, r, c, d);
    case Count(l) => NodesIndependent(env, reading, l, c, d, All);
    case Call(f, args) => PosInvValues(env, reading, f, args, 0, c, d);
    case Translate(l, from, to) =>
      PosInvText(env, reading, l, c, d); PosInvText(env, reading, from, c, d); PosInvText(env, reading, to, c, d);
    case TranslateTable(l, _) => PosInvText(env, reading, l, c, d);
    case CompareAttribute(_, r) => PosInvText(env, reading, r, c, d);
    case _ =>
  }

  lemma {:induction false} PosInvValues(env: Env, reading: Reading, f: Function, args: Arguments, k: nat, c: Context, d: Context)
    requires Valid(env.d) && c.item == d.item && PosInvArguments(args)
    ensures ArgumentValues(env, reading, f, args, k, c) == ArgumentValues(env, reading, f, args, k, d)
    decreases args, 0
  {
    hide Nodes, AsText, AsBool, AsNum;
    if args.Arg? {
      PosInvText(env, reading, args.e, c, d);
      NodesIndependent(env, reading, args.e, c, d, First);
      NodesIndependent(env, reading, args.e, c, d, All);
      PosInvValues(env, reading, f, args.next, k + 1, c, d);
    }
  }

  // ---------------------------------------------------------------- classified predicates

  /** A constant predicate is a number that depends on the size of the context alone. */
  lemma ConstantNumber(env: Env, test: PredicateTest, e: Expr, c: Context, d: Context)
    requires Valid(env.d) && Honest(test, e) && (test.Constant? || test.ConstantOne?) && c.size == d.size
    ensures TypeOf(e).NumberType? && AsNum(env, Full, e, c) == AsNum(env, Program, e, d)
    ensures test.ConstantOne? ==> AsNum(env, Program, e, d) == Fin(1.0)
  {
  }

  /** The node whose number, from `k` on, is `n`. */
  function PickFrom(n: Number, s: seq<Item>, k: nat): seq<Item>
    requires k <= |s|
    decreases |s| - k
  {
    if k == |s| then [] else if n == Fin((k + 1) as real) then [s[k]] else PickFrom(n, s, k + 1)
  }

  lemma {:induction false} PickedAlready(v: real, s: seq<Item>, k: nat)
    requires k <= |s| && v <= k as real
    ensures PickFrom(Fin(v), s, k) == []
    decreases |s| - k
  {
    if k < |s| { PickedAlready(v, s, k + 1); }
  }

  lemma {:induction false} PickIsPick(n: Number, s: seq<Item>, k: nat)
    requires k <= |s| && (n.Fin? ==> n.v > k as real)
    ensures PickFrom(n, s, k) == PickConstant(n, s)
    decreases |s| - k
  {
    if k < |s| {
      if n == Fin((k + 1) as real) {
        assert ((k + 1) as real).Floor == k + 1;
      } else {
        assert n.Fin? && n.v == n.v.Floor as real ==> n.v > (k + 1) as real;
        if n.Fin? && n.v <= (k + 1) as real { PickedAlready(n.v, s, k + 1); } else { PickIsPick(n, s, k + 1); }
      }
    }
  }

  lemma {:induction false} KeepConstant(env: Env, test: PredicateTest, e: Expr, s: seq<Item>, k: nat, n: Number)
    requires Valid(env.d) && Honest(test, e) && (test.Constant? || test.ConstantOne?) && k <= |s|
    requires n == AsNum(env, Program, e, Context(NOWHERE, 1, |s|))
    ensures Keep(env, Full, e, s, k, false) == PickFrom(n, s, k)
    decreases |s| - k
  {
    hide AsNum, AsBool, Honest;
    if k < |s| {
      ConstantNumber(env, test, e, Context(s[k], k + 1, |s|), Context(NOWHERE, 1, |s|));
      KeepConstant(env, test, e, s, k + 1, n);
      if n == Fin((k + 1) as real) { PickedAlready(n.v, s, k + 1); }
    }
  }

  /** A constant predicate picks the node of its number, and nothing for any other value. */
  lemma ConstantPicks(env: Env, test: PredicateTest, e: Expr, s: seq<Item>)
    requires Valid(env.d) && Honest(test, e) && (test.Constant? || test.ConstantOne?)
    ensures PickConstant(AsNum(env, Program, e, Context(NOWHERE, 1, |s|)), s) == Keep(env, Full, e, s, 0, false)
  {
    hide AsNum, AsBool, Honest;
    var n := AsNum(env, Program, e, Context(NOWHERE, 1, |s|));
    KeepConstant(env, test, e, s, 0, n);
    if n.Fin? && n.v <= 0.0 { PickedAlready(n.v, s, 0); } else { PickIsPick(n, s, 0); }
  }

  // ---------------------------------------------------------------- steps

  /** The item a node of the child, attribute or self axis was reached from. */
  function Owner(d: Doc, a: Axis, y: Item): Item
    requires Valid(d) && HasItem(d, y)
  {
    match a
    case Child => Item(d.parent[y.node], NONE)
    case AttributeAxis => Item(y.node, NONE)
    case _ => y
  }

  predicate Owned(a: Axis) { a.Child? || a.AttributeAxis? || a.Self? }

  /** What a step selects from one node. */
  lemma StepItemsFacts(d: Doc, a: Axis, t: NodeTest, i: Item)
    requires Valid(d) && Somewhere(d, i)
    ensures AllThere(d, StepItems(d, a, t, i)) && NoRepeats(StepItems(d, a, t, i))
    ensures if IsReverse(a) then InReverse(StepItems(d, a, t, i)) else InOrder(StepItems(d, a, t, i))
    ensures forall y {:trigger y in StepItems(d, a, t, i)} ::
              y in StepItems(d, a, t, i) ==> HasItem(d, i) && HasItem(d, y) && Selected(d, a, i, t, y)
  {
    hide Linked, InAxis, Passes, PassesAttribute, AxisItems;
    if HasItem(d, i) {
      AxisInOrder(d, a, i, t);
      var s := AxisItems(d, a, i, t);
      OrderGivesNoRepeats(s);
      assert forall k | 0 <= k < |s| :: s[k] in s && Selected(d, a, i, t, s[k]);
    }
  }

  lemma StepOwners(d: Doc, a: Axis, t: NodeTest, i: Item)
    requires Valid(d) && Somewhere(d, i) && Owned(a)
    ensures forall y {:trigger y in StepItems(d, a, t, i)} ::
              y in StepItems(d, a, t, i) ==> HasItem(d, y) && Owner(d, a, y) == i
  {
    hide Linked, Passes, PassesAttribute, AxisItems, StepItems;
    StepItemsFacts(d, a, t, i);
  }

  lemma SelfSelectsItself(d: Doc, t: NodeTest, i: Item)
    requires Valid(d) && Somewhere(d, i)
    ensures StepItems(d, Self, t, i) == [] || StepItems(d, Self, t, i) == [i]
  {
    hide StepItems, Linked;
    StepItemsFacts(d, Self, t, i);
    StepOwners(d, Self, t, i);
    var s := StepItems(d, Self, t, i);
    assert forall k | 0 <= k < |s| :: s[k] in s;
    SelfIsItself(s, i);
  }

  lemma NamespaceAxisIsEmpty(d: Doc, t: NodeTest, i: Item)
    requires Valid(d) && Somewhere(d, i)
    ensures StepItems(d, NamespaceAxis, t, i) == []
  {
    hide StepItems, Linked;
    StepItemsFacts(d, NamespaceAxis, t, i);
    var s := StepItems(d, NamespaceAxis, t, i);
    if s != [] { TailInOrder(s); }
  }

  lemma SelfIsItself(s: seq<Item>, i: Item)
    requires NoRepeats(s) && forall k | 0 <= k < |s| :: s[k] == i
    ensures s == [] || s == [i]
  {
    SizeOfItems(s);
    assert Items(s) <= {i};
    if s != [] { TailInOrder(s); SizeOfItems(s[1..]); }
  }

  // ---------------------------------------------------------------- one node of a step

  /** What the step means from node `i`. */
  function Segment(env: Env, step: Expr, i: Item): seq<Item>
    requires Valid(env.d) && step.Step?
  {
    ApplyPredicates(env, Full, step.preds, StepItems(env.d, step.axis, step.nodeTest, i), false)
  }

  /** What the program computes from node `i`, when the set so far is ordered as `order`. */
  function RawSegment(env: Env, step: Expr, i: Item, order: Order, mode: Mode): seq<Item>
    requires Valid(env.d) && step.Step?
  {
    var found := Limit(StepItems(env.d, step.axis, step.nodeTest, i), StepOnce(step, mode));
    ApplyPredicates(env, Program, step.preds, found, EvalOnce(order, mode))
  }

  lemma SegmentFacts(env: Env, step: Expr, i: Item)
    requires Valid(env.d) && step.Step? && Somewhere(env.d, i)
    ensures var a := Segment(env, step, i);
            && AllThere(env.d, a) && NoRepeats(a)
            && (if IsReverse(step.axis) then InReverse(a) else InOrder(a))
            && (Owned(step.axis) ==> forall y {:trigger y in a} :: y in a ==> HasItem(env.d, y) && Owner(env.d, step.axis, y) == i)
            && (step.axis.Self? ==> a == [] || a == [i])
            && (step.axis.NamespaceAxis? ==> a == [])
  {
    hide Linked, Selected, StepItems, InOrder, InReverse, NoRepeats, Owner, ApplyPredicates;
    var s, a := StepItems(env.d, step.axis, step.nodeTest, i), Segment(env, step, i);
    StepItemsFacts(env.d, step.axis, step.nodeTest, i);
    FullPredicatesArePart(env, step.preds, s);
    assert forall y | y in a :: y in Items(a) && y in Items(s);
    assert forall k | 0 <= k < |a| :: a[k] in a && a[k] in s;
    if Owned(step.axis) { StepOwners(env.d, step.axis, step.nodeTest, i); }
    if step.axis.NamespaceAxis? { NamespaceAxisIsEmpty(env.d, step.nodeTest, i); }
    if step.axis.Self? { SelfSegment(a, s, i); SelfSelectsItself(env.d, step.nodeTest, i); }
    assert a == [] || a[0] in a;
  }

  lemma SelfSegment(a: seq<Item>, s: seq<Item>, i: Item)
    requires PartOf(a, s) && NoRepeats(s)
    ensures s == [] || s == [i] ==> a == [] || a == [i]
  {
    if s == [] || s == [i] {
      assert forall k | 0 <= k < |a| :: a[k] in Items(a) && a[k] in Items(s);
      SelfIsItself(a, i);
    }
  }

  /** The program's segment is the meant one, or its first node where the mode allows it. */
  predicate Cut(a: seq<Item>, p: seq<Item>, axis: Axis, mode: Mode) {
    || p == a
    || (p == Limit(a, true) && (mode.Any? || (mode.First? && !IsReverse(axis) && !axis.Self?)))
  }

  /** The loop of a step over the first `n` nodes of `s`, against the set it means. */
  ghost predicate LoopStands(env: Env, step: Expr, s: Raw, n: nat, mode: Mode)
    requires Valid(env.d) && step.Step? && n <= |s.nodes|
  {
    var r, all := StepLoop(env, step, s, n, mode), StepSet(env, Full, step, s.nodes, n);
    && Within(env.d, all)
    && AllThere(env.d, r.nodes)
    && Items(r.nodes) <= all
    && (mode.All? ==> all <= Items(r.nodes))
    && (all != {} ==> r.nodes != [])
    && (mode.First? ==> forall y | y in all :: Reached(r.nodes, y))
  }

  /** Order and distinctness of the nodes collected so far. */
  ghost predicate LoopOrdered(env: Env, step: Expr, s: Raw, n: nat, mode: Mode)
    requires Valid(env.d) && step.Step? && n <= |s.nodes|
  {
    var r := StepLoop(env, step, s, n, mode);
    && AllThere(env.d, r.nodes)
    && (if step.axis.Self? then r.order == s.order && PartOf(r.nodes, s.nodes[..n])
        else (r.order == AxisOrder(step.axis) && (if IsReverse(step.axis) then InReverse(r.nodes) else InOrder(r.nodes)))
             || r.order.Unsorted?)
    && (Owned(step.axis) ==>
          NoRepeats(r.nodes) && forall y | y in r.nodes :: HasItem(env.d, y) && Owner(env.d, step.axis, y) in s.nodes[..n])
  }

  lemma ReachedGrows(a: seq<Item>, b: seq<Item>, y: Item)
    ensures Reached(a, y) ==> Reached(a + b, y)
    ensures Reached(b, y) ==> Reached(a + b, y)
  {
    if k :| 0 <= k < |a| && (a[k] == y || Before(a[k], y)) { assert (a + b)[k] == a[k]; }
    if k :| 0 <= k < |b| && (b[k] == y || Before(b[k], y)) { assert (a + b)[|a| + k] == b[k]; }
  }

  lemma CutFacts(a: seq<Item>, p: seq<Item>, axis: Axis, mode: Mode)
    requires Cut(a, p, axis, mode) && NoRepeats(a) && (if IsReverse(axis) then InReverse(a) else InOrder(a))
    ensures Items(p) <= Items(a) && NoRepeats(p) && (mode.All? ==> p == a) && (a != [] ==> p != [])
    ensures if IsReverse(axis) then InReverse(p) else InOrder(p)
    ensures forall k | 0 <= k < |p| :: p[k] in a
    ensures |a| <= 1 ==> p == a
    ensures mode.First? ==> forall y | y in a :: Reached(p, y)
  {
    assert forall k | 0 <= k < |p| :: p[k] == a[k];
    if mode.First? {
      forall y | y in a ensures Reached(p, y) {
        var k :| 0 <= k < |a| && a[k] == y;
        if p == a { assert p[k] == y; } else { assert p[0] == a[0]; }
      }
    }
  }

  lemma LoopStandsStep(env: Env, step: Expr, s: Raw, n: nat, mode: Mode)
    requires Valid(env.d) && step.Step? && 0 < n <= |s.nodes| && Somewhere(env.d, s.nodes[n - 1])
    requires LoopStands(env, step, s, n - 1, mode)
    requires var r := StepLoop(env, step, s, n - 1, mode);
             var order := if !step.axis.Self? && r.nodes != [] then Unsorted else r.order;
             Cut(Segment(env, step, s.nodes[n - 1]), RawSegment(env, step, s.nodes[n - 1], order, mode), step.axis, mode)
    ensures LoopStands(env, step, s, n, mode)
  {
    hide Linked, ApplyPredicates, StepItems, Cut, EvalOnce, StepOnce, InOrder, InReverse, NoRepeats, Reached, Owner, Limit;
    var i := s.nodes[n - 1];
    var r := StepLoop(env, step, s, n - 1, mode);
    var order := if !step.axis.Self? && r.nodes != [] then Unsorted else r.order;
    var a, p := Segment(env, step, i), RawSegment(env, step, i, order, mode);
    SegmentFacts(env, step, i);
    CutFacts(a, p, step.axis, mode);
    Concatenated(r.nodes, p);
    assert forall y | y in Items(a) :: y in a;
    forall y | mode.First? && y in StepSet(env, Full, step, s.nodes, n) ensures Reached(r.nodes + p, y) {
      ReachedGrows(r.nodes, p, y);
    }
    assert a != [] || Items(a) == {};
  }

  lemma LoopOrderedStep(env: Env, step: Expr, s: Raw, n: nat, mode: Mode)
    requires Valid(env.d) && step.Step? && 0 < n <= |s.nodes| && Somewhere(env.d, s.nodes[n - 1]) && NoRepeats(s.nodes)
    requires LoopOrdered(env, step, s, n - 1, mode)
    requires var r := StepLoop(env, step, s, n - 1, mode);
             var order := if !step.axis.Self? && r.nodes != [] then Unsorted else r.order;
             Cut(Segment(env, step, s.nodes[n - 1]), RawSegment(env, step, s.nodes[n - 1], order, mode), step.axis, mode)
    ensures LoopOrdered(env, step, s, n, mode)
  {
    hide Linked, ApplyPredicates, StepItems, Cut, EvalOnce, StepOnce, InOrder, InReverse, NoRepeats, Owner, Limit, StepSet, PartOf, HasItem;
    var i := s.nodes[n - 1];
    var r := StepLoop(env, step, s, n - 1, mode);
    var order := if !step.axis.Self? && r.nodes != [] then Unsorted else r.order;
    var a, p := Segment(env, step, i), RawSegment(env, step, i, order, mode);
    SegmentFacts(env, step, i);
    CutFacts(a, p, step.axis, mode);
    assert s.nodes[..n] == s.nodes[..n - 1] + [i];
    if step.axis.Self? { PartSnoc(r.nodes, s.nodes[..n - 1], i, p); }
    if Owned(step.axis) { OwnersApart(env.d, step.axis, r.nodes, p, s.nodes, n); }
    assert r.nodes == [] ==> r.nodes + p == p;
  }

  /** Nodes owned by different items are different. */
  lemma OwnersApart(d: Doc, axis: Axis, r: seq<Item>, p: seq<Item>, s: seq<Item>, n: nat)
    requires Valid(d) && 0 < n <= |s| && NoRepeats(s) && NoRepeats(r) && NoRepeats(p)
    requires forall y | y in r :: HasItem(d, y) && Owner(d, axis, y) in s[..n - 1]
    requires forall y | y in p :: HasItem(d, y) && Owner(d, axis, y) == s[n - 1]
    ensures NoRepeats(r + p) && forall y | y in r + p :: HasItem(d, y) && Owner(d, axis, y) in s[..n]
  {
    hide Linked, InOrder, InReverse, Owner, HasItem;
    assert s[..n] == s[..n - 1] + [s[n - 1]];
    assert s[n - 1] !in s[..n - 1];
    assert forall y | y in r :: y in Items(r);
    assert Items(r) !! Items(p);
    Concatenated(r, p);
  }

  lemma PartSnoc(r: seq<Item>, s: seq<Item>, i: Item, p: seq<Item>)
    requires PartOf(r, s) && (p == [] || p == [i])
    ensures PartOf(r + p, s + [i])
  {
    Concatenated(s, [i]);
    Concatenated(r, p);
    var t := s + [i];
    assert forall k | 0 <= k < |s| :: t[k] == s[k];
    assert InOrder(t) ==> InOrder(s) && forall k | 0 <= k < |s| :: Before(t[k], t[|s|]);
    assert InReverse(t) ==> InReverse(s) && forall k | 0 <= k < |s| :: Before(t[|s|], t[k]);
    assert NoRepeats(t) ==> NoRepeats(s) && i !in s by {
      assert t[|s|] == i;
    }
    assert forall y | y in r :: y in Items(r) && y in Items(s) && exists k | 0 <= k < |s| :: t[k] == y;
    OneMore(r, i);
    assert r + [] == r;
  }

  // ---------------------------------------------------------------- a whole step

  /** What a step needs of the nodes it starts from. */
  predicate Starts(d: Doc, step: Expr, s: Raw)
    requires Valid(d) && step.Step?
  {
    && (forall k | 0 <= k < |s.nodes| :: Somewhere(d, s.nodes[k]))
    && NoRepeats(s.nodes)
    && (if step.axis.Self?
        then (s.order.Sorted? ==> InOrder(s.nodes)) && (s.order.Reversed? ==> InReverse(s.nodes))
        else s.order == AxisOrder(step.axis))
  }

  /** After the loop, with the duplicates of an unordered result removed, the raw set stands for the set the
      step means. */
  lemma LoopResult(env: Env, step: Expr, s: Raw, mode: Mode)
    requires Good(env) && step.Step? && Starts(env.d, step, s)
    requires LoopStands(env, step, s, |s.nodes|, mode) && LoopOrdered(env, step, s, |s.nodes|, mode)
    ensures Stands(env.d, StepSet(env, Full, step, s.nodes, |s.nodes|), StepDo(env, step, s, mode), mode)
  {
    hide Linked, ApplyPredicates, StepItems, EvalOnce, StepOnce, InOrder, InReverse, NoRepeats, Reached, Owner, StepSet, StepLoop, Fits;
    var r := StepLoop(env, step, s, |s.nodes|, mode);
    var all := StepSet(env, Full, step, s.nodes, |s.nodes|);
    assert s.nodes[..|s.nodes|] == s.nodes;
    OrderGivesNoRepeats(r.nodes);
    if !Owned(step.axis) && r.order.Unsorted? {
      Deduped(env, all, r.nodes, mode);
    }
  }

  lemma Deduped(env: Env, all: set<Item>, nodes: seq<Item>, mode: Mode)
    requires Good(env) && Within(env.d, all) && Items(nodes) <= all
    requires mode.All? ==> all <= Items(nodes)
    requires all != {} ==> nodes != []
    requires mode.First? ==> forall y | y in all :: Reached(nodes, y)
    ensures Stands(env.d, all, Raw(env.dedupe(nodes), Unsorted), mode)
  {
    hide Linked, Fits, InOrder, InReverse, Valid, HasItem;
    var t := env.dedupe(nodes);
    assert Items(t) == Items(nodes) && NoRepeats(t);
    assert forall k | 0 <= k < |t| :: t[k] in Items(t);
    assert nodes != [] ==> nodes[0] in Items(nodes);
    assert t == [] ==> Items(t) == {};
    if mode.First? {
      forall y | y in all ensures Reached(t, y) {
        var k :| 0 <= k < |nodes| && (nodes[k] == y || Before(nodes[k], y));
        assert nodes[k] in Items(nodes) && nodes[k] in Items(t);
        var j :| 0 <= j < |t| && t[j] == nodes[k];
      }
    }
  }

  // ---------------------------------------------------------------- the agreement

  lemma FullIgnoresMode(env: Env, e: Expr, c: Context, mode: Mode)
    requires Valid(env.d)
    ensures Nodes(env, Full, e, c, mode) == Nodes(env, Full, e, c, All)
  {
  }

  /** The full value of a node-set expression is a listing of a set `s`, and the program's one stands for it. */
  predicate Agrees(env: Env, e: Expr, c: Context, mode: Mode)
    requires Valid(env.d)
  {
    var ns := Nodes(env, Full, e, c, All);
    && Within(env.d, Items(ns.nodes))
    && ns == Raw(Listing(env.d, Items(ns.nodes)), Sorted)
    && Stands(env.d, Items(ns.nodes), Nodes(env, Program, e, c, mode), mode)
  }

  lemma AgreeKeep(env: Env, e: Expr, s: seq<Item>, k: nat)
    requires Good(env) && Formed(e) && AllThere(env.d, s) && k <= |s|
    ensures Keep(env, Full, e, s, k, false) == Keep(env, Program, e, s, k, false)
    decreases e, 4, |s| - k
  {
    hide AsBool, AsNum, GoodLibrary, Linked;
    if k < |s| {
      AgreeValues(env, e, Context(s[k], k + 1, |s|));
      AgreeKeep(env, e, s, k + 1);
    }
  }

  lemma AgreePredicate(env: Env, test: PredicateTest, e: Expr, s: seq<Item>, once: bool)
    requires Good(env) && Formed(e) && Honest(test, e) && AllThere(env.d, s)
    ensures ApplyPredicate(env, Program, test, e, s, once) == Limit(Keep(env, Full, e, s, 0, false), once)
    decreases e, 5
  {
    hide AsBool, AsNum, GoodLibrary, Linked;
    if test.Constant? || test.ConstantOne? {
      ConstantPicks(env, test, e, s);
    } else {
      AgreeKeep(env, e, s, 0);
      KeepOnce(env, Program, e, s, 0);
    }
  }

  lemma AgreePredicates(env: Env, preds: Predicates, s: seq<Item>, lastOnce: bool)
    requires Good(env) && FormedPredicates(preds) && AllThere(env.d, s)
    ensures ApplyPredicates(env, Program, preds, s, lastOnce)
         == Limit(ApplyPredicates(env, Full, preds, s, false), lastOnce && preds.Pred?)
    decreases preds, 0
  {
    hide Keep, GoodLibrary, Linked, Honest;
    if preds.Pred? {
      AgreePredicate(env, preds.test, preds.right, s, preds.next.NoMore? && lastOnce);
      FullPredicate(env, preds.test, preds.right, s);
      var t := Keep(env, Full, preds.right, s, 0, false);
      assert forall k | 0 <= k < |t| :: t[k] in Items(t) && t[k] in Items(s);
      AgreePredicates(env, preds.next, t, lastOnce);
    }
  }

  lemma AgreeSegment(env: Env, step: Expr, i: Item, order: Order, mode: Mode)
    requires Good(env) && step.Step? && FormedPredicates(step.preds) && Somewhere(env.d, i)
    requires step.axis.Self? || order == AxisOrder(step.axis) || order.Unsorted?
    ensures Cut(Segment(env, step, i), RawSegment(env, step, i, order, mode), step.axis, mode)
    decreases step.preds, 1
  {
    hide GoodLibrary, Linked, StepItems, InOrder, InReverse, NoRepeats, Owner, ApplyPredicate, Keep;
    var s := StepItems(env.d, step.axis, step.nodeTest, i);
    StepItemsFacts(env.d, step.axis, step.nodeTest, i);
    SegmentFacts(env, step, i);
    if step.preds.Pred? && step.preds.next.NoMore? && step.preds.test.ConstantOne? {
      FirstOnly(env, step, s, order, mode);
    } else {
      if step.axis.AttributeAxis? && step.nodeTest.TestName? { AttributeByName(env.d, step, i); }
      var a := Segment(env, step, i);
      if step.preds.NoMore? {
        assert a == s && RawSegment(env, step, i, order, mode) == Limit(s, StepOnce(step, mode));
      } else {
        AgreePredicates(env, step.preds, s, EvalOnce(order, mode));
        assert Limit(s, StepOnce(step, mode)) == s;
        assert RawSegment(env, step, i, order, mode) == Limit(a, EvalOnce(order, mode));
      }
      assert |a| <= 1 ==> Limit(a, true) == a;
    }
  }

  lemma AttributeByName(d: Doc, step: Expr, i: Item)
    requires Valid(d) && step.Step? && step.axis.AttributeAxis? && step.nodeTest.TestName?
    ensures |StepItems(d, step.axis, step.nodeTest, i)| <= 1
  {
  }

  /** With a single predicate `[1]` the walk may stop at the first node. */
  lemma FirstOnly(env: Env, step: Expr, s: seq<Item>, order: Order, mode: Mode)
    requires Good(env) && step.Step? && FormedPredicates(step.preds) && AllThere(env.d, s)
    requires step.preds.Pred? && step.preds.next.NoMore? && step.preds.test.ConstantOne?
    ensures ApplyPredicates(env, Program, step.preds, Limit(s, StepOnce(step, mode)), EvalOnce(order, mode))
         == ApplyPredicates(env, Full, step.preds, s, false)
  {
    hide GoodLibrary, Linked, AsNum, AsBool;
    var e, t := step.preds.right, Limit(s, true);
    ConstantPicks(env, ConstantOne, e, s);
    ConstantPicks(env, ConstantOne, e, t);
    ConstantNumber(env, ConstantOne, e, Context(NOWHERE, 1, |s|), Context(NOWHERE, 1, |s|));
    ConstantNumber(env, ConstantOne, e, Context(NOWHERE, 1, |t|), Context(NOWHERE, 1, |t|));
    FullPredicate(env, ConstantOne, e, s);
    assert (1.0 as real).Floor == 1;
  }

  lemma AgreeLoop(env: Env, step: Expr, s: Raw, n: nat, mode: Mode)
    requires Good(env) && step.Step? && FormedPredicates(step.preds) && Starts(env.d, step, s) && n <= |s.nodes|
    ensures LoopStands(env, step, s, n, mode) && LoopOrdered(env, step, s, n, mode)
    decreases step.preds, 2, n
  {
    hide GoodLibrary, Linked, Segment, RawSegment, Cut, FormedPredicates, Starts, LoopStands, LoopOrdered, StepLoop;
    if n > 0 {
      AgreeLoop(env, step, s, n - 1, mode);
      LoopNext(env, step, s, n, mode);
      var r := StepLoop(env, step, s, n - 1, mode);
      var order := if !step.axis.Self? && r.nodes != [] then Unsorted else r.order;
      AgreeSegment(env, step, s.nodes[n - 1], order, mode);
      LoopStandsStep(env, step, s, n, mode);
      LoopOrderedStep(env, step, s, n, mode);
    } else {
      LoopStart(env, step, s, mode);
    }
  }

  lemma LoopNext(env: Env, step: Expr, s: Raw, n: nat, mode: Mode)
    requires Valid(env.d) && step.Step? && Starts(env.d, step, s) && 0 < n <= |s.nodes|
    requires LoopOrdered(env, step, s, n - 1, mode)
    ensures Somewhere(env.d, s.nodes[n - 1]) && NoRepeats(s.nodes)
    ensures step.axis.Self? || StepLoop(env, step, s, n - 1, mode).order == AxisOrder(step.axis)
            || StepLoop(env, step, s, n - 1, mode).order.Unsorted?
  {
  }

  lemma LoopStart(env: Env, step: Expr, s: Raw, mode: Mode)
    requires Valid(env.d) && step.Step? && Starts(env.d, step, s)
    ensures LoopStands(env, step, s, 0, mode) && LoopOrdered(env, step, s, 0, mode)
  {
  }

  // ---------------------------------------------------------------- node-set expressions

  /** Cutting a full set at its first node where that is allowed. */
  lemma CutStands(d: Doc, r: Raw, mode: Mode)
    requires Valid(d) && Proper(d, r)
    ensures Stands(d, Items(r.nodes), Raw(Limit(r.nodes, EvalOnce(r.order, mode)), r.order), mode)
  {
    hide Linked, HasItem;
    var t := Limit(r.nodes, EvalOnce(r.order, mode));
    assert forall k | 0 <= k < |t| :: t[k] == r.nodes[k] && t[k] in Items(r.nodes);
    assert t == r.nodes || (mode.First? ==> r.order.Sorted?);
    if mode.First? {
      forall y | y in Items(r.nodes) ensures Reached(t, y) {
        var k :| 0 <= k < |r.nodes| && r.nodes[k] == y;
        assert if t == r.nodes then t[k] == y else t[0] == r.nodes[0];
      }
    }
  }

  lemma FullStands(d: Doc, r: Raw, mode: Mode)
    requires Valid(d) && Proper(d, r)
    ensures Stands(d, Items(r.nodes), r, mode)
  {
    hide Linked, HasItem;
    forall y | y in Items(r.nodes) ensures Reached(r.nodes, y) {
      var k :| 0 <= k < |r.nodes| && r.nodes[k] == y;
    }
  }

  /** An ordered sequence of nodes of the document is the listing of its contents. */
  lemma OrderedIsListing(d: Doc, s: seq<Item>)
    requires Valid(d) && InOrder(s) && AllThere(d, s)
    ensures Within(d, Items(s)) && s == Listing(d, Items(s))
  {
    hide Linked, HasItem;
    ListingIsSet(d, Items(s));
    OrderedListingUnique(s, Listing(d, Items(s)));
  }

  lemma AgreeUnion(env: Env, e: Expr, c: Context, mode: Mode)
    requires Good(env) && e.Union? && Agrees(env, e.left, c, mode) && Agrees(env, e.right, c, mode)
    ensures Agrees(env, e, c, mode)
  {
    hide GoodLibrary, Linked, HasItem, InOrder, InReverse, NoRepeats, Reached;
    var s, t := Items(Nodes(env, Full, e.left, c, All).nodes), Items(Nodes(env, Full, e.right, c, All).nodes);
    var p, q := Nodes(env, Program, e.left, c, mode).nodes, Nodes(env, Program, e.right, c, mode).nodes;
    ListingIsSet(env.d, s + t);
    Concatenated(q, p);
    assert s + t != {} ==> q + p != [];
    forall y | mode.First? && y in s + t ensures Reached(q + p, y) { ReachedGrows(q, p, y); }
    Deduped(env, s + t, q + p, mode);
  }

  /** With a predicate that does not see positions, filtering is taking a subset. */
  lemma {:induction false} KeepMembers(env: Env, e: Expr, s: seq<Item>, k: nat)
    requires Valid(env.d) && PosInvExpr(e) && !TypeOf(e).NumberType? && k <= |s|
    ensures forall y {:trigger y in Keep(env, Full, e, s, k, false)} ::
              y in Keep(env, Full, e, s, k, false) <==> y in s[k..] && AsBool(env, Full, e, Context(y, 1, 1))
    decreases |s| - k
  {
    hide AsNum, AsBool, PosInvExpr;
    if k < |s| {
      KeepMembers(env, e, s, k + 1);
      PosInvText(env, Full, e, Context(s[k], k + 1, |s|), Context(s[k], 1, 1));
      assert s[k..] == [s[k]] + s[k + 1..];
    }
  }

  lemma PosInvFilter(env: Env, e: Expr, s: seq<Item>, t: seq<Item>)
    requires Valid(env.d) && PosInvExpr(e) && !TypeOf(e).NumberType? && Items(s) == Items(t)
    ensures Items(Keep(env, Full, e, s, 0, false)) == Items(Keep(env, Full, e, t, 0, false))
  {
    hide Keep, AsBool;
    KeepMembers(env, e, s, 0);
    KeepMembers(env, e, t, 0);
    assert s[0..] == s && t[0..] == t;
    forall y ensures y in Keep(env, Full, e, s, 0, false) <==> y in Keep(env, Full, e, t, 0, false) {
      assert y in s <==> y in Items(s);
      assert y in t <==> y in Items(t);
    }
  }

  lemma PartIsProper(d: Doc, p: seq<Item>, r: Raw)
    requires Valid(d) && Proper(d, r) && PartOf(p, r.nodes)
    ensures Proper(d, Raw(p, r.order))
  {
    hide Linked, HasItem;
    assert forall k | 0 <= k < |p| :: p[k] in Items(p) && p[k] in Items(r.nodes);
  }

  lemma AgreeFilter(env: Env, e: Expr, c: Context, mode: Mode)
    requires Good(env) && e.Filter? && Formed(e) && Agrees(env, e.left, c, if e.test.ConstantOne? then First else All)
    ensures Agrees(env, e, c, mode)
    decreases e.right, 6
  {
    hide GoodLibrary, Linked, HasItem, InOrder, InReverse, NoRepeats, Reached, Keep, PosInvExpr, Listing, SortDo, PickConstant;
    var inner := if e.test.ConstantOne? then First else All;
    var all, ns := Nodes(env, Full, e.left, c, All).nodes, Nodes(env, Program, e.left, c, inner);
    var kept := Keep(env, Full, e.right, all, 0, false);
    ListingIsSet(env.d, Items(all));
    FullPredicate(env, e.test, e.right, all);
    PartIsProper(env.d, kept, Raw(all, Sorted));
    OrderedIsListing(env.d, kept);
    StandingSet(env.d, Items(all), ns, inner);
    SortDoIsListing(env.d, ns);
    ListingIsSet(env.d, Items(ns.nodes));
    if e.test.PosInv? {
      assert Items(ns.nodes) == Items(all);
      PosInvFilter(env, e.right, ns.nodes, all);
      AgreePredicate(env, e.test, e.right, ns.nodes, EvalOnce(ns.order, mode));
      FullPredicate(env, e.test, e.right, ns.nodes);
      PartIsProper(env.d, Keep(env, Full, e.right, ns.nodes, 0, false), ns);
      CutStands(env.d, Raw(Keep(env, Full, e.right, ns.nodes, 0, false), ns.order), mode);
    } else {
      var sorted := SortDo(env.d, ns);
      AgreePredicate(env, e.test, e.right, sorted.nodes, EvalOnce(Sorted, mode));
      if e.test.ConstantOne? {
        FirstOfBoth(env, e.right, all, sorted.nodes);
        assert Limit(kept, EvalOnce(Sorted, mode)) == kept;
      }
      CutStands(env.d, Raw(kept, Sorted), mode);
    }
  }

  /** `[1]` sees the first node only. */
  lemma FirstOfBoth(env: Env, e: Expr, s: seq<Item>, t: seq<Item>)
    requires Valid(env.d) && Honest(ConstantOne, e)
    requires (s == []) == (t == []) && (s != [] ==> s[0] == t[0])
    ensures Keep(env, Full, e, s, 0, false) == Keep(env, Full, e, t, 0, false)
    ensures |Keep(env, Full, e, s, 0, false)| <= 1
  {
    hide AsNum, Keep;
    ConstantPicks(env, ConstantOne, e, s);
    ConstantPicks(env, ConstantOne, e, t);
    ConstantNumber(env, ConstantOne, e, Context(NOWHERE, 1, |s|), Context(NOWHERE, 1, |s|));
    ConstantNumber(env, ConstantOne, e, Context(NOWHERE, 1, |t|), Context(NOWHERE, 1, |t|));
    assert (1.0 as real).Floor == 1;
  }

  lemma {:induction false} StepSetMembers(env: Env, step: Expr, s: seq<Item>, n: nat)
    requires Valid(env.d) && step.Step? && n <= |s|
    ensures forall y :: y in StepSet(env, Full, step, s, n) <==> exists k | 0 <= k < n :: y in Segment(env, step, s[k])
    decreases n
  {
    hide ApplyPredicates;
    if n > 0 {
      StepSetMembers(env, step, s, n - 1);
    }
  }

  /** The set a step means does not depend on the order of the nodes it starts from. */
  lemma StepSetUnordered(env: Env, step: Expr, s: seq<Item>, t: seq<Item>)
    requires Valid(env.d) && step.Step? && Items(s) == Items(t)
    ensures StepSet(env, Full, step, s, |s|) == StepSet(env, Full, step, t, |t|)
  {
    hide Segment, StepSet;
    StepSetMembers(env, step, s, |s|);
    StepSetMembers(env, step, t, |t|);
    assert forall k | 0 <= k < |s| :: s[k] in Items(s);
    assert forall k | 0 <= k < |t| :: t[k] in Items(t);
    forall y ensures y in StepSet(env, Full, step, s, |s|) <==> y in StepSet(env, Full, step, t, |t|) {
      if k :| 0 <= k < |s| && y in Segment(env, step, s[k]) { assert s[k] in Items(t); }
      if k :| 0 <= k < |t| && y in Segment(env, step, t[k]) { assert t[k] in Items(s); }
    }
  }

  lemma AgreeStep(env: Env, e: Expr, c: Context, mode: Mode)
    requires Good(env) && e.Step? && Formed(e) && Somewhere(env.d, c.item)
    requires e.start.From? ==> Agrees(env, e.start.left, c, All)
    ensures Agrees(env, e, c, mode)
    decreases e.preds, 3
  {
    hide GoodLibrary, Linked, HasItem, InOrder, InReverse, NoRepeats, Reached, Listing, StepSet, StepLoop, LoopStands, LoopOrdered;
    var starts := if e.start.From? then Nodes(env, Full, e.start.left, c, All).nodes else [c.item];
    var ns := if e.start.From? then Nodes(env, Program, e.start.left, c, All) else Raw([c.item], Sorted);
    var s := Raw(ns.nodes, if e.axis.Self? then ns.order else AxisOrder(e.axis));
    assert Items(starts) == Items(s.nodes);
    StepSetUnordered(env, e, starts, s.nodes);
    SingleStart(c.item);
    assert Starts(env.d, e, s);
    AgreeLoop(env, e, s, |s.nodes|, mode);
    LoopWithin(env, e, s, mode);
    LoopResult(env, e, s, mode);
    var all := StepSet(env, Full, e, starts, |starts|);
    ListingIsSet(env.d, all);
    if e.axis.NamespaceAxis? { NothingOnNamespaceAxis(env, e, s); }
  }

  lemma SingleStart(i: Item)
    ensures NoRepeats([i]) && InOrder([i])
  {
  }

  lemma LoopWithin(env: Env, step: Expr, s: Raw, mode: Mode)
    requires Valid(env.d) && step.Step? && LoopStands(env, step, s, |s.nodes|, mode)
    ensures Within(env.d, StepSet(env, Full, step, s.nodes, |s.nodes|))
  {
  }

  lemma NothingOnNamespaceAxis(env: Env, step: Expr, s: Raw)
    requires Valid(env.d) && step.Step? && step.axis.NamespaceAxis? && Starts(env.d, step, s)
    ensures StepSet(env, Full, step, s.nodes, |s.nodes|) == {}
    ensures NoRepeats([]) && forall m: Mode :: Stands(env.d, {}, Raw([], Unsorted), m)
  {
    hide Segment, StepSet, Linked;
    StepSetMembers(env, step, s.nodes, |s.nodes|);
    forall k | 0 <= k < |s.nodes| ensures Segment(env, step, s.nodes[k]) == [] { SegmentFacts(env, step, s.nodes[k]); }
  }

  /** The value of an expression that is no node set has its type. */
  lemma NativeFits(env: Env, reading: Reading, e: Expr, c: Context)
    requires Good(env) && !TypeOf(e).NodeSetType?
    ensures Fits(TypeOf(e), Native(env, reading, e, c))
  {
    hide Linked, AsText, AsBool, AsNum, AsOperand, Nodes, Compares, TranslateText, ByTable, AttributeEquals, ArgumentValues;
  }

  /** Every mode of a node-set expression stands for its full value. */
  lemma {:induction false} AgreeNodes(env: Env, e: Expr, c: Context, mode: Mode)
    requires Good(env) && Formed(e) && TypeOf(e).NodeSetType? && Somewhere(env.d, c.item)
    ensures Agrees(env, e, c, mode)
    decreases e, 0
  {
    hide GoodLibrary, Linked, Agrees;
    match e
    case Union(l, r) =>
      AgreeNodes(env, l, c, mode);
      AgreeNodes(env, r, c, mode);
      AgreeUnion(env, e, c, mode);
    case Filter(l, test, r) =>
      AgreeNodes(env, l, c, if test.ConstantOne? then First else All);
      AgreeFilter(env, e, c, mode);
    case Step(start, _, _, _) =>
      if start.From? { AgreeNodes(env, start.left, c, All); }
      AgreeStep(env, e, c, mode);
    case _ => AgreeLeaf(env, e, c, mode);
  }

  lemma AgreeLeaf(env: Env, e: Expr, c: Context, mode: Mode)
    requires Good(env) && Somewhere(env.d, c.item) && (e.Root? || e.Id? || (e.Variable? && e.ty.NodeSetType?))
    ensures Agrees(env, e, c, mode)
  {
    hide Linked, Listing, InOrder, InReverse, NoRepeats;
    match e
    case Variable(name, _) =>
      var r := env.setVar(name);
      assert Within(env.d, Items(r.nodes)) by { assert forall k | 0 <= k < |r.nodes| :: r.nodes[k] in r.nodes; }
      ListingIsSet(env.d, Items(r.nodes));
      FullStands(env.d, r, mode);
    case Root =>
      SingleStart(Item(0, NONE));
      EmptyListing();
      OrderedIsListing(env.d, RootOf(c.item));
      FullStands(env.d, Raw(RootOf(c.item), Sorted), mode);
    case Id(_) =>
      EmptyListing();
      OrderedIsListing(env.d, []);
      FullStands(env.d, Raw([], Unsorted), mode);
  }

  lemma EmptyListing()
    ensures NoRepeats([]) && InOrder([])
  {
  }

  lemma {:induction false} AgreeValues(env: Env, e: Expr, c: Context)
    requires Good(env) && Formed(e) && Somewhere(env.d, c.item)
    ensures AsBool(env, Full, e, c) == AsBool(env, Program, e, c)
    ensures AsText(env, Full, e, c) == AsText(env, Program, e, c)
    ensures AsNum(env, Full, e, c) == AsNum(env, Program, e, c)
    decreases e, 1
  {
    hide GoodLibrary, Linked, Nodes, Native, Stands, Listing, Formed;
    if TypeOf(e).NodeSetType? {
      forall m: Mode ensures Agrees(env, e, c, m) && Nodes(env, Full, e, c, m) == Nodes(env, Full, e, c, All) {
        AgreeNodes(env, e, c, m);
        FullIgnoresMode(env, e, c, m);
      }
      var s := Items(Nodes(env, Full, e, c, All).nodes);
      assert Agrees(env, e, c, Any) && Agrees(env, e, c, First);
      StandingSet(env.d, s, Nodes(env, Program, e, c, Any), Any);
      StandingSet(env.d, s, Nodes(env, Program, e, c, First), First);
      assert Nodes(env, Full, e, c, First) == Nodes(env, Full, e, c, All);
      assert Nodes(env, Full, e, c, Any) == Nodes(env, Full, e, c, All);
    } else {
      AgreeNative(env, e, c);
    }
  }

  /** An operand is the same, except that one only asked whether it is empty may be cut short. */
  lemma {:induction false} AgreeOperand(env: Env, e: Expr, c: Context, mode: Mode)
    requires Good(env) && Formed(e) && Somewhere(env.d, c.item) && !mode.First?
    ensures var o, p := AsOperand(env, Full, e, c, mode), AsOperand(env, Program, e, c, mode);
            o == p || (mode.Any? && o.Strings? && p.Strings? && (o.s == {}) == (p.s == {}))
    decreases e, 1
  {
    hide GoodLibrary, Linked, Nodes, Native, Listing, Formed;
    if TypeOf(e).NodeSetType? {
      AgreeNodes(env, e, c, mode);
      FullIgnoresMode(env, e, c, mode);
      var s, t := Nodes(env, Full, e, c, mode).nodes, Nodes(env, Program, e, c, mode).nodes;
      StringsOf(env, s, t);
      StandingSet(env.d, Items(s), Nodes(env, Program, e, c, mode), mode);
    } else {
      AgreeNative(env, e, c);
    }
  }

  lemma StringsOf(env: Env, s: seq<Item>, t: seq<Item>)
    ensures var p, q := (set k | 0 <= k < |s| :: env.stringValue(s[k])), (set k | 0 <= k < |t| :: env.stringValue(t[k]));
            (Items(s) == Items(t) ==> p == q) && (p == {}) == (s == []) && (q == {}) == (t == [])
  {
    var p, q := (set k | 0 <= k < |s| :: env.stringValue(s[k])), (set k | 0 <= k < |t| :: env.stringValue(t[k]));
    if s != [] { assert env.stringValue(s[0]) in p; }
    if t != [] { assert env.stringValue(t[0]) in q; }
    if Items(s) == Items(t) {
      forall x ensures x in p <==> x in q {
        if x in p { var k :| 0 <= k < |s| && env.stringValue(s[k]) == x; assert s[k] in Items(t); }
        if x in q { var k :| 0 <= k < |t| && env.stringValue(t[k]) == x; assert t[k] in Items(s); }
      }
    }
  }

  lemma {:induction false} AgreeArgument(env: Env, kind: ArgumentKind, e: Expr, c: Context)
    requires Good(env) && Formed(e) && Somewhere(env.d, c.item)
    requires kind.FirstNode? || kind.AllNodes? ==> TypeOf(e).NodeSetType?
    ensures ArgumentValue(env, Full, kind, e, c) == ArgumentValue(env, Program, kind, e, c)
    decreases e, 3
  {
    hide GoodLibrary, Linked, Nodes, AsText, AsBool, AsNum, Agrees, Formed, FirstOf;
    if kind.FirstNode? || kind.AllNodes? {
      AgreeNodes(env, e, c, First);
      AgreeNodes(env, e, c, All);
      FullIgnoresMode(env, e, c, First);
      SameArguments(env, e, c);
    } else {
      AgreeValues(env, e, c);
    }
  }

  lemma {:induction false} AgreeArguments(env: Env, f: Function, args: Arguments, k: nat, c: Context)
    requires Good(env) && FormedArguments(f, args, k) && Somewhere(env.d, c.item)
    ensures ArgumentValues(env, Full, f, args, k, c) == ArgumentValues(env, Program, f, args, k, c)
    decreases args, 0
  {
    hide GoodLibrary, Linked, ArgumentValue, KindOf, Formed;
    if args.Arg? {
      AgreeArgument(env, KindOf(f, k), args.e, c);
      AgreeArguments(env, f, args.next, k + 1, c);
    }
  }

  /** A library function that takes a node set gets the same first node, and the same nodes each once. */
  lemma SameArguments(env: Env, e: Expr, c: Context)
    requires Good(env) && Agrees(env, e, c, First) && Agrees(env, e, c, All)
    requires Nodes(env, Full, e, c, First) == Nodes(env, Full, e, c, All)
    ensures FirstOf(Nodes(env, Full, e, c, First)) == FirstOf(Nodes(env, Program, e, c, First))
    ensures multiset(Nodes(env, Full, e, c, All).nodes) == multiset(Nodes(env, Program, e, c, All).nodes)
    ensures |Nodes(env, Full, e, c, All).nodes| == |Nodes(env, Program, e, c, All).nodes|
  {
    hide GoodLibrary, Linked, Nodes, Listing;
    var ns := Nodes(env, Full, e, c, All).nodes;
    var s := Items(ns);
    StandingSet(env.d, s, Nodes(env, Program, e, c, First), First);
    StandingSet(env.d, s, Nodes(env, Program, e, c, All), All);
    ListingIsSet(env.d, s);
    SameSize(ns, Nodes(env, Program, e, c, All).nodes);
  }

  /** The program computes the full value of an expression that is no node set, short cuts or not. */
  lemma {:induction false} AgreeNative(env: Env, e: Expr, c: Context)
    requires Good(env) && Formed(e) && Somewhere(env.d, c.item)
    ensures Native(env, Full, e, c) == Native(env, Program, e, c)
    decreases e, 0
  {
    hide GoodLibrary, Linked, Nodes, AsText, AsBool, AsNum, AsOperand, Compares, TranslateText, ByTable, AttributeEquals;
    match e
    case Or(l, r) => AgreeValues(env, l, c); AgreeValues(env, r, c);
    case And(l, r) => AgreeValues(env, l, c); AgreeValues(env, r, c);
    case Compare(op, l, r) =>
      AgreeOperand(env, l, c, OperandMode(op, r));
      AgreeOperand(env, r, c, OperandMode(op, l));
      SameComparison(env, op, l, r, c);
    case Count(l) =>
      AgreeNodes(env, l, c, First);
      AgreeNodes(env, l, c, All);
      FullIgnoresMode(env, l, c, First);
      SameArguments(env, l, c);
    case Call(f, args) => AgreeArguments(env, f, args, 0, c);
    case Translate(l, from, to) => AgreeValues(env, l, c); AgreeValues(env, from, c); AgreeValues(env, to, c);
    case TranslateTable(l, _) => AgreeValues(env, l, c);
    case CompareAttribute(_, r) => AgreeValues(env, r, c);
    case _ =>
  }

  /** A node set compared with a boolean only counts as empty or not. */
  lemma SameComparison(env: Env, op: Relation, l: Expr, r: Expr, c: Context)
    requires Good(env)
    requires var m := OperandMode(op, r); var o, p := AsOperand(env, Full, l, c, m), AsOperand(env, Program, l, c, m);
             o == p || (m.Any? && o.Strings? && p.Strings? && (o.s == {}) == (p.s == {}))
    requires var m := OperandMode(op, l); var o, p := AsOperand(env, Full, r, c, m), AsOperand(env, Program, r, c, m);
             o == p || (m.Any? && o.Strings? && p.Strings? && (o.s == {}) == (p.s == {}))
    ensures Compares(env, op, AsOperand(env, Full, l, c, OperandMode(op, r)), AsOperand(env, Full, r, c, OperandMode(op, l)))
         == Compares(env, op, AsOperand(env, Program, l, c, OperandMode(op, r)), AsOperand(env, Program, r, c, OperandMode(op, l)))
  {
    hide GoodLibrary, Linked, Nodes, Native;
    if !TypeOf(l).NodeSetType? { NativeFits(env, Full, l, c); NativeFits(env, Program, l, c); }
    if !TypeOf(r).NodeSetType? { NativeFits(env, Full, r, c); NativeFits(env, Program, r, c); }
  }
}
