// Documents as linked nodes, document order, and the walks over the XPath axes.
//
// A node is named by its place in document order (preorder), so node 0 is the document node and the
// descendants of node x are the nodes between x and `end[x]`. The five link fields are those of the
// program, with NONE for a null pointer; `prevC` is its half-cyclic previous sibling link, which leads
// from a first child to the last one. `end` is bookkeeping and is read by no walk.
module Documents {

  const NONE: int := -1

  datatype Kind = DocumentNode | Element | Pcdata | Cdata | Comment | Pi | OtherNode

  datatype Attribute = Attribute(name: string, value: string)

  datatype Doc = Doc(
    parent: seq<int>,
    firstChild: seq<int>,
    next: seq<int>,
    prevC: seq<int>,
    kind: seq<Kind>,
    name: seq<string>,
    value: seq<string>,
    attributes: seq<seq<Attribute>>,
    end: seq<nat>)
  {
    function Size(): nat { |end| }

    predicate Has(x: int) { 0 <= x < |end| }
  }

  // ---------------------------------------------------------------- well-formed documents

  /** The subtree of `x`: the nodes after it up to its end are its descendants, each of them whole. */
  predicate Nested(d: Doc, x: int)
    requires d.Has(x)
  {
    && x < d.end[x] <= d.Size()
    && forall y | x < y < d.end[x] :: d.end[y] <= d.end[x]
  }

  /** The parent of `x` is the closest node whose subtree it is in. */
  predicate ParentOk(d: Doc, x: int)
    requires d.Has(x) && |d.parent| == d.Size()
  {
    var p := d.parent[x];
    if x == 0 then p == NONE && d.end[x] == d.Size()
    else 0 <= p < x < d.end[p] && forall y | p < y < x :: d.end[y] <= x
  }

  predicate LinksOk(d: Doc, x: int)
    requires d.Has(x) && |d.parent| == |d.firstChild| == |d.next| == |d.prevC| == d.Size()
  {
    var p := d.parent[x];
    && d.firstChild[x] == (if x + 1 < d.end[x] then x + 1 else NONE)
    && d.next[x] == (if d.Has(p) && d.end[x] < d.end[p] then d.end[x] else NONE)
    && d.Has(d.prevC[x])
    && d.parent[d.prevC[x]] == p
    && (if x == 0 then d.prevC[x] == 0
        else if d.Has(p) && x == p + 1 then d.end[d.prevC[x]] == d.end[p]
        else d.end[d.prevC[x]] == x)
  }

  predicate Shape(d: Doc) {
    && 0 < d.Size() == |d.parent| == |d.firstChild| == |d.next| == |d.prevC|
    && |d.kind| == |d.name| == |d.value| == |d.attributes| == d.Size()
  }

  predicate Linked(d: Doc)
    requires Shape(d)
  {
    forall x | 0 <= x < d.Size() :: Nested(d, x) && ParentOk(d, x) && LinksOk(d, x)
  }

  /** The links describe an ordered tree. */
  predicate Valid(d: Doc) {
    Shape(d) && Linked(d)
  }

  lemma NodeFacts(d: Doc, x: int)
    requires Valid(d) && d.Has(x)
    ensures Nested(d, x) && ParentOk(d, x) && LinksOk(d, x)
  {
  }

  // ---------------------------------------------------------------- the axes

  /** A place an XPath step can stand at: a node, or its attribute number `attr`. */
  datatype Item = Item(node: int, attr: int)

  predicate HasItem(d: Doc, i: Item)
    requires |d.attributes| == d.Size()
  {
    d.Has(i.node) && (i.attr == NONE || 0 <= i.attr < |d.attributes[i.node]|)
  }

  datatype Axis =
    | Ancestor | AncestorOrSelf | AttributeAxis | Child | Descendant | DescendantOrSelf | Following
    | FollowingSibling | NamespaceAxis | Parent | Preceding | PrecedingSibling | Self

  predicate IsReverse(a: Axis) { a.Ancestor? || a.AncestorOrSelf? || a.Preceding? || a.PrecedingSibling? }

  /** `y` is a proper ancestor of `x`. */
  predicate IsAncestor(d: Doc, y: int, x: int)
    requires |d.parent| == d.Size()
    decreases x
  {
    d.Has(x) && d.Has(d.parent[x]) && d.parent[x] < x && (d.parent[x] == y || IsAncestor(d, y, d.parent[x]))
  }

  /** XPath 1.0, section 2.2: the nodes, attributes aside, that are on an axis of `i`. An attribute has its
      element for parent, is nobody's child or sibling, and comes before the children of its element. */
  predicate InAxis(d: Doc, a: Axis, i: Item, y: int)
    requires |d.parent| == d.Size() && d.Has(i.node) && d.Has(y)
  {
    var x, isNode := i.node, i.attr == NONE;
    match a
    case Self => isNode && y == x
    case Child => isNode && d.parent[y] == x
    case Parent => if isNode then d.parent[x] == y else y == x
    case Ancestor => IsAncestor(d, y, x) || (!isNode && y == x)
    case AncestorOrSelf => y == x || IsAncestor(d, y, x)
    case Descendant => isNode && IsAncestor(d, x, y)
    case DescendantOrSelf => isNode && (y == x || IsAncestor(d, x, y))
    case Following => x < y && !(isNode && IsAncestor(d, x, y))
    case Preceding => y < x && !IsAncestor(d, y, x)
    case FollowingSibling => isNode && x < y && d.parent[y] == d.parent[x]
    case PrecedingSibling => isNode && y < x && d.parent[y] == d.parent[x]
    case AttributeAxis => false
    case NamespaceAxis => false
  }

  lemma {:induction false} AncestorIsInterval(d: Doc, y: int, x: int)
    requires Valid(d) && d.Has(x) && d.Has(y)
    ensures IsAncestor(d, y, x) <==> y < x < d.end[y]
    decreases x
  {
    NodeFacts(d, x);
    NodeFacts(d, y);
    if x > 0 {
      var p := d.parent[x];
      NodeFacts(d, p);
      AncestorIsInterval(d, y, p);
      assert p < y < x ==> d.end[y] <= x;
    }
  }

  lemma AncestorsAreIntervals(d: Doc, x: int)
    requires Valid(d) && d.Has(x)
    ensures forall y {:trigger IsAncestor(d, x, y)} | d.Has(y) :: IsAncestor(d, x, y) <==> x < y < d.end[x]
    ensures forall y {:trigger IsAncestor(d, y, x)} | d.Has(y) :: IsAncestor(d, y, x) <==> y < x < d.end[y]
  {
    forall y | d.Has(y)
      ensures IsAncestor(d, x, y) <==> x < y < d.end[x]
      ensures IsAncestor(d, y, x) <==> y < x < d.end[y]
    {
      AncestorIsInterval(d, x, y);
      AncestorIsInterval(d, y, x);
    }
  }

  /** The ancestor, descendant, following, preceding and self axes partition the nodes of the document;
      for an attribute, the first four already do. */
  lemma AxesPartition(d: Doc, i: Item, y: int)
    requires Valid(d) && HasItem(d, i) && d.Has(y)
    ensures multiset{InAxis(d, Self, i, y), InAxis(d, Ancestor, i, y), InAxis(d, Descendant, i, y),
                     InAxis(d, Following, i, y), InAxis(d, Preceding, i, y)}[true] == 1
  {
    AncestorIsInterval(d, i.node, y);
    AncestorIsInterval(d, y, i.node);
  }

  // ---------------------------------------------------------------- node tests

  datatype NodeTest =
    | TestName(name: string) | TestTypeNode | TestTypeComment | TestTypePi | TestTypeText | TestPi(name: string)
    | TestAll | TestAllInNamespace(prefix: string)

  /** The test of `step_push` on a node. */
  predicate Passes(d: Doc, t: NodeTest, x: int)
    requires d.Has(x) && |d.kind| == |d.name| == d.Size()
  {
    match t
    case TestName(n) => d.kind[x].Element? && d.name[x] == n
    case TestTypeNode => true
    case TestTypeComment => d.kind[x].Comment?
    case TestTypeText => d.kind[x].Pcdata? || d.kind[x].Cdata?
    case TestTypePi => d.kind[x].Pi?
    case TestPi(n) => d.kind[x].Pi? && d.name[x] == n
    case TestAll => d.kind[x].Element?
    case TestAllInNamespace(p) => d.kind[x].Element? && p <= d.name[x]
  }

  /** Namespace declarations are no XPath attributes. */
  predicate IsXPathAttribute(n: string) {
    !("xmlns" <= n && (|n| == 5 || n[5] == ':'))
  }

  /** The test of `step_push` on an attribute. */
  predicate PassesAttribute(t: NodeTest, a: Attribute) {
    match t
    case TestName(n) => a.name == n && IsXPathAttribute(a.name)
    case TestTypeNode => IsXPathAttribute(a.name)
    case TestAll => IsXPathAttribute(a.name)
    case TestAllInNamespace(p) => p <= a.name && IsXPathAttribute(a.name)
    case _ => false
  }

  // ---------------------------------------------------------------- what a step selects

  predicate Hit(d: Doc, a: Axis, i: Item, t: NodeTest, y: int)
    requires Valid(d) && HasItem(d, i)
  {
    d.Has(y) && InAxis(d, a, i, y) && Passes(d, t, y)
  }

  /** The nodes below `hi` on the axis that pass the test, in document order. */
  function Ascending(d: Doc, a: Axis, i: Item, t: NodeTest, hi: int): seq<Item>
    requires Valid(d) && HasItem(d, i)
    decreases hi
  {
    if hi <= 0 then []
    else Ascending(d, a, i, t, hi - 1) + (if Hit(d, a, i, t, hi - 1) then [Item(hi - 1, NONE)] else [])
  }

  /** The nodes from `lo` on, in reverse document order. */
  function Descending(d: Doc, a: Axis, i: Item, t: NodeTest, lo: int): seq<Item>
    requires Valid(d) && HasItem(d, i)
    decreases d.Size() - lo
  {
    if lo >= d.Size() then []
    else Descending(d, a, i, t, lo + 1) + (if Hit(d, a, i, t, lo) then [Item(lo, NONE)] else [])
  }

  /** The first `k` attributes of `x`, those that pass the test. */
  function AttributesUpTo(d: Doc, x: int, t: NodeTest, k: nat): seq<Item>
    requires Valid(d) && d.Has(x) && k <= |d.attributes[x]|
  {
    if k == 0 then []
    else AttributesUpTo(d, x, t, k - 1) + (if PassesAttribute(t, d.attributes[x][k - 1]) then [Item(x, k - 1)] else [])
  }

  /** The attribute `i` itself, where axis and test select it. */
  function OwnAttribute(d: Doc, a: Axis, i: Item, t: NodeTest): seq<Item>
    requires Valid(d) && HasItem(d, i)
  {
    if i.attr != NONE && (a.Self? || a.AncestorOrSelf? || a.DescendantOrSelf?)
       && t.TestTypeNode? && PassesAttribute(t, d.attributes[i.node][i.attr]) then [i] else []
  }

  /** The nodes and attributes that a step over axis `a` selects from `i`: in document order for a forward
      axis, in reverse document order for a reverse one. */
  function AxisItems(d: Doc, a: Axis, i: Item, t: NodeTest): seq<Item>
    requires Valid(d) && HasItem(d, i)
  {
    if a.AttributeAxis? then (if i.attr == NONE then AttributesUpTo(d, i.node, t, |d.attributes[i.node]|) else [])
    else OwnAttribute(d, a, i, t) + (if IsReverse(a) then Descending(d, a, i, t, 0) else Ascending(d, a, i, t, d.Size()))
  }

  /** With the `once` flag only the first is kept. */
  function Limit<T>(s: seq<T>, once: bool): seq<T> { if once && s != [] then s[..1] else s }

  lemma {:induction false} AscendingSkips(d: Doc, a: Axis, i: Item, t: NodeTest, lo: int, hi: int)
    requires Valid(d) && HasItem(d, i) && lo <= hi
    requires forall y | lo <= y < hi && d.Has(y) :: !InAxis(d, a, i, y)
    ensures Ascending(d, a, i, t, lo) == Ascending(d, a, i, t, hi)
    decreases hi - lo
  {
    if lo < hi { AscendingSkips(d, a, i, t, lo, hi - 1); }
  }

  lemma {:induction false} AscendingPrefix(d: Doc, a: Axis, i: Item, t: NodeTest, lo: int, hi: int)
    requires Valid(d) && HasItem(d, i) && lo <= hi
    ensures Ascending(d, a, i, t, lo) <= Ascending(d, a, i, t, hi)
    decreases hi - lo
  {
    if lo < hi { AscendingPrefix(d, a, i, t, lo, hi - 1); }
  }

  lemma {:induction false} DescendingSkips(d: Doc, a: Axis, i: Item, t: NodeTest, lo: int, hi: int)
    requires Valid(d) && HasItem(d, i) && lo <= hi
    requires forall y | lo <= y < hi && d.Has(y) :: !InAxis(d, a, i, y)
    ensures Descending(d, a, i, t, lo) == Descending(d, a, i, t, hi)
    decreases hi - lo
  {
    if lo < hi { DescendingSkips(d, a, i, t, lo + 1, hi); }
  }

  lemma {:induction false} DescendingPrefix(d: Doc, a: Axis, i: Item, t: NodeTest, lo: int, hi: int)
    requires Valid(d) && HasItem(d, i) && lo <= hi
    ensures Descending(d, a, i, t, hi) <= Descending(d, a, i, t, lo)
    decreases hi - lo
  {
    if lo < hi { DescendingPrefix(d, a, i, t, lo + 1, hi); }
  }

  lemma {:induction false} AttributesPrefix(d: Doc, x: int, t: NodeTest, lo: nat, hi: nat)
    requires Valid(d) && d.Has(x) && lo <= hi <= |d.attributes[x]|
    ensures AttributesUpTo(d, x, t, lo) <= AttributesUpTo(d, x, t, hi)
    decreases hi - lo
  {
    if lo < hi { AttributesPrefix(d, x, t, lo, hi - 1); }
  }

  /** A forward axis whose nodes lie between `lo` and `hi`: the walk starts with nothing and is complete at `hi`. */
  lemma ForwardRange(d: Doc, a: Axis, i: Item, t: NodeTest, lo: int, hi: int)
    requires Valid(d) && HasItem(d, i) && 0 <= lo <= hi <= d.Size()
    requires forall y | d.Has(y) && InAxis(d, a, i, y) :: lo <= y < hi
    ensures Ascending(d, a, i, t, lo) == []
    ensures Ascending(d, a, i, t, hi) == Ascending(d, a, i, t, d.Size())
  {
    AscendingSkips(d, a, i, t, 0, lo);
    AscendingSkips(d, a, i, t, hi, d.Size());
  }

  lemma BackwardRange(d: Doc, a: Axis, i: Item, t: NodeTest, lo: int, hi: int)
    requires Valid(d) && HasItem(d, i) && 0 <= lo <= hi <= d.Size()
    requires forall y | d.Has(y) && InAxis(d, a, i, y) :: lo <= y < hi
    ensures Descending(d, a, i, t, hi) == []
    ensures Descending(d, a, i, t, lo) == Descending(d, a, i, t, 0)
  {
    DescendingSkips(d, a, i, t, 0, lo);
    DescendingSkips(d, a, i, t, hi, d.Size());
  }

  // ---------------------------------------------------------------- the walks

  /** Leaves the subtree of `from`: the next node in document order after it, or NONE once that is outside
      the subtree of `stop` (NONE for the whole document). */
  method NextAfter(d: Doc, from: int, stop: int) returns (r: int)
    requires Valid(d) && d.Has(from)
    requires stop == NONE || (d.Has(stop) && stop < from < d.end[stop])
    ensures r == if d.end[from] < (if stop == NONE then d.Size() else d.end[stop]) then d.end[from] else NONE
  {
    var cur := from;
    NodeFacts(d, cur);
    while d.next[cur] == NONE
      invariant d.Has(cur) && d.end[cur] == d.end[from]
      invariant stop == NONE || stop < cur < d.end[stop]
      decreases cur
    {
      NodeFacts(d, cur);
      NextSibling(d, cur);
      if stop != NONE { ParentInside(d, stop, cur); }
      cur := d.parent[cur];
      if cur == stop { return NONE; }
      NodeFacts(d, cur);
    }
    NodeFacts(d, cur);
    NextSibling(d, cur);
    if stop != NONE { ParentInside(d, stop, cur); NodeFacts(d, stop); }
    r := d.next[cur];
  }

  lemma DescendantRange(d: Doc, x: int, t: NodeTest)
    requires Valid(d) && d.Has(x)
    ensures forall y {:trigger InAxis(d, Descendant, Item(x, NONE), y)} | d.Has(y) ::
              InAxis(d, Descendant, Item(x, NONE), y) <==> x < y < d.end[x]
    ensures Ascending(d, Descendant, Item(x, NONE), t, x + 1) == []
    ensures Ascending(d, Descendant, Item(x, NONE), t, d.end[x]) == Ascending(d, Descendant, Item(x, NONE), t, d.Size())
  {
    NodeFacts(d, x);
    AncestorsAreIntervals(d, x);
    ForwardRange(d, Descendant, Item(x, NONE), t, x + 1, d.end[x]);
  }

  method FillDescendant(d: Doc, x: int, t: NodeTest, once: bool) returns (ns: seq<Item>)
    requires Valid(d) && d.Has(x)
    ensures ns == Limit(Ascending(d, Descendant, Item(x, NONE), t, d.Size()), once)
  {
    hide Linked, InAxis, IsAncestor, Passes;
    ghost var i := Item(x, NONE);
    DescendantRange(d, x, t);
    NodeFacts(d, x);
    ns := [];
    var cur := d.firstChild[x];
    while cur != NONE
      invariant cur == NONE || x < cur < d.end[x]
      invariant ns == Ascending(d, Descendant, i, t, if cur == NONE then d.end[x] else cur)
      invariant once ==> ns == []
      decreases if cur == NONE then 0 else d.end[x] - cur
    {
      AscendingPrefix(d, Descendant, i, t, cur + 1, d.Size());
      if Passes(d, t, cur) {
        ns := ns + [Item(cur, NONE)];
        if once { return; }
      }
      NodeFacts(d, cur);
      if d.firstChild[cur] != NONE {
        cur := d.firstChild[cur];
      } else {
        cur := NextAfter(d, cur, x);
      }
    }
  }

  method FillDescendantOrSelf(d: Doc, x: int, t: NodeTest, once: bool) returns (ns: seq<Item>)
    requires Valid(d) && d.Has(x)
    ensures ns == Limit(Ascending(d, DescendantOrSelf, Item(x, NONE), t, d.Size()), once)
  {
    OrSelfSplits(d, x, t);
    ns := [];
    if Passes(d, t, x) {
      ns := ns + [Item(x, NONE)];
      if once { return; }
    }
    var rest := FillDescendant(d, x, t, once);
    ns := ns + rest;
  }

  lemma OrSelfSplits(d: Doc, x: int, t: NodeTest)
    requires Valid(d) && d.Has(x)
    ensures Ascending(d, DescendantOrSelf, Item(x, NONE), t, d.Size())
         == (if Passes(d, t, x) then [Item(x, NONE)] else []) + Ascending(d, Descendant, Item(x, NONE), t, d.Size())
  {
    NodeFacts(d, x);
    AncestorsAreIntervals(d, x);
    DescendantRange(d, x, t);
    ForwardRange(d, DescendantOrSelf, Item(x, NONE), t, x, d.end[x]);
    SameFrom(d, DescendantOrSelf, Descendant, Item(x, NONE), t, x + 1, d.Size());
  }

  /** Two axes with the same nodes from `lo` on select the same from there. */
  lemma {:induction false} SameFrom(d: Doc, a: Axis, b: Axis, i: Item, t: NodeTest, lo: int, hi: int)
    requires Valid(d) && HasItem(d, i) && lo <= hi
    requires forall y | lo <= y < hi && d.Has(y) :: InAxis(d, a, i, y) == InAxis(d, b, i, y)
    requires Ascending(d, b, i, t, lo) == []
    ensures Ascending(d, a, i, t, hi) == Ascending(d, a, i, t, lo) + Ascending(d, b, i, t, hi)
    decreases hi - lo
  {
    if lo < hi { SameFrom(d, a, b, i, t, lo, hi - 1); }
  }

  // ----------------------------------------------------------------

  lemma FollowingRange(d: Doc, i: Item, t: NodeTest, lo: int)
    requires Valid(d) && HasItem(d, i) && lo == (if i.attr == NONE then d.end[i.node] else i.node + 1)
    ensures i.node < lo <= d.Size()
    ensures forall y {:trigger InAxis(d, Following, i, y)} | d.Has(y) :: InAxis(d, Following, i, y) <==> lo <= y
    ensures Ascending(d, Following, i, t, lo) == []
  {
    NodeFacts(d, i.node);
    AncestorsAreIntervals(d, i.node);
    ForwardRange(d, Following, i, t, lo, d.Size());
  }

  method FillFollowing(d: Doc, x: int, t: NodeTest, once: bool) returns (ns: seq<Item>)
    requires Valid(d) && d.Has(x)
    ensures ns == Limit(Ascending(d, Following, Item(x, NONE), t, d.Size()), once)
  {
    hide Linked, InAxis, IsAncestor, Passes;
    ghost var i := Item(x, NONE);
    NodeFacts(d, x);
    FollowingRange(d, i, t, d.end[x]);
    ns := [];
    var cur := NextAfter(d, x, NONE);
    while cur != NONE
      invariant cur == NONE || d.end[x] <= cur < d.Size()
      invariant ns == Ascending(d, Following, i, t, if cur == NONE then d.Size() else cur)
      invariant once ==> ns == []
      decreases if cur == NONE then 0 else d.Size() - cur
    {
      AscendingPrefix(d, Following, i, t, cur + 1, d.Size());
      if Passes(d, t, cur) {
        ns := ns + [Item(cur, NONE)];
        if once { return; }
      }
      NodeFacts(d, cur);
      if d.firstChild[cur] != NONE {
        cur := d.firstChild[cur];
      } else {
        cur := NextAfter(d, cur, NONE);
      }
    }
  }

  method FillFollowingAttribute(d: Doc, i: Item, t: NodeTest, once: bool) returns (ns: seq<Item>)
    requires Valid(d) && HasItem(d, i) && i.attr != NONE
    ensures ns == Limit(Ascending(d, Following, i, t, d.Size()), once)
  {
    hide Linked, InAxis, IsAncestor, Passes;
    FollowingRange(d, i, t, i.node + 1);
    ns := [];
    var cur := i.node;
    while cur != NONE
      invariant cur == NONE || i.node <= cur < d.Size()
      invariant ns == Ascending(d, Following, i, t, if cur == NONE then d.Size() else cur + 1)
      invariant once ==> ns == []
      decreases if cur == NONE then 0 else d.Size() - cur
    {
      NodeFacts(d, cur);
      if d.firstChild[cur] != NONE {
        cur := d.firstChild[cur];
      } else {
        cur := NextAfter(d, cur, NONE);
        if cur == NONE { return; }
      }
      AscendingPrefix(d, Following, i, t, cur + 1, d.Size());
      if Passes(d, t, cur) {
        ns := ns + [Item(cur, NONE)];
        if once { return; }
      }
    }
  }

  // ----------------------------------------------------------------

  /** A node inside the subtree of `y` but not `y` itself has its parent in there. */
  lemma ParentInside(d: Doc, y: int, z: int)
    requires Valid(d) && d.Has(y) && y < z < d.end[y]
    ensures d.Has(z) && y <= d.parent[z]
  {
    NodeFacts(d, y);
    NodeFacts(d, z);
  }

  /** Between a node and its next sibling there is no child of their parent. */
  lemma NoChildInside(d: Doc, a: Axis, i: Item, y: int)
    requires Valid(d) && HasItem(d, i) && d.Has(y)
    requires a.Child? || a.FollowingSibling? || a.PrecedingSibling?
    requires d.parent[y] == if a.Child? then i.node else d.parent[i.node]
    ensures forall z | y < z < d.end[y] :: d.Has(z) && !InAxis(d, a, i, z)
  {
    NodeFacts(d, y);
    forall z | y < z < d.end[y]
      ensures d.Has(z) && !InAxis(d, a, i, z)
    {
      ParentInside(d, y, z);
    }
  }

  method FillSiblings(d: Doc, a: Axis, i: Item, first: int, t: NodeTest, once: bool) returns (ns: seq<Item>)
    requires Valid(d) && HasItem(d, i) && i.attr == NONE
    requires a.Child? || a.FollowingSibling?
    requires first == if a.Child? then d.firstChild[i.node] else d.next[i.node]
    ensures ns == Limit(Ascending(d, a, i, t, d.Size()), once)
  {
    hide Linked, InAxis, IsAncestor, Passes;
    ghost var p := if a.Child? then i.node else d.parent[i.node];
    ghost var hi := if d.Has(p) then d.end[p] else d.Size();
    SiblingsStart(d, a, i, t);
    ns := [];
    var c := first;
    while c != NONE
      invariant c == NONE || (i.node < c < hi && d.parent[c] == p)
      invariant ns == Ascending(d, a, i, t, if c == NONE then hi else c)
      invariant once ==> ns == []
      decreases if c == NONE then 0 else hi - c
    {
      AscendingPrefix(d, a, i, t, c + 1, d.Size());
      if Passes(d, t, c) {
        ns := ns + [Item(c, NONE)];
        if once { return; }
      }
      NodeFacts(d, c);
      NoChildInside(d, a, i, c);
      AscendingSkips(d, a, i, t, c + 1, d.end[c]);
      NextSibling(d, c);
      c := d.next[c];
    }
  }

  lemma NextSibling(d: Doc, c: int)
    requires Valid(d) && d.Has(c)
    ensures var e := if d.Has(d.parent[c]) then d.end[d.parent[c]] else d.Size();
            && d.end[c] <= e <= d.Size()
            && (if d.end[c] < e then d.next[c] == d.end[c] && d.parent[d.end[c]] == d.parent[c] else d.next[c] == NONE)
  {
    NodeFacts(d, c);
    if d.Has(d.parent[c]) {
      NodeFacts(d, d.parent[c]);
      if d.end[c] < d.end[d.parent[c]] {
        NodeFacts(d, d.end[c]);
      }
    }
  }

  lemma SiblingsStart(d: Doc, a: Axis, i: Item, t: NodeTest)
    requires Valid(d) && HasItem(d, i) && i.attr == NONE && (a.Child? || a.FollowingSibling?)
    ensures var p := if a.Child? then i.node else d.parent[i.node];
            var first := if a.Child? then d.firstChild[i.node] else d.next[i.node];
            var hi := if d.Has(p) then d.end[p] else d.Size();
            && i.node < hi <= d.Size()
            && (forall y {:trigger InAxis(d, a, i, y)} | d.Has(y) && i.node < y && d.parent[y] == p :: InAxis(d, a, i, y))
            && (first == NONE || (i.node < first < hi && d.parent[first] == p))
            && Ascending(d, a, i, t, if first == NONE then hi else first) == []
            && Ascending(d, a, i, t, hi) == Ascending(d, a, i, t, d.Size())
  {
    var x := i.node;
    NodeFacts(d, x);
    if a.Child? {
      if x + 1 < d.end[x] { NodeFacts(d, x + 1); }
      ForwardRange(d, a, i, t, x + 1, d.end[x]) by {
        forall y | d.Has(y) && InAxis(d, a, i, y) ensures x + 1 <= y < d.end[x] { NodeFacts(d, y); }
      }
    } else {
      var p := d.parent[x];
      NextSibling(d, x);
      NoChildInside(d, a, i, x);
      var hi := if d.Has(p) then d.end[p] else d.Size();
      ForwardRange(d, a, i, t, d.end[x], hi) by {
        forall y | d.Has(y) && InAxis(d, a, i, y) ensures d.end[x] <= y < hi { NodeFacts(d, y); }
      }
    }
  }

  // ----------------------------------------------------------------

  method FillPrecedingSibling(d: Doc, x: int, t: NodeTest, once: bool) returns (ns: seq<Item>)
    requires Valid(d) && d.Has(x)
    ensures ns == Limit(Descending(d, PrecedingSibling, Item(x, NONE), t, 0), once)
  {
    hide Linked, Passes;
    ghost var i := Item(x, NONE);
    BackwardRange(d, PrecedingSibling, i, t, 0, x);
    ns := [];
    var c := d.prevC[x];
    ghost var b := x;
    NodeFacts(d, x);
    while d.next[c] != NONE
      invariant 0 <= b <= x && d.parent[b] == d.parent[x] && c == d.prevC[b] && d.Has(c)
      invariant ns == Descending(d, PrecedingSibling, i, t, b)
      invariant once ==> ns == []
      decreases b
    {
      PreviousSibling(d, b);
      NoChildInside(d, PrecedingSibling, i, c);
      DescendingSkips(d, PrecedingSibling, i, t, c + 1, b);
      DescendingPrefix(d, PrecedingSibling, i, t, 0, c);
      if Passes(d, t, c) {
        ns := ns + [Item(c, NONE)];
        if once { return; }
      }
      b := c;
      NodeFacts(d, c);
      c := d.prevC[c];
    }
    PreviousSibling(d, b);
    FirstSibling(d, b);
    DescendingSkips(d, PrecedingSibling, i, t, 0, b);
  }

  /** `prevC` leads to the previous sibling exactly when the node it leads to has a next one. */
  lemma PreviousSibling(d: Doc, b: int)
    requires Valid(d) && d.Has(b)
    ensures var c := d.prevC[b];
            && d.Has(c) && d.parent[c] == d.parent[b]
            && (if d.next[c] != NONE then c < b && d.end[c] == b && d.next[c] == b
                else b == 0 || b == d.parent[b] + 1)
  {
    NodeFacts(d, b);
    var c := d.prevC[b];
    NodeFacts(d, c);
    if d.Has(d.parent[b]) {
      NodeFacts(d, d.parent[b]);
    }
  }

  lemma FirstSibling(d: Doc, b: int)
    requires Valid(d) && d.Has(b) && (b == 0 || b == d.parent[b] + 1)
    ensures forall y | 0 <= y < b :: d.parent[y] != d.parent[b]
  {
    NodeFacts(d, b);
    forall y | 0 <= y < b ensures d.parent[y] != d.parent[b] { NodeFacts(d, y); }
  }

  // ----------------------------------------------------------------

  method NodeIsAncestor(d: Doc, y: int, x: int) returns (r: bool)
    requires Valid(d) && d.Has(x) && d.Has(y)
    ensures r == (y == x || IsAncestor(d, y, x))
  {
    var node := x;
    while node != NONE && node != y
      invariant node == NONE || d.Has(node)
      invariant (y == x || IsAncestor(d, y, x)) == (node != NONE && (y == node || IsAncestor(d, y, node)))
      decreases node
    {
      NodeFacts(d, node);
      node := d.parent[node];
    }
    r := node == y;
  }

  lemma PrecedingRange(d: Doc, i: Item, t: NodeTest)
    requires Valid(d) && HasItem(d, i)
    ensures forall y {:trigger InAxis(d, Preceding, i, y)} | d.Has(y) :: InAxis(d, Preceding, i, y) <==> d.end[y] <= i.node
    ensures Descending(d, Preceding, i, t, i.node) == []
  {
    AncestorsAreIntervals(d, i.node);
    forall y | d.Has(y) ensures InAxis(d, Preceding, i, y) <==> d.end[y] <= i.node { NodeFacts(d, y); }
    BackwardRange(d, Preceding, i, t, 0, i.node);
  }

  /** The part of the preceding walk before the first node is met: it climbs over ancestors without a
      previous sibling. */
  method LeaveBackwards(d: Doc, i: Item, ghost t: NodeTest) returns (cur: int)
    requires Valid(d) && HasItem(d, i)
    ensures cur == NONE || (d.Has(cur) && d.end[cur] <= i.node)
    ensures Descending(d, Preceding, i, t, if cur == NONE then 0 else d.end[cur]) == []
  {
    PrecedingRange(d, i, t);
    cur := i.node;
    PreviousSibling(d, cur);
    NodeFacts(d, cur);
    while d.next[d.prevC[cur]] == NONE
      invariant d.Has(cur) && d.Has(d.prevC[cur]) && cur <= i.node < d.end[cur]
      invariant Descending(d, Preceding, i, t, cur) == []
      decreases cur
    {
      PreviousSibling(d, cur);
      NodeFacts(d, cur);
      cur := d.parent[cur];
      if cur == NONE { return; }
      NodeFacts(d, cur);
      DescendingSkips(d, Preceding, i, t, cur, cur + 1);
    }
    PreviousSibling(d, cur);
    cur := d.prevC[cur];
  }

  /** A first child is reached from its parent by one step backwards in document order. */
  lemma PrecedingUp(d: Doc, i: Item, t: NodeTest, cur: int)
    requires Valid(d) && HasItem(d, i) && d.Has(cur) && cur < i.node
    requires d.Has(d.prevC[cur]) && d.next[d.prevC[cur]] == NONE
    ensures var p := d.parent[cur];
            if p == NONE then cur == 0
            else && p == cur - 1
                 && Descending(d, Preceding, i, t, p)
                    == Descending(d, Preceding, i, t, cur)
                       + (if !IsAncestor(d, p, i.node) && Passes(d, t, p) then [Item(p, NONE)] else [])
  {
    PreviousSibling(d, cur);
    NodeFacts(d, cur);
  }

  /** After a leaf the preceding walk goes up, taking each node it reaches that is no ancestor of the start,
      until there is a previous sibling to go to. */
  method ClimbBackwards(d: Doc, i: Item, leaf: int, t: NodeTest, once: bool, soFar: seq<Item>)
    returns (cur: int, ns: seq<Item>)
    requires Valid(d) && HasItem(d, i) && d.Has(leaf) && d.end[leaf] <= i.node
    requires soFar == Descending(d, Preceding, i, t, leaf) && (once ==> soFar == [])
    ensures cur == NONE || (d.Has(cur) && d.end[cur] <= leaf)
    ensures once && ns != [] ==> ns == Limit(Descending(d, Preceding, i, t, 0), once)
    ensures !(once && ns != []) ==> ns == Descending(d, Preceding, i, t, if cur == NONE then 0 else d.end[cur])
  {
    hide Linked, InAxis, IsAncestor, Passes, Descending;
    cur, ns := leaf, soFar;
    NodeFacts(d, leaf);
    PreviousSibling(d, cur);
    while d.next[d.prevC[cur]] == NONE
      invariant 0 <= cur <= leaf && d.Has(d.prevC[cur])
      invariant ns == Descending(d, Preceding, i, t, cur)
      invariant once ==> ns == []
      decreases cur
    {
      PrecedingUp(d, i, t, cur);
      cur := d.parent[cur];
      if cur == NONE { return; }
      DescendingPrefix(d, Preceding, i, t, 0, cur);
      var above := NodeIsAncestor(d, cur, i.node);
      if !above {
        if Passes(d, t, cur) {
          ns := ns + [Item(cur, NONE)];
          if once { return NONE, ns; }
        }
      }
      PreviousSibling(d, cur);
    }
    PreviousSibling(d, cur);
    cur := d.prevC[cur];
  }

  method FillPreceding(d: Doc, i: Item, t: NodeTest, once: bool) returns (ns: seq<Item>)
    requires Valid(d) && HasItem(d, i)
    ensures ns == Limit(Descending(d, Preceding, i, t, 0), once)
  {
    hide Linked, InAxis, IsAncestor, Passes;
    PrecedingRange(d, i, t);
    ns := [];
    var cur := LeaveBackwards(d, i, t);
    while cur != NONE
      invariant cur == NONE || (d.Has(cur) && d.end[cur] <= i.node)
      invariant ns == Descending(d, Preceding, i, t, if cur == NONE then 0 else d.end[cur])
      invariant once ==> ns == []
      decreases if cur == NONE then 0 else d.end[cur], if cur == NONE then 0 else d.Size() - cur
    {
      NodeFacts(d, cur);
      if d.firstChild[cur] != NONE {
        LastChild(d, cur);
        cur := d.prevC[d.firstChild[cur]];
      } else {
        DescendingPrefix(d, Preceding, i, t, 0, cur);
        if Passes(d, t, cur) {
          ns := ns + [Item(cur, NONE)];
          if once { return; }
        }
        cur, ns := ClimbBackwards(d, i, cur, t, once, ns);
        if once && ns != [] { return; }
      }
    }
  }

  lemma LastChild(d: Doc, x: int)
    requires Valid(d) && d.Has(x) && d.firstChild[x] != NONE
    ensures d.Has(d.firstChild[x])
    ensures var c := d.prevC[d.firstChild[x]]; x < c && d.Has(c) && d.end[c] == d.end[x]
  {
    NodeFacts(d, x);
    NodeFacts(d, x + 1);
    NodeFacts(d, d.prevC[x + 1]);
  }

  // ----------------------------------------------------------------

  /** From a node of the axis the next one up is its parent. */
  lemma NextAncestor(d: Doc, a: Axis, i: Item, cur: int)
    requires Valid(d) && HasItem(d, i) && (a.Ancestor? || a.AncestorOrSelf?)
    requires d.Has(cur) && cur <= i.node < d.end[cur]
    ensures var p := d.parent[cur];
            && (p == NONE || (0 <= p < cur && i.node < d.end[p] && InAxis(d, a, i, p)))
            && forall y | p < y < cur :: !InAxis(d, a, i, y)
  {
    AncestorsAreIntervals(d, i.node);
    NodeFacts(d, cur);
    if d.parent[cur] != NONE { NodeFacts(d, d.parent[cur]); }
  }

  method FillAncestor(d: Doc, a: Axis, i: Item, from: int, t: NodeTest, once: bool) returns (ns: seq<Item>)
    requires Valid(d) && HasItem(d, i) && (a.Ancestor? || a.AncestorOrSelf?)
    requires from == NONE || (d.Has(from) && from <= i.node < d.end[from])
    requires forall y | (if from == NONE then -1 else from) < y < d.Size() :: !InAxis(d, a, i, y)
    requires from != NONE ==> InAxis(d, a, i, from)
    ensures ns == Limit(Descending(d, a, i, t, 0), once)
  {
    hide Linked, InAxis, IsAncestor, Passes;
    ns := [];
    var cur := from;
    DescendingSkips(d, a, i, t, if from == NONE then 0 else from + 1, d.Size());
    while cur != NONE
      invariant cur == NONE || (0 <= cur <= from && cur <= i.node < d.end[cur] && InAxis(d, a, i, cur))
      invariant ns == Descending(d, a, i, t, if cur == NONE then 0 else cur + 1)
      invariant once ==> ns == []
      decreases cur
    {
      DescendingPrefix(d, a, i, t, 0, cur);
      if Passes(d, t, cur) {
        ns := ns + [Item(cur, NONE)];
        if once { return; }
      }
      NodeFacts(d, cur);
      NextAncestor(d, a, i, cur);
      DescendingSkips(d, a, i, t, d.parent[cur] + 1, cur);
      cur := d.parent[cur];
    }
  }

  /** The attributes of an element, stopping at the first hit when only one is wanted. */
  method FillAttributes(d: Doc, x: int, t: NodeTest, once: bool) returns (ns: seq<Item>)
    requires Valid(d) && d.Has(x)
    ensures ns == Limit(AttributesUpTo(d, x, t, |d.attributes[x]|), once)
  {
    ns := [];
    var k := 0;
    while k < |d.attributes[x]|
      invariant 0 <= k <= |d.attributes[x]|
      invariant ns == AttributesUpTo(d, x, t, k)
      invariant once ==> ns == []
    {
      AttributesPrefix(d, x, t, k + 1, |d.attributes[x]|);
      if PassesAttribute(t, d.attributes[x][k]) {
        ns := ns + [Item(x, k)];
        if once { return; }
      }
      k := k + 1;
    }
  }

  /** An attribute has no nodes on the axes over children, descendants and siblings. */
  lemma NothingFromAttribute(d: Doc, a: Axis, i: Item, t: NodeTest)
    requires Valid(d) && HasItem(d, i) && i.attr != NONE
    requires a in {Child, Descendant, DescendantOrSelf, FollowingSibling, PrecedingSibling, Self, AttributeAxis, NamespaceAxis}
    ensures Ascending(d, a, i, t, d.Size()) == [] && Descending(d, a, i, t, 0) == []
  {
    ForwardRange(d, a, i, t, 0, 0);
    BackwardRange(d, a, i, t, 0, 0);
  }

  /** The walks of `step_fill` from a node. */
  method FillFromNode(d: Doc, a: Axis, x: int, t: NodeTest, once: bool) returns (ns: seq<Item>)
    requires Valid(d) && d.Has(x) && !a.NamespaceAxis?
    ensures ns == Limit(AxisItems(d, a, Item(x, NONE), t), once)
  {
    hide Linked, Passes;
    match a
    case AttributeAxis => ns := FillAttributes(d, x, t, once);
    case Child => ns := FillSiblings(d, Child, Item(x, NONE), d.firstChild[x], t, once);
    case Descendant => ns := FillDescendant(d, x, t, once);
    case DescendantOrSelf => ns := FillDescendantOrSelf(d, x, t, once);
    case FollowingSibling => ns := FillSiblings(d, FollowingSibling, Item(x, NONE), d.next[x], t, once);
    case PrecedingSibling => ns := FillPrecedingSibling(d, x, t, once);
    case Following => ns := FillFollowing(d, x, t, once);
    case Preceding => ns := FillPreceding(d, Item(x, NONE), t, once);
    case Ancestor => ns := FillAncestorOfNode(d, x, t, once);
    case AncestorOrSelf => ns := FillAncestorOrSelf(d, x, t, once);
    case Self =>
      ns := if Passes(d, t, x) then [Item(x, NONE)] else [];
      ForwardRange(d, Self, Item(x, NONE), t, x, x + 1);
    case Parent => ns := FillParent(d, x, t);
  }

  method FillAncestorOrSelf(d: Doc, x: int, t: NodeTest, once: bool) returns (ns: seq<Item>)
    requires Valid(d) && d.Has(x)
    ensures ns == Limit(Descending(d, AncestorOrSelf, Item(x, NONE), t, 0), once)
  {
    hide Linked, Passes;
    ns := [];
    AncestorOrSelfSplits(d, x, t);
    if Passes(d, t, x) {
      ns := ns + [Item(x, NONE)];
      if once { return; }
    }
    var above := FillAncestorOfNode(d, x, t, once);
    ns := ns + above;
  }

  /** A node has at most one parent, so the walk pays no heed to the flag. */
  method FillParent(d: Doc, x: int, t: NodeTest) returns (ns: seq<Item>)
    requires Valid(d) && d.Has(x)
    ensures ns == Ascending(d, Parent, Item(x, NONE), t, d.Size()) && |ns| <= 1
  {
    hide Linked, Passes;
    var p := d.parent[x];
    NodeFacts(d, x);
    ns := if p != NONE && Passes(d, t, p) then [Item(p, NONE)] else [];
    ForwardRange(d, Parent, Item(x, NONE), t, if p == NONE then 0 else p, p + 1);
  }

  method FillAncestorOfNode(d: Doc, x: int, t: NodeTest, once: bool) returns (ns: seq<Item>)
    requires Valid(d) && d.Has(x)
    ensures ns == Limit(Descending(d, Ancestor, Item(x, NONE), t, 0), once)
  {
    hide Linked, Passes;
    NodeFacts(d, x);
    AncestorsAreIntervals(d, x);
    if d.parent[x] != NONE { NodeFacts(d, d.parent[x]); }
    ns := FillAncestor(d, Ancestor, Item(x, NONE), d.parent[x], t, once);
  }

  lemma {:induction false} SameBackFrom(d: Doc, a: Axis, b: Axis, i: Item, t: NodeTest, lo: int, hi: int)
    requires Valid(d) && HasItem(d, i) && lo <= hi
    requires forall y | lo <= y < hi && d.Has(y) :: InAxis(d, a, i, y) == InAxis(d, b, i, y)
    requires Descending(d, b, i, t, hi) == []
    ensures Descending(d, a, i, t, lo) == Descending(d, a, i, t, hi) + Descending(d, b, i, t, lo)
    decreases hi - lo
  {
    if lo < hi { SameBackFrom(d, a, b, i, t, lo + 1, hi); }
  }

  lemma AncestorOrSelfSplits(d: Doc, x: int, t: NodeTest)
    requires Valid(d) && d.Has(x)
    ensures Descending(d, AncestorOrSelf, Item(x, NONE), t, 0)
         == (if Passes(d, t, x) then [Item(x, NONE)] else []) + Descending(d, Ancestor, Item(x, NONE), t, 0)
  {
    var i := Item(x, NONE);
    AncestorsAreIntervals(d, x);
    BackwardRange(d, Ancestor, i, t, 0, x);
    BackwardRange(d, AncestorOrSelf, i, t, 0, x + 1);
    SameBackFrom(d, AncestorOrSelf, Ancestor, i, t, 0, x);
  }

  /** The walks of `step_fill` from an attribute. */
  method FillFromAttribute(d: Doc, a: Axis, i: Item, t: NodeTest, once: bool) returns (ns: seq<Item>)
    requires Valid(d) && HasItem(d, i) && i.attr != NONE && !a.NamespaceAxis?
    ensures ns == Limit(AxisItems(d, a, i, t), once)
  {
    hide Linked, Passes;
    match a
    case Ancestor => ns := FillAncestorsOfAttribute(d, a, i, t, once);
    case AncestorOrSelf =>
      ns := [];
      if t.TestTypeNode? && PassesAttribute(t, d.attributes[i.node][i.attr]) {
        ns := ns + [i];
        if once { return; }
      }
      var above := FillAncestorsOfAttribute(d, a, i, t, once);
      ns := ns + above;
    case Self =>
      NothingFromAttribute(d, a, i, t);
      ns := if t.TestTypeNode? && PassesAttribute(t, d.attributes[i.node][i.attr]) then [i] else [];
    case DescendantOrSelf =>
      NothingFromAttribute(d, a, i, t);
      ns := if t.TestTypeNode? && PassesAttribute(t, d.attributes[i.node][i.attr]) then [i] else [];
    case Following => ns := FillFollowingAttribute(d, i, t, once);
    case Preceding =>
      SamePreceding(d, i, t, 0);
      ns := FillPreceding(d, Item(i.node, NONE), t, once);
    case Parent =>
      ns := if Passes(d, t, i.node) then [Item(i.node, NONE)] else [];
      ForwardRange(d, Parent, i, t, i.node, i.node + 1);
    case _ =>
      NothingFromAttribute(d, a, i, t);
      ns := [];
  }

  lemma {:induction false} SamePreceding(d: Doc, i: Item, t: NodeTest, lo: int)
    requires Valid(d) && HasItem(d, i)
    ensures Descending(d, Preceding, i, t, lo) == Descending(d, Preceding, Item(i.node, NONE), t, lo)
    decreases d.Size() - lo
  {
    if lo < d.Size() { SamePreceding(d, i, t, lo + 1); }
  }

  method FillAncestorsOfAttribute(d: Doc, a: Axis, i: Item, t: NodeTest, once: bool) returns (ns: seq<Item>)
    requires Valid(d) && HasItem(d, i) && i.attr != NONE && (a.Ancestor? || a.AncestorOrSelf?)
    ensures ns == Limit(Descending(d, a, i, t, 0), once)
  {
    hide Linked, Passes;
    NodeFacts(d, i.node);
    AncestorsAreIntervals(d, i.node);
    ns := FillAncestor(d, a, i, i.node, t, once);
  }

  /** `step_fill`: the walk over axis `a` from `i` yields exactly the items of the axis that pass the test, in
      axis order, or the first of them with the `once` flag. */
  method StepFill(d: Doc, a: Axis, i: Item, t: NodeTest, once: bool) returns (ns: seq<Item>)
    requires Valid(d) && HasItem(d, i)
    ensures ns == Limit(AxisItems(d, a, i, t), once)
    ensures !once ==> (set y | y in ns) == Chosen(d, a, i, t)
    ensures once ==> ns == [] || (|ns| == 1 && IsNearest(ns[0], Chosen(d, a, i, t), a))
    ensures ns == [] <==> Chosen(d, a, i, t) == {}
    ensures if IsReverse(a) then InReverse(ns) else InOrder(ns)
  {
    hide Linked, Passes, InAxis, OnAxis, Satisfies, IsXPathItem, AxisItems, OwnAttribute;
    if a.NamespaceAxis? {
      NothingOnNamespaceAxis(d, i, t);
      ns := [];
    } else if i.attr == NONE {
      ns := FillFromNode(d, a, i.node, t, once);
    } else {
      ns := FillFromAttribute(d, a, i, t, once);
    }
    AxisIsChosen(d, a, i, t);
    AxisInOrder(d, a, i, t);
    hide Chosen;
    FirstIsNearest(AxisItems(d, a, i, t), a);
  }

  lemma NothingOnNamespaceAxis(d: Doc, i: Item, t: NodeTest)
    requires Valid(d) && HasItem(d, i)
    ensures AxisItems(d, NamespaceAxis, i, t) == []
  {
    hide Linked, Passes;
    ForwardRange(d, NamespaceAxis, i, t, 0, 0);
  }

  // ---------------------------------------------------------------- what a step selects in XPath 1.0

  /** The kinds of node of section 5. Declarations and document types are of none of them. */
  datatype NodeType = RootType | ElementType | AttributeType | TextType | CommentType | PiType | NoType

  function TypeAt(d: Doc, y: Item): NodeType
    requires Valid(d) && HasItem(d, y)
  {
    if y.attr != NONE then AttributeType
    else match d.kind[y.node]
      case DocumentNode => RootType
      case Element => ElementType
      case Pcdata => TextType
      case Cdata => TextType
      case Comment => CommentType
      case Pi => PiType
      case OtherNode => NoType
  }

  function NameAt(d: Doc, y: Item): string
    requires Valid(d) && HasItem(d, y)
  {
    if y.attr != NONE then d.attributes[y.node][y.attr].name else d.name[y.node]
  }

  predicate StartsWith(name: string, prefix: string) { |prefix| <= |name| && name[..|prefix|] == prefix }

  /** Section 5.3: an attribute that declares a namespace is no attribute node. */
  predicate IsXPathItem(d: Doc, y: Item)
    requires Valid(d) && HasItem(d, y)
  {
    y.attr != NONE ==> NameAt(d, y) != "xmlns" && !StartsWith(NameAt(d, y), "xmlns:")
  }

  /** Section 2.2: `y` is on the axis of `i`. */
  predicate OnAxis(d: Doc, a: Axis, i: Item, y: Item)
    requires Valid(d) && HasItem(d, i) && HasItem(d, y)
  {
    if y.attr == NONE then InAxis(d, a, i, y.node)
    else if a.AttributeAxis? then i == Item(y.node, NONE)
    else y == i && (a.Self? || a.AncestorOrSelf? || a.DescendantOrSelf?)
  }

  /** Section 2.3: the principal node type of an axis. */
  function Principal(a: Axis): NodeType { if a.AttributeAxis? then AttributeType else ElementType }

  /** Section 2.3: the test is true of `y` on axis `a`. */
  predicate Satisfies(d: Doc, a: Axis, t: NodeTest, y: Item)
    requires Valid(d) && HasItem(d, y)
  {
    match t
    case TestName(n) => TypeAt(d, y) == Principal(a) && NameAt(d, y) == n
    case TestAll => TypeAt(d, y) == Principal(a)
    case TestAllInNamespace(p) => TypeAt(d, y) == Principal(a) && StartsWith(NameAt(d, y), p)
    case TestTypeText => TypeAt(d, y).TextType?
    case TestTypeComment => TypeAt(d, y).CommentType?
    case TestTypePi => TypeAt(d, y).PiType?
    case TestPi(n) => TypeAt(d, y).PiType? && NameAt(d, y) == n
    case TestTypeNode => true
  }

  function AllItems(d: Doc): (r: set<Item>)
    requires Valid(d)
    ensures forall y :: y in r <==> HasItem(d, y)
  {
    set x, k | 0 <= x < d.Size() && NONE <= k < |d.attributes[x]| :: Item(x, k)
  }

  /** What axis and node test select from `i`. */
  function Chosen(d: Doc, a: Axis, i: Item, t: NodeTest): (r: set<Item>)
    requires Valid(d) && HasItem(d, i)
  {
    set y | y in AllItems(d) && OnAxis(d, a, i, y) && IsXPathItem(d, y) && Satisfies(d, a, t, y)
  }

  /** Section 2.4: `y` comes before all others of `s` in the order of the axis. */
  predicate IsNearest(y: Item, s: set<Item>, a: Axis) {
    y in s && forall z | z in s && z != y :: if IsReverse(a) then Before(z, y) else Before(y, z)
  }

  lemma SameName(n: string)
    ensures IsXPathAttribute(n) <==> n != "xmlns" && !StartsWith(n, "xmlns:")
  {
    var x, xc := "xmlns", "xmlns:";
    assert xc == x + ":";
    if StartsWith(n, xc) {
      assert n[..6][..5] == n[..5] && n[..6][5] == n[5];
      assert x <= n;
    }
    if x <= n && |n| > 5 && n[5] == ':' { assert n[..6] == n[..5] + [n[5]]; }
    if x <= n && |n| == 5 { assert n == n[..5]; }
  }

  lemma SelectedIsChosen(d: Doc, a: Axis, i: Item, t: NodeTest, y: Item)
    requires Valid(d) && HasItem(d, i)
    ensures Selected(d, a, i, t, y) <==> HasItem(d, y) && OnAxis(d, a, i, y) && IsXPathItem(d, y) && Satisfies(d, a, t, y)
  {
    hide Linked, IsAncestor, IsXPathAttribute;
    if HasItem(d, y) && y.attr != NONE { SameName(NameAt(d, y)); }
  }

  lemma AxisIsChosen(d: Doc, a: Axis, i: Item, t: NodeTest)
    requires Valid(d) && HasItem(d, i)
    ensures (set y | y in AxisItems(d, a, i, t)) == Chosen(d, a, i, t)
  {
    AxisInOrder(d, a, i, t);
    hide Linked, AxisItems, Selected, OnAxis, IsXPathItem, Satisfies;
    forall y ensures y in AxisItems(d, a, i, t) <==> y in Chosen(d, a, i, t) {
      SelectedIsChosen(d, a, i, t, y);
    }
  }

  /** The first of what is listed in the order of the axis. */
  lemma FirstIsNearest(s: seq<Item>, a: Axis)
    requires if IsReverse(a) then InReverse(s) else InOrder(s)
    ensures s != [] ==> IsNearest(s[0], (set y | y in s), a)
    ensures forall once :: if IsReverse(a) then InReverse(Limit(s, once)) else InOrder(Limit(s, once))
  {
  }

  // ---------------------------------------------------------------- document order

  /** XPath 1.0, section 5: a node is before its attributes, and these are before its children. */
  predicate Before(i: Item, j: Item) { i.node < j.node || (i.node == j.node && i.attr < j.attr) }

  /** Siblings do not overlap, and the next-sibling chain from the first reaches the second. */
  lemma SiblingsApart(d: Doc, a: int, b: int)
    requires Valid(d) && d.Has(a) && d.Has(b) && a < b && d.parent[a] == d.parent[b]
    ensures d.end[a] <= b && a < d.next[a] <= b && d.parent[d.next[a]] == d.parent[b]
  {
    NodeFacts(d, a);
    NodeFacts(d, b);
    NodeFacts(d, d.parent[b]);
    NextSibling(d, a);
  }

  method NodeIsBeforeSibling(d: Doc, ln: int, rn: int) returns (before: bool)
    requires Valid(d) && d.Has(ln) && d.Has(rn) && ln != rn && d.parent[ln] == d.parent[rn]
    ensures before == (ln < rn)
  {
    hide Linked;
    SiblingsApart(d, if ln < rn then ln else rn, if ln < rn then rn else ln);
    var ls, rs := ln, rn;
    while ls != NONE && rs != NONE
      invariant ls == NONE || (ln <= ls < d.Size() && d.parent[ls] == d.parent[ln])
      invariant rs == NONE || (rn <= rs < d.Size() && d.parent[rs] == d.parent[ln])
      invariant ln < rn ==> ls != NONE && ls <= rn
      invariant rn < ln ==> rs != NONE && rs <= ln
      decreases if ls == NONE then 0 else d.Size() - ls
    {
      if ls == rn { return true; }
      if rs == ln { return false; }
      if ln < rn { SiblingsApart(d, ls, rn); } else { SiblingsApart(d, rs, ln); }
      NodeFacts(d, ls);
      NodeFacts(d, rs);
      NextSibling(d, ls);
      NextSibling(d, rs);
      ls, rs := d.next[ls], d.next[rs];
    }
    before := rs == NONE;
  }

  /** The number of nodes from `x` up to the document node. */
  ghost function Level(d: Doc, x: int): (r: nat)
    requires Valid(d) && (x == NONE || d.Has(x))
    ensures (r == 0) <==> x == NONE
    ensures r == 1 ==> x == 0
    decreases x
  {
    if x == NONE then 0
    else
      assert ParentOk(d, x);
      1 + Level(d, d.parent[x])
  }

  /** `up` is `x` or one of its ancestors. */
  predicate Above(d: Doc, up: int, x: int)
  {
    d.Has(up) && up <= x < d.end[up]
  }

  lemma AboveParent(d: Doc, up: int, x: int)
    requires Valid(d) && d.Has(x) && Above(d, up, x) && d.parent[up] != NONE
    ensures Above(d, d.parent[up], x)
  {
    NodeFacts(d, up);
    NodeFacts(d, d.parent[up]);
  }

  /** Nodes are ordered like the siblings they are under. */
  lemma OrderedAsSiblings(d: Doc, l: int, r: int, ln: int, rn: int)
    requires Valid(d) && d.Has(ln) && d.Has(rn) && Above(d, l, ln) && Above(d, r, rn)
    requires l != r && d.parent[l] == d.parent[r]
    ensures (l < r) == (ln < rn)
  {
    SiblingsApart(d, if l < r then l else r, if l < r then r else l);
  }

  /** Climbs from both nodes at once until the parents agree or one climb has left the document. */
  method ClimbTogether(d: Doc, ln: int, rn: int) returns (lp: int, rp: int)
    requires Valid(d) && d.Has(ln) && d.Has(rn) && ln != rn
    ensures lp == NONE || Above(d, lp, ln)
    ensures rp == NONE || Above(d, rp, rn)
    ensures Level(d, ln) - Level(d, lp) == Level(d, rn) - Level(d, rp)
    ensures lp != rp
    ensures lp != NONE && rp != NONE ==> d.parent[lp] == d.parent[rp]
  {
    hide Linked;
    lp, rp := ln, rn;
    NodeFacts(d, ln);
    NodeFacts(d, rn);
    while lp != NONE && rp != NONE && d.parent[lp] != d.parent[rp]
      invariant lp == NONE || Above(d, lp, ln)
      invariant rp == NONE || Above(d, rp, rn)
      invariant Level(d, ln) - Level(d, lp) == Level(d, rn) - Level(d, rp)
      invariant lp != rp
      decreases lp
    {
      NodeFacts(d, lp);
      if d.parent[lp] != NONE { AboveParent(d, lp, ln); }
      if d.parent[rp] != NONE { AboveParent(d, rp, rn); }
      lp, rp := d.parent[lp], d.parent[rp];
    }
  }

  /** Climbs `lp` out of the document and `ln` as many steps along with it. */
  method ClimbBy(d: Doc, lp: int, ln: int) returns (r: int)
    requires Valid(d) && d.Has(ln) && (lp == NONE || Above(d, lp, ln)) && Level(d, lp) < Level(d, ln)
    ensures Above(d, r, ln) && Level(d, r) == Level(d, ln) - Level(d, lp)
    ensures lp == NONE ==> r == ln
    ensures lp != NONE ==> r != ln
  {
    hide Linked;
    var p := lp;
    r := ln;
    NodeFacts(d, ln);
    while p != NONE
      invariant (p == NONE || d.Has(p)) && (lp == NONE ==> p == NONE && r == ln)
      invariant Above(d, r, ln) && Level(d, r) - Level(d, p) == Level(d, ln) - Level(d, lp)
      decreases p
    {
      NodeFacts(d, p);
      NodeFacts(d, r);
      if d.parent[r] != NONE { AboveParent(d, r, ln); }
      p, r := d.parent[p], d.parent[r];
    }
  }

  method NodeIsBefore(d: Doc, ln: int, rn: int) returns (before: bool)
    requires Valid(d) && d.Has(ln) && d.Has(rn) && ln != rn
    ensures before == (ln < rn)
  {
    hide Linked;
    var lp, rp := ClimbTogether(d, ln, rn);
    if lp != NONE && rp != NONE {
      OrderedAsSiblings(d, lp, rp, ln, rn);
      before := NodeIsBeforeSibling(d, lp, rp);
      return;
    }
    var leftHigher := lp == NONE;
    var l := ClimbBy(d, lp, ln);
    var r := ClimbBy(d, rp, rn);
    if l == r { return leftHigher; }
    while d.parent[l] != d.parent[r]
      invariant Above(d, l, ln) && Above(d, r, rn) && l != r
      invariant Level(d, l) == Level(d, r)
      decreases l
    {
      NodeFacts(d, l);
      NodeFacts(d, r);
      AboveParent(d, l, ln);
      AboveParent(d, r, rn);
      l, r := d.parent[l], d.parent[r];
    }
    OrderedAsSiblings(d, l, r, ln, rn);
    before := NodeIsBeforeSibling(d, l, r);
  }

  /** A string pointer: null, into the buffer that was parsed, or to memory that was allocated or is shared,
      which a bit in the header of the node or attribute says. */
  datatype Pointer = Null | Buffer(at: nat) | Elsewhere

  datatype Pointers = Pointers(name: Pointer, value: Pointer)

  /** The strings of every node and attribute; `shared` says that the places in the buffer do not count, as
      after a move or a second buffer. */
  datatype Memory = Memory(shared: bool, strings: Item -> Pointers)

  /** `document_buffer_order`, with NONE for null: the name if it is in the buffer, else the value. An attribute
      whose name is not allocated goes by it even if it is null. */
  function BufferPlace(m: Memory, i: Item): (p: int)
    ensures p == NONE || 0 <= p
  {
    var s := m.strings(i);
    if m.shared then NONE
    else if s.name.Buffer? then s.name.at
    else if i.attr != NONE && s.name.Null? then NONE
    else if s.value.Buffer? then s.value.at
    else NONE
  }

  /** The strings in the buffer stand in document order. */
  ghost predicate PlacesInOrder(d: Doc, m: Memory)
    requires |d.attributes| == d.Size()
  {
    forall i, j | HasItem(d, i) && HasItem(d, j) && Before(i, j) && BufferPlace(m, i) != NONE && BufferPlace(m, j) != NONE ::
      BufferPlace(m, i) < BufferPlace(m, j)
  }

  /** What the comparator answers: the document order, but that an attribute without a place in the buffer comes
      before itself. */
  predicate ComesBefore(m: Memory, i: Item, j: Item) {
    if i == j then i.attr != NONE && BufferPlace(m, i) == NONE else Before(i, j)
  }

  /** The document order comparator: by the places in the buffer if there are two, else by the links. */
  method DocumentOrder(d: Doc, m: Memory, lhs: Item, rhs: Item) returns (before: bool)
    requires Valid(d) && HasItem(d, lhs) && HasItem(d, rhs) && PlacesInOrder(d, m)
    ensures before == ComesBefore(m, lhs, rhs)
  {
    var lo, ro := BufferPlace(m, lhs), BufferPlace(m, rhs);
    if lo != NONE && ro != NONE { return lo < ro; }
    var ln, rn := lhs.node, rhs.node;
    if lhs.attr != NONE && rhs.attr != NONE {
      if ln == rn {
        var a := lhs.attr;
        while a < |d.attributes[ln]|
          invariant lhs.attr <= a <= |d.attributes[ln]|
          invariant rhs.attr < lhs.attr || a <= rhs.attr
        {
          if a == rhs.attr { return true; }
          a := a + 1;
        }
        return false;
      }
    } else if lhs.attr != NONE {
      if ln == rn { return false; }
    } else if rhs.attr != NONE {
      if ln == rn { return true; }
    }
    if ln == rn { return false; }
    before := NodeIsBefore(d, ln, rn);
  }

  // ---------------------------------------------------------------- order and contents of an axis

  predicate InOrder(s: seq<Item>) { forall j, k | 0 <= j < k < |s| :: Before(s[j], s[k]) }

  predicate InReverse(s: seq<Item>) { forall j, k | 0 <= j < k < |s| :: Before(s[k], s[j]) }

  lemma OneMore(s: seq<Item>, y: Item)
    ensures InOrder(s) && (forall z | z in s :: Before(z, y)) ==> InOrder(s + [y])
    ensures InReverse(s) && (forall z | z in s :: Before(y, z)) ==> InReverse(s + [y])
    ensures InReverse(s) && (forall z | z in s :: Before(z, y)) ==> InReverse([y] + s)
  {
    assert forall k | 0 <= k < |s| :: s[k] in s;
  }

  lemma Single(y: Item)
    ensures InOrder([y])
  {
  }

  lemma {:induction false} AscendingMembers(d: Doc, a: Axis, i: Item, t: NodeTest, hi: int)
    requires Valid(d) && HasItem(d, i) && hi <= d.Size()
    ensures InOrder(Ascending(d, a, i, t, hi))
    ensures forall y {:trigger y in Ascending(d, a, i, t, hi)} ::
              y in Ascending(d, a, i, t, hi) <==> y.attr == NONE && y.node < hi && Hit(d, a, i, t, y.node)
    decreases hi
  {
    hide Linked, InAxis, Passes;
    if hi > 0 {
      AscendingMembers(d, a, i, t, hi - 1);
      OneMore(Ascending(d, a, i, t, hi - 1), Item(hi - 1, NONE));
    }
  }

  lemma {:induction false} DescendingMembers(d: Doc, a: Axis, i: Item, t: NodeTest, lo: int)
    requires Valid(d) && HasItem(d, i) && 0 <= lo
    ensures InReverse(Descending(d, a, i, t, lo))
    ensures forall y {:trigger y in Descending(d, a, i, t, lo)} ::
              y in Descending(d, a, i, t, lo) <==> y.attr == NONE && lo <= y.node && Hit(d, a, i, t, y.node)
    decreases d.Size() - lo
  {
    hide Linked, InAxis, Passes;
    if lo < d.Size() {
      DescendingMembers(d, a, i, t, lo + 1);
      OneMore(Descending(d, a, i, t, lo + 1), Item(lo, NONE));
    }
  }

  lemma {:induction false} AttributesMembers(d: Doc, x: int, t: NodeTest, k: nat)
    requires Valid(d) && d.Has(x) && k <= |d.attributes[x]|
    ensures InOrder(AttributesUpTo(d, x, t, k))
    ensures forall y {:trigger y in AttributesUpTo(d, x, t, k)} ::
              y in AttributesUpTo(d, x, t, k) <==>
              y.node == x && 0 <= y.attr < k && PassesAttribute(t, d.attributes[x][y.attr])
  {
    hide Linked, PassesAttribute;
    if k > 0 {
      AttributesMembers(d, x, t, k - 1);
      OneMore(AttributesUpTo(d, x, t, k - 1), Item(x, k - 1));
    }
  }

  /** `y` is on axis `a` of `i` and passes the test. */
  predicate Selected(d: Doc, a: Axis, i: Item, t: NodeTest, y: Item)
    requires Valid(d) && HasItem(d, i)
  {
    if y.attr == NONE then Hit(d, a, i, t, y.node)
    else && HasItem(d, y) && PassesAttribute(t, d.attributes[y.node][y.attr])
         && if a.AttributeAxis? then i == Item(y.node, NONE)
            else y == i && (a.Self? || a.AncestorOrSelf? || a.DescendantOrSelf?) && t.TestTypeNode?
  }

  /** A step selects what is on the axis and passes the test, each item once; it lists a forward axis in
      document order and a reverse one in reverse document order. */
  lemma AxisInOrder(d: Doc, a: Axis, i: Item, t: NodeTest)
    requires Valid(d) && HasItem(d, i)
    ensures if IsReverse(a) then InReverse(AxisItems(d, a, i, t)) else InOrder(AxisItems(d, a, i, t))
    ensures forall y {:trigger y in AxisItems(d, a, i, t)} :: y in AxisItems(d, a, i, t) <==> Selected(d, a, i, t, y)
  {
    hide Linked, InAxis, IsAncestor, Passes, PassesAttribute, Ascending, Descending;
    if a.AttributeAxis? {
      AttributesMembers(d, i.node, t, |d.attributes[i.node]|);
      NoNodesOnAttributeAxis(d, i);
    } else {
      AscendingMembers(d, a, i, t, d.Size());
      DescendingMembers(d, a, i, t, 0);
      NodesInOrder(d, a, i, t);
    }
  }

  lemma NodesInOrder(d: Doc, a: Axis, i: Item, t: NodeTest)
    requires Valid(d) && HasItem(d, i) && !a.AttributeAxis?
    ensures if IsReverse(a) then InReverse(AxisItems(d, a, i, t)) else InOrder(AxisItems(d, a, i, t))
  {
    hide Linked, InAxis, IsAncestor, Passes, PassesAttribute, Ascending, Descending, InOrder, InReverse, OwnAttribute;
    var own, up, down := OwnAttribute(d, a, i, t), Ascending(d, a, i, t, d.Size()), Descending(d, a, i, t, 0);
    AscendingMembers(d, a, i, t, d.Size());
    DescendingMembers(d, a, i, t, 0);
    OwnAttributeComes(d, a, i, t);
    if own == [] {
      assert own + up == up && own + down == down;
    } else {
      OneMore(down, i);
      Single(i);
      assert InOrder([i]) && (!IsReverse(a) ==> own + up == [i]) && own + down == [i] + down;
    }
  }

  lemma NoNodesOnAttributeAxis(d: Doc, i: Item)
    requires Valid(d) && HasItem(d, i)
    ensures forall y {:trigger InAxis(d, AttributeAxis, i, y)} | d.Has(y) :: !InAxis(d, AttributeAxis, i, y)
  {
  }

  /** The attribute itself comes after its ancestors, and nothing else is beside it on a forward axis. */
  lemma OwnAttributeComes(d: Doc, a: Axis, i: Item, t: NodeTest)
    requires Valid(d) && HasItem(d, i) && !a.AttributeAxis?
    ensures OwnAttribute(d, a, i, t) in {[], [i]}
    ensures OwnAttribute(d, a, i, t) != [] && !IsReverse(a) ==> Ascending(d, a, i, t, d.Size()) == []
    ensures OwnAttribute(d, a, i, t) != [] ==>
              forall y {:trigger y in Descending(d, a, i, t, 0)} :: y in Descending(d, a, i, t, 0) ==> Before(y, i)
  {
    hide Linked, Passes;
    AncestorsAreIntervals(d, i.node);
    DescendingMembers(d, a, i, t, 0);
    if i.attr != NONE && (a.Self? || a.DescendantOrSelf?) { NothingFromAttribute(d, a, i, t); }
  }
}
