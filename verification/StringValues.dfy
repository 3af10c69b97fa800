// The string values of nodes (XPath 1.0, section 5): what `text()` selects, in order, is the character data of
// the element, and so is what the program collects when a query asks for the string value of a node.
module StringValues {

  import opened Documents
  import P = XmlParser
  import T = XmlPrinter

  // ---------------------------------------------------------------- the character data of a tree

  /** Character data and CDATA sections, in document order. */
  function TextOf(n: P.Node): string {
    match n
    case Pcdata(s) => s
    case Cdata(s) => s
    case Element(_, _, children) => TextOfAll(children)
  }

  function TextOfAll(ns: seq<P.Node>): string { if ns == [] then "" else TextOf(ns[0]) + TextOfAll(ns[1..]) }

  predicate IsText(d: Doc, x: int)
    requires Valid(d) && d.Has(x)
  {
    d.kind[x].Pcdata? || d.kind[x].Cdata?
  }

  /** Text nodes have no children. */
  predicate TextIsLeaf(d: Doc)
    requires Valid(d)
  {
    forall x | 0 <= x < d.Size() && IsText(d, x) :: d.firstChild[x] == NONE
  }

  /** The texts of the nodes from `lo` up to `hi`. */
  function TextBetween(d: Doc, lo: int, hi: int): string
    requires Valid(d) && 0 <= lo <= hi <= d.Size()
    decreases hi
  {
    if lo == hi then "" else TextBetween(d, lo, hi - 1) + (if IsText(d, hi - 1) then d.value[hi - 1] else "")
  }

  lemma {:induction false} TextSplits(d: Doc, lo: int, mid: int, hi: int)
    requires Valid(d) && 0 <= lo <= mid <= hi <= d.Size()
    ensures TextBetween(d, lo, hi) == TextBetween(d, lo, mid) + TextBetween(d, mid, hi)
    decreases hi
  {
    hide Linked;
    if mid < hi { TextSplits(d, lo, mid, hi - 1); }
  }

  /** The text of a subtree is that of its nodes. */
  lemma {:induction false} TextOfTree(d: Doc, x: int)
    requires Valid(d) && TextIsLeaf(d) && d.Has(x)
    ensures x < d.end[x] <= d.Size() && TextOf(T.TreeAt(d, x)) == TextBetween(d, x, d.end[x])
    decreases d.Size() - x, 0
  {
    NodeFacts(d, x);
    hide Linked;
    assert TextBetween(d, x, x + 1) == TextBetween(d, x, x) + (if IsText(d, x) then d.value[x] else "");
    TextSplits(d, x, x + 1, d.end[x]);
    if !IsText(d, x) && d.firstChild[x] != NONE {
      NodeFacts(d, x + 1);
      TextOfTrees(d, x + 1);
    }
  }

  lemma {:induction false} TextOfTrees(d: Doc, c: int)
    requires Valid(d) && TextIsLeaf(d) && d.Has(c) && d.Has(d.parent[c])
    ensures c < d.end[d.parent[c]] <= d.Size()
    ensures TextOfAll(T.TreesFrom(d, c)) == TextBetween(d, c, d.end[d.parent[c]])
    decreases d.Size() - c, 1
  {
    var p := d.parent[c];
    NodeFacts(d, c);
    NodeFacts(d, p);
    NextSibling(d, c);
    hide Linked, T.TreeAt, TextOf;
    TextOfTree(d, c);
    assert p < c < d.end[p] ==> d.end[c] <= d.end[p];
    TextSplits(d, c, d.end[c], d.end[p]);
    var rest := T.TreesFrom(d, d.next[c]);
    assert ([T.TreeAt(d, c)] + rest)[1..] == rest;
    if d.next[c] != NONE { TextOfTrees(d, d.next[c]); }
  }

  // ---------------------------------------------------------------- what text() selects

  /** The values of the nodes of a list, one after another. */
  function Values(d: Doc, ns: seq<Item>): string
    requires Valid(d) && forall k | 0 <= k < |ns| :: d.Has(ns[k].node)
  {
    if ns == [] then ""
    else
      var last := ns[|ns| - 1];
      assert d.Has(last.node);
      Values(d, ns[..|ns| - 1]) + d.value[last.node]
  }

  /** The list has the text nodes from `lo` up to `hi`, in document order. */
  predicate ListsText(d: Doc, ns: seq<Item>, lo: int, hi: int)
    requires Valid(d) && 0 <= lo <= hi <= d.Size()
  {
    && InOrder(ns)
    && (forall k | 0 <= k < |ns| :: ns[k].attr == NONE && lo <= ns[k].node < hi && IsText(d, ns[k].node))
    && (forall y | lo <= y < hi && IsText(d, y) :: Item(y, NONE) in ns)
  }

  lemma {:induction false} ValuesAreText(d: Doc, ns: seq<Item>, lo: int, hi: int)
    requires Valid(d) && 0 <= lo <= hi <= d.Size() && ListsText(d, ns, lo, hi)
    ensures Values(d, ns) == TextBetween(d, lo, hi)
    decreases hi
  {
    hide Linked;
    if lo < hi {
      var y := Item(hi - 1, NONE);
      if IsText(d, hi - 1) {
        LastIsLast(d, ns, lo, hi);
        ValuesAreText(d, ns[..|ns| - 1], lo, hi - 1);
      } else {
        ValuesAreText(d, ns, lo, hi - 1);
      }
    }
  }

  lemma LastIsLast(d: Doc, ns: seq<Item>, lo: int, hi: int)
    requires Valid(d) && 0 <= lo < hi <= d.Size() && ListsText(d, ns, lo, hi) && IsText(d, hi - 1)
    ensures ns != [] && ns[|ns| - 1] == Item(hi - 1, NONE)
    ensures ListsText(d, ns[..|ns| - 1], lo, hi - 1)
  {
    hide Linked;
    var y := Item(hi - 1, NONE);
    assert y in ns;
    var k :| 0 <= k < |ns| && ns[k] == y;
    assert k < |ns| - 1 ==> Before(ns[k], ns[|ns| - 1]);
    var rest := ns[..|ns| - 1];
    forall z | lo <= z < hi - 1 && IsText(d, z) ensures Item(z, NONE) in rest {
      var m :| 0 <= m < |ns| && ns[m] == Item(z, NONE);
      assert rest[m] == ns[m];
    }
    forall m | 0 <= m < |rest| ensures rest[m].node < hi - 1 {
      assert Before(ns[m], ns[|ns| - 1]);
    }
  }

  /** What `descendant::text()` selects from an element or the document, in document order, makes up the character
      data and CDATA sections of its tree. */
  lemma TextSelected(d: Doc, x: int, ns: seq<Item>)
    requires Valid(d) && TextIsLeaf(d) && d.Has(x) && !IsText(d, x)
    requires InOrder(ns) && (set y | y in ns) == Chosen(d, Descendant, Item(x, NONE), TestTypeText)
    ensures forall k | 0 <= k < |ns| :: d.Has(ns[k].node)
    ensures Values(d, ns) == TextOf(T.TreeAt(d, x))
  {
    hide Linked, T.TreeAt, TextOf, TextBetween, Chosen;
    TextBelow(d, x);
    ChosenText(d, x, ns);
    ValuesAreText(d, ns, x + 1, d.end[x]);
  }

  lemma TextBelow(d: Doc, x: int)
    requires Valid(d) && TextIsLeaf(d) && d.Has(x) && !IsText(d, x)
    ensures x < d.end[x] <= d.Size() && TextOf(T.TreeAt(d, x)) == TextBetween(d, x + 1, d.end[x])
  {
    hide Linked, T.TreeAt, TextOf, TextBetween;
    TextOfTree(d, x);
    TextSplits(d, x, x + 1, d.end[x]);
    NothingBetween(d, x);
    OneMoreText(d, x, x);
  }

  lemma ChosenTextItem(d: Doc, x: int, y: Item)
    requires Valid(d) && d.Has(x)
    ensures y in Chosen(d, Descendant, Item(x, NONE), TestTypeText)
       <==> y.attr == NONE && d.Has(y.node) && x < y.node < d.end[x] && IsText(d, y.node)
  {
    AncestorsAreIntervals(d, x);
    hide Linked, IsAncestor;
    assert d.Has(y.node) && y.attr == NONE ==> HasItem(d, y);
  }

  lemma ChosenText(d: Doc, x: int, ns: seq<Item>)
    requires Valid(d) && d.Has(x) && x < d.end[x] <= d.Size() && InOrder(ns)
    requires (set y | y in ns) == Chosen(d, Descendant, Item(x, NONE), TestTypeText)
    ensures ListsText(d, ns, x + 1, d.end[x])
  {
    hide Linked, IsAncestor, Chosen;
    forall k | 0 <= k < |ns|
      ensures ns[k].attr == NONE && x < ns[k].node < d.end[x] && IsText(d, ns[k].node)
    {
      ChosenTextItem(d, x, ns[k]);
      assert ns[k] in (set y | y in ns);
    }
    forall y | x < y < d.end[x] && IsText(d, y) ensures Item(y, NONE) in ns {
      ChosenTextItem(d, x, Item(y, NONE));
      assert Item(y, NONE) in (set z | z in ns);
    }
  }

  // ---------------------------------------------------------------- the string value of a node

  /** Sections 5.1 to 5.7. An element has text of its own, before that of its children, where the parser was told to
      put it there. */
  function StringValueOf(d: Doc, i: Item): string
    requires Valid(d) && HasItem(d, i)
  {
    if i.attr != NONE then d.attributes[i.node][i.attr].value
    else match d.kind[i.node]
      case DocumentNode => d.value[i.node] + TextOf(T.TreeAt(d, i.node))
      case Element => d.value[i.node] + TextOf(T.TreeAt(d, i.node))
      case OtherNode => ""
      case _ => d.value[i.node]
  }

  lemma OneMoreText(d: Doc, lo: int, x: int)
    requires Valid(d) && 0 <= lo <= x < d.Size()
    ensures TextBetween(d, lo, x + 1) == TextBetween(d, lo, x) + (if IsText(d, x) then d.value[x] else "")
  {
  }

  /** `string_value`: the loop down to first children, along siblings and up again. */
  method StringValue(d: Doc, i: Item) returns (s: string)
    requires Valid(d) && TextIsLeaf(d) && HasItem(d, i)
    ensures s == StringValueOf(d, i)
  {
    hide Linked, T.TreeAt, TextOf, TextBetween;
    var n := i.node;
    if i.attr != NONE { return d.attributes[n][i.attr].value; }
    if d.kind[n].OtherNode? { return ""; }
    if !d.kind[n].Element? && !d.kind[n].DocumentNode? { return d.value[n]; }
    s := "";
    if d.value[n] != "" { s := s + d.value[n]; }
    NodeFacts(d, n);
    TextBelow(d, n);
    NothingBetween(d, n + 1);
    var cur := d.firstChild[n];
    while cur != NONE
      invariant cur == NONE || n < cur < d.end[n]
      invariant n + 1 <= d.end[n] <= d.Size()
      invariant s == d.value[n] + TextBetween(d, n + 1, if cur == NONE then d.end[n] else cur)
      decreases if cur == NONE then 0 else d.end[n] - cur
    {
      OneMoreText(d, n + 1, cur);
      if d.kind[cur].Pcdata? || d.kind[cur].Cdata? { s := s + d.value[cur]; }
      NodeFacts(d, cur);
      if d.firstChild[cur] != NONE {
        cur := d.firstChild[cur];
      } else {
        cur := NextAfter(d, cur, n);
      }
    }
  }

  lemma NothingBetween(d: Doc, x: int)
    requires Valid(d) && 0 <= x <= d.Size()
    ensures TextBetween(d, x, x) == ""
  {
  }
}
