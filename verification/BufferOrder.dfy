// The fast half of the document order comparison: in a parsed document the strings of the nodes and attributes
// stand in the buffer in document order.
module BufferOrder {

  import opened Documents
  import opened XmlPlaces
  import P = XmlParser
  import T = XmlPrinter

  // ---------------------------------------------------------------- the strings of a linked document

  function NodeMarks(d: Doc, x: int): (ms: seq<Mark>)
    requires Shape(d) && d.Has(x)
    ensures ms != []
  {
    match d.kind[x]
    case Pcdata => [PcdataMark(d.value[x])]
    case Cdata => [CdataMark(d.value[x])]
    case _ => [NameMark(d.name[x])] + AttributeMarks(d.attributes[x])
  }

  /** The strings of the nodes from `lo` to before `hi`. */
  function MarksBetween(d: Doc, lo: nat, hi: int): seq<Mark>
    requires Shape(d)
    decreases hi - lo
  {
    if hi <= lo then [] else MarksBetween(d, lo, hi - 1) + (if d.Has(hi - 1) then NodeMarks(d, hi - 1) else [])
  }

  lemma {:induction false} MarksJoin(d: Doc, lo: nat, mid: int, hi: int)
    requires Shape(d) && lo <= mid <= hi
    ensures MarksBetween(d, lo, mid) + MarksBetween(d, mid, hi) == MarksBetween(d, lo, hi)
    decreases hi
  {
    hide NodeMarks;
    if mid < hi { MarksJoin(d, lo, mid, hi - 1); }
  }

  lemma {:induction false} MarksCons(t: P.Node, ts: seq<P.Node>)
    ensures MarksAll([t] + ts) == Marks(t) + MarksAll(ts)
    decreases |ts|
  {
    hide Marks;
    var all := [t] + ts;
    if ts == [] {
      assert all[..0] == [];
    } else {
      assert all[..|all| - 1] == [t] + ts[..|ts| - 1];
      MarksCons(t, ts[..|ts| - 1]);
    }
  }

  lemma OneNode(d: Doc, x: int)
    requires Shape(d) && d.Has(x)
    ensures MarksBetween(d, x, x + 1) == NodeMarks(d, x)
  {
    assert MarksBetween(d, x, x) == [];
  }

  lemma FirstChildFacts(d: Doc, x: int)
    requires Valid(d) && d.Has(x)
    ensures d.firstChild[x] == NONE || (d.firstChild[x] == x + 1 && d.Has(x + 1) && d.parent[x + 1] == x)
    ensures d.firstChild[x] == NONE ==> d.end[x] == x + 1
    ensures x < d.end[x] <= d.Size()
  {
    NodeFacts(d, x);
    if d.firstChild[x] != NONE { NodeFacts(d, x + 1); }
  }

  /** The strings of a subtree are those of its nodes. */
  lemma {:induction false} TreeMarks(d: Doc, x: int)
    requires Valid(d) && T.Plain(d) && 0 < x < d.Size()
    ensures Marks(T.TreeAt(d, x)) == MarksBetween(d, x, d.end[x])
    decreases d.Size() - x, 0
  {
    hide Linked, MarksAll, AttributeMarks, MarksBetween, T.TreesFrom;
    FirstChildFacts(d, x);
    OneNode(d, x);
    if d.kind[x].Element? {
      MarksJoin(d, x, x + 1, d.end[x]);
      TreesMarks(d, d.firstChild[x], x);
    }
  }

  /** The strings of the children of `p` from `c` on. */
  lemma {:induction false} TreesMarks(d: Doc, c: int, p: int)
    requires Valid(d) && T.Plain(d) && d.Has(p)
    requires if c == NONE then d.firstChild[p] == NONE else d.Has(c) && d.parent[c] == p
    ensures MarksAll(T.TreesFrom(d, c)) == MarksBetween(d, if c == NONE then d.end[p] else c, d.end[p])
    decreases if c == NONE then 0 else d.Size() - c, 1
  {
    hide Linked, Marks, NodeMarks, T.TreeAt, T.Plain;
    if c != NONE {
      NodeFacts(d, c);
      NextSibling(d, c);
      MarksCons(T.TreeAt(d, c), T.TreesFrom(d, d.next[c]));
      TreeMarks(d, c);
      MarksJoin(d, c, d.end[c], d.end[p]);
      if d.next[c] != NONE { TreesMarks(d, d.next[c], p); }
    }
  }

  /** The links hold what was parsed. Only elements have attributes. */
  predicate Built(d: Doc, children: seq<P.Node>)
    requires Valid(d)
  {
    && T.Plain(d) && d.kind[0].DocumentNode?
    && (forall x | 0 <= x < d.Size() && !d.kind[x].Element? :: d.attributes[x] == [])
    && (FirstChildFacts(d, 0); T.TreesFrom(d, d.firstChild[0]) == children)
  }

  lemma BuiltMarks(d: Doc, children: seq<P.Node>)
    requires Valid(d) && Built(d, children)
    ensures MarksAll(children) == MarksBetween(d, 1, d.Size())
  {
    hide Linked, MarksAll, T.TreesFrom, T.Plain;
    FirstChildFacts(d, 0);
    NodeFacts(d, 0);
    TreesMarks(d, d.firstChild[0], 0);
    assert d.firstChild[0] == NONE ==> MarksBetween(d, 1, 1) == [];
  }

  // ---------------------------------------------------------------- which string belongs to which item

  /** The number of the first string of an item: its name, or the text of a node that has none. */
  function Offset(d: Doc, i: Item): int
    requires Shape(d)
  {
    |MarksBetween(d, 1, i.node)| + (if i.attr == NONE then 0 else 1 + 2 * i.attr)
  }

  /** The number of its last string: the value of an attribute. */
  function LastOffset(d: Doc, i: Item): int
    requires Shape(d)
  {
    Offset(d, i) + (if i.attr == NONE then 0 else 1)
  }

  lemma {:induction false} AttributeMarksAt(a: seq<Attribute>, k: nat)
    ensures |AttributeMarks(a)| == 2 * |a|
    ensures k < |a| ==> AttributeMarks(a)[2 * k] == NameMark(a[k].name) && AttributeMarks(a)[2 * k + 1] == ValueMark(a[k].value)
    decreases |a|
  {
    if a != [] { AttributeMarksAt(a[..|a| - 1], k); }
  }

  predicate Placeable(d: Doc, i: Item)
    requires Shape(d)
  {
    HasItem(d, i) && i.node > 0 && (i.attr != NONE ==> d.kind[i.node].Element?)
  }

  /** What stands in the buffer where an item has its place. */
  function ItemMark(d: Doc, i: Item): Mark
    requires Shape(d) && Placeable(d, i)
  {
    if i.attr == NONE then NodeMarks(d, i.node)[0] else NameMark(d.attributes[i.node][i.attr].name)
  }

  /** The strings of a node among all. */
  lemma NodeMarksAt(d: Doc, x: int)
    requires Shape(d) && 0 < x < d.Size()
    ensures var n, ms := |MarksBetween(d, 1, x)|, MarksBetween(d, 1, d.Size());
            && |MarksBetween(d, 1, x + 1)| == n + |NodeMarks(d, x)| <= |ms|
            && ms[n..n + |NodeMarks(d, x)|] == NodeMarks(d, x)
  {
    OneNode(d, x);
    MarksJoin(d, 1, x, x + 1);
    MarksJoin(d, 1, x + 1, d.Size());
    hide MarksBetween, NodeMarks;
  }

  /** The strings of an item among those of its node. */
  lemma OwnMarks(d: Doc, i: Item)
    requires Shape(d) && Placeable(d, i)
    ensures var ms := NodeMarks(d, i.node);
            i.attr != NONE ==>
              && 2 + 2 * i.attr < |ms|
              && ms[1 + 2 * i.attr] == NameMark(d.attributes[i.node][i.attr].name)
              && ms[2 + 2 * i.attr] == ValueMark(d.attributes[i.node][i.attr].value)
  {
    if i.attr != NONE { AttributeMarksAt(d.attributes[i.node], i.attr); }
  }

  lemma InSlice(ms: seq<Mark>, n: nat, here: seq<Mark>, k: nat)
    requires n + |here| <= |ms| && ms[n..n + |here|] == here && k < |here|
    ensures ms[n + k] == here[k]
  {
    assert ms[n + k] == ms[n..n + |here|][k];
  }

  /** What the strings of an item are. */
  lemma ItemMarks(d: Doc, i: Item)
    requires Shape(d) && Placeable(d, i)
    ensures 0 <= Offset(d, i) <= LastOffset(d, i) < |MarksBetween(d, 1, i.node + 1)| <= |MarksBetween(d, 1, d.Size())|
    ensures MarksBetween(d, 1, d.Size())[Offset(d, i)] == ItemMark(d, i)
    ensures i.attr != NONE ==>
              MarksBetween(d, 1, d.Size())[LastOffset(d, i)] == ValueMark(d.attributes[i.node][i.attr].value)
  {
    hide MarksBetween, NodeMarks;
    var x := i.node;
    NodeMarksAt(d, x);
    OwnMarks(d, i);
    var n, here, ms := |MarksBetween(d, 1, x)|, NodeMarks(d, x), MarksBetween(d, 1, d.Size());
    InSlice(ms, n, here, if i.attr == NONE then 0 else 1 + 2 * i.attr);
    if i.attr != NONE { InSlice(ms, n, here, 2 + 2 * i.attr); }
  }

  /** An item's strings come before those of any later item. */
  lemma OffsetsInOrder(d: Doc, i: Item, j: Item)
    requires Shape(d) && Placeable(d, i) && Placeable(d, j) && Before(i, j)
    ensures LastOffset(d, i) < Offset(d, j)
  {
    if i.node < j.node {
      ItemMarks(d, i);
      MarksJoin(d, 1, i.node + 1, j.node);
    }
  }

  // ---------------------------------------------------------------- the places

  /** The pointers a parse sets: names of elements, names and values of attributes, texts. */
  function ParsedPointers(d: Doc, places: seq<nat>, i: Item): Pointers
    requires Shape(d)
  {
    if !Placeable(d, i) || LastOffset(d, i) >= |places| || Offset(d, i) < 0 then Pointers(Null, Null)
    else
      var p := Buffer(places[Offset(d, i)]);
      if i.attr != NONE then Pointers(p, Buffer(places[LastOffset(d, i)]))
      else if d.kind[i.node].Element? then Pointers(p, Null)
      else Pointers(Null, p)
  }

  function AfterParse(d: Doc, places: seq<nat>): Memory
    requires Shape(d)
  {
    Memory(false, i => ParsedPointers(d, places, i))
  }

  /** After a parse every node but the document node, and every attribute, has a place in the buffer: there its
      name or text stands. The places are in document order, so the comparator decides by them alone, and is
      false of an item and itself. */
  lemma ParsedPlaces(d: Doc, o: P.Options, text: string)
    requires Valid(d) && P.ParseDocument(o, text).Parsed? && Built(d, P.ParseDocument(o, text).children)
    ensures var m := AfterParse(d, P.ParseDocument(o, text).places);
            && PlacesInOrder(d, m)
            && (forall i | HasItem(d, i) && i.node > 0 ::
                 && Placeable(d, i) && 0 <= BufferPlace(m, i)
                 && Stood(P.Source(text[..|text| - 1], text[|text| - 1], o), BufferPlace(m, i), ItemMark(d, i)))
            && (forall i | HasItem(d, i) :: !ComesBefore(m, i, i))
  {
    var r := P.ParseDocument(o, text);
    var src := P.Source(text[..|text| - 1], text[|text| - 1], o);
    var m := AfterParse(d, r.places);
    ParsedInOrder(o, text);
    BuiltMarks(d, r.children);
    hide Linked, P.ParseDocument, MarksAll, MarksBetween, Stood, T.Plain, Offset;
    forall i | HasItem(d, i) && i.node > 0
      ensures Placeable(d, i) && 0 <= BufferPlace(m, i) && Stood(src, BufferPlace(m, i), ItemMark(d, i))
      ensures BufferPlace(m, i) == r.places[Offset(d, i)]
    {
      ItemMarks(d, i);
    }
    forall i, j | HasItem(d, i) && HasItem(d, j) && Before(i, j) && BufferPlace(m, i) != NONE && BufferPlace(m, j) != NONE
      ensures BufferPlace(m, i) < BufferPlace(m, j)
    {
      ItemMarks(d, i);
      ItemMarks(d, j);
      OffsetsInOrder(d, i, j);
    }
  }
}
