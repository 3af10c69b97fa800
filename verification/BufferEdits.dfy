// Editing a parsed document does not put the strings that are left in the buffer out of document order.
//
// A document is listed as its nodes and attributes in document order, each with its two string pointers and the
// bits of its header that say whose memory these are. An edit does to the listing what the operation does: text
// is assigned by `strcpy_insitu` and copied by `node_copy_string`.
module BufferEdits {

  import opened Documents
  import opened BufferOrder
  import XmlPlaces
  import P = XmlParser

  // ---------------------------------------------------------------- strings and their headers

  datatype Address = Nil | InBuffer(at: nat) | Heap

  /** A node or attribute: its strings, and the header bits name_allocated, value_allocated and contents_shared. */
  datatype Entry = Entry(
    attribute: bool, name: Address, value: Address, nameAllocated: bool, valueAllocated: bool, shared: bool)

  /** The listing of a document, and the bit contents_shared of the header of the document. */
  datatype Store = Store(shared: bool, entries: seq<Entry>)

  /** `strcpy_insitu_allow`, for `length` bytes in place of `had`. */
  predicate Reuses(owned: bool, shared: bool, length: nat, had: nat) {
    !shared && had >= length && (owned ==> had < 32 || had - length < had / 2)
  }

  /** `strcpy_insitu`: the string and whether it is allocated, afterwards. */
  function Assign(a: Address, owned: bool, shared: bool, length: nat, had: nat, memory: bool): (Address, bool) {
    if length == 0 then (Nil, false)
    else if !a.Nil? && Reuses(owned, shared, length, had) then (a, owned)
    else if memory then (Heap, true)
    else (a, owned)
  }

  /** `node_copy_string` within one document: a string that is not allocated is shared from then on; of the rest a
      copy is made. The last component says whether source and copy are now shared. */
  function CopyString(source: Address, owned: bool, shared: bool, length: nat, memory: bool): (Address, bool, bool) {
    if source.Nil? then (Nil, false, shared)
    else if !owned then (source, false, true)
    else
      var (a, b) := Assign(Nil, false, shared, length, 0, memory);
      (a, b, shared)
  }

  /** The copy of an entry, and whether its strings are shared between the two. */
  function CopyOf(e: Entry, nameLength: nat, valueLength: nat, memory: bool): (Entry, bool) {
    var (name, nameAllocated, sharesName) := CopyString(e.name, e.nameAllocated, false, nameLength, memory);
    var (value, valueAllocated, shares) := CopyString(e.value, e.valueAllocated, sharesName, valueLength, memory);
    (Entry(e.attribute, name, value, nameAllocated, valueAllocated, shares), shares)
  }

  // ---------------------------------------------------------------- edits

  datatype Edit =
    | SetName(k: nat, length: nat, had: nat, memory: bool)
    | SetValue(k: nat, length: nat, had: nat, memory: bool)
    | Insert(k: nat, attribute: bool)                                  // a new node or attribute, without strings
    | Remove(k: nat, n: nat)                                           // an attribute, or a node with its subtree
    | Copy(k: nat, to: nat, nameLength: nat, valueLength: nat, memory: bool)
    | Move(k: nat, n: nat, to: nat)
    | AppendBuffer(to: nat, more: seq<Entry>)                          // the nodes of a second buffer

  predicate Possible(s: Store, e: Edit) {
    match e
    case SetName(k, _, _, _) => k < |s.entries|
    case SetValue(k, _, _, _) => k < |s.entries|
    case Insert(k, _) => k <= |s.entries|
    case Remove(k, n) => k + n <= |s.entries|
    case Copy(k, to, _, _, _) => k < |s.entries| && to <= |s.entries|
    case Move(k, n, to) => k + n <= |s.entries| && to <= |s.entries| - n
    case AppendBuffer(to, _) => to <= |s.entries|
  }

  function Put(es: seq<Entry>, k: nat, more: seq<Entry>): seq<Entry>
    requires k <= |es|
  {
    es[..k] + more + es[k..]
  }

  function Apply(s: Store, e: Edit): Store
    requires Possible(s, e)
  {
    match e
    case SetName(k, length, had, memory) =>
      var x := s.entries[k];
      var (a, b) := Assign(x.name, x.nameAllocated, x.shared, length, had, memory);
      s.(entries := s.entries[k := x.(name := a, nameAllocated := b)])
    case SetValue(k, length, had, memory) =>
      var x := s.entries[k];
      var (a, b) := Assign(x.value, x.valueAllocated, x.shared, length, had, memory);
      s.(entries := s.entries[k := x.(value := a, valueAllocated := b)])
    case Insert(k, attribute) => s.(entries := Put(s.entries, k, [Entry(attribute, Nil, Nil, false, false, false)]))
    case Remove(k, n) => s.(entries := s.entries[..k] + s.entries[k + n..])
    case Copy(k, to, nameLength, valueLength, memory) =>
      var x := s.entries[k];
      var (copy, shares) := CopyOf(x, nameLength, valueLength, memory);
      s.(entries := Put(s.entries[k := x.(shared := x.shared || shares)], to, [copy]))
    case Move(k, n, to) =>
      var rest := s.entries[..k] + s.entries[k + n..];
      Store(true, Put(rest, to, s.entries[k..k + n]))
    case AppendBuffer(to, more) => Store(true, Put(s.entries, to, more))
  }

  /** What a run of edits makes of the document; those that are not possible are refused. */
  function Run(s: Store, edits: seq<Edit>): Store {
    if edits == [] then s
    else
      var before := Run(s, edits[..|edits| - 1]);
      var e := edits[|edits| - 1];
      if Possible(before, e) then Apply(before, e) else before
  }

  // ---------------------------------------------------------------- what stays in order

  /** A string of the entry is in the buffer at `p`, as far as its header says. */
  predicate HasPlace(e: Entry, p: nat) {
    !e.shared && ((e.name == InBuffer(p) && !e.nameAllocated) || (e.value == InBuffer(p) && !e.valueAllocated))
  }

  ghost predicate Follows(e: Entry, f: Entry) { forall p, q | HasPlace(e, p) && HasPlace(f, q) :: p < q }

  /** The strings in the buffer are in document order, unless the document says that they do not count. */
  ghost predicate Ordered(s: Store) {
    s.shared || forall i, j | 0 <= i < j < |s.entries| :: Follows(s.entries[i], s.entries[j])
  }

  /** The entry has lost strings at most. */
  ghost predicate Thinner(e: Entry, was: Entry) { forall p | HasPlace(e, p) :: HasPlace(was, p) }

  lemma ThinnerFollows(e: Entry, f: Entry, e': Entry, f': Entry)
    requires Follows(e, f) && Thinner(e', e) && Thinner(f', f)
    ensures Follows(e', f')
  {
  }

  /** One entry has lost strings. */
  lemma OneThinner(es: seq<Entry>, k: nat, e: Entry)
    requires k < |es| && Thinner(e, es[k])
    requires forall i, j | 0 <= i < j < |es| :: Follows(es[i], es[j])
    ensures var fs := es[k := e]; forall i, j | 0 <= i < j < |fs| :: Follows(fs[i], fs[j])
  {
    var fs := es[k := e];
    forall i, j | 0 <= i < j < |fs| ensures Follows(fs[i], fs[j]) {
      ThinnerFollows(es[i], es[j], fs[i], fs[j]);
    }
  }

  /** An entry without strings in the buffer has been put in. */
  lemma OnePut(es: seq<Entry>, k: nat, e: Entry)
    requires k <= |es| && forall p :: !HasPlace(e, p)
    requires forall i, j | 0 <= i < j < |es| :: Follows(es[i], es[j])
    ensures var fs := Put(es, k, [e]); forall i, j | 0 <= i < j < |fs| :: Follows(fs[i], fs[j])
  {
    hide HasPlace;
    var fs := Put(es, k, [e]);
    forall i, j | 0 <= i < j < |fs| ensures Follows(fs[i], fs[j]) {
      if i != k && j != k {
        assert fs[i] == es[if i < k then i else i - 1] && fs[j] == es[if j < k then j else j - 1];
      }
    }
  }

  lemma AssignThins(x: Entry, length: nat, had: nat, memory: bool)
    ensures var (a, b) := Assign(x.name, x.nameAllocated, x.shared, length, had, memory);
            Thinner(x.(name := a, nameAllocated := b), x)
    ensures var (a, b) := Assign(x.value, x.valueAllocated, x.shared, length, had, memory);
            Thinner(x.(value := a, valueAllocated := b), x)
  {
  }

  /** A copy has no string in the buffer to itself, and the original keeps none that it shares. */
  lemma CopyHasNoPlace(x: Entry, nameLength: nat, valueLength: nat, memory: bool)
    ensures var (copy, shares) := CopyOf(x, nameLength, valueLength, memory);
            (forall p :: !HasPlace(copy, p)) && Thinner(x.(shared := x.shared || shares), x)
  {
  }

  /** Every edit keeps the order, or says that it does not count. */
  lemma EditKeepsOrder(s: Store, e: Edit)
    requires Ordered(s) && Possible(s, e)
    ensures Ordered(Apply(s, e))
  {
    hide Follows, HasPlace, Thinner, Assign, CopyOf;
    if !s.shared {
      match e
      case SetName(k, length, had, memory) =>
        var x := s.entries[k];
        AssignThins(x, length, had, memory);
        var (a, b) := Assign(x.name, x.nameAllocated, x.shared, length, had, memory);
        OneThinner(s.entries, k, x.(name := a, nameAllocated := b));
      case SetValue(k, length, had, memory) =>
        var x := s.entries[k];
        AssignThins(x, length, had, memory);
        var (a, b) := Assign(x.value, x.valueAllocated, x.shared, length, had, memory);
        OneThinner(s.entries, k, x.(value := a, valueAllocated := b));
      case Insert(k, attribute) =>
        NoStrings(attribute);
        OnePut(s.entries, k, Entry(attribute, Nil, Nil, false, false, false));
      case Copy(k, to, nameLength, valueLength, memory) =>
        var x := s.entries[k];
        CopyHasNoPlace(x, nameLength, valueLength, memory);
        var (copy, shares) := CopyOf(x, nameLength, valueLength, memory);
        OneThinner(s.entries, k, x.(shared := x.shared || shares));
        OnePut(s.entries[k := x.(shared := x.shared || shares)], to, copy);
      case _ =>
    }
  }

  lemma NoStrings(attribute: bool)
    ensures forall p :: !HasPlace(Entry(attribute, Nil, Nil, false, false, false), p)
  {
  }

  lemma {:induction false} RunKeepsOrder(s: Store, edits: seq<Edit>)
    requires Ordered(s)
    ensures Ordered(Run(s, edits))
  {
    hide Ordered, Apply, Possible;
    if edits != [] {
      var before := Run(s, edits[..|edits| - 1]);
      RunKeepsOrder(s, edits[..|edits| - 1]);
      if Possible(before, edits[|edits| - 1]) { EditKeepsOrder(before, edits[|edits| - 1]); }
    }
  }

  // ---------------------------------------------------------------- listings of documents

  function PointerOf(a: Address, taken: bool): Pointer {
    match a
    case Nil => Null
    case InBuffer(at) => if taken then Elsewhere else Buffer(at)
    case Heap => Elsewhere
  }

  function PointersOf(e: Entry): Pointers {
    Pointers(PointerOf(e.name, e.nameAllocated || e.shared), PointerOf(e.value, e.valueAllocated || e.shared))
  }

  /** The items before node `x`, in document order. */
  function ItemsBefore(d: Doc, x: nat): seq<Item>
    requires |d.attributes| == d.Size()
  {
    if x == 0 then []
    else
      var n := if d.Has(x - 1) then |d.attributes[x - 1]| + 1 else 0;
      ItemsBefore(d, x - 1) + seq(n, k => Item(x - 1, k - 1))
  }

  /** The number of an item in the listing. */
  function Index(d: Doc, i: Item): int
    requires |d.attributes| == d.Size()
  {
    (if i.node < 0 then 0 else |ItemsBefore(d, i.node)|) + i.attr + 1
  }

  lemma {:induction false} ItemsGrow(d: Doc, x: nat, y: nat)
    requires |d.attributes| == d.Size() && x <= y
    ensures ItemsBefore(d, x) <= ItemsBefore(d, y)
    decreases y
  {
    if x < y { ItemsGrow(d, x, y - 1); }
  }

  lemma IndexOfItem(d: Doc, i: Item)
    requires |d.attributes| == d.Size() && HasItem(d, i)
    ensures 0 <= Index(d, i) < |ItemsBefore(d, i.node + 1)| <= |ItemsBefore(d, d.Size())|
    ensures ItemsBefore(d, d.Size())[Index(d, i)] == i
  {
    var before, here := ItemsBefore(d, i.node), ItemsBefore(d, i.node + 1);
    assert here == before + seq(|d.attributes[i.node]| + 1, k => Item(i.node, k - 1));
    ItemsGrow(d, i.node + 1, d.Size());
    assert here[Index(d, i)] == i;
  }

  lemma IndexInOrder(d: Doc, i: Item, j: Item)
    requires |d.attributes| == d.Size() && HasItem(d, i) && HasItem(d, j) && Before(i, j)
    ensures Index(d, i) < Index(d, j)
  {
    hide ItemsBefore;
    if i.node < j.node {
      IndexOfItem(d, i);
      ItemsGrow(d, i.node + 1, j.node);
    }
  }

  /** The document `d` with the strings `m` is listed as `s`. */
  ghost predicate Lists(d: Doc, m: Memory, s: Store)
    requires |d.attributes| == d.Size()
  {
    && m.shared == s.shared && |s.entries| == |ItemsBefore(d, d.Size())|
    && forall i | HasItem(d, i) ::
         && 0 <= Index(d, i) < |s.entries|
         && s.entries[Index(d, i)].attribute == (i.attr != NONE)
         && m.strings(i) == PointersOf(s.entries[Index(d, i)])
  }

  /** A place that the comparator uses is one of a string of the entry. */
  lemma PlaceIsThere(m: Memory, i: Item, e: Entry)
    requires m.strings(i) == PointersOf(e) && BufferPlace(m, i) != NONE
    ensures HasPlace(e, BufferPlace(m, i)) && !m.shared
  {
  }

  lemma OrderedPlaces(d: Doc, m: Memory, s: Store)
    requires |d.attributes| == d.Size() && Lists(d, m, s) && Ordered(s)
    ensures PlacesInOrder(d, m)
  {
    hide HasPlace, ItemsBefore, BufferPlace, Index, PointersOf;
    forall i, j | HasItem(d, i) && HasItem(d, j) && Before(i, j) && BufferPlace(m, i) != NONE && BufferPlace(m, j) != NONE
      ensures BufferPlace(m, i) < BufferPlace(m, j)
    {
      IndexInOrder(d, i, j);
      PlaceIsThere(m, i, s.entries[Index(d, i)]);
      PlaceIsThere(m, j, s.entries[Index(d, j)]);
      assert Follows(s.entries[Index(d, i)], s.entries[Index(d, j)]);
    }
  }

  // ---------------------------------------------------------------- from the parse on

  function AddressOf(p: Pointer): Address { if p.Buffer? then InBuffer(p.at) else Nil }

  /** The entry of an item after a parse: nothing is allocated or shared. */
  function ParsedEntry(d: Doc, places: seq<nat>, i: Item): Entry
    requires Shape(d)
  {
    var s := ParsedPointers(d, places, i);
    Entry(i.attr != NONE, AddressOf(s.name), AddressOf(s.value), false, false, false)
  }

  function ParsedStore(d: Doc, places: seq<nat>): Store
    requires Shape(d)
  {
    var items := ItemsBefore(d, d.Size());
    Store(false, seq(|items|, k requires 0 <= k < |items| => ParsedEntry(d, places, items[k])))
  }

  lemma ParsedLists(d: Doc, places: seq<nat>)
    requires Shape(d)
    ensures Lists(d, AfterParse(d, places), ParsedStore(d, places))
  {
    hide ItemsBefore, Index, Offset, MarksBetween;
    forall i | HasItem(d, i) ensures 0 <= Index(d, i) < |ItemsBefore(d, d.Size())| && ItemsBefore(d, d.Size())[Index(d, i)] == i {
      IndexOfItem(d, i);
    }
  }

  lemma {:induction false} ItemsExist(d: Doc, x: nat)
    requires |d.attributes| == d.Size()
    ensures forall k | 0 <= k < |ItemsBefore(d, x)| :: HasItem(d, ItemsBefore(d, x)[k]) && ItemsBefore(d, x)[k].node < x
    ensures forall j, k | 0 <= j < k < |ItemsBefore(d, x)| :: Before(ItemsBefore(d, x)[j], ItemsBefore(d, x)[k])
  {
    if x > 0 { ItemsExist(d, x - 1); }
  }

  /** Before any edit the strings are in order. */
  lemma ParsedIsOrdered(d: Doc, o: P.Options, text: string)
    requires Valid(d) && P.ParseDocument(o, text).Parsed? && Built(d, P.ParseDocument(o, text).children)
    ensures Ordered(ParsedStore(d, P.ParseDocument(o, text).places))
  {
    var r := P.ParseDocument(o, text);
    XmlPlaces.ParsedInOrder(o, text);
    BuiltMarks(d, r.children);
    hide Linked, P.ParseDocument, XmlPlaces.MarksAll, MarksBetween, XmlPlaces.Stood, Offset, LastOffset, ItemsBefore, HasPlace,
         ParsedEntry, Built;
    ItemsExist(d, d.Size());
    var items, es := ItemsBefore(d, d.Size()), ParsedStore(d, r.places).entries;
    forall i, j | 0 <= i < j < |es| ensures Follows(es[i], es[j]) {
      forall p, q | HasPlace(es[i], p) && HasPlace(es[j], q) ensures p < q {
        ParsedPlace(d, r.places, items[i], p);
        ParsedPlace(d, r.places, items[j], q);
        OffsetsInOrder(d, items[i], items[j]);
      }
    }
  }

  lemma ParsedPlace(d: Doc, places: seq<nat>, i: Item, p: nat)
    requires Shape(d) && HasPlace(ParsedEntry(d, places, i), p)
    requires |places| == |MarksBetween(d, 1, d.Size())| && forall j, k | 0 <= j < k < |places| :: places[j] < places[k]
    ensures Placeable(d, i) && 0 <= Offset(d, i) <= LastOffset(d, i) < |places|
    ensures places[Offset(d, i)] <= p <= places[LastOffset(d, i)]
  {
    hide MarksBetween, Offset;
    if Placeable(d, i) { ItemMarks(d, i); }
  }

  /** Over any run of edits of a parsed document, the places the comparator goes by are in document order, and so it
      is right. An attribute with a new name may be left with the place of its value, which is still between those
      of its neighbours. */
  lemma EditsKeepPlaces(d: Doc, o: P.Options, text: string, edits: seq<Edit>, e: Doc, m: Memory)
    requires Valid(d) && P.ParseDocument(o, text).Parsed? && Built(d, P.ParseDocument(o, text).children)
    requires |e.attributes| == e.Size() && Lists(e, m, Run(ParsedStore(d, P.ParseDocument(o, text).places), edits))
    ensures PlacesInOrder(e, m)
  {
    hide Linked, P.ParseDocument, Built, Ordered, Lists, PlacesInOrder, Run, ParsedStore;
    ParsedIsOrdered(d, o, text);
    RunKeepsOrder(ParsedStore(d, P.ParseDocument(o, text).places), edits);
    OrderedPlaces(e, m, Run(ParsedStore(d, P.ParseDocument(o, text).places), edits));
  }
}
