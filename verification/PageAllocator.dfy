// The page allocator of a document: blocks are cut from the last page of a list, freed bytes are only
// counted, and a page leaves when the last of its blocks is freed.
//
// A page is its number in the store of all pages ever made, an address is a page and an offset into its
// data. Sizes in bytes, on a 64-bit machine. Asking the system for a page succeeds.
module PageAllocator {

  const NONE: int := -1
  const PAGE_SIZE: nat := 32768 - 40
  const THRESHOLD: nat := PAGE_SIZE / 4
  const ALIGNMENT: nat := 8
  const MAX_ENCODED: nat := 65536 * ALIGNMENT

  datatype Block = Block(page: int, offset: nat, size: nat)

  predicate Apart(a: Block, b: Block) {
    a.page == b.page ==> a.offset + a.size <= b.offset || b.offset + b.size <= a.offset
  }

  /** The bytes of the blocks on a page. */
  function Bytes(live: seq<Block>, page: int): nat {
    if live == [] then 0
    else (if live[|live| - 1].page == page then live[|live| - 1].size else 0) + Bytes(live[..|live| - 1], page)
  }

  function Without(live: seq<Block>, k: nat): seq<Block>
    requires k < |live|
  {
    live[..k] + live[k + 1..]
  }

  lemma BytesLast(live: seq<Block>, b: Block, page: int)
    ensures Bytes(live + [b], page) == Bytes(live, page) + if b.page == page then b.size else 0
  {
    assert (live + [b])[..|live|] == live;
  }

  lemma {:induction false} BytesWithout(live: seq<Block>, k: nat, page: int)
    requires k < |live|
    ensures Bytes(Without(live, k), page) == Bytes(live, page) - if live[k].page == page then live[k].size else 0
    decreases |live|
  {
    hide Bytes;
    var rest, b := live[..|live| - 1], live[|live| - 1];
    assert live == rest + [b];
    BytesLast(rest, b, page);
    if k < |rest| {
      BytesWithout(rest, k, page);
      assert Without(live, k) == Without(rest, k) + [b];
      BytesLast(Without(rest, k), b, page);
    } else {
      assert Without(live, k) == rest;
    }
  }

  lemma {:induction false} BytesOfNone(live: seq<Block>, page: int)
    requires forall i | 0 <= i < |live| :: live[i].size > 0
    ensures Bytes(live, page) == 0 <==> forall i | 0 <= i < |live| :: live[i].page != page
  {
    if live != [] {
      BytesOfNone(live[..|live| - 1], page);
      assert forall i | 0 <= i < |live| - 1 :: live[..|live| - 1][i] == live[i];
    }
  }

  /** The pages in use, as they are linked. */
  predicate Linked(order: seq<int>, prev: seq<int>, next: seq<int>) {
    && |prev| == |next|
    && (forall i | 0 <= i < |order| :: 0 <= order[i] < |prev|)
    && (forall i, j | 0 <= i < j < |order| :: order[i] != order[j])
    && (forall i {:trigger LinkAt(order, prev, next, i)} | 0 <= i < |order| :: LinkAt(order, prev, next, i))
  }

  predicate LinkAt(order: seq<int>, prev: seq<int>, next: seq<int>, i: nat)
    requires i < |order| && 0 <= order[i] < |prev| == |next|
  {
    && next[order[i]] == (if i + 1 < |order| then order[i + 1] else NONE)
    && prev[order[i]] == (if i > 0 then order[i - 1] else NONE)
  }

  /** The counters of a page of which `used` bytes were handed out. */
  predicate Counted(live: seq<Block>, p: int, used: nat, freed: nat, room: nat, last: bool) {
    && freed + Bytes(live, p) == used <= room
    && (freed < used || (last && used == 0))
    && used % ALIGNMENT == 0 && (last ==> room == PAGE_SIZE)
  }

  /** A block lies in what was handed out of its page; a very large one is all of it. */
  predicate Placed(b: Block, used: nat, last: bool) {
    && 0 < b.size && b.offset + b.size <= used && b.offset % ALIGNMENT == 0 == b.size % ALIGNMENT
    && (b.size > PAGE_SIZE ==> !last && b.offset == 0 && b.size == used)
  }

  /** What is counted of all pages, and which blocks are live. */
  datatype Books = Books(order: seq<int>, used: seq<nat>, freed: seq<nat>, room: seq<nat>, live: seq<Block>)
  {
    predicate Has(p: int) { 0 <= p < |used| == |freed| == |room| }

    predicate Last(p: int) { order != [] && p == order[|order| - 1] }

    predicate PageOk(p: int) { Has(p) && Counted(live, p, used[p], freed[p], room[p], Last(p)) }

    predicate BlockOk(b: Block) { b.page in order && Has(b.page) && Placed(b, used[b.page], Last(b.page)) }

    predicate Sound() {
      && order != [] && |used| == |freed| == |room|
      && (forall p | p in order :: PageOk(p))
      && (forall i | 0 <= i < |live| :: BlockOk(live[i]))
      && (forall i, j | 0 <= i < j < |live| :: Apart(live[i], live[j]))
      && live != [] && live[0] == Block(order[0], 0, PAGE_SIZE)
    }
  }

  lemma BlockAdded(live: seq<Block>, b: Block)
    ensures forall p {:trigger Bytes(live + [b], p)} ::
      Bytes(live + [b], p) == Bytes(live, p) + if b.page == p then b.size else 0
  {
    hide Bytes;
    forall p ensures Bytes(live + [b], p) == Bytes(live, p) + if b.page == p then b.size else 0 {
      BytesLast(live, b, p);
    }
  }

  /** A block cut from the last page. */
  lemma CutFromLast(s: Books, b: Block)
    requires s.Sound() && s.Last(b.page) && s.Has(b.page) && b.offset == s.used[b.page]
    requires 0 < b.size && b.size % ALIGNMENT == 0 && b.offset + b.size <= PAGE_SIZE
    ensures s.(used := s.used[b.page := b.offset + b.size], live := s.live + [b]).Sound()
  {
    var t := s.(used := s.used[b.page := b.offset + b.size], live := s.live + [b]);
    BlockAdded(s.live, b);
    assert s.PageOk(b.page);
    hide Bytes, Placed;
    forall p | p in t.order ensures t.PageOk(p) { assert s.PageOk(p); }
    assert forall i | 0 <= i < |t.live| :: t.BlockOk(t.live[i]) by {
      hide Counted;
      forall i | 0 <= i < |t.live| ensures t.BlockOk(t.live[i]) {
        CutKeepsBlock(s, t, b, i);
      }
    }
    assert forall i | 0 <= i < |s.live| :: Apart(s.live[i], b) by {
      forall i | 0 <= i < |s.live| ensures Apart(s.live[i], b) {
        assert s.BlockOk(s.live[i]);
        PlacedWithin(s.live[i], s.used[s.live[i].page], s.Last(s.live[i].page));
      }
    }
  }

  lemma PlacedWithin(b: Block, used: nat, last: bool)
    requires Placed(b, used, last)
    ensures b.offset + b.size <= used && b.size > 0
  {}

  lemma CutKeepsBlock(s: Books, t: Books, b: Block, i: nat)
    requires s.Sound() && s.Last(b.page) && s.Has(b.page) && b.offset == s.used[b.page] && b.offset % ALIGNMENT == 0
    requires 0 < b.size <= PAGE_SIZE && b.size % ALIGNMENT == 0
    requires t == s.(used := s.used[b.page := b.offset + b.size], live := s.live + [b]) && i < |t.live|
    ensures t.BlockOk(t.live[i])
  {
    hide Counted, Bytes;
    if i < |s.live| { assert s.BlockOk(s.live[i]); }
  }

  /** A new page whose one block is `b`, put last or somewhere before the last page. */
  lemma PageAdded(s: Books, t: Books, b: Block)
    requires s.Sound() && b.page == |s.used| && b.offset == 0
    requires 0 < b.size && b.size % ALIGNMENT == 0
    requires t.used == s.used + [b.size] && t.freed == s.freed + [0] && t.live == s.live + [b]
    requires |t.room| == |s.room| + 1 && t.room[..|s.room|] == s.room && b.size <= t.room[b.page]
    requires t.order != [] && t.order[0] == s.order[0] && b.page in t.order && s.Has(s.order[|s.order| - 1])
    requires forall p :: p in t.order <==> p in s.order || p == b.page
    requires if t.Last(b.page) then b.size <= PAGE_SIZE == t.room[b.page] && s.used[s.order[|s.order| - 1]] > 0
             else t.order[|t.order| - 1] == s.order[|s.order| - 1]
    ensures t.Sound()
  {
    BlockAdded(s.live, b);
    assert forall p | p in s.order :: s.PageOk(p);
    assert forall i | 0 <= i < |s.live| :: s.BlockOk(s.live[i]) && s.live[i].page != b.page && s.live[i].size > 0;
    BytesOfNone(s.live, b.page);
    hide Bytes;
    forall p | p in t.order ensures t.PageOk(p) { if p != b.page { assert s.PageOk(p); } }
    forall i | 0 <= i < |t.live| ensures t.BlockOk(t.live[i]) {
      if i < |s.live| { assert s.BlockOk(s.live[i]); }
    }
  }

  /** No other block is on the page of the `k`-th. */
  predicate Alone(live: seq<Block>, k: nat)
    requires k < |live|
  {
    forall i | 0 <= i < |live| && i != k :: live[i].page != live[k].page
  }

  /** A freed block: its bytes are counted as freed, and all bytes of a page are freed exactly when no
      other block is left on it. */
  lemma BlockFreed(s: Books, k: nat)
    requires s.Sound() && 0 < k < |s.live|
    ensures s.BlockOk(s.live[k]) && s.freed[s.live[k].page] + s.live[k].size <= s.used[s.live[k].page]
    ensures s.freed[s.live[k].page] + s.live[k].size == s.used[s.live[k].page] <==> Alone(s.live, k)
    ensures var p, rest := s.live[k].page, Without(s.live, k);
      if !Alone(s.live, k) then Counted(rest, p, s.used[p], s.freed[p] + s.live[k].size, s.room[p], s.Last(p))
      else s.Last(p) ==> Counted(rest, p, 0, 0, s.room[p], true)
  {
    var b, rest := s.live[k], Without(s.live, k);
    assert s.BlockOk(b) && s.PageOk(b.page);
    BytesWithout(s.live, k, b.page);
    forall i | 0 <= i < |rest| ensures rest[i].size > 0 {
      assert rest[i] == s.live[if i < k then i else i + 1] && s.BlockOk(rest[i]);
    }
    hide Books.Sound, Bytes;
    BytesOfNone(rest, b.page);
    if forall i | 0 <= i < |rest| :: rest[i].page != b.page {
      forall i | 0 <= i < |s.live| && i != k ensures s.live[i].page != b.page {
        assert s.live[i] == rest[if i < k then i else i - 1];
      }
    }
  }

  /** Without the block, whatever becomes of its page. */
  lemma StillSound(s: Books, k: nat, t: Books)
    requires s.Sound() && 0 < k < |s.live| && s.Has(s.live[k].page) && t.Has(s.live[k].page)
    requires t.live == Without(s.live, k) && t.room == s.room && |t.used| == |s.used|
    requires forall p | s.Has(p) && p != s.live[k].page :: t.used[p] == s.used[p] && t.freed[p] == s.freed[p]
    requires t.order != [] && t.order[0] == s.order[0] && t.order[|t.order| - 1] == s.order[|s.order| - 1]
    requires forall p :: p in t.order ==> p in s.order
    requires forall p :: p in s.order && p != s.live[k].page ==> p in t.order
    requires s.live[k].page in t.order ==> t.PageOk(s.live[k].page)
    requires t.used[s.live[k].page] == s.used[s.live[k].page] || Alone(s.live, k)
    requires s.live[k].page in t.order || Alone(s.live, k)
    ensures t.Sound()
  {
    var page := s.live[k].page;
    forall p | p in t.order ensures t.PageOk(p) {
      if p != page {
        assert s.PageOk(p);
        BytesWithout(s.live, k, p);
      }
    }
    hide Bytes, Counted;
    forall i | 0 <= i < |t.live| ensures t.BlockOk(t.live[i]) {
      var j := if i < k then i else i + 1;
      assert t.live[i] == s.live[j] && s.BlockOk(s.live[j]);
    }
  }

  lemma LastPageAdded(s: Books, size: nat)
    requires s.Sound() && size > 0 && size % ALIGNMENT == 0 && size <= THRESHOLD
    requires s.Has(s.order[|s.order| - 1]) && s.used[s.order[|s.order| - 1]] > 0
    ensures Books(s.order + [|s.used|], s.used + [size], s.freed + [0], s.room + [PAGE_SIZE],
                  s.live + [Block(|s.used|, 0, size)]).Sound()
  {
    assert forall p | p in s.order :: s.PageOk(p);
    hide Books.Sound;
    PageAdded(s, Books(s.order + [|s.used|], s.used + [size], s.freed + [0], s.room + [PAGE_SIZE],
                       s.live + [Block(|s.used|, 0, size)]), Block(|s.used|, 0, size));
  }

  lemma NewPage(order: seq<int>, prev: seq<int>, next: seq<int>)
    requires Linked(order, prev, next)
    ensures |prev| !in order
  {
    forall i | 0 <= i < |order| ensures order[i] != |prev| { assert LinkAt(order, prev, next, i); }
  }

  /** Linking page `n` in after the last one. */
  lemma AppendLinked(order: seq<int>, prev: seq<int>, next: seq<int>)
    requires Linked(order, prev, next) && order != []
    ensures |prev| == |next|
    ensures var last, n := order[|order| - 1], |prev|;
      Linked(order + [n], prev + [last], next[last := n] + [NONE])
  {
    var last, n := order[|order| - 1], |prev|;
    var o, p, x := order + [n], prev + [last], next[last := n] + [NONE];
    forall i | 0 <= i < |o| ensures LinkAt(o, p, x, i) {
      if i < |order| { assert LinkAt(order, prev, next, i); }
    }
  }

  /** Linking page `n` in before the last one. */
  lemma InsertLinked(order: seq<int>, prev: seq<int>, next: seq<int>)
    requires Linked(order, prev, next) && |order| > 1
    ensures var last, before, n := order[|order| - 1], order[|order| - 2], |prev|;
      && prev[last] == before && 0 <= before < |prev| == |next|
      && Linked(order[..|order| - 1] + [n, last], prev[last := n] + [before], next[before := n] + [last])
  {
    var last, before, n := order[|order| - 1], order[|order| - 2], |prev|;
    assert LinkAt(order, prev, next, |order| - 1);
    var o, p, x := order[..|order| - 1] + [n, last], prev[last := n] + [before], next[before := n] + [last];
    forall i | 0 <= i < |o| ensures LinkAt(o, p, x, i) {
      if i < |order| - 1 { assert LinkAt(order, prev, next, i); }
    }
  }

  /** Linking the `k`-th page out. */
  lemma UnlinkLinked(order: seq<int>, prev: seq<int>, next: seq<int>, k: nat)
    requires Linked(order, prev, next) && 0 < k < |order| - 1
    ensures order[k - 1] == prev[order[k]] && order[k + 1] == next[order[k]]
    ensures 0 <= order[k - 1] < |prev| == |next| && 0 <= order[k + 1] < |prev|
    ensures Linked(order[..k] + order[k + 1..], prev[order[k + 1] := order[k - 1]], next[order[k - 1] := order[k + 1]])
  {
    assert LinkAt(order, prev, next, k);
    var o, p, x := order[..k] + order[k + 1..], prev[order[k + 1] := order[k - 1]], next[order[k - 1] := order[k + 1]];
    forall i | 0 <= i < |o| ensures LinkAt(o, p, x, i) {
      assert LinkAt(order, prev, next, if i < k then i else i + 1);
    }
  }

  lemma UnlinkMembers(order: seq<int>, prev: seq<int>, next: seq<int>, k: nat)
    requires Linked(order, prev, next) && k < |order|
    ensures order[k] !in order[..k] + order[k + 1..]
    ensures forall p | p in order && p != order[k] :: p in order[..k] + order[k + 1..]
  {
    forall q | q in order && q != order[k] ensures q in order[..k] + order[k + 1..] {
      var i :| 0 <= i < |order| && order[i] == q;
      assert (order[..k] + order[k + 1..])[if i < k then i else i - 1] == q;
    }
  }

  lemma PlaceOf(s: Books, prev: seq<int>, next: seq<int>, k: nat) returns (j: nat)
    requires s.Sound() && Linked(s.order, prev, next) && |prev| == |s.used| && 0 < k < |s.live|
    ensures j < |s.order| && s.order[j] == s.live[k].page && 0 <= s.live[k].page < |prev| == |next|
    ensures next[s.order[j]] == NONE <==> j == |s.order| - 1
    ensures s.Last(s.order[j]) <==> j == |s.order| - 1
    ensures Alone(s.live, k) ==> 0 < j && prev[s.order[j]] != NONE
    ensures s.live[k].offset < s.used[s.order[j]]
  {
    assert s.BlockOk(s.live[k]);
    j :| 0 <= j < |s.order| && s.order[j] == s.live[k].page;
    assert LinkAt(s.order, prev, next, j);
    assert Alone(s.live, k) ==> s.live[0].page != s.live[k].page;
  }

  /** No byte belongs to two live blocks, and all of them lie in memory that the system gave. */
  lemma OneOwner(s: Books, i: nat, j: nat, x: nat)
    requires s.Sound() && i < |s.live| && j < |s.live| && s.live[i].page == s.live[j].page
    requires s.live[i].offset <= x < s.live[i].offset + s.live[i].size
    requires s.live[j].offset <= x < s.live[j].offset + s.live[j].size
    ensures i == j && s.Has(s.live[i].page) && x < s.room[s.live[i].page]
  {
    assert s.BlockOk(s.live[i]) && s.PageOk(s.live[i].page);
    assert Apart(s.live[if i < j then i else j], s.live[if i < j then j else i]) || i == j;
  }

  // ---------------------------------------------------------------- strings

  const HEADER_SIZE: nat := 4

  /** Two 16-bit fields before every string: its place in the page and its size, in units of the alignment. */
  datatype Header = Header(pageOffset: nat, fullSize: nat)

  function StringSize(length: nat): (r: nat)
    ensures r % ALIGNMENT == 0 && length + HEADER_SIZE <= r < length + HEADER_SIZE + ALIGNMENT
  {
    (length + HEADER_SIZE + ALIGNMENT - 1) / ALIGNMENT * ALIGNMENT
  }

  /** Both fields fit their 16 bits; a size that does not is written as zero. */
  predicate Encodes(h: Header, b: Block) {
    && h.pageOffset < 65536 && h.fullSize < 65536 && b.offset == h.pageOffset * ALIGNMENT
    && (if h.fullSize == 0 then b.size >= MAX_ENCODED else b.size == h.fullSize * ALIGNMENT)
  }

  class Allocator {
    var prev: seq<int>
    var next: seq<int>
    var busy: seq<nat>
    var freed: seq<nat>
    var root: int
    var busySize: nat                // stands in for the busy count of the root page
    ghost var room: seq<nat>         // the bytes that the system gave for each page
    ghost var order: seq<int>
    ghost var live: seq<Block>       // the first stands for the document itself

    ghost function Now(): Books
      requires 0 <= root < |busy|
      reads this
    {
      Books(order, busy[root := busySize], freed, room, live)
    }

    ghost predicate Valid()
      reads this
    {
      && Linked(order, prev, next) && |busy| == |freed| == |room| == |prev|
      && order != [] && order[|order| - 1] == root && 0 <= root < |busy| && Now().Sound()
    }

    /** An empty document: its page is full, so that it is never given away or freed. */
    constructor ()
      ensures Valid() && live == [Block(0, 0, PAGE_SIZE)] && order == [0]
    {
      prev, next, busy, freed := [NONE], [NONE], [PAGE_SIZE], [0];
      root, busySize := 0, PAGE_SIZE;
      room, order, live := [PAGE_SIZE], [0], [Block(0, 0, PAGE_SIZE)];
      new;
      assert live[..0] == [] && Bytes(live, 0) == PAGE_SIZE;
      assert LinkAt(order, prev, next, 0);
    }

    /** A block of `size` bytes that no live block touches. */
    method AllocateMemory(size: nat) returns (page: int, offset: nat)
      requires Valid() && size > 0 && size % ALIGNMENT == 0
      requires size <= THRESHOLD || |order| > 1          // the first allocation of a document is a node
      modifies this
      ensures Valid() && live == old(live) + [Block(page, offset, size)] && offset < PAGE_SIZE
      ensures old(busySize) + size <= PAGE_SIZE ==> order == old(order) && page == old(root) && offset == old(busySize)
      ensures old(busySize) + size > PAGE_SIZE ==>
                && offset == 0 && page !in old(order)
                && order == if size <= THRESHOLD then old(order) + [page]
                            else old(order)[..|old(order)| - 1] + [page, old(root)]
    {
      if busySize + size > PAGE_SIZE {
        page, offset := AllocateOutOfBand(size);
        return;
      }
      hide Linked;
      offset, page := busySize, root;
      ghost var s, b := Now(), Block(page, offset, size);
      CutFromLast(s, b);
      busySize := busySize + size;
      live := live + [b];
      assert Now() == s.(used := s.used[b.page := b.offset + b.size], live := s.live + [b]);
    }

    /** A new page at the end of the list for a small block; before the end for a large one, so that it
        goes with its block. */
    method AllocateOutOfBand(size: nat) returns (page: int, offset: nat)
      requires Valid() && size > 0 && size % ALIGNMENT == 0 && busySize + size > PAGE_SIZE
      requires size <= THRESHOLD || |order| > 1
      modifies this
      ensures Valid() && live == old(live) + [Block(page, offset, size)] && offset == 0 && page !in old(order)
      ensures order == if size <= THRESHOLD then old(order) + [page]
                       else old(order)[..|old(order)| - 1] + [page, old(root)]
    {
      NewPage(order, prev, next);
      page, offset := |prev|, 0;
      if size <= THRESHOLD {
        AddLastPage(size);
      } else {
        AddPageBeforeLast(size);
      }
    }

    method AddLastPage(size: nat)
      requires Valid() && size > 0 && size % ALIGNMENT == 0 && busySize + size > PAGE_SIZE && size <= THRESHOLD
      modifies this
      ensures Valid() && live == old(live) + [Block(|old(prev)|, 0, size)] && order == old(order) + [|old(prev)|]
    {
      hide Linked, LinkAt, Books.Sound, Bytes, Counted, Placed;
      ghost var s, b := Now(), Block(|prev|, 0, size);
      var page := |prev|;
      LastPageAdded(s, size);
      AppendLinked(order, prev, next);
      busy := busy[root := busySize];
      prev, next := prev + [root], next[root := page] + [NONE];
      busy, freed, room := busy + [0], freed + [0], room + [PAGE_SIZE];
      root, busySize := page, size;
      order := order + [page];
      live := live + [b];
      assert Now().used == s.used + [size];
    }

    method AddPageBeforeLast(size: nat)
      requires Valid() && size > 0 && size % ALIGNMENT == 0 && |order| > 1
      modifies this
      ensures Valid() && live == old(live) + [Block(|old(prev)|, 0, size)]
      ensures order == old(order)[..|old(order)| - 1] + [|old(prev)|, old(root)]
    {
      hide Linked, LinkAt, Books.Sound, Bytes, Counted, Placed;
      ghost var s, b, rest := Now(), Block(|prev|, 0, size), order[..|order| - 1];
      var page := |prev|;
      assert order == rest + [root];
      InsertLinked(order, prev, next);
      var before := prev[root];
      prev, next := prev[root := page] + [before], next[before := page] + [root];
      busy, freed, room := busy + [size], freed + [0], room + [size];
      order := rest + [page, root];
      live := live + [b];
      assert Now().used == s.used + [size];
      PageAdded(s, Now(), b);
    }

    /** Gives the block back. The last page is kept for later; any other leaves with its last block. */
    method DeallocateMemory(page: int, offset: nat, size: nat, ghost k: nat)
      requires Valid() && 0 < k < |live| && live[k] == Block(page, offset, size)
      modifies this
      ensures Valid() && live == Without(old(live), k) && root == old(root)
      ensures if page != root && Alone(old(live), k)
              then page !in order && forall p :: p in old(order) && p != page ==> p in order
              else order == old(order)
    {
      hide Linked, Bytes, Books.Sound, Counted, Placed;
      ghost var s := Now();
      BlockFreed(s, k);
      ghost var j := PlaceOf(s, prev, next, k);
      if page == root { busy := busy[page := busySize]; }
      assert offset < busy[page];
      freed := freed[page := freed[page] + size];
      assert freed[page] <= busy[page];
      if freed[page] == busy[page] {
        if next[page] == NONE {
          assert root == page;
          busy, freed := busy[page := 0], freed[page := 0];
          busySize := 0;
        } else {
          assert root != page && prev[page] != NONE;
          UnlinkLinked(order, prev, next, j);
          UnlinkMembers(order, prev, next, j);
          var before, after := prev[page], next[page];
          next := next[before := after];
          prev := prev[after := before];
          order := order[..j] + order[j + 1..];
        }
      }
      live := Without(live, k);
      StillSound(s, k, Now());
    }

    /** A string of `length` bytes behind its header. */
    method AllocateString(length: nat) returns (page: int, offset: nat, header: Header)
      requires Valid() && (StringSize(length) <= THRESHOLD || |order| > 1)
      modifies this
      ensures Valid() && live == old(live) + [Block(page, offset, StringSize(length))]
      ensures Encodes(header, live[|live| - 1])
    {
      var size := HEADER_SIZE + length;
      var fullSize := (size + (ALIGNMENT - 1)) / ALIGNMENT * ALIGNMENT;
      page, offset := AllocateMemory(fullSize);
      assert Now().BlockOk(live[|live| - 1]);
      header := Header(offset / ALIGNMENT, if fullSize < MAX_ENCODED then fullSize / ALIGNMENT else 0);
    }

    /** Frees exactly the block that the header was written for. */
    method DeallocateString(page: int, offset: nat, header: Header, ghost k: nat)
      requires Valid() && 0 < k < |live| && live[k].page == page && live[k].offset == offset
      requires Encodes(header, live[k])
      modifies this
      ensures Valid() && live == Without(old(live), k)
    {
      assert Now().BlockOk(live[k]);
      var pageOffset := header.pageOffset * ALIGNMENT;
      assert offset - pageOffset == 0;                   // so the page begins where the program looks for it
      var fullSize := if header.fullSize == 0 then busy[page] else header.fullSize * ALIGNMENT;
      assert fullSize == live[k].size;
      DeallocateMemory(page, offset, fullSize, k);
    }
  }
}
