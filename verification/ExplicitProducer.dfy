// The explicit producer: a ring of blocks that the owning thread fills and reuses, and the circular block
// index through which consumers find the block of an element they have claimed.
//
// Its methods are the operations as a whole; ExplicitSteps takes the owner's apart into their accesses to shared
// memory and lets consumers come between any two of them.
module ExplicitProducers {

  import opened Words
  import opened CircularIndex

  const NONE: int := -1

  /** A place for an element in a block: raw storage, or an element constructed there. */
  datatype Cell<T> = Raw | Full(v: T)

  datatype Entry = Entry(base: nat, block: nat)

  datatype Header = Header(entries: seq<Entry>, front: nat)

  datatype Hold = Hold(header: nat, slot: nat)

  /** The fields of the class below, for its invariant. The last eight are bookkeeping: everything enqueued,
      the number of elements claimed and the indices of those taken, the block of every block number, how far
      blocks have been reset, for every index the rotation and the block numbers of its entries, and the
      index and front that consumers have loaded for the elements they have claimed. */
  datatype View<T> = View(
    tailIndex: nat, headIndex: nat, tailBlock: int,
    next: seq<nat>, cells: seq<seq<Cell<T>>>, flags: seq<seq<bool>>,
    headers: seq<Header>, slotsUsed: nat, front: nat,
    log: seq<T>, head: nat, done: set<nat>, blockOf: seq<nat>, prepared: nat,
    shifts: seq<nat>, numbers: seq<seq<int>>, holds: map<nat, Hold>)
  {
    function Size(): nat { if headers == [] then 0 else |headers[|headers| - 1].entries| }

    /** The blocks of the ring are those of the numbers from here on. */
    function Oldest(): int { |blockOf| - slotsUsed }
  }

  /** The number of blocks that `n` elements take. */
  function Blocks(n: nat): nat { (n + BLOCK_SIZE - 1) / BLOCK_SIZE }

  /** Flags stand in reverse order. */
  function FlagOf(k: nat): int { BLOCK_SIZE - 1 - k }

  // ---------------------------------------------------------------- the invariant

  ghost predicate Counters<T>(s: View<T>) {
    && s.tailIndex == Wrap(|s.log|) && s.headIndex == Wrap(s.head)
    && s.head <= |s.log| <= BLOCK_SIZE * s.prepared && s.prepared <= |s.blockOf| && Blocks(|s.log|) <= s.prepared
    && (forall i | i in s.done :: i < s.head)
    && s.slotsUsed <= |s.blockOf| && (s.slotsUsed == 0 ==> s.blockOf == [])
    && (s.blockOf != [] ==> BLOCK_SIZE * |s.blockOf| - s.head < HALF) && BLOCK_SIZE * s.slotsUsed < HALF
    && (forall i: nat | i < BLOCK_SIZE * s.Oldest() :: i in s.done)
  }

  ghost predicate Links<T>(s: View<T>) {
    && |s.next| == |s.cells| == |s.flags|
    && s.slotsUsed <= |s.blockOf|
    && s.tailBlock == (if s.blockOf == [] then NONE else s.blockOf[|s.blockOf| - 1])
    && (forall m | s.Oldest() <= m < |s.blockOf| :: s.blockOf[m] < |s.next|)
    && (forall m, p | s.Oldest() <= m < p < |s.blockOf| :: s.blockOf[m] != s.blockOf[p])
    && (forall m | s.Oldest() <= m < |s.blockOf| - 1 :: s.next[s.blockOf[m]] == s.blockOf[m + 1])
    && (s.slotsUsed > 0 ==> s.next[s.blockOf[|s.blockOf| - 1]] == s.blockOf[s.Oldest()])
  }

  /** Place `k` of block number `m`: it holds its element until that is taken, and is flagged from then on;
      a block not reset yet is flagged all over. */
  ghost predicate PlaceOk<T>(s: View<T>, m: nat, k: nat)
    requires m < |s.blockOf| && s.blockOf[m] < |s.cells| && s.blockOf[m] < |s.flags| && k < BLOCK_SIZE
    requires |s.cells[s.blockOf[m]]| == |s.flags[s.blockOf[m]]| == BLOCK_SIZE
  {
    var i, b := BLOCK_SIZE * m + k, s.blockOf[m];
    && s.cells[b][k] == (if i < |s.log| && i !in s.done then Full(s.log[i]) else Raw)
    && s.flags[b][FlagOf(k)] == (m >= s.prepared || i in s.done)
  }

  ghost predicate BlockOk<T>(s: View<T>, m: nat)
    requires m < |s.blockOf| && s.blockOf[m] < |s.cells| && s.blockOf[m] < |s.flags|
  {
    && |s.cells[s.blockOf[m]]| == |s.flags[s.blockOf[m]]| == BLOCK_SIZE
    && forall k: nat | k < BLOCK_SIZE :: PlaceOk(s, m, k)
  }

  ghost predicate Contents<T>(s: View<T>)
    requires Links(s)
  {
    forall m: nat | s.Oldest() <= m < |s.blockOf| :: BlockOk(s, m)
  }

  /** Slot `x` of an index holds the entry of its block number. */
  ghost predicate SlotOk(h: Header, shift: nat, number: seq<int>, blockOf: seq<nat>, x: nat)
    requires x < |h.entries| == |number|
  {
    number[x] >= 0 ==>
      && number[x] < |blockOf|
      && (number[x] + shift) % |h.entries| == x
      && h.entries[x] == Entry(Wrap(BLOCK_SIZE * number[x]), blockOf[number[x]])
  }

  ghost predicate HeaderOk(h: Header, shift: nat, number: seq<int>, blockOf: seq<nat>) {
    && |h.entries| == |number| && FitsWord(|h.entries|)
    && forall x: nat | x < |h.entries| :: SlotOk(h, shift, number, blockOf, x)
  }

  /** The slot of block number `m` in index `j`. */
  ghost function SlotFor<T>(s: View<T>, j: nat, m: nat): nat
    requires j < |s.headers| == |s.shifts| && |s.headers[j].entries| > 0
  {
    (m + s.shifts[j]) % |s.headers[j].entries|
  }

  ghost predicate Indexed<T>(s: View<T>) {
    && 0 < |s.headers| == |s.shifts| == |s.numbers|
    && (forall j: nat | j < |s.headers| :: HeaderOk(s.headers[j], s.shifts[j], s.numbers[j], s.blockOf))
    && s.slotsUsed <= s.Size()
  }

  /** The current index has all blocks of the ring. */
  ghost predicate Current<T>(s: View<T>)
    requires Indexed(s)
  {
    var j := |s.headers| - 1;
    && s.front == SlotFor(s, j, |s.blockOf|)
    && forall m: nat | s.Oldest() <= m < |s.blockOf| :: s.numbers[j][SlotFor(s, j, m)] == m
  }

  /** A consumer finds the block of the element it has claimed in the index it has loaded. */
  ghost predicate HoldOk<T>(s: View<T>, i: nat, h: Hold)
    requires Indexed(s)
  {
    && i < s.head && i !in s.done
    && h.header < |s.headers| && h.slot < |s.headers[h.header].entries|
    && s.numbers[h.header][h.slot] >= 0
    && s.numbers[h.header][SlotFor(s, h.header, i / BLOCK_SIZE)] == i / BLOCK_SIZE
  }

  ghost predicate Inv<T>(s: View<T>) {
    && Counters(s) && Links(s) && Contents(s) && Indexed(s) && Current(s)
    && forall i | i in s.holds :: HoldOk(s, i, s.holds[i])
  }

  /** Between two operations of the owner: no block is in advance, and the front of the index is out. */
  ghost predicate Quiet<T>(s: View<T>) {
    && |s.blockOf| == s.prepared == Blocks(|s.log|)
    && Indexed(s)
    && (s.blockOf != [] ==> s.headers[|s.headers| - 1].front == SlotFor(s, |s.headers| - 1, |s.blockOf| - 1))
  }

  lemma BlocksOf(n: nat, m: nat)
    ensures Blocks(n) <= m <==> n <= BLOCK_SIZE * m
  {
  }

  // ---------------------------------------------------------------- a block is numbered

  function Places<V>(v: V): (r: seq<V>)
    ensures |r| == BLOCK_SIZE && forall k | 0 <= k < BLOCK_SIZE :: r[k] == v
  {
    seq(BLOCK_SIZE, _ => v)
  }

  /** The next block number is given to block `b`, and entered in the current index. */
  ghost function Numbered<T>(s: View<T>, b: nat): View<T>
    requires Indexed(s) && s.front < s.Size()
  {
    var j := |s.headers| - 1;
    var h := s.headers[j];
    s.(tailBlock := b, blockOf := s.blockOf + [b],
       headers := s.headers[j := h.(entries := h.entries[s.front := Entry(Wrap(BLOCK_SIZE * |s.blockOf|), b)])],
       numbers := s.numbers[j := s.numbers[j][s.front := |s.blockOf|]],
       front := (s.front + 1) % s.Size())
  }

  /** Entering the new block leaves every index right, when there is room for it. */
  lemma NumberedIndexed<T>(s: View<T>, t: View<T>, b: nat)
    requires Indexed(s) && Current(s) && s.front < s.Size()
    requires t.headers == Numbered(s, b).headers && t.numbers == Numbered(s, b).numbers && t.shifts == s.shifts
    requires t.blockOf == s.blockOf + [b] && t.slotsUsed <= s.Size()
    ensures Indexed(t) && t.Size() == s.Size()
  {
    var j := |s.headers| - 1;
    forall i: nat | i < |t.headers| ensures HeaderOk(t.headers[i], t.shifts[i], t.numbers[i], t.blockOf) {
      assert HeaderOk(s.headers[i], s.shifts[i], s.numbers[i], s.blockOf);
      forall x: nat | x < |t.headers[i].entries| ensures SlotOk(t.headers[i], t.shifts[i], t.numbers[i], t.blockOf, x) {
        assert SlotOk(s.headers[i], s.shifts[i], s.numbers[i], s.blockOf, x);
      }
    }
  }

  lemma NextSlot(m: int, shift: nat, size: nat)
    requires size > 0
    ensures ((m + shift) % size + 1) % size == (m + 1 + shift) % size
  {
    SlotMoves(m + 1, m, shift, size);
  }

  lemma OtherSlot(m: nat, n: nat, shift: nat, size: nat)
    requires size > 0 && n < m + size && m < n
    ensures (m + shift) % size != (n + shift) % size
  {
    if (m + shift) % size == (n + shift) % size { SlotsDistinct(m, n, shift, size); }
  }

  lemma NumberedCurrent<T>(s: View<T>, t: View<T>, b: nat)
    requires Indexed(s) && Current(s) && s.front < s.Size()
    requires t.headers == Numbered(s, b).headers && t.numbers == Numbered(s, b).numbers && t.shifts == s.shifts
    requires t.blockOf == s.blockOf + [b] && t.slotsUsed <= s.Size() && t.front == Numbered(s, b).front
    requires s.Oldest() <= t.Oldest() && |t.blockOf| - t.slotsUsed == t.Oldest()
    requires Indexed(t)
    ensures Current(t)
  {
    var j, size := |s.headers| - 1, s.Size();
    NextSlot(|s.blockOf|, s.shifts[j], size);
    forall m: nat | t.Oldest() <= m < |t.blockOf| ensures t.numbers[j][SlotFor(t, j, m)] == m {
      if m < |s.blockOf| {
        OtherSlot(m, |s.blockOf|, s.shifts[j], size);
        assert s.numbers[j][SlotFor(s, j, m)] == m;
      }
    }
  }

  lemma NumberedHolds<T>(s: View<T>, t: View<T>, b: nat)
    requires Indexed(s) && Current(s) && s.front < s.Size() && Indexed(t)
    requires t.headers == Numbered(s, b).headers && t.numbers == Numbered(s, b).numbers && t.shifts == s.shifts
    requires t.slotsUsed <= s.Size() && |t.blockOf| == |s.blockOf| + 1
    requires s.head <= BLOCK_SIZE * |s.blockOf| && (forall i: nat | i < BLOCK_SIZE * t.Oldest() :: i in s.done)
    requires t.head == s.head && t.done == s.done && t.holds == s.holds
    requires forall i | i in s.holds :: HoldOk(s, i, s.holds[i])
    ensures forall i | i in t.holds :: HoldOk(t, i, t.holds[i])
  {
    var j, size := |s.headers| - 1, s.Size();
    forall i | i in t.holds ensures HoldOk(t, i, t.holds[i]) {
      assert HoldOk(s, i, s.holds[i]);
      OtherSlot(i / BLOCK_SIZE, |s.blockOf|, s.shifts[j], size);
    }
  }

  // ---------------------------------------------------------------- reusing the block ahead

  /** The block ahead in the ring holds nothing any more. */
  ghost predicate AheadIsEmpty<T>(s: View<T>)
    requires Links(s) && Contents(s)
  {
    && s.slotsUsed > 0 && s.Oldest() < s.prepared
    && assert BlockOk(s, s.Oldest()); forall k | 0 <= k < BLOCK_SIZE :: s.flags[s.blockOf[s.Oldest()]][k]
  }

  /** An empty block ahead has had all its elements taken. */
  lemma AheadIsDone<T>(s: View<T>)
    requires Inv(s) && AheadIsEmpty(s)
    ensures forall i: nat | i < BLOCK_SIZE * (s.Oldest() + 1) :: i in s.done
  {
    var m := s.Oldest();
    assert BlockOk(s, m);
    forall i: nat | i < BLOCK_SIZE * (m + 1) ensures i in s.done {
      if i >= BLOCK_SIZE * m {
        var k := i - BLOCK_SIZE * m;
        assert PlaceOk(s, m, k);
        assert s.flags[s.blockOf[m]][FlagOf(k)];
      }
    }
  }

  ghost function Reused<T>(s: View<T>): View<T>
    requires Indexed(s) && s.front < s.Size() && 0 <= s.tailBlock < |s.next|
  {
    Numbered(s, s.next[s.tailBlock])
  }

  lemma ReuseCounters<T>(s: View<T>)
    requires Inv(s) && AheadIsEmpty(s)
    ensures s.front < s.Size() && 0 <= s.tailBlock < |s.next| && s.next[s.tailBlock] == s.blockOf[s.Oldest()]
    ensures Counters(Reused(s)) && Links(Reused(s))
  {
    AheadIsDone(s);
    var last: nat := BLOCK_SIZE * (s.Oldest() + 1) - 1;
    assert last in s.done;
    assert s.front < s.Size();
    var t := Reused(s);
    assert forall m | t.Oldest() <= m < |t.blockOf| - 1 :: t.blockOf[m] == s.blockOf[m];
  }

  lemma ReuseContents<T>(s: View<T>)
    requires Inv(s) && AheadIsEmpty(s) && s.front < s.Size() && 0 <= s.tailBlock < |s.next| && s.next[s.tailBlock] == s.blockOf[s.Oldest()]
    requires Links(Reused(s))
    ensures Contents(Reused(s))
  {
    AheadIsDone(s);
    var t, b := Reused(s), s.blockOf[s.Oldest()];
    forall m: nat | t.Oldest() <= m < |t.blockOf| ensures BlockOk(t, m) {
      var p := if m == |s.blockOf| then s.Oldest() else m;
      assert BlockOk(s, p);
      forall k: nat | k < BLOCK_SIZE ensures PlaceOk(t, m, k) {
        assert PlaceOk(s, p, k);
        if m == |s.blockOf| { assert s.flags[b][FlagOf(k)]; }
      }
    }
  }

  /** Reusing the block ahead keeps the invariant: no element that is still in the queue is touched. */
  lemma ReuseKeeps<T>(s: View<T>)
    requires Inv(s) && AheadIsEmpty(s)
    ensures s.front < s.Size() && 0 <= s.tailBlock < |s.next| && Inv(Reused(s))
  {
    hide Counters, Contents, Links, HoldOk;
    ReuseCounters(s);
    ReuseContents(s);
    HoldBounds(s);
    var t := Reused(s);
    AheadIsDone(s);
    ReuseSizes(s);
    NumberedIndexed(s, t, t.blockOf[|s.blockOf|]);
    NumberedCurrent(s, t, t.blockOf[|s.blockOf|]);
    NumberedHolds(s, t, t.blockOf[|s.blockOf|]);
  }

  lemma HoldBounds<T>(s: View<T>)
    requires Inv(s)
    ensures s.head <= BLOCK_SIZE * |s.blockOf| && 0 <= s.Oldest() && s.slotsUsed <= s.Size()
  {
  }

  lemma ReuseSizes<T>(s: View<T>)
    requires Inv(s) && s.front < s.Size() && 0 <= s.tailBlock < |s.next|
    ensures Reused(s).Oldest() == s.Oldest() + 1 && Reused(s).slotsUsed == s.slotsUsed
  {
  }

  // ---------------------------------------------------------------- a new block

  /** A block from the pool, put behind the tail block in the ring; its flags are all `flag`. */
  ghost function Linked<T>(s: View<T>, flag: bool): View<T> {
    var b := |s.next|;
    s.(next := if 0 <= s.tailBlock < b then (s.next + [s.next[s.tailBlock]])[s.tailBlock := b] else s.next + [b],
       cells := s.cells + [Places(Raw)], flags := s.flags + [Places(flag)], slotsUsed := s.slotsUsed + 1)
  }

  ghost function Inserted<T>(s: View<T>): View<T>
    requires Indexed(s) && s.front < s.Size() && s.slotsUsed < s.Size()
  {
    Numbered(Linked(s, true), |s.next|)
  }

  /** The sum of a new block does not let the tail run half a word ahead of the head. */
  ghost predicate Leeway<T>(s: View<T>) {
    && BLOCK_SIZE * (|s.blockOf| + 1) - s.head < HALF
    && BLOCK_SIZE * (s.slotsUsed + 1) < HALF
  }

  lemma InsertLinks<T>(s: View<T>)
    requires Inv(s) && s.front < s.Size() && s.slotsUsed < s.Size() && Leeway(s)
    ensures Counters(Inserted(s)) && Links(Inserted(s))
  {
    var t, n := Inserted(s), |s.blockOf|;
    assert t.Oldest() == s.Oldest();
    assert forall m | t.Oldest() <= m < n :: t.blockOf[m] == s.blockOf[m];
    forall m | t.Oldest() <= m < n ensures t.next[t.blockOf[m]] == t.blockOf[m + 1] {
      if m < n - 1 { assert s.blockOf[m] != s.blockOf[n - 1]; }
    }
  }

  lemma InsertContents<T>(s: View<T>)
    requires Inv(s) && s.front < s.Size() && s.slotsUsed < s.Size() && Links(Inserted(s))
    ensures Contents(Inserted(s))
  {
    var t := Inserted(s);
    forall m: nat | t.Oldest() <= m < |t.blockOf| ensures BlockOk(t, m) {
      if m < |s.blockOf| {
        assert BlockOk(s, m);
        forall k: nat | k < BLOCK_SIZE ensures PlaceOk(t, m, k) { assert PlaceOk(s, m, k); }
      }
    }
  }

  /** Putting a new block into ring and index keeps the invariant. */
  lemma InsertKeeps<T>(s: View<T>)
    requires Inv(s) && s.slotsUsed < s.Size() && Leeway(s)
    ensures s.front < s.Size() && Inv(Inserted(s))
  {
    hide Counters, Contents, Links, HoldOk;
    FrontFits(s);
    InsertLinks(s);
    InsertContents(s);
    HoldBounds(s);
    OldAreDone(s);
    var t := Inserted(s);
    InsertSizes(s);
    NumberedIndexed(s, t, |s.next|);
    NumberedCurrent(s, t, |s.next|);
    NumberedHolds(s, t, |s.next|);
  }

  lemma FrontFits<T>(s: View<T>)
    requires Inv(s)
    ensures s.front < s.Size()
  {
  }

  lemma OldAreDone<T>(s: View<T>)
    requires Inv(s)
    ensures forall i: nat | i < BLOCK_SIZE * s.Oldest() :: i in s.done
  {
  }

  lemma InsertSizes<T>(s: View<T>)
    requires Inv(s) && s.front < s.Size() && s.slotsUsed < s.Size()
    ensures Inserted(s).Oldest() == s.Oldest() && Inserted(s).slotsUsed == s.slotsUsed + 1
  {
  }

  // ---------------------------------------------------------------- filling

  /** Clears the flags of the next block that is to be filled. */
  ghost function Prepared<T>(s: View<T>): View<T>
    requires s.prepared < |s.blockOf| && s.blockOf[s.prepared] < |s.flags|
  {
    s.(flags := s.flags[s.blockOf[s.prepared] := Places(false)], prepared := s.prepared + 1)
  }

  /** The index does not depend on the contents. */
  lemma SameIndex<T>(s: View<T>, t: View<T>)
    requires Indexed(s) && Current(s)
    requires t.headers == s.headers && t.shifts == s.shifts && t.numbers == s.numbers && t.blockOf == s.blockOf
    requires t.slotsUsed == s.slotsUsed && t.front == s.front
    ensures Indexed(t) && Current(t)
  {
    assert t.Oldest() == s.Oldest() && t.Size() == s.Size();
    SameSlots(s, t);
  }

  lemma SameHolds<T>(s: View<T>, t: View<T>)
    requires Indexed(s) && Indexed(t) && (forall i | i in s.holds :: HoldOk(s, i, s.holds[i]))
    requires t.headers == s.headers && t.shifts == s.shifts && t.numbers == s.numbers && s.head <= t.head
    requires forall i | i in t.holds :: i in s.holds && t.holds[i] == s.holds[i] && (i in t.done ==> i in s.done)
    ensures forall i | i in t.holds :: HoldOk(t, i, t.holds[i])
  {
    hide HoldOk, Indexed;
    forall i | i in t.holds ensures HoldOk(t, i, t.holds[i]) { SameHold(s, t, i, s.holds[i]); }
  }

  lemma OldestBound<T>(s: View<T>)
    requires Inv(s)
    ensures BLOCK_SIZE * s.Oldest() <= s.head && s.Oldest() <= s.prepared
  {
    var last := BLOCK_SIZE * s.Oldest() - 1;
    if last >= 0 { assert last in s.done; }
  }

  /** Preparing a block in advance keeps the invariant. */
  lemma PrepareKeeps<T>(s: View<T>)
    requires Inv(s) && s.prepared < |s.blockOf|
    ensures s.Oldest() <= s.prepared && s.blockOf[s.prepared] < |s.flags| && Inv(Prepared(s))
  {
    hide BlockOk, HoldOk, HeaderOk;
    OldestBound(s);
    var t := Prepared(s);
    assert Counters(t);
    PreparedPlaces(s);
    SameIndex(s, t);
    SameHolds(s, t);
  }

  lemma PreparedPlaces<T>(s: View<T>)
    requires Inv(s) && s.Oldest() <= s.prepared < |s.blockOf| && s.blockOf[s.prepared] < |s.flags|
    ensures Links(Prepared(s)) && Contents(Prepared(s))
  {
    var t := Prepared(s);
    forall m: nat | t.Oldest() <= m < |t.blockOf| ensures BlockOk(t, m) {
      assert BlockOk(s, m);
      forall k: nat | k < BLOCK_SIZE ensures PlaceOk(t, m, k) { assert PlaceOk(s, m, k); }
    }
  }

  /** Constructs the next element in its place, and counts it. */
  ghost function Written<T>(s: View<T>, v: T): View<T>
    requires |s.log| < BLOCK_SIZE * |s.blockOf|
  {
    var b := s.blockOf[|s.log| / BLOCK_SIZE];
    if b < |s.cells| && |s.cells[b]| == BLOCK_SIZE then
      s.(cells := s.cells[b := s.cells[b][|s.log| % BLOCK_SIZE := Full(v)]], log := s.log + [v], tailIndex := Wrap(s.tailIndex + 1))
    else s
  }

  /** An element is constructed where there is raw storage, in a block of the ring. */
  lemma PlaceIsRaw<T>(s: View<T>)
    requires Inv(s) && |s.log| < BLOCK_SIZE * s.prepared
    ensures var m, k := |s.log| / BLOCK_SIZE, |s.log| % BLOCK_SIZE;
            && s.Oldest() <= m < |s.blockOf| && s.blockOf[m] < |s.cells| && |s.cells[s.blockOf[m]]| == BLOCK_SIZE
            && s.cells[s.blockOf[m]][k] == Raw
  {
    var m := |s.log| / BLOCK_SIZE;
    OldestBound(s);
    assert BlockOk(s, m) && PlaceOk(s, m, |s.log| % BLOCK_SIZE);
  }

  /** Constructing the next element keeps the invariant. */
  lemma WriteKeeps<T>(s: View<T>, v: T)
    requires Inv(s) && |s.log| < BLOCK_SIZE * s.prepared
    ensures Inv(Written(s, v))
  {
    hide BlockOk, HoldOk, HeaderOk;
    PlaceIsRaw(s);
    var t := Written(s, v);
    WrittenCounters(s, v);
    WrittenPlaces(s, v);
    SameIndex(s, t);
    SameHolds(s, t);
  }

  lemma WrittenCounters<T>(s: View<T>, v: T)
    requires Inv(s) && |s.log| < BLOCK_SIZE * s.prepared
    ensures Counters(Written(s, v)) && Links(Written(s, v))
  {
    hide BlockOk, HoldOk, HeaderOk, Current;
    PlaceIsRaw(s);
    WrapAdd(|s.log|, 1);
    BlocksOf(|s.log| + 1, s.prepared);
  }

  lemma WrittenPlaces<T>(s: View<T>, v: T)
    requires Inv(s) && |s.log| < BLOCK_SIZE * s.prepared && Links(Written(s, v))
    ensures Contents(Written(s, v))
  {
    PlaceIsRaw(s);
    var t, n := Written(s, v), |s.log| / BLOCK_SIZE;
    forall m: nat | t.Oldest() <= m < |t.blockOf| ensures BlockOk(t, m) {
      assert BlockOk(s, m);
      assert m != n ==> s.blockOf[m] != s.blockOf[n];
      forall k: nat | k < BLOCK_SIZE ensures PlaceOk(t, m, k) { assert PlaceOk(s, m, k); }
    }
  }

  // ---------------------------------------------------------------- a larger index

  /** The rotation of an index whose first slot has the oldest block of the ring. */
  function FirstSlotShift(oldest: int, size: nat): nat
    requires size > 0
  {
    (-oldest) % size
  }

  lemma FirstSlots(oldest: int, size: nat, j: nat)
    requires j < size
    ensures (oldest + j + FirstSlotShift(oldest, size)) % size == j
  {
    var q, r := (-oldest) / size, (-oldest) % size;
    assert -oldest == q * size + r;
    assert oldest + j + r == j + (-q) * size;
    ModMultiple(j, -q, size);
    DivUnique(j, size, 0, j);
  }

  /** `entries` starts with the entries of the ring, in order. */
  ghost predicate Copied<T>(s: View<T>, entries: seq<Entry>) {
    && s.slotsUsed <= |entries|
    && forall j: nat | j < s.slotsUsed ::
         0 <= s.Oldest() && entries[j] == Entry(Wrap(BLOCK_SIZE * (s.Oldest() + j)), s.blockOf[s.Oldest() + j])
  }

  ghost function Grown<T>(s: View<T>, entries: seq<Entry>, front: nat): View<T>
    requires |entries| > 0 && s.slotsUsed <= |s.blockOf|
  {
    s.(headers := s.headers + [Header(entries, front)],
       shifts := s.shifts + [FirstSlotShift(s.Oldest(), |entries|)],
       numbers := s.numbers + [seq(|entries|, j requires 0 <= j => if j < s.slotsUsed then s.Oldest() + j else -1)],
       front := s.slotsUsed)
  }

  /** A larger index with the entries of the ring in its first slots can replace the current one; whoever
      holds an earlier one goes on finding its blocks there. */
  lemma GrowKeeps<T>(s: View<T>, entries: seq<Entry>, front: nat)
    requires Inv(s) && FitsWord(|entries|) && s.slotsUsed < |entries| && Copied(s, entries)
    ensures Inv(Grown(s, entries, front))
  {
    hide Counters, Contents, Links;
    HoldBounds(s);
    var t, size, last := Grown(s, entries, front), |entries|, |s.headers|;
    GrownRest(s, entries, front);
    forall j: nat | j < |t.headers| ensures HeaderOk(t.headers[j], t.shifts[j], t.numbers[j], t.blockOf) {
      if j < last {
        assert HeaderOk(s.headers[j], s.shifts[j], s.numbers[j], s.blockOf);
      } else {
        forall x: nat | x < size ensures SlotOk(t.headers[j], t.shifts[j], t.numbers[j], t.blockOf, x) {
          FirstSlots(s.Oldest(), size, x);
        }
      }
    }
    FirstSlots(s.Oldest(), size, s.slotsUsed);
    forall m: nat | t.Oldest() <= m < |t.blockOf| ensures t.numbers[last][SlotFor(t, last, m)] == m {
      FirstSlots(s.Oldest(), size, m - s.Oldest());
    }
    forall i | i in t.holds ensures HoldOk(t, i, t.holds[i]) { assert HoldOk(s, i, s.holds[i]); }
  }

  lemma GrownRest<T>(s: View<T>, entries: seq<Entry>, front: nat)
    requires Inv(s) && |entries| > 0
    ensures s.slotsUsed <= |s.blockOf|
    ensures var t := Grown(s, entries, front); Counters(t) && Links(t) && Contents(t) && t.Oldest() == s.Oldest()
  {
    var t := Grown(s, entries, front);
    forall m: nat | t.Oldest() <= m < |t.blockOf| ensures BlockOk(t, m) {
      assert BlockOk(s, m);
      forall k: nat | k < BLOCK_SIZE ensures PlaceOk(t, m, k) { assert PlaceOk(s, m, k); }
    }
  }

  /** Makes the last entry made the front of the current index. */
  ghost function Published<T>(s: View<T>): View<T>
    requires s.headers != [] && s.Size() > 0
  {
    var j := |s.headers| - 1;
    s.(headers := s.headers[j := s.headers[j].(front := (s.front - 1) % s.Size())])
  }

  lemma PreviousSlot(n: int, shift: nat, size: nat)
    requires size > 0
    ensures ((n + shift) % size - 1) % size == (n - 1 + shift) % size
  {
    SlotMoves(n - 1, n, shift, size);
  }

  lemma PublishKeeps<T>(s: View<T>)
    requires Inv(s) && s.blockOf != []
    ensures s.front < s.Size() && Inv(Published(s))
    ensures var t, j := Published(s), |s.headers| - 1;
            Indexed(t) && t.headers[j].front == SlotFor(t, j, |t.blockOf| - 1)
  {
    hide Counters, Contents, Links, HeaderOk, HoldOk, Current, Indexed;
    FrontFits(s);
    var t := Published(s);
    SameRest(s, t);
    PublishedIndex(s);
    PublishedFront(s);
  }

  lemma PublishedFront<T>(s: View<T>)
    requires Inv(s) && s.blockOf != [] && s.front < s.Size()
    ensures var t, j := Published(s), |s.headers| - 1;
            |t.headers| == |s.headers| == |t.shifts| && t.headers[j].front == SlotFor(t, j, |t.blockOf| - 1)
  {
    hide Counters, Contents, Links, HeaderOk, HoldOk;
    PreviousSlot(|s.blockOf|, s.shifts[|s.headers| - 1], s.Size());
  }

  lemma PublishedIndex<T>(s: View<T>)
    requires Inv(s)
    ensures var t := Published(s); Indexed(t) && Current(t) && forall i | i in t.holds :: HoldOk(t, i, t.holds[i])
  {
    hide Counters, Contents, Links;
    var t := Published(s);
    forall i: nat | i < |t.headers| ensures HeaderOk(t.headers[i], t.shifts[i], t.numbers[i], t.blockOf) {
      assert HeaderOk(s.headers[i], s.shifts[i], s.numbers[i], s.blockOf);
      forall x: nat | x < |t.headers[i].entries| ensures SlotOk(t.headers[i], t.shifts[i], t.numbers[i], t.blockOf, x) {
        assert SlotOk(s.headers[i], s.shifts[i], s.numbers[i], s.blockOf, x);
      }
    }
    assert forall j, m | 0 <= j < |s.headers| && 0 <= m && |s.headers[j].entries| > 0 :: SlotFor(t, j, m) == SlotFor(s, j, m);
    forall i | i in t.holds ensures HoldOk(t, i, t.holds[i]) { assert HoldOk(s, i, s.holds[i]); }
  }

  /** A change of the index alone leaves ring and contents as they are. */
  lemma SameRest<T>(s: View<T>, t: View<T>)
    requires Inv(s) && t == s.(headers := t.headers, holds := t.holds)
    ensures Counters(t) && Links(t) && Contents(t) && t.Oldest() == s.Oldest()
  {
    forall m: nat | t.Oldest() <= m < |t.blockOf| ensures BlockOk(t, m) {
      assert BlockOk(s, m);
      forall k: nat | k < BLOCK_SIZE ensures PlaceOk(t, m, k) { assert PlaceOk(s, m, k); }
    }
  }

  // ---------------------------------------------------------------- consumers

  ghost function Claimed<T>(s: View<T>): View<T> { s.(head := s.head + 1, headIndex := Wrap(s.headIndex + 1)) }

  lemma ClaimKeeps<T>(s: View<T>)
    requires Inv(s) && s.head < |s.log|
    ensures Inv(Claimed(s)) && (Quiet(s) ==> Quiet(Claimed(s)))
  {
    hide HeaderOk, HoldOk, BlockOk, SlotFor;
    var t := Claimed(s);
    WrapAdd(s.head, 1);
    ClaimedPlaces(s);
    SameSlots(s, t);
    SameIndex(s, t);
    SameHolds(s, t);
  }

  lemma ClaimedPlaces<T>(s: View<T>)
    requires Inv(s)
    ensures Links(Claimed(s)) && Contents(Claimed(s))
  {
    hide HeaderOk, HoldOk, Indexed, Current;
    var t := Claimed(s);
    forall m: nat | t.Oldest() <= m < |t.blockOf| ensures BlockOk(t, m) {
      assert BlockOk(s, m);
      forall k: nat | k < BLOCK_SIZE ensures PlaceOk(t, m, k) { assert PlaceOk(s, m, k); }
    }
  }

  /** The consumer of element `i` has loaded the current index and its front. */
  ghost function Loaded<T>(s: View<T>, i: nat): View<T>
    requires s.headers != []
  {
    s.(holds := s.holds[i := Hold(|s.headers| - 1, s.headers[|s.headers| - 1].front)])
  }

  lemma LoadKeeps<T>(s: View<T>, i: nat)
    requires Inv(s) && Quiet(s) && i < s.head && i !in s.done
    ensures Inv(Loaded(s, i)) && Quiet(Loaded(s, i))
  {
    hide Counters, Contents, Links, HeaderOk, HoldOk, SlotFor;
    var t := Loaded(s, i);
    SameRest(s, t);
    LoadedHold(s, i);
    SameSlots(s, t);
    forall k | k in t.holds ensures HoldOk(t, k, t.holds[k]) {
      if k != i { SameHold(s, t, k, s.holds[k]); }
    }
  }

  lemma SameSlots<T>(s: View<T>, t: View<T>)
    requires |s.headers| == |s.shifts| && t.headers == s.headers && t.shifts == s.shifts
    ensures forall j: nat, m: nat | j < |s.headers| && |s.headers[j].entries| > 0 :: SlotFor(t, j, m) == SlotFor(s, j, m)
  {
  }

  lemma SameHold<T>(s: View<T>, t: View<T>, i: nat, h: Hold)
    requires Indexed(s) && Indexed(t) && HoldOk(s, i, h)
    requires t.headers == s.headers && t.shifts == s.shifts && t.numbers == s.numbers && s.head <= t.head && (i in t.done ==> i in s.done)
    ensures HoldOk(t, i, h)
  {
  }

  /** An element that has not been taken is in a block of the ring. */
  lemma InRing<T>(s: View<T>, i: nat)
    requires Inv(s) && i < |s.log| && i !in s.done
    ensures s.Oldest() <= i / BLOCK_SIZE < |s.blockOf|
  {
    hide Contents, Links, HeaderOk, HoldOk, Current, Indexed;
    assert i < BLOCK_SIZE * s.Oldest() ==> i in s.done;
  }

  lemma LoadedHold<T>(s: View<T>, i: nat)
    requires Inv(s) && Quiet(s) && i < s.head && i !in s.done
    ensures Indexed(Loaded(s, i)) && HoldOk(Loaded(s, i), i, Loaded(s, i).holds[i])
  {
    hide Contents, Links, HoldOk, Current, Counters, Quiet, SlotFor, SlotOk;
    FrontFits(s);
    LoadFacts(s, i);
    var t := Loaded(s, i);
    SameSlots(s, t);
    HoldsNow(t, i, t.holds[i]);
  }

  /** What the consumer of element `i` finds in the current index. */
  lemma LoadFacts<T>(s: View<T>, i: nat)
    requires Inv(s) && Quiet(s) && i < s.head && i !in s.done
    ensures var j := |s.headers| - 1;
            && s.Size() > 0
            && s.headers[j].front < s.Size() && s.numbers[j][s.headers[j].front] >= 0
            && SlotFor(s, j, i / BLOCK_SIZE) < s.Size() && s.numbers[j][SlotFor(s, j, i / BLOCK_SIZE)] == i / BLOCK_SIZE
  {
    hide Contents, Links, HeaderOk, HoldOk, Current;
    FrontFits(s);
    InRing(s, i);
    SlotInRing(s, i / BLOCK_SIZE);
    SlotInRing(s, |s.blockOf| - 1);
  }

  lemma SlotInRing<T>(s: View<T>, m: nat)
    requires Indexed(s) && Current(s) && s.Oldest() <= m < |s.blockOf| && s.Size() > 0
    ensures var j := |s.headers| - 1; SlotFor(s, j, m) < s.Size() && s.numbers[j][SlotFor(s, j, m)] == m
  {
  }

  lemma HoldsNow<T>(s: View<T>, i: nat, h: Hold)
    requires Indexed(s) && i < s.head && i !in s.done && h.header < |s.headers| && h.slot < |s.headers[h.header].entries|
    requires s.numbers[h.header][h.slot] >= 0 && SlotFor(s, h.header, i / BLOCK_SIZE) < |s.numbers[h.header]|
    requires s.numbers[h.header][SlotFor(s, h.header, i / BLOCK_SIZE)] == i / BLOCK_SIZE
    ensures HoldOk(s, i, h)
  {
  }

  /** The entry that the program computes for element `i` from a loaded index and front. */
  function Lookup(h: Header, slot: nat, index: nat): nat
    requires slot < |h.entries|
    requires LookupSlot(index, slot, h.entries[slot].base, |h.entries|) < |h.entries|
  {
    h.entries[LookupSlot(index, slot, h.entries[slot].base, |h.entries|)].block
  }

  /** However old the index a consumer holds, and however often the words have wrapped, the lookup finds the
      block in which its element was constructed, and the element is still there. */
  lemma LookupIsRight<T>(s: View<T>, i: nat)
    requires Inv(s) && i in s.holds
    ensures var h := s.holds[i];
            && h.header < |s.headers| && h.slot < |s.headers[h.header].entries|
            && LookupSlot(Wrap(i), h.slot, s.headers[h.header].entries[h.slot].base, |s.headers[h.header].entries|) < |s.headers[h.header].entries|
            && var b := Lookup(s.headers[h.header], h.slot, Wrap(i));
            && i / BLOCK_SIZE < |s.blockOf| && s.Oldest() <= i / BLOCK_SIZE && b == s.blockOf[i / BLOCK_SIZE]
            && b < |s.cells| == |s.flags| && |s.cells[b]| == |s.flags[b]| == BLOCK_SIZE
            && i < |s.log| && s.cells[b][i % BLOCK_SIZE] == Full(s.log[i]) && !s.flags[b][FlagOf(i % BLOCK_SIZE)]
  {
    hide Current, LookupSlot;
    var h := s.holds[i];
    assert HoldOk(s, i, h);
    var header, number, shift := s.headers[h.header], s.numbers[h.header], s.shifts[h.header];
    assert HeaderOk(header, shift, number, s.blockOf);
    assert SlotOk(header, shift, number, s.blockOf, h.slot);
    var m := i / BLOCK_SIZE;
    assert SlotOk(header, shift, number, s.blockOf, SlotFor(s, h.header, m));
    LookupFindsSlot(i, number[h.slot], shift, |header.entries|);
    assert s.Oldest() <= m;
    assert BlockOk(s, m) && PlaceOk(s, m, i % BLOCK_SIZE);
  }

  /** Element `i` is moved out, destroyed and flagged. */
  ghost function Taken<T>(s: View<T>, i: nat): View<T>
    requires i / BLOCK_SIZE < |s.blockOf|
  {
    var b, k := s.blockOf[i / BLOCK_SIZE], i % BLOCK_SIZE;
    if b < |s.cells| == |s.flags| && |s.cells[b]| == |s.flags[b]| == BLOCK_SIZE then
      s.(cells := s.cells[b := s.cells[b][k := Raw]], flags := s.flags[b := s.flags[b][FlagOf(k) := true]],
         done := s.done + {i}, holds := s.holds - {i})
    else s
  }

  lemma TakeKeeps<T>(s: View<T>, i: nat)
    requires Inv(s) && i in s.holds
    ensures i / BLOCK_SIZE < |s.blockOf| && Inv(Taken(s, i)) && (Quiet(s) ==> Quiet(Taken(s, i)))
  {
    hide HeaderOk, HoldOk, BlockOk, LookupSlot, SlotFor;
    LookupIsRight(s, i);
    var t := Taken(s, i);
    TakenPlaces(s, i);
    TakenCounters(s, i);
    SameSlots(s, t);
    SameIndex(s, t);
    SameHolds(s, t);
  }

  lemma TakenCounters<T>(s: View<T>, i: nat)
    requires Inv(s) && i in s.holds && i / BLOCK_SIZE < |s.blockOf|
    ensures Counters(Taken(s, i))
  {
    hide HeaderOk, BlockOk, SlotFor, Links, Contents, Indexed, Current;
    assert HoldOk(s, i, s.holds[i]);
  }

  lemma TakenPlaces<T>(s: View<T>, i: nat)
    requires Inv(s) && i in s.holds && i / BLOCK_SIZE < |s.blockOf|
    ensures Links(Taken(s, i)) && Contents(Taken(s, i))
  {
    hide HeaderOk, LookupSlot, Current;
    LookupIsRight(s, i);
    var t, n := Taken(s, i), i / BLOCK_SIZE;
    forall m: nat | t.Oldest() <= m < |t.blockOf| ensures BlockOk(t, m) {
      assert BlockOk(s, m);
      assert m != n ==> s.blockOf[m] != s.blockOf[n];
      forall k: nat | k < BLOCK_SIZE ensures PlaceOk(t, m, k) { assert PlaceOk(s, m, k); }
    }
  }

  // ---------------------------------------------------------------- what the owner tests

  /** The program's test for leeway: whether the tail, a block further on, stays within half a word. */
  lemma LeewayTest(head: nat, tail: nat)
    requires head <= tail && tail - head < HALF
    ensures CircularLessThan(Wrap(head), Wrap(tail + BLOCK_SIZE)) <==> tail + BLOCK_SIZE - head < HALF
  {
    WrapSub(head, tail + BLOCK_SIZE);
    WrapIs(head - tail - BLOCK_SIZE, -1);
  }

  lemma PreparedAll<T>(s: View<T>)
    requires Inv(s) && Quiet(s)
    ensures |s.blockOf| == s.prepared == Blocks(|s.log|)
    ensures s.tailBlock == NONE <==> s.blockOf == []
  {
  }

  lemma HeadBehind<T>(s: View<T>)
    requires Inv(s)
    ensures s.head <= |s.log| && s.tailIndex == Wrap(|s.log|) && s.headIndex == Wrap(s.head)
  {
  }

  lemma TailIsLast<T>(s: View<T>)
    requires Inv(s)
    ensures s.blockOf != [] ==> s.tailBlock == s.blockOf[|s.blockOf| - 1] && s.tailBlock >= 0
  {
  }

  lemma NextBlock(n: nat)
    ensures n % BLOCK_SIZE == 0 ==> Blocks(n + 1) == n / BLOCK_SIZE + 1 && Blocks(n) == n / BLOCK_SIZE
    ensures n % BLOCK_SIZE != 0 ==> Blocks(n + 1) == Blocks(n) == n / BLOCK_SIZE + 1
  {
  }

  /** The front of the current index is the entry of the last block. */
  ghost predicate FrontIsOut<T>(s: View<T>)
    requires Indexed(s) && s.Size() > 0
  {
    s.blockOf != [] ==> s.headers[|s.headers| - 1].front == SlotFor(s, |s.headers| - 1, |s.blockOf| - 1)
  }

  lemma FrontOfQuiet<T>(s: View<T>)
    requires Inv(s)
    ensures Indexed(s) && s.Size() > 0 && (Quiet(s) ==> FrontIsOut(s))
  {
  }

  lemma StillQuiet<T>(s: View<T>, t: View<T>)
    requires Indexed(s) && s.Size() > 0 && FrontIsOut(s) && Inv(t)
    requires t.headers == s.headers && t.shifts == s.shifts && t.blockOf == s.blockOf
    requires |t.blockOf| == t.prepared == Blocks(|t.log|)
    ensures Quiet(t)
  {
    hide Counters, Links, Contents, Current, HoldOk, SlotFor;
    SameSlots(s, t);
  }

  /** The block ahead is not one of those numbered in advance. */
  lemma NotAllNew<T>(s: View<T>)
    requires Inv(s) && s.tailBlock != NONE && 0 <= s.tailBlock < |s.next|
    requires s.next[s.tailBlock] != (if |s.blockOf| > s.prepared then s.blockOf[s.prepared] else NONE)
    requires 0 <= s.Oldest() < |s.blockOf| && s.next[s.tailBlock] == s.blockOf[s.Oldest()] < |s.flags|
    requires |s.flags[s.blockOf[s.Oldest()]]| == BLOCK_SIZE && forall k | 0 <= k < BLOCK_SIZE :: s.flags[s.next[s.tailBlock]][k]
    ensures Links(s) && Contents(s) && AheadIsEmpty(s)
  {
    OldestBound(s);
    assert BlockOk(s, s.Oldest());
  }

  lemma NextBase(n: nat)
    ensures Wrap(Wrap(BLOCK_SIZE * (n - 1)) + BLOCK_SIZE) == Wrap(BLOCK_SIZE * n)
  {
    WrapAdd(BLOCK_SIZE * (n - 1), BLOCK_SIZE);
  }

  lemma SizeOfNumbered<T>(s: View<T>, b: nat)
    requires Inv(s)
    ensures Indexed(s) && s.front < s.Size() && Numbered(s, b).Size() == s.Size()
  {
  }

  /** The index can be doubled until it has `n` slots. */
  ghost predicate RoomToGrow(size: nat, n: nat)
    decreases n - size
  {
    size > 0 && (n <= size || (FitsWord(2 * size) && RoomToGrow(2 * size, n)))
  }

  /** There is room for `left` more blocks, in memory and between tail and head. */
  ghost predicate Room<T>(s: View<T>, left: nat) {
    && BLOCK_SIZE * (|s.blockOf| + left) - s.head < HALF && BLOCK_SIZE * (s.slotsUsed + left) < HALF
    && RoomToGrow(s.Size(), s.slotsUsed + left)
  }

  lemma RoomIsEnough<T>(s: View<T>, left: nat)
    requires Inv(s) && Room(s, left) && left > 0
    ensures CircularLessThan(s.headIndex, Wrap(Wrap(BLOCK_SIZE * |s.blockOf|) + BLOCK_SIZE))
    ensures s.slotsUsed == s.Size() ==> FitsWord(2 * s.Size())
  {
    hide Links, Contents, Indexed, Current, HoldOk, Wrap;
    WrapAdd(BLOCK_SIZE * |s.blockOf|, BLOCK_SIZE);
    LeewayTest(s.head, BLOCK_SIZE * |s.blockOf|);
  }

  lemma RoomIsLeft<T>(s: View<T>, left: nat)
    requires Inv(s) && Room(s, left) && left > 0 && s.slotsUsed != s.Size()
    ensures s.slotsUsed < s.Size() && Leeway(s)
  {
  }

  lemma RoomStays<T>(s: View<T>, left: nat)
    requires Inv(s) && Room(s, left) && left > 0 && s.slotsUsed < s.Size()
    ensures s.front < s.Size() && Room(Inserted(s), left - 1)
  {
  }

  lemma RoomGrown<T>(s: View<T>, t: View<T>, left: nat)
    requires Room(s, left) && left > 0 && s.slotsUsed == s.Size() && t.Size() == 2 * s.Size()
    requires |t.blockOf| == |s.blockOf| && t.head == s.head && t.slotsUsed == s.slotsUsed
    ensures Room(t, left)
  {
  }

  /** Along the ring from the block of number `m`. */
  lemma NextInRing<T>(s: View<T>, m: int)
    requires Inv(s) && s.Oldest() <= m < |s.blockOf| && 0 <= m
    ensures s.blockOf[m] == s.tailBlock <==> m == |s.blockOf| - 1
    ensures s.blockOf[m] < |s.next| && (m < |s.blockOf| - 1 ==> s.next[s.blockOf[m]] == s.blockOf[m + 1])
  {
  }

  lemma FillRoom(n: nat, count: nat, k: nat, b: nat)
    requires b == Blocks(n + count) && k < count
    ensures n + k < BLOCK_SIZE * b && (n + k) / BLOCK_SIZE < b
  {
  }

  lemma StopWord(p: nat, left: nat)
    requires left < HALF
    ensures var base := Wrap(p) - Wrap(p) % BLOCK_SIZE;
            var stop := Wrap(base + BLOCK_SIZE);
            var last := if CircularLessThan(Wrap(p + left), stop) then Wrap(p + left) else stop;
            Wrap(last - Wrap(p)) == if left < BLOCK_SIZE - p % BLOCK_SIZE then left else BLOCK_SIZE - p % BLOCK_SIZE
  {
    var q := p - p % BLOCK_SIZE;
    BaseOfIndex(p);
    WrapAdd(q, BLOCK_SIZE);
    CircularOrder(p + left, q + BLOCK_SIZE);
    WrapSub(p + left, p);
    WrapSub(q + BLOCK_SIZE, p);
    WrapIs(left, 0);
    WrapIs(q + BLOCK_SIZE - p, 0);
  }

  /** `block` is where the next of `left` elements goes, or the last block when there is none left. */
  ghost predicate BlockAt<T>(s: View<T>, block: int, left: nat)
    requires s.blockOf != []
  {
    && 0 <= block
    && (left > 0 ==> |s.log| / BLOCK_SIZE < |s.blockOf| && block == s.blockOf[|s.log| / BLOCK_SIZE])
    && (left == 0 ==> block == s.blockOf[|s.blockOf| - 1])
  }

  lemma FillFits<T>(s: View<T>, block: int, n: nat, count: nat, k: nat)
    requires k <= count && |s.log| == n + k && |s.blockOf| == Blocks(n + count)
    requires if s.blockOf == [] then block == NONE else BlockAt(s, block, count - k)
    ensures s.blockOf == [] ==> count == 0
    ensures k < count ==> 0 <= block && |s.log| / BLOCK_SIZE < |s.blockOf| && block == s.blockOf[|s.log| / BLOCK_SIZE]
  {
  }

  /** After a block has been filled, or everything written, the next one in the ring is where it goes on. */
  lemma BlockFilled<T>(s: View<T>, t: View<T>, block: int, n: nat, count: nat, k: nat)
    requires Inv(t) && t.blockOf == s.blockOf && |s.log| <= |t.log| == n + k && n <= |s.log| && k <= count && t.head <= n
    requires |t.blockOf| == Blocks(n + count)
    requires if s.blockOf == [] then block == NONE else BlockAt(s, block, n + count - |s.log|)
    requires |t.log| - |s.log| == if n + count - |s.log| < BLOCK_SIZE - |s.log| % BLOCK_SIZE then n + count - |s.log|
                                  else BLOCK_SIZE - |s.log| % BLOCK_SIZE
    ensures block == t.tailBlock <==> k == count
    ensures k < count ==> |s.log| < |t.log|
    ensures block != t.tailBlock ==> 0 <= block < |t.next| && BlockAt(t, t.next[block], count - k)
  {
    hide Contents, Indexed, Current, HoldOk;
    TailIsLast(t);
    if s.blockOf != [] {
      var m := if |s.log| < n + count then |s.log| / BLOCK_SIZE else |s.blockOf| - 1;
      HoldBounds(t);
      if |s.log| < n + count && |s.log| < |t.log| { NotDone(t, |s.log|); InRing(t, |s.log|); }
      NextInRing(t, m);
    }
  }

  lemma NotDone<T>(s: View<T>, i: nat)
    requires Inv(s) && s.head <= i
    ensures i !in s.done
  {
  }

  function BaseOf(index: nat): nat { index - index % BLOCK_SIZE }

  /** The number of blocks that a bulk operation computes with words, and the base of the last block there is. */
  lemma BulkBlocks<T>(s: View<T>, count: nat)
    requires Inv(s) && Quiet(s) && count < HALF
    ensures Blocks(|s.log| + count) >= |s.blockOf|
    ensures var base := BaseOf(Wrap(s.tailIndex - 1));
            && base == Wrap(BLOCK_SIZE * (|s.blockOf| - 1))
            && Wrap(BaseOf(Wrap(s.tailIndex + count - 1)) - base) / BLOCK_SIZE == Blocks(|s.log| + count) - |s.blockOf|
  {
    hide Links, Contents, Indexed, Current, HoldOk, Wrap;
    var n := |s.log|;
    LastBase(n);
    LastBase(n + count);
    WrapAdd(n, -1);
    WrapAdd(n, count - 1);
    var a, b := BLOCK_SIZE * (Blocks(n + count) - 1), BLOCK_SIZE * (Blocks(n) - 1);
    WrapSub(a, b);
    WrapIs(a - b, 0);
  }

  lemma BlocksBefore(n: nat)
    ensures n > 0 ==> Blocks(n) - 1 == (n - 1) / BLOCK_SIZE
    ensures n == 0 ==> Blocks(n) == 0
  {
  }

  lemma LastBase(n: nat)
    ensures BaseOf(Wrap(n - 1)) == Wrap(BLOCK_SIZE * (Blocks(n) - 1))
  {
    hide Blocks;
    BlocksBefore(n);
    if n > 0 {
      hide Wrap;
      BaseOfIndex(n - 1);
    } else {
      WrapIs(-1, -1);
      WrapIs(-32, -1);
    }
  }

  lemma RoomAfterReuse<T>(s: View<T>, t: View<T>, left: nat)
    requires |s.blockOf| <= |t.blockOf| && Room(s, left + |t.blockOf| - |s.blockOf|)
    requires t.head == s.head && t.slotsUsed == s.slotsUsed && t.Size() == s.Size()
    ensures Room(t, left)
  {
    EnoughRoom(s.Size(), s.slotsUsed + left, s.slotsUsed + left + |t.blockOf| - |s.blockOf|);
  }

  lemma {:induction false} EnoughRoom(size: nat, n: nat, more: nat)
    requires RoomToGrow(size, more) && n <= more
    ensures RoomToGrow(size, n)
    decreases more - size
  {
    if more > size { EnoughRoom(2 * size, n, more); }
  }

  lemma BulkFront<T>(s: View<T>, t: View<T>)
    requires Inv(s) && Quiet(s) && Inv(t)
    requires t == s || (t.blockOf != [] && Indexed(t) && t.headers[|t.headers| - 1].front == SlotFor(t, |t.headers| - 1, |t.blockOf| - 1))
    ensures Indexed(t) && t.Size() > 0 && FrontIsOut(t)
  {
  }

  /** Where a bulk operation starts to fill. */
  lemma BulkStart<T>(s: View<T>, t: View<T>, block: int, count: nat, first: int)
    requires Inv(s) && Quiet(s) && Inv(t) && t.log == s.log && t.prepared == |t.blockOf| == Blocks(|s.log| + count)
    requires s.blockOf <= t.blockOf && first == (if |t.blockOf| > |s.blockOf| then t.blockOf[|s.blockOf|] else NONE)
    requires block == if s.tailIndex % BLOCK_SIZE == 0 && first != NONE then first else s.tailBlock
    ensures if t.blockOf == [] then block == NONE else BlockAt(t, block, count)
  {
    hide Contents, Indexed, Current, HoldOk;
    QuietCounts(s);
    TailIsLast(s);
  }

  lemma BulkQuiet<T>(s: View<T>, t: View<T>)
    requires Indexed(s) && s.Size() > 0 && FrontIsOut(s) && Inv(t)
    requires t.headers == s.headers && t.shifts == s.shifts && t.blockOf == s.blockOf
    requires |t.blockOf| == t.prepared == Blocks(|t.log|)
    ensures Quiet(t)
  {
    StillQuiet(s, t);
  }

  lemma IndexInBlock(i: nat)
    ensures Wrap(i) % BLOCK_SIZE == i % BLOCK_SIZE
  {
    ModOfWrap(i, BLOCK_SIZE, W / BLOCK_SIZE);
  }

  lemma NotTaken<T>(s: View<T>, i: nat)
    requires Inv(s) && i in s.holds
    ensures i !in s.done
  {
    assert HoldOk(s, i, s.holds[i]);
  }

  lemma HeadIsNew<T>(s: View<T>)
    requires Inv(s)
    ensures s.head !in s.done
  {
  }

  lemma UseIndexed<T>(s: View<T>)
    requires Inv(s)
    ensures Indexed(s) && s.front < s.Size() && |s.numbers[|s.headers| - 1]| == s.Size()
  {
  }

  lemma TailInRange<T>(s: View<T>)
    requires Inv(s)
    ensures s.tailBlock == NONE || 0 <= s.tailBlock < |s.next|
  {
  }

  lemma WriteFacts<T>(s: View<T>)
    requires Inv(s) && |s.log| < BLOCK_SIZE * s.prepared
    ensures s.tailIndex % BLOCK_SIZE == |s.log| % BLOCK_SIZE && |s.log| / BLOCK_SIZE < |s.blockOf|
    ensures var b := s.blockOf[|s.log| / BLOCK_SIZE]; b < |s.cells| && |s.cells[b]| == BLOCK_SIZE
  {
    ModOfWrap(|s.log|, BLOCK_SIZE, W / BLOCK_SIZE);
    PlaceIsRaw(s);
  }

  lemma QuietCounts<T>(s: View<T>)
    requires Inv(s) && Quiet(s)
    ensures s.tailIndex % BLOCK_SIZE == |s.log| % BLOCK_SIZE
    ensures |s.log| % BLOCK_SIZE == 0 ==> |s.log| == BLOCK_SIZE * |s.blockOf| && s.tailIndex == Wrap(BLOCK_SIZE * |s.blockOf|)
    ensures |s.log| % BLOCK_SIZE != 0 ==> |s.log| < BLOCK_SIZE * |s.blockOf| && |s.log| / BLOCK_SIZE == |s.blockOf| - 1
    ensures s.head <= |s.log| && (s.blockOf != [] ==> |s.log| - s.head < HALF)
  {
    hide Links, Contents, Indexed, Current, HoldOk, Wrap;
    ModOfWrap(|s.log|, BLOCK_SIZE, W / BLOCK_SIZE);
  }

  lemma GrownQuiet<T>(s: View<T>, entries: seq<Entry>)
    requires Inv(s) && Quiet(s) && FitsWord(|entries|) && s.slotsUsed < |entries| && Copied(s, entries)
    ensures Inv(Grown(s, entries, Wrap(s.slotsUsed - 1))) && Quiet(Grown(s, entries, Wrap(s.slotsUsed - 1)))
  {
    GrowKeeps(s, entries, Wrap(s.slotsUsed - 1));
    if s.slotsUsed > 0 {
      FirstSlots(s.Oldest(), |entries|, s.slotsUsed - 1);
      WrapIs(s.slotsUsed - 1, 0);
    }
  }

  lemma RingAhead<T>(s: View<T>)
    requires Inv(s) && s.tailBlock != NONE
    ensures 0 <= s.tailBlock < |s.next| && s.slotsUsed > 0 && 0 <= s.Oldest() < |s.blockOf|
    ensures s.next[s.tailBlock] == s.blockOf[s.Oldest()] < |s.flags|
    ensures |s.flags[s.blockOf[s.Oldest()]]| == BLOCK_SIZE
  {
    assert BlockOk(s, s.Oldest());
  }

  // ---------------------------------------------------------------- the start, and copying an index

  lemma InitKeeps<T>(s: View<T>, size: nat)
    requires FitsWord(size)
    requires s == View(0, 0, NONE, [], [], [], [Header(seq(size, _ => Entry(0, 0)), W - 1)], 0, 0,
                       [], 0, {}, [], 0, [0], [seq(size, _ => -1)], map[])
    ensures Inv(s) && Quiet(s)
  {
    WrapIs(0, 0);
    assert HeaderOk(s.headers[0], 0, s.numbers[0], []);
    assert SlotFor(s, 0, 0) == 0;
  }

  /** The first `n` entries are those of the oldest blocks of the ring. */
  ghost predicate CopiedUpTo<T>(s: View<T>, entries: seq<Entry>, n: nat) {
    && n <= |entries| && n <= s.slotsUsed <= |s.blockOf|
    && forall j: nat | j < n :: entries[j] == Entry(Wrap(BLOCK_SIZE * (s.Oldest() + j)), s.blockOf[s.Oldest() + j])
  }

  /** The entry of the j-th oldest block in the current index. */
  lemma CopyNext<T>(s: View<T>, j: nat)
    requires Inv(s) && j < s.slotsUsed
    ensures var k, size := |s.headers| - 1, s.Size();
            && s.slotsUsed <= |s.blockOf| && size > 0
            && var i := (s.Oldest() + j + s.shifts[k]) % size;
            && s.headers[k].entries[i] == Entry(Wrap(BLOCK_SIZE * (s.Oldest() + j)), s.blockOf[s.Oldest() + j])
            && (i + 1) % size == (s.Oldest() + j + 1 + s.shifts[k]) % size
            && (i == s.front ==> j == 0 && s.slotsUsed == size)
  {
    hide Counters, Contents, Links;
    HoldBounds(s);
    var k, size, m := |s.headers| - 1, s.Size(), s.Oldest() + j;
    FrontFits(s);
    assert HeaderOk(s.headers[k], s.shifts[k], s.numbers[k], s.blockOf);
    assert SlotOk(s.headers[k], s.shifts[k], s.numbers[k], s.blockOf, SlotFor(s, k, m));
    NextSlot(m, s.shifts[k], size);
    if |s.blockOf| < m + size { OtherSlot(m, |s.blockOf|, s.shifts[k], size); }
  }

  /** There are entries left as long as the copy has not come round to the front. */
  lemma CopyMore<T>(s: View<T>, j: nat)
    requires Inv(s) && 1 <= j <= s.slotsUsed && s.Size() > 0
    requires (s.Oldest() + j + s.shifts[|s.headers| - 1]) % s.Size() != s.front
    ensures j < s.slotsUsed
  {
  }

  lemma CopyStart<T>(s: View<T>)
    requires Inv(s) && s.slotsUsed > 0
    ensures s.Size() > 0 && (s.front - s.slotsUsed) % s.Size() == (s.Oldest() + s.shifts[|s.headers| - 1]) % s.Size()
  {
    HoldBounds(s);
    FrontFits(s);
    SlotMoves(s.Oldest(), |s.blockOf|, s.shifts[|s.headers| - 1], s.Size());
  }

  /** The copy stops when all entries of the ring have been copied. */
  lemma CopyEnd<T>(s: View<T>, j: nat)
    requires Inv(s) && 1 <= j <= s.slotsUsed && s.Size() > 0
    requires (s.Oldest() + j + s.shifts[|s.headers| - 1]) % s.Size() == s.front
    ensures j == s.slotsUsed
  {
    HoldBounds(s);
    if j < s.slotsUsed { CopyNext(s, j); }
  }

  // ---------------------------------------------------------------- the producer

  class ExplicitProducer<T> {
    var tailIndex: nat
    var headIndex: nat
    var tailBlock: int
    // the blocks, by their addresses: the ring, the elements, and the empty flags
    var next: seq<nat>
    var cells: seq<seq<Cell<T>>>
    var emptyFlags: seq<seq<bool>>
    // the indices published so far, the last one being the current one
    var headers: seq<Header>
    var slotsUsed: nat
    var front: nat

    ghost var log: seq<T>
    ghost var head: nat
    ghost var done: set<nat>
    ghost var blockOf: seq<nat>
    ghost var prepared: nat
    ghost var shifts: seq<nat>
    ghost var numbers: seq<seq<int>>
    ghost var holds: map<nat, Hold>

    ghost function Now(): View<T>
      reads this
    {
      View(tailIndex, headIndex, tailBlock, next, cells, emptyFlags, headers, slotsUsed, front,
           log, head, done, blockOf, prepared, shifts, numbers, holds)
    }

    ghost predicate Valid()
      reads this
    {
      Inv(Now()) && Quiet(Now())
    }

    /** Everything enqueued, the number of elements claimed, and those taken. */
    ghost function Queue(): (seq<T>, nat, set<nat>)
      reads this
    {
      (log, head, done)
    }

    constructor (size: nat)
      requires FitsWord(size)
      ensures Valid() && Queue() == ([], 0, {}) && holds == map[]
    {
      tailIndex, headIndex, tailBlock := 0, 0, NONE;
      next, cells, emptyFlags := [], [], [];
      headers := [Header(seq(size, _ => Entry(0, 0)), W - 1)];
      slotsUsed, front := 0, 0;
      log, head, done, blockOf, prepared := [], 0, {}, [], 0;
      shifts, numbers, holds := [0], [seq(size, _ => -1)], map[];
      new;
      InitKeeps(Now(), size);
    }

    /** The entries of the ring, from the oldest one, in the first slots of an array of twice the size. */
    method CopyEntries() returns (entries: seq<Entry>, j: nat)
      requires Inv(Now())
      ensures |entries| == 2 * Now().Size() && j == slotsUsed && Copied(Now(), entries)
    {
      hide Counters, Contents, Links, Current;
      ghost var s := Now();
      FrontFits(s);
      HoldBounds(s);
      var from := headers[|headers| - 1].entries;
      entries, j := seq(2 * |from|, _ => Entry(0, 0)), 0;
      if slotsUsed != 0 {
        CopyStart(s);
        var i := (front - slotsUsed) % |from|;
        CopyNext(s, 0);
        entries, i, j := entries[0 := from[i]], (i + 1) % |from|, 1;
        while i != front
          invariant 1 <= j <= slotsUsed && |entries| == 2 * |from| && i == (s.Oldest() + j + s.shifts[|s.headers| - 1]) % |from|
          invariant CopiedUpTo(s, entries, j)
          decreases slotsUsed - j
        {
          CopyMore(s, j);
          CopyNext(s, j);
          entries, i, j := entries[j := from[i]], (i + 1) % |from|, j + 1;
        }
        CopyEnd(s, j);
      }
    }

    /** `new_block_index`: an index of twice the size. */
    method NewBlockIndex(expose: nat)
      requires Inv(Now()) && FitsWord(2 * Now().Size())
      modifies `headers, `front, `shifts, `numbers
      ensures Inv(Now()) && Now().Size() == 2 * old(Now().Size())
      ensures |headers| > 0 && headers[..|headers| - 1] == old(headers)
      ensures old(Quiet(Now())) && expose == slotsUsed ==> Quiet(Now())
    {
      hide Counters, Contents, Links, Current, HoldOk, HeaderOk, Copied, Wrap, Quiet;
      ghost var s := Now();
      FrontFits(s);
      HoldBounds(s);
      var entries, j := CopyEntries();
      var header := Header(entries, Wrap(expose - 1));
      GrowKeeps(s, entries, header.front);
      if Quiet(s) { GrownQuiet(s, entries); }
      shifts := shifts + [FirstSlotShift(s.Oldest(), |entries|)];
      numbers := numbers + [seq(|entries|, x requires 0 <= x => if x < s.slotsUsed then s.Oldest() + x else -1)];
      front := j;
      headers := headers + [header];
      assert Now() == Grown(s, entries, header.front);
    }

    /** `is_empty`. */
    method IsEmpty(b: nat) returns (empty: bool)
      requires b < |emptyFlags| && |emptyFlags[b]| == BLOCK_SIZE
      ensures empty <==> forall k | 0 <= k < BLOCK_SIZE :: emptyFlags[b][k]
    {
      var i := 0;
      while i < BLOCK_SIZE
        invariant 0 <= i <= BLOCK_SIZE && forall k | 0 <= k < i :: emptyFlags[b][k]
      {
        if !emptyFlags[b][i] { return false; }
        i := i + 1;
      }
      return true;
    }

    /** Enters the tail block in the current index, for the elements from `base` on. */
    method AddEntry(base: nat, ghost s: View<T>)
      requires Indexed(s) && s.front < s.Size() && base == Wrap(BLOCK_SIZE * |s.blockOf|) && tailBlock >= 0
      requires Now() == s.(tailBlock := tailBlock)
      modifies `headers, `front, `numbers, `blockOf
      ensures Now() == Numbered(s, tailBlock)
    {
      var j := |headers| - 1;
      var size := |headers[j].entries|;
      numbers := numbers[j := numbers[j][front := |blockOf|]];
      blockOf := blockOf + [tailBlock];
      headers := headers[j := headers[j].(entries := headers[j].entries[front := Entry(base, tailBlock)])];
      front := (front + 1) % size;
    }

    /** Goes on to the block ahead, which is empty. */
    method ReuseBlock(base: nat)
      requires Inv(Now()) && AheadIsEmpty(Now()) && base == Wrap(BLOCK_SIZE * |blockOf|)
      modifies `tailBlock, `headers, `front, `numbers, `blockOf
      ensures old(Now().front < Now().Size() && 0 <= tailBlock < |next|) && Now() == old(Reused(Now())) && Inv(Now())
    {
      hide Inv, Wrap;
      ghost var s := Now();
      ReuseKeeps(s);
      UseIndexed(s);
      tailBlock := next[tailBlock];
      AddEntry(base, s);
    }

    /** Links a block from the pool in behind the tail block; all its flags are up. */
    method LinkBlock()
      requires Inv(Now())
      modifies `next, `cells, `emptyFlags, `tailBlock, `slotsUsed
      ensures Now() == old(Linked(Now(), true)).(tailBlock := tailBlock) && tailBlock == old(|next|)
    {
      hide Inv;
      TailInRange(Now());
      var newBlock := |next|;
      cells, emptyFlags := cells + [Places(Raw)], emptyFlags + [Places(true)];
      if tailBlock == NONE {
        next := next + [newBlock];
      } else {
        next := next + [next[tailBlock]];
        next := next[tailBlock := newBlock];
      }
      tailBlock := newBlock;
      slotsUsed := slotsUsed + 1;
    }

    /** Puts a block from the pool into ring and index. */
    method InsertBlock(base: nat)
      requires Inv(Now()) && slotsUsed < Now().Size() && Leeway(Now()) && base == Wrap(BLOCK_SIZE * |blockOf|)
      modifies this
      ensures old(Now().front < Now().Size()) && Now() == old(Inserted(Now())) && Inv(Now())
    {
      hide Inv, Wrap;
      ghost var s := Now();
      InsertKeeps(s);
      UseIndexed(s);
      LinkBlock();
      AddEntry(base, Linked(s, true));
    }

    /** `reset_empty` on the first block that was numbered but not prepared. */
    method ResetEmpty(b: nat)
      requires Inv(Now()) && prepared < |blockOf| && b == blockOf[prepared]
      modifies `emptyFlags, `prepared
      ensures Inv(Now()) && old(b < |emptyFlags|) && Now() == old(Prepared(Now()))
    {
      PrepareKeeps(Now());
      emptyFlags := emptyFlags[b := Places(false)];
      prepared := prepared + 1;
    }

    /** Constructs `v` as the next element, in block `b`. */
    method Construct(b: nat, v: T)
      requires Inv(Now()) && |log| < BLOCK_SIZE * prepared && prepared <= |blockOf| && b == blockOf[|log| / BLOCK_SIZE]
      modifies `cells, `log, `tailIndex
      ensures Inv(Now()) && Now() == old(Written(Now(), v)) && log == old(log) + [v]
    {
      hide Inv;
      ghost var s := Now();
      WriteKeeps(s, v);
      WriteFacts(s);
      cells := cells[b := cells[b][tailIndex % BLOCK_SIZE := Full(v)]];
      log := log + [v];
      tailIndex := Wrap(tailIndex + 1);
    }

    method Publish()
      requires Inv(Now()) && blockOf != []
      modifies `headers
      ensures old(Now().front < Now().Size()) && Inv(Now()) && Now() == old(Published(Now()))
      ensures Indexed(Now()) && headers[|headers| - 1].front == SlotFor(Now(), |headers| - 1, |blockOf| - 1)
    {
      hide Inv, SlotFor;
      PublishKeeps(Now());
      UseIndexed(Now());
      var j := |headers| - 1;
      headers := headers[j := headers[j].(front := (front - 1) % |headers[j].entries|)];
    }

    // -------------------------------------------------------------- enqueue

    /** Starts a new block for the next element: the one ahead if it is empty, otherwise one from the pool,
        with a larger index first when the current one is full. */
    method StartBlock(indexAllocated: bool, blockAllocated: bool) returns (ok: bool)
      requires Valid() && |log| % BLOCK_SIZE == 0
      requires indexAllocated ==> FitsWord(2 * Now().Size())
      requires blockAllocated ==> BLOCK_SIZE * (slotsUsed + 1) < HALF
      modifies this
      ensures Inv(Now()) && Queue() == old(Queue()) && holds == old(holds)
      ensures if ok then |log| == BLOCK_SIZE * (|blockOf| - 1) && prepared == |blockOf| - 1 else Quiet(Now())
      ensures !ok ==> !indexAllocated || !blockAllocated || |log| + BLOCK_SIZE - head >= HALF
    {
      hide Counters, Contents, Links, Indexed, Current, HoldOk, Wrap, Quiet;
      ghost var s := Now();
      QuietCounts(s);
      PreparedAll(s);
      if tailBlock != NONE {
        RingAhead(s);
        var empty := IsEmpty(next[tailBlock]);
        if empty {
          ReuseBlock(tailIndex);
          ok := true;
          return;
        }
      }
      WrapAdd(|log|, BLOCK_SIZE);
      HeadBehind(s);
      LeewayTest(head, |log|);
      if !CircularLessThan(headIndex, Wrap(tailIndex + BLOCK_SIZE)) { return false; }
      UseIndexed(s);
      HoldBounds(s);
      if slotsUsed == |headers[|headers| - 1].entries| {
        if !indexAllocated { return false; }
        NewBlockIndex(slotsUsed);
      }
      if !blockAllocated { return false; }
      InsertBlock(tailIndex);
      ok := true;
    }

    /** `enqueue`: the element comes after all others; nothing changes when there is no memory, or when the
        tail would run half a word ahead of the head. */
    method Enqueue(v: T, indexAllocated: bool, blockAllocated: bool) returns (ok: bool)
      requires Valid()
      requires indexAllocated ==> FitsWord(2 * Now().Size())
      requires blockAllocated ==> BLOCK_SIZE * (slotsUsed + 1) < HALF
      modifies this
      ensures Valid() && holds == old(holds)
      ensures Queue() == if ok then (old(log) + [v], old(head), old(done)) else old(Queue())
      ensures !ok ==> |log| % BLOCK_SIZE == 0 && (!indexAllocated || !blockAllocated || |log| + BLOCK_SIZE - head >= HALF)
    {
      hide Counters, Contents, Links, Indexed, Current, HoldOk, Wrap;
      QuietCounts(Now());
      PreparedAll(Now());
      NextBlock(|log|);
      if tailIndex % BLOCK_SIZE == 0 {
        ok := StartBlock(indexAllocated, blockAllocated);
        if !ok { return; }
        TailIsLast(Now());
        ResetEmpty(tailBlock);
        Publish();
      }
      ghost var s := Now();
      TailIsLast(s);
      UseIndexed(s);
      FrontOfQuiet(s);
      Construct(tailBlock, v);
      StillQuiet(s, Now());
      ok := true;
    }

    // -------------------------------------------------------------- enqueue_bulk

    /** Takes blocks from ahead in the ring, as long as there are empty ones and blocks are needed. */
    method ReuseBlocks(count: nat, base0: nat) returns (left: nat, base: nat, first: int)
      requires Inv(Now()) && prepared == |blockOf| && base0 == Wrap(BLOCK_SIZE * (|blockOf| - 1))
      modifies `tailBlock, `headers, `front, `numbers, `blockOf
      ensures Inv(Now()) && Now().Size() == old(Now().Size()) && left + |blockOf| == count + old(|blockOf|)
      ensures old(blockOf) <= blockOf && base == Wrap(BLOCK_SIZE * (|blockOf| - 1))
      ensures first == (if |blockOf| > prepared then blockOf[prepared] else NONE)
    {
      hide Inv, Wrap;
      left, base, first := count, base0, NONE;
      var more := true;
      while left > 0 && more
        invariant Inv(Now()) && Now().Size() == old(Now().Size()) && left + |blockOf| == count + old(|blockOf|)
        invariant old(blockOf) <= blockOf && base == Wrap(BLOCK_SIZE * (|blockOf| - 1))
        invariant first == (if |blockOf| > prepared then blockOf[prepared] else NONE)
        decreases left, more
      {
        more := false;
        TailInRange(Now());
        if tailBlock != NONE && next[tailBlock] != first {
          RingAhead(Now());
          more := IsEmpty(next[tailBlock]);
          if more {
            NotAllNew(Now());
            NextBase(|blockOf|);
            SizeOfNumbered(Now(), next[tailBlock]);
            left, base := left - 1, Wrap(base + BLOCK_SIZE);
            ReuseBlock(base);
            first := if first == NONE then tailBlock else first;
            TailIsLast(Now());
          }
        }
      }
    }

    /** Puts a new block into ring and index, after growing the index when it is full. */
    method InsertOne(base: nat, expose: nat, ghost left: nat)
      requires Inv(Now()) && Room(Now(), left) && left > 0 && base == Wrap(BLOCK_SIZE * |blockOf|)
      modifies this
      ensures Inv(Now()) && Room(Now(), left - 1)
      ensures |blockOf| == old(|blockOf|) + 1 && old(blockOf) <= blockOf && tailBlock >= 0 && blockOf[old(|blockOf|)] == tailBlock
      ensures Queue() == old(Queue()) && holds == old(holds) && prepared == old(prepared) && tailIndex == old(tailIndex)
    {
      hide Inv, Wrap, Room;
      RoomIsEnough(Now(), left);
      var full := !CircularLessThan(headIndex, Wrap(base + BLOCK_SIZE));
      assert !full;
      UseIndexed(Now());
      if slotsUsed == |headers[|headers| - 1].entries| {
        ghost var r := Now();
        NewBlockIndex(expose);
        RoomGrown(r, Now(), left);
      }
      ghost var s := Now();
      HoldBounds(s);
      RoomIsLeft(s, left);
      InsertBlock(base);
      RoomStays(s, left);
    }

    /** Puts `left0` new blocks into ring and index. */
    method InsertBlocks(left0: nat, base0: nat, first0: int, expose: nat) returns (first: int)
      requires Inv(Now()) && base0 == Wrap(BLOCK_SIZE * (|blockOf| - 1)) && Room(Now(), left0)
      requires first0 == (if |blockOf| > prepared then blockOf[prepared] else NONE) && prepared <= |blockOf|
      modifies this
      ensures Inv(Now()) && |blockOf| == left0 + old(|blockOf|) && old(blockOf) <= blockOf
      ensures Queue() == old(Queue()) && holds == old(holds) && prepared == old(prepared) && tailIndex == old(tailIndex)
      ensures first == (if |blockOf| > prepared then blockOf[prepared] else NONE)
    {
      hide Inv, Wrap, Room;
      var left, base := left0, base0;
      first := first0;
      while left > 0
        invariant 0 <= left && Inv(Now()) && left + |blockOf| == left0 + old(|blockOf|) && old(blockOf) <= blockOf
        invariant base == Wrap(BLOCK_SIZE * (|blockOf| - 1)) && Room(Now(), left) && prepared <= |blockOf|
        invariant first == (if |blockOf| > prepared then blockOf[prepared] else NONE)
        invariant Queue() == old(Queue()) && holds == old(holds) && prepared == old(prepared) && tailIndex == old(tailIndex)
        decreases left
      {
        NextBase(|blockOf|);
        base := Wrap(base + BLOCK_SIZE);
        InsertOne(base, expose, left);
        left := left - 1;
        first := if first == NONE then tailBlock else first;
      }
    }

    /** Resets the blocks numbered in advance, from the first to the tail block. */
    method ResetBlocks(first: int)
      requires Inv(Now()) && prepared < |blockOf| && first == blockOf[prepared]
      modifies `emptyFlags, `prepared
      ensures Inv(Now()) && prepared == |blockOf|
    {
      hide Inv;
      var block := first;
      while true
        invariant Inv(Now()) && prepared < |blockOf| && block == blockOf[prepared]
        decreases |blockOf| - prepared
      {
        OldestBound(Now());
        ResetEmpty(block);
        NextInRing(Now(), prepared - 1);
        if block == tailBlock { break; }
        block := next[block];
      }
    }

    /** How many of the `left` elements still to come go into the block of the next one. */
    method RoomInBlock(current: nat, end: nat, ghost p: nat, ghost left: nat) returns (room: nat)
      requires current == Wrap(p) && end == Wrap(p + left) && left < HALF
      ensures room == if left < BLOCK_SIZE - p % BLOCK_SIZE then left else BLOCK_SIZE - p % BLOCK_SIZE
    {
      StopWord(p, left);
      var stop := Wrap(current - current % BLOCK_SIZE + BLOCK_SIZE);
      if CircularLessThan(end, stop) { stop := end; }
      room := Wrap(stop - current);
    }

    /** Constructs elements of `vs` from number `from` on in one block. */
    method FillBlock(vs: seq<T>, from: nat, room: nat, block: int, ghost n: nat)
      requires Inv(Now()) && prepared == |blockOf| == Blocks(n + |vs|) && |log| == n + from && from + room <= |vs|
      requires room > 0 ==> 0 <= block && room <= BLOCK_SIZE - |log| % BLOCK_SIZE && |log| / BLOCK_SIZE < |blockOf|
                            && block == blockOf[|log| / BLOCK_SIZE]
      modifies `cells, `log, `tailIndex
      ensures Inv(Now()) && log == old(log) + vs[from..from + room]
    {
      hide Inv;
      var k := 0;
      while k < room
        invariant 0 <= k <= room && Inv(Now()) && log == old(log) + vs[from..from + k]
      {
        FillRoom(n, |vs|, from + k, |blockOf|);
        Construct(block, vs[from + k]);
        assert vs[from..from + k + 1] == vs[from..from + k] + [vs[from + k]];
        k := k + 1;
      }
    }

    /** Constructs what goes into `block`: the elements from number `from` on, up to number `upTo`. */
    method FillOne(vs: seq<T>, from: nat, end: nat, block: int, ghost n: nat) returns (upTo: nat)
      requires Inv(Now()) && prepared == |blockOf| == Blocks(n + |vs|) && |log| == n + from && from <= |vs| < HALF
      requires end == Wrap(n + |vs|)
      requires if blockOf == [] then block == NONE else BlockAt(Now(), block, |vs| - from)
      modifies `cells, `log, `tailIndex
      ensures Inv(Now()) && from <= upTo <= |vs| && log == old(log) + vs[from..upTo]
      ensures upTo - from == if |vs| - from < BLOCK_SIZE - (n + from) % BLOCK_SIZE then |vs| - from
                             else BLOCK_SIZE - (n + from) % BLOCK_SIZE
    {
      hide Inv, Wrap, BlockAt, Blocks;
      HeadBehind(Now());
      FillFits(Now(), block, n, |vs|, from);
      var room := RoomInBlock(tailIndex, end, |log|, |vs| - from);
      FillBlock(vs, from, room, block, n);
      upTo := from + room;
    }

    /** Fills the blocks with `vs`, one block at a time, from `block` on. */
    method Fill(vs: seq<T>, block0: int)
      requires Inv(Now()) && prepared == |blockOf| == Blocks(|log| + |vs|) && |vs| < HALF
      requires if blockOf == [] then block0 == NONE else BlockAt(Now(), block0, |vs|)
      modifies `cells, `log, `tailIndex
      ensures Inv(Now()) && log == old(log) + vs
    {
      hide Inv, Wrap, BlockAt, Blocks;
      var block, k := block0, 0;
      HeadBehind(Now());
      WrapAdd(|log|, |vs|);
      var end := Wrap(tailIndex + |vs|);
      ghost var n := |log|;
      while true
        invariant 0 <= k <= |vs| && Inv(Now()) && log == old(log) + vs[..k]
        invariant if blockOf == [] then block == NONE else BlockAt(Now(), block, |vs| - k)
        decreases |vs| - k
      {
        ghost var s := Now();
        var upTo := FillOne(vs, k, end, block, n);
        assert vs[..upTo] == vs[..k] + vs[k..upTo];
        HeadBehind(s);
        k := upTo;
        BlockFilled(s, Now(), block, n, |vs|, k);
        if block == tailBlock { break; }
        block := next[block];
      }
    }

    /** How many more blocks `count` more elements need, and the base of the last block there is. */
    method BlocksNeeded(count: nat) returns (needed: nat, base: nat)
      requires Valid() && count < HALF
      ensures needed + |blockOf| == Blocks(|log| + count) && base == Wrap(BLOCK_SIZE * (|blockOf| - 1))
      ensures prepared == |blockOf|
    {
      hide Inv, Wrap, Quiet;
      PreparedAll(Now());
      BulkBlocks(Now(), count);
      base := BaseOf(Wrap(tailIndex - 1));
      needed := Wrap(BaseOf(Wrap(tailIndex + count - 1)) - base) / BLOCK_SIZE;
    }

    /** Numbers, resets and publishes `needed` blocks. */
    method PrepareBlocks(needed: nat, base: nat) returns (first: int)
      requires Inv(Now()) && prepared == |blockOf| && base == Wrap(BLOCK_SIZE * (|blockOf| - 1)) && needed > 0
      requires Room(Now(), needed)
      modifies this
      ensures Inv(Now()) && Queue() == old(Queue()) && holds == old(holds) && tailIndex == old(tailIndex)
      ensures prepared == |blockOf| == old(|blockOf|) + needed && old(blockOf) <= blockOf
      ensures first == blockOf[old(|blockOf|)]
      ensures Indexed(Now()) && headers[|headers| - 1].front == SlotFor(Now(), |headers| - 1, |blockOf| - 1)
    {
      hide Inv, Wrap, Room, SlotFor;
      ghost var s := Now();
      var expose := slotsUsed;
      var left, last;
      left, last, first := ReuseBlocks(needed, base);
      RoomAfterReuse(s, Now(), left);
      first := InsertBlocks(left, last, first, expose);
      ResetBlocks(first);
      Publish();
    }

    /** The first half of `enqueue_bulk`: numbers and prepares the blocks for `count` more elements. */
    method AllocateBlocks(count: nat) returns (first: int)
      requires Valid() && count < HALF && Room(Now(), Blocks(|log| + count) - |blockOf|)
      modifies this
      ensures Inv(Now()) && Queue() == old(Queue()) && holds == old(holds) && tailIndex == old(tailIndex)
      ensures prepared == |blockOf| == Blocks(|log| + count) && old(blockOf) <= blockOf
      ensures first == (if |blockOf| > old(|blockOf|) then blockOf[old(|blockOf|)] else NONE)
      ensures Indexed(Now()) && Now().Size() > 0 && FrontIsOut(Now())
    {
      hide Inv, Wrap, Room, Quiet, BlockAt, FrontIsOut;
      ghost var s := Now();
      var needed, base := BlocksNeeded(count);
      first := NONE;
      if needed > 0 { first := PrepareBlocks(needed, base); }
      BulkFront(s, Now());
    }

    /** `enqueue_bulk`: the blocks first, then the elements. It leaves the queue that enqueuing them one by
        one leaves. */
    method EnqueueBulk(vs: seq<T>)
      requires Valid() && |vs| < HALF && Room(Now(), Blocks(|log| + |vs|) - |blockOf|)
      modifies this
      ensures Valid() && Queue() == (old(log) + vs, old(head), old(done)) && holds == old(holds)
    {
      hide Inv, Wrap, Room, Quiet, BlockAt, FrontIsOut;
      ghost var s := Now();
      PreparedAll(s);
      var startBlock, start := tailBlock, tailIndex;
      var first := AllocateBlocks(|vs|);
      ghost var t := Now();
      var block := if start % BLOCK_SIZE == 0 && first != NONE then first else startBlock;
      BulkStart(s, t, block, |vs|, first);
      Fill(vs, block);
      BulkQuiet(t, Now());
    }

    // -------------------------------------------------------------- consumers

    /** The claim of the next element; that there is one is the business of the dequeue tickets. */
    method Claim() returns (index: nat, ghost i: nat)
      requires Valid() && head < |log|
      modifies `headIndex, `head
      ensures Valid() && i == old(head) && index == Wrap(i) && head == old(head) + 1
    {
      ClaimKeeps(Now());
      HeadBehind(Now());
      index, i := headIndex, head;
      headIndex := Wrap(headIndex + 1);
      head := head + 1;
    }

    /** A consumer that has claimed element `i` loads the current index and its front. */
    method LoadIndex(ghost i: nat) returns (header: nat, slot: nat)
      requires Valid() && i < head && i !in done
      modifies `holds
      ensures Valid() && holds == old(holds)[i := Hold(header, slot)]
    {
      LoadKeeps(Now(), i);
      UseIndexed(Now());
      header := |headers| - 1;
      slot := headers[header].front;
      holds := holds[i := Hold(header, slot)];
    }

    /** The rest of `dequeue`: the element that comes out is the one enqueued as number `i`, however old the
        index that the consumer has loaded. */
    method Take(index: nat, header: nat, slot: nat, ghost i: nat) returns (v: T)
      requires Valid() && index == Wrap(i) && i in holds && holds[i] == Hold(header, slot)
      modifies `cells, `emptyFlags, `done, `holds
      ensures Valid() && i < |log| && v == log[i] && done == old(done) + {i} && i !in old(done) && holds == old(holds) - {i}
    {
      hide Inv, Quiet, LookupSlot;
      ghost var s := Now();
      LookupIsRight(s, i);
      IndexInBlock(i);
      var entries := headers[header].entries;
      var block := entries[LookupSlot(index, slot, entries[slot].base, |entries|)].block;
      var k := index % BLOCK_SIZE;
      v := cells[block][k].v;
      TakeKeeps(s, i);
      NotTaken(s, i);
      cells := cells[block := cells[block][k := Raw]];
      emptyFlags := emptyFlags[block := emptyFlags[block][FlagOf(k) := true]];
      done := done + {i};
      holds := holds - {i};
      assert Now() == Taken(s, i);
    }

    /** `dequeue` by one consumer, undisturbed: first in, first out. */
    method Dequeue() returns (v: T)
      requires Valid() && head < |log|
      modifies this
      ensures Valid() && v == old(log[head]) && Queue() == (old(log), old(head) + 1, old(done) + {old(head)})
    {
      hide Inv, Wrap, Quiet;
      HeadIsNew(Now());
      var index, i := Claim();
      var header, slot := LoadIndex(i);
      v := Take(index, header, slot, i);
    }
  }
}
