// The block index of an implicit producer: a circular array of entries that consumers search while
// the producer inserts, reuses and reindexes.
//
// The producer enqueues any number of elements at a time; any number of consumers, each holding a
// range of claimed indices (single and bulk dequeue), look their blocks up and release them in any
// order. Every access to a shared atomic is one step. Blocks are numbered in the order in which they
// are inserted: element i lives in block i / BLOCK_SIZE. Keys are 64-bit words.
module ImplicitIndex {
  import opened Words
  import opened CircularIndex

  const IMPLICIT_INITIAL_INDEX_SIZE: nat := 32
  const INVALID_BLOCK_BASE: nat := 1

  datatype Value = Null | Block(id: nat)

  datatype Entry = Entry(key: nat, value: Value)

  /** `shift`, `bound` and `depth` are bookkeeping: block m belongs in slot (m + shift) % capacity, the
      header was the current one while blocks below `bound` were inserted, and the last `depth` of
      these still have their entries. */
  datatype Header = Header(capacity: nat, tail: nat, index: seq<nat>, shift: nat, bound: nat, depth: nat)
  {
    function Slot(m: int): int { if capacity == 0 then 0 else (m + shift) % capacity }

    /** The entry that belongs to block m. */
    function At(m: int): nat { if 0 <= Slot(m) < |index| then index[Slot(m)] else 0 }
  }

  datatype Producer =
    | Ready
    | Loop(n: nat)         // enqueue of n elements: does it need another block?
    | Probe(n: nat)        // loads of the next entry
    | Grow(n: nat)         // new_block_index: publication of a larger header
    | StoreKey(n: nat)
    | StoreTail(n: nat)
    | StoreValue(n: nat)   // requisition of a block, and store of it in the entry

  datatype Pc =
    | Idle
    | Claimed(i: nat, n: nat)                                      // load of the current header
    | WithHeader(i: nat, n: nat, h: nat)                           // load of its tail
    | WithTail(i: nat, n: nat, h: nat, slot: nat, m: nat)          // load of the key there; m is bookkeeping
    | WithKey(i: nat, n: nat, h: nat, slot: nat, m: nat, key: nat) // computation of the slot
    | AtSlot(i: nat, n: nat, h: nat, slot: nat)                    // load of the block in it
    | WithBlock(i: nat, n: nat, h: nat, slot: nat, b: nat)         // set_empty of the elements in this block
    | Unlink(i: nat, n: nat, h: nat, slot: nat, b: nat, k: nat)    // store of null in the entry; k is bookkeeping
    | GiveBack(i: nat, n: nat, h: nat, slot: nat, b: nat, k: nat)  // add_block_to_free_list; k is bookkeeping
    | Crashed                                                      // a null block was dereferenced
  {
    predicate Busy() { !Idle? && !Crashed? }

    predicate Releasing() { Unlink? || GiveBack? }

    /** The consumer has claimed element `x` and not yet marked it empty. */
    predicate Holds(x: nat) { Busy() && i <= x < i + n }
  }

  /** The bookkeeping: `num[e]` is the number of the block that entry `e` was last used for, or -1;
      `home[k]` is the block that holds block number k; `done[k]` are the offsets in it that have been
      emptied; `released` and `given` tell which numbers have left the index and gone back to the free
      list; `inUse` are the blocks the producer holds. `count` is elementsCompletelyDequeued. */
  datatype State = State(
    entries: seq<Entry>,
    headers: seq<Header>,
    tailIndex: nat,
    headIndex: nat,
    count: map<nat, nat>,
    producer: Producer,
    threads: seq<Pc>,
    num: seq<int>,
    home: seq<nat>,
    done: seq<set<nat>>,
    released: set<nat>,
    given: set<nat>,
    inUse: set<nat>)

  function Last(s: State): Header
    requires s.headers != []
  {
    s.headers[|s.headers| - 1]
  }

  // ---------------------------------------------------------------- steps of the producer

  /** A header after its entry `e` has been given to a newer block. */
  function Lose(hd: Header, e: nat): Header {
    if hd.depth > 0 && hd.At(hd.bound - hd.depth) == e then hd.(depth := hd.depth - 1) else hd
  }

  function LoseAll(headers: seq<Header>, e: nat): (r: seq<Header>)
    ensures |r| == |headers| && forall h | 0 <= h < |headers| :: r[h] == Lose(headers[h], e)
  {
    seq(|headers|, h requires 0 <= h < |headers| => Lose(headers[h], e))
  }

  /** The old slots from the oldest to the tail, then the fresh entries. */
  function Reindexed(hd: Header, base: nat): (r: seq<nat>)
    requires hd.capacity == |hd.index|
    ensures |r| == 2 * hd.capacity
  {
    seq(hd.capacity, j requires 0 <= j < hd.capacity => hd.index[(hd.tail + 1 + j) % hd.capacity])
    + seq(hd.capacity, j => base + j)
  }

  function Bigger(hd: Header, base: nat): Header
    requires 0 < hd.capacity == |hd.index|
  {
    var c := hd.capacity;
    Header(2 * c, c - 1, Reindexed(hd, base), (c - hd.bound) % (2 * c), hd.bound, c)
  }

  predicate ShapeOk(s: State) {
    && s.headers != []
    && |s.num| == |s.entries|
    && |s.done| == |s.home|
    && (forall h | 0 <= h < |s.headers| ::
          var hd := s.headers[h];
          0 < hd.capacity == |hd.index| && hd.tail < hd.capacity)
    && (forall h, j | 0 <= h < |s.headers| && 0 <= j < |s.headers[h].index| ::
          s.headers[h].index[j] < |s.entries|)
  }

  /** One step of the producer; `b` is the block that the block pool hands out, if it is asked for one. */
  function Produce(s: State, b: nat): State
    requires ShapeOk(s)
  {
    var hd := Last(s);
    var slot := (hd.tail + 1) % hd.capacity;
    var e := hd.index[slot];
    match s.producer
    case Ready => s
    case Loop(n) =>
      if |s.home| * BLOCK_SIZE < s.tailIndex + n then s.(producer := Probe(n))
      else s.(producer := Ready, tailIndex := s.tailIndex + n)
    case Probe(n) =>
      if s.entries[e].key == INVALID_BLOCK_BASE || s.entries[e].value == Null
      then s.(producer := StoreKey(n)) else s.(producer := Grow(n))
    case Grow(n) =>
      s.(producer := StoreKey(n),
         headers := s.headers + [Bigger(hd, |s.entries|)],
         entries := s.entries + seq(hd.capacity, j => Entry(INVALID_BLOCK_BASE, Null)),
         num := s.num + seq(hd.capacity, j => -1))
    case StoreKey(n) =>
      s.(producer := StoreTail(n),
         entries := s.entries[e := s.entries[e].(key := Wrap(|s.home| * BLOCK_SIZE))],
         num := s.num[e := |s.home|],
         headers := LoseAll(s.headers, e))
    case StoreTail(n) =>
      s.(producer := StoreValue(n),
         headers := s.headers[|s.headers| - 1 := hd.(tail := slot, bound := hd.bound + 1, depth := hd.depth + 1)])
    case StoreValue(n) =>
      var e := hd.index[hd.tail];
      s.(producer := Loop(n),
         entries := s.entries[e := s.entries[e].(value := Block(b))],
         count := s.count[b := 0],
         home := s.home + [b],
         done := s.done + [{}],
         inUse := s.inUse + {b})
  }

  // ---------------------------------------------------------------- steps of a consumer

  function Goto(s: State, t: nat, pc: Pc): State
    requires t < |s.threads|
  {
    s.(threads := s.threads[t := pc])
  }

  /** On to the next block of a bulk dequeue, if any. */
  function Advance(i: nat, n: nat, h: nat, slot: nat, capacity: nat): Pc
    requires capacity > 0
  {
    if n == 0 then Idle else AtSlot(i, n, h, (slot + 1) % capacity)
  }

  /** How many of the elements i, ..., i + n - 1 are in the block of i. */
  function InBlock(i: nat, n: nat): nat {
    var room := BLOCK_SIZE - i % BLOCK_SIZE;
    if n < room then n else room
  }

  function Offsets(i: nat, len: nat): (r: set<nat>)
    requires i % BLOCK_SIZE + len <= BLOCK_SIZE
    ensures |r| == len
    ensures forall o: nat :: o in r <==> i % BLOCK_SIZE <= o < i % BLOCK_SIZE + len
  {
    if len == 0 then {} else Offsets(i, len - 1) + {i % BLOCK_SIZE + len - 1}
  }

  /** The locals of a consumer refer to things that exist. */
  predicate PcShapeOk(s: State, pc: Pc) {
    && (pc.Busy() && !pc.Claimed? ==> pc.h < |s.headers|)
    && (pc.WithTail? || pc.WithKey? || pc.AtSlot? || pc.WithBlock? || pc.Unlink? || pc.GiveBack? ==>
          pc.slot < s.headers[pc.h].capacity)
    && (pc.WithBlock? ==> pc.b in s.count && pc.i / BLOCK_SIZE < |s.done|)
    && (pc.WithHeader? ==> s.headers[pc.h].bound > 0)
  }

  function Consume(s: State, t: nat): State
    requires t < |s.threads| && ShapeOk(s) && PcShapeOk(s, s.threads[t])
  {
    match s.threads[t]
    case Idle => s
    case Crashed => s
    case Claimed(i, n) => Goto(s, t, WithHeader(i, n, |s.headers| - 1))
    case WithHeader(i, n, h) => Goto(s, t, WithTail(i, n, h, s.headers[h].tail, s.headers[h].bound - 1))
    case WithTail(i, n, h, slot, m) =>
      Goto(s, t, WithKey(i, n, h, slot, m, s.entries[s.headers[h].index[slot]].key))
    case WithKey(i, n, h, slot, m, key) =>
      Goto(s, t, AtSlot(i, n, h, LookupSlot(Wrap(i), slot, key, s.headers[h].capacity)))
    case AtSlot(i, n, h, slot) =>
      var value := s.entries[s.headers[h].index[slot]].value;
      Goto(s, t, if value.Null? then Crashed else WithBlock(i, n, h, slot, value.id))
    case WithBlock(i, n, h, slot, b) =>
      var len, k := InBlock(i, n), i / BLOCK_SIZE;
      Goto(s, t, if s.count[b] + len == BLOCK_SIZE then Unlink(i + len, n - len, h, slot, b, k)
                 else Advance(i + len, n - len, h, slot, s.headers[h].capacity))
        .(count := s.count[b := s.count[b] + len], done := s.done[k := s.done[k] + Offsets(i, len)])
    case Unlink(i, n, h, slot, b, k) =>
      var e := s.headers[h].index[slot];
      Goto(s, t, GiveBack(i, n, h, slot, b, k))
        .(entries := s.entries[e := s.entries[e].(value := Null)], released := s.released + {k})
    case GiveBack(i, n, h, slot, b, k) =>
      Goto(s, t, Advance(i, n, h, slot, s.headers[h].capacity))
        .(given := s.given + {k}, inUse := s.inUse - {b})
  }

  datatype Event =
    | Enqueue(n: nat)
    | ProducerStep(b: nat)
    | Claim(t: nat, n: nat)      // the fetch_add of headIndex in dequeue or dequeue_bulk
    | ConsumerStep(t: nat)

  /** A claim never passes the tail (DequeueTickets); the pool hands out a block that is not in use
      (FreeList); an index that would not fit the address space is not allocated. */
  predicate Enabled(s: State, e: Event)
    requires ShapeOk(s)
  {
    match e
    case Enqueue(n) => s.producer.Ready?
    case ProducerStep(b) =>
      && !s.producer.Ready?
      && (s.producer.Grow? ==> FitsWord(2 * Last(s).capacity))
      && (s.producer.StoreValue? ==> b !in s.inUse)
    case Claim(t, n) => t < |s.threads| && s.threads[t].Idle? && n > 0 && s.headIndex + n <= s.tailIndex
    case ConsumerStep(t) => t < |s.threads| && s.threads[t].Busy() && PcShapeOk(s, s.threads[t])
  }

  function Next(s: State, e: Event): State
    requires ShapeOk(s) && Enabled(s, e)
  {
    match e
    case Enqueue(n) => s.(producer := Loop(n))
    case ProducerStep(b) => Produce(s, b)
    case Claim(t, n) => Goto(s, t, Claimed(s.headIndex, n)).(headIndex := s.headIndex + n)
    case ConsumerStep(t) => Consume(s, t)
  }

  predicate Init(s: State) {
    && s.headers == [Header(IMPLICIT_INITIAL_INDEX_SIZE, IMPLICIT_INITIAL_INDEX_SIZE - 1,
                            seq(IMPLICIT_INITIAL_INDEX_SIZE, j => j), 0, 0, 0)]
    && s.entries == seq(IMPLICIT_INITIAL_INDEX_SIZE, j => Entry(INVALID_BLOCK_BASE, Null))
    && s.num == seq(IMPLICIT_INITIAL_INDEX_SIZE, j => -1)
    && s.tailIndex == s.headIndex == 0
    && s.home == [] && s.done == [] && s.released == {} && s.given == {} && s.inUse == {}
    && s.producer == Ready
    && (forall t | 0 <= t < |s.threads| :: s.threads[t] == Idle)
  }

  // ---------------------------------------------------------------- the invariant

  /** A header's slots, by block number. */
  predicate HeaderOk(hd: Header, num: seq<int>, released: set<nat>) {
    && FitsWord(hd.capacity)
    && |hd.index| == hd.capacity
    && (forall a, b | 0 <= a < b < hd.capacity :: hd.index[a] != hd.index[b])
    && (forall a | 0 <= a < hd.capacity :: hd.index[a] < |num|)
    && hd.depth <= hd.capacity && hd.depth <= hd.bound
    && hd.tail == hd.Slot(hd.bound - 1)
    && (forall m | hd.bound - hd.depth <= m < hd.bound :: num[hd.At(m)] == m)
    && (forall m | 0 <= m < hd.bound - hd.depth :: m in released)
  }

  /** The slots ahead of the tail of the current header that are not in use, the next one excepted
      while the producer is writing it. */
  predicate FreeSlot(hd: Header, num: seq<int>, producer: Producer, m: int) {
    var e := hd.At(m);
    e < |num| && (num[e] == -1 || (producer.StoreTail? && m == hd.bound && num[e] == m))
  }

  /** The part of the state that lookups read. */
  datatype Index = Index(
    headers: seq<Header>, entries: seq<Entry>, producer: Producer, num: seq<int>, home: seq<nat>, released: set<nat>)
  {
    function Current(): Header
      requires headers != []
    {
      headers[|headers| - 1]
    }

    /** The block numbers that are in entries, the one being inserted included, are below this. */
    function Newest(): nat { |home| + (if producer.StoreTail? || producer.StoreValue? then 1 else 0) }
  }

  function IndexOf(s: State): Index { Index(s.headers, s.entries, s.producer, s.num, s.home, s.released) }

  /** The part of the state that says what became of the blocks. */
  datatype Store = Store(
    home: seq<nat>, done: seq<set<nat>>, released: set<nat>, given: set<nat>, inUse: set<nat>, count: map<nat, nat>)

  function StoreOf(s: State): Store { Store(s.home, s.done, s.released, s.given, s.inUse, s.count) }

  predicate CurrentOk(x: Index)
    requires x.headers != []
  {
    var hd := x.Current();
    && hd.bound == |x.home| + (if x.producer.StoreValue? then 1 else 0)
    && (forall m | hd.bound <= m < hd.bound - hd.depth + hd.capacity :: FreeSlot(hd, x.num, x.producer, m))
    && (x.producer.StoreTail? ==>
          hd.depth < hd.capacity && hd.At(hd.bound) < |x.num| && x.num[hd.At(hd.bound)] == hd.bound)
    && (x.producer.StoreKey? ==>
          hd.At(hd.bound) < |x.entries| && x.entries[hd.At(hd.bound)].value == Null)
    && (x.producer.Grow? ==> hd.depth == hd.capacity)
  }

  predicate EntryOk(x: Index, e: nat)
    requires x.headers != [] && e < |x.entries| == |x.num|
  {
    var k := x.num[e];
    if k < 0 then k == -1 && x.entries[e] == Entry(INVALID_BLOCK_BASE, Null)
    else
      && x.Current().bound - x.Current().depth <= k < x.Newest()
      && x.entries[e].key == Wrap(k * BLOCK_SIZE)
      && x.entries[e].value == if k < |x.home| && k !in x.released then Block(x.home[k]) else Null
  }

  predicate IndexInv(x: Index) {
    && x.headers != [] && |x.num| == |x.entries|
    && (forall h | 0 <= h < |x.headers| :: HeaderOk(x.headers[h], x.num, x.released))
    && (forall h | 0 <= h < |x.headers| :: x.headers[h].bound <= x.Current().bound)
    && CurrentOk(x)
    && (forall e | 0 <= e < |x.num| :: EntryOk(x, e))
    && (forall e, f | 0 <= e < |x.num| && 0 <= f < |x.num| && e != f :: x.num[e] == x.num[f] ==> x.num[e] == -1)
  }

  predicate BlockOk(x: Store, k: nat)
    requires k < |x.home| == |x.done|
  {
    && (forall o | o in x.done[k] :: o < BLOCK_SIZE)
    && (k in x.released ==> |x.done[k]| == BLOCK_SIZE)
    && (k in x.given ==> k in x.released)
    && (k !in x.given ==> x.home[k] in x.inUse && x.home[k] in x.count && x.count[x.home[k]] == |x.done[k]|)
  }

  predicate InUseAsHome(x: Store, b: nat) { exists k :: 0 <= k < |x.home| && k !in x.given && x.home[k] == b }

  predicate StoreInv(x: Store) {
    && |x.done| == |x.home|
    && (forall k | 0 <= k < |x.home| :: BlockOk(x, k))
    && (forall j, k | 0 <= j < k < |x.home| :: j !in x.given && k !in x.given ==> x.home[j] != x.home[k])
    && (forall k | k in x.released :: k < |x.home|)
    && (forall k | k in x.given :: k < |x.home|)
    && (forall b | b in x.inUse :: InUseAsHome(x, b))
  }

  /** The elements a consumer holds have been published and are not emptied. */
  predicate HoldsOk(s: State, pc: Pc)
    requires pc.Busy()
  {
    && pc.i + pc.n <= s.headIndex <= s.tailIndex <= |s.home| * BLOCK_SIZE
    && (!pc.Releasing() ==> pc.n > 0)
    && |s.done| == |s.home|
    && forall x: nat | pc.i <= x < pc.i + pc.n :: x % BLOCK_SIZE !in s.done[x / BLOCK_SIZE]
  }

  predicate ThreadOk(s: State, pc: Pc) {
    && !pc.Crashed?
    && (pc.Busy() ==>
          && HoldsOk(s, pc)
          && (!pc.Claimed? ==>
                && pc.h < |s.headers|
                && (pc.n > 0 ==> (pc.i + pc.n - 1) / BLOCK_SIZE < s.headers[pc.h].bound))
          && (pc.WithTail? || pc.WithKey? ==>
                pc.i / BLOCK_SIZE <= pc.m < s.headers[pc.h].bound && pc.slot == s.headers[pc.h].Slot(pc.m))
          && (pc.WithKey? ==> pc.key == Wrap(pc.m * BLOCK_SIZE))
          && (pc.AtSlot? || pc.WithBlock? ==> pc.slot == s.headers[pc.h].Slot(pc.i / BLOCK_SIZE))
          && (pc.WithBlock? ==> pc.i / BLOCK_SIZE < |s.home| && pc.b == s.home[pc.i / BLOCK_SIZE])
          && (pc.Releasing() ==> ReleasingOk(s, pc)))
  }

  predicate ReleasingOk(s: State, pc: Pc)
    requires pc.Releasing() && pc.h < |s.headers|
  {
    && pc.k < |s.home| == |s.done| && pc.k < s.headers[pc.h].bound
    && pc.b == s.home[pc.k]
    && pc.slot == s.headers[pc.h].Slot(pc.k)
    && |s.done[pc.k]| == BLOCK_SIZE
    && (pc.n > 0 ==> pc.i == (pc.k + 1) * BLOCK_SIZE)
    && (pc.Unlink? <==> pc.k !in s.released)
    && pc.k !in s.given
  }

  /** Two consumers hold different elements and release different blocks. */
  predicate Apart(p: Pc, q: Pc) {
    && (p.Busy() && q.Busy() && p.n > 0 && q.n > 0 ==> p.i + p.n <= q.i || q.i + q.n <= p.i)
    && (p.Releasing() && q.Releasing() ==> p.k != q.k)
  }

  predicate ThreadsInv(s: State) {
    && (forall t | 0 <= t < |s.threads| :: ThreadOk(s, s.threads[t]))
    && (forall t, u | 0 <= t < |s.threads| && 0 <= u < |s.threads| && t != u :: Apart(s.threads[t], s.threads[u]))
  }

  /** The state of every claimed element, and of every block that has been emptied. */
  datatype Track = Track(done: seq<set<nat>>, given: set<nat>, headIndex: nat, threads: seq<Pc>)

  function TrackOf(s: State): Track { Track(s.done, s.given, s.headIndex, s.threads) }

  predicate IsHeld(threads: seq<Pc>, x: nat) { exists t :: 0 <= t < |threads| && threads[t].Holds(x) }

  predicate IsReleasing(threads: seq<Pc>, k: nat) {
    exists t :: 0 <= t < |threads| && threads[t].Releasing() && threads[t].k == k
  }

  predicate ElementOk(x: Track, k: nat, o: nat)
    requires k < |x.done|
  {
    k * BLOCK_SIZE + o < x.headIndex ==> o in x.done[k] || IsHeld(x.threads, k * BLOCK_SIZE + o)
  }

  /** An element of a block is emptied only after it was claimed, and until then its claimer holds it. */
  predicate Accounted(x: Track, k: nat)
    requires k < |x.done|
  {
    && (forall o | o in x.done[k] :: k * BLOCK_SIZE + o < x.headIndex)
    && (forall o: nat | o < BLOCK_SIZE :: ElementOk(x, k, o))
    && (|x.done[k]| == BLOCK_SIZE ==> k in x.given || IsReleasing(x.threads, k))
  }

  predicate TrackInv(x: Track) { forall k | 0 <= k < |x.done| :: Accounted(x, k) }

  predicate Inv(s: State) {
    && TrackInv(TrackOf(s))
    && s.headIndex <= s.tailIndex <= |s.home| * BLOCK_SIZE
    && IndexInv(IndexOf(s))
    && StoreInv(StoreOf(s))
    && ThreadsInv(s)
  }

  // ---------------------------------------------------------------- a live block keeps its entry

  function Below(size: nat): (r: set<nat>)
    ensures |r| == size && forall n: nat :: n in r <==> n < size
  {
    if size == 0 then {} else Below(size - 1) + {size - 1}
  }

  lemma {:induction false} SubsetCount(a: set<nat>, b: set<nat>)
    requires a <= b
    ensures |a| <= |b| && (|a| == |b| ==> a == b)
  {
    if a != {} {
      var x :| x in a;
      SubsetCount(a - {x}, b - {x});
    }
  }

  /** A block of which some consumer holds an element is not completely emptied. */
  lemma HeldBlockIsLive(s: State, pc: Pc, x: nat)
    requires Inv(s) && ThreadOk(s, pc) && pc.Holds(x)
    ensures x / BLOCK_SIZE < |s.home|
    ensures |s.done[x / BLOCK_SIZE]| < BLOCK_SIZE
    ensures x / BLOCK_SIZE !in s.released && x / BLOCK_SIZE !in s.given
  {
    var k := x / BLOCK_SIZE;
    assert x % BLOCK_SIZE !in s.done[k];
    assert BlockOk(StoreOf(s), k);
    hide Inv, ThreadOk;
    SubsetCount(s.done[k], Below(BLOCK_SIZE));
    assert x % BLOCK_SIZE in Below(BLOCK_SIZE);
  }

  /** The heart of the matter: in every header, current or old, that was current while block k was
      inserted, the entries of block k and of all later blocks of that header still have their keys, as
      long as block k is not released. Entries are reused in the order of their blocks. */
  lemma LiveBlockHasEntry(s: State, h: nat, k: nat, m: nat)
    requires Inv(s) && h < |s.headers| && k !in s.released && k <= m < s.headers[h].bound
    ensures var hd := s.headers[h];
            && hd.Slot(m) < hd.capacity == |hd.index|
            && hd.At(m) < |s.entries| == |s.num|
            && s.num[hd.At(m)] == m
            && s.entries[hd.At(m)].key == Wrap(m * BLOCK_SIZE)
            && (m == k && k < |s.home| ==> s.entries[hd.At(k)].value == Block(s.home[k]))
  {
    var hd := s.headers[h];
    assert HeaderOk(hd, s.num, s.released);
    assert hd.bound - hd.depth <= k;
    assert s.num[hd.At(m)] == m;
    assert EntryOk(IndexOf(s), hd.At(m));
  }

  // ---------------------------------------------------------------- steps of a consumer

  // What is held, and what is being released, after one consumer has moved.

  lemma HeldAfter(threads: seq<Pc>, t: nat, pc: Pc, x: nat)
    requires t < |threads| && IsHeld(threads, x) && (threads[t].Holds(x) ==> pc.Holds(x))
    ensures IsHeld(threads[t := pc], x)
  {
    var u :| 0 <= u < |threads| && threads[u].Holds(x);
    assert threads[t := pc][u].Holds(x);
  }

  lemma ReleasingAfter(threads: seq<Pc>, t: nat, pc: Pc, k: nat)
    requires t < |threads| && IsReleasing(threads, k)
    requires threads[t].Releasing() && threads[t].k == k ==> pc.Releasing() && pc.k == k
    ensures IsReleasing(threads[t := pc], k)
  {
    var u :| 0 <= u < |threads| && threads[u].Releasing() && threads[u].k == k;
    assert threads[t := pc][u].Releasing() && threads[t := pc][u].k == k;
  }

  /** A consumer goes on with what it had. */
  predicate Narrows(p: Pc, q: Pc) {
    && (p.Busy() ==> q.Busy() && q.i == p.i && q.n == p.n)
    && (q.Busy() ==> p.Busy())
    && (p.Releasing() <==> q.Releasing())
    && (p.Releasing() ==> p.k == q.k)
  }

  lemma TrackMoves(x: Track, t: nat, pc: Pc)
    requires TrackInv(x) && t < |x.threads| && Narrows(x.threads[t], pc)
    ensures TrackInv(x.(threads := x.threads[t := pc]))
  {
    var y := x.(threads := x.threads[t := pc]);
    forall k | 0 <= k < |y.done| ensures Accounted(y, k) {
      assert Accounted(x, k);
      forall o: nat | o < BLOCK_SIZE ensures ElementOk(y, k, o) {
        assert ElementOk(x, k, o);
        if IsHeld(x.threads, k * BLOCK_SIZE + o) { HeldAfter(x.threads, t, pc, k * BLOCK_SIZE + o); }
      }
      if IsReleasing(x.threads, k) { ReleasingAfter(x.threads, t, pc, k); }
    }
  }

  lemma ThreadMoves(s: State, t: nat, pc: Pc)
    requires Inv(s) && t < |s.threads| && ThreadOk(s, pc) && Narrows(s.threads[t], pc)
    ensures Inv(Goto(s, t, pc))
  {
    hide IndexInv, StoreInv, TrackInv;
    TrackMoves(TrackOf(s), t, pc);
    var s' := Goto(s, t, pc);
    forall u | 0 <= u < |s'.threads| ensures ThreadOk(s', s'.threads[u]) {
      assert ThreadOk(s, if u == t then pc else s.threads[u]);
    }
    hide ThreadOk;
  }

  /** The loads of a lookup. */
  lemma LookupSteps(s: State, t: nat)
    requires Inv(s) && ShapeOk(s) && t < |s.threads| && PcShapeOk(s, s.threads[t])
    requires var pc := s.threads[t]; pc.Claimed? || pc.WithHeader? || pc.WithTail? || pc.WithKey? || pc.AtSlot?
    ensures Inv(Consume(s, t))
  {
    var pc := s.threads[t];
    assert ThreadOk(s, pc);
    assert pc.Holds(pc.i);
    HeldBlockIsLive(s, pc, pc.i);
    var pc' := Consume(s, t).threads[t];
    assert ThreadOk(s, pc') by { LookupStepOk(s, t); }
    ThreadMoves(s, t, pc');
  }

  /** The block of the first element a consumer holds is live. */
  lemma FirstBlockIsLive(s: State, t: nat)
    requires Inv(s) && t < |s.threads|
    requires var pc := s.threads[t]; pc.Claimed? || pc.WithHeader? || pc.WithTail? || pc.WithKey? || pc.AtSlot?
    ensures ThreadOk(s, s.threads[t]) && s.threads[t].Holds(s.threads[t].i)
    ensures s.threads[t].i / BLOCK_SIZE < |s.home| && s.threads[t].i / BLOCK_SIZE !in s.released
  {
    hide IndexInv, TrackInv;
    var pc := s.threads[t];
    assert ThreadOk(s, pc);
    HeldBlockIsLive(s, pc, pc.i);
  }

  lemma LookupStepOk(s: State, t: nat)
    requires Inv(s) && ShapeOk(s) && t < |s.threads| && PcShapeOk(s, s.threads[t])
    requires var pc := s.threads[t]; pc.Claimed? || pc.WithHeader? || pc.WithTail? || pc.WithKey? || pc.AtSlot?
    ensures ThreadOk(s, Consume(s, t).threads[t])
  {
    var pc := s.threads[t];
    FirstBlockIsLive(s, t);
    hide StoreInv, ThreadsInv, TrackInv;
    if pc.WithTail? {
      LiveBlockHasEntry(s, pc.h, pc.i / BLOCK_SIZE, pc.m);
      hide IndexInv;
    } else if pc.AtSlot? {
      LiveBlockHasEntry(s, pc.h, pc.i / BLOCK_SIZE, pc.i / BLOCK_SIZE);
      hide IndexInv;
    } else if pc.WithKey? {
      KeyStepOk(s, t);
    } else if pc.WithHeader? {
      assert HeaderOk(s.headers[pc.h], s.num, s.released);
      hide IndexInv;
    } else {
      CurrentCovers(s);
      hide IndexInv;
    }
  }

  lemma KeyStepOk(s: State, t: nat)
    requires Inv(s) && ShapeOk(s) && t < |s.threads| && PcShapeOk(s, s.threads[t]) && s.threads[t].WithKey?
    requires ThreadOk(s, s.threads[t]) && s.threads[t].Holds(s.threads[t].i)
    requires s.threads[t].i / BLOCK_SIZE < |s.home| && s.threads[t].i / BLOCK_SIZE !in s.released
    ensures ThreadOk(s, Consume(s, t).threads[t])
  {
    hide StoreInv, ThreadsInv, TrackInv;
    var pc := s.threads[t];
    assert HeaderOk(s.headers[pc.h], s.num, s.released);
    hide IndexInv;
    LookupFindsSlot(pc.i, pc.m, s.headers[pc.h].shift, s.headers[pc.h].capacity);
    hide LookupSlot;
  }

  /** The current header has seen every published element. */
  lemma CurrentCovers(s: State)
    requires Inv(s)
    ensures s.headers != [] && s.tailIndex <= Last(s).bound * BLOCK_SIZE
  {
    hide HeaderOk, EntryOk;
  }

  // Marking elements empty.

  /** What a consumer at `WithBlock` knows. */
  lemma EmptyKnows(s: State, pc: Pc)
    requires Inv(s) && ThreadOk(s, pc) && pc.WithBlock?
    ensures var k, len := pc.i / BLOCK_SIZE, InBlock(pc.i, pc.n);
            && k < |s.home| && pc.b == s.home[k] && pc.b in s.count && s.count[pc.b] == |s.done[k]|
            && k !in s.released && k !in s.given
            && 0 < len <= pc.n && pc.i % BLOCK_SIZE + len <= BLOCK_SIZE
            && s.done[k] !! Offsets(pc.i, len)
            && |s.done[k] + Offsets(pc.i, len)| == |s.done[k]| + len <= BLOCK_SIZE
            && (forall o | o in s.done[k] + Offsets(pc.i, len) :: o < BLOCK_SIZE)
  {
    var k, len := pc.i / BLOCK_SIZE, InBlock(pc.i, pc.n);
    assert pc.Holds(pc.i);
    HeldBlockIsLive(s, pc, pc.i);
    assert BlockOk(StoreOf(s), k);
    assert HoldsOk(s, pc);
    hide Inv, ThreadOk;
    forall o: nat | o in Offsets(pc.i, len) ensures o !in s.done[k] {
      var x := k * BLOCK_SIZE + o;
      assert pc.i <= x < pc.i + pc.n && x / BLOCK_SIZE == k && x % BLOCK_SIZE == o;
    }
    SubsetCount(s.done[k] + Offsets(pc.i, len), Below(BLOCK_SIZE));
  }

  lemma EmptyKeepsThread(s: State, s': State, pc: Pc, q: Pc)
    requires Inv(s) && ThreadOk(s, pc) && pc.WithBlock? && ThreadOk(s, q) && Apart(pc, q)
    requires pc.i / BLOCK_SIZE < |s.done|
    requires s' == s.(threads := s'.threads, count := s'.count,
                      done := s.done[pc.i / BLOCK_SIZE :=
                                       s.done[pc.i / BLOCK_SIZE] + Offsets(pc.i, InBlock(pc.i, pc.n))])
    ensures ThreadOk(s', q)
  {
    EmptyKnows(s, pc);
    if q.Busy() {
      forall x: nat | q.i <= x < q.i + q.n ensures x % BLOCK_SIZE !in s'.done[x / BLOCK_SIZE] {
      }
      hide Inv;
    }
  }

  lemma EmptyKeepsBlock(s: State, t: nat, j: nat)
    requires Inv(s) && ShapeOk(s) && t < |s.threads| && PcShapeOk(s, s.threads[t]) && s.threads[t].WithBlock?
    requires j < |s.home|
    ensures BlockOk(StoreOf(Consume(s, t)), j)
  {
    var pc := s.threads[t];
    assert ThreadOk(s, pc);
    EmptyKnows(s, pc);
    assert BlockOk(StoreOf(s), j);
    var k := pc.i / BLOCK_SIZE;
    hide Inv, ThreadOk;
  }

  lemma EmptyOwnThread(s: State, t: nat)
    requires Inv(s) && ShapeOk(s) && t < |s.threads| && PcShapeOk(s, s.threads[t]) && s.threads[t].WithBlock?
    ensures ThreadOk(Consume(s, t), Consume(s, t).threads[t])
  {
    var pc, s' := s.threads[t], Consume(s, t);
    assert ThreadOk(s, pc);
    EmptyKnows(s, pc);
    assert HeaderOk(s.headers[pc.h], s.num, s.released);
    hide Inv, HeaderOk;
    NextSlot(s.headers[pc.h], pc.i / BLOCK_SIZE);
    EmptyHolds(s, pc, s');
  }

  lemma EmptyHolds(s: State, pc: Pc, s': State)
    requires pc.WithBlock? && HoldsOk(s, pc) && pc.i / BLOCK_SIZE < |s.done|
    requires s'.headIndex == s.headIndex && s'.tailIndex == s.tailIndex && s'.home == s.home
    requires s'.done == s.done[pc.i / BLOCK_SIZE :=
                                 s.done[pc.i / BLOCK_SIZE] + Offsets(pc.i, InBlock(pc.i, pc.n))]
    ensures var len := InBlock(pc.i, pc.n);
            && len <= pc.n
            && (pc.n > len ==> pc.i + len == (pc.i / BLOCK_SIZE + 1) * BLOCK_SIZE)
            && forall x: nat | pc.i + len <= x < pc.i + pc.n :: x % BLOCK_SIZE !in s'.done[x / BLOCK_SIZE]
  {
  }

  lemma NextSlot(hd: Header, k: nat)
    requires hd.capacity > 0
    ensures (hd.Slot(k) + 1) % hd.capacity == hd.Slot(k + 1)
  {
    SlotMoves(k + 1, k, hd.shift, hd.capacity);
  }

  /** The next program counter of a consumer at `WithBlock`. */
  lemma EmptyNext(s: State, t: nat)
    requires Inv(s) && ShapeOk(s) && t < |s.threads| && PcShapeOk(s, s.threads[t]) && s.threads[t].WithBlock?
    ensures var pc, s' := s.threads[t], Consume(s, t);
            var k, len, pc' := pc.i / BLOCK_SIZE, InBlock(pc.i, pc.n), s'.threads[t];
            && k < |s.done| && pc.i % BLOCK_SIZE + len <= BLOCK_SIZE && len <= pc.n
            && s'.threads == s.threads[t := pc'] && s'.headIndex == s.headIndex && s'.given == s.given
            && s'.done == s.done[k := s.done[k] + Offsets(pc.i, len)]
            && pc.i + pc.n <= s.headIndex
            && (forall x | pc.i + len <= x < pc.i + pc.n :: pc'.Holds(x) && x / BLOCK_SIZE > k)
            && (|s'.done[k]| == BLOCK_SIZE ==> pc'.Unlink? && pc'.k == k)
  {
    assert ThreadOk(s, s.threads[t]);
    EmptyKnows(s, s.threads[t]);
    hide Inv;
  }

  lemma EmptyTrack(s: State, t: nat, j: nat)
    requires Inv(s) && ShapeOk(s) && t < |s.threads| && PcShapeOk(s, s.threads[t]) && s.threads[t].WithBlock?
    requires j < |s.done|
    ensures Accounted(TrackOf(Consume(s, t)), j)
  {
    var pc, s' := s.threads[t], Consume(s, t);
    var pc', y := s'.threads[t], TrackOf(s');
    EmptyNext(s, t);
    assert Accounted(TrackOf(s), j);
    var k, len := pc.i / BLOCK_SIZE, InBlock(pc.i, pc.n);
    hide Inv, ThreadOk, Consume, InBlock;
    forall o: nat | o < BLOCK_SIZE ensures ElementOk(y, j, o) {
      assert ElementOk(TrackOf(s), j, o);
      var x := j * BLOCK_SIZE + o;
      if x < s.headIndex && o !in s'.done[j] {
        assert x / BLOCK_SIZE == j && x % BLOCK_SIZE == o;
        HeldAfter(s.threads, t, pc', x);
      }
    }
    if |s'.done[j]| == BLOCK_SIZE && j !in s'.given {
      if j == k {
        assert s'.threads[t].Releasing() && s'.threads[t].k == j;
      } else {
        ReleasingAfter(s.threads, t, pc', j);
      }
    }
  }

  lemma EmptyStep(s: State, t: nat)
    requires Inv(s) && ShapeOk(s) && t < |s.threads| && PcShapeOk(s, s.threads[t]) && s.threads[t].WithBlock?
    ensures Inv(Consume(s, t))
  {
    var pc, s' := s.threads[t], Consume(s, t);
    assert ThreadOk(s, pc);
    EmptyKnows(s, pc);
    EmptyThreads(s, t);
    assert IndexOf(s') == IndexOf(s);
    assert s'.headIndex == s.headIndex && s'.tailIndex == s.tailIndex && s'.home == s.home;
    assert StoreInv(StoreOf(s')) by { EmptyStore(s, t); }
    assert TrackInv(TrackOf(s')) by {
      forall j | 0 <= j < |s'.done| ensures Accounted(TrackOf(s'), j) { EmptyTrack(s, t, j); }
    }
    hide IndexInv, StoreInv, ThreadsInv, TrackInv, Consume;
  }

  lemma EmptyStore(s: State, t: nat)
    requires Inv(s) && ShapeOk(s) && t < |s.threads| && PcShapeOk(s, s.threads[t]) && s.threads[t].WithBlock?
    ensures StoreInv(StoreOf(Consume(s, t)))
  {
    var pc, s' := s.threads[t], Consume(s, t);
    assert ThreadOk(s, pc);
    EmptyKnows(s, pc);
    forall j | 0 <= j < |s.home| ensures BlockOk(StoreOf(s'), j) { EmptyKeepsBlock(s, t, j); }
    forall b | b in s'.inUse ensures InUseAsHome(StoreOf(s'), b) { assert InUseAsHome(StoreOf(s), b); }
    hide BlockOk, ThreadOk, IndexInv, TrackInv;
  }

  lemma EmptyEachThread(s: State, t: nat, u: nat)
    requires Inv(s) && ShapeOk(s) && t < |s.threads| && PcShapeOk(s, s.threads[t]) && s.threads[t].WithBlock?
    requires u < |s.threads| == |Consume(s, t).threads|
    ensures ThreadOk(Consume(s, t), Consume(s, t).threads[u])
  {
    hide IndexInv, StoreInv, TrackInv;
    var pc, s' := s.threads[t], Consume(s, t);
    assert ThreadOk(s, pc);
    EmptyKnows(s, pc);
    hide ThreadOk;
    if u == t {
      EmptyOwnThread(s, t);
    } else {
      assert ThreadOk(s, s.threads[u]);
      assert Apart(pc, s.threads[u]);
      EmptyKeepsThread(s, s', pc, s.threads[u]);
    }
  }

  lemma EmptyStaysApart(s: State, t: nat, u: nat)
    requires Inv(s) && ShapeOk(s) && t < |s.threads| && PcShapeOk(s, s.threads[t]) && s.threads[t].WithBlock?
    requires u < |s.threads| == |Consume(s, t).threads| && u != t
    ensures Apart(Consume(s, t).threads[t], Consume(s, t).threads[u])
  {
    hide IndexInv, StoreInv, TrackInv;
    assert ThreadOk(s, s.threads[t]) && ThreadOk(s, s.threads[u]);
    EmptyKnows(s, s.threads[t]);
    assert Apart(s.threads[t], s.threads[u]);
  }

  lemma EmptyThreads(s: State, t: nat)
    requires Inv(s) && ShapeOk(s) && t < |s.threads| && PcShapeOk(s, s.threads[t]) && s.threads[t].WithBlock?
    ensures ThreadsInv(Consume(s, t))
  {
    var s' := Consume(s, t);
    assert |s'.threads| == |s.threads| && forall u | 0 <= u < |s.threads| && u != t :: s'.threads[u] == s.threads[u];
    hide IndexInv, StoreInv, TrackInv, ThreadOk, Consume;
    forall u | 0 <= u < |s'.threads| ensures ThreadOk(s', s'.threads[u]) { EmptyEachThread(s, t, u); }
    forall u | 0 <= u < |s'.threads| && u != t ensures Apart(s'.threads[t], s'.threads[u]) { EmptyStaysApart(s, t, u); }
    forall u, v | 0 <= u < |s'.threads| && 0 <= v < |s'.threads| && u != v
      ensures Apart(s'.threads[u], s'.threads[v])
    {
      if u != t && v != t { assert Apart(s.threads[u], s.threads[v]); }
    }
  }

  // Releasing a block.

  /** A consumer at `Unlink` finds the entry of its block. */
  lemma UnlinkKnows(s: State, pc: Pc)
    requires Inv(s) && ThreadOk(s, pc) && pc.Unlink?
    ensures var hd := s.headers[pc.h];
            && hd.At(pc.k) < |s.entries| == |s.num| && s.num[hd.At(pc.k)] == pc.k
            && pc.slot < |hd.index| && hd.index[pc.slot] == hd.At(pc.k)
            && BlockOk(StoreOf(s), pc.k)
  {
    LiveBlockHasEntry(s, pc.h, pc.k, pc.k);
    assert BlockOk(StoreOf(s), pc.k);
  }

  lemma UnlinkKeepsIndex(x: Index, y: Index, e: nat, k: nat)
    requires IndexInv(x) && e < |x.entries| && x.num[e] == k
    requires y == x.(entries := x.entries[e := x.entries[e].(value := Null)], released := x.released + {k})
    ensures IndexInv(y)
  {
    forall h | 0 <= h < |y.headers| ensures HeaderOk(y.headers[h], y.num, y.released) {
      assert HeaderOk(x.headers[h], x.num, x.released);
    }
    forall f | 0 <= f < |y.num| ensures EntryOk(y, f) {
      assert EntryOk(x, f);
    }
    hide HeaderOk, EntryOk;
  }

  lemma UnlinkStore(x: Store, y: Store, k: nat)
    requires StoreInv(x) && k < |x.home| && |x.done[k]| == BLOCK_SIZE && y == x.(released := x.released + {k})
    ensures StoreInv(y)
  {
    forall j | 0 <= j < |y.home| ensures BlockOk(y, j) { assert BlockOk(x, j); }
    forall b | b in y.inUse ensures InUseAsHome(y, b) { assert InUseAsHome(x, b); }
  }

  lemma UnlinkStep(s: State, t: nat)
    requires Inv(s) && ShapeOk(s) && t < |s.threads| && PcShapeOk(s, s.threads[t]) && s.threads[t].Unlink?
    ensures Inv(Consume(s, t))
  {
    var pc, s' := s.threads[t], Consume(s, t);
    assert ThreadOk(s, pc);
    UnlinkKnows(s, pc);
    UnlinkKeepsIndex(IndexOf(s), IndexOf(s'), s.headers[pc.h].At(pc.k), pc.k);
    UnlinkStore(StoreOf(s), StoreOf(s'), pc.k);
    TrackMoves(TrackOf(s), t, s'.threads[t]);
    assert ThreadsInv(s') by { ReleaseThreads(s, t); }
    hide IndexInv, StoreInv, ThreadsInv, TrackInv;
  }

  lemma ReleaseOwnThread(s: State, t: nat)
    requires Inv(s) && ShapeOk(s) && t < |s.threads| && PcShapeOk(s, s.threads[t]) && s.threads[t].Releasing()
    ensures ThreadOk(Consume(s, t), Consume(s, t).threads[t])
  {
    hide Inv, HeaderOk;
    ThreadIsOk(s, t);
    if s.threads[t].GiveBack? { NextSlot(s.headers[s.threads[t].h], s.threads[t].k); }
  }

  lemma ThreadIsOk(s: State, t: nat)
    requires Inv(s) && t < |s.threads|
    ensures ThreadOk(s, s.threads[t])
  {
    hide IndexInv, StoreInv, TrackInv;
  }

  lemma ReleaseThreads(s: State, t: nat)
    requires Inv(s) && ShapeOk(s) && t < |s.threads| && PcShapeOk(s, s.threads[t]) && s.threads[t].Releasing()
    ensures ThreadsInv(Consume(s, t))
  {
    var pc, s' := s.threads[t], Consume(s, t);
    hide IndexInv, StoreInv;
    ReleaseOwnThread(s, t);
    forall u | 0 <= u < |s'.threads| && u != t ensures ThreadOk(s', s'.threads[u]) {
      assert ThreadOk(s, s.threads[u]);
      assert Apart(pc, s.threads[u]);
    }
    hide ThreadOk;
    forall u, v | 0 <= u < |s'.threads| && 0 <= v < |s'.threads| && u != v
      ensures Apart(s'.threads[u], s'.threads[v])
    {
      assert Apart(s.threads[u], s.threads[v]);
    }
  }

  lemma GiveBackTrack(s: State, t: nat, j: nat)
    requires Inv(s) && ShapeOk(s) && t < |s.threads| && PcShapeOk(s, s.threads[t]) && s.threads[t].GiveBack?
    requires j < |s.done|
    ensures Accounted(TrackOf(Consume(s, t)), j)
  {
    var pc, s' := s.threads[t], Consume(s, t);
    var pc' := s'.threads[t];
    assert s'.threads == s.threads[t := pc'];
    assert Accounted(TrackOf(s), j);
    assert forall x: nat | pc.Holds(x) :: pc'.Holds(x);
    assert s'.done == s.done && s'.headIndex == s.headIndex && s'.given == s.given + {pc.k};
    hide Inv, Consume;
    forall o: nat | o < BLOCK_SIZE ensures ElementOk(TrackOf(s'), j, o) {
      assert ElementOk(TrackOf(s), j, o);
      if IsHeld(s.threads, j * BLOCK_SIZE + o) { HeldAfter(s.threads, t, pc', j * BLOCK_SIZE + o); }
    }
    if j != pc.k && IsReleasing(s.threads, j) { ReleasingAfter(s.threads, t, pc', j); }
  }

  lemma GiveBackStore(x: Store, y: Store, k: nat)
    requires StoreInv(x) && k < |x.home| && k in x.released && k !in x.given
    requires y == x.(given := x.given + {k}, inUse := x.inUse - {x.home[k]})
    ensures StoreInv(y)
  {
    assert BlockOk(x, k);
    forall j | 0 <= j < |y.home| ensures BlockOk(y, j) { assert BlockOk(x, j); }
    forall b | b in y.inUse ensures InUseAsHome(y, b) {
      assert InUseAsHome(x, b);
      var j :| 0 <= j < |x.home| && j !in x.given && x.home[j] == b;
      assert j !in y.given;
    }
  }

  lemma GiveBackStep(s: State, t: nat)
    requires Inv(s) && ShapeOk(s) && t < |s.threads| && PcShapeOk(s, s.threads[t]) && s.threads[t].GiveBack?
    ensures Inv(Consume(s, t))
  {
    var pc, s' := s.threads[t], Consume(s, t);
    assert ThreadOk(s, pc);
    GiveBackStore(StoreOf(s), StoreOf(s'), pc.k);
    assert TrackInv(TrackOf(s')) by {
      forall j | 0 <= j < |s'.done| ensures Accounted(TrackOf(s'), j) { GiveBackTrack(s, t, j); }
    }
    assert IndexOf(s') == IndexOf(s);
    assert ThreadsInv(s') by { ReleaseThreads(s, t); }
    hide IndexInv, StoreInv, ThreadsInv, TrackInv;
  }

  lemma ConsumeKeepsInv(s: State, t: nat)
    requires Inv(s) && ShapeOk(s) && t < |s.threads| && PcShapeOk(s, s.threads[t]) && s.threads[t].Busy()
    ensures Inv(Consume(s, t))
  {
    hide Inv, ShapeOk, PcShapeOk, Consume;
    var pc := s.threads[t];
    if pc.WithBlock? { EmptyStep(s, t); }
    else if pc.Unlink? { UnlinkStep(s, t); }
    else if pc.GiveBack? { GiveBackStep(s, t); }
    else { LookupSteps(s, t); }
  }

  // ---------------------------------------------------------------- steps of the producer

  /** Nothing that a consumer relies on is taken away from it. */
  predicate Extends(s: State, s': State) {
    && |s.headers| <= |s'.headers|
    && (forall h | 0 <= h < |s.headers| ::
          && s'.headers[h].capacity == s.headers[h].capacity
          && s'.headers[h].shift == s.headers[h].shift
          && s.headers[h].bound <= s'.headers[h].bound)
    && s.tailIndex <= s'.tailIndex <= |s'.home| * BLOCK_SIZE && s'.headIndex == s.headIndex
    && |s'.done| == |s'.home| && |s.done| == |s.home|
    && s.home <= s'.home && s.done <= s'.done
    && s'.released == s.released && s'.given == s.given
    && s'.threads == s.threads
  }

  lemma HoldsSurvive(s: State, s': State, pc: Pc)
    requires Extends(s, s') && pc.Busy() && HoldsOk(s, pc)
    ensures HoldsOk(s', pc)
  {
    hide Pc.Releasing;
    forall x: nat | pc.i <= x < pc.i + pc.n
      ensures x / BLOCK_SIZE < |s.done| && s'.done[x / BLOCK_SIZE] == s.done[x / BLOCK_SIZE]
    {
    }
  }

  lemma ThreadSurvives(s: State, s': State, pc: Pc)
    requires Extends(s, s') && ThreadOk(s, pc)
    ensures ThreadOk(s', pc)
  {
    hide HoldsOk;
    if pc.Busy() { HoldsSurvive(s, s', pc); }
  }

  lemma ThreadsSurvive(s: State, s': State)
    requires Extends(s, s') && ThreadsInv(s)
    ensures ThreadsInv(s')
  {
    assert s'.threads == s.threads;
    hide ThreadOk, Extends;
    forall t | 0 <= t < |s'.threads| ensures ThreadOk(s', s'.threads[t]) {
      assert ThreadOk(s, s.threads[t]);
      ThreadSurvives(s, s', s.threads[t]);
    }
  }

  /** The slot after the tail is that of the next block; a key found invalid there means a fresh entry. */
  lemma NextEntry(x: Index)
    requires IndexInv(x)
    ensures var hd := x.Current();
            && 0 < hd.capacity == |hd.index| && hd.tail < hd.capacity
            && hd.index[(hd.tail + 1) % hd.capacity] == hd.At(hd.bound)
            && hd.At(hd.bound) < |x.entries|
            && (x.entries[hd.At(hd.bound)].key == INVALID_BLOCK_BASE ==> x.entries[hd.At(hd.bound)].value == Null)
            && (x.producer.Probe? && x.entries[hd.At(hd.bound)].value != Null ==> hd.depth == hd.capacity)
  {
    var hd := x.Current();
    assert HeaderOk(hd, x.num, x.released);
    SlotMoves(hd.bound, hd.bound - 1, hd.shift, hd.capacity);
    var e := hd.At(hd.bound);
    assert EntryOk(x, e);
    if x.num[e] >= 0 { KeyIsNotInvalid(x.num[e]); }
    if hd.depth < hd.capacity { assert FreeSlot(hd, x.num, x.producer, hd.bound); }
  }

  lemma KeyIsNotInvalid(k: nat)
    ensures Wrap(k * BLOCK_SIZE) != INVALID_BLOCK_BASE
  {
    ModOfWrap(k * BLOCK_SIZE, BLOCK_SIZE, W / BLOCK_SIZE);
    ModMultiple(0, k, BLOCK_SIZE);
  }

  /** The producer goes on without writing to the index. */
  lemma ProducerMoves(x: Index, y: Index)
    requires IndexInv(x) && y == x.(producer := y.producer)
    requires !x.producer.StoreTail? && !x.producer.StoreValue? && !y.producer.StoreTail? && !y.producer.StoreValue?
    requires y.producer.StoreKey? ==>
               var e := x.Current().At(x.Current().bound);
               e < |x.entries| && x.entries[e].value == Null
    requires y.producer.Grow? ==> x.Current().depth == x.Current().capacity
    ensures IndexInv(y)
  {
    forall e | 0 <= e < |y.num| ensures EntryOk(y, e) { assert EntryOk(x, e); }
    hide EntryOk, HeaderOk;
    var hd := y.Current();
    forall m | hd.bound <= m < hd.bound - hd.depth + hd.capacity ensures FreeSlot(hd, y.num, y.producer, m) {
      assert FreeSlot(hd, x.num, x.producer, m);
    }
  }

  lemma LoopStep(s: State, b: nat)
    requires Inv(s) && ShapeOk(s) && (s.producer.Loop? || s.producer.Probe?)
    ensures Inv(Produce(s, b))
  {
    var s' := Produce(s, b);
    assert Extends(s, s');
    ThreadsSurvive(s, s');
    NextEntry(IndexOf(s));
    hide IndexInv, StoreInv, ThreadsInv;
    ProducerMoves(IndexOf(s), IndexOf(s'));
    assert StoreOf(s') == StoreOf(s);
  }

  // Writing the key of the next block.

  /** No header still has the entry of a block older than those of the current header. */
  lemma OldestOf(x: Index, h: nat, m: nat)
    requires IndexInv(x) && h < |x.headers|
    requires x.headers[h].bound - x.headers[h].depth <= m < x.headers[h].bound
    ensures x.Current().bound - x.Current().depth <= m
    ensures x.headers[h].At(m) < |x.num| && x.num[x.headers[h].At(m)] == m
  {
    assert HeaderOk(x.headers[h], x.num, x.released);
    assert x.num[x.headers[h].At(m)] == m;
    assert EntryOk(x, x.headers[h].At(m));
  }

  /** If the slot of the next block still holds block m, then m is the oldest block of any header that
      has it. */
  lemma LostIsOldest(x: Index, h: nat, m: nat)
    requires IndexInv(x) && h < |x.headers| && !x.producer.StoreTail?
    requires x.headers[h].bound - x.headers[h].depth <= m < x.headers[h].bound
    requires x.headers[h].At(m) == x.Current().At(x.Current().bound)
    ensures m == x.headers[h].bound - x.headers[h].depth
  {
    var hd, cur := x.headers[h], x.Current();
    OldestOf(x, h, m);
    OldestOf(x, h, hd.bound - hd.depth);
    assert HeaderOk(cur, x.num, x.released);
    assert cur.depth < cur.capacity ==> FreeSlot(cur, x.num, x.producer, cur.bound);
    assert cur.depth == cur.capacity;
    ModMultiple(cur.bound + cur.shift, -1, cur.capacity);
    assert cur.At(cur.bound - cur.capacity) == cur.At(cur.bound);
    assert x.num[cur.At(cur.bound - cur.capacity)] == cur.bound - cur.capacity;
  }

  /** Taking the entry of the next block costs each header at most its oldest block, a released one. */
  lemma LoseKeepsHeader(x: Index, h: nat)
    requires IndexInv(x) && h < |x.headers| && !x.producer.StoreTail?
    requires var e := x.Current().At(x.Current().bound);
             e < |x.num| && (x.num[e] >= 0 ==> x.num[e] in x.released)
    ensures var e := x.Current().At(x.Current().bound);
            HeaderOk(Lose(x.headers[h], e), x.num[e := x.Current().bound], x.released)
  {
    var e, n := x.Current().At(x.Current().bound), x.Current().bound;
    var hd := x.headers[h];
    var hd' := Lose(hd, e);
    var num' := x.num[e := n];
    forall m | hd.bound - hd'.depth <= m < hd.bound ensures num'[hd'.At(m)] == m {
      OldestOf(x, h, m);
      assert hd'.At(m) == hd.At(m);
      if hd.At(m) == e { LostIsOldest(x, h, m); }
    }
    forall m | 0 <= m < hd.bound - hd'.depth ensures m in x.released {
      assert HeaderOk(hd, x.num, x.released);
    }
    assert HeaderOk(hd, x.num, x.released);
    hide IndexInv, FreeSlot;
  }

  /** The index after `StoreKey`. */
  function KeyStored(x: Index): Index
    requires x.headers != [] && x.Current().At(x.Current().bound) < |x.entries| == |x.num|
  {
    var e := x.Current().At(x.Current().bound);
    x.(producer := StoreTail(if x.producer.StoreKey? then x.producer.n else 0),
       entries := x.entries[e := x.entries[e].(key := Wrap(|x.home| * BLOCK_SIZE))],
       num := x.num[e := |x.home|],
       headers := LoseAll(x.headers, e))
  }

  /** The entry that the producer is about to take is free. */
  lemma StoreKeyKnows(x: Index)
    requires IndexInv(x) && x.producer.StoreKey?
    ensures var hd, e := x.Current(), x.Current().At(x.Current().bound);
            && hd.bound == |x.home| && e < |x.entries| == |x.num|
            && (x.num[e] >= 0 ==> x.num[e] in x.released)
            && x.entries[e].value == Null
            && 0 < hd.capacity && hd.depth <= hd.capacity && hd.depth <= hd.bound
            && Lose(hd, e).depth < hd.capacity
            && (hd.depth < hd.capacity ==> Lose(hd, e).depth == hd.depth && x.num[e] == -1)
            && (hd.depth == hd.capacity ==> Lose(hd, e).depth == hd.depth - 1 && x.num[e] == hd.bound - hd.depth)
  {
    var hd, e := x.Current(), x.Current().At(x.Current().bound);
    assert HeaderOk(hd, x.num, x.released);
    NextEntry(x);
    assert EntryOk(x, e);
    if hd.depth < hd.capacity {
      assert FreeSlot(hd, x.num, x.producer, hd.bound);
      if hd.depth > 0 { assert x.num[hd.At(hd.bound - hd.depth)] == hd.bound - hd.depth; }
    } else {
      ModMultiple(hd.bound + hd.shift, -1, hd.capacity);
      assert hd.At(hd.bound - hd.depth) == e;
      assert x.num[hd.At(hd.bound - hd.depth)] == hd.bound - hd.depth;
    }
  }

  /** The header's oldest block after its entry for the next block is taken. */
  lemma StoreKeyOldest(x: Index)
    requires IndexInv(x) && x.producer.StoreKey?
    requires x.Current().At(x.Current().bound) < |x.entries|
    ensures KeyStored(x).headers != []
    ensures var hd, hd' := x.Current(), KeyStored(x).Current();
            && hd'.bound == hd.bound == |x.home| && KeyStored(x).Newest() == |x.home| + 1
            && hd'.bound - hd'.depth <= hd.bound
            && (forall f | 0 <= f < |x.num| && f != hd.At(hd.bound) && x.num[f] >= 0 ::
                  hd'.bound - hd'.depth <= x.num[f] < |x.home|)
  {
    StoreKeyKnows(x);
    var hd, hd' := x.Current(), KeyStored(x).Current();
    assert hd' == Lose(hd, hd.At(hd.bound));
    hide HeaderOk, CurrentOk;
    forall f | 0 <= f < |x.num| && f != hd.At(hd.bound) && x.num[f] >= 0
      ensures hd'.bound - hd'.depth <= x.num[f] < |x.home|
    {
      assert EntryOk(x, f);
      assert x.num[f] == x.num[hd.At(hd.bound)] ==> x.num[f] == -1;
    }
  }

  lemma StoreKeyEntries(x: Index, f: nat)
    requires IndexInv(x) && x.producer.StoreKey? && f < |x.num|
    requires x.Current().At(x.Current().bound) < |x.entries|
    ensures EntryOk(KeyStored(x), f)
    ensures f != x.Current().At(x.Current().bound) ==> x.num[f] < |x.home|
  {
    StoreKeyOldest(x);
    StoreKeyKnows(x);
    assert EntryOk(x, f);
    hide IndexInv, LoseAll, Lose;
  }

  lemma StoreKeyCurrent(x: Index)
    requires IndexInv(x) && x.producer.StoreKey?
    requires x.Current().At(x.Current().bound) < |x.entries|
    ensures CurrentOk(KeyStored(x))
  {
    StoreKeyKnows(x);
    var y := KeyStored(x);
    var hd, hd' := x.Current(), y.Current();
    assert HeaderOk(hd, x.num, x.released);
    forall m | hd'.bound <= m < hd'.bound - hd'.depth + hd'.capacity ensures FreeSlot(hd', y.num, y.producer, m) {
      if m > hd.bound {
        assert FreeSlot(hd, x.num, x.producer, m);
        if hd.At(m) == hd.At(hd.bound) { SlotsDistinct(m, hd.bound, hd.shift, hd.capacity); }
      }
    }
  }

  lemma StoreKeyKeepsIndex(x: Index)
    requires IndexInv(x) && x.producer.StoreKey?
    requires x.Current().At(x.Current().bound) < |x.entries|
    ensures IndexInv(KeyStored(x))
  {
    StoreKeyKnows(x);
    StoreKeyCurrent(x);
    var y := KeyStored(x);
    forall h | 0 <= h < |y.headers| ensures HeaderOk(y.headers[h], y.num, y.released) {
      LoseKeepsHeader(x, h);
    }
    forall f | 0 <= f < |y.num|
      ensures EntryOk(y, f)
      ensures f != x.Current().At(x.Current().bound) ==> x.num[f] < |x.home|
    {
      StoreKeyEntries(x, f);
    }
    hide HeaderOk, EntryOk, CurrentOk;
  }

  // Moving the tail.

  function TailStored(x: Index): Index
    requires x.headers != [] && x.Current().capacity > 0
  {
    var hd := x.Current();
    x.(producer := StoreValue(if x.producer.StoreTail? then x.producer.n else 0),
       headers := x.headers[|x.headers| - 1 :=
                    hd.(tail := (hd.tail + 1) % hd.capacity, bound := hd.bound + 1, depth := hd.depth + 1)])
  }

  lemma StoreTailCurrent(x: Index)
    requires IndexInv(x) && x.producer.StoreTail? && x.Current().capacity > 0
    ensures HeaderOk(TailStored(x).Current(), x.num, x.released)
    ensures CurrentOk(TailStored(x))
  {
    var y := TailStored(x);
    var hd, hd' := x.Current(), y.Current();
    assert HeaderOk(hd, x.num, x.released);
    SlotMoves(hd.bound, hd.bound - 1, hd.shift, hd.capacity);
    assert forall m :: hd'.At(m) == hd.At(m);
    forall m | hd'.bound <= m < hd'.bound - hd'.depth + hd'.capacity ensures FreeSlot(hd', y.num, y.producer, m) {
      assert FreeSlot(hd, x.num, x.producer, m);
    }
    hide IndexInv;
  }

  lemma StoreTailKeepsIndex(x: Index)
    requires IndexInv(x) && x.producer.StoreTail? && x.Current().capacity > 0
    ensures IndexInv(TailStored(x))
  {
    var y := TailStored(x);
    StoreTailCurrent(x);
    forall f | 0 <= f < |y.num| ensures EntryOk(y, f) { assert EntryOk(x, f); }
    hide HeaderOk, CurrentOk, EntryOk;
    forall h | 0 <= h < |y.headers| ensures HeaderOk(y.headers[h], y.num, y.released) {
      assert HeaderOk(x.headers[h], x.num, x.released);
    }
  }

  // Storing the block.

  function ValueStored(x: Index, b: nat): Index
    requires x.headers != [] && x.Current().tail < |x.Current().index|
    requires x.Current().index[x.Current().tail] < |x.entries|
  {
    var e := x.Current().index[x.Current().tail];
    x.(producer := Loop(if x.producer.StoreValue? then x.producer.n else 0),
       entries := x.entries[e := x.entries[e].(value := Block(b))],
       home := x.home + [b])
  }

  lemma StoreValueKeepsIndex(x: Index, b: nat)
    requires IndexInv(x) && x.producer.StoreValue? && (forall k | k in x.released :: k < |x.home|)
    requires x.Current().tail < |x.Current().index|
    requires x.Current().index[x.Current().tail] < |x.entries|
    ensures IndexInv(ValueStored(x, b))
  {
    var y := ValueStored(x, b);
    var hd := x.Current();
    var e := hd.index[hd.tail];
    assert HeaderOk(hd, x.num, x.released);
    assert |x.home| !in x.released && hd.bound - 1 == |x.home|;
    assert x.num[hd.At(hd.bound - 1)] == hd.bound - 1 && hd.At(hd.bound - 1) == e;
    forall m | hd.bound <= m < hd.bound - hd.depth + hd.capacity ensures FreeSlot(hd, y.num, y.producer, m) {
      assert FreeSlot(hd, x.num, x.producer, m);
    }
    assert CurrentOk(y);
    forall f | 0 <= f < |y.num| ensures EntryOk(y, f) { assert EntryOk(x, f); }
    hide HeaderOk, CurrentOk, EntryOk;
  }

  // Publishing a larger header.

  function Grown(x: Index): Index
    requires x.headers != [] && 0 < x.Current().capacity == |x.Current().index|
  {
    var c := x.Current().capacity;
    x.(producer := StoreKey(if x.producer.Grow? then x.producer.n else 0),
       headers := x.headers + [Bigger(x.Current(), |x.entries|)],
       entries := x.entries + seq(c, j => Entry(INVALID_BLOCK_BASE, Null)),
       num := x.num + seq(c, j => -1))
  }

  /** In the larger header, block m is in the j-th slot with j = m - (bound - capacity). */
  lemma BiggerSlots(hd: Header, base: nat, m: nat)
    requires 0 < hd.capacity == |hd.index| && hd.tail == hd.Slot(hd.bound - 1) && hd.capacity <= hd.bound
    requires hd.bound - hd.capacity <= m < hd.bound + hd.capacity
    ensures var big := Bigger(hd, base);
            && big.Slot(m) == m - hd.bound + hd.capacity
            && big.At(m) == if m < hd.bound then hd.At(m) else base + (m - hd.bound)
  {
    DoubledSlot(m, hd.bound, hd.capacity);
    RotatedSlot(m, hd.bound, hd.shift, hd.capacity);
  }

  lemma BiggerOk(x: Index)
    requires IndexInv(x) && x.producer.Grow? && FitsWord(2 * x.Current().capacity)
    requires |x.Current().index| == x.Current().capacity
    ensures HeaderOk(Bigger(x.Current(), |x.entries|), Grown(x).num, x.released)
  {
    var hd, base := x.Current(), |x.entries|;
    var big, num' := Bigger(hd, base), Grown(x).num;
    assert HeaderOk(hd, x.num, x.released);
    forall m | hd.bound - hd.capacity <= m < hd.bound + hd.capacity
      ensures big.Slot(m) == m - hd.bound + hd.capacity
      ensures big.At(m) == if m < hd.bound then hd.At(m) else base + (m - hd.bound)
    {
      BiggerSlots(hd, base, m);
    }
    hide IndexInv;
    BiggerIndex(hd, base);
    forall a, b | 0 <= a < b < big.capacity ensures big.index[a] != big.index[b] {
      BiggerDistinct(hd, base, |x.num|, a, b);
    }
  }

  /** What is in the slots of the larger header. */
  lemma BiggerIndex(hd: Header, base: nat)
    requires 0 < hd.capacity == |hd.index| && hd.tail < hd.capacity
    ensures var big := Bigger(hd, base);
            && |big.index| == big.capacity
            && (forall a | 0 <= a < hd.capacity :: big.index[a] == hd.index[(hd.tail + 1 + a) % hd.capacity])
            && (forall a | hd.capacity <= a < big.capacity :: big.index[a] == base + (a - hd.capacity))
  {
  }

  lemma BiggerDistinct(hd: Header, base: nat, size: nat, a: nat, b: nat)
    requires 0 < hd.capacity == |hd.index| && hd.tail < hd.capacity && a < b < 2 * hd.capacity
    requires forall i, j | 0 <= i < j < hd.capacity :: hd.index[i] != hd.index[j]
    requires size == base && forall i | 0 <= i < hd.capacity :: hd.index[i] < size
    ensures |Bigger(hd, base).index| == 2 * hd.capacity
    ensures Bigger(hd, base).index[a] != Bigger(hd, base).index[b]
  {
    BiggerIndex(hd, base);
    if b < hd.capacity {
      var i, j := (hd.tail + 1 + a) % hd.capacity, (hd.tail + 1 + b) % hd.capacity;
      if i == j { SlotsDistinct(a, b, hd.tail + 1, hd.capacity); }
    }
  }

  lemma GrowKeepsIndex(x: Index)
    requires IndexInv(x) && x.producer.Grow? && FitsWord(2 * x.Current().capacity)
    requires |x.Current().index| == x.Current().capacity
    ensures IndexInv(Grown(x))
  {
    var y, hd := Grown(x), x.Current();
    assert HeaderOk(hd, x.num, x.released);
    BiggerOk(x);
    forall h | 0 <= h < |y.headers| ensures HeaderOk(y.headers[h], y.num, y.released) {
      if h < |x.headers| { HeaderGrows(x.headers[h], x.num, y.num, x.released) by {
        assert HeaderOk(x.headers[h], x.num, x.released);
      } }
    }
    forall m | hd.bound <= m < hd.bound + hd.capacity
      ensures FreeSlot(y.Current(), y.num, y.producer, m)
      ensures y.entries[y.Current().At(m)] == Entry(INVALID_BLOCK_BASE, Null)
    {
      BiggerSlots(hd, |x.entries|, m);
    }
    assert CurrentOk(y);
    forall f | 0 <= f < |y.num| ensures EntryOk(y, f) {
      if f < |x.num| { assert EntryOk(x, f); }
    }
    hide HeaderOk, EntryOk, CurrentOk;
  }

  lemma HeaderGrows(hd: Header, num: seq<int>, num': seq<int>, released: set<nat>)
    requires HeaderOk(hd, num, released) && num <= num'
    ensures HeaderOk(hd, num', released)
  {
  }

  lemma ProduceKeepsInv(s: State, b: nat)
    requires Inv(s) && ShapeOk(s) && Enabled(s, ProducerStep(b))
    ensures Inv(Produce(s, b))
  {
    hide Inv;
    match s.producer
    case Loop(_) => LoopStep(s, b);
    case Probe(_) => LoopStep(s, b);
    case Grow(_) => GrowStep(s, b);
    case StoreKey(_) => StoreKeyStep(s, b);
    case StoreTail(_) => StoreTailStep(s, b);
    case StoreValue(_) => StoreValueStep(s, b);
  }

  lemma ProduceRest(s: State, s': State)
    requires Inv(s) && Extends(s, s') && StoreOf(s') == StoreOf(s) && IndexInv(IndexOf(s'))
    ensures Inv(s')
  {
    hide IndexInv, StoreInv, ThreadsInv, TrackInv;
    ThreadsSurvive(s, s');
  }

  lemma GrowStep(s: State, b: nat)
    requires Inv(s) && ShapeOk(s) && Enabled(s, ProducerStep(b)) && s.producer.Grow?
    ensures Inv(Produce(s, b))
  {
    GrowKeepsIndex(IndexOf(s));
    assert IndexOf(Produce(s, b)) == Grown(IndexOf(s));
    ProduceRest(s, Produce(s, b));
  }

  lemma StoreKeyIs(s: State, b: nat)
    requires ShapeOk(s) && s.producer.StoreKey?
    requires var hd := Last(s); hd.index[(hd.tail + 1) % hd.capacity] == hd.At(hd.bound)
    ensures IndexOf(s).Current().At(IndexOf(s).Current().bound) < |s.entries|
    ensures IndexOf(Produce(s, b)) == KeyStored(IndexOf(s)) && StoreOf(Produce(s, b)) == StoreOf(s)
  {
    hide CurrentOk;
    assert Last(s) == IndexOf(s).Current();
  }

  lemma StoreKeyRest(s: State, b: nat)
    requires ShapeOk(s) && s.producer.StoreKey?
    ensures TrackOf(Produce(s, b)) == TrackOf(s) && Produce(s, b).tailIndex == s.tailIndex
    ensures |Produce(s, b).headers| == |s.headers|
    ensures forall h | 0 <= h < |s.headers| ::
              Produce(s, b).headers[h] == s.headers[h].(depth := Produce(s, b).headers[h].depth)
  {
    hide CurrentOk;
  }

  lemma StoreKeyStep(s: State, b: nat)
    requires Inv(s) && ShapeOk(s) && s.producer.StoreKey?
    ensures Inv(Produce(s, b))
  {
    NextEntry(IndexOf(s));
    StoreKeyIs(s, b);
    StoreKeyRest(s, b);
    StoreKeyKeepsIndex(IndexOf(s));
    assert |s.done| == |s.home|;
    hide IndexInv, StoreInv, ThreadsInv, TrackInv, Produce, ShapeOk;
    ProduceRest(s, Produce(s, b));
  }

  lemma StoreTailIs(s: State, b: nat)
    requires ShapeOk(s) && s.producer.StoreTail?
    ensures IndexOf(s).Current().capacity > 0
    ensures IndexOf(Produce(s, b)) == TailStored(IndexOf(s)) && StoreOf(Produce(s, b)) == StoreOf(s)
    ensures TrackOf(Produce(s, b)) == TrackOf(s) && Produce(s, b).tailIndex == s.tailIndex
    ensures |Produce(s, b).headers| == |s.headers|
    ensures forall h | 0 <= h < |s.headers| - 1 :: Produce(s, b).headers[h] == s.headers[h]
    ensures var hd := Last(s);
            Produce(s, b).headers[|s.headers| - 1]
              == hd.(tail := (hd.tail + 1) % hd.capacity, bound := hd.bound + 1, depth := hd.depth + 1)
  {
    assert Last(s) == IndexOf(s).Current();
  }

  lemma StoreTailStep(s: State, b: nat)
    requires Inv(s) && ShapeOk(s) && s.producer.StoreTail?
    ensures Inv(Produce(s, b))
  {
    StoreTailIs(s, b);
    StoreTailKeepsIndex(IndexOf(s));
    assert |s.done| == |s.home|;
    hide IndexInv, StoreInv, ThreadsInv, TrackInv, Produce, ShapeOk;
    ProduceRest(s, Produce(s, b));
  }

  lemma StoreValueStore(x: Store, y: Store, b: nat)
    requires StoreInv(x) && b !in x.inUse
    requires y == x.(home := x.home + [b], done := x.done + [{}], inUse := x.inUse + {b}, count := x.count[b := 0])
    ensures StoreInv(y)
  {
    forall k | 0 <= k < |y.home| ensures BlockOk(y, k) {
      if k < |x.home| { assert BlockOk(x, k); }
    }
    forall k | 0 <= k < |x.home| && k !in x.given ensures x.home[k] != b {
      assert BlockOk(x, k);
    }
    forall c | c in y.inUse ensures InUseAsHome(y, c) {
      if c == b {
        assert y.home[|x.home|] == b;
      } else {
        assert InUseAsHome(x, c);
        var j :| 0 <= j < |x.home| && j !in x.given && x.home[j] == c;
        assert y.home[j] == c;
      }
    }
    hide BlockOk, InUseAsHome;
  }

  lemma StoreValueTrack(x: Track)
    requires TrackInv(x) && x.headIndex <= |x.done| * BLOCK_SIZE
    ensures TrackInv(x.(done := x.done + [{}]))
  {
    var y := x.(done := x.done + [{}]);
    forall k | 0 <= k < |y.done| ensures Accounted(y, k) {
      if k < |x.done| {
        assert Accounted(x, k);
        forall o: nat | o < BLOCK_SIZE ensures ElementOk(y, k, o) { assert ElementOk(x, k, o); }
      }
    }
  }

  lemma StoreValueStep(s: State, b: nat)
    requires Inv(s) && ShapeOk(s) && Enabled(s, ProducerStep(b)) && s.producer.StoreValue?
    ensures Inv(Produce(s, b))
  {
    var s' := Produce(s, b);
    StoreValueKeepsIndex(IndexOf(s), b);
    assert IndexOf(s') == ValueStored(IndexOf(s), b);
    hide IndexInv;
    StoreValueStore(StoreOf(s), StoreOf(s'), b);
    StoreValueTrack(TrackOf(s));
    assert Extends(s, s');
    hide StoreInv, ThreadsInv, TrackInv;
    ThreadsSurvive(s, s');
  }

  lemma ClaimThreads(s: State, t: nat, n: nat)
    requires Inv(s) && ShapeOk(s) && Enabled(s, Claim(t, n))
    ensures ThreadsInv(Next(s, Claim(t, n)))
  {
    var s' := Next(s, Claim(t, n));
    assert |s.done| == |s.home|;
    hide IndexInv, StoreInv;
    forall x: nat | s.headIndex <= x < s'.headIndex ensures x % BLOCK_SIZE !in s.done[x / BLOCK_SIZE] {
      assert Accounted(TrackOf(s), x / BLOCK_SIZE);
    }
    hide TrackInv;
    forall u | 0 <= u < |s'.threads| ensures ThreadOk(s', s'.threads[u]) {
      assert ThreadOk(s, s.threads[u]);
    }
    forall u, v | 0 <= u < |s'.threads| && 0 <= v < |s'.threads| && u != v
      ensures Apart(s'.threads[u], s'.threads[v])
    {
      assert Apart(s.threads[u], s.threads[v]);
      assert ThreadOk(s, s.threads[u]) && ThreadOk(s, s.threads[v]);
    }
  }

  lemma ClaimTrack(x: Track, t: nat, n: nat)
    requires TrackInv(x) && t < |x.threads| && x.threads[t].Idle? && n > 0
    ensures TrackInv(x.(headIndex := x.headIndex + n, threads := x.threads[t := Claimed(x.headIndex, n)]))
  {
    var pc := Claimed(x.headIndex, n);
    var y := x.(headIndex := x.headIndex + n, threads := x.threads[t := pc]);
    forall k | 0 <= k < |y.done| ensures Accounted(y, k) {
      assert Accounted(x, k);
      forall o: nat | o < BLOCK_SIZE && k * BLOCK_SIZE + o < y.headIndex
        ensures ElementOk(y, k, o)
      {
        assert ElementOk(x, k, o);
        if k * BLOCK_SIZE + o >= x.headIndex {
          assert y.threads[t].Holds(k * BLOCK_SIZE + o);
        } else if o !in x.done[k] {
          HeldAfter(x.threads, t, pc, k * BLOCK_SIZE + o);
        }
      }
      if IsReleasing(x.threads, k) { ReleasingAfter(x.threads, t, pc, k); }
    }
  }

  lemma NextKeepsInv(s: State, e: Event)
    requires Inv(s) && ShapeOk(s) && Enabled(s, e)
    ensures Inv(Next(s, e))
  {
    match e
    case Enqueue(n) =>
      hide StoreInv, ThreadsInv, TrackInv;
      var s' := Next(s, e);
      ProducerMoves(IndexOf(s), IndexOf(s'));
      assert Extends(s, s') by { assert StoreInv(StoreOf(s)); }
      ThreadsSurvive(s, s');
    case ProducerStep(b) => ProduceKeepsInv(s, b);
    case Claim(t, n) =>
      hide IndexInv, StoreInv, ThreadsInv, TrackInv;
      ClaimThreads(s, t, n);
      ClaimTrack(TrackOf(s), t, n);
    case ConsumerStep(t) => ConsumeKeepsInv(s, t);
  }

  // ---------------------------------------------------------------- runs

  lemma InitInv(s: State)
    requires Init(s)
    ensures Inv(s)
  {
    var hd := s.headers[0];
    assert HeaderOk(hd, s.num, s.released);
    forall m | 0 <= m < hd.capacity ensures FreeSlot(hd, s.num, s.producer, m) {
    }
    assert CurrentOk(IndexOf(s));
    hide HeaderOk, CurrentOk, FreeSlot;
  }

  predicate Follows(s: State, e: Event, s': State) { ShapeOk(s) && Enabled(s, e) && s' == Next(s, e) }

  predicate IsRun(states: seq<State>, events: seq<Event>) {
    && |states| == |events| + 1
    && Init(states[0])
    && forall i | 0 <= i < |events| :: Follows(states[i], events[i], states[i + 1])
  }

  /** The invariant holds throughout every run of one producer and any number of consumers. */
  lemma {:induction false} RunInv(states: seq<State>, events: seq<Event>, i: nat)
    requires IsRun(states, events) && i <= |events|
    ensures Inv(states[i])
    decreases i
  {
    hide Inv, Init, Follows;
    if i == 0 {
      InitInv(states[0]);
    } else {
      RunInv(states, events, i - 1);
      FollowsKeepsInv(states[i - 1], events[i - 1], states[i - 1 + 1]);
    }
  }

  lemma FollowsKeepsInv(s: State, e: Event, s': State)
    requires Inv(s) && Follows(s, e, s')
    ensures Inv(s')
  {
    hide Inv;
    NextKeepsInv(s, e);
  }

  // ---------------------------------------------------------------- what follows

  /** The asserts of `get_block_index_index_for_index`: the slot it computes, from whatever header and
      tail slot the consumer read and however much the index has moved or grown since, holds the key of
      the element's block and the very block in which the element was enqueued; and the consumer can
      always go on. */
  lemma LookupFindsBlock(s: State, t: nat)
    requires Inv(s) && t < |s.threads| && s.threads[t].AtSlot?
    ensures PcShapeOk(s, s.threads[t])
    ensures var pc := s.threads[t];
            var e := s.headers[pc.h].index[pc.slot];
            && pc.i / BLOCK_SIZE < |s.home| && e < |s.entries|
            && s.entries[e].key == Wrap(pc.i / BLOCK_SIZE * BLOCK_SIZE)
            && s.entries[e].value == Block(s.home[pc.i / BLOCK_SIZE])
            && s.home[pc.i / BLOCK_SIZE] in s.inUse
  {
    var pc := s.threads[t];
    assert ThreadOk(s, pc);
    assert pc.Holds(pc.i);
    HeldBlockIsLive(s, pc, pc.i);
    LiveBlockHasEntry(s, pc.h, pc.i / BLOCK_SIZE, pc.i / BLOCK_SIZE);
    assert BlockOk(StoreOf(s), pc.i / BLOCK_SIZE);
  }

  /** While a consumer is moving elements out of a block, the producer still holds the block, nobody
      releases it, and the assert of `set_many_empty` holds: its count does not overshoot. */
  lemma BlockStaysWhileRead(s: State, t: nat)
    requires Inv(s) && t < |s.threads| && s.threads[t].WithBlock?
    ensures var pc := s.threads[t];
            && pc.i / BLOCK_SIZE < |s.home| && pc.b == s.home[pc.i / BLOCK_SIZE]
            && pc.b in s.inUse && pc.b in s.count
            && s.count[pc.b] + InBlock(pc.i, pc.n) <= BLOCK_SIZE
    ensures forall u | 0 <= u < |s.threads| && s.threads[u].Releasing() ::
              s.threads[u].k != s.threads[t].i / BLOCK_SIZE
  {
    var pc := s.threads[t];
    assert ThreadOk(s, pc);
    EmptyKnows(s, pc);
    assert BlockOk(StoreOf(s), pc.i / BLOCK_SIZE);
    hide IndexInv, StoreInv, TrackInv;
    forall u | 0 <= u < |s.threads| && s.threads[u].Releasing()
      ensures s.threads[u].k != pc.i / BLOCK_SIZE
    {
      assert ThreadOk(s, s.threads[u]);
    }
  }

  /** Everything a consumer is about to look at exists: no step is held back by `PcShapeOk`. */
  lemma ConsumerIsReady(s: State, t: nat)
    requires Inv(s) && ShapeOk(s) && t < |s.threads| && s.threads[t].Busy()
    ensures PcShapeOk(s, s.threads[t]) && Enabled(s, ConsumerStep(t))
  {
    var pc := s.threads[t];
    assert ThreadOk(s, pc);
    if !pc.Claimed? { assert HeaderOk(s.headers[pc.h], s.num, s.released); }
    if pc.WithBlock? { BlockStaysWhileRead(s, t); }
  }

  /** The assert of `insert_block_index_entry`: after growth the next entry is a fresh one. */
  lemma GrownSlotIsFresh(s: State, b: nat)
    requires Inv(s) && ShapeOk(s) && s.producer.Grow? && Enabled(s, ProducerStep(b))
    ensures var hd := Last(Produce(s, b));
            hd.index[(hd.tail + 1) % hd.capacity] < |Produce(s, b).entries|
            && Produce(s, b).entries[hd.index[(hd.tail + 1) % hd.capacity]] == Entry(INVALID_BLOCK_BASE, Null)
  {
    var hd := Last(s);
    assert HeaderOk(hd, s.num, s.released);
    var big := Bigger(hd, |s.entries|);
    BiggerIndex(hd, |s.entries|);
    assert (big.tail + 1) % big.capacity == hd.capacity by { DivUnique(hd.capacity, 2 * hd.capacity, 0, hd.capacity); }
  }

  /** No block leaks and none is given back early: when no consumer is inside a call, the blocks that
      have gone back to the pool are exactly those all of whose elements were claimed, and the blocks
      the producer holds are exactly the others. */
  lemma QuietBlocks(s: State)
    requires Inv(s) && forall t | 0 <= t < |s.threads| :: !s.threads[t].Busy()
    ensures |s.done| == |s.home|
    ensures forall k | 0 <= k < |s.home| :: k in s.given <==> (k + 1) * BLOCK_SIZE <= s.headIndex
    ensures forall b :: b in s.inUse <==>
              exists k :: 0 <= k < |s.home| && s.headIndex < (k + 1) * BLOCK_SIZE && s.home[k] == b
  {
    hide IndexInv, ThreadsInv;
    forall k | 0 <= k < |s.home| ensures k in s.given <==> (k + 1) * BLOCK_SIZE <= s.headIndex {
      QuietBlock(s, k);
    }
    forall b | b in s.inUse
      ensures exists k :: 0 <= k < |s.home| && s.headIndex < (k + 1) * BLOCK_SIZE && s.home[k] == b
    {
      assert InUseAsHome(StoreOf(s), b);
      var k :| 0 <= k < |s.home| && k !in s.given && s.home[k] == b;
      assert s.headIndex < (k + 1) * BLOCK_SIZE;
    }
    forall k | 0 <= k < |s.home| && s.headIndex < (k + 1) * BLOCK_SIZE ensures s.home[k] in s.inUse {
      assert BlockOk(StoreOf(s), k);
    }
  }

  lemma QuietBlock(s: State, k: nat)
    requires Inv(s) && (forall t | 0 <= t < |s.threads| :: !s.threads[t].Busy()) && k < |s.home|
    ensures k in s.given <==> (k + 1) * BLOCK_SIZE <= s.headIndex
  {
    hide Inv, BlockOk, Accounted;
    BlockIsOk(s, k);
    BlockIsAccounted(s, k);
    if k in s.given { FullBlockIsPast(s, k); }
    if (k + 1) * BLOCK_SIZE <= s.headIndex { PastBlockIsFull(s, k); }
  }

  lemma FullBlockIsPast(s: State, k: nat)
    requires k < |s.home| == |s.done| && BlockOk(StoreOf(s), k) && Accounted(TrackOf(s), k) && k in s.given
    ensures (k + 1) * BLOCK_SIZE <= s.headIndex
  {
    hide ElementOk;
    SubsetCount(s.done[k], Below(BLOCK_SIZE));
    assert BLOCK_SIZE - 1 in Below(BLOCK_SIZE);
    assert BLOCK_SIZE - 1 in s.done[k];
  }

  lemma PastBlockIsFull(s: State, k: nat)
    requires k < |s.home| == |s.done| && BlockOk(StoreOf(s), k) && Accounted(TrackOf(s), k)
    requires (forall t | 0 <= t < |s.threads| :: !s.threads[t].Busy()) && (k + 1) * BLOCK_SIZE <= s.headIndex
    ensures k in s.given
  {
    hide Below;
    forall o: nat | o < BLOCK_SIZE ensures o in s.done[k] {
      assert ElementOk(TrackOf(s), k, o);
    }
    AllOffsets(s.done[k]);
  }

  lemma AllOffsets(done: set<nat>)
    requires forall o: nat :: o in done <==> o < BLOCK_SIZE
    ensures |done| == BLOCK_SIZE
  {
    hide Below;
    assert done == Below(BLOCK_SIZE);
  }

  lemma BlockIsOk(s: State, k: nat)
    requires Inv(s) && k < |s.home|
    ensures |s.done| == |s.home| && BlockOk(StoreOf(s), k)
  {
    hide IndexInv, ThreadsInv, TrackInv;
  }

  lemma BlockIsAccounted(s: State, k: nat)
    requires Inv(s) && k < |s.done|
    ensures Accounted(TrackOf(s), k)
  {
    hide IndexInv, ThreadsInv, StoreInv;
  }
}
