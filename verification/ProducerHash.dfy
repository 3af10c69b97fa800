// The lock-free table from thread ids to implicit producers: a chain of ever larger linear-probing
// hash tables, searched from the newest to the oldest.
//
// Any number of threads call `get_or_add_implicit_producer`; every access to a shared atomic is one
// step, allocation succeeds, and implicit producers are never recycled. Thread `t` is its own id; its
// hash is an arbitrary number.
module ProducerHash {
  import opened CircularIndex

  datatype Key = Empty | Tid(id: nat)

  datatype Table = Table(capacity: nat, keys: seq<Key>, values: seq<nat>)

  datatype Option = None | Some(value: nat)

  /** What a thread does next. `main` is the newest table it knows, `j` counts its probes, `n` is its
      `newCount`, and `p` a producer. */
  datatype Pc =
    | Idle
    | Start                                      // load of the current table
    | Search(main: nat, h: nat, j: nat)          // load of a key of table h
    | Found(main: nat, h: nat, slot: nat)        // its own key: load of the value
    | Copy(main: nat, p: nat, j: nat)            // lazy copy into the current table: load of a key
    | CopyCas(main: nat, p: nat, j: nat)         //   CAS of an empty key
    | CopySet(main: nat, p: nat, slot: nat)      //   store of the value
    | Join(main: nat)                            // fetch_add of implicitProducerHashCount
    | TryLock(main: nat, n: nat)                 // test_and_set of the resize flag, if half full
    | Reload(n: nat)                             //   load of the current table, with the flag set
    | Publish(main: nat, n: nat)                 //   store of a larger table
    | Unlock(main: nat, n: nat)                  //   clear of the flag
    | Room(main: nat, n: nat)                    // is the table less than three quarters full?
    | Again(n: nat)                              //   no: load of the current table
    | Create(main: nat, n: nat)                  //   yes: a new producer
    | Insert(main: nat, p: nat, j: nat)          //   load of a key
    | InsertCas(main: nat, p: nat, j: nat)       //   CAS of an empty key
    | InsertSet(main: nat, p: nat, slot: nat)    //   store of the value
    | Done(p: nat)                               // return
  {
    predicate KnowsMain() { !Idle? && !Start? && !Reload? && !Again? && !Done? }

    predicate InLock() { Reload? || Publish? || Unlock? }

    /** The thread has drawn its `newCount` and is not in any table yet. */
    predicate Joining() { TryLock? || InLock() || Room? || Again? || Create? }

    /** The thread is looking for a free slot of table `main` for itself. */
    predicate Placing() { Copy? || CopyCas? || Insert? || InsertCas? }

    /** The thread owns slot `slot` of table `main` and has yet to store the value. */
    predicate Setting() { CopySet? || InsertSet? }
  }

  /** `joined[t]` is the `newCount` of thread t and `mine[t]` its producer; both are bookkeeping. */
  datatype State = State(
    tables: seq<Table>,
    count: nat,
    locked: bool,
    made: nat,
    threads: seq<Pc>,
    hash: seq<nat>,
    joined: seq<Option>,
    mine: seq<Option>)

  // ---------------------------------------------------------------- the steps

  /** Three quarters of the capacity, as the program computes it. */
  function Quota(capacity: nat): nat { capacity / 2 + capacity / 4 }

  predicate Pow2(c: nat) { c == 1 || (c > 1 && c % 2 == 0 && Pow2(c / 2)) }

  /** The capacity of the next table: doubled until `n` is less than half of it. */
  function NewCapacity(c: nat, n: nat): (r: nat)
    requires c > 0
    ensures n < r / 2 && 2 * c <= r
    ensures Pow2(c) ==> Pow2(r)
    decreases n - c
  {
    if n >= c then NewCapacity(2 * c, n) else 2 * c
  }

  /** The loop that computes it. */
  method ComputeNewCapacity(capacity: nat, newCount: nat) returns (newCapacity: nat)
    requires capacity > 0 && newCount >= capacity / 2
    ensures newCapacity == NewCapacity(capacity, newCount)
  {
    newCapacity := 2 * capacity;
    ghost var half := capacity;
    while newCount >= newCapacity / 2
      invariant newCapacity == 2 * half && half > 0
      invariant NewCapacity(half, newCount) == NewCapacity(capacity, newCount)
      decreases newCount - half
    {
      newCapacity := 2 * newCapacity;
      half := 2 * half;
    }
  }

  function EmptyTable(capacity: nat): Table {
    Table(capacity, seq(capacity, i => Empty), seq(capacity, i => 0))
  }

  /** The j-th probe of a thread with hash `h`; the mask is a remainder, capacities being powers of two. */
  function Slot(tb: Table, h: nat, j: nat): nat { if tb.capacity == 0 then 0 else (h + j) % tb.capacity }

  predicate TableShape(tb: Table) { 0 < tb.capacity == |tb.keys| == |tb.values| }

  predicate ShapeOk(s: State) {
    && |s.hash| == |s.joined| == |s.mine| == |s.threads|
    && s.tables != []
    && forall h | 0 <= h < |s.tables| :: TableShape(s.tables[h])
  }

  /** The locals of a thread refer to things that exist. */
  predicate PcShape(s: State, pc: Pc) {
    && (pc.Search? || pc.Found? ==> pc.h <= pc.main)
    && (pc.KnowsMain() ==> pc.main < |s.tables|)
    && (pc.Found? ==> pc.slot < s.tables[pc.h].capacity)
    && (pc.Setting() ==> pc.slot < s.tables[pc.main].capacity)
  }

  function Goto(s: State, t: nat, pc: Pc): State
    requires t < |s.threads|
  {
    s.(threads := s.threads[t := pc])
  }

  function WithKey(s: State, h: nat, slot: nat, key: Key): State
    requires h < |s.tables| && slot < |s.tables[h].keys|
  {
    s.(tables := s.tables[h := s.tables[h].(keys := s.tables[h].keys[slot := key])])
  }

  function WithValue(s: State, h: nat, slot: nat, value: nat): State
    requires h < |s.tables| && slot < |s.tables[h].values|
  {
    s.(tables := s.tables[h := s.tables[h].(values := s.tables[h].values[slot := value])])
  }

  /** One step of thread `t`. */
  function Exec(s: State, t: nat): State
    requires ShapeOk(s) && t < |s.threads| && PcShape(s, s.threads[t])
  {
    var newest := |s.tables| - 1;
    match s.threads[t]
    case Idle => s
    case Start => Goto(s, t, Search(newest, newest, 0))
    case Search(main, h, j) =>
      var slot := Slot(s.tables[h], s.hash[t], j);
      var key := s.tables[h].keys[slot];
      Goto(s, t, if key == Tid(t) then Found(main, h, slot)
                 else if key == Empty then (if h == 0 then Join(main) else Search(main, h - 1, 0))
                 else Search(main, h, j + 1))
    case Found(main, h, slot) =>
      var p := s.tables[h].values[slot];
      Goto(s, t, if h != main then Copy(main, p, 0) else Done(p))
    case Copy(main, p, j) =>
      var key := s.tables[main].keys[Slot(s.tables[main], s.hash[t], j)];
      Goto(s, t, if key == Empty then CopyCas(main, p, j) else Copy(main, p, j + 1))
    case CopyCas(main, p, j) =>
      var slot := Slot(s.tables[main], s.hash[t], j);
      if s.tables[main].keys[slot] == Empty then Goto(WithKey(s, main, slot, Tid(t)), t, CopySet(main, p, slot))
      else Goto(s, t, Copy(main, p, j + 1))
    case CopySet(main, p, slot) => Goto(WithValue(s, main, slot, p), t, Done(p))
    case Join(main) =>
      Goto(s, t, TryLock(main, s.count + 1)).(count := s.count + 1, joined := s.joined[t := Some(s.count + 1)])
    case TryLock(main, n) =>
      if n >= s.tables[main].capacity / 2 && !s.locked then Goto(s, t, Reload(n)).(locked := true)
      else Goto(s, t, Room(main, n))
    case Reload(n) =>
      Goto(s, t, if n >= s.tables[newest].capacity / 2 then Publish(newest, n) else Unlock(newest, n))
    case Publish(main, n) =>
      Goto(s, t, Unlock(|s.tables|, n))
        .(tables := s.tables + [EmptyTable(NewCapacity(s.tables[main].capacity, n))])
    case Unlock(main, n) => Goto(s, t, Room(main, n)).(locked := false)
    case Room(main, n) => Goto(s, t, if n < Quota(s.tables[main].capacity) then Create(main, n) else Again(n))
    case Again(n) => Goto(s, t, TryLock(newest, n))
    case Create(main, n) =>
      Goto(s, t, Insert(main, s.made, 0)).(made := s.made + 1, mine := s.mine[t := Some(s.made)])
    case Insert(main, p, j) =>
      var key := s.tables[main].keys[Slot(s.tables[main], s.hash[t], j)];
      Goto(s, t, if key == Empty then InsertCas(main, p, j) else Insert(main, p, j + 1))
    case InsertCas(main, p, j) =>
      var slot := Slot(s.tables[main], s.hash[t], j);
      if s.tables[main].keys[slot] == Empty then Goto(WithKey(s, main, slot, Tid(t)), t, InsertSet(main, p, slot))
      else Goto(s, t, Insert(main, p, j + 1))
    case InsertSet(main, p, slot) => Goto(WithValue(s, main, slot, p), t, Done(p))
    case Done(p) => Goto(s, t, Idle)
  }

  datatype Event = Call(t: nat) | Step(t: nat)

  predicate Enabled(s: State, e: Event)
    requires ShapeOk(s)
  {
    match e
    case Call(t) => t < |s.threads| && s.threads[t].Idle?
    case Step(t) => t < |s.threads| && !s.threads[t].Idle? && PcShape(s, s.threads[t])
  }

  function Next(s: State, e: Event): State
    requires ShapeOk(s) && Enabled(s, e)
  {
    match e
    case Call(t) => Goto(s, t, Start)
    case Step(t) => Exec(s, t)
  }

  predicate Init(s: State) {
    && |s.hash| == |s.joined| == |s.mine| == |s.threads|
    && |s.tables| == 1 && s.tables[0] == EmptyTable(s.tables[0].capacity) && Pow2(s.tables[0].capacity)
    && s.count == 0 && !s.locked && s.made == 0
    && (forall t | 0 <= t < |s.threads| :: s.threads[t] == Idle && s.joined[t] == None && s.mine[t] == None)
  }

  // ---------------------------------------------------------------- the invariant

  /** The first `j` slots that a thread with hash `h` probes are taken. */
  predicate Taken(tb: Table, h: nat, j: nat)
    requires TableShape(tb)
  {
    forall i: nat | i < j :: tb.keys[Slot(tb, h, i)] != Empty
  }

  /** The key in `slot` is found by probing. */
  predicate Reachable(tb: Table, h: nat, slot: nat)
    requires TableShape(tb)
  {
    exists d: nat :: d < tb.capacity && Slot(tb, h, d) == slot && Taken(tb, h, d)
  }

  predicate KeyOk(s: State, h: nat, slot: nat)
    requires ShapeOk(s) && h < |s.tables| && slot < s.tables[h].capacity
  {
    var tb := s.tables[h];
    tb.keys[slot].Tid? ==>
      var t := tb.keys[slot].id;
      && t < |s.threads|
      && s.joined[t].Some? && s.joined[t].value < Quota(tb.capacity)
      && s.mine[t].Some?
      && (s.mine[t].value == tb.values[slot]
          || (s.threads[t].Setting() && s.threads[t].main == h && s.threads[t].slot == slot))
      && Reachable(tb, s.hash[t], slot)
      && (forall q | 0 <= q < tb.capacity && q != slot :: tb.keys[q] != tb.keys[slot])
  }

  predicate AbsentFrom(s: State, t: nat, h: nat) {
    forall g | h <= g < |s.tables| :: Tid(t) !in s.tables[g].keys
  }

  predicate Present(s: State, t: nat) { exists g :: 0 <= g < |s.tables| && Tid(t) in s.tables[g].keys }

  predicate ThreadOk(s: State, t: nat)
    requires ShapeOk(s) && t < |s.threads|
  {
    var pc := s.threads[t];
    && PcShape(s, pc)
    && (s.joined[t].Some? ==> 1 <= s.joined[t].value <= s.count)
    && (s.mine[t].Some? ==> s.joined[t].Some? && s.mine[t].value < s.made)
    && (pc.Joining() || pc.Join? || pc.Insert? || pc.InsertCas? ==> AbsentFrom(s, t, 0))
    && (!(pc.Joining() || pc.Join? || pc.Insert? || pc.InsertCas?) ==> s.joined[t].Some? ==> Present(s, t))
    && (pc.Join? ==> s.joined[t] == None)
    && (pc.Joining() ==> s.joined[t] == Some(pc.n) && s.mine[t] == None)
    && (pc.Search? ==> AbsentFrom(s, t, pc.h + 1) && Taken(s.tables[pc.h], s.hash[t], pc.j)
                       && forall i: nat | i < pc.j :: s.tables[pc.h].keys[Slot(s.tables[pc.h], s.hash[t], i)] != Tid(t))
    && (pc.Found? ==> AbsentFrom(s, t, pc.h + 1) && s.tables[pc.h].keys[pc.slot] == Tid(t))
    && (pc.Placing() ==>
          && AbsentFrom(s, t, pc.main)
          && s.mine[t] == Some(pc.p)
          && s.joined[t].Some? && s.joined[t].value < Quota(s.tables[pc.main].capacity)
          && Taken(s.tables[pc.main], s.hash[t], pc.j))
    && (pc.Setting() ==> s.mine[t] == Some(pc.p) && s.tables[pc.main].keys[pc.slot] == Tid(t))
    && (pc.Publish? ==> pc.main == |s.tables| - 1)
    && (pc.Create? ==> pc.n < Quota(s.tables[pc.main].capacity))
    && (pc.InLock() ==> s.locked)
    && (pc.Done? ==> s.mine[t] == Some(pc.p))
  }

  /** Threads never share a count, a producer or the resize lock. */
  predicate Apart(s: State, t: nat, u: nat)
    requires ShapeOk(s) && t < |s.threads| && u < |s.threads|
  {
    && (s.joined[t].Some? ==> s.joined[t] != s.joined[u])
    && (s.mine[t].Some? ==> s.mine[t] != s.mine[u])
    && !(s.threads[t].InLock() && s.threads[u].InLock())
  }

  predicate Inv(s: State) {
    && ShapeOk(s)
    && (forall h | 0 <= h < |s.tables| :: Pow2(s.tables[h].capacity))
    && (forall g, h | 0 <= g < h < |s.tables| :: 2 * s.tables[g].capacity <= s.tables[h].capacity)
    && (forall h, slot | 0 <= h < |s.tables| && 0 <= slot < s.tables[h].capacity :: KeyOk(s, h, slot))
    && (forall t | 0 <= t < |s.threads| :: ThreadOk(s, t))
    && (forall t, u | 0 <= t < |s.threads| && 0 <= u < |s.threads| && t != u :: Apart(s, t, u))
  }

  // ---------------------------------------------------------------- steps that write no table

  lemma PlainThread(s: State, s': State, t: nat, u: nat)
    requires Inv(s) && t < |s.threads| == |s'.threads| && u < |s.threads| && u != t
    requires s' == Goto(s, t, s'.threads[t]).(locked := s'.locked)
    requires s.threads[u].InLock() ==> s'.locked
    ensures ThreadOk(s', u)
  {
    assert ThreadOk(s, u);
  }

  lemma PlainKey(s: State, s': State, t: nat, h: nat, slot: nat)
    requires Inv(s) && t < |s.threads| == |s'.threads| && h < |s.tables| && slot < s.tables[h].capacity
    requires s' == Goto(s, t, s'.threads[t]).(locked := s'.locked)
    requires !s.threads[t].Setting()
    ensures KeyOk(s', h, slot)
  {
    assert KeyOk(s, h, slot);
  }

  /** A step that writes no table and draws no number keeps the invariant if its own thread is fine. */
  lemma PlainStep(s: State, s': State, t: nat)
    requires Inv(s) && t < |s.threads| == |s'.threads|
    requires s' == Goto(s, t, s'.threads[t]).(locked := s'.locked)
    requires !s.threads[t].Setting() && ThreadOk(s', t)
    requires s'.threads[t].InLock() ==> !s.locked || s.threads[t].InLock()
    requires s.locked && !s'.locked ==> s.threads[t].InLock()
    ensures Inv(s')
  {
    forall u | 0 <= u < |s'.threads| ensures ThreadOk(s', u) {
      if u != t {
        assert ThreadOk(s, u);
        assert Apart(s, u, t);
        PlainThread(s, s', t, u);
      }
    }
    forall h, slot | 0 <= h < |s'.tables| && 0 <= slot < s'.tables[h].capacity ensures KeyOk(s', h, slot) {
      PlainKey(s, s', t, h, slot);
    }
    hide KeyOk;
    forall u, v | 0 <= u < |s'.threads| && 0 <= v < |s'.threads| && u != v ensures Apart(s', u, v) {
      assert Apart(s, u, v);
      assert ThreadOk(s, u) && ThreadOk(s, v);
    }
  }

  // ---------------------------------------------------------------- searching

  /** A probe that meets an empty slot without having met the thread's key proves it absent. */
  lemma MissMeansAbsent(s: State, t: nat, h: nat, j: nat)
    requires Inv(s) && t < |s.threads| && h < |s.tables|
    requires forall i: nat | i < j :: s.tables[h].keys[Slot(s.tables[h], s.hash[t], i)] != Tid(t)
    requires s.tables[h].keys[Slot(s.tables[h], s.hash[t], j)] == Empty
    ensures Tid(t) !in s.tables[h].keys
  {
    var tb := s.tables[h];
    forall q | 0 <= q < tb.capacity ensures tb.keys[q] != Tid(t) {
      assert KeyOk(s, h, q);
      if Reachable(tb, s.hash[t], q) {
        var d: nat :| d < tb.capacity && Slot(tb, s.hash[t], d) == q && Taken(tb, s.hash[t], d);
        assert d <= j;
      }
    }
  }

  lemma SearchStep(s: State, t: nat)
    requires Inv(s) && t < |s.threads| && s.threads[t].Search? && PcShape(s, s.threads[t])
    ensures Inv(Exec(s, t))
  {
    var s' := Exec(s, t);
    var Search(main, h, j) := s.threads[t];
    assert ThreadOk(s, t);
    var tb := s.tables[h];
    var slot := Slot(tb, s.hash[t], j);
    if tb.keys[slot] == Empty {
      MissMeansAbsent(s, t, h, j);
      assert AbsentFrom(s, t, h);
    }
    assert ThreadOk(s', t);
    hide Inv;
    PlainStep(s, s', t);
  }

  lemma FoundStep(s: State, t: nat)
    requires Inv(s) && t < |s.threads| && s.threads[t].Found? && PcShape(s, s.threads[t])
    ensures Inv(Exec(s, t))
  {
    var s' := Exec(s, t);
    var Found(main, h, slot) := s.threads[t];
    assert ThreadOk(s, t);
    assert KeyOk(s, h, slot);
    assert h < main ==> 2 * s.tables[h].capacity <= s.tables[main].capacity;
    assert ThreadOk(s', t);
    hide Inv;
    PlainStep(s, s', t);
  }

  /** The other steps that write no table. */
  lemma LoadSteps(s: State, t: nat)
    requires Inv(s) && t < |s.threads| && PcShape(s, s.threads[t])
    requires var pc := s.threads[t]; pc.Start? || pc.Room? || pc.Again? || pc.Done?
    ensures Inv(Exec(s, t))
  {
    var s' := Exec(s, t);
    assert ThreadOk(s, t);
    assert ThreadOk(s', t);
    assert ShapeOk(s);
    hide Inv;
    PlainStep(s, s', t);
  }

  lemma LockSteps(s: State, t: nat)
    requires Inv(s) && t < |s.threads| && PcShape(s, s.threads[t])
    requires var pc := s.threads[t]; pc.Reload? || pc.Unlock? || pc.TryLock?
    ensures Inv(Exec(s, t))
  {
    var s' := Exec(s, t);
    assert ThreadOk(s, t);
    assert ThreadOk(s', t);
    assert ShapeOk(s);
    hide Inv;
    PlainStep(s, s', t);
  }

  lemma PlacingSteps(s: State, t: nat)
    requires Inv(s) && t < |s.threads| && PcShape(s, s.threads[t]) && s.threads[t].Placing()
    requires var pc := s.threads[t];
             pc.Copy? || pc.Insert?
             || s.tables[pc.main].keys[Slot(s.tables[pc.main], s.hash[t], pc.j)] != Empty
    ensures Inv(Exec(s, t))
  {
    var s' := Exec(s, t);
    assert ThreadOk(s, t);
    assert ThreadOk(s', t);
    hide Inv;
    PlainStep(s, s', t);
  }

  lemma CallStep(s: State, t: nat)
    requires Inv(s) && t < |s.threads| && s.threads[t].Idle?
    ensures Inv(Goto(s, t, Start))
  {
    assert ThreadOk(s, t);
    PlainStep(s, Goto(s, t, Start), t);
  }

  // ---------------------------------------------------------------- what other threads notice

  /** Tables are only added, free slots are only filled, and not with the key of thread `u`. */
  predicate TablesGrow(s: State, s': State, u: nat)
    requires ShapeOk(s) && ShapeOk(s')
  {
    && |s.tables| <= |s'.tables|
    && (forall g | 0 <= g < |s.tables| :: s'.tables[g].capacity == s.tables[g].capacity)
    && (forall g, q | 0 <= g < |s.tables| && 0 <= q < s.tables[g].capacity && s.tables[g].keys[q] != Empty ::
          s'.tables[g].keys[q] == s.tables[g].keys[q])
    && (forall g, q | 0 <= g < |s'.tables| && 0 <= q < s'.tables[g].capacity && s'.tables[g].keys[q] == Tid(u) ::
          g < |s.tables| && s.tables[g].keys[q] == Tid(u))
  }

  lemma TakenGrows(tb: Table, tb': Table, hash: nat, j: nat)
    requires TableShape(tb) && TableShape(tb') && tb'.capacity == tb.capacity && Taken(tb, hash, j)
    requires forall q | 0 <= q < tb.capacity && tb.keys[q] != Empty :: tb'.keys[q] == tb.keys[q]
    ensures Taken(tb', hash, j)
    ensures forall i: nat | i < j :: tb'.keys[Slot(tb', hash, i)] == tb.keys[Slot(tb, hash, i)]
  {
    forall i: nat | i < j ensures tb'.keys[Slot(tb', hash, i)] == tb.keys[Slot(tb, hash, i)] != Empty {
      assert tb.keys[Slot(tb, hash, i)] != Empty;
    }
  }

  lemma PresenceGrows(s: State, s': State, u: nat)
    requires ShapeOk(s) && ShapeOk(s') && TablesGrow(s, s', u)
    ensures forall g: nat | AbsentFrom(s, u, g) :: AbsentFrom(s', u, g)
    ensures Present(s, u) ==> Present(s', u)
  {
    if Present(s, u) {
      var g :| 0 <= g < |s.tables| && Tid(u) in s.tables[g].keys;
      var q :| 0 <= q < |s.tables[g].keys| && s.tables[g].keys[q] == Tid(u);
      assert s'.tables[g].keys[q] == Tid(u);
    }
    forall g: nat | AbsentFrom(s, u, g) ensures AbsentFrom(s', u, g) {
      forall k | g <= k < |s'.tables| ensures Tid(u) !in s'.tables[k].keys {
        if k < |s.tables| { assert Tid(u) !in s.tables[k].keys; }
      }
    }
  }

  /** A thread that does not move keeps everything it relies on. */
  lemma ThreadTransfers(s: State, s': State, u: nat)
    requires ShapeOk(s) && ShapeOk(s') && u < |s.threads| == |s'.threads| && ThreadOk(s, u)
    requires TablesGrow(s, s', u)
    requires s'.threads[u] == s.threads[u] && s'.hash == s.hash
    requires s'.joined[u] == s.joined[u] && s'.mine[u] == s.mine[u] && s.count <= s'.count && s.made <= s'.made
    requires s'.locked == s.locked && (s.threads[u].Publish? ==> |s'.tables| == |s.tables|)
    ensures ThreadOk(s', u)
  {
    var pc := s.threads[u];
    PresenceGrows(s, s', u);
    if pc.Search? { TakenGrows(s.tables[pc.h], s'.tables[pc.h], s.hash[u], pc.j); }
    if pc.Placing() { TakenGrows(s.tables[pc.main], s'.tables[pc.main], s.hash[u], pc.j); }
    hide Present, AbsentFrom, Taken;
  }

  // ---------------------------------------------------------------- drawing a number, making a producer

  lemma NumberKeys(s: State, s': State, t: nat, h: nat, slot: nat)
    requires Inv(s) && t < |s.threads| == |s'.threads| && h < |s.tables| && slot < s.tables[h].capacity
    requires ShapeOk(s') && AbsentFrom(s, t, 0)
    requires s' == Goto(s, t, s'.threads[t]).(count := s'.count, made := s'.made, joined := s'.joined, mine := s'.mine)
    requires s'.joined == s.joined[t := s'.joined[t]] && s'.mine == s.mine[t := s'.mine[t]]
    ensures KeyOk(s', h, slot)
  {
    assert KeyOk(s, h, slot);
    assert s.tables[h].keys[slot] in s.tables[h].keys;
  }

  lemma NumberThread(s: State, t: nat, u: nat)
    requires Inv(s) && t < |s.threads| && PcShape(s, s.threads[t]) && (s.threads[t].Join? || s.threads[t].Create?)
    requires u < |s.threads|
    ensures ThreadOk(Exec(s, t), u)
  {
    assert ThreadOk(s, t) && ThreadOk(s, u);
    assert ShapeOk(s);
    hide Inv;
    if u != t {
      ThreadTransfers(s, Exec(s, t), u);
    } else {
      hide Present;
    }
  }

  lemma NumberApart(s: State, t: nat, u: nat, v: nat)
    requires Inv(s) && t < |s.threads| && PcShape(s, s.threads[t]) && (s.threads[t].Join? || s.threads[t].Create?)
    requires u < |s.threads| && v < |s.threads| && u != v
    ensures Apart(Exec(s, t), u, v)
  {
    assert ThreadOk(s, u) && ThreadOk(s, v) && Apart(s, u, v);
    hide Inv;
  }

  /** A step that draws a fresh count, or makes a fresh producer, for its own thread. */
  lemma NumberStep(s: State, t: nat)
    requires Inv(s) && t < |s.threads| && PcShape(s, s.threads[t]) && (s.threads[t].Join? || s.threads[t].Create?)
    ensures Inv(Exec(s, t))
  {
    var s' := Exec(s, t);
    assert ThreadOk(s, t);
    forall h, slot | 0 <= h < |s'.tables| && 0 <= slot < s'.tables[h].capacity ensures KeyOk(s', h, slot) {
      NumberKeys(s, s', t, h, slot);
    }
    forall u | 0 <= u < |s'.threads| ensures ThreadOk(s', u) { NumberThread(s, t, u); }
    forall u, v | 0 <= u < |s'.threads| && 0 <= v < |s'.threads| && u != v ensures Apart(s', u, v) {
      NumberApart(s, t, u, v);
    }
    hide KeyOk, ThreadOk, Apart;
  }

  // ---------------------------------------------------------------- publishing a larger table

  lemma EmptyTableHasNone(capacity: nat, t: nat)
    ensures Tid(t) !in EmptyTable(capacity).keys
  {
  }

  lemma PublishThread(s: State, t: nat, u: nat)
    requires Inv(s) && t < |s.threads| && PcShape(s, s.threads[t]) && s.threads[t].Publish?
    requires u < |s.threads|
    ensures ShapeOk(Exec(s, t)) && ThreadOk(Exec(s, t), u)
  {
    var s' := Exec(s, t);
    assert ThreadOk(s, t) && ThreadOk(s, u);
    assert u != t ==> Apart(s, u, t);
    assert ShapeOk(s) && ShapeOk(s');
    hide Inv;
    if u != t {
      ThreadTransfers(s, s', u);
    } else {
      EmptyTableHasNone(s'.tables[|s.tables|].capacity, t);
    }
  }

  lemma PublishKey(s: State, t: nat, h: nat, slot: nat)
    requires Inv(s) && t < |s.threads| && PcShape(s, s.threads[t]) && s.threads[t].Publish?
    requires ShapeOk(Exec(s, t)) && h < |Exec(s, t).tables| && slot < Exec(s, t).tables[h].capacity
    ensures KeyOk(Exec(s, t), h, slot)
  {
    if h < |s.tables| { assert KeyOk(s, h, slot); }
  }

  lemma PublishStep(s: State, t: nat)
    requires Inv(s) && t < |s.threads| && PcShape(s, s.threads[t]) && s.threads[t].Publish?
    ensures Inv(Exec(s, t))
  {
    var s' := Exec(s, t);
    assert ThreadOk(s, t);
    PublishThread(s, t, t);
    forall h, slot | 0 <= h < |s'.tables| && 0 <= slot < s'.tables[h].capacity ensures KeyOk(s', h, slot) {
      PublishKey(s, t, h, slot);
    }
    forall u | 0 <= u < |s'.threads| ensures ThreadOk(s', u) { PublishThread(s, t, u); }
    forall u, v | 0 <= u < |s'.threads| && 0 <= v < |s'.threads| && u != v ensures Apart(s', u, v) {
      assert Apart(s, u, v);
    }
    hide KeyOk, ThreadOk, Apart;
  }

  // ---------------------------------------------------------------- how full a table gets

  function Below(size: nat): (r: set<nat>)
    ensures |r| == size && forall n: nat :: n in r <==> n < size
  {
    if size == 0 then {} else Below(size - 1) + {size - 1}
  }

  lemma {:induction false} SubsetCount(a: set<nat>, b: set<nat>)
    requires a <= b
    ensures |a| <= |b|
  {
    if a != {} {
      var x :| x in a;
      SubsetCount(a - {x}, b - {x});
    }
  }

  function Elements(xs: seq<nat>): set<nat> { set x | x in xs }

  lemma {:induction false} DistinctCount(xs: seq<nat>)
    requires forall i, j | 0 <= i < j < |xs| :: xs[i] != xs[j]
    ensures |Elements(xs)| == |xs|
  {
    if xs != [] {
      DistinctCount(xs[1..]);
      assert xs[0] !in Elements(xs[1..]);
      assert Elements(xs) == {xs[0]} + Elements(xs[1..]);
    }
  }

  lemma Pigeonhole(xs: seq<nat>, q: nat)
    requires forall i, j | 0 <= i < j < |xs| :: xs[i] != xs[j]
    requires forall i | 0 <= i < |xs| :: 1 <= xs[i] < q
    ensures xs == [] || |xs| < q
  {
    DistinctCount(xs);
    if xs != [] {
      assert 1 <= xs[0] < q;
      SubsetCount(Elements(xs), Below(q) - {0});
    }
  }

  /** The count that the owner of a taken slot has drawn. */
  function CountAt(s: State, h: nat, slot: nat): nat
    requires Inv(s) && h < |s.tables| && slot < s.tables[h].capacity && s.tables[h].keys[slot] != Empty
  {
    assert KeyOk(s, h, slot);
    s.joined[s.tables[h].keys[slot].id].value
  }

  lemma CountsDiffer(s: State, h: nat, p: nat, q: nat)
    requires Inv(s) && h < |s.tables| && p < s.tables[h].capacity && q < s.tables[h].capacity && p != q
    requires s.tables[h].keys[p] != Empty && s.tables[h].keys[q] != Empty
    ensures CountAt(s, h, p) != CountAt(s, h, q)
    ensures 1 <= CountAt(s, h, p) < Quota(s.tables[h].capacity)
  {
    assert KeyOk(s, h, p) && KeyOk(s, h, q);
    var t, u := s.tables[h].keys[p].id, s.tables[h].keys[q].id;
    assert t != u;
    assert ThreadOk(s, t) && Apart(s, t, u);
    hide Inv;
  }

  lemma CountInRange(s: State, h: nat, p: nat)
    requires Inv(s) && h < |s.tables| && p < s.tables[h].capacity && s.tables[h].keys[p] != Empty
    ensures 1 <= CountAt(s, h, p) < Quota(s.tables[h].capacity)
  {
    assert KeyOk(s, h, p);
    assert ThreadOk(s, s.tables[h].keys[p].id);
    hide Inv;
  }

  /** Distinct taken slots belong to threads with distinct counts, all below the quota: even the lazily
      copied keys cannot fill a table. */
  lemma TakenSlotsAreFew(s: State, h: nat, slots: seq<nat>)
    requires Inv(s) && h < |s.tables|
    requires forall i | 0 <= i < |slots| :: slots[i] < s.tables[h].capacity && s.tables[h].keys[slots[i]] != Empty
    requires forall i, j | 0 <= i < j < |slots| :: slots[i] != slots[j]
    ensures slots == [] || |slots| < Quota(s.tables[h].capacity)
  {
    var counts := seq(|slots|, i requires 0 <= i < |slots| => CountAt(s, h, slots[i]));
    forall i | 0 <= i < |counts| ensures 1 <= counts[i] < Quota(s.tables[h].capacity) {
      CountInRange(s, h, slots[i]);
    }
    forall i, j | 0 <= i < j < |counts| ensures counts[i] != counts[j] {
      CountsDiffer(s, h, slots[i], slots[j]);
    }
    hide Inv, CountAt;
    Pigeonhole(counts, Quota(s.tables[h].capacity));
  }

  /** The taken slots of a table. */
  function Occupied(keys: seq<Key>): (r: seq<nat>)
    ensures forall i | 0 <= i < |r| :: r[i] < |keys| && keys[r[i]] != Empty
    ensures forall i, j | 0 <= i < j < |r| :: r[i] != r[j]
    ensures forall q: nat | q < |keys| && keys[q] != Empty :: q in r
  {
    if keys == [] then []
    else
      var n := |keys| - 1;
      Occupied(keys[..n]) + (if keys[n] != Empty then [n] else [])
  }

  /** Every table of the chain, the old ones included, always has fewer keys than three quarters of its
      capacity, so it always has a free slot. */
  lemma TableNeverFills(s: State, h: nat)
    requires Inv(s) && h < |s.tables|
    ensures var n := |Occupied(s.tables[h].keys)|; n == 0 || n < Quota(s.tables[h].capacity)
    ensures |Occupied(s.tables[h].keys)| < s.tables[h].capacity
  {
    TakenSlotsAreFew(s, h, Occupied(s.tables[h].keys));
  }

  /** Every probe loop ends: after fewer probes than the quota it has met a free slot. */
  lemma ProbesAreBounded(s: State, h: nat, hash: nat, j: nat)
    requires Inv(s) && h < |s.tables| && Taken(s.tables[h], hash, j)
    ensures j == 0 || j < Quota(s.tables[h].capacity)
    ensures j < s.tables[h].capacity
  {
    var tb := s.tables[h];
    var m := if j < tb.capacity then j else tb.capacity;
    var slots := seq(m, i requires 0 <= i < m => Slot(tb, hash, i));
    forall a, b | 0 <= a < b < m ensures slots[a] != slots[b] {
      if slots[a] == slots[b] { SlotsDistinct(b, a, hash, tb.capacity); }
    }
    TakenSlotsAreFew(s, h, slots);
  }

  // ---------------------------------------------------------------- taking a slot

  /** The successful CAS of an empty key, after `j` probes of taken slots. */
  lemma CasKey(s: State, t: nat, h: nat, q: nat)
    requires Inv(s) && t < |s.threads| && PcShape(s, s.threads[t]) && (s.threads[t].CopyCas? || s.threads[t].InsertCas?)
    requires var pc := s.threads[t]; s.tables[pc.main].keys[Slot(s.tables[pc.main], s.hash[t], pc.j)] == Empty
    requires h < |s.tables| && q < s.tables[h].capacity
    requires s.threads[t].j < s.tables[s.threads[t].main].capacity
    ensures ShapeOk(Exec(s, t)) && KeyOk(Exec(s, t), h, q)
  {
    var s', pc := Exec(s, t), s.threads[t];
    var tb, tb' := s.tables[h], s'.tables[h];
    assert ThreadOk(s, t) && KeyOk(s, h, q);
    assert tb.keys[q] in tb.keys;
    hide Inv;
    if h == pc.main {
      var slot := Slot(tb, s.hash[t], pc.j);
      assert tb'.keys == tb.keys[slot := Tid(t)];
      forall hh, d | Taken(tb, hh, d) ensures Taken(tb', hh, d) {
        forall i: nat | i < d ensures tb'.keys[Slot(tb', hh, i)] != Empty { assert tb.keys[Slot(tb, hh, i)] != Empty; }
      }
      if q == slot {
        assert Taken(tb', s.hash[t], pc.j);
        assert Reachable(tb', s.hash[t], slot);
      }
    }
  }

  lemma CasThread(s: State, t: nat, u: nat)
    requires Inv(s) && t < |s.threads| && PcShape(s, s.threads[t]) && (s.threads[t].CopyCas? || s.threads[t].InsertCas?)
    requires var pc := s.threads[t]; s.tables[pc.main].keys[Slot(s.tables[pc.main], s.hash[t], pc.j)] == Empty
    requires u < |s.threads| && ShapeOk(Exec(s, t))
    ensures ThreadOk(Exec(s, t), u)
  {
    var s', pc := Exec(s, t), s.threads[t];
    var slot := Slot(s.tables[pc.main], s.hash[t], pc.j);
    assert ThreadOk(s, t) && ThreadOk(s, u);
    assert s' == Goto(WithKey(s, pc.main, slot, Tid(t)), t, s'.threads[t]);
    hide Inv;
    if u != t {
      ThreadTransfers(s, s', u);
    } else {
      assert s'.tables[pc.main].keys[slot] == Tid(t);
      assert Tid(t) in s'.tables[pc.main].keys;
      assert Present(s', t);
      hide AbsentFrom, Taken;
    }
  }

  lemma CasStep(s: State, t: nat)
    requires Inv(s) && t < |s.threads| && PcShape(s, s.threads[t]) && (s.threads[t].CopyCas? || s.threads[t].InsertCas?)
    requires var pc := s.threads[t]; s.tables[pc.main].keys[Slot(s.tables[pc.main], s.hash[t], pc.j)] == Empty
    ensures Inv(Exec(s, t))
  {
    var s', pc := Exec(s, t), s.threads[t];
    assert ThreadOk(s, t);
    ProbesAreBounded(s, pc.main, s.hash[t], pc.j);
    CasKey(s, t, 0, 0);
    forall h, q | 0 <= h < |s'.tables| && 0 <= q < s'.tables[h].capacity ensures KeyOk(s', h, q) {
      CasKey(s, t, h, q);
    }
    forall u | 0 <= u < |s'.threads| ensures ThreadOk(s', u) { CasThread(s, t, u); }
    forall u, v | 0 <= u < |s'.threads| && 0 <= v < |s'.threads| && u != v ensures Apart(s', u, v) {
      assert Apart(s, u, v);
    }
    hide KeyOk, ThreadOk, Apart;
  }

  // ---------------------------------------------------------------- storing the value

  lemma ValueKey(s: State, t: nat, h: nat, q: nat)
    requires Inv(s) && t < |s.threads| && PcShape(s, s.threads[t]) && s.threads[t].Setting()
    requires h < |s.tables| && q < s.tables[h].capacity
    ensures ShapeOk(Exec(s, t)) && KeyOk(Exec(s, t), h, q)
  {
    var s', pc := Exec(s, t), s.threads[t];
    var tb, tb' := s.tables[h], s'.tables[h];
    assert ThreadOk(s, t) && KeyOk(s, h, q);
    hide Inv;
    assert tb'.keys == tb.keys && tb'.capacity == tb.capacity;
    forall hh, d | Taken(tb, hh, d) ensures Taken(tb', hh, d) {
      forall i: nat | i < d ensures tb'.keys[Slot(tb', hh, i)] != Empty { assert tb.keys[Slot(tb, hh, i)] != Empty; }
    }
    if tb.keys[q].Tid? {
      var hh := s.hash[tb.keys[q].id];
      var d: nat :| d < tb.capacity && Slot(tb, hh, d) == q && Taken(tb, hh, d);
      assert Slot(tb', hh, d) == q && Taken(tb', hh, d);
    }
  }

  lemma ValueThread(s: State, t: nat, u: nat)
    requires Inv(s) && t < |s.threads| && PcShape(s, s.threads[t]) && s.threads[t].Setting()
    requires u < |s.threads| && ShapeOk(Exec(s, t))
    ensures ThreadOk(Exec(s, t), u)
  {
    var s', pc := Exec(s, t), s.threads[t];
    assert ThreadOk(s, t) && ThreadOk(s, u);
    hide Inv;
    if u != t {
      ThreadTransfers(s, s', u);
    } else {
      assert s'.tables[pc.main].keys[pc.slot] == Tid(t);
      assert Tid(t) in s'.tables[pc.main].keys;
      assert Present(s', t);
      hide AbsentFrom, Taken;
    }
  }

  lemma ValueStep(s: State, t: nat)
    requires Inv(s) && t < |s.threads| && PcShape(s, s.threads[t]) && s.threads[t].Setting()
    ensures Inv(Exec(s, t))
  {
    var s' := Exec(s, t);
    ValueKey(s, t, 0, 0);
    forall h, q | 0 <= h < |s'.tables| && 0 <= q < s'.tables[h].capacity ensures KeyOk(s', h, q) {
      ValueKey(s, t, h, q);
    }
    forall u | 0 <= u < |s'.threads| ensures ThreadOk(s', u) { ValueThread(s, t, u); }
    forall u, v | 0 <= u < |s'.threads| && 0 <= v < |s'.threads| && u != v ensures Apart(s', u, v) {
      assert Apart(s, u, v);
    }
    hide KeyOk, ThreadOk, Apart;
  }

  lemma NextKeepsInv(s: State, e: Event)
    requires Inv(s) && Enabled(s, e)
    ensures Inv(Next(s, e))
  {
    if e.Call? {
      CallStep(s, e.t);
    } else {
      var t, pc := e.t, s.threads[e.t];
      hide Inv;
      match pc
      case Search(_, _, _) => SearchStep(s, t);
      case Found(_, _, _) => FoundStep(s, t);
      case Join(_) => NumberStep(s, t);
      case Create(_, _) => NumberStep(s, t);
      case Publish(_, _) => PublishStep(s, t);
      case CopySet(_, _, _) => ValueStep(s, t);
      case InsertSet(_, _, _) => ValueStep(s, t);
      case Copy(_, _, _) => PlacingSteps(s, t);
      case Insert(_, _, _) => PlacingSteps(s, t);
      case CopyCas(main, _, j) => if s.tables[main].keys[Slot(s.tables[main], s.hash[t], j)] == Empty { CasStep(s, t); } else { PlacingSteps(s, t); }
      case InsertCas(main, _, j) => if s.tables[main].keys[Slot(s.tables[main], s.hash[t], j)] == Empty { CasStep(s, t); } else { PlacingSteps(s, t); }
      case TryLock(_, _) => LockSteps(s, t);
      case Reload(_) => LockSteps(s, t);
      case Unlock(_, _) => LockSteps(s, t);
      case _ => LoadSteps(s, t);
    }
  }

  // ---------------------------------------------------------------- runs

  lemma InitInv(s: State)
    requires Init(s)
    ensures Inv(s)
  {
    assert forall t | 0 <= t < |s.threads| :: !Present(s, t) && ThreadOk(s, t);
  }

  predicate Follows(s: State, e: Event, s': State) { ShapeOk(s) && Enabled(s, e) && s' == Next(s, e) }

  predicate IsRun(states: seq<State>, events: seq<Event>) {
    && |states| == |events| + 1
    && Init(states[0])
    && forall i | 0 <= i < |events| :: Follows(states[i], events[i], states[i + 1])
  }

  lemma FollowsKeepsInv(s: State, e: Event, s': State)
    requires Inv(s) && Follows(s, e, s')
    ensures Inv(s')
  {
    hide Inv;
    NextKeepsInv(s, e);
  }

  /** The invariant holds throughout every run of any number of threads. */
  lemma {:induction false} RunInv(states: seq<State>, events: seq<Event>, i: nat)
    requires IsRun(states, events) && i <= |events|
    ensures Inv(states[i])
    decreases i
  {
    hide Inv, Init, Follows;
    if i == 0 {
      InitInv(states[0]);
    } else {
      RunInv(states, events, i - 1);
      FollowsKeepsInv(states[i - 1], events[i - 1], states[i - 1 + 1]);
    }
  }

  /** The call that returns producer `p` to thread `t`. */
  predicate Returns(s: State, e: Event, t: nat, p: nat) {
    e == Step(t) && t < |s.threads| && s.threads[t] == Done(p)
  }

  lemma MineStays(s: State, e: Event, s': State, t: nat)
    requires Inv(s) && Follows(s, e, s') && t < |s.mine| && s.mine[t].Some?
    ensures t < |s'.mine| && s'.mine[t] == s.mine[t]
  {
    assert ThreadOk(s, e.t);
    hide KeyOk, Apart;
  }

  lemma {:induction false} MineStaysOn(states: seq<State>, events: seq<Event>, t: nat, i: nat, j: nat)
    requires IsRun(states, events) && i <= j <= |events|
    requires t < |states[i].mine| && states[i].mine[t].Some?
    ensures t < |states[j].mine| && states[j].mine[t] == states[i].mine[t]
    decreases j - i
  {
    hide Inv, Init, Follows;
    if i < j {
      MineStaysOn(states, events, t, i, j - 1);
      RunInv(states, events, j - 1);
      MineStays(states[j - 1], events[j - 1], states[j - 1 + 1], t);
    }
  }

  lemma ReturnsMine(s: State, e: Event, t: nat, p: nat)
    requires Inv(s) && Returns(s, e, t, p)
    ensures t < |s.mine| && s.mine[t] == Some(p)
  {
    assert ThreadOk(s, t);
  }

  /** Over any run, however the table has been resized in between, a thread gets the same producer from
      every call, and two threads never get the same one. */
  lemma ProducersAreOwned(
      states: seq<State>, events: seq<Event>, t: nat, u: nat, p: nat, q: nat, i: nat, j: nat)
    requires IsRun(states, events) && i <= j < |events|
    requires Returns(states[i], events[i], t, p) && Returns(states[j], events[j], u, q)
    ensures p == q <==> t == u
  {
    RunInv(states, events, i);
    RunInv(states, events, j);
    ReturnsMine(states[i], events[i], t, p);
    ReturnsMine(states[j], events[j], u, q);
    MineStaysOn(states, events, t, i, j);
    hide Init, Follows;
    if t != u { assert Apart(states[j], t, u); }
  }

  /** A thread draws a count, and with it room in the tables and a producer, only while it has none. */
  lemma JoinsOnce(s: State, t: nat)
    requires Inv(s) && t < |s.threads| && (s.threads[t].Join? || s.threads[t].Create?)
    ensures s.mine[t] == None && (s.threads[t].Join? ==> s.joined[t] == None)
    ensures forall h | 0 <= h < |s.tables| :: Tid(t) !in s.tables[h].keys
  {
    assert ThreadOk(s, t);
  }

  /** At most one thread at a time allocates a table, and it appends to the newest one. */
  lemma OneResizer(s: State, t: nat, u: nat)
    requires Inv(s) && t < |s.threads| && u < |s.threads|
    requires s.threads[t].Publish? && s.threads[u].InLock()
    ensures t == u && s.threads[t].main == |s.tables| - 1
  {
    assert ThreadOk(s, t);
    assert t != u ==> Apart(s, t, u);
  }

  // ---------------------------------------------------------------- a call comes to its end

  /** Thread t may go on alone: nobody else is resizing, and the table that it knows has room for it. */
  predicate Unhindered(s: State, t: nat)
    requires ShapeOk(s) && t < |s.threads| && PcShape(s, s.threads[t])
  {
    var pc := s.threads[t];
    && !pc.Idle? && !pc.Again?
    && (s.locked ==> pc.InLock())
    && (pc.Room? || pc.Unlock? ==> pc.n < Quota(s.tables[pc.main].capacity))
  }

  /** How far the call has come. */
  function Phase(pc: Pc): nat {
    match pc
    case Start => 13
    case Search(_, _, _) => 12
    case Join(_) => 11
    case TryLock(_, _) => 10
    case Again(_) => 9
    case Reload(_) => 8
    case Publish(_, _) => 7
    case Unlock(_, _) => 6
    case Room(_, _) => 5
    case Create(_, _) => 4
    case Found(_, _, _) => 3
    case Copy(_, _, _) => 2
    case CopyCas(_, _, _) => 2
    case Insert(_, _, _) => 2
    case InsertCas(_, _, _) => 2
    case CopySet(_, _, _) => 1
    case InsertSet(_, _, _) => 1
    case Done(_) => 0
    case Idle => 0
  }

  /** How many tables are still to be searched. */
  function TablesLeft(pc: Pc): nat { if pc.Search? then pc.h else 0 }

  /** How many probes of the table are left. */
  function ProbesLeft(s: State, pc: Pc): int
    requires PcShape(s, pc)
  {
    if pc.Search? then 2 * (s.tables[pc.h].capacity - pc.j)
    else if pc.Copy? || pc.Insert? then 2 * (s.tables[pc.main].capacity - pc.j) + 1
    else if pc.CopyCas? || pc.InsertCas? then 2 * (s.tables[pc.main].capacity - pc.j)
    else 0
  }

  lemma ProbesAreLeft(s: State, t: nat)
    requires Inv(s) && t < |s.threads|
    ensures PcShape(s, s.threads[t]) && ProbesLeft(s, s.threads[t]) >= 0
  {
    assert ThreadOk(s, t);
    var pc := s.threads[t];
    if pc.Search? { ProbesAreBounded(s, pc.h, s.hash[t], pc.j); }
    if pc.Placing() { ProbesAreBounded(s, pc.main, s.hash[t], pc.j); }
  }

  /** A later phase, an older table, or a further probe. */
  predicate Nearer(s: State, p: Pc, s': State, q: Pc)
    requires PcShape(s, p) && PcShape(s', q)
  {
    || Phase(q) < Phase(p)
    || (Phase(q) == Phase(p) && TablesLeft(q) < TablesLeft(p))
    || (Phase(q) == Phase(p) && TablesLeft(q) == TablesLeft(p) && ProbesLeft(s', q) < ProbesLeft(s, p))
  }

  /** The test of a table that is less than half full is passed. */
  lemma HalfIsRoom(n: nat, capacity: nat)
    requires n < capacity / 2
    ensures n < Quota(capacity)
  {
  }

  lemma StaysUnhindered(s: State, t: nat)
    requires ShapeOk(s) && t < |s.threads| && PcShape(s, s.threads[t]) && Unhindered(s, t) && !s.threads[t].Done?
    requires ShapeOk(Exec(s, t)) && |Exec(s, t).threads| == |s.threads| && PcShape(Exec(s, t), Exec(s, t).threads[t])
    ensures Unhindered(Exec(s, t), t)
  {
    var s', pc := Exec(s, t), s.threads[t];
    if pc.Publish? {
      var r := NewCapacity(s.tables[pc.main].capacity, pc.n);
      HalfIsRoom(pc.n, r);
      assert s'.tables[|s.tables|] == EmptyTable(r);
    } else if pc.Reload? {
      var tb := s.tables[|s.tables| - 1];
      if pc.n < tb.capacity / 2 { HalfIsRoom(pc.n, tb.capacity); }
    } else if pc.TryLock? {
      if pc.n < s.tables[pc.main].capacity / 2 { HalfIsRoom(pc.n, s.tables[pc.main].capacity); }
    }
    hide ShapeOk, Quota, NewCapacity;
  }

  lemma NextPhase(s: State, t: nat)
    requires ShapeOk(s) && t < |s.threads| && PcShape(s, s.threads[t]) && Unhindered(s, t)
    requires ShapeOk(Exec(s, t)) && |Exec(s, t).threads| == |s.threads| && PcShape(Exec(s, t), Exec(s, t).threads[t])
    requires var pc := s.threads[t]; !pc.Done? && !pc.Search? && !pc.Placing()
    ensures Nearer(s, s.threads[t], Exec(s, t), Exec(s, t).threads[t])
  {
    hide ShapeOk, Quota, NewCapacity;
    assert Phase(Exec(s, t).threads[t]) < Phase(s.threads[t]);
  }

  lemma NextProbe(s: State, t: nat)
    requires ShapeOk(s) && t < |s.threads| && PcShape(s, s.threads[t])
    requires ShapeOk(Exec(s, t)) && |Exec(s, t).threads| == |s.threads| && PcShape(Exec(s, t), Exec(s, t).threads[t])
    requires s.threads[t].Search? || s.threads[t].Placing()
    ensures Nearer(s, s.threads[t], Exec(s, t), Exec(s, t).threads[t])
  {
    hide Quota, NewCapacity;
    var s' := Exec(s, t);
    var pc, pc' := s.threads[t], s'.threads[t];
    assert Phase(pc') == Phase(pc) ==> pc.main == pc'.main && forall h | 0 <= h < |s.tables| :: s'.tables[h] == s.tables[h];
    hide ShapeOk, PcShape;
  }

  lemma StepComesNearer(s: State, t: nat)
    requires ShapeOk(s) && t < |s.threads| && PcShape(s, s.threads[t]) && Unhindered(s, t) && !s.threads[t].Done?
    requires ShapeOk(Exec(s, t)) && |Exec(s, t).threads| == |s.threads| && PcShape(Exec(s, t), Exec(s, t).threads[t])
    ensures Unhindered(Exec(s, t), t)
    ensures Nearer(s, s.threads[t], Exec(s, t), Exec(s, t).threads[t])
  {
    hide *;
    StaysUnhindered(s, t);
    if s.threads[t].Search? || s.threads[t].Placing() { NextProbe(s, t); } else { NextPhase(s, t); }
  }

  /** The states of one call of thread t, from its start until it is about to return, while nobody else moves. */
  predicate LoneCall(states: seq<State>, t: nat) {
    && |states| > 1
    && Follows(states[0], Call(t), states[1])
    && Steps(states[1..], t)
  }

  predicate Steps(states: seq<State>, t: nat) {
    && states != []
    && (forall i | 0 <= i < |states| - 1 :: Follows(states[i], Step(t), states[i + 1]))
    && t < |states[|states| - 1].threads| && states[|states| - 1].threads[t].Done?
  }

  lemma GoesOn(s: State, t: nat) returns (s': State)
    requires Inv(s) && ShapeOk(s) && t < |s.threads| && PcShape(s, s.threads[t])
    requires Unhindered(s, t) && !s.threads[t].Done?
    ensures Follows(s, Step(t), s') && Inv(s') && ShapeOk(s') && |s'.threads| == |s.threads|
    ensures PcShape(s', s'.threads[t]) && Unhindered(s', t) && Nearer(s, s.threads[t], s', s'.threads[t])
  {
    ProbesAreLeft(s, t);
    s' := Exec(s, t);
    hide Inv;
    NextKeepsInv(s, Step(t));
    assert |s'.threads| == |s.threads|;
    ProbesAreLeft(s', t);
    assert ShapeOk(s') by { InvShape(s'); }
    StepComesNearer(s, t);
  }

  lemma InvShape(s: State)
    requires Inv(s)
    ensures ShapeOk(s)
  {
  }

  lemma {:induction false} StepsEnd(s: State, t: nat) returns (states: seq<State>)
    requires Inv(s) && ShapeOk(s) && t < |s.threads| && PcShape(s, s.threads[t]) && Unhindered(s, t)
    ensures states != [] && states[0] == s && Steps(states, t)
    ensures Inv(states[|states| - 1]) && ShapeOk(states[|states| - 1])
    ensures s.mine[t].Some? ==> states[|states| - 1].mine[t] == s.mine[t]
    decreases Phase(s.threads[t]), TablesLeft(s.threads[t]), ProbesLeft(s, s.threads[t])
  {
    hide Inv, Unhindered, Next, Enabled, PcShape;
    if s.threads[t].Done? {
      states := [s];
    } else {
      ProbesAreLeft(s, t);
      var s' := GoesOn(s, t);
      if s.mine[t].Some? { MineStays(s, Step(t), s', t); }
      ProbesAreLeft(s', t);
      var rest := StepsEnd(s', t);
      states := [s] + rest;
    }
  }

  /** A call that nobody disturbs ends, whatever the tables and however far their keys have been copied, if no other
      thread holds the resize lock: it returns the thread's producer, the one it has had from earlier calls if there
      were any. */
  lemma LoneCallReturns(s: State, t: nat) returns (states: seq<State>, p: nat)
    requires Inv(s) && t < |s.threads| && s.threads[t].Idle? && !s.locked
    ensures states != [] && states[0] == s && LoneCall(states, t)
    ensures Returns(states[|states| - 1], Step(t), t, p)
    ensures t < |s.mine| && (s.mine[t].Some? ==> p == s.mine[t].value)
    ensures t < |states[|states| - 1].mine| && states[|states| - 1].mine[t] == Some(p)
  {
    InvShape(s);
    var s' := Next(s, Call(t));
    NextKeepsInv(s, Call(t));
    InvShape(s');
    hide Inv;
    var rest := StepsEnd(s', t);
    states := [s] + rest;
    assert states[1..] == rest;
    var last := rest[|rest| - 1];
    p := last.threads[t].p;
    ReturnsMine(last, Step(t), t, p);
  }
}
