// The reference-counted, compare-and-swap free list of recycled blocks.
//
// Any number of threads run `add` and `try_get`. Every access to a shared atomic is one step, so the
// steps of different threads interleave freely; memory is sequentially consistent. The reference
// counts are 32-bit words whose top bit is the should-be-on-freelist flag.
module FreeList {

  const WORD: nat := 0x1_0000_0000
  const SHOULD_BE_ON_FREELIST: nat := 0x8000_0000

  type Node = nat

  datatype Link = Nil | At(node: Node)

  /** Where `add_knowing_refcount_is_zero` goes back to: out of `add`, or into the loop of `try_get`. */
  datatype Caller = FromAdd | FromTryGet(head: Link)

  /** What a thread does next. The parameters are the locals that are live at that point. */
  datatype Pc =
    | Idle
    | AddRef(n: Node)                               // add: fetch_add of the flag
    | PushLoad(n: Node, ret: Caller)                // add_knowing_refcount_is_zero: load of the head
    | PushNext(n: Node, head: Link, ret: Caller)    //   store of the next pointer
    | PushRefs(n: Node, head: Link, ret: Caller)    //   store of reference count 1
    | PushCas(n: Node, head: Link, ret: Caller)     //   CAS of the head
    | PushFail(n: Node, head: Link, ret: Caller)    //   fetch_add of the flag minus one
    | GetLoad                                       // try_get: load of the head
    | GetRefs(n: Node)                              //   load of the reference count
    | GetInc(n: Node, seen: nat)                    //   CAS that increments it
    | GetNext(n: Node)                              //   load of the next pointer
    | GetCas(n: Node, next: Link)                   //   CAS of the head
    | GetTaken(n: Node)                             //   the assert, and fetch_sub of 2
    | GetDrop(n: Node, head: Link)                  //   fetch_sub of 1
  {
    /** The thread holds one counted reference to `n`. */
    predicate Holds(m: Node) {
      (GetNext? || GetCas? || GetTaken? || GetDrop?) && n == m
    }

    predicate IsMover() {
      AddRef? || PushLoad? || PushNext? || PushRefs? || PushCas? || PushFail? || GetTaken?
    }

    /** The thread alone decides what happens to `m` next. */
    predicate Moves(m: Node) {
      IsMover() && n == m
    }
  }

  /** Bookkeeping: who is responsible for a node. */
  datatype Place = Owned | Listed | Pending | Moving(thread: nat)

  /** `head`, `next` and `refs` are the shared atomics; `place` and `list` are bookkeeping only: no
      step of a thread looks at them. */
  datatype State = State(
    head: Link,
    next: seq<Link>,
    refs: seq<nat>,
    threads: seq<Pc>,
    place: seq<Place>,
    list: seq<Node>)

  function Flag(refs: nat): bool { refs >= SHOULD_BE_ON_FREELIST }

  function Low(refs: nat): nat { refs % SHOULD_BE_ON_FREELIST }

  function WordAdd(a: nat, b: nat): nat { (a + b) % WORD }

  function WordSub(a: nat, b: nat): nat
    requires b <= WORD
  {
    (a + (WORD - b)) % WORD
  }

  /** How many threads hold a reference to `n`. */
  function Holders(threads: seq<Pc>, n: Node): nat {
    if threads == [] then 0
    else (if threads[0].Holds(n) then 1 else 0) + Holders(threads[1..], n)
  }

  function First(list: seq<Node>): Link { if list == [] then Nil else At(list[0]) }

  // ---------------------------------------------------------------- the steps

  predicate LinkInRange(l: Link, size: nat) { l.At? ==> l.node < size }

  /** The nodes in a thread's locals exist. */
  predicate PcInRange(pc: Pc, size: nat) {
    && (!pc.Idle? && !pc.GetLoad? ==> pc.n < size)
    && (pc.PushNext? || pc.PushRefs? || pc.PushCas? || pc.PushFail? || pc.GetDrop? ==> LinkInRange(pc.head, size))
    && (pc.PushLoad? || pc.PushNext? || pc.PushRefs? || pc.PushCas? || pc.PushFail? ==>
          pc.ret.FromTryGet? ==> LinkInRange(pc.ret.head, size))
    && (pc.GetCas? ==> LinkInRange(pc.next, size))
  }

  predicate InRange(s: State) {
    && |s.next| == |s.refs| == |s.place|
    && LinkInRange(s.head, |s.refs|)
    && (forall t | 0 <= t < |s.threads| :: PcInRange(s.threads[t], |s.refs|))
    && (forall n | 0 <= n < |s.refs| :: LinkInRange(s.next[n], |s.refs|))
  }

  /** The test of the loop of `try_get` on the local `head`. */
  function GetLoop(head: Link): Pc { if head.Nil? then Idle else GetRefs(head.node) }

  function Return(c: Caller): Pc { if c.FromAdd? then Idle else GetLoop(c.head) }

  function At0(s: State, t: nat, pc: Pc): State
    requires t < |s.threads|
  {
    s.(threads := s.threads[t := pc])
  }

  /** One step of thread `t`, which is inside a call. */
  function Exec(s: State, t: nat): State
    requires t < |s.threads| && InRange(s)
  {
    match s.threads[t]
    case Idle => s
    case AddRef(n) =>
      var s' := s.(refs := s.refs[n := WordAdd(s.refs[n], SHOULD_BE_ON_FREELIST)]);
      if s.refs[n] == 0 then At0(s', t, PushLoad(n, FromAdd))
      else At0(s', t, Idle).(place := s.place[n := Pending])
    case PushLoad(n, ret) => At0(s, t, PushNext(n, s.head, ret))
    case PushNext(n, h, ret) => At0(s, t, PushRefs(n, h, ret)).(next := s.next[n := h])
    case PushRefs(n, h, ret) => At0(s, t, PushCas(n, h, ret)).(refs := s.refs[n := 1])
    case PushCas(n, h, ret) =>
      if s.head == h then
        At0(s, t, Return(ret)).(head := At(n), place := s.place[n := Listed], list := [n] + s.list)
      else At0(s, t, PushFail(n, s.head, ret))
    case PushFail(n, h, ret) =>
      var s' := s.(refs := s.refs[n := WordAdd(s.refs[n], SHOULD_BE_ON_FREELIST - 1)]);
      if s.refs[n] == 1 then At0(s', t, PushNext(n, h, ret))
      else At0(s', t, Return(ret)).(place := s.place[n := Pending])
    case GetLoad => At0(s, t, GetLoop(s.head))
    case GetRefs(n) =>
      At0(s, t, if Low(s.refs[n]) == 0 then GetLoad else GetInc(n, s.refs[n]))
    case GetInc(n, seen) =>
      if s.refs[n] == seen then At0(s, t, GetNext(n)).(refs := s.refs[n := WordAdd(seen, 1)])
      else At0(s, t, GetLoad)
    case GetNext(n) => At0(s, t, GetCas(n, s.next[n]))
    case GetCas(n, next) =>
      if s.head == At(n) then
        At0(s, t, GetTaken(n)).(head := next, place := s.place[n := Moving(t)],
                                list := if s.list == [] then [] else s.list[1..])
      else At0(s, t, GetDrop(n, s.head))
    case GetTaken(n) =>
      At0(s, t, Idle).(refs := s.refs[n := WordSub(s.refs[n], 2)], place := s.place[n := Owned])
    case GetDrop(n, h) =>
      var s' := s.(refs := s.refs[n := WordSub(s.refs[n], 1)]);
      if s.refs[n] == SHOULD_BE_ON_FREELIST + 1 then
        At0(s', t, PushLoad(n, FromTryGet(h))).(place := s.place[n := Moving(t)])
      else At0(s', t, GetLoop(h))
  }

  datatype Event = CallAdd(n: Node) | CallTryGet | Step

  /** What the callers must respect: a thread makes one call at a time, and adds only a node that
      the clients of the list own. */
  predicate Enabled(s: State, t: nat, e: Event) {
    && t < |s.threads|
    && match e
       case CallAdd(n) => s.threads[t].Idle? && n < |s.place| && s.place[n].Owned?
       case CallTryGet => s.threads[t].Idle?
       case Step => !s.threads[t].Idle?
  }

  function Next(s: State, t: nat, e: Event): State
    requires InRange(s) && Enabled(s, t, e)
  {
    match e
    case CallAdd(n) => At0(s, t, AddRef(n)).(place := s.place[n := Moving(t)])
    case CallTryGet => At0(s, t, GetLoad)
    case Step => Exec(s, t)
  }

  /** An empty list, `nodes` nodes in the hands of the clients, `threads` idle threads. */
  predicate Init(s: State) {
    && s.head == Nil && s.list == []
    && |s.next| == |s.refs| == |s.place|
    && (forall n | 0 <= n < |s.refs| :: s.next[n] == Nil && s.refs[n] == 0 && s.place[n] == Owned)
    && (forall t | 0 <= t < |s.threads| :: s.threads[t] == Idle)
    && |s.threads| + 1 < SHOULD_BE_ON_FREELIST
  }

  // ---------------------------------------------------------------- the invariant

  /** The list's own reference, or the one its pusher or taker still accounts for. */
  function ListRef(s: State, n: Node): nat
    requires n < |s.place|
    requires s.place[n].Moving? ==> s.place[n].thread < |s.threads|
  {
    match s.place[n]
    case Owned => 0
    case Listed => 1
    case Pending => SHOULD_BE_ON_FREELIST
    case Moving(t) =>
      var pc := s.threads[t];
      if pc.AddRef? then 0 else if Unlinked(pc) then SHOULD_BE_ON_FREELIST else 1
  }

  /** The thread is rewriting the node's next pointer. */
  predicate Unlinked(pc: Pc) { pc.PushLoad? || pc.PushNext? || pc.PushRefs? }

  /** What a thread has read and still relies on. */
  predicate Remembers(s: State, pc: Pc)
    requires PcInRange(pc, |s.next|)
  {
    && (pc.PushRefs? || pc.PushCas? ==> s.next[pc.n] == pc.head)
    && (pc.GetInc? ==> Low(pc.seen) != 0)
    && (pc.GetCas? ==> s.next[pc.n] == pc.next)
  }

  predicate ThreadOk(s: State, t: nat)
    requires t < |s.threads| && |s.next| == |s.refs| == |s.place|
  {
    var pc := s.threads[t];
    && PcInRange(pc, |s.refs|)
    && Remembers(s, pc)
    && (pc.IsMover() ==> s.place[pc.n] == Moving(t))
  }

  /** The count of references to a node is its list reference plus its holders; nobody holds one while
      the next pointer is being rewritten; a node waiting for its last reference has one. */
  predicate NodeOk(s: State, n: Node)
    requires n < |s.refs| && |s.next| == |s.refs| == |s.place|
  {
    var h := Holders(s.threads, n);
    && LinkInRange(s.next[n], |s.refs|)
    && (s.place[n].Moving? ==> s.place[n].thread < |s.threads| && s.threads[s.place[n].thread].Moves(n))
    && (s.place[n].Listed? ==> n in s.list)
    && s.refs[n] == ListRef(s, n) + h
    && (s.place[n].Pending? ==> h > 0)
    && (s.place[n].Moving? && Unlinked(s.threads[s.place[n].thread]) ==> h == 0)
  }

  /** `head` and the next pointers spell out `list`. */
  predicate ChainOk(s: State)
    requires |s.next| == |s.refs| == |s.place|
  {
    && s.head == First(s.list)
    && (forall i | 0 <= i < |s.list| :: s.list[i] < |s.refs| && s.place[s.list[i]].Listed?)
    && (forall i | 0 <= i < |s.list| :: s.next[s.list[i]] == First(s.list[i + 1..]))
    && (forall i, j | 0 <= i < j < |s.list| :: s.list[i] != s.list[j])
  }

  predicate Inv(s: State) {
    && |s.threads| + 1 < SHOULD_BE_ON_FREELIST
    && |s.next| == |s.refs| == |s.place|
    && ChainOk(s)
    && (forall t | 0 <= t < |s.threads| :: ThreadOk(s, t))
    && (forall n | 0 <= n < |s.refs| :: NodeOk(s, n))
  }

  // ---------------------------------------------------------------- counting holders

  lemma {:induction false} HoldersUpdate(threads: seq<Pc>, t: nat, pc: Pc, n: Node)
    requires t < |threads|
    ensures Holders(threads[t := pc], n)
         == Holders(threads, n) - (if threads[t].Holds(n) then 1 else 0) + (if pc.Holds(n) then 1 else 0)
  {
    var upd := threads[t := pc];
    if t == 0 {
      assert upd[1..] == threads[1..];
    } else {
      assert upd[1..] == threads[1..][t - 1 := pc];
      HoldersUpdate(threads[1..], t - 1, pc, n);
    }
  }

  lemma {:induction false} HoldersBound(threads: seq<Pc>, n: Node)
    ensures Holders(threads, n) <= |threads|
    ensures Holders(threads, n) == |threads| ==> forall t | 0 <= t < |threads| :: threads[t].Holds(n)
  {
    if threads != [] {
      HoldersBound(threads[1..], n);
      if Holders(threads, n) == |threads| {
        forall t | 0 <= t < |threads| ensures threads[t].Holds(n) {
          if t > 0 { assert threads[t] == threads[1..][t - 1]; }
        }
      }
    }
  }

  /** A positive count has a witness, and a holder makes the count positive. */
  lemma {:induction false} HoldersWitness(threads: seq<Pc>, n: Node)
    ensures Holders(threads, n) > 0 <==> exists t :: 0 <= t < |threads| && threads[t].Holds(n)
  {
    if threads != [] {
      HoldersWitness(threads[1..], n);
      if t :| 0 <= t < |threads| && threads[t].Holds(n) {
        if t > 0 { assert threads[1..][t - 1] == threads[t]; }
      }
    }
  }

  lemma {:induction false} HoldersOfNone(threads: seq<Pc>, n: Node)
    requires forall t | 0 <= t < |threads| :: !threads[t].Holds(n)
    ensures Holders(threads, n) == 0
  {
    HoldersWitness(threads, n);
  }

  // ---------------------------------------------------------------- every step keeps the invariant

  lemma InitInv(s: State)
    requires Init(s)
    ensures Inv(s)
  {
    forall n | 0 <= n < |s.refs| ensures NodeOk(s, n) {
      HoldersOfNone(s.threads, n);
    }
  }

  lemma InvInRange(s: State)
    requires Inv(s)
    ensures InRange(s)
  {
    forall t | 0 <= t < |s.threads| ensures PcInRange(s.threads[t], |s.refs|) { assert ThreadOk(s, t); }
    forall n | 0 <= n < |s.refs| ensures LinkInRange(s.next[n], |s.refs|) { assert NodeOk(s, n); }
    if s.head.At? { assert s.list[0] < |s.refs|; }
  }

  /** `s'` differs from `s` only in what thread `t` does and in the fields of node `n`. */
  predicate OnlyAt(s: State, s': State, t: nat, n: Node)
    requires |s.next| == |s.refs| == |s.place| && t < |s.threads| && n < |s.refs|
  {
    && |s'.threads| == |s.threads| && s'.threads == s.threads[t := s'.threads[t]]
    && |s'.next| == |s'.refs| == |s'.place| == |s.refs|
    && s'.refs == s.refs[n := s'.refs[n]]
    && s'.next == s.next[n := s'.next[n]]
    && s'.place == s.place[n := s'.place[n]]
    && s'.head == s.head && s'.list == s.list
  }

  /** Before and after its step, thread `t` is concerned with no node but `n`. */
  predicate About(pc: Pc, n: Node) { !pc.Idle? && !pc.GetLoad? ==> pc.n == n || (pc.GetRefs? || pc.GetInc?) }

  lemma OtherNode(s: State, s': State, t: nat, n: Node, m: Node)
    requires Inv(s) && t < |s.threads| && n < |s.refs| && m < |s.refs| && m != n
    requires OnlyAt(s, s', t, n) && About(s.threads[t], n) && About(s'.threads[t], n)
    ensures NodeOk(s', m)
  {
    assert NodeOk(s, m);
    HoldersUpdate(s.threads, t, s'.threads[t], m);
  }

  lemma OtherThread(s: State, s': State, t: nat, n: Node, u: nat)
    requires Inv(s) && t < |s.threads| && n < |s.refs| && u < |s.threads| && u != t
    requires OnlyAt(s, s', t, n)
    requires s.place[n].Moving? && s.place[n] != s'.place[n] ==> s.place[n] == Moving(t)
    requires s.next[n] != s'.next[n] ==> s.place[n] == Moving(t) && Holders(s.threads, n) == 0
    ensures ThreadOk(s', u)
  {
    assert ThreadOk(s, u);
    HoldersWitness(s.threads, n);
  }

  /** A step that leaves the list alone keeps the invariant if it does so for its own thread and node. */
  lemma LocalStep(s: State, s': State, t: nat, n: Node)
    requires Inv(s) && t < |s.threads| && n < |s.refs|
    requires OnlyAt(s, s', t, n) && About(s.threads[t], n) && About(s'.threads[t], n)
    requires s.place[n].Moving? && s.place[n] != s'.place[n] ==> s.place[n] == Moving(t)
    requires s.place[n].Listed? || s'.place[n].Listed? ==> s.place[n] == s'.place[n] && s.next[n] == s'.next[n]
    requires s.next[n] != s'.next[n] ==> s.place[n] == Moving(t) && Holders(s.threads, n) == 0
    requires ThreadOk(s', t) && NodeOk(s', n)
    ensures Inv(s')
  {
    forall m | 0 <= m < |s'.refs| ensures NodeOk(s', m) {
      if m != n { OtherNode(s, s', t, n, m); }
    }
    forall u | 0 <= u < |s'.threads| ensures ThreadOk(s', u) {
      if u != t { OtherThread(s, s', t, n, u); }
    }
    assert ChainOk(s') by {
      assert ChainOk(s);
    }
  }

  /** What is known about the node and the counts when thread `t` steps. */
  lemma Counts(s: State, t: nat, n: Node, pc: Pc)
    requires Inv(s) && t < |s.threads| && n < |s.refs|
    ensures ThreadOk(s, t) && NodeOk(s, n)
    ensures Holders(s.threads[t := pc], n)
         == Holders(s.threads, n) - (if s.threads[t].Holds(n) then 1 else 0) + (if pc.Holds(n) then 1 else 0)
    ensures Holders(s.threads, n) <= |s.threads|
    ensures s.threads[t].Holds(n) ==> Holders(s.threads, n) > 0
  {
    HoldersUpdate(s.threads, t, pc, n);
    HoldersBound(s.threads, n);
    HoldersWitness(s.threads, n);
  }

  lemma CallAddStep(s: State, t: nat, n: Node)
    requires Inv(s) && InRange(s) && Enabled(s, t, CallAdd(n))
    ensures Inv(Next(s, t, CallAdd(n)))
  {
    var s' := Next(s, t, CallAdd(n));
    Counts(s, t, n, s'.threads[t]);
    LocalStep(s, s', t, n);
  }

  /** A step that only moves thread `t` to `GetLoad` or to the test of its loop. */
  lemma LoopStep(s: State, t: nat, pc: Pc)
    requires Inv(s) && InRange(s) && t < |s.threads| && (s.threads[t].Idle? || s.threads[t].GetLoad?)
    requires pc.GetLoad? || pc.Idle? || (pc.GetRefs? && pc.n < |s.refs|)
    ensures Inv(At0(s, t, pc))
  {
    if |s.refs| > 0 {
      Counts(s, t, 0, pc);
      LocalStep(s, At0(s, t, pc), t, 0);
    }
  }

  lemma AddRefStep(s: State, t: nat)
    requires Inv(s) && InRange(s) && t < |s.threads| && s.threads[t].AddRef?
    ensures Inv(Exec(s, t))
  {
    var s', n := Exec(s, t), s.threads[t].n;
    Counts(s, t, n, s'.threads[t]);
    LocalStep(s, s', t, n);
  }

  lemma PushStep(s: State, t: nat)
    requires Inv(s) && InRange(s) && t < |s.threads| && Unlinked(s.threads[t])
    ensures Inv(Exec(s, t))
  {
    var s', n := Exec(s, t), s.threads[t].n;
    Counts(s, t, n, s'.threads[t]);
    LocalStep(s, s', t, n);
  }

  lemma PushFailStep(s: State, t: nat)
    requires Inv(s) && InRange(s) && t < |s.threads|
    requires s.threads[t].PushFail? || (s.threads[t].PushCas? && s.head != s.threads[t].head)
    ensures Inv(Exec(s, t))
  {
    var s', n := Exec(s, t), s.threads[t].n;
    Counts(s, t, n, s'.threads[t]);
    LocalStep(s, s', t, n);
  }

  /** The steps of `try_get` up to the CAS of the head, and the CAS when it fails. */
  lemma GetReadStep(s: State, t: nat)
    requires Inv(s) && InRange(s) && t < |s.threads|
    requires var pc := s.threads[t];
             pc.GetRefs? || pc.GetNext? || (pc.GetCas? && s.head != At(pc.n))
    ensures Inv(Exec(s, t))
  {
    var s', n := Exec(s, t), s.threads[t].n;
    Counts(s, t, n, s'.threads[t]);
    LocalStep(s, s', t, n);
  }

  lemma GetIncStep(s: State, t: nat)
    requires Inv(s) && InRange(s) && t < |s.threads| && s.threads[t].GetInc?
    ensures Inv(Exec(s, t))
  {
    var s', n := Exec(s, t), s.threads[t].n;
    Counts(s, t, n, s'.threads[t]);
    HoldersNotAll(s.threads, t, n);
    if s.refs[n] == s.threads[t].seen {
      assert s.refs[n] + 1 < WORD && s'.refs == s.refs[n := s.refs[n] + 1];
      assert s.place[n].Moving? ==> !Unlinked(s.threads[s.place[n].thread]);
      LocalStep(s, s', t, n);
    } else {
      LocalStep(s, s', t, n);
    }
  }

  lemma HoldersNotAll(threads: seq<Pc>, t: nat, n: Node)
    requires t < |threads| && !threads[t].Holds(n)
    ensures Holders(threads, n) < |threads|
  {
    HoldersBound(threads, n);
  }

  lemma GetTakenStep(s: State, t: nat)
    requires Inv(s) && InRange(s) && t < |s.threads| && s.threads[t].GetTaken?
    ensures Inv(Exec(s, t))
  {
    var s', n := Exec(s, t), s.threads[t].n;
    Counts(s, t, n, s'.threads[t]);
    LocalStep(s, s', t, n);
  }

  lemma GetDropStep(s: State, t: nat)
    requires Inv(s) && InRange(s) && t < |s.threads| && s.threads[t].GetDrop?
    ensures Inv(Exec(s, t))
  {
    var s', n := Exec(s, t), s.threads[t].n;
    Counts(s, t, n, s'.threads[t]);
    if s.refs[n] == SHOULD_BE_ON_FREELIST + 1 {
      assert s.place[n].Pending?;
      assert NodeOk(s', n);
      LocalStep(s, s', t, n);
    } else {
      assert s'.place == s.place && s'.refs[n] == s.refs[n] - 1;
      assert NodeOk(s', n);
      LocalStep(s, s', t, n);
    }
  }

  lemma LinkStepNode(s: State, t: nat, m: Node)
    requires Inv(s) && InRange(s) && t < |s.threads| && m < |s.refs|
    requires s.threads[t].PushCas? && s.head == s.threads[t].head
    ensures NodeOk(Exec(s, t), m)
  {
    var s', n := Exec(s, t), s.threads[t].n;
    assert NodeOk(s, m) && NodeOk(s, n) && ThreadOk(s, t);
    HoldersUpdate(s.threads, t, s'.threads[t], m);
    assert s'.list[0] == n;
    assert m in s.list ==> m in s'.list;
  }

  /** The successful CAS of `add_knowing_refcount_is_zero`. */
  lemma LinkStep(s: State, t: nat)
    requires Inv(s) && InRange(s) && t < |s.threads|
    requires s.threads[t].PushCas? && s.head == s.threads[t].head
    ensures Inv(Exec(s, t))
  {
    var s', n := Exec(s, t), s.threads[t].n;
    assert ThreadOk(s, t);
    forall m | 0 <= m < |s'.refs| ensures NodeOk(s', m) {
      LinkStepNode(s, t, m);
    }
    forall u | 0 <= u < |s'.threads| ensures ThreadOk(s', u) {
      assert ThreadOk(s, u);
    }
    LinkStepChain(s, t);
  }

  lemma LinkStepChain(s: State, t: nat)
    requires Inv(s) && InRange(s) && t < |s.threads|
    requires s.threads[t].PushCas? && s.head == s.threads[t].head
    ensures ChainOk(Exec(s, t))
  {
    var s', n := Exec(s, t), s.threads[t].n;
    assert ThreadOk(s, t);
    assert s'.next == s.next && s'.place == s.place[n := Listed] && s.next[n] == s.head;
    assert s'.head == At(n) && s'.list == [n] + s.list;
    hide Exec, ThreadOk, NodeOk, InRange;
    assert s'.list[1..] == s.list;
    assert forall i | 0 < i < |s'.list| :: s'.list[i] == s.list[i - 1] && s'.list[i + 1..] == s.list[i..];
  }

  lemma UnlinkStepNode(s: State, t: nat, m: Node)
    requires Inv(s) && InRange(s) && t < |s.threads| && m < |s.refs|
    requires s.threads[t].GetCas? && s.head == At(s.threads[t].n)
    ensures NodeOk(Exec(s, t), m)
  {
    var s', n := Exec(s, t), s.threads[t].n;
    assert NodeOk(s, m) && ThreadOk(s, t);
    assert s.list[0] == n && s'.list == s.list[1..];
    HoldersUpdate(s.threads, t, s'.threads[t], m);
    if m in s.list {
      var i :| 0 <= i < |s.list| && s.list[i] == m;
      if i > 0 { assert s'.list[i - 1] == m; }
    }
  }

  lemma UnlinkStepChain(s: State, t: nat)
    requires Inv(s) && InRange(s) && t < |s.threads|
    requires s.threads[t].GetCas? && s.head == At(s.threads[t].n)
    ensures ChainOk(Exec(s, t))
  {
    var s' := Exec(s, t);
    assert ThreadOk(s, t);
    assert s.list[0] == s.threads[t].n && s'.list == s.list[1..];
    assert forall i | 0 <= i < |s'.list| :: s'.list[i] == s.list[i + 1] && s'.list[i + 1..] == s.list[i + 2..];
  }

  /** The successful CAS of `try_get`: the next pointer read earlier is the second node of the list. */
  lemma UnlinkStep(s: State, t: nat)
    requires Inv(s) && InRange(s) && t < |s.threads|
    requires s.threads[t].GetCas? && s.head == At(s.threads[t].n)
    ensures Inv(Exec(s, t))
  {
    var s' := Exec(s, t);
    assert ThreadOk(s, t);
    forall m | 0 <= m < |s'.refs| ensures NodeOk(s', m) {
      UnlinkStepNode(s, t, m);
    }
    forall u | 0 <= u < |s'.threads| ensures ThreadOk(s', u) {
      assert ThreadOk(s, u);
    }
    UnlinkStepChain(s, t);
  }

  lemma NextKeepsInv(s: State, t: nat, e: Event)
    requires Inv(s) && InRange(s) && Enabled(s, t, e)
    ensures Inv(Next(s, t, e)) && InRange(Next(s, t, e))
  {
    if e.CallAdd? {
      CallAddStep(s, t, e.n);
    } else if e.CallTryGet? {
      LoopStep(s, t, GetLoad);
    } else {
      match s.threads[t]
      case AddRef(_) => AddRefStep(s, t);
      case PushLoad(_, _) => PushStep(s, t);
      case PushNext(_, _, _) => PushStep(s, t);
      case PushRefs(_, _, _) => PushStep(s, t);
      case PushCas(_, h, _) => if s.head == h { LinkStep(s, t); } else { PushFailStep(s, t); }
      case PushFail(_, _, _) => PushFailStep(s, t);
      case GetLoad => LoopStep(s, t, GetLoop(s.head));
      case GetRefs(_) => GetReadStep(s, t);
      case GetInc(_, _) => GetIncStep(s, t);
      case GetNext(_) => GetReadStep(s, t);
      case GetCas(n, _) => if s.head == At(n) { UnlinkStep(s, t); } else { GetReadStep(s, t); }
      case GetTaken(_) => GetTakenStep(s, t);
      case GetDrop(_, _) => GetDropStep(s, t);
    }
    InvInRange(Next(s, t, e));
  }

  // ---------------------------------------------------------------- runs

  datatype Move = Move(thread: nat, event: Event)

  /** A run of the list: any interleaving of any number of calls and steps. */
  predicate IsRun(states: seq<State>, moves: seq<Move>) {
    && |states| == |moves| + 1
    && Init(states[0])
    && (forall i | 0 <= i < |moves| :: Follows(states[i], moves[i], states[i + 1]))
  }

  predicate Follows(s: State, m: Move, s': State) {
    InRange(s) && Enabled(s, m.thread, m.event) && s' == Next(s, m.thread, m.event)
  }

  /** The invariant holds throughout a run, so no step of a run is ever ill-defined. */
  lemma {:induction false} RunInv(states: seq<State>, moves: seq<Move>, i: nat)
    requires IsRun(states, moves) && i <= |moves|
    ensures Inv(states[i]) && InRange(states[i])
    decreases i
  {
    if i == 0 {
      InitInv(states[0]);
      InvInRange(states[0]);
    } else {
      RunInv(states, moves, i - 1);
      assert Follows(states[i - 1], moves[i - 1], states[i - 1 + 1]);
      NextKeepsInv(states[i - 1], moves[i - 1].thread, moves[i - 1].event);
    }
  }

  // ---------------------------------------------------------------- what the invariant means

  /** Following the next pointers from `from` visits exactly `nodes`, and then ends. */
  predicate Spells(next: seq<Link>, from: Link, nodes: seq<Node>)
    decreases |nodes|
  {
    if nodes == [] then from.Nil?
    else from == At(nodes[0]) && nodes[0] < |next| && Spells(next, next[nodes[0]], nodes[1..])
  }

  lemma {:induction false} ChainSpells(s: State, k: nat)
    requires Inv(s) && k <= |s.list|
    ensures Spells(s.next, First(s.list[k..]), s.list[k..])
    decreases |s.list| - k
  {
    if k < |s.list| {
      assert s.list[k..][1..] == s.list[k + 1..];
      ChainSpells(s, k + 1);
    }
  }

  /** A thread that holds a reference which it is going to give back with a fetch_sub of 1, unless its
      CAS of the head succeeds. */
  predicate WillDrop(pc: Pc, n: Node) { (pc.GetNext? || pc.GetCas? || pc.GetDrop?) && pc.n == n }

  /** Every node is in exactly one place, and its word of memory tells which: the low bits count the
      holders plus the list's own reference, the flag is up exactly while the node waits for its last
      reference or is being relinked, at most one thread is in charge of a node, and a waiting node
      always has a thread that will come back to it. */
  lemma PlaceIsInMemory(s: State, n: Node)
    requires Inv(s) && n < |s.refs|
    ensures Spells(s.next, s.head, s.list)
    ensures s.place[n].Listed? <==> n in s.list
    ensures forall t | 0 <= t < |s.threads| :: s.threads[t].Moves(n) <==> s.place[n] == Moving(t)
    ensures s.place[n].Moving? ==> s.place[n].thread < |s.threads|
    ensures Flag(s.refs[n]) <==>
              s.place[n].Pending? || (s.place[n].Moving? && Unlinked(s.threads[s.place[n].thread]))
    ensures Low(s.refs[n]) == Holders(s.threads, n)
                            + (if Flag(s.refs[n]) then 0 else ListRef(s, n))
    ensures s.place[n].Pending? ==> exists t :: 0 <= t < |s.threads| && WillDrop(s.threads[t], n)
  {
    assert Spells(s.next, s.head, s.list) by {
      ChainSpells(s, 0);
      assert s.list[0..] == s.list;
    }
    assert NodeOk(s, n);
    HoldersBound(s.threads, n);
    hide Spells;
    forall t | 0 <= t < |s.threads| ensures s.threads[t].Moves(n) <==> s.place[n] == Moving(t) {
      assert ThreadOk(s, t);
    }
    if s.place[n].Pending? {
      HoldersWitness(s.threads, n);
      var t :| 0 <= t < |s.threads| && s.threads[t].Holds(n);
      assert ThreadOk(s, t);
      assert WillDrop(s.threads[t], n);
    }
  }

  /** The next pointer that `try_get` read under its reference is still right when its CAS of the head
      succeeds, whatever happened in between: the CAS removes exactly the first node. */
  lemma NoAba(s: State, t: nat)
    requires Inv(s) && InRange(s) && t < |s.threads| && s.threads[t].GetCas?
    requires s.head == At(s.threads[t].n)
    ensures s.list != [] && s.list[0] == s.threads[t].n
    ensures s.threads[t].next == First(s.list[1..])
    ensures Spells(s.next, Exec(s, t).head, s.list[1..])
  {
    assert ThreadOk(s, t);
    ChainSpells(s, 1);
  }

  /** The assert in `try_get`: a node just taken off the list does not have its flag up. */
  lemma TakenHasNoFlag(s: State, t: nat)
    requires Inv(s) && t < |s.threads| && s.threads[t].GetTaken?
    ensures s.threads[t].n < |s.refs| && !Flag(s.refs[s.threads[t].n])
  {
    assert ThreadOk(s, t);
    PlaceIsInMemory(s, s.threads[t].n);
  }

  /** The step with which `try_get` returns node `n` to its caller. */
  predicate HandsOut(s: State, m: Move, n: Node) {
    m.thread < |s.threads| && m.event.Step? && s.threads[m.thread] == GetTaken(n)
  }

  lemma OwnedStays(s: State, m: Move, s': State, n: Node)
    requires Inv(s) && Follows(s, m, s') && n < |s.place|
    requires s.place[n] == Owned && m.event != CallAdd(n)
    ensures n < |s'.place| && s'.place[n] == Owned
  {
    assert ThreadOk(s, m.thread) && NodeOk(s, n);
    var pc := s.threads[m.thread];
    if pc.GetDrop? { HoldersBound(s.threads, n); }
    if pc.GetCas? && s.head == At(pc.n) { assert s.list[0] == pc.n; }
  }

  lemma {:induction false} OwnedUntilAdded(states: seq<State>, moves: seq<Move>, n: Node, lo: nat, hi: nat)
    requires IsRun(states, moves) && lo <= hi <= |moves|
    requires n < |states[lo].place| && states[lo].place[n] == Owned
    requires forall k | lo <= k < hi :: moves[k].event != CallAdd(n)
    ensures n < |states[hi].place| && states[hi].place[n] == Owned
    decreases hi - lo
  {
    if lo < hi {
      assert Follows(states[hi - 1], moves[hi - 1], states[hi - 1 + 1]);
      hide *;
      OwnedUntilAdded(states, moves, n, lo, hi - 1);
      RunInv(states, moves, hi - 1);
      OwnedStays(states[hi - 1], moves[hi - 1], states[hi], n);
    }
  }

  /** Over any run, a node is handed out only after a client gave it to the list, and never to a second
      caller until a client has given it to the list again. */
  lemma HandedOutOncePerAdd(states: seq<State>, moves: seq<Move>, n: Node, j: nat)
    requires IsRun(states, moves) && j < |moves| && HandsOut(states[j], moves[j], n)
    ensures exists k :: 0 <= k < j && moves[k].event == CallAdd(n)
    ensures forall i | 0 <= i < j && HandsOut(states[i], moves[i], n) ::
              exists k :: i < k < j && moves[k].event == CallAdd(n)
  {
    RunInv(states, moves, j);
    assert ThreadOk(states[j], moves[j].thread);
    SameNodes(states, moves, j);
    if forall k | 0 <= k < j :: moves[k].event != CallAdd(n) {
      OwnedUntilAdded(states, moves, n, 0, j);
    }
    forall i | 0 <= i < j && HandsOut(states[i], moves[i], n)
      ensures exists k :: i < k < j && moves[k].event == CallAdd(n)
    {
      RunInv(states, moves, i);
      assert ThreadOk(states[i], moves[i].thread);
      if forall k | i < k < j :: moves[k].event != CallAdd(n) {
        OwnedUntilAdded(states, moves, n, i + 1, j);
      }
    }
  }

  lemma {:induction false} SameNodes(states: seq<State>, moves: seq<Move>, i: nat)
    requires IsRun(states, moves) && i <= |moves|
    ensures |states[i].place| == |states[0].place|
    decreases i
  {
    if i > 0 {
      SameNodes(states, moves, i - 1);
    }
  }

  lemma QuietNode(s: State, n: Node)
    requires Inv(s) && (forall t | 0 <= t < |s.threads| :: s.threads[t].Idle?) && n < |s.refs|
    ensures if n in s.list then s.place[n].Listed? && s.refs[n] == 1 else s.place[n].Owned? && s.refs[n] == 0
  {
    PlaceIsInMemory(s, n);
    assert NodeOk(s, n);
    HoldersOfNone(s.threads, n);
  }

  /** When no call is in progress, no node is lost: each one is either with the clients, unreferenced
      and unmarked, or on the list exactly once with the list's single reference. */
  lemma QuietListKeepsEveryNode(s: State)
    requires Inv(s) && forall t | 0 <= t < |s.threads| :: s.threads[t].Idle?
    ensures forall n | 0 <= n < |s.refs| ::
              if n in s.list then s.place[n].Listed? && s.refs[n] == 1 else s.place[n].Owned? && s.refs[n] == 0
    ensures |s.list| + |set n | 0 <= n < |s.place| && s.place[n].Owned?| == |s.refs|
  {
    forall n | 0 <= n < |s.refs|
      ensures if n in s.list then s.place[n].Listed? && s.refs[n] == 1 else s.place[n].Owned? && s.refs[n] == 0
    {
      QuietNode(s, n);
    }
    hide NodeOk, ThreadOk;
    PlacesPartition(s.list, s.place);
  }

  lemma PlacesPartition(list: seq<Node>, place: seq<Place>)
    requires forall i, j | 0 <= i < j < |list| :: list[i] != list[j]
    requires forall n | n in list :: n < |place|
    requires forall n | 0 <= n < |place| :: n in list <==> !place[n].Owned?
    ensures |list| + |set n | 0 <= n < |place| && place[n].Owned?| == |place|
  {
    var owned := set n | 0 <= n < |place| && place[n].Owned?;
    DistinctCount(list);
    assert owned + Elements(list) == Below(|place|) && owned !! Elements(list);
  }

  function Elements(list: seq<Node>): set<Node> { set n | n in list }

  lemma {:induction false} DistinctCount(list: seq<Node>)
    requires forall i, j | 0 <= i < j < |list| :: list[i] != list[j]
    ensures |Elements(list)| == |list|
  {
    if list != [] {
      DistinctCount(list[1..]);
      assert list[0] !in Elements(list[1..]);
      assert Elements(list) == {list[0]} + Elements(list[1..]);
    }
  }

  function Below(size: nat): (r: set<nat>)
    ensures |r| == size && forall n: nat :: n in r <==> n < size
  {
    if size == 0 then {} else Below(size - 1) + {size - 1}
  }

  // ---------------------------------------------------------------- what the calls give

  predicate Quiet(s: State) { forall t | 0 <= t < |s.threads| :: s.threads[t].Idle? }

  /** One call of thread `t` from its start to its end while no other thread moves. */
  predicate LoneCall(states: seq<State>, t: nat, call: Event) {
    && |states| > 1 && !call.Step?
    && (forall i | 0 <= i < |states| - 1 :: Follows(states[i], LoneMove(t, call, i), states[i + 1]))
    && t < |states[|states| - 1].threads| && states[|states| - 1].threads[t].Idle?
  }

  function LoneMove(t: nat, call: Event, i: nat): Move { Move(t, if i == 0 then call else Step) }

  lemma {:induction false} LoneCallsAgree(states: seq<State>, other: seq<State>, t: nat, call: Event, i: nat)
    requires LoneCall(states, t, call) && LoneCall(other, t, call) && states[0] == other[0]
    requires i < |states| && i < |other|
    ensures states[i] == other[i]
  {
    if i > 0 {
      LoneCallsAgree(states, other, t, call, i - 1);
      assert Follows(states[i - 1], LoneMove(t, call, i - 1), states[i - 1 + 1]);
      assert Follows(other[i - 1], LoneMove(t, call, i - 1), other[i - 1 + 1]);
    }
  }

  lemma GoesOn(states: seq<State>, t: nat, call: Event, i: nat)
    requires LoneCall(states, t, call) && 0 < i < |states| - 1
    ensures t < |states[i].threads| && !states[i].threads[t].Idle?
  {
    assert Follows(states[i], LoneMove(t, call, i), states[i + 1]);
  }

  /** The state in which thread `t` makes a call determines the whole of a lone call. */
  lemma LoneCallIsOne(states: seq<State>, other: seq<State>, t: nat, call: Event)
    requires LoneCall(states, t, call) && LoneCall(other, t, call) && states[0] == other[0]
    ensures states == other
  {
    var m := if |states| < |other| then |states| - 1 else |other| - 1;
    LoneCallsAgree(states, other, t, call, m);
    if m + 1 < |states| { GoesOn(states, t, call, m); }
    if m + 1 < |other| { GoesOn(other, t, call, m); }
    forall i | 0 <= i <= m ensures states[i] == other[i] { LoneCallsAgree(states, other, t, call, i); }
  }

  /** The list after its first node has gone to a client. */
  function FirstTaken(s: State): State
    requires s.list != [] && s.list[0] < |s.refs| && |s.refs| == |s.place|
  {
    var n := s.list[0];
    s.(head := First(s.list[1..]), list := s.list[1..], refs := s.refs[n := 0], place := s.place[n := Owned])
  }

  /** The list after client node `n` has become its first. */
  function FirstAdded(s: State, n: Node): State
    requires n < |s.refs| && |s.refs| == |s.place| == |s.next|
  {
    s.(head := At(n), list := [n] + s.list, next := s.next[n := s.head], refs := s.refs[n := 1],
       place := s.place[n := Listed])
  }

  lemma QuietFirst(s: State)
    requires Inv(s) && Quiet(s) && s.list != []
    ensures InRange(s) && s.head == At(s.list[0]) && s.list[0] < |s.refs| && s.refs[s.list[0]] == 1
    ensures s.next[s.list[0]] == First(s.list[1..])
  {
    InvInRange(s);
    QuietNode(s, s.list[0]);
  }

  /** The states of a `try_get` that nobody disturbs. */
  function TryGetState(s: State, t: nat, i: nat): State
    requires t < |s.threads| && s.list != [] && s.list[0] < |s.refs| && |s.refs| == |s.place| == |s.next|
  {
    var n := s.list[0];
    var counted := s.(refs := s.refs[n := 2]);
    if i == 0 then s
    else if i == 1 then At0(s, t, GetLoad)
    else if i == 2 then At0(s, t, GetRefs(n))
    else if i == 3 then At0(s, t, GetInc(n, 1))
    else if i == 4 then At0(counted, t, GetNext(n))
    else if i == 5 then At0(counted, t, GetCas(n, s.next[n]))
    else if i == 6 then
      At0(counted, t, GetTaken(n)).(head := s.next[n], list := s.list[1..], place := s.place[n := Moving(t)])
    else FirstTaken(s)
  }

  lemma TryGetStep(s: State, t: nat, i: nat)
    requires InRange(s) && t < |s.threads| && s.threads[t].Idle? && i < 7
    requires s.list != [] && s.list[0] < |s.refs| && s.refs[s.list[0]] == 1
    requires s.head == At(s.list[0]) && s.next[s.list[0]] == First(s.list[1..])
    requires InRange(TryGetState(s, t, i))
    ensures Follows(TryGetState(s, t, i), LoneMove(t, CallTryGet, i), TryGetState(s, t, i + 1))
  {
    var before, after := TryGetState(s, t, i), TryGetState(s, t, i + 1);
    assert before.threads == s.threads[t := before.threads[t]] && after.threads == s.threads[t := after.threads[t]];
    assert after.threads == before.threads[t := after.threads[t]];
    var e := LoneMove(t, CallTryGet, i).event;
    hide InRange;
    if i == 3 {
      assert after.refs == before.refs[s.list[0] := 2];
      assert Next(before, t, e) == after;
    } else if i == 6 {
      assert after.refs == before.refs[s.list[0] := 0] && after.place == before.place[s.list[0] := Owned];
      assert Next(before, t, e) == after;
    } else {
      assert after.refs == before.refs;
      assert Next(before, t, e) == after;
    }
  }

  lemma {:induction false} TryGetRuns(s: State, t: nat, i: nat)
    requires Inv(s) && Quiet(s) && t < |s.threads| && s.list != [] && s.list[0] < |s.refs| && i <= 7
    ensures Inv(TryGetState(s, t, i)) && InRange(TryGetState(s, t, i))
    ensures i > 0 ==> Follows(TryGetState(s, t, i - 1), LoneMove(t, CallTryGet, i - 1), TryGetState(s, t, i))
  {
    QuietFirst(s);
    if i > 0 {
      hide *;
      TryGetRuns(s, t, i - 1);
      StepOfLoneTryGet(s, t, i - 1);
    }
  }

  lemma StepOfLoneTryGet(s: State, t: nat, i: nat)
    requires Inv(s) && Quiet(s) && t < |s.threads| && s.list != [] && s.list[0] < |s.refs| && i < 7
    requires Inv(TryGetState(s, t, i)) && InRange(TryGetState(s, t, i))
    ensures Follows(TryGetState(s, t, i), LoneMove(t, CallTryGet, i), TryGetState(s, t, i + 1))
    ensures Inv(TryGetState(s, t, i + 1)) && InRange(TryGetState(s, t, i + 1))
  {
    QuietFirst(s);
    TryGetStep(s, t, i);
    hide NodeOk, ThreadOk, ChainOk, Next, TryGetState;
    NextKeepsInv(TryGetState(s, t, i), t, LoneMove(t, CallTryGet, i).event);
  }

  /** A `try_get` that nobody disturbs ends, and it hands out the first node of a list that has one; the
      node is then the client's, unreferenced, and nothing else has changed. */
  lemma TryGetTakesFirst(s: State, t: nat) returns (states: seq<State>)
    requires Inv(s) && Quiet(s) && t < |s.threads| && s.list != []
    ensures LoneCall(states, t, CallTryGet) && states[0] == s
    ensures s.list[0] < |s.refs| && |s.refs| == |s.place|
    ensures HandsOut(states[|states| - 2], Move(t, Step), s.list[0])
    ensures states[|states| - 1] == FirstTaken(s)
  {
    QuietFirst(s);
    states := seq(8, i requires 0 <= i < 8 => TryGetState(s, t, i));
    assert LoneCall(states, t, CallTryGet) by {
      forall i | 0 <= i < |states| - 1 ensures Follows(states[i], LoneMove(t, CallTryGet, i), states[i + 1]) {
        TryGetRuns(s, t, i + 1);
      }
    }
  }

  /** The states of an `add` that nobody disturbs. */
  function AddState(s: State, t: nat, n: Node, i: nat): State
    requires t < |s.threads| && n < |s.refs| && |s.refs| == |s.place| == |s.next|
  {
    var moved := s.(place := s.place[n := Moving(t)]);
    var flagged := moved.(refs := s.refs[n := SHOULD_BE_ON_FREELIST]);
    var stored := flagged.(next := s.next[n := s.head]);
    if i == 0 then s
    else if i == 1 then At0(moved, t, AddRef(n))
    else if i == 2 then At0(flagged, t, PushLoad(n, FromAdd))
    else if i == 3 then At0(flagged, t, PushNext(n, s.head, FromAdd))
    else if i == 4 then At0(stored, t, PushRefs(n, s.head, FromAdd))
    else if i == 5 then At0(stored.(refs := s.refs[n := 1]), t, PushCas(n, s.head, FromAdd))
    else FirstAdded(s, n)
  }

  lemma AddStep(s: State, t: nat, n: Node, i: nat)
    requires InRange(s) && Enabled(s, t, CallAdd(n)) && i < 6 && s.refs[n] == 0
    requires InRange(AddState(s, t, n, i))
    ensures Follows(AddState(s, t, n, i), LoneMove(t, CallAdd(n), i), AddState(s, t, n, i + 1))
  {
    var before, after := AddState(s, t, n, i), AddState(s, t, n, i + 1);
    assert before.threads == s.threads[t := before.threads[t]] && after.threads == s.threads[t := after.threads[t]];
    assert after.threads == before.threads[t := after.threads[t]];
    var e := LoneMove(t, CallAdd(n), i).event;
    hide InRange;
    assert after.refs == before.refs[n := after.refs[n]];
    assert after.place == before.place[n := after.place[n]];
    assert after.next == before.next[n := after.next[n]];
    assert Next(before, t, e) == after;
  }

  lemma StepOfLoneAdd(s: State, t: nat, n: Node, i: nat)
    requires Inv(s) && Quiet(s) && Enabled(s, t, CallAdd(n)) && i < 6
    requires Inv(AddState(s, t, n, i)) && InRange(AddState(s, t, n, i))
    ensures Follows(AddState(s, t, n, i), LoneMove(t, CallAdd(n), i), AddState(s, t, n, i + 1))
    ensures Inv(AddState(s, t, n, i + 1)) && InRange(AddState(s, t, n, i + 1))
  {
    InvInRange(s);
    QuietNode(s, n);
    assert NodeOk(s, n);
    AddStep(s, t, n, i);
    hide NodeOk, ThreadOk, ChainOk, Next, AddState;
    NextKeepsInv(AddState(s, t, n, i), t, LoneMove(t, CallAdd(n), i).event);
  }

  lemma {:induction false} AddRuns(s: State, t: nat, n: Node, i: nat)
    requires Inv(s) && Quiet(s) && Enabled(s, t, CallAdd(n)) && i <= 6
    ensures Inv(AddState(s, t, n, i)) && InRange(AddState(s, t, n, i))
    ensures i > 0 ==> Follows(AddState(s, t, n, i - 1), LoneMove(t, CallAdd(n), i - 1), AddState(s, t, n, i))
  {
    if i == 0 {
      InvInRange(s);
    } else {
      hide NodeOk, ThreadOk, ChainOk, Next, AddState;
      AddRuns(s, t, n, i - 1);
      StepOfLoneAdd(s, t, n, i - 1);
    }
  }

  /** An `add` that nobody disturbs ends with its node as the first of the list. */
  lemma AddPutsFirst(s: State, t: nat, n: Node) returns (states: seq<State>)
    requires Inv(s) && Quiet(s) && Enabled(s, t, CallAdd(n))
    ensures LoneCall(states, t, CallAdd(n)) && states[0] == s
    ensures |s.refs| == |s.place| == |s.next| && states[|states| - 1] == FirstAdded(s, n)
  {
    states := seq(7, i requires 0 <= i < 7 => AddState(s, t, n, i));
    assert LoneCall(states, t, CallAdd(n)) by {
      forall i | 0 <= i < |states| - 1 ensures Follows(states[i], LoneMove(t, CallAdd(n), i), states[i + 1]) {
        AddRuns(s, t, n, i + 1);
      }
    }
  }

  /** The list was empty in one of the states `lo` to `hi`. */
  ghost predicate WasEmpty(states: seq<State>, lo: nat, hi: nat)
    requires hi < |states|
  {
    exists k :: lo <= k <= hi && states[k].list == []
  }

  /** The thread is inside `try_get`. */
  predicate InTryGet(pc: Pc) {
    !pc.Idle? && !pc.AddRef?
    && (pc.PushLoad? || pc.PushNext? || pc.PushRefs? || pc.PushCas? || pc.PushFail? ==> pc.ret.FromTryGet?)
  }

  /** The head that the thread goes on with when it has dropped its reference is null. */
  predicate HasReadNil(pc: Pc) {
    || (pc.GetDrop? && pc.head.Nil?)
    || ((pc.PushLoad? || pc.PushNext? || pc.PushRefs? || pc.PushCas? || pc.PushFail?)
        && pc.ret.FromTryGet? && pc.ret.head.Nil?)
  }

  lemma {:induction false} NilWasRead(states: seq<State>, moves: seq<Move>, t: nat, i: nat, k: nat)
    requires IsRun(states, moves) && i < k <= |moves|
    requires moves[i] == Move(t, CallTryGet)
    requires forall m | i < m <= k :: t < |states[m].threads| && !states[m].threads[t].Idle?
    ensures InTryGet(states[k].threads[t])
    ensures HasReadNil(states[k].threads[t]) ==> WasEmpty(states, i + 1, k)
    decreases k
  {
    assert Follows(states[k - 1], moves[k - 1], states[k - 1 + 1]);
    RunInv(states, moves, k - 1);
    if k > i + 1 {
      NilWasRead(states, moves, t, i, k - 1);
      NilStep(states, moves, t, i, k);
    }
  }

  lemma NilStep(states: seq<State>, moves: seq<Move>, t: nat, i: nat, k: nat)
    requires 0 <= i < k - 1 && k < |states| == |moves| + 1 && t < |states[k - 1].threads|
    requires Follows(states[k - 1], moves[k - 1], states[k])
    requires states[k - 1].head == First(states[k - 1].list)
    requires InTryGet(states[k - 1].threads[t]) && !states[k].threads[t].Idle?
    requires HasReadNil(states[k - 1].threads[t]) ==> WasEmpty(states, i + 1, k - 1)
    ensures InTryGet(states[k].threads[t])
    ensures HasReadNil(states[k].threads[t]) ==> WasEmpty(states, i + 1, k)
  {
    var s, s' := states[k - 1], states[k];
    hide InRange;
    NilStepHere(s, moves[k - 1], s', t);
    hide *;
    WasEmptyLater(states, i + 1, k - 1);
  }

  lemma WasEmptyLater(states: seq<State>, lo: nat, hi: nat)
    requires lo <= hi && hi + 1 < |states|
    ensures WasEmpty(states, lo, hi) ==> WasEmpty(states, lo, hi + 1)
    ensures states[hi].list == [] ==> WasEmpty(states, lo, hi + 1)
  {
    if k :| lo <= k <= hi && states[k].list == [] { assert lo <= k <= hi + 1; }
  }

  lemma EmptyNow(states: seq<State>, lo: nat, hi: nat)
    requires lo <= hi < |states| && states[hi].list == []
    ensures WasEmpty(states, lo, hi)
  {
  }

  lemma NilStepHere(s: State, m: Move, s': State, t: nat)
    requires Follows(s, m, s') && t < |s.threads| && s.head == First(s.list)
    requires InTryGet(s.threads[t]) && !s'.threads[t].Idle?
    ensures InTryGet(s'.threads[t])
    ensures HasReadNil(s'.threads[t]) ==> HasReadNil(s.threads[t]) || s.list == []
  {
    hide InRange;
    if m.thread != t {
      assert s'.threads[t] == s.threads[t];
    } else if m.event.Step? {
      match s.threads[t]
      case AddRef(_) =>
      case PushLoad(_, _) =>
      case PushNext(_, _, _) =>
      case PushRefs(_, _, _) =>
      case PushCas(_, h, _) =>
      case PushFail(_, _, _) =>
      case GetLoad =>
      case GetRefs(_) =>
      case GetInc(_, _) =>
      case GetNext(_) =>
      case GetCas(n, _) =>
      case GetTaken(_) =>
      case GetDrop(_, _) =>
    }
  }

  lemma NullStep(s: State, m: Move, s': State, t: nat)
    requires Follows(s, m, s') && t < |s.threads| && s.head == First(s.list)
    requires InTryGet(s.threads[t]) && s'.threads[t].Idle?
    ensures HasReadNil(s.threads[t]) || s.list == [] || (s.threads[t].GetTaken? && HandsOut(s, m, s.threads[t].n))
  {
    hide InRange;
  }

  /** A `try_get` of any run that ends without handing out a node has found the list empty: the list had
      no node in some state between its call and its end. */
  lemma NullMeansEmpty(states: seq<State>, moves: seq<Move>, t: nat, i: nat, j: nat)
    requires IsRun(states, moves) && i < j < |moves|
    requires moves[i] == Move(t, CallTryGet)
    requires forall k | i < k <= j :: t < |states[k].threads| && !states[k].threads[t].Idle?
    requires t < |states[j + 1].threads| && states[j + 1].threads[t].Idle?
    requires forall n :: !HandsOut(states[j], moves[j], n)
    ensures WasEmpty(states, i + 1, j)
  {
    NilWasRead(states, moves, t, i, j);
    RunInv(states, moves, j);
    assert Follows(states[j], moves[j], states[j + 1]);
    assert states[j].head == First(states[j].list);
    hide *;
    NullStep(states[j], moves[j], states[j + 1], t);
    if states[j].list == [] { EmptyNow(states, i + 1, j); }
  }
}
