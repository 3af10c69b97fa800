// What the calls of an implicit producer's queue give: an enqueue publishes exactly its elements, when it
// ends and not before, and a claim empties exactly the elements that it claimed.
module ImplicitCalls {
  import opened CircularIndex
  import opened ImplicitIndex

  // ---------------------------------------------------------------- an enqueue publishes its elements

  /** How many elements the first `i` events ask to enqueue. */
  function Enqueued(events: seq<Event>, i: nat): nat
    requires i <= |events|
  {
    if i == 0 then 0
    else Enqueued(events, i - 1) + (if events[i - 1].Enqueue? then events[i - 1].n else 0)
  }

  /** How many of them the enqueue in progress has yet to publish. */
  function Unpublished(p: Producer): nat { if p.Ready? then 0 else p.n }

  lemma StepPublishes(s: State, e: Event)
    requires ShapeOk(s) && Enabled(s, e)
    ensures var s' := Next(s, e);
            s'.tailIndex + Unpublished(s'.producer)
            == s.tailIndex + Unpublished(s.producer) + (if e.Enqueue? then e.n else 0)
    ensures Next(s, e).tailIndex == s.tailIndex || (!s.producer.Ready? && Next(s, e).producer.Ready?)
    ensures !e.Enqueue? && !s.producer.Ready? && !Next(s, e).producer.Ready? ==> Next(s, e).producer.n == s.producer.n
  {
    hide ShapeOk;
  }

  lemma {:induction false} TailIsSum(states: seq<State>, events: seq<Event>, i: nat)
    requires IsRun(states, events) && i <= |events|
    ensures states[i].tailIndex + Unpublished(states[i].producer) == Enqueued(events, i)
    decreases i
  {
    if i > 0 {
      TailIsSum(states, events, i - 1);
      assert Follows(states[i - 1], events[i - 1], states[i - 1 + 1]);
      hide ShapeOk, Next, Init;
      StepPublishes(states[i - 1], events[i - 1]);
    }
  }

  /** Over any run, whenever no enqueue is in progress the tail is the number of all the elements that were ever
      enqueued. */
  lemma AllPublished(states: seq<State>, events: seq<Event>, i: nat)
    requires IsRun(states, events) && i <= |events| && states[i].producer.Ready?
    ensures states[i].tailIndex == Enqueued(events, i)
  {
    TailIsSum(states, events, i);
  }

  /** While an enqueue is in progress the tail stays where it was: none of its elements can be claimed before they
      all can, and it is the number of those that earlier enqueues have published. */
  lemma {:induction false} NotBeforeTheEnd(states: seq<State>, events: seq<Event>, i: nat, j: nat)
    requires IsRun(states, events) && i < j <= |events| && events[i].Enqueue?
    requires forall k | i < k <= j :: !states[k].producer.Ready?
    ensures states[j].tailIndex == Enqueued(events, i)
    ensures states[j].producer.n == events[i].n
    decreases j
  {
    assert Follows(states[j - 1], events[j - 1], states[j - 1 + 1]);
    hide ShapeOk, Init;
    StepPublishes(states[j - 1], events[j - 1]);
    if j == i + 1 {
      AllPublished(states, events, i);
    } else {
      NotBeforeTheEnd(states, events, i, j - 1);
    }
  }

  /** How many more blocks an enqueue of n elements needs. */
  function Missing(s: State, n: nat): nat {
    var needed := (s.tailIndex + n + BLOCK_SIZE - 1) / BLOCK_SIZE;
    if needed <= |s.home| then 0 else needed - |s.home|
  }

  /** An upper bound of the steps that the enqueue in progress takes before it ends. */
  function EnqueueWork(s: State): nat {
    var n := Unpublished(s.producer);
    var later := if Missing(s, n) == 0 then 0 else Missing(s, n) - 1;
    match s.producer
    case Ready => 0
    case Loop(_) => 6 * Missing(s, n) + 1
    case Probe(_) => 6 * later + 6
    case Grow(_) => 6 * later + 5
    case StoreKey(_) => 6 * later + 4
    case StoreTail(_) => 6 * later + 3
    case StoreValue(_) => 6 * later + 2
  }

  lemma NoneMissing(s: State, n: nat)
    ensures Missing(s, n) == 0 <==> s.tailIndex + n <= |s.home| * BLOCK_SIZE
  {
    var total := s.tailIndex + n + BLOCK_SIZE - 1;
    assert total == total / BLOCK_SIZE * BLOCK_SIZE + total % BLOCK_SIZE;
  }

  /** Every enqueue ends after as many steps of its own as its work says, whatever the consumers do meanwhile: each
      of its steps lowers its work, and no step of a consumer raises it. */
  lemma EnqueueEnds(s: State, e: Event)
    requires ShapeOk(s) && Enabled(s, e) && !s.producer.Ready?
    ensures e.ProducerStep? ==> EnqueueWork(Next(s, e)) < EnqueueWork(s)
    ensures !e.ProducerStep? ==> EnqueueWork(Next(s, e)) == EnqueueWork(s)
    ensures EnqueueWork(s) > 0
  {
    NoneMissing(s, s.producer.n);
    hide ShapeOk, Missing;
    var s' := Next(s, e);
    assert s'.home == if e.ProducerStep? && s.producer.StoreValue? then s.home + [e.b] else s.home;
    MissingAfter(s, s', Unpublished(s.producer));
  }

  lemma MissingAfter(s: State, s': State, n: nat)
    ensures s'.tailIndex == s.tailIndex && |s'.home| == |s.home| ==> Missing(s', n) == Missing(s, n)
    ensures s'.tailIndex == s.tailIndex && |s'.home| == |s.home| + 1 ==>
              Missing(s', n) == if Missing(s, n) == 0 then 0 else Missing(s, n) - 1
  {
  }

  /** The next step of an enqueue is never held back, unless the larger index that it needs would not fit the
      address space. */
  lemma EnqueueGoesOn(s: State)
    requires ShapeOk(s) && !s.producer.Ready?
    requires s.producer.Grow? ==> FitsWord(2 * Last(s).capacity)
    ensures exists b :: Enabled(s, ProducerStep(b))
  {
    var b := Unused(s.inUse);
    assert Enabled(s, ProducerStep(b));
  }

  lemma Unused(used: set<nat>) returns (b: nat)
    ensures b !in used
  {
    if Below(|used| + 1) <= used { SubsetCount(Below(|used| + 1), used); }
    b :| b in Below(|used| + 1) && b !in used;
  }

  // ---------------------------------------------------------------- a claim empties its elements

  /** Element x has been moved out and destroyed. */
  predicate Emptied(s: State, x: nat) { x / BLOCK_SIZE < |s.done| && x % BLOCK_SIZE in s.done[x / BLOCK_SIZE] }

  predicate Quiet(s: State) { s.producer.Ready? && forall t | 0 <= t < |s.threads| :: s.threads[t].Idle? }

  /** The call of a consumer from its claim of n elements to its end, while nobody else moves. */
  predicate LoneDequeue(states: seq<State>, t: nat, n: nat) {
    && |states| > 1
    && Follows(states[0], Claim(t, n), states[1])
    && Steps(states[1..], t)
  }

  /** Steps of thread t alone until its call is over. */
  predicate Steps(states: seq<State>, t: nat) {
    && states != []
    && (forall i | 0 <= i < |states| - 1 :: Follows(states[i], ConsumerStep(t), states[i + 1]))
    && t < |states[|states| - 1].threads| && states[|states| - 1].threads[t].Idle?
  }

  /** The steps that a consumer still takes at most. */
  function DequeueWork(pc: Pc): int {
    match pc
    case Idle => 0
    case Crashed => 0
    case Claimed(_, n) => 4 * n + 4
    case WithHeader(_, n, _) => 4 * n + 3
    case WithTail(_, n, _, _, _) => 4 * n + 2
    case WithKey(_, n, _, _, _, _) => 4 * n + 1
    case AtSlot(_, n, _, _) => 4 * n
    case WithBlock(_, n, _, _, _) => 4 * n - 1
    case Unlink(_, n, _, _, _, _) => 4 * n + 2
    case GiveBack(_, n, _, _, _, _) => 4 * n + 1
  }

  lemma InvShape(s: State)
    requires Inv(s)
    ensures ShapeOk(s)
  {
    hide StoreInv, ThreadsInv, TrackInv;
    assert |s.done| == |s.home| by { assert StoreInv(StoreOf(s)); DoneHasHome(s); }
    forall h | 0 <= h < |s.headers| ensures 0 < s.headers[h].capacity == |s.headers[h].index| && s.headers[h].tail < s.headers[h].capacity {
      assert HeaderOk(s.headers[h], s.num, s.released);
    }
    forall h, j | 0 <= h < |s.headers| && 0 <= j < |s.headers[h].index| ensures s.headers[h].index[j] < |s.entries| {
      assert HeaderOk(s.headers[h], s.num, s.released);
    }
  }

  lemma DoneHasHome(s: State)
    requires StoreInv(StoreOf(s))
    ensures |s.done| == |s.home|
  {
  }

  predicate HasElement(pc: Pc) { pc.Busy() && !pc.Releasing() ==> pc.n > 0 }

  lemma ThreadHasElement(s: State, t: nat)
    requires Inv(s) && t < |s.threads|
    ensures HasElement(s.threads[t]) && !s.threads[t].Crashed?
  {
    ThreadIsOk(s, t);
    hide Inv;
  }

  lemma WorkLowers(s: State, t: nat)
    requires ShapeOk(s) && t < |s.threads| && s.threads[t].Busy() && Enabled(s, ConsumerStep(t))
    requires |Next(s, ConsumerStep(t)).threads| == |s.threads|
    requires HasElement(s.threads[t]) && HasElement(Next(s, ConsumerStep(t)).threads[t])
    ensures 0 <= DequeueWork(Next(s, ConsumerStep(t)).threads[t]) < DequeueWork(s.threads[t])
  {
    hide ShapeOk;
  }

  lemma OneThreadMoves(s: State, t: nat)
    requires ShapeOk(s) && t < |s.threads| && s.threads[t].Busy() && Enabled(s, ConsumerStep(t))
    ensures SameButFor(s, Next(s, ConsumerStep(t)), t)
  {
    hide ShapeOk;
  }

  /** Only thread t has moved, and it has claimed nothing. */
  predicate SameButFor(s: State, s': State, t: nat) {
    && |s'.threads| == |s.threads|
    && (forall u | 0 <= u < |s.threads| && u != t :: s'.threads[u] == s.threads[u])
    && s'.producer == s.producer && s'.tailIndex == s.tailIndex && s'.headIndex == s.headIndex && s'.home == s.home
  }

  /** A consumer can always go on; each of its steps brings its call nearer to its end, and touches nothing of the
      producer or of the other consumers. */
  lemma DequeueGoesOn(s: State, t: nat)
    requires Inv(s) && ShapeOk(s) && t < |s.threads| && s.threads[t].Busy()
    ensures Enabled(s, ConsumerStep(t))
    ensures var s' := Next(s, ConsumerStep(t));
            && Inv(s') && ShapeOk(s') && SameButFor(s, s', t) && !s'.threads[t].Crashed?
            && 0 <= DequeueWork(s'.threads[t]) < DequeueWork(s.threads[t])
  {
    hide Inv, ShapeOk, Next;
    ConsumerIsReady(s, t);
    NextKeepsInv(s, ConsumerStep(t));
    InvShape(Next(s, ConsumerStep(t)));
    hide Enabled;
    ThreadHasElement(s, t);
    OneThreadMoves(s, t);
    ThreadHasElement(Next(s, ConsumerStep(t)), t);
    WorkLowers(s, t);
  }

  /** From any state, the call of a consumer that goes on alone comes to its end. */
  lemma {:induction false} StepsEnd(s: State, t: nat) returns (states: seq<State>)
    requires Inv(s) && ShapeOk(s) && t < |s.threads| && !s.threads[t].Crashed?
    ensures states != [] && states[0] == s && Steps(states, t)
    ensures forall i | 0 <= i < |states| :: Inv(states[i]) && SameButFor(s, states[i], t)
    decreases DequeueWork(s.threads[t])
  {
    hide Inv, ShapeOk, Next, Enabled;
    if s.threads[t].Idle? {
      states := [s];
    } else {
      DequeueGoesOn(s, t);
      var s' := Next(s, ConsumerStep(t));
      var rest := StepsEnd(s', t);
      states := [s] + rest;
      assert Follows(s, ConsumerStep(t), rest[0]);
    }
  }

  /** When nobody is inside a call, exactly the elements that were claimed have been emptied. */
  lemma QuietEmptied(s: State, x: nat)
    requires Inv(s) && Quiet(s)
    ensures Emptied(s, x) <==> x < s.headIndex
  {
    var k := x / BLOCK_SIZE;
    assert x == k * BLOCK_SIZE + x % BLOCK_SIZE;
    HeadInBlocks(s);
    if k < |s.done| {
      BlockIsAccounted(s, k);
      hide Inv;
      assert ElementOk(TrackOf(s), k, x % BLOCK_SIZE);
      assert !IsHeld(s.threads, x);
    }
  }

  lemma HeadInBlocks(s: State)
    requires Inv(s)
    ensures s.headIndex <= s.tailIndex <= |s.home| * BLOCK_SIZE && |s.done| == |s.home|
  {
    hide IndexInv, ThreadsInv, TrackInv;
  }

  /** With nobody inside a call, every element that was enqueued and not yet claimed can be claimed: for any number n
      of them up to the sum of all enqueued minus those claimed, the claim is possible, the call ends, and it has
      emptied the next n elements, no other one. */
  lemma QuietClaim(states: seq<State>, events: seq<Event>, i: nat, t: nat, n: nat) returns (lone: seq<State>)
    requires IsRun(states, events) && i <= |events| && Quiet(states[i])
    requires t < |states[i].threads| && 0 < n && states[i].headIndex + n <= Enqueued(events, i)
    ensures lone != [] && lone[0] == states[i] && LoneDequeue(lone, t, n)
    ensures var s, s' := states[i], lone[|lone| - 1];
            && Quiet(s') && s'.tailIndex == s.tailIndex && s'.headIndex == s.headIndex + n
            && (forall x: nat :: Emptied(s, x) <==> x < s.headIndex)
            && (forall x: nat :: Emptied(s', x) <==> x < s.headIndex + n)
  {
    var s := states[i];
    RunInv(states, events, i);
    InvShape(s);
    AllPublished(states, events, i);
    var claimed := Next(s, Claim(t, n));
    assert Enabled(s, Claim(t, n)) && claimed.threads == s.threads[t := Claimed(s.headIndex, n)];
    NextKeepsInv(s, Claim(t, n));
    InvShape(claimed);
    assert claimed.headIndex == s.headIndex + n && claimed.tailIndex == s.tailIndex && claimed.producer == s.producer;
    assert Follows(s, Claim(t, n), claimed);
    hide Inv, ShapeOk, Next, Enabled, Follows, IsRun;
    var rest := StepsEnd(claimed, t);
    lone := [s] + rest;
    assert lone[1..] == rest;
    var s' := rest[|rest| - 1];
    assert lone[|lone| - 1] == s';
    assert Quiet(s');
    hide Steps;
    forall x: nat ensures Emptied(s, x) <==> x < s.headIndex { QuietEmptied(s, x); }
    forall x: nat ensures Emptied(s', x) <==> x < s.headIndex + n { QuietEmptied(s', x); }
  }
}
