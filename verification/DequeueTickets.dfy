// The optimistic dequeue of one sub-queue: consumers draw tickets from `dequeueOptimisticCount`, hand
// back the ones that went past the tail through `dequeueOvercommit`, and claim indices from
// `headIndex` with the rest.
//
// One producer advances the tail; any number of consumers run `dequeue` and `dequeue_bulk`. Every
// access to a shared counter is one step. The counters here are unbounded; WrappedTickets shows that
// the 64-bit counters of the program behave the same.
module DequeueTickets {

  /** What a consumer does next. `dequeue` is `dequeue_bulk` with `max` equal to 1. */
  datatype Pc =
    | Idle
    | LoadTail(max: nat)
    | LoadOvercommit(max: nat, tail: int)
    | LoadCount(max: nat, tail: int, overcommit: int)
    | Draw(overcommit: int, desired: nat)                 // fetch_add of the optimistic count
    | Check(overcommit: int, ticket: int, desired: nat)   // reload of the tail
    | Refund(ticket: int, actual: nat, lost: nat)         // fetch_add of the overcommit, some tickets are good
    | Claim(ticket: int, actual: nat)                     // fetch_add of the head
    | GiveUp(ticket: int, lost: nat)                      // fetch_add of the overcommit, no ticket is good

  /** Bookkeeping: what became of a ticket. */
  datatype Fate = Open | Won | Lost

  /** `fate` is bookkeeping only: no step looks at it. */
  datatype State = State(
    tail: int,
    head: int,
    count: int,        // dequeueOptimisticCount
    overcommit: int,
    threads: seq<Pc>,
    fate: seq<Fate>)

  function Min(a: int, b: int): int { if a < b then a else b }

  function Repeat(f: Fate, n: nat): (r: seq<Fate>)
    ensures |r| == n && forall i | 0 <= i < n :: r[i] == f
  {
    seq(n, i => f)
  }

  function Goto(s: State, t: nat, pc: Pc): State
    requires t < |s.threads|
  {
    s.(threads := s.threads[t := pc])
  }

  /** The tickets from `ticket` on: `won` of them are good, the next `lost` are not. */
  function Decide(fate: seq<Fate>, ticket: int, won: nat, lost: nat): seq<Fate> {
    if 0 <= ticket && ticket + won + lost <= |fate| then
      fate[..ticket] + Repeat(Won, won) + Repeat(Lost, lost) + fate[ticket + won + lost..]
    else fate
  }

  /** One step of consumer `t`. */
  function Exec(s: State, t: nat): State
    requires t < |s.threads|
  {
    match s.threads[t]
    case Idle => s
    case LoadTail(max) => Goto(s, t, LoadOvercommit(max, s.tail))
    case LoadOvercommit(max, tail) => Goto(s, t, LoadCount(max, tail, s.overcommit))
    case LoadCount(max, tail, overcommit) =>
      var desired := tail - (s.count - overcommit);
      if desired > 0 then Goto(s, t, Draw(overcommit, Min(desired, max))) else Goto(s, t, Idle)
    case Draw(overcommit, desired) =>
      Goto(s, t, Check(overcommit, s.count, desired))
        .(count := s.count + desired, fate := s.fate + Repeat(Open, desired))
    case Check(overcommit, ticket, desired) =>
      var actual := s.tail - (ticket - overcommit);
      if actual > 0 then
        var won := Min(desired, actual);
        Goto(s, t, if won < desired then Refund(ticket, won, desired - won) else Claim(ticket, won))
          .(fate := Decide(s.fate, ticket, won, desired - won))
      else
        Goto(s, t, GiveUp(ticket, desired)).(fate := Decide(s.fate, ticket, 0, desired))
    case Refund(ticket, actual, lost) =>
      Goto(s, t, Claim(ticket, actual)).(overcommit := s.overcommit + lost)
    case Claim(ticket, actual) => Goto(s, t, Idle).(head := s.head + actual)
    case GiveUp(ticket, lost) => Goto(s, t, Idle).(overcommit := s.overcommit + lost)
  }

  datatype Event =
    | Enqueue(n: nat)                  // the producer publishes n more elements
    | CallDequeue(t: nat, max: nat)
    | Step(t: nat)

  predicate Enabled(s: State, e: Event) {
    match e
    case Enqueue(n) => true
    case CallDequeue(t, max) => t < |s.threads| && s.threads[t].Idle?
    case Step(t) => t < |s.threads| && !s.threads[t].Idle?
  }

  function Next(s: State, e: Event): State
    requires Enabled(s, e)
  {
    match e
    case Enqueue(n) => s.(tail := s.tail + n)
    case CallDequeue(t, max) => Goto(s, t, LoadTail(max))
    case Step(t) => Exec(s, t)
  }

  predicate Init(s: State) {
    && s.tail == s.head == s.count == s.overcommit == 0
    && s.fate == []
    && forall t | 0 <= t < |s.threads| :: s.threads[t].Idle?
  }

  // ---------------------------------------------------------------- counting tickets

  function Count(fate: seq<Fate>, f: Fate): nat {
    if fate == [] then 0 else Count(fate[..|fate| - 1], f) + (if fate[|fate| - 1] == f then 1 else 0)
  }

  /** The tickets with fate `f` that a consumer has not yet accounted for in the shared counters. */
  function Weight(pc: Pc, f: Fate): nat {
    match f
    case Open => if pc.Check? then pc.desired else 0
    case Won => if pc.Refund? || pc.Claim? then pc.actual else 0
    case Lost => if pc.Refund? || pc.GiveUp? then pc.lost else 0
  }

  function Sum(threads: seq<Pc>, f: Fate): nat {
    if threads == [] then 0 else Weight(threads[0], f) + Sum(threads[1..], f)
  }

  lemma {:induction false} SumUpdate(threads: seq<Pc>, t: nat, pc: Pc, f: Fate)
    requires t < |threads|
    ensures Sum(threads[t := pc], f) == Sum(threads, f) - Weight(threads[t], f) + Weight(pc, f)
  {
    if t == 0 {
      assert threads[t := pc][1..] == threads[1..];
    } else {
      assert threads[t := pc][1..] == threads[1..][t - 1 := pc];
      SumUpdate(threads[1..], t - 1, pc, f);
    }
  }

  lemma {:induction false} SumAtLeast(threads: seq<Pc>, t: nat, f: Fate)
    requires t < |threads|
    ensures Weight(threads[t], f) <= Sum(threads, f)
  {
    if t > 0 { SumAtLeast(threads[1..], t - 1, f); }
  }

  lemma {:induction false} SumZero(threads: seq<Pc>, f: Fate)
    requires forall t | 0 <= t < |threads| :: Weight(threads[t], f) == 0
    ensures Sum(threads, f) == 0
  {
    if threads != [] { SumZero(threads[1..], f); }
  }

  lemma {:induction false} CountConcat(a: seq<Fate>, b: seq<Fate>, f: Fate)
    ensures Count(a + b, f) == Count(a, f) + Count(b, f)
  {
    if b == [] {
      assert a + b == a;
    } else {
      assert (a + b)[..|a + b| - 1] == a + b[..|b| - 1];
      CountConcat(a, b[..|b| - 1], f);
    }
  }

  lemma {:induction false} CountRepeat(g: Fate, n: nat, f: Fate)
    ensures Count(Repeat(g, n), f) == if f == g then n else 0
  {
    if n > 0 {
      assert Repeat(g, n)[..n - 1] == Repeat(g, n - 1);
      CountRepeat(g, n - 1, f);
    }
  }

  lemma {:induction false} CountAll(fate: seq<Fate>)
    ensures Count(fate, Open) + Count(fate, Won) + Count(fate, Lost) == |fate|
  {
    if fate != [] { CountAll(fate[..|fate| - 1]); }
  }

  lemma {:induction false} CountPrefix(fate: seq<Fate>, i: nat, f: Fate)
    requires i <= |fate|
    ensures Count(fate[..i], f) <= Count(fate, f)
  {
    CountConcat(fate[..i], fate[i..], f);
    assert fate[..i] + fate[i..] == fate;
  }

  // ---------------------------------------------------------------- the invariant

  /** Tickets are only ever decided, and lost ones stay lost: this is how `b` may follow `a`. */
  predicate Grows(a: seq<Fate>, b: seq<Fate>) {
    && |a| <= |b|
    && forall i | 0 <= i < |a| :: a[i] != Open ==> b[i] == a[i]
  }

  lemma {:induction false} LostGrows(a: seq<Fate>, b: seq<Fate>, i: nat)
    requires Grows(a, b) && i <= |a|
    ensures Count(a[..i], Lost) <= Count(b[..i], Lost)
  {
    if i > 0 {
      LostGrows(a, b, i - 1);
      assert a[..i][..i - 1] == a[..i - 1] && b[..i][..i - 1] == b[..i - 1];
    }
  }

  /** The overcommit a consumer has read counts only tickets that were lost before its own. */
  predicate ThreadOk(s: State, pc: Pc) {
    match pc
    case LoadOvercommit(_, tail) => tail <= s.tail
    case LoadCount(_, tail, o) => tail <= s.tail && o <= Count(s.fate, Lost)
    case Draw(o, _) => o <= Count(s.fate, Lost)
    case Check(o, c, d) =>
      && 0 <= c && c + d <= |s.fate|
      && o <= Count(s.fate[..c], Lost)
      && forall i | c <= i < c + d :: s.fate[i] == Open
    case _ => true
  }

  /** Two undecided consumers hold different tickets. */
  predicate Apart(p: Pc, q: Pc) {
    p.Check? && q.Check? ==> p.ticket + p.desired <= q.ticket || q.ticket + q.desired <= p.ticket
                             || p.desired == 0 || q.desired == 0
  }

  /** The tickets up to a good one, less those already lost, do not outnumber the elements enqueued. */
  predicate Fits(fate: seq<Fate>, i: nat, tail: int)
    requires i < |fate|
  {
    fate[i] == Won ==> i + 1 - Count(fate[..i + 1], Lost) <= tail
  }

  predicate Inv(s: State) {
    && |s.fate| == s.count
    && 0 <= s.tail
    && Count(s.fate, Open) == Sum(s.threads, Open)
    && Count(s.fate, Won) == s.head + Sum(s.threads, Won)
    && Count(s.fate, Lost) == s.overcommit + Sum(s.threads, Lost)
    && (forall t | 0 <= t < |s.threads| :: ThreadOk(s, s.threads[t]))
    && (forall t, u | 0 <= t < u < |s.threads| :: Apart(s.threads[t], s.threads[u]))
    && (forall i | 0 <= i < |s.fate| :: Fits(s.fate, i, s.tail))
  }

  // ---------------------------------------------------------------- every step keeps the invariant

  lemma InitInv(s: State)
    requires Init(s)
    ensures Inv(s)
  {
    SumZero(s.threads, Open);
    SumZero(s.threads, Won);
    SumZero(s.threads, Lost);
  }

  /** Moving thread `t` to `pc` changes what the threads still owe by what `t` owes. */
  lemma Sums(threads: seq<Pc>, t: nat, pc: Pc)
    requires t < |threads|
    ensures forall f :: Sum(threads[t := pc], f) == Sum(threads, f) - Weight(threads[t], f) + Weight(pc, f)
    ensures forall f :: Weight(threads[t], f) <= Sum(threads, f)
  {
    forall f
      ensures Sum(threads[t := pc], f) == Sum(threads, f) - Weight(threads[t], f) + Weight(pc, f)
      ensures Weight(threads[t], f) <= Sum(threads, f)
    {
      SumUpdate(threads, t, pc, f);
      SumAtLeast(threads, t, f);
    }
  }

  /** Steps that decide no ticket. */
  lemma PlainStep(s: State, s': State, t: nat)
    requires Inv(s) && t < |s.threads| == |s'.threads|
    requires s' == Goto(s, t, s'.threads[t]).(head := s'.head, overcommit := s'.overcommit)
    requires !s.threads[t].Check? && !s'.threads[t].Check?
    requires ThreadOk(s, s'.threads[t])
    requires s'.head + Weight(s'.threads[t], Won) == s.head + Weight(s.threads[t], Won)
    requires s'.overcommit + Weight(s'.threads[t], Lost) == s.overcommit + Weight(s.threads[t], Lost)
    ensures Inv(s')
  {
    Sums(s.threads, t, s'.threads[t]);
    forall u | 0 <= u < |s'.threads| ensures ThreadOk(s', s'.threads[u]) {
      assert ThreadOk(s, s.threads[u]);
    }
  }

  lemma ReadSteps(s: State, t: nat)
    requires Inv(s) && t < |s.threads|
    requires var pc := s.threads[t]; pc.LoadTail? || pc.LoadOvercommit? || pc.LoadCount?
    ensures Inv(Exec(s, t))
  {
    assert ThreadOk(s, s.threads[t]);
    PlainStep(s, Exec(s, t), t);
  }

  lemma CounterSteps(s: State, t: nat)
    requires Inv(s) && t < |s.threads|
    requires var pc := s.threads[t]; pc.Refund? || pc.Claim? || pc.GiveUp?
    ensures Inv(Exec(s, t))
  {
    PlainStep(s, Exec(s, t), t);
  }

  lemma DrawStep(s: State, t: nat)
    requires Inv(s) && t < |s.threads| && s.threads[t].Draw?
    ensures Inv(Exec(s, t))
  {
    var s', d := Exec(s, t), s.threads[t].desired;
    assert ThreadOk(s, s.threads[t]);
    Sums(s.threads, t, s'.threads[t]);
    forall f ensures Count(s'.fate, f) == Count(s.fate, f) + (if f == Open then d else 0) {
      CountConcat(s.fate, Repeat(Open, d), f);
      CountRepeat(Open, d, f);
    }
    forall i | 0 <= i <= |s.fate| ensures s'.fate[..i] == s.fate[..i] {
    }
    forall u | 0 <= u < |s'.threads| ensures ThreadOk(s', s'.threads[u]) {
      assert ThreadOk(s, s.threads[u]);
      assert s'.fate[..s.count] == s.fate;
    }
    forall u, v | 0 <= u < v < |s'.threads| ensures Apart(s'.threads[u], s'.threads[v]) {
      assert Apart(s.threads[u], s.threads[v]);
      assert ThreadOk(s, s.threads[u]) && ThreadOk(s, s.threads[v]);
    }
    forall i | 0 <= i < |s'.fate| ensures Fits(s'.fate, i, s'.tail) {
      if i < |s.fate| { assert Fits(s.fate, i, s.tail); }
    }
  }

  lemma DecideElements(fate: seq<Fate>, c: nat, won: nat, lost: nat)
    requires c + won + lost <= |fate| && forall i | c <= i < c + won + lost :: fate[i] == Open
    ensures var b := Decide(fate, c, won, lost);
            && |b| == |fate|
            && Grows(fate, b)
            && (forall i | 0 <= i < |fate| ::
                  b[i] == if c <= i < c + won then Won else if c + won <= i < c + won + lost then Lost else fate[i])
  {
  }

  lemma CountThree(a: seq<Fate>, g: Fate, n: nat, h: Fate, m: nat, z: seq<Fate>, f: Fate)
    ensures Count(a + Repeat(g, n) + Repeat(h, m) + z, f)
         == Count(a, f) + (if f == g then n else 0) + (if f == h then m else 0) + Count(z, f)
  {
    CountConcat(a + Repeat(g, n) + Repeat(h, m), z, f);
    CountConcat(a + Repeat(g, n), Repeat(h, m), f);
    CountConcat(a, Repeat(g, n), f);
    CountRepeat(g, n, f);
    CountRepeat(h, m, f);
  }

  lemma DecideCounts(fate: seq<Fate>, c: nat, won: nat, lost: nat)
    requires c + won + lost <= |fate| && forall i | c <= i < c + won + lost :: fate[i] == Open
    ensures var b := Decide(fate, c, won, lost);
            && |b| == |fate|
            && Grows(fate, b)
            && (forall i | 0 <= i < |fate| ::
                  b[i] == if c <= i < c + won then Won else if c + won <= i < c + won + lost then Lost else fate[i])
            && Count(b, Open) == Count(fate, Open) - won - lost
            && Count(b, Won) == Count(fate, Won) + won
            && Count(b, Lost) == Count(fate, Lost) + lost
  {
    DecideElements(fate, c, won, lost);
    hide Count;
    var z := fate[c + won + lost..];
    assert fate == fate[..c] + Repeat(Open, won) + Repeat(Open, lost) + z;
    forall f
      ensures Count(fate, f) == Count(fate[..c], f) + (if f == Open then won + lost else 0) + Count(z, f)
      ensures Count(Decide(fate, c, won, lost), f)
           == Count(fate[..c], f) + (if f == Won then won else 0) + (if f == Lost then lost else 0) + Count(z, f)
    {
      CountThree(fate[..c], Open, won, Open, lost, z, f);
      CountThree(fate[..c], Won, won, Lost, lost, z, f);
    }
  }

  /** The heart of the matter: a consumer that read overcommit `o` and drew ticket `c` knows that at
      least `o` of the `c` earlier tickets are lost, so its good tickets stay within the tail. */
  lemma DecideFits(fate: seq<Fate>, c: nat, won: nat, lost: nat, o: int, tail: int, i: nat)
    requires c + won + lost <= |fate| && forall j | c <= j < c + won + lost :: fate[j] == Open
    requires o <= Count(fate[..c], Lost) && (won > 0 ==> c - o + won <= tail)
    requires i < |fate| && Fits(fate, i, tail)
    ensures Fits(Decide(fate, c, won, lost), i, tail)
  {
    var b := Decide(fate, c, won, lost);
    DecideCounts(fate, c, won, lost);
    hide Decide, Count, Fits, Grows;
    if c <= i < c + won {
      OwnFits(fate, b, c, won, o, tail, i);
    } else {
      OtherFits(fate, b, tail, i);
    }
  }

  lemma OtherFits(fate: seq<Fate>, b: seq<Fate>, tail: int, i: nat)
    requires i < |fate| && Grows(fate, b) && Fits(fate, i, tail) && (b[i] == fate[i] || b[i] == Lost)
    ensures i < |b| && Fits(b, i, tail)
  {
    LostGrows(fate, b, i + 1);
    hide Count;
  }

  lemma OwnFits(fate: seq<Fate>, b: seq<Fate>, c: nat, won: nat, o: int, tail: int, i: nat)
    requires c <= i < c + won <= |b| == |fate| && forall j | 0 <= j < c :: b[j] == fate[j]
    requires o <= Count(fate[..c], Lost) && c - o + won <= tail
    ensures Fits(b, i, tail)
  {
    hide Count;
    assert b[..i + 1][..c] == fate[..c];
    CountPrefix(b[..i + 1], c, Lost);
  }

  /** What an undecided consumer knows survives the decision of another. */
  lemma DecideOther(fate: seq<Fate>, c: nat, won: nat, lost: nat, p: Pc)
    requires c + won + lost <= |fate| && forall j | c <= j < c + won + lost :: fate[j] == Open
    requires p.Check? && 0 <= p.ticket && p.ticket + p.desired <= |fate|
    requires p.overcommit <= Count(fate[..p.ticket], Lost)
    requires forall j | p.ticket <= j < p.ticket + p.desired :: fate[j] == Open
    requires p.desired == 0 || won + lost == 0 || c + won + lost <= p.ticket || p.ticket + p.desired <= c
    ensures var b := Decide(fate, c, won, lost);
            && |b| == |fate|
            && p.overcommit <= Count(b[..p.ticket], Lost)
            && forall j | p.ticket <= j < p.ticket + p.desired :: b[j] == Open
  {
    DecideCounts(fate, c, won, lost);
    LostGrows(fate, Decide(fate, c, won, lost), p.ticket);
  }

  function Good(s: State, pc: Pc): nat
    requires pc.Check?
  {
    var actual := s.tail - (pc.ticket - pc.overcommit);
    if actual > 0 then Min(pc.desired, actual) else 0
  }

  lemma CheckDecides(s: State, t: nat)
    requires t < |s.threads| && s.threads[t].Check?
    ensures var pc, s', won := s.threads[t], Exec(s, t), Good(s, s.threads[t]);
            && won <= pc.desired
            && (won > 0 ==> pc.ticket - pc.overcommit + won <= s.tail)
            && s' == Goto(s, t, s'.threads[t]).(fate := Decide(s.fate, pc.ticket, won, pc.desired - won))
            && !s'.threads[t].Check?
            && ThreadOk(s', s'.threads[t])
            && Weight(s'.threads[t], Open) == 0
            && Weight(s'.threads[t], Won) == won
            && Weight(s'.threads[t], Lost) == pc.desired - won
  {
  }

  /** What any other consumer relies on survives the decision of consumer `p`. */
  lemma OtherThreadOk(s: State, s': State, p: Pc, won: nat, q: Pc)
    requires ThreadOk(s, p) && ThreadOk(s, q) && p.Check? && Apart(p, q) && won <= p.desired
    requires s'.tail == s.tail && s'.fate == Decide(s.fate, p.ticket, won, p.desired - won)
    ensures ThreadOk(s', q)
  {
    hide Decide;
    DecideCounts(s.fate, p.ticket, won, p.desired - won);
    if q.Check? { DecideOther(s.fate, p.ticket, won, p.desired - won, q); }
  }

  lemma CheckStepThreads(s: State, t: nat, u: nat)
    requires Inv(s) && t < |s.threads| && s.threads[t].Check? && u < |s.threads|
    ensures ThreadOk(Exec(s, t), Exec(s, t).threads[u])
  {
    var s', p, won := Exec(s, t), s.threads[t], Good(s, s.threads[t]);
    CheckDecides(s, t);
    hide Exec, Good, Decide, ThreadOk, Fits, Count, Sum;
    if u != t {
      assert ThreadOk(s, p) && ThreadOk(s, s.threads[u]);
      assert if t < u then Apart(s.threads[t], s.threads[u]) else Apart(s.threads[u], s.threads[t]);
      OtherThreadOk(s, s', p, won, s.threads[u]);
    }
  }

  lemma CheckStep(s: State, t: nat)
    requires Inv(s) && t < |s.threads| && s.threads[t].Check?
    ensures Inv(Exec(s, t))
  {
    var s' := Exec(s, t);
    CheckStepCounts(s, t);
    forall i | 0 <= i < |s'.fate| ensures Fits(s'.fate, i, s.tail) {
      CheckStepFits(s, t, i);
    }
    forall u | 0 <= u < |s'.threads| ensures ThreadOk(s', s'.threads[u]) {
      CheckStepThreads(s, t, u);
    }
    CheckDecides(s, t);
    hide Exec, Good, Decide, ThreadOk, Fits, Count, Sum;
  }

  lemma CheckStepCounts(s: State, t: nat)
    requires Inv(s) && t < |s.threads| && s.threads[t].Check?
    ensures var s' := Exec(s, t);
            && |s'.fate| == |s.fate|
            && Count(s'.fate, Open) == Sum(s'.threads, Open)
            && Count(s'.fate, Won) == s'.head + Sum(s'.threads, Won)
            && Count(s'.fate, Lost) == s'.overcommit + Sum(s'.threads, Lost)
  {
    var s', p, won := Exec(s, t), s.threads[t], Good(s, s.threads[t]);
    assert ThreadOk(s, p);
    hide Apart, Fits;
    CheckDecides(s, t);
    DecideCounts(s.fate, p.ticket, won, p.desired - won);
    hide Exec, Good, Decide;
    Sums(s.threads, t, s'.threads[t]);
  }

  lemma CheckStepFits(s: State, t: nat, i: nat)
    requires Inv(s) && t < |s.threads| && s.threads[t].Check? && i < |Exec(s, t).fate|
    ensures Fits(Exec(s, t).fate, i, s.tail)
  {
    var p, won := s.threads[t], Good(s, s.threads[t]);
    assert ThreadOk(s, p);
    CheckDecides(s, t);
    DecideCounts(s.fate, p.ticket, won, p.desired - won);
    hide Exec, Good, Decide, Apart, Count;
    DecideFits(s.fate, p.ticket, won, p.desired - won, p.overcommit, s.tail, i);
  }

  lemma NextKeepsInv(s: State, e: Event)
    requires Inv(s) && Enabled(s, e)
    ensures Inv(Next(s, e))
  {
    match e
    case Enqueue(n) =>
      var s' := Next(s, e);
      forall u | 0 <= u < |s'.threads| ensures ThreadOk(s', s'.threads[u]) {
        assert ThreadOk(s, s.threads[u]);
      }
      forall i | 0 <= i < |s'.fate| ensures Fits(s'.fate, i, s'.tail) {
        assert Fits(s.fate, i, s.tail);
      }
    case CallDequeue(t, max) => PlainStep(s, Next(s, e), t);
    case Step(t) =>
      match s.threads[t]
      case LoadTail(_) => ReadSteps(s, t);
      case LoadOvercommit(_, _) => ReadSteps(s, t);
      case LoadCount(_, _, _) => ReadSteps(s, t);
      case Draw(_, _) => DrawStep(s, t);
      case Check(_, _, _) => CheckStep(s, t);
      case Refund(_, _, _) => CounterSteps(s, t);
      case Claim(_, _) => CounterSteps(s, t);
      case GiveUp(_, _) => CounterSteps(s, t);
  }

  // ---------------------------------------------------------------- what follows

  lemma {:induction false} WonFitsTail(fate: seq<Fate>, i: nat, tail: int)
    requires i <= |fate| && 0 <= tail
    requires forall j | 0 <= j < |fate| :: Fits(fate, j, tail)
    ensures Count(fate[..i], Won) <= tail
  {
    if i > 0 {
      assert fate[..i][..i - 1] == fate[..i - 1];
      if fate[i - 1] == Won {
        assert Fits(fate, i - 1, tail);
        CountAll(fate[..i]);
      } else {
        WonFitsTail(fate, i - 1, tail);
      }
    }
  }

  /** The head never passes the tail, not even counting the consumers that have been promised elements
      and have yet to claim them. */
  lemma HeadWithinTail(s: State)
    requires Inv(s)
    ensures s.head + Sum(s.threads, Won) <= s.tail
  {
    WonFitsTail(s.fate, |s.fate|, s.tail);
    assert s.fate[..|s.fate|] == s.fate;
  }

  /** Conservation: every ticket drawn has been claimed, handed back, or is still in flight. */
  lemma TicketsBalance(s: State)
    requires Inv(s)
    ensures s.count == s.head + s.overcommit
                     + Sum(s.threads, Open) + Sum(s.threads, Won) + Sum(s.threads, Lost)
  {
    CountAll(s.fate);
  }

  /** A run of the sub-queue: any interleaving of one producer and any number of consumers. */
  predicate IsRun(states: seq<State>, events: seq<Event>) {
    && |states| == |events| + 1
    && Init(states[0])
    && forall i | 0 <= i < |events| :: Follows(states[i], events[i], states[i + 1])
  }

  predicate Follows(s: State, e: Event, s': State) { Enabled(s, e) && s' == Next(s, e) }

  lemma {:induction false} RunInv(states: seq<State>, events: seq<Event>, i: nat)
    requires IsRun(states, events) && i <= |events|
    ensures Inv(states[i])
    decreases i
  {
    if i == 0 {
      InitInv(states[0]);
    } else {
      RunInv(states, events, i - 1);
      assert Follows(states[i - 1], events[i - 1], states[i - 1 + 1]);
      NextKeepsInv(states[i - 1], events[i - 1]);
    }
  }

  /** Event `e` makes a consumer claim index `i`: it lies in the range that the fetch_add returns. */
  predicate Claims(s: State, e: Event, i: int) {
    && e.Step? && e.t < |s.threads| && s.threads[e.t].Claim?
    && s.head <= i < s.head + s.threads[e.t].actual
  }

  lemma HeadMoves(s: State, e: Event, i: int)
    requires Enabled(s, e)
    ensures s.head <= Next(s, e).head
    ensures Claims(s, e, i) <==> s.head <= i < Next(s, e).head
  {
  }

  lemma {:induction false} HeadMonotone(states: seq<State>, events: seq<Event>, i: nat, j: nat)
    requires IsRun(states, events) && i <= j <= |events|
    ensures states[i].head <= states[j].head
    decreases j - i
  {
    if i < j {
      HeadMonotone(states, events, i, j - 1);
      assert Follows(states[j - 1], events[j - 1], states[j - 1 + 1]);
      HeadMoves(states[j - 1], events[j - 1], 0);
    }
  }

  lemma {:induction false} ClaimedSomewhere(states: seq<State>, events: seq<Event>, n: nat, i: int)
    requires IsRun(states, events) && n <= |events| && 0 <= i < states[n].head
    ensures exists k :: 0 <= k < n && Claims(states[k], events[k], i)
    decreases n
  {
    if n > 0 {
      assert Follows(states[n - 1], events[n - 1], states[n - 1 + 1]);
      HeadMoves(states[n - 1], events[n - 1], i);
      if i < states[n - 1].head { ClaimedSomewhere(states, events, n - 1, i); }
    }
  }

  /** Over any run every index below the head has been claimed by exactly one step of one consumer, and
      it had been enqueued when it was claimed. */
  lemma ClaimedExactlyOnce(states: seq<State>, events: seq<Event>, n: nat, i: int)
    requires IsRun(states, events) && n <= |events|
    ensures 0 <= i < states[n].head <==> exists k :: 0 <= k < n && Claims(states[k], events[k], i)
    ensures forall j, k | 0 <= j < k < n && Claims(states[j], events[j], i) :: !Claims(states[k], events[k], i)
    ensures forall k | 0 <= k < n && Claims(states[k], events[k], i) :: i < states[k].tail
  {
    if 0 <= i < states[n].head { ClaimedSomewhere(states, events, n, i); }
    forall k | 0 <= k < n && Claims(states[k], events[k], i)
      ensures 0 <= i < states[n].head && i < states[k].tail
      ensures forall j | k < j < n :: !Claims(states[j], events[j], i)
    {
      RunInv(states, events, k);
      HeadWithinTail(states[k]);
      SumAtLeast(states[k].threads, events[k].t, Won);
      HeadMonotone(states, events, 0, k);
      assert Follows(states[k], events[k], states[k + 1]);
      HeadMonotone(states, events, k + 1, n);
      forall j | k < j < n ensures !Claims(states[j], events[j], i) {
        HeadMonotone(states, events, k + 1, j);
      }
    }
  }

  // ---------------------------------------------------------------- nothing is left behind

  /** Thread `t` alone takes `n` steps. */
  function Solo(s: State, t: nat, n: nat): State
    requires t < |s.threads|
    decreases n
  {
    if n == 0 then s else Solo(Exec(s, t), t, n - 1)
  }

  lemma QuietBalance(s: State)
    requires Inv(s) && forall u | 0 <= u < |s.threads| :: s.threads[u].Idle?
    ensures s.count - s.overcommit == s.head
  {
    TicketsBalance(s);
    SumZero(s.threads, Open);
    SumZero(s.threads, Won);
    SumZero(s.threads, Lost);
  }

  /** The failed attempts of the past never cost a consumer an element: when no other call is in
      progress, a dequeue of up to `max` elements takes exactly as many as there are, and it leaves the
      counters balanced. */
  lemma QuietDequeueTakesWhatIsThere(s: State, t: nat, max: nat)
    requires Inv(s) && t < |s.threads| && forall u | 0 <= u < |s.threads| :: s.threads[u].Idle?
    ensures var s' := Solo(Next(s, CallDequeue(t, max)), t, 6);
            && s'.threads == s.threads
            && s'.tail == s.tail
            && s'.head == s.head + Min(max, s.tail - s.head)
            && s'.overcommit == s.overcommit
            && s'.count == s.count + Min(max, s.tail - s.head)
  {
    QuietBalance(s);
    HeadWithinTail(s);
    var s0 := Next(s, CallDequeue(t, max));
    var s1 := Exec(s0, t);
    var s2 := Exec(s1, t);
    var s3 := Exec(s2, t);
    SoloUnfold(s0, t);
    var n := s.tail - s.head;
    if n > 0 {
      assert s3.threads[t] == Draw(s.overcommit, Min(n, max));
      var s4 := Exec(s3, t);
      assert s4.threads[t] == Check(s.overcommit, s.count, Min(n, max));
      var s5 := Exec(s4, t);
      assert s5.threads[t] == Claim(s.count, Min(n, max));
      var s6 := Exec(s5, t);
      assert s6.threads == s.threads[t := Idle] == s.threads;
    } else {
      assert s3.threads == s.threads[t := Idle] == s.threads;
    }
  }

  lemma SoloUnfold(s: State, t: nat)
    requires t < |s.threads|
    ensures Solo(s, t, 6) == Exec(Exec(Exec(Exec(Exec(Exec(s, t), t), t), t), t), t)
  {
    var s1 := Exec(s, t);
    var s2 := Exec(s1, t);
    var s3 := Exec(s2, t);
    var s4 := Exec(s3, t);
    hide Exec;
    assert Solo(s, t, 6) == Solo(s1, t, 5) == Solo(s2, t, 4) == Solo(s3, t, 3) == Solo(s4, t, 2);
  }

  // ---------------------------------------------------------------- what the calls come to

  /** How many elements the first `i` events enqueue. */
  function Enqueued(events: seq<Event>, i: nat): nat
    requires i <= |events|
  {
    if i == 0 then 0 else Enqueued(events, i - 1) + (if events[i - 1].Enqueue? then events[i - 1].n else 0)
  }

  /** Over any run the tail is the number of all elements enqueued, whatever consumers do. */
  lemma {:induction false} TailIsEnqueued(states: seq<State>, events: seq<Event>, i: nat)
    requires IsRun(states, events) && i <= |events|
    ensures states[i].tail == Enqueued(events, i)
    decreases i
  {
    if i > 0 {
      TailIsEnqueued(states, events, i - 1);
      assert Follows(states[i - 1], events[i - 1], states[i - 1 + 1]);
    }
  }

  /** The steps that a consumer still takes at most. */
  function StepsLeft(pc: Pc): nat {
    match pc
    case Idle => 0
    case LoadTail(_) => 7
    case LoadOvercommit(_, _) => 6
    case LoadCount(_, _, _) => 5
    case Draw(_, _) => 4
    case Check(_, _, _) => 3
    case Refund(_, _, _) => 2
    case Claim(_, _) => 1
    case GiveUp(_, _) => 1
  }

  /** A dequeue never waits for anybody: its next step is always possible, and whatever others do it is over after
      seven of its own steps. */
  lemma DequeueEnds(s: State, e: Event, t: nat)
    requires Enabled(s, e) && t < |s.threads| && !s.threads[t].Idle?
    ensures Enabled(s, Step(t))
    ensures |Next(s, e).threads| == |s.threads|
    ensures var left := StepsLeft(Next(s, e).threads[t]);
            0 < StepsLeft(s.threads[t]) <= 7 && if e == Step(t) then left < StepsLeft(s.threads[t]) else left == StepsLeft(s.threads[t])
  {
  }

  /** The tickets of consumers in the middle of their calls. */
  function InFlight(s: State): nat { Sum(s.threads, Open) + Sum(s.threads, Won) + Sum(s.threads, Lost) }

  lemma {:induction false} Untouched(states: seq<State>, events: seq<Event>, t: nat, i: nat, j: nat)
    requires IsRun(states, events) && i < j <= |events| && events[i] == Step(t) && !states[i + 1].threads[t].Idle?
    requires forall k | i < k < j :: events[k] != Step(t)
    ensures t < |states[i].threads| == |states[j].threads| && states[j].threads[t] == Exec(states[i], t).threads[t]
    decreases j
  {
    assert Follows(states[i], events[i], states[i + 1]);
    if j > i + 1 {
      Untouched(states, events, t, i, j - 1);
      assert Follows(states[j - 1], events[j - 1], states[j - 1 + 1]);
      hide Exec;
      OthersStep(states[j - 1], events[j - 1], t);
    }
  }

  lemma OthersStep(s: State, e: Event, t: nat)
    requires Enabled(s, e) && t < |s.threads| && !s.threads[t].Idle? && e != Step(t)
    ensures |Next(s, e).threads| == |s.threads| && Next(s, e).threads[t] == s.threads[t]
  {
  }

  /** Over any run, exactly when a consumer comes back without drawing a ticket: if the elements that it saw and that
      are not claimed yet are no more than the tickets in flight and those handed back since it looked. So with no
      other call in progress it comes back empty-handed only from an empty queue. */
  lemma EmptyHanded(states: seq<State>, events: seq<Event>, t: nat, i: nat, j: nat)
    requires IsRun(states, events) && i < j < |events| && events[i] == events[j] == Step(t)
    requires t < |states[i].threads| && states[i].threads[t].LoadOvercommit?
    requires forall k | i < k < j :: events[k] != Step(t)
    ensures t < |states[j + 1].threads|
    ensures states[j + 1].threads[t].Idle? <==>
              states[i].threads[t].tail - states[j].head <= InFlight(states[j]) + states[j].overcommit - states[i].overcommit
  {
    assert Follows(states[i], events[i], states[i + 1]);
    Untouched(states, events, t, i, j);
    RunInv(states, events, j);
    TicketsBalance(states[j]);
    assert Follows(states[j], events[j], states[j + 1]);
    hide Inv;
  }
}

// The same sub-queue with the 64-bit counters of the program: every counter and every difference wraps
// around, and order is decided by `circular_less_than`.
module WrappedTickets {
  import opened DequeueTickets
  import opened Words

  /** The locals of a consumer as the program holds them. */
  function WrapPc(pc: Pc): Pc {
    match pc
    case Idle => pc
    case LoadTail(max) => pc
    case LoadOvercommit(max, tail) => LoadOvercommit(max, Wrap(tail))
    case LoadCount(max, tail, o) => LoadCount(max, Wrap(tail), Wrap(o))
    case Draw(o, d) => Draw(Wrap(o), d)
    case Check(o, c, d) => Check(Wrap(o), Wrap(c), d)
    case Refund(c, a, l) => Refund(Wrap(c), a, l)
    case Claim(c, a) => Claim(Wrap(c), a)
    case GiveUp(c, l) => GiveUp(Wrap(c), l)
  }

  datatype Counters = Counters(tail: nat, head: nat, count: nat, overcommit: nat)

  function WrapCounters(s: State): Counters {
    Counters(Wrap(s.tail), Wrap(s.head), Wrap(s.count), Wrap(s.overcommit))
  }

  /** One step of a consumer of the program, on wrapped counters and wrapped locals. */
  function WrappedExec(k: Counters, pc: Pc): (Counters, Pc) {
    match pc
    case Idle => (k, pc)
    case LoadTail(max) => (k, LoadOvercommit(max, k.tail))
    case LoadOvercommit(max, tail) => (k, LoadCount(max, tail, k.overcommit))
    case LoadCount(max, tail, o) =>
      var desired := Wrap(tail - Wrap(k.count - o));
      (k, if CircularLessThan(0, desired) then Draw(o, if desired < max then desired else max) else Idle)
    case Draw(o, d) => (k.(count := Wrap(k.count + d)), Check(o, k.count, d))
    case Check(o, c, d) =>
      var actual := Wrap(k.tail - Wrap(c - o));
      if CircularLessThan(0, actual) then
        var won := if d < actual then d else actual;
        (k, if won < d then Refund(c, won, d - won) else Claim(c, won))
      else (k, GiveUp(c, d))
    case Refund(c, a, l) => (k.(overcommit := Wrap(k.overcommit + l)), Claim(c, a))
    case Claim(c, a) => (k.(head := Wrap(k.head + a)), Idle)
    case GiveUp(c, l) => (k.(overcommit := Wrap(k.overcommit + l)), Idle)
  }

  /** The differences the program compares fit a signed word. */
  predicate InWindow(s: State, pc: Pc) {
    && (pc.LoadCount? ==> -HALF <= pc.tail - (s.count - pc.overcommit) < HALF)
    && (pc.Check? ==> -HALF <= s.tail - (pc.ticket - pc.overcommit) < HALF)
  }

  lemma Difference(tail: int, c: int, o: int)
    requires -HALF <= tail - (c - o) < HALF
    ensures var d := Wrap(Wrap(tail) - Wrap(Wrap(c) - Wrap(o)));
            && (CircularLessThan(0, d) <==> tail - (c - o) > 0)
            && (tail - (c - o) > 0 ==> d == tail - (c - o))
  {
    WrapSub(c, o);
    WrapSub(tail, c - o);
    PositiveTest(tail - (c - o));
  }

  /** The test of `dequeue` for an element is that of `dequeue_bulk` for one: a positive difference. */
  lemma SingleTest(tail: int, c: int, o: int)
    requires -HALF <= tail - (c - o) < HALF
    ensures CircularLessThan(Wrap(Wrap(c) - Wrap(o)), Wrap(tail))
       <==> CircularLessThan(0, Wrap(Wrap(tail) - Wrap(Wrap(c) - Wrap(o))))
  {
    WrapSub(c, o);
    CircularOrder(c - o, tail);
    Difference(tail, c, o);
  }

  /** Refinement: while live differences stay within a signed word, a step of the program's wrapped
      counters is the wrapped image of the unbounded step, whatever the counters have wrapped to. */
  lemma WrappedStepRefines(s: State, t: nat)
    requires t < |s.threads| && InWindow(s, s.threads[t])
    ensures WrappedExec(WrapCounters(s), WrapPc(s.threads[t]))
         == (WrapCounters(Exec(s, t)), WrapPc(Exec(s, t).threads[t]))
  {
    match s.threads[t]
    case LoadCount(max, tail, o) => Difference(tail, s.count, o);
    case Draw(o, d) => WrapAdd(s.count, d);
    case Check(o, c, d) => Difference(s.tail, c, o);
    case Refund(c, a, l) => WrapAdd(s.overcommit, l);
    case Claim(c, a) => WrapAdd(s.head, a);
    case GiveUp(c, l) => WrapAdd(s.overcommit, l);
    case _ =>
  }

  lemma DifferencesFit(s: State, t: nat)
    requires Inv(s) && t < |s.threads|
    requires s.tail - s.head < HALF
    requires var pc := s.threads[t];
             && (pc.LoadCount? ==> s.count - pc.overcommit - pc.tail <= HALF)
             && (pc.Check? ==> pc.ticket - pc.overcommit - s.tail <= HALF)
             && (pc.Check? ==> s.tail - s.head + (s.count - pc.ticket) < HALF)
    ensures InWindow(s, s.threads[t])
  {
    assert ThreadOk(s, s.threads[t]);
    TicketsBalance(s);
    if s.threads[t].Check? { EarlierTickets(s, s.threads[t].ticket); }
  }

  /** The tickets below `c` that are not lost, and the tickets from `c` on, cover the head. */
  lemma EarlierTickets(s: State, c: nat)
    requires Inv(s) && c <= |s.fate|
    ensures s.head <= c - Count(s.fate[..c], Lost) + s.count - c
  {
    hide ThreadOk, Apart, Fits;
    CountAll(s.fate[..c]);
    CountAll(s.fate[c..]);
    CountConcat(s.fate[..c], s.fate[c..], Won);
    assert s.fate[..c] + s.fate[c..] == s.fate;
  }

  // ---------------------------------------------------------------- whole runs

  datatype WState = WState(k: Counters, threads: seq<Pc>)

  function WrapState(s: State): WState {
    WState(WrapCounters(s), seq(|s.threads|, t requires 0 <= t < |s.threads| => WrapPc(s.threads[t])))
  }

  /** What happens to the unbounded and to the wrapped sub-queue when `events` happen in order; events
      that are not possible are skipped. */
  function Play(s: State, events: seq<Event>): State {
    if events == [] then s
    else
      var before := Play(s, events[..|events| - 1]);
      var e := events[|events| - 1];
      if Enabled(before, e) then Next(before, e) else before
  }

  function WrappedPlay(w: WState, events: seq<Event>): WState {
    if events == [] then w
    else WrappedNext(WrappedPlay(w, events[..|events| - 1]), events[|events| - 1])
  }

  function WrappedNext(w: WState, e: Event): WState {
    match e
    case Enqueue(n) => w.(k := w.k.(tail := Wrap(w.k.tail + n)))
    case CallDequeue(t, max) =>
      if t < |w.threads| && w.threads[t].Idle? then w.(threads := w.threads[t := LoadTail(max)]) else w
    case Step(t) =>
      if t < |w.threads| && !w.threads[t].Idle? then
        var (k, pc) := WrappedExec(w.k, w.threads[t]);
        WState(k, w.threads[t := pc])
      else w
  }

  lemma WrappedNextRefines(s: State, e: Event)
    requires e.Step? && e.t < |s.threads| ==> InWindow(s, s.threads[e.t])
    ensures WrappedNext(WrapState(s), e) == WrapState(if Enabled(s, e) then Next(s, e) else s)
  {
    match e
    case Enqueue(n) => WrapAdd(s.tail, n);
    case CallDequeue(t, max) =>
    case Step(t) => if Enabled(s, e) { WrappedStepRefines(s, t); }
  }

  /** Over any run whose comparisons stay in the window, the wrapped sub-queue is the wrapped image of
      the unbounded one, so everything proved of the latter holds of the program. */
  lemma {:induction false} WrappedRunRefines(s: State, events: seq<Event>)
    requires forall i | 0 <= i < |events| && events[i].Step? ::
               var before := Play(s, events[..i]);
               events[i].t < |before.threads| ==> InWindow(before, before.threads[events[i].t])
    ensures WrappedPlay(WrapState(s), events) == WrapState(Play(s, events))
  {
    if events != [] {
      var n := |events| - 1;
      forall i | 0 <= i < n && events[..n][i].Step?
        ensures var before := Play(s, events[..n][..i]);
                events[..n][i].t < |before.threads| ==> InWindow(before, before.threads[events[..n][i].t])
      {
        assert events[..n][..i] == events[..i];
      }
      WrappedRunRefines(s, events[..n]);
      WrappedNextRefines(Play(s, events[..n]), events[n]);
    }
  }

  // ---------------------------------------------------------------- the window holds

  /** Thread `t` of `events` played from `s` is in one and the same call from step `k` to step `i`. */
  predicate InCall(s: State, events: seq<Event>, k: nat, i: nat, t: nat) {
    && k <= i <= |events| && t < |s.threads|
    && PcAt(s, events, k, t).LoadTail?
    && forall j | k <= j <= i :: !PcAt(s, events, j, t).Idle?
  }

  function PcAt(s: State, events: seq<Event>, i: nat, t: nat): Pc
    requires i <= |events| && t < |s.threads|
  {
    SameThreads(s, events[..i]);
    Play(s, events[..i]).threads[t]
  }

  lemma {:induction false} SameThreads(s: State, events: seq<Event>)
    ensures |Play(s, events).threads| == |s.threads|
  {
    if events != [] { SameThreads(s, events[..|events| - 1]); }
  }

  lemma {:induction false} PlayInv(s: State, events: seq<Event>)
    requires Inv(s)
    ensures Inv(Play(s, events))
  {
    hide Inv, Next;
    if events != [] {
      PlayInv(s, events[..|events| - 1]);
      var before := Play(s, events[..|events| - 1]);
      if Enabled(before, events[|events| - 1]) { NextKeepsInv(before, events[|events| - 1]); }
    }
  }

  /** What a consumer knows, in state `s`, of the counters it has read since its call began in `s0`. */
  predicate Since(s0: State, s: State, t: nat)
    requires t < |s.threads|
  {
    && s0.tail <= s.tail && s0.head <= s.head && s0.count <= s.count && s0.overcommit <= s.overcommit
    && match s.threads[t]
       case LoadOvercommit(_, tail) => s0.tail <= tail
       case LoadCount(_, tail, o) => s0.tail <= tail && s0.overcommit <= o
       case Draw(o, _) => s0.overcommit <= o
       case Check(o, c, _) => s0.overcommit <= o && s0.count <= c
       case _ => true
  }

  lemma SinceNext(s0: State, s: State, e: Event, t: nat)
    requires t < |s.threads| && Enabled(s, e) && Since(s0, s, t) && !s.threads[t].Idle?
    ensures Since(s0, Next(s, e), t)
  {
  }

  lemma PlayLast(s: State, events: seq<Event>, i: nat)
    requires 0 < i <= |events|
    ensures var before := Play(s, events[..i - 1]);
            Play(s, events[..i]) == if Enabled(before, events[i - 1]) then Next(before, events[i - 1]) else before
  {
    assert events[..i][..i - 1] == events[..i - 1];
  }

  lemma {:induction false} CallSince(s: State, events: seq<Event>, k: nat, i: nat, t: nat)
    requires InCall(s, events, k, i, t)
    ensures t < |Play(s, events[..i]).threads| && Since(Play(s, events[..k]), Play(s, events[..i]), t)
    decreases i
  {
    hide Next, Play;
    SameThreads(s, events[..i]);
    assert PcAt(s, events, k, t).LoadTail?;
    if i > k {
      CallSince(s, events, k, i - 1, t);
      PlayLast(s, events, i);
      var before := Play(s, events[..i - 1]);
      assert !PcAt(s, events, i - 1, t).Idle?;
      if Enabled(before, events[i - 1]) { SinceNext(Play(s, events[..k]), before, events[i - 1], t); }
    }
  }

  /** The elements that were in the sub-queue at `s0` or came since, the tickets outstanding at `s0`, and the
      tickets drawn since. */
  function Demand(s0: State, s: State): int {
    (s.tail - s0.head) + (s0.count - s0.overcommit - s0.head) + (s.count - s0.count)
  }

  /** What keeps the differences small is one bound: the elements and the tickets that were there when the
      consumer's call began or came since number less than 2^63. */
  lemma WindowHolds(s: State, events: seq<Event>, k: nat, i: nat, t: nat)
    requires Inv(s) && InCall(s, events, k, i, t)
    requires Demand(Play(s, events[..k]), Play(s, events[..i])) < HALF
    ensures InWindow(Play(s, events[..i]), PcAt(s, events, i, t))
  {
    var s0, s1 := Play(s, events[..k]), Play(s, events[..i]);
    CallSince(s, events, k, i, t);
    PlayInv(s, events[..k]);
    PlayInv(s, events[..i]);
    hide Play, InCall;
    TicketsBalance(s0);
    HeadWithinTail(s0);
    assert ThreadOk(s1, s1.threads[t]);
    DifferencesFit(s1, t);
  }

  lemma {:induction false} CallBegan(s: State, events: seq<Event>, i: nat, t: nat) returns (k: nat)
    requires t < |s.threads| && s.threads[t].Idle? && i <= |events| && !PcAt(s, events, i, t).Idle?
    ensures InCall(s, events, k, i, t)
    decreases i
  {
    hide InWindow;
    assert events[..0] == [];
    PlayLast(s, events, i);
    SameThreads(s, events[..i - 1]);
    if PcAt(s, events, i - 1, t).Idle? { k := i; } else { k := CallBegan(s, events, i - 1, t); }
  }

  /** The program refines the unbounded sub-queue over every run from the start, as long as each comparison of
      a consumer is made while the elements and tickets of its call number less than 2^63. */
  lemma BoundedRunRefines(s: State, events: seq<Event>)
    requires Init(s)
    requires forall k: nat, i: nat, t: nat | i < |events| && events[i] == Step(t) && InCall(s, events, k, i, t) ::
               Demand(Play(s, events[..k]), Play(s, events[..i])) < HALF
    ensures WrappedPlay(WrapState(s), events) == WrapState(Play(s, events))
  {
    InitInv(s);
    forall i: nat | i < |events| && events[i].Step?
      ensures var before := Play(s, events[..i]);
              events[i].t < |before.threads| ==> InWindow(before, before.threads[events[i].t])
    {
      var t := events[i].t;
      SameThreads(s, events[..i]);
      if t < |s.threads| && !PcAt(s, events, i, t).Idle? {
        var k := CallBegan(s, events, i, t);
        WindowHolds(s, events, k, i, t);
      }
    }
    WrappedRunRefines(s, events);
  }
}
