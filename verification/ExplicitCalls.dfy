// What the calls of the explicit producer come to, step by step and whatever the consumers do meanwhile: an
// enqueue makes its elements visible when it ends and not before, it ends, and a claimed element can be taken.
module ExplicitCalls {

  import opened Words
  import opened CircularIndex
  import opened ExplicitProducers
  import opened ExplicitSteps

  /** What consumers may claim from. */
  ghost function Visible<T>(s: State<T>): seq<T> {
    if s.out <= |s.view.log| then s.view.log[..s.out] else []
  }

  /** The steps of consumers; all others are the owner's. */
  predicate ByConsumer<T>(e: Event<T>) { e.Claim? || e.LoadIndex? || e.LoadFront? || e.Take? }

  /** The ways in which a call gives up: no block is to be had, or the tail would run half a word ahead. */
  ghost predicate GivesUp<T>(s: State<T>, e: Event<T>) { e.Fail? || (e.LoadHead? && !LeewaySeen(s.view)) }

  // ---------------------------------------------------------------- sizes

  /** What a step of the owner in the middle of a call does to the sizes that its work is measured by. */
  ghost predicate Resized<T>(v: View<T>, w: View<T>, e: Event<T>) {
    && w.head == v.head
    && |w.blockOf| == |v.blockOf| + (if e.Reuse? || e.InsertBlock? then 1 else 0)
    && w.prepared == v.prepared + (if e.ResetBlock? then 1 else 0)
    && w.slotsUsed == v.slotsUsed + (if e.InsertBlock? then 1 else 0)
    && w.Size() == (if e.Grow? then 2 * v.Size() else v.Size())
    && (!e.Construct? ==> w.log == v.log)
  }

  lemma OwnerResizes<T>(s: State<T>, e: Event<T>)
    requires StepInv(s) && Enabled(s, e) && !s.owner.Ready? && !ByConsumer(e)
    ensures Resized(s.view, Next(s, e).view, e)
  {
    var v := s.view;
    InvIndexed(v);
    match e
    case Reuse =>
      FrontFits(v);
      NumberedSizes(v, v.next[v.tailBlock]);
    case InsertBlock =>
      FrontFits(v);
      LinkedIndexed(v);
      NumberedSizes(ExplicitProducers.Linked(v, true), |v.next|);
    case Construct =>
      FillFitsHere(s);
      WrittenFields(v, s.owner.vs[s.owner.k]);
      WrittenSizes(v, s.owner.vs[s.owner.k]);
    case ShowFront =>
      FrontFits(v);
      PublishedSizes(v);
    case _ =>
      hide Inv, Shows, Steady, Links, Contents, Indexed, Current;
  }

  lemma NumberedSizes<T>(v: View<T>, b: nat)
    requires Indexed(v) && v.front < v.Size()
    ensures var w := Numbered(v, b);
            && w.head == v.head && |w.blockOf| == |v.blockOf| + 1 && w.prepared == v.prepared
            && w.slotsUsed == v.slotsUsed && w.Size() == v.Size() && w.log == v.log
  {
  }

  lemma WrittenSizes<T>(v: View<T>, e: T)
    requires |v.log| < BLOCK_SIZE * |v.blockOf|
    ensures var w := Written(v, e); w.slotsUsed == v.slotsUsed && w.Size() == v.Size() && w.prepared == v.prepared
  {
  }

  lemma PublishedSizes<T>(v: View<T>)
    requires v.headers != [] && v.Size() > 0
    ensures var w := Published(v); Resized(v, w, Event<T>.ShowFront)
  {
  }

  // ---------------------------------------------------------------- a call ends

  /** The steps that the call in progress still takes at most. */
  ghost function CallWork<T>(s: State<T>): int {
    var v := s.view;
    var found := |v.blockOf| - v.prepared;
    match s.owner
    case Ready => 0
    case Scan(vs, need, k, _) => (BLOCK_SIZE + 8) * need + found + |vs| + BLOCK_SIZE - k + 8
    case Extend(vs, need, _) => (BLOCK_SIZE + 8) * need + found + |vs| + 7
    case Insert(vs, need, _) => (BLOCK_SIZE + 8) * need + found + |vs| + (if v.slotsUsed == v.Size() then 6 else 5)
    case Reset(vs) => found + |vs| + 3
    case Show(vs) => |vs| + 2
    case Fill(vs, k) => |vs| - k + 1
  }

  lemma WorkIsPositive<T>(s: State<T>)
    requires StepInv(s)
    ensures CallWork(s) >= 0 && (CallWork(s) == 0 ==> s.owner.Ready?)
  {
    CountersOf(s);
    hide Inv, Shows, Steady, Indexed, FlagUp, MayScan;
  }

  lemma CountersOf<T>(s: State<T>)
    requires StepInv(s)
    ensures s.view.prepared <= |s.view.blockOf| && s.out <= |s.view.log|
  {
    hide Links, Contents, Indexed, Current, HoldOk, OwnerOk;
  }

  lemma WorkLowers<T>(s: State<T>, e: Event<T>)
    requires StepInv(s) && Enabled(s, e) && !s.owner.Ready? && !ByConsumer(e)
    requires Resized(s.view, Next(s, e).view, e)
    ensures CallWork(Next(s, e)) < CallWork(s) || Next(s, e).owner.Ready?
  {
    CountersOf(s);
    hide Inv, Shows, Steady, Indexed, MayScan, Reused, Inserted, Grown, Prepared, Published, Followed, Written, LeewaySeen, FlagUp;
    hide StepInv, Copied;
  }

  lemma OwnerGoesOn<T>(s: State<T>, e: Event<T>)
    requires StepInv(s) && Enabled(s, e) && !s.owner.Ready? && !ByConsumer(e)
    ensures var t := Next(s, e);
            && (t.owner.Ready? <==> e.StoreTail? || GivesUp(s, e))
            && (!t.owner.Ready? ==> t.owner.vs == s.owner.vs)
            && t.out == if e.StoreTail? then |s.view.log| else s.out
  {
    CountersOf(s);
    hide Inv, Shows, Steady, Indexed, MayScan, Reused, Inserted, Grown, Prepared, Published, Followed, Written, LeewaySeen, FlagUp;
    hide StepInv, Copied;
  }

  /** Each step of the owner brings its call nearer to its end; the elements become visible with its last step,
      unless it gives up, and not before. */
  lemma OwnerStep<T>(s: State<T>, e: Event<T>)
    requires StepInv(s) && Enabled(s, e) && !s.owner.Ready? && !ByConsumer(e)
    ensures var t := Next(s, e);
            && 0 <= CallWork(t) < CallWork(s)
            && (t.owner.Ready? <==> e.StoreTail? || GivesUp(s, e))
            && (!t.owner.Ready? ==> t.owner.vs == s.owner.vs)
            && Visible(t) == if e.StoreTail? then Visible(s) + s.owner.vs else Visible(s)
  {
    OwnerResizes(s, e);
    OwnerGoesOn(s, e);
    WorkLowers(s, e);
    NextKeepsInv(s, e);
    WorkIsPositive(s);
    WorkIsPositive(Next(s, e));
    CountersOf(s);
    CountersOf(Next(s, e));
    if e.StoreTail? { CallAppends(s); }
    if e.Construct? { ConstructGrows(s); }
    hide StepInv, Enabled, Next, CallWork, GivesUp;
  }

  /** No step of a consumer touches the call in progress. */
  lemma ConsumerStep<T>(s: State<T>, e: Event<T>)
    requires StepInv(s) && Enabled(s, e) && ByConsumer(e)
    ensures var t := Next(s, e);
            && t.owner == s.owner && t.out == s.out && t.view.log == s.view.log && CallWork(t) == CallWork(s)
            && t.view.blockOf == s.view.blockOf && t.view.slotsUsed == s.view.slotsUsed && t.view.Size() == s.view.Size()
            && s.view.head <= t.view.head == s.view.head + (if e.Claim? then 1 else 0)
  {
    hide Inv, Shows, Steady, OwnerOk;
  }

  /** A call begins with the search for the blocks that it needs, or at once with its first element. */
  lemma CallBegins<T>(s: State<T>, vs: seq<T>)
    requires StepInv(s) && Enabled(s, Call(vs))
    ensures var t, need := Next(s, Call(vs)), Blocks(s.out + |vs|) - Blocks(s.out);
            && !t.owner.Ready? && t.owner.vs == vs && t.view == s.view && Visible(t) == Visible(s) == s.view.log
            && 0 <= need && CallWork(t) <= (BLOCK_SIZE + 8) * need + |vs| + BLOCK_SIZE + 8
  {
    BlocksMonotone(s.out, s.out + |vs|);
    hide Inv, Shows, Steady, Indexed;
  }

  /** The steps of the owner among the events from `a` to `b`. */
  function OwnerSteps<T>(events: seq<Event<T>>, a: nat, b: nat): nat
    requires a <= b <= |events|
    decreases b
  {
    if a == b then 0 else OwnerSteps(events, a, b - 1) + (if ByConsumer(events[b - 1]) then 0 else 1)
  }

  /** The call that event `a` has begun is in progress in state `m`. */
  ghost predicate InCall<T>(states: seq<State<T>>, events: seq<Event<T>>, a: nat, m: nat) {
    && IsRun(states, events) && a < m <= |events| && events[a].Call?
    && forall j | a < j <= m :: !states[j].owner.Ready?
  }

  /** While a call is in progress, whatever consumers do, exactly what was visible before is visible, and there
      are no more steps of the owner than a number that depends on the elements and the blocks they need. */
  lemma {:induction false} NotBeforeTheEnd<T>(states: seq<State<T>>, events: seq<Event<T>>, a: nat, m: nat)
    requires InCall(states, events, a, m)
    ensures states[m].owner.vs == events[a].vs && Visible(states[m]) == Visible(states[a])
    ensures OwnerSteps(events, a + 1, m) + CallWork(states[m])
         <= (BLOCK_SIZE + 8) * (Blocks(states[a].out + |events[a].vs|) - Blocks(states[a].out)) + |events[a].vs| + BLOCK_SIZE + 8
    decreases m
  {
    hide Init, StepInv, Enabled, Next, Visible, CallWork, Blocks;
    RunInv(states, events, m - 1);
    assert Follows(states[m - 1], events[m - 1], states[m - 1 + 1]);
    if m == a + 1 {
      CallBegins(states[a], events[a].vs);
    } else {
      NotBeforeTheEnd(states, events, a, m - 1);
      if ByConsumer(events[m - 1]) {
        ConsumerStep(states[m - 1], events[m - 1]);
        SameVisible(states[m - 1], states[m]);
      } else {
        OwnerStep(states[m - 1], events[m - 1]);
      }
    }
  }

  lemma SameVisible<T>(s: State<T>, t: State<T>)
    requires t.out == s.out && t.view.log == s.view.log
    ensures Visible(t) == Visible(s)
  {
  }

  /** A call ends in one of two ways: it has stored the tail, and its elements follow those that were visible when
      it began, in their order; or it has given up, and nothing has been added. */
  lemma CallEnds<T>(states: seq<State<T>>, events: seq<Event<T>>, a: nat, m: nat)
    requires InCall(states, events, a, m) && m < |events| && states[m + 1].owner.Ready?
    ensures events[m].StoreTail? || GivesUp(states[m], events[m])
    ensures Visible(states[m + 1]) == if events[m].StoreTail? then Visible(states[a]) + events[a].vs else Visible(states[a])
  {
    hide Init, StepInv, Enabled, Next, Visible, CallWork, Blocks, GivesUp;
    NotBeforeTheEnd(states, events, a, m);
    RunInv(states, events, m);
    assert Follows(states[m], events[m], states[m + 1]);
    if ByConsumer(events[m]) {
      ConsumerStep(states[m], events[m]);
    } else {
      OwnerStep(states[m], events[m]);
    }
  }

  // ---------------------------------------------------------------- a call is not held back

  /** There is room for the blocks that the call in progress still needs. */
  ghost predicate HasRoom<T>(s: State<T>) {
    s.owner.Scan? || s.owner.Extend? || s.owner.Insert? ==> Room(s.view, s.owner.need)
  }

  lemma EntriesCopied<T>(v: View<T>, size: nat) returns (entries: seq<Entry>)
    requires Inv(v) && v.slotsUsed <= size
    ensures |entries| == size && Copied(v, entries)
  {
    HoldBounds(v);
    entries := seq(size, j requires 0 <= j =>
      if j < v.slotsUsed then Entry(Wrap(BLOCK_SIZE * (v.Oldest() + j)), v.blockOf[v.Oldest() + j]) else Entry(0, 0));
  }

  /** Where there is room, the owner has a next step, whatever consumers are about, and none by which the call
      would give up for want of room. */
  lemma CallGoesOn<T>(s: State<T>) returns (e: Event<T>)
    requires StepInv(s) && !s.owner.Ready? && HasRoom(s)
    ensures Enabled(s, e) && !ByConsumer(e) && !GivesUp(s, e)
  {
    var v := s.view;
    hide Shows, Steady, Links, Contents, Indexed, Current, HoldOk, RoomToGrow, Wrap;
    match s.owner
    case Scan(_, _, k, _) => e := if k < BLOCK_SIZE then ReadFlag else Reuse;
    case Extend(_, need, _) =>
      RoomIsEnough(v, need);
      e := LoadHead;
    case Insert(_, need, _) =>
      HoldBounds(v);
      if v.slotsUsed == v.Size() {
        RoomIsEnough(v, need);
        var entries := EntriesCopied(v, 2 * v.Size());
        e := Grow(entries);
      } else {
        e := InsertBlock;
      }
    case Reset(_) => e := ResetBlock;
    case Show(_) => e := ShowFront;
    case Fill(vs, k) => e := if k < |vs| then Construct else StoreTail;
  }

  lemma RoomAfter<T>(v: View<T>, w: View<T>, need: nat, left: nat)
    requires Room(v, need) && w.head >= v.head && left <= need
    requires |w.blockOf| + left <= |v.blockOf| + need && w.slotsUsed + left <= v.slotsUsed + need
    requires w.Size() == v.Size() || (w.Size() == 2 * v.Size() && v.Size() < v.slotsUsed + need)
    ensures Room(w, left)
  {
    FewerSlots(v.Size(), v.slotsUsed + need, w.slotsUsed + left);
    if w.Size() != v.Size() { FewerSlots(w.Size(), v.slotsUsed + need, w.slotsUsed + left); }
  }

  lemma {:induction false} FewerSlots(size: nat, n: nat, m: nat)
    requires RoomToGrow(size, n) && m <= n
    ensures RoomToGrow(size, m)
    decreases n - size
  {
    if n > size { FewerSlots(2 * size, n, m); }
  }

  /** No step takes the room away. */
  lemma RoomIsKept<T>(s: State<T>, e: Event<T>)
    requires StepInv(s) && Enabled(s, e) && !s.owner.Ready? && HasRoom(s)
    ensures HasRoom(Next(s, e))
  {
    var t := Next(s, e);
    if ByConsumer(e) { ConsumerStep(s, e); } else { OwnerResizes(s, e); }
    CountersOf(s);
    hide StepInv, Inv, Room, MayScan, Reused, Inserted, Grown, Prepared, Published, Followed, Written, LeewaySeen, FlagUp, Copied;
    if t.owner.Scan? || t.owner.Extend? || t.owner.Insert? {
      RoomAfter(s.view, t.view, s.owner.need, t.owner.need);
    }
  }

  /** The owner's call that goes on alone, from the state it is in to its end. */
  ghost predicate OwnerAlone<T>(states: seq<State<T>>, events: seq<Event<T>>) {
    && |states| == |events| + 1
    && (forall n | 0 <= n < |events| :: !ByConsumer(events[n]) && Follows(states[n], events[n], states[n + 1]))
    && (forall n | 0 <= n < |events| :: !states[n].owner.Ready?)
    && states[|events|].owner.Ready?
  }

  lemma {:induction false} AloneToTheEnd<T>(s: State<T>) returns (states: seq<State<T>>, events: seq<Event<T>>)
    requires StepInv(s) && !s.owner.Ready? && HasRoom(s)
    ensures OwnerAlone(states, events) && states[0] == s
    ensures StepInv(states[|events|]) && Visible(states[|events|]) == Visible(s) + s.owner.vs
    decreases CallWork(s)
  {
    hide StepInv, Enabled, Next, Visible, CallWork, HasRoom;
    var e := CallGoesOn(s);
    var t := Next(s, e);
    NextKeepsInv(s, e);
    OwnerStep(s, e);
    assert Follows(s, e, t);
    if t.owner.Ready? {
      states, events := [s, t], [e];
    } else {
      RoomIsKept(s, e);
      var others, rest := AloneToTheEnd(t);
      states, events := [s] + others, [e] + rest;
    }
  }

  /** An enqueue that finds room for its blocks and is given them ends with all its elements visible, after those that
      were: in any state of any run, with consumers stopped anywhere. */
  lemma EnqueueAppends<T>(states: seq<State<T>>, events: seq<Event<T>>, n: nat, vs: seq<T>)
    returns (lone: seq<State<T>>, steps: seq<Event<T>>)
    requires IsRun(states, events) && n <= |events| && states[n].owner.Ready? && |vs| < HALF
    requires Room(states[n].view, Blocks(states[n].out + |vs|) - Blocks(states[n].out))
    ensures OwnerAlone(lone, steps) && Follows(states[n], Call(vs), lone[0])
    ensures Visible(lone[|steps|]) == Visible(states[n]) + vs
  {
    var s := states[n];
    RunInv(states, events, n);
    CallBegins(s, vs);
    NextKeepsInv(s, Call(vs));
    CallNeeds(s, vs);
    hide Init, StepInv, Enabled, Next, Visible, Room;
    lone, steps := AloneToTheEnd(Next(s, Call(vs)));
  }

  lemma CallNeeds<T>(s: State<T>, vs: seq<T>)
    requires StepInv(s) && Enabled(s, Call(vs)) && Room(s.view, Blocks(s.out + |vs|) - Blocks(s.out))
    ensures HasRoom(Next(s, Call(vs)))
  {
    hide Inv, Shows, Steady, Room;
  }

  // ---------------------------------------------------------------- a claimed element is taken

  /** The steps that the consumer of index i has still to take. */
  ghost function TakeWork<T>(s: State<T>, i: nat): nat {
    if i in s.view.done then 0 else if i !in s.view.holds then 3 else if i in s.loading then 2 else 1
  }

  predicate OfConsumer<T>(e: Event<T>, i: nat) { e == LoadIndex(i) || e == LoadFront(i) || e == Event<T>.Take(i) }

  /** The consumer of a claimed index always has exactly one next step. */
  lemma TakeGoesOn<T>(s: State<T>, i: nat) returns (e: Event<T>)
    requires StepInv(s) && i < s.view.head && i !in s.view.done
    ensures Enabled(s, e) && OfConsumer(e, i)
    ensures forall d | OfConsumer(d, i) && Enabled(s, d) :: d == e
  {
    hide Inv, Shows, Steady, OwnerOk;
    e := if i !in s.view.holds then LoadIndex(i) else if i in s.loading then LoadFront(i) else Event<T>.Take(i);
  }

  lemma TakenHolds<T>(s: State<T>, i: nat)
    requires StepInv(s) && Enabled(s, Event<T>.Take(i))
    ensures var t := Next(s, Event<T>.Take(i));
            && t.view.done == s.view.done + {i} && t.view.holds.Keys == s.view.holds.Keys - {i} && t.loading == s.loading
            && i !in s.view.done && i in s.view.holds && i !in s.loading
  {
    LookupIsRight(s.view, i);
    TakeFacts(s, i);
    hide StepInv;
  }

  lemma LoadedHolds<T>(s: State<T>, i: nat)
    requires StepInv(s) && Enabled(s, Event<T>.LoadIndex(i))
    ensures var t := Next(s, Event<T>.LoadIndex(i));
            && t.view.done == s.view.done && t.view.holds.Keys == s.view.holds.Keys + {i} && t.loading == s.loading + {i}
            && i !in s.view.done && i !in s.view.holds
  {
    InvIndexed(s.view);
    hide Inv, Shows, Steady, OwnerOk, Indexed;
  }

  lemma FrontLoadedHolds<T>(s: State<T>, i: nat)
    requires StepInv(s) && Enabled(s, Event<T>.LoadFront(i))
    ensures var t := Next(s, Event<T>.LoadFront(i));
            && t.view == s.view && t.loading == s.loading - {i} && i in s.loading && i in s.view.holds && i !in s.view.done
  {
    assert HoldOk(s.view, i, s.view.holds[i]);
    hide Inv, Shows, Steady, OwnerOk;
  }

  lemma ClaimedHolds<T>(s: State<T>)
    requires StepInv(s) && Enabled(s, Event<T>.Claim)
    ensures var t := Next(s, Event<T>.Claim);
            t.view.done == s.view.done && t.view.holds == s.view.holds && t.loading == s.loading
  {
    hide StepInv;
  }

  lemma OwnerLeavesHolds<T>(s: State<T>, e: Event<T>)
    requires StepInv(s) && Enabled(s, e) && !ByConsumer(e)
    ensures var t := Next(s, e);
            t.view.done == s.view.done && t.view.holds.Keys == s.view.holds.Keys && t.loading == s.loading
  {
    match e
    case Construct =>
      FillFitsHere(s);
      WrittenFields(s.view, s.owner.vs[s.owner.k]);
      ConstructGrows(s);
    case InsertBlock =>
      InvIndexed(s.view);
      FrontFits(s.view);
      hide Inv;
    case _ =>
      hide Inv, Shows, Steady, Links, Contents, Current, OwnerOk;
  }

  /** Each of its steps brings it nearer to its end, and no step of anybody else sets it back. */
  lemma TakeComesNearer<T>(s: State<T>, e: Event<T>, i: nat)
    requires StepInv(s) && Enabled(s, e) && i < s.view.head
    ensures TakeWork(Next(s, e), i) == TakeWork(s, i) - (if OfConsumer(e, i) then 1 else 0)
  {
    hide StepInv, Next, Enabled;
    match e
    case Take(k) => TakenHolds(s, k);
    case LoadIndex(k) => LoadedHolds(s, k);
    case LoadFront(k) => FrontLoadedHolds(s, k);
    case Claim => ClaimedHolds(s);
    case _ => OwnerLeavesHolds(s, e);
  }

  /** The claims among the first n events. */
  function Claims<T>(events: seq<Event<T>>, n: nat): nat
    requires n <= |events|
  {
    if n == 0 then 0 else Claims(events, n - 1) + (if events[n - 1].Claim? then 1 else 0)
  }

  /** Over any run, the elements claimed are as many as there were claims, and the first of those enqueued. */
  lemma {:induction false} HeadIsClaims<T>(states: seq<State<T>>, events: seq<Event<T>>, n: nat)
    requires IsRun(states, events) && n <= |events|
    ensures states[n].view.head == Claims(events, n) <= |Visible(states[n])|
    decreases n
  {
    hide Init, StepInv, Enabled, Next, Visible;
    RunInv(states, events, n);
    HeadIsVisible(states[n]);
    if n > 0 {
      RunInv(states, events, n - 1);
      HeadIsClaims(states, events, n - 1);
      assert Follows(states[n - 1], events[n - 1], states[n - 1 + 1]);
      HeadMoves(states[n - 1], events[n - 1]);
    } else {
      StartsEmpty(states[0]);
    }
  }

  lemma HeadIsVisible<T>(s: State<T>)
    requires StepInv(s)
    ensures s.view.head <= |Visible(s)|
  {
    CountersOf(s);
    hide Inv, OwnerOk, Steady, Shows;
  }

  lemma StartsEmpty<T>(s: State<T>)
    requires Init(s)
    ensures s.view.head == 0
  {
  }

  lemma HeadMoves<T>(s: State<T>, e: Event<T>)
    requires StepInv(s) && Enabled(s, e)
    ensures Next(s, e).view.head == s.view.head + (if e.Claim? then 1 else 0)
  {
    if ByConsumer(e) {
      ConsumerStep(s, e);
    } else if !s.owner.Ready? {
      OwnerResizes(s, e);
    }
    hide StepInv;
  }
}
