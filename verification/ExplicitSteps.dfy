// The explicit producer step by step: its owner in the middle of an enqueue, and any number of consumers.
//
// One access to shared memory is one step: the owner reads one flag of the block ahead, loads the head, enters a
// block in the index, publishes a larger index or the front of the current one, constructs one element, and
// stores the tail; a consumer claims an index, loads the block index, loads its front, and takes its element.
// Between any two of them any others may come. `enqueue` is `enqueue_bulk` of one element. The changes of the
// ring, the index and the blocks are those of the methods of the class.
module ExplicitSteps {

  import opened Words
  import opened CircularIndex
  import opened ExplicitProducers

  /** What the owner does next. `need` is the number of blocks still to be found, and `expose` the number of index
      slots that were in use when the operation began. */
  datatype Owner<T> =
    | Ready
    | Scan(vs: seq<T>, need: nat, k: nat, expose: nat)   // read flag k of the block ahead
    | Extend(vs: seq<T>, need: nat, expose: nat)         // load the head
    | Insert(vs: seq<T>, need: nat, expose: nat)         // put a new block in, after growing a full index
    | Reset(vs: seq<T>)                                  // lower the flags of the blocks found
    | Show(vs: seq<T>)                                   // store the front of the index
    | Fill(vs: seq<T>, k: nat)                           // construct element k, or store the tail after the last

  /** `out` elements are visible to consumers; `loading` are those who have loaded an index, but not its front yet:
      until then their `holds` follow the front. */
  datatype State<T> = State(view: View<T>, out: nat, owner: Owner<T>, loading: set<nat>)

  datatype Event<T> =
    | Call(vs: seq<T>)
    | ReadFlag | Reuse | LoadHead | Grow(entries: seq<Entry>) | InsertBlock | Fail
    | ResetBlock | ShowFront | Construct | StoreTail
    | Claim | LoadIndex(i: nat) | LoadFront(i: nat) | Take(i: nat)

  ghost function Front<T>(v: View<T>): nat { if v.headers == [] then 0 else v.headers[|v.headers| - 1].front }

  /** The first block found by the operation so far. */
  ghost function FirstFound<T>(v: View<T>): int {
    if v.prepared < |v.blockOf| then v.blockOf[v.prepared] else NONE
  }

  /** The block ahead of the tail block may be looked at: there is one, and it is not one just found. */
  ghost predicate MayScan<T>(v: View<T>) {
    v.tailBlock != NONE && 0 <= v.tailBlock < |v.next| && v.next[v.tailBlock] != FirstFound(v)
  }

  /** On to the next block, if more are needed. */
  ghost function Seek<T>(v: View<T>, vs: seq<T>, need: nat, expose: nat, scanning: bool): Owner<T> {
    if need == 0 then Reset(vs)
    else if scanning && MayScan(v) then Scan(vs, need, 0, expose)
    else Extend(vs, need, expose)
  }

  /** The holds of consumers that have yet to load the front, after it has been stored. */
  ghost function Followed<T>(v: View<T>, loading: set<nat>): map<nat, Hold> {
    map i | i in v.holds :: if i in loading && v.holds[i].header == |v.headers| - 1 then Hold(v.holds[i].header, Front(v)) else v.holds[i]
  }

  /** Whether a step is possible. A block from the pool is a new one, and the ring stays below 2^63 elements; a
      call that has already found blocks does not fail here. */
  ghost predicate Enabled<T>(s: State<T>, e: Event<T>) {
    var v := s.view;
    match e
    case Call(vs) => s.owner.Ready? && |vs| < HALF
    case ReadFlag => s.owner.Scan? && s.owner.k < BLOCK_SIZE
    case Reuse => s.owner.Scan? && s.owner.k == BLOCK_SIZE
    case LoadHead => s.owner.Extend? && (LeewaySeen(v) || |v.blockOf| == v.prepared)
    case Grow(entries) =>
      s.owner.Insert? && v.slotsUsed == v.Size() && Copied(v, entries) && |entries| == 2 * v.Size() && FitsWord(|entries|)
    case InsertBlock => s.owner.Insert? && v.slotsUsed < v.Size() && BLOCK_SIZE * (v.slotsUsed + 1) < HALF
    case Fail => s.owner.Insert? && |v.blockOf| == v.prepared
    case ResetBlock => s.owner.Reset? && v.prepared < |v.blockOf|
    case ShowFront => s.owner.Show?
    case Construct => s.owner.Fill? && s.owner.k < |s.owner.vs|
    case StoreTail => s.owner.Fill? && s.owner.k == |s.owner.vs|
    case Claim => v.head < s.out
    case LoadIndex(i) => i < v.head && i !in v.done && i !in v.holds
    case LoadFront(i) => i in s.loading
    case Take(i) => i in v.holds && i !in s.loading
  }

  /** The test of the owner, on words. */
  ghost predicate LeewaySeen<T>(v: View<T>) {
    CircularLessThan(v.headIndex, Wrap(Wrap(BLOCK_SIZE * |v.blockOf|) + BLOCK_SIZE))
  }

  ghost predicate FlagUp<T>(v: View<T>, k: nat) {
    0 <= v.tailBlock < |v.next| && v.next[v.tailBlock] < |v.flags| && k < |v.flags[v.next[v.tailBlock]]|
    && v.flags[v.next[v.tailBlock]][k]
  }

  // ---------------------------------------------------------------- the invariant

  /** The front of the current index is that of a block at or after the last of `n` elements. */
  ghost predicate Shows<T>(v: View<T>, n: nat)
    requires Indexed(v)
  {
    var j := |v.headers| - 1;
    n > 0 ==> v.headers[j].front < v.Size() && v.numbers[j][v.headers[j].front] >= Blocks(n) - 1
  }

  /** The entry that a consumer starts from is of a block at or after its own. */
  ghost predicate Steady<T>(v: View<T>, i: nat, h: Hold)
    requires Indexed(v)
  {
    h.header < |v.headers| && h.slot < |v.headers[h.header].entries| && v.numbers[h.header][h.slot] >= i / BLOCK_SIZE
  }

  ghost predicate OwnerOk<T>(s: State<T>) {
    var v := s.view;
    && (s.owner.Fill? || |v.log| == s.out)
    && (s.owner.Scan? || s.owner.Extend? || s.owner.Insert? ==>
          && s.owner.need > 0 && |v.blockOf| + s.owner.need == Blocks(s.out + |s.owner.vs|) && v.prepared == Blocks(s.out)
          && s.owner.expose <= v.slotsUsed && v.slotsUsed - s.owner.expose <= |v.blockOf| - v.prepared
          && (s.out > 0 ==> s.owner.expose > 0))
    && (!s.owner.Ready? ==> |s.owner.vs| < HALF)
    && match s.owner
       case Ready => |v.blockOf| == v.prepared == Blocks(s.out)
       case Scan(_, _, k, _) => MayScan(v) && k <= BLOCK_SIZE && forall j: nat | j < k :: FlagUp(v, j)
       case Extend(_, _, _) => true
       case Insert(_, _, _) => BLOCK_SIZE * (|v.blockOf| + 1) - v.head < HALF
       case Reset(vs) => |v.blockOf| == Blocks(s.out + |vs|) && v.prepared < |v.blockOf|
       case Show(vs) => |v.blockOf| == v.prepared == Blocks(s.out + |vs|) && v.blockOf != []
       case Fill(vs, k) =>
         && k <= |vs| && |v.blockOf| == v.prepared == Blocks(s.out + |vs|)
         && |v.log| == s.out + k && v.log[s.out..] == vs[..k]
         && (Indexed(v) ==> Shows(v, BLOCK_SIZE * |v.blockOf|))
  }

  ghost predicate StepInv<T>(s: State<T>) {
    var v := s.view;
    && Inv(v) && v.head <= s.out <= |v.log| && Shows(v, s.out)
    && (forall i | i in v.holds :: Steady(v, i, v.holds[i]))
    && (forall i | i in s.loading :: i in v.holds && v.holds[i].slot == v.headers[v.holds[i].header].front)
    && OwnerOk(s)
  }

  // ---------------------------------------------------------------- the steps

  ghost function Next<T>(s: State<T>, e: Event<T>): State<T>
    requires StepInv(s) && Enabled(s, e)
  {
    var v := s.view;
    match e
    case Call(vs) =>
      var need: nat := Blocks(|v.log| + |vs|) - |v.blockOf|;
      s.(owner := if need == 0 then Fill(vs, 0) else Seek(v, vs, need, v.slotsUsed, true))
    case ReadFlag =>
      var (vs, need, k, expose) := (s.owner.vs, s.owner.need, s.owner.k, s.owner.expose);
      s.(owner := if FlagUp(v, k) then Scan(vs, need, k + 1, expose) else Extend(vs, need, expose))
    case Reuse =>
      FrontFits(v);
      s.(view := Reused(v), owner := Seek(Reused(v), s.owner.vs, s.owner.need - 1, s.owner.expose, true))
    case LoadHead =>
      s.(owner := if LeewaySeen(v) then Insert(s.owner.vs, s.owner.need, s.owner.expose) else Ready)
    case Grow(entries) =>
      HoldBounds(v);
      s.(view := Grown(v, entries, Wrap(s.owner.expose - 1)))
    case InsertBlock =>
      FrontFits(v);
      s.(view := Inserted(v), owner := Seek(Inserted(v), s.owner.vs, s.owner.need - 1, s.owner.expose, false))
    case Fail => s.(owner := Ready)
    case ResetBlock =>
      PrepareKeeps(v);
      s.(view := Prepared(v), owner := if v.prepared + 1 == |v.blockOf| then Show(s.owner.vs) else s.owner)
    case ShowFront =>
      FrontFits(v);
      var w := Published(v);
      s.(view := w.(holds := Followed(w, s.loading)), owner := Fill(s.owner.vs, 0))
    case Construct =>
      FillFitsHere(s);
      s.(view := Written(v, s.owner.vs[s.owner.k]), owner := Fill(s.owner.vs, s.owner.k + 1))
    case StoreTail => s.(out := |v.log|, owner := Ready)
    case Claim => s.(view := Claimed(v))
    case LoadIndex(i) => s.(view := Loaded(v, i), loading := s.loading + {i})
    case LoadFront(i) => s.(loading := s.loading - {i})
    case Take(i) =>
      LookupIsRight(v, i);
      s.(view := Taken(v, i))
  }

  lemma FillFitsHere<T>(s: State<T>)
    requires StepInv(s) && s.owner.Fill? && s.owner.k < |s.owner.vs|
    ensures |s.view.log| < BLOCK_SIZE * s.view.prepared && s.view.prepared == |s.view.blockOf|
  {
    hide Inv, Shows, Steady, Indexed;
  }

  // ---------------------------------------------------------------- indexes only get newer entries

  ghost predicate Later<T>(v: View<T>, w: View<T>) {
    && Indexed(v) && Indexed(w) && |v.headers| <= |w.headers|
    && forall j: nat | j < |v.headers| ::
         && |w.headers[j].entries| == |v.headers[j].entries| == |w.numbers[j]| == |v.numbers[j]|
         && forall x: nat | x < |v.numbers[j]| :: w.numbers[j][x] >= v.numbers[j][x]
  }

  lemma SteadyLater<T>(v: View<T>, w: View<T>, i: nat, h: Hold)
    requires Later(v, w) && Steady(v, i, h)
    ensures Steady(w, i, h)
  {
    hide Indexed;
  }

  lemma ShowsLater<T>(v: View<T>, w: View<T>, n: nat)
    requires Later(v, w) && |w.headers| == |v.headers| && Shows(v, n) && w.headers[|v.headers| - 1].front == v.headers[|v.headers| - 1].front
    ensures Shows(w, n)
  {
    hide HeaderOk;
    var j := |v.headers| - 1;
    assert |w.headers[j].entries| == |v.headers[j].entries|;
    assert v.headers[j].front < v.Size() ==>
             w.numbers[j][v.headers[j].front] >= v.numbers[j][v.headers[j].front];
  }

  lemma SameLater<T>(v: View<T>, w: View<T>)
    requires Indexed(v) && Indexed(w) && w.numbers == v.numbers && |w.headers| == |v.headers|
    requires forall j: nat | j < |v.headers| :: w.headers[j].entries == v.headers[j].entries
    ensures Later(v, w)
  {
    forall j: nat | j < |v.headers| ensures |v.headers[j].entries| == |v.numbers[j]| {
      assert HeaderOk(v.headers[j], v.shifts[j], v.numbers[j], v.blockOf);
    }
  }

  lemma NumberedLater<T>(v: View<T>, w: View<T>, b: nat)
    requires Indexed(v) && v.front < v.Size() && Indexed(w)
    requires w.headers == Numbered(v, b).headers && w.numbers == Numbered(v, b).numbers
    ensures Later(v, w) && |w.headers| == |v.headers| && w.headers[|v.headers| - 1].front == v.headers[|v.headers| - 1].front
    ensures forall j: nat | j < |v.headers| :: w.headers[j].front == v.headers[j].front
  {
    var c := |v.headers| - 1;
    forall j: nat | j < |v.headers| ensures |v.headers[j].entries| == |v.numbers[j]| {
      assert HeaderOk(v.headers[j], v.shifts[j], v.numbers[j], v.blockOf);
    }
    forall x: nat | x < |v.numbers[c]| ensures w.numbers[c][x] >= v.numbers[c][x] {
      assert SlotOk(v.headers[c], v.shifts[c], v.numbers[c], v.blockOf, x);
    }
  }

  /** The part of the invariant that is about consumers, after a change that leaves fronts and holds alone. */
  lemma ConsumersKeep<T>(s: State<T>, w: View<T>)
    requires StepInv(s) && Inv(w) && Later(s.view, w) && w.holds == s.view.holds
    requires forall j: nat | j < |s.view.headers| :: w.headers[j].front == s.view.headers[j].front
    ensures forall i | i in w.holds :: Steady(w, i, w.holds[i])
    ensures forall i | i in s.loading :: i in w.holds && w.holds[i].slot == w.headers[w.holds[i].header].front
    ensures |w.headers| == |s.view.headers| ==> Shows(w, s.out)
  {
    hide Inv, OwnerOk, Shows, Steady, Indexed;
    forall i | i in w.holds ensures Steady(w, i, w.holds[i]) { SteadyLater(s.view, w, i, w.holds[i]); }
    if |w.headers| == |s.view.headers| { ShowsLater(s.view, w, s.out); }
    forall i | i in s.loading
      ensures i in w.holds && w.holds[i].header < |w.headers| && w.holds[i].slot == w.headers[w.holds[i].header].front
    {
      SteadyHeader(s.view, i, s.view.holds[i]);
    }
  }

  lemma SteadyHeader<T>(v: View<T>, i: nat, h: Hold)
    requires Indexed(v) && Steady(v, i, h)
    ensures h.header < |v.headers|
  {
  }

  // ---------------------------------------------------------------- steps of the owner that look

  lemma InvIndexed<T>(v: View<T>)
    requires Inv(v)
    ensures Indexed(v) && Links(v) && Contents(v) && Current(v)
  {
  }

  lemma BlocksMonotone(n: nat, m: nat)
    requires n <= m
    ensures Blocks(n) <= Blocks(m) && (m > 0 ==> Blocks(m) > 0)
  {
  }

  /** The whole last block is shown when its last element is. */
  lemma ShowsWhole<T>(v: View<T>, n: nat)
    requires Indexed(v) && |v.blockOf| == Blocks(n)
    ensures Shows(v, n) <==> Shows(v, BLOCK_SIZE * |v.blockOf|)
  {
  }

  lemma LookSteps<T>(s: State<T>, e: Event<T>)
    requires StepInv(s) && Enabled(s, e) && (e.Call? || e.ReadFlag? || e.LoadHead? || e.Fail?)
    ensures StepInv(Next(s, e))
  {
    hide Inv, Shows, Steady, LeewaySeen, FlagUp;
    match e
    case Call(vs) =>
      BlocksMonotone(s.out, s.out + |vs|);
      InvIndexed(s.view);
      ShowsWhole(s.view, s.out);
      CallCounts(s);
    case LoadHead => LeewayIsSeen(s.view);
    case _ =>
  }

  lemma CallCounts<T>(s: State<T>)
    requires StepInv(s) && s.owner.Ready?
    ensures s.out > 0 ==> s.view.slotsUsed > 0
    ensures s.view.log[s.out..] == []
  {
    hide Links, Contents, Indexed, Current, HoldOk;
  }

  lemma LeewayIsSeen<T>(v: View<T>)
    requires Inv(v)
    ensures LeewaySeen(v) <==> BLOCK_SIZE * (|v.blockOf| + 1) - v.head < HALF
  {
    hide Links, Contents, Indexed, Current, HoldOk, Wrap;
    WrapAdd(BLOCK_SIZE * |v.blockOf|, BLOCK_SIZE);
    HoldBounds(v);
    LeewayTest(v.head, BLOCK_SIZE * |v.blockOf|);
  }

  // ---------------------------------------------------------------- steps of the owner that change the ring

  /** With all flags of the block ahead read as raised, that block is empty: consumers only raise flags. */
  lemma ScanFindsEmpty<T>(s: State<T>)
    requires StepInv(s) && s.owner.Scan? && s.owner.k == BLOCK_SIZE
    ensures Links(s.view) && Contents(s.view) && AheadIsEmpty(s.view)
  {
    var v := s.view;
    hide Counters, Indexed, Current, HoldOk, Shows, Steady;
    RingAhead(v);
    forall k | 0 <= k < BLOCK_SIZE ensures v.flags[v.next[v.tailBlock]][k] { assert FlagUp(v, k); }
    NotAllNew(v);
  }

  lemma ReuseStep<T>(s: State<T>)
    requires StepInv(s) && Enabled(s, Reuse)
    ensures StepInv(Next(s, Reuse))
  {
    var v := s.view;
    ScanFindsEmpty(s);
    ReuseKeeps(v);
    ReuseSizes(v);
    var w := Reused(v);
    NumberedLater(v, w, v.next[v.tailBlock]);
    ConsumersKeep(s, w);
    hide Inv, Shows, Steady, FlagUp, MayScan, Later, Indexed;
    NumberedFields(v, v.next[v.tailBlock]);
  }

  lemma NumberedFields<T>(v: View<T>, b: nat)
    requires Indexed(v) && v.front < v.Size()
    ensures var w := Numbered(v, b);
            && |w.blockOf| == |v.blockOf| + 1 && w.prepared == v.prepared && w.log == v.log && w.head == v.head
            && w.slotsUsed == v.slotsUsed && w.holds == v.holds
  {
  }

  lemma InsertStep<T>(s: State<T>)
    requires StepInv(s) && Enabled(s, Event<T>.InsertBlock)
    ensures StepInv(Next(s, Event<T>.InsertBlock))
  {
    var v := s.view;
    InsertKeeps(v);
    var w, l := Inserted(v), ExplicitProducers.Linked(v, true);
    LinkedIndexed(v);
    NumberedLater(l, w, |v.next|);
    SameLater(v, l);
    LaterTwice(v, l, w);
    ConsumersKeep(s, w);
    hide Inv, Shows, Steady, FlagUp, MayScan, Later, Indexed;
    NumberedFields(l, |v.next|);
  }

  lemma LinkedIndexed<T>(v: View<T>)
    requires Indexed(v) && v.slotsUsed < v.Size()
    ensures var l := ExplicitProducers.Linked(v, true);
            && Indexed(l) && l.headers == v.headers && l.numbers == v.numbers && l.front == v.front && l.Size() == v.Size()
            && |l.blockOf| == |v.blockOf| && l.prepared == v.prepared && l.log == v.log && l.head == v.head
            && l.slotsUsed == v.slotsUsed + 1 && l.holds == v.holds
  {
  }

  lemma LaterTwice<T>(u: View<T>, v: View<T>, w: View<T>)
    requires Later(u, v) && Later(v, w)
    ensures Later(u, w)
  {
    hide Indexed;
  }

  lemma GrowStep<T>(s: State<T>, entries: seq<Entry>)
    requires StepInv(s) && Enabled(s, Grow(entries))
    ensures StepInv(Next(s, Grow(entries)))
  {
    var v, front := s.view, Wrap(s.owner.expose - 1);
    HoldBounds(v);
    GrowKeeps(v, entries, front);
    var w := Grown(v, entries, front);
    GrownLater(v, entries, front);
    ConsumersKeep(s, w);
    GrownShows(s, entries, front);
    hide Inv, Shows, Steady, Later, Indexed;
  }

  lemma GrownLater<T>(v: View<T>, entries: seq<Entry>, front: nat)
    requires Indexed(v) && |entries| > 0 && v.slotsUsed <= |v.blockOf| && Indexed(Grown(v, entries, front))
    ensures Later(v, Grown(v, entries, front))
    ensures forall j: nat | j < |v.headers| :: Grown(v, entries, front).headers[j] == v.headers[j]
  {
    forall j: nat | j < |v.headers| ensures |v.headers[j].entries| == |v.numbers[j]| {
      assert HeaderOk(v.headers[j], v.shifts[j], v.numbers[j], v.blockOf);
    }
  }

  /** The larger index is published with the front that the smaller one had before the operation. */
  lemma GrownShows<T>(s: State<T>, entries: seq<Entry>, front: nat)
    requires StepInv(s) && s.owner.Insert? && front == Wrap(s.owner.expose - 1)
    requires FitsWord(|entries|) && s.view.slotsUsed < |entries| && s.view.slotsUsed <= |s.view.blockOf|
    requires Indexed(Grown(s.view, entries, front))
    ensures Shows(Grown(s.view, entries, front), s.out)
  {
    hide Inv, Steady, Wrap;
    if s.out > 0 { WrapIs(s.owner.expose - 1, 0); SlotsFitWord(s.view); }
  }

  lemma SlotsFitWord<T>(v: View<T>)
    requires Inv(v)
    ensures BLOCK_SIZE * v.slotsUsed < HALF
  {
  }

  // ---------------------------------------------------------------- the other steps of the owner

  lemma ResetStep<T>(s: State<T>)
    requires StepInv(s) && Enabled(s, ResetBlock)
    ensures StepInv(Next(s, ResetBlock))
  {
    var v := s.view;
    PrepareKeeps(v);
    var w := Prepared(v);
    InvIndexed(v);
    InvIndexed(w);
    SameLater(v, w);
    ConsumersKeep(s, w);
    hide Inv, Shows, Steady, Later, Indexed;
  }

  lemma PublishedLater<T>(v: View<T>)
    requires Inv(v) && v.blockOf != []
    ensures v.headers != [] && v.Size() > 0
    ensures var w, j := Published(v), |v.headers| - 1;
            && Inv(w) && Later(v, w) && |w.headers| == |v.headers| && Shows(w, BLOCK_SIZE * |w.blockOf|)
            && (forall i: nat | i < j :: w.headers[i] == v.headers[i])
            && w.blockOf == v.blockOf && w.log == v.log && w.prepared == v.prepared && w.head == v.head && w.holds == v.holds
  {
    FrontFits(v);
    PublishKeeps(v);
    var w := Published(v);
    InvIndexed(v);
    InvIndexed(w);
    SameLater(v, w);
    HoldBounds(w);
    SlotInRing(w, |w.blockOf| - 1);
  }

  /** Consumers that have yet to load the front find their blocks from the new front as well. */
  lemma FollowedHold<T>(w: View<T>, i: nat, h: Hold)
    requires Inv(w) && HoldOk(w, i, h) && Shows(w, BLOCK_SIZE * |w.blockOf|) && i < |w.log| && h.header == |w.headers| - 1
    ensures HoldOk(w, i, Hold(h.header, Front(w))) && Steady(w, i, Hold(h.header, Front(w)))
  {
    hide Links, Contents, Current, HeaderOk;
    InRing(w, i);
  }

  lemma FollowedKeeps<T>(w: View<T>, loading: set<nat>)
    requires Inv(w) && Shows(w, BLOCK_SIZE * |w.blockOf|) && forall i | i in w.holds :: Steady(w, i, w.holds[i])
    ensures var x := w.(holds := Followed(w, loading));
            && Inv(x) && (forall i | i in x.holds :: Steady(x, i, x.holds[i]))
  {
    var x := w.(holds := Followed(w, loading));
    hide Shows, Steady, HoldOk, Front, HeaderOk, Followed;
    SameRest(w, x);
    InvIndexed(w);
    SameSlots(w, x);
    SameIndex(w, x);
    SameLater(w, x);
    forall i | i in x.holds ensures HoldOk(x, i, x.holds[i]) && Steady(x, i, x.holds[i]) {
      FollowedIs(w, loading, i);
      ClaimedIsLogged(w, i);
      if w.holds[i].header == |w.headers| - 1 { FollowedHold(w, i, w.holds[i]); }
      SameHold(w, x, i, x.holds[i]);
      SteadyLater(w, x, i, x.holds[i]);
    }
  }

  lemma FollowedIs<T>(w: View<T>, loading: set<nat>, i: nat)
    requires i in Followed(w, loading)
    ensures i in w.holds
    ensures Followed(w, loading)[i]
         == if i in loading && w.holds[i].header == |w.headers| - 1 then Hold(w.holds[i].header, Front(w)) else w.holds[i]
  {
  }

  lemma ClaimedIsLogged<T>(w: View<T>, i: nat)
    requires Inv(w) && i in w.holds
    ensures HoldOk(w, i, w.holds[i]) && i < |w.log|
  {
  }

  lemma ShowStep<T>(s: State<T>)
    requires StepInv(s) && Enabled(s, Event<T>.ShowFront)
    ensures StepInv(Next(s, Event<T>.ShowFront))
  {
    hide Inv, Steady, Later, Indexed, Followed, Shows, Published;
    var v := s.view;
    PublishedLater(v);
    var w := Published(v);
    ShownConsumers(s, w);
    FollowedKeeps(w, s.loading);
    var x := w.(holds := Followed(w, s.loading));
    InvIndexed(w);
    InvIndexed(x);
    SameShows(w, x, BLOCK_SIZE * |w.blockOf|);
    WholeBlocks(|x.blockOf|, s.out, |s.owner.vs|);
    ShowsFewer(x, BLOCK_SIZE * |x.blockOf|, s.out);
    assert x.log[s.out..] == [];
  }

  lemma WholeBlocks(b: nat, n: nat, m: nat)
    requires b == Blocks(n + m)
    ensures Blocks(n) <= Blocks(BLOCK_SIZE * b)
  {
  }

  lemma SameShows<T>(w: View<T>, x: View<T>, n: nat)
    requires Indexed(w) && Indexed(x) && Shows(w, n) && x.headers == w.headers && x.numbers == w.numbers
    ensures Shows(x, n)
  {
  }

  lemma ShownConsumers<T>(s: State<T>, w: View<T>)
    requires StepInv(s) && s.view.blockOf != [] && Inv(s.view) && w == Published(s.view) && Inv(w) && Later(s.view, w)
    requires |w.headers| == |s.view.headers| && w.holds == s.view.holds
    requires forall j: nat | j < |s.view.headers| - 1 :: w.headers[j] == s.view.headers[j]
    ensures forall i | i in w.holds :: Steady(w, i, w.holds[i])
    ensures var holds := Followed(w, s.loading);
            forall i | i in s.loading ::
              i in holds && holds[i].header < |w.headers| && holds[i].slot == w.headers[holds[i].header].front
  {
    var v := s.view;
    hide Inv, OwnerOk, Shows, Steady, Indexed, Published;
    forall i | i in w.holds ensures Steady(w, i, w.holds[i]) { SteadyLater(v, w, i, w.holds[i]); }
    var holds := Followed(w, s.loading);
    forall i | i in s.loading
      ensures i in holds && holds[i].header < |w.headers| && holds[i].slot == w.headers[holds[i].header].front
    {
      SteadyHeader(v, i, v.holds[i]);
    }
  }

  lemma ShowsFewer<T>(v: View<T>, n: nat, m: nat)
    requires Indexed(v) && Shows(v, n) && Blocks(m) <= Blocks(n)
    ensures Shows(v, m)
  {
  }

  lemma ConstructStep<T>(s: State<T>)
    requires StepInv(s) && Enabled(s, Event<T>.Construct)
    ensures StepInv(Next(s, Event<T>.Construct))
  {
    hide Inv, Shows, Steady, Later, Indexed, Written;
    var v, e := s.view, s.owner.vs[s.owner.k];
    FillFitsHere(s);
    WriteKeeps(v, e);
    WrittenFields(v, e);
    var w := Written(v, e);
    InvIndexed(v);
    InvIndexed(w);
    SameLater(v, w);
    ConsumersKeep(s, w);
    OneMoreWritten(v.log, w.log, s.out, s.owner.vs, s.owner.k);
    ShowsLater(v, w, BLOCK_SIZE * |v.blockOf|);
  }

  lemma OneMoreWritten<T>(log: seq<T>, more: seq<T>, out: nat, vs: seq<T>, k: nat)
    requires k < |vs| && |log| == out + k && log[out..] == vs[..k] && more == log + [vs[k]]
    ensures more[out..] == vs[..k + 1]
  {
    assert more[out..] == log[out..] + [vs[k]];
  }

  lemma WrittenFields<T>(v: View<T>, e: T)
    requires Inv(v) && |v.log| < BLOCK_SIZE * v.prepared
    ensures var w := Written(v, e);
            && w.log == v.log + [e] && w.head == v.head && w.headers == v.headers && w.numbers == v.numbers
            && w.holds == v.holds && w.blockOf == v.blockOf && w.prepared == v.prepared
  {
    PlaceIsRaw(v);
  }

  lemma StoreStep<T>(s: State<T>)
    requires StepInv(s) && Enabled(s, StoreTail)
    ensures StepInv(Next(s, StoreTail))
  {
    hide Inv, Shows, Steady, Indexed, Links, Contents, Current;
    InvIndexed(s.view);
    ShowsWhole(s.view, |s.view.log|);
  }

  // ---------------------------------------------------------------- steps of consumers

  /** What the owner relies on in the middle of its operation is not changed by a consumer. */
  lemma OwnerUndisturbed<T>(s: State<T>, w: View<T>)
    requires OwnerOk(s) && w.log == s.view.log && w.blockOf == s.view.blockOf && w.prepared == s.view.prepared
    requires w.slotsUsed == s.view.slotsUsed && w.tailBlock == s.view.tailBlock && w.next == s.view.next
    requires w.head >= s.view.head && w.headers == s.view.headers && w.numbers == s.view.numbers && w.shifts == s.view.shifts
    requires forall k | FlagUp(s.view, k) :: FlagUp(w, k)
    requires Indexed(s.view) && Indexed(w)
    ensures OwnerOk(s.(view := w))
  {
    hide FlagUp, Indexed;
  }

  lemma ClaimStep<T>(s: State<T>)
    requires StepInv(s) && Enabled(s, Event<T>.Claim)
    ensures StepInv(Next(s, Event<T>.Claim))
  {
    var v := s.view;
    ClaimKeeps(v);
    var w := Claimed(v);
    InvIndexed(v);
    InvIndexed(w);
    SameLater(v, w);
    ConsumersKeep(s, w);
    OwnerUndisturbed(s, w);
    hide Inv, Shows, Steady, Later, Indexed, OwnerOk;
  }

  /** In the middle of an operation of the owner, too, a consumer finds its block from the front. */
  lemma LoadedHere<T>(s: State<T>, i: nat)
    requires StepInv(s) && i < s.view.head && i !in s.view.done
    ensures var v := s.view; var h := Hold(|v.headers| - 1, Front(v));
            v.headers != [] && HoldOk(v, i, h) && Steady(v, i, h)
  {
    var v := s.view;
    hide Links, Contents, HeaderOk, OwnerOk, Steady;
    InRing(v, i);
    SlotInRing(v, i / BLOCK_SIZE);
    BlockOfElement(i, s.out);
    IsSteady(v, i);
  }

  lemma IsSteady<T>(v: View<T>, i: nat)
    requires Indexed(v) && Front(v) < v.Size() && v.numbers[|v.headers| - 1][Front(v)] >= i / BLOCK_SIZE
    ensures Steady(v, i, Hold(|v.headers| - 1, Front(v)))
  {
  }

  lemma BlockOfElement(i: nat, n: nat)
    requires i < n
    ensures i / BLOCK_SIZE <= Blocks(n) - 1
  {
  }

  lemma LoadStep<T>(s: State<T>, i: nat)
    requires StepInv(s) && Enabled(s, LoadIndex(i))
    ensures StepInv(Next(s, LoadIndex(i)))
  {
    var v := s.view;
    LoadedHere(s, i);
    var w := Loaded(v, i);
    InvIndexed(v);
    hide Shows, Steady, HoldOk, HeaderOk, OwnerOk;
    SameRest(v, w);
    SameSlots(v, w);
    SameIndex(v, w);
    SameLater(v, w);
    forall k | k in w.holds ensures HoldOk(w, k, w.holds[k]) && Steady(w, k, w.holds[k]) {
      assert k != i ==> HoldOk(v, k, v.holds[k]) && Steady(v, k, v.holds[k]);
      SameHold(v, w, k, w.holds[k]);
      SteadyLater(v, w, k, w.holds[k]);
    }
    ShowsLater(v, w, s.out);
    SameFlags(v, w);
    OwnerUndisturbed(s, w);
    OwnerSeesNoLoading(s, w, s.loading + {i});
    forall k | k in s.loading + {i}
      ensures k in w.holds && w.holds[k].header < |w.headers| && w.holds[k].slot == w.headers[w.holds[k].header].front
    {
      if k != i { SteadyHeader(v, k, v.holds[k]); }
    }
  }

  lemma SameFlags<T>(v: View<T>, w: View<T>)
    requires w.tailBlock == v.tailBlock && w.next == v.next && w.flags == v.flags
    ensures forall k | FlagUp(v, k) :: FlagUp(w, k)
  {
  }

  lemma OwnerSeesNoLoading<T>(s: State<T>, w: View<T>, loading: set<nat>)
    requires OwnerOk(s.(view := w))
    ensures OwnerOk(s.(view := w, loading := loading))
  {
  }

  lemma TakeStep<T>(s: State<T>, i: nat)
    requires StepInv(s) && Enabled(s, Event<T>.Take(i))
    ensures StepInv(Next(s, Event<T>.Take(i)))
  {
    var v := s.view;
    LookupIsRight(v, i);
    TakeKeeps(v, i);
    var w := Taken(v, i);
    InvIndexed(v);
    InvIndexed(w);
    SameLater(v, w);
    TakenFlags(v, i);
    hide Inv, Shows, Steady, HoldOk, HeaderOk, OwnerOk, FlagUp, Links, Contents, Current;
    forall k | k in w.holds ensures Steady(w, k, w.holds[k]) { SteadyLater(v, w, k, v.holds[k]); }
    ShowsLater(v, w, s.out);
    OwnerUndisturbed(s, w);
  }

  lemma TakenFlags<T>(v: View<T>, i: nat)
    requires Inv(v) && i in v.holds && i / BLOCK_SIZE < |v.blockOf|
    ensures forall k | FlagUp(v, k) :: FlagUp(Taken(v, i), k)
  {
  }

  // ---------------------------------------------------------------- runs

  /** Every step of the owner and of every consumer keeps the invariant. */
  lemma NextKeepsInv<T>(s: State<T>, e: Event<T>)
    requires StepInv(s) && Enabled(s, e)
    ensures StepInv(Next(s, e))
  {
    match e
    case Reuse => ReuseStep(s);
    case Grow(entries) => GrowStep(s, entries);
    case InsertBlock => InsertStep(s);
    case ResetBlock => ResetStep(s);
    case ShowFront => ShowStep(s);
    case Construct => ConstructStep(s);
    case StoreTail => StoreStep(s);
    case Claim => ClaimStep(s);
    case LoadIndex(i) => LoadStep(s, i);
    case LoadFront(i) => LoadFrontStep(s, i);
    case Take(i) => TakeStep(s, i);
    case _ => LookSteps(s, e);
  }

  lemma LoadFrontStep<T>(s: State<T>, i: nat)
    requires StepInv(s) && Enabled(s, LoadFront(i))
    ensures StepInv(Next(s, LoadFront(i)))
  {
    hide Inv, Shows, Steady, OwnerOk;
    OwnerSeesNoLoading(s, s.view, s.loading - {i});
  }

  /** A new producer: no blocks, an index of `size` slots, and nobody about. */
  ghost predicate Init<T>(s: State<T>) {
    && (exists size: nat :: FitsWord(size) &&
         s.view == View(0, 0, NONE, [], [], [], [Header(seq(size, _ => Entry(0, 0)), W - 1)], 0, 0,
                        [], 0, {}, [], 0, [0], [seq(size, _ => -1)], map[]))
    && s.out == 0 && s.owner.Ready? && s.loading == {}
  }

  lemma InitInv<T>(s: State<T>)
    requires Init(s)
    ensures StepInv(s)
  {
    var size: nat :| FitsWord(size) &&
      s.view == View(0, 0, NONE, [], [], [], [Header(seq(size, _ => Entry(0, 0)), W - 1)], 0, 0,
                     [], 0, {}, [], 0, [0], [seq(size, _ => -1)], map[]);
    InitKeeps(s.view, size);
  }

  /** A step has its outcome where the invariant holds; nothing is assumed of the others, and there are none. */
  ghost predicate Follows<T>(s: State<T>, e: Event<T>, t: State<T>) { Enabled(s, e) && (StepInv(s) ==> t == Next(s, e)) }

  ghost predicate IsRun<T>(states: seq<State<T>>, events: seq<Event<T>>) {
    && |states| == |events| + 1 && Init(states[0])
    && forall n | 0 <= n < |events| :: Follows(states[n], events[n], states[n + 1])
  }

  lemma {:induction false} RunInv<T>(states: seq<State<T>>, events: seq<Event<T>>, n: nat)
    requires IsRun(states, events) && n <= |events|
    ensures StepInv(states[n])
    decreases n
  {
    hide Init, StepInv, Enabled, Next;
    if n == 0 {
      InitInv(states[0]);
    } else {
      RunInv(states, events, n - 1);
      assert Follows(states[n - 1], events[n - 1], states[n - 1 + 1]);
      NextKeepsInv(states[n - 1], events[n - 1]);
    }
  }

  /** The elements are numbered as they were constructed, and keep their numbers. */
  lemma LogGrows<T>(s: State<T>, e: Event<T>)
    requires StepInv(s) && Enabled(s, e)
    ensures s.view.log <= Next(s, e).view.log && s.out <= Next(s, e).out
    ensures s.view.done <= Next(s, e).view.done
  {
    hide Inv, Shows, Steady;
    if e.Construct? { ConstructGrows(s); }
  }

  lemma ConstructGrows<T>(s: State<T>)
    requires StepInv(s) && Enabled(s, Event<T>.Construct)
    ensures s.view.log <= Next(s, Event<T>.Construct).view.log && Next(s, Event<T>.Construct).view.done == s.view.done
  {
    FillFitsHere(s);
    WrittenFields(s.view, s.owner.vs[s.owner.k]);
  }

  lemma {:induction false} RunGrows<T>(states: seq<State<T>>, events: seq<Event<T>>, n: nat, m: nat)
    requires IsRun(states, events) && n <= m <= |events|
    ensures states[n].view.log <= states[m].view.log && states[n].view.done <= states[m].view.done
    decreases m
  {
    hide Init, StepInv, Enabled, Next;
    if n < m {
      RunGrows(states, events, n, m - 1);
      RunInv(states, events, m - 1);
      assert Follows(states[m - 1], events[m - 1], states[m - 1 + 1]);
      LogGrows(states[m - 1], events[m - 1]);
    }
  }

  // ---------------------------------------------------------------- what the steps come to

  /** The value that a consumer takes through the index and front it has loaded. */
  ghost function TakenValue<T>(v: View<T>, i: nat): Cell<T>
    requires Inv(v) && i in v.holds
  {
    LookupIsRight(v, i);
    var h := v.holds[i];
    v.cells[Lookup(v.headers[h.header], h.slot, Wrap(i))][i % BLOCK_SIZE]
  }

  /** First in, first out, over any run and at any moment of the owner's operations: the consumer that has claimed
      number i takes the element that was enqueued as number i, which nobody has taken before. */
  lemma TakesItsElement<T>(states: seq<State<T>>, events: seq<Event<T>>, n: nat, i: nat)
    requires IsRun(states, events) && n < |events| && events[n] == Event<T>.Take(i)
    ensures Inv(states[n].view) && i in states[n].view.holds
    ensures i < states[n].out && i !in states[n].view.done && i in states[n + 1].view.done
    ensures var log := states[|events|].view.log; i < |log| && TakenValue(states[n].view, i) == Full(log[i])
    ensures forall m | 0 <= m < |events| && events[m] == Event<T>.Take(i) :: m == n
  {
    RunInv(states, events, n);
    assert Follows(states[n], events[n], states[n + 1]);
    TakeFacts(states[n], i);
    RunGrows(states, events, n, |events|);
    forall m | 0 <= m < |events| && events[m] == Event<T>.Take(i) ensures m == n {
      RunInv(states, events, m);
      assert Follows(states[m], events[m], states[m + 1]);
      TakeFacts(states[m], i);
      if m < n { RunGrows(states, events, m + 1, n); }
      if n < m { RunGrows(states, events, n + 1, m); }
    }
    hide Init, StepInv, Enabled, Next, Inv;
  }

  lemma TakeFacts<T>(s: State<T>, i: nat)
    requires StepInv(s) && Enabled(s, Event<T>.Take(i))
    ensures Inv(s.view) && i in s.view.holds && i < s.out && i < |s.view.log| && i !in s.view.done
    ensures i in Next(s, Event<T>.Take(i)).view.done && TakenValue(s.view, i) == Full(s.view.log[i])
  {
    LookupIsRight(s.view, i);
    NotTaken(s.view, i);
  }

  /** When the tail has been stored, exactly the elements of the call have become visible, in their order. */
  lemma CallAppends<T>(s: State<T>)
    requires StepInv(s) && Enabled(s, StoreTail)
    ensures var t := Next(s, StoreTail); t.view.log[..t.out] == s.view.log[..s.out] + s.owner.vs
  {
    hide Inv, Shows, Steady, Indexed;
    assert s.view.log == s.view.log[..s.out] + s.view.log[s.out..];
    assert s.owner.vs[..s.owner.k] == s.owner.vs;
  }

  /** The slot of the index that the owner writes, while it enters a block, is none that a consumer reads: not the
      one it starts from, and not the one it looks up. */
  lemma NoSlotRead<T>(s: State<T>, e: Event<T>, i: nat)
    requires StepInv(s) && Enabled(s, e) && (e.Reuse? || e.InsertBlock?) && i in s.view.holds
    requires s.view.holds[i].header == |s.view.headers| - 1
    ensures Indexed(s.view) && s.view.Size() > 0
    ensures s.view.front != s.view.holds[i].slot && s.view.front != SlotFor(s.view, |s.view.headers| - 1, i / BLOCK_SIZE)
  {
    var v, m := s.view, i / BLOCK_SIZE;
    LiveBlock(s, e, i);
    SlotsApart(v, i, v.holds[i]);
  }

  /** The block of an element that is still held is not the one that leaves. */
  lemma LiveBlock<T>(s: State<T>, e: Event<T>, i: nat)
    requires StepInv(s) && Enabled(s, e) && (e.Reuse? || e.InsertBlock?) && i in s.view.holds
    ensures |s.view.blockOf| < i / BLOCK_SIZE + s.view.Size() && i / BLOCK_SIZE < |s.view.blockOf|
    ensures Inv(s.view) && HoldOk(s.view, i, s.view.holds[i]) && Steady(s.view, i, s.view.holds[i])
  {
    var v := s.view;
    ClaimedIsLogged(v, i);
    InRing(v, i);
    HoldBounds(v);
    if e.Reuse? {
      ScanFindsEmpty(s);
      AheadIsDone(v);
    }
  }

  lemma SlotsApart<T>(v: View<T>, i: nat, h: Hold)
    requires Inv(v) && HoldOk(v, i, h) && Steady(v, i, h) && h.header == |v.headers| - 1
    requires |v.blockOf| < i / BLOCK_SIZE + v.Size() && i / BLOCK_SIZE < |v.blockOf|
    ensures v.Size() > 0 && v.front != h.slot && v.front != SlotFor(v, |v.headers| - 1, i / BLOCK_SIZE)
  {
    hide Counters, Links, Contents;
    var j := |v.headers| - 1;
    assert HeaderOk(v.headers[j], v.shifts[j], v.numbers[j], v.blockOf);
    assert SlotOk(v.headers[j], v.shifts[j], v.numbers[j], v.blockOf, h.slot);
    OtherSlot(i / BLOCK_SIZE, |v.blockOf|, v.shifts[j], v.Size());
    OtherSlot(v.numbers[j][h.slot], |v.blockOf|, v.shifts[j], v.Size());
  }
}
