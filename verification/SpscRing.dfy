/** The lock-free single-producer single-consumer ring, as the interleaving of its two threads'
    steps.  Each step touches one shared word or one storage slot; acquire/release ordering is what
    makes those steps atomic and ordered, and is not modelled further. */
module SpscRing {
  import opened MarketTypes

  /** A raw storage slot. */
  datatype Cell<T> = Dead | Alive(value: T) | MovedFrom

  /** Where `push` is; `write` and `next` are its locals. */
  datatype Producer<T> =
    | Ready
    | Check(value: T, write: nat, next: nat)
    | Refresh(value: T, write: nat, next: nat)
    | Construct(value: T, write: nat, next: nat)
    | Publish(value: T, write: nat, next: nat)

  /** Where `pop` is; `read` and `value` are its locals. */
  datatype Consumer<T> =
    | Waiting
    | CheckEmpty(read: nat)
    | RefreshWrite(read: nat)
    | Move(read: nat)
    | Destroy(read: nat, value: T)
    | Release(read: nat, value: T)

  /** The shared words, the two private caches and both threads' positions; whether storage was ever
      misused; and, as history, the values published and released so far and what the caches stood
      for when they were loaded. */
  datatype Ring<T> = Ring(
    cells: seq<Cell<T>>,
    writeIndex: nat, readIndex: nat,
    cachedRead: nat, cachedWrite: nat,
    producer: Producer<T>, consumer: Consumer<T>,
    misused: bool,
    pushed: seq<T>, popped: seq<T>,
    knownRead: nat, knownWrite: nat)

  datatype Action<T> = StartPush(value: T) | ProducerStep | StartPop | ConsumerStep

  function Increment(index: nat, capacity: nat): nat
    requires capacity > 0
  {
    (index + 1) % capacity
  }

  function Initial<T>(capacity: nat): Ring<T> {
    Ring(seq(capacity, _ => Dead), 0, 0, 0, 0, Ready, Waiting, false, [], [], 0, 0)
  }

  // ----- The steps of push -----

  function CheckStep<T>(s: Ring<T>): Ring<T>
    requires s.producer.Check?
  {
    var Check(v, write, next) := s.producer;
    s.(producer := if next == s.cachedRead then Refresh(v, write, next) else Construct(v, write, next))
  }

  function RefreshStep<T>(s: Ring<T>): Ring<T>
    requires s.producer.Refresh?
  {
    var Refresh(v, write, next) := s.producer;
    s.(cachedRead := s.readIndex, knownRead := |s.popped|,
       producer := if next == s.readIndex then Ready else Construct(v, write, next))
  }

  /** Constructing a value is only allowed where nothing lives. */
  function ConstructStep<T>(s: Ring<T>): Ring<T>
    requires s.producer.Construct?
  {
    var Construct(v, write, next) := s.producer;
    if write < |s.cells| && s.cells[write].Dead?
    then s.(cells := s.cells[write := Alive(v)], producer := Publish(v, write, next))
    else s.(misused := true)
  }

  function PublishStep<T>(s: Ring<T>): Ring<T>
    requires s.producer.Publish?
  {
    s.(writeIndex := s.producer.next, pushed := s.pushed + [s.producer.value], producer := Ready)
  }

  function ProduceStep<T>(s: Ring<T>): Ring<T> {
    match s.producer
    case Ready => s
    case Check(_, _, _) => CheckStep(s)
    case Refresh(_, _, _) => RefreshStep(s)
    case Construct(_, _, _) => ConstructStep(s)
    case Publish(_, _, _) => PublishStep(s)
  }

  // ----- The steps of pop -----

  function CheckEmptyStep<T>(s: Ring<T>): Ring<T>
    requires s.consumer.CheckEmpty?
  {
    var read := s.consumer.read;
    s.(consumer := if read == s.cachedWrite then RefreshWrite(read) else Move(read))
  }

  function RefreshWriteStep<T>(s: Ring<T>): Ring<T>
    requires s.consumer.RefreshWrite?
  {
    var read := s.consumer.read;
    s.(cachedWrite := s.writeIndex, knownWrite := |s.pushed|,
       consumer := if read == s.writeIndex then Waiting else Move(read))
  }

  /** Only a live value may be moved out. */
  function MoveStep<T>(s: Ring<T>): Ring<T>
    requires s.consumer.Move?
  {
    var read := s.consumer.read;
    if read < |s.cells| && s.cells[read].Alive?
    then s.(cells := s.cells[read := MovedFrom], consumer := Destroy(read, s.cells[read].value))
    else s.(misused := true)
  }

  /** What is destroyed must have been moved from, and not been destroyed yet. */
  function DestroyStep<T>(s: Ring<T>): Ring<T>
    requires s.consumer.Destroy?
  {
    var Destroy(read, v) := s.consumer;
    if read < |s.cells| && s.cells[read].MovedFrom?
    then s.(cells := s.cells[read := Dead], consumer := Release(read, v))
    else s.(misused := true)
  }

  function ReleaseStep<T>(s: Ring<T>): Ring<T>
    requires s.consumer.Release? && |s.cells| > 0
  {
    s.(readIndex := Increment(s.consumer.read, |s.cells|), popped := s.popped + [s.consumer.value], consumer := Waiting)
  }

  function ConsumeStep<T>(s: Ring<T>): Ring<T>
    requires |s.cells| > 0
  {
    match s.consumer
    case Waiting => s
    case CheckEmpty(_) => CheckEmptyStep(s)
    case RefreshWrite(_) => RefreshWriteStep(s)
    case Move(_) => MoveStep(s)
    case Destroy(_, _) => DestroyStep(s)
    case Release(_, _) => ReleaseStep(s)
  }

  function StartPushStep<T>(s: Ring<T>, v: T): Ring<T>
    requires |s.cells| > 0
  {
    if s.producer.Ready? then s.(producer := Check(v, s.writeIndex, Increment(s.writeIndex, |s.cells|))) else s
  }

  function StartPopStep<T>(s: Ring<T>): Ring<T> {
    if s.consumer.Waiting? then s.(consumer := CheckEmpty(s.readIndex)) else s
  }

  function Step<T>(s: Ring<T>, a: Action<T>): (s': Ring<T>)
    requires |s.cells| > 0
    ensures |s'.cells| == |s.cells|
  {
    match a
    case StartPush(v) => StartPushStep(s, v)
    case ProducerStep => ProduceStep(s)
    case StartPop => StartPopStep(s)
    case ConsumerStep => ConsumeStep(s)
  }

  /** Any schedule of the two threads. */
  function Run<T>(s: Ring<T>, schedule: seq<Action<T>>): (s': Ring<T>)
    requires |s.cells| > 0
    ensures |s'.cells| == |s.cells|
    decreases |schedule|
  {
    if schedule == [] then s else Run(Step(s, schedule[0]), schedule[1..])
  }

  // ----- Indices and unbounded positions -----

  /** The slot of the k-th value: where k increments from slot 0 lead. */
  function SlotOf(k: nat, c: nat): (slot: nat)
    requires c > 0
    ensures slot < c
  {
    if k == 0 then 0
    else var last := SlotOf(k - 1, c); if last + 1 == c then 0 else last + 1
  }

  lemma IncrementIsNext(k: nat, c: nat)
    requires c > 0
    ensures Increment(SlotOf(k, c), c) == SlotOf(k + 1, c)
  {
  }

  /** Over at most one round, slots are counted from a known one. */
  lemma {:induction false} SlotFrom(a: nat, b: nat, c: nat)
    requires c > 0 && a <= b <= a + c
    ensures SlotOf(b, c) == if SlotOf(a, c) + (b - a) < c then SlotOf(a, c) + (b - a) else SlotOf(a, c) + (b - a) - c
    decreases b
  {
    if a == b {
    } else {
      SlotFrom(a, b - 1, c);
    }
  }

  /** Within one round no two positions share a slot. */
  lemma SameSlot(a: nat, b: nat, c: nat)
    requires c > 0 && a < b + c && b < a + c
    ensures SlotOf(a, c) == SlotOf(b, c) <==> a == b
  {
    if a <= b {
      SlotFrom(a, b, c);
    } else {
      SlotFrom(b, a, c);
    }
  }

  /** The equality test for a full ring, made against a possibly stale read position `known`, says
      full exactly when the ring would be full if `known` were current. */
  lemma FullTest(known: nat, w: nat, c: nat)
    requires c > 0 && known <= w <= known + c - 1
    ensures SlotOf(w + 1, c) == SlotOf(known, c) <==> w == known + c - 1
  {
    SlotFrom(known, w + 1, c);
  }

  // ----- The invariant -----

  /** What the slot of position `k` of the window holds: published values that are not yet being taken
      are alive, everything else is dead but for the slot each thread is working on. */
  ghost predicate CellRight<T>(s: Ring<T>, k: nat)
    requires |s.cells| > 0
  {
    var cell := s.cells[SlotOf(k, |s.cells|)];
    if k < |s.pushed| then
      if k == |s.popped| && s.consumer.Destroy? then cell == MovedFrom
      else if k == |s.popped| && s.consumer.Release? then cell == Dead
      else cell == Alive(s.pushed[k])
    else if k == |s.pushed| && s.producer.Publish? then cell == Alive(s.producer.value)
    else cell == Dead
  }

  ghost predicate CellsRight<T>(s: Ring<T>)
    requires |s.cells| > 0
  {
    forall k {:trigger CellRight(s, k)} | |s.popped| <= k < |s.popped| + |s.cells| :: CellRight(s, k)
  }

  /** Each thread's view of the other is stale, but only in the safe direction. */
  ghost predicate Window<T>(s: Ring<T>) {
    var c, w, r := |s.cells|, |s.pushed|, |s.popped|;
    && c > 0
    && s.knownRead <= r <= s.knownWrite <= w <= s.knownRead + c - 1
    && s.writeIndex == SlotOf(w, c) && s.readIndex == SlotOf(r, c)
    && s.cachedRead == SlotOf(s.knownRead, c) && s.cachedWrite == SlotOf(s.knownWrite, c)
  }

  ghost predicate ProducerRight<T>(s: Ring<T>)
    requires |s.cells| > 0
  {
    var c, w := |s.cells|, |s.pushed|;
    s.producer.Ready? || (
      && s.producer.write == SlotOf(w, c) && s.producer.next == SlotOf(w + 1, c)
      && (s.producer.Construct? || s.producer.Publish? ==> w + 1 <= s.knownRead + c - 1))
  }

  ghost predicate ConsumerRight<T>(s: Ring<T>)
    requires Window(s)
  {
    var c, r := |s.cells|, |s.popped|;
    s.consumer.Waiting? || (
      && s.consumer.read == SlotOf(r, c)
      && (s.consumer.Move? || s.consumer.Destroy? || s.consumer.Release? ==> r < s.knownWrite)
      && (s.consumer.Destroy? || s.consumer.Release? ==> s.consumer.value == s.pushed[r]))
  }

  ghost predicate Inv<T>(s: Ring<T>) {
    && Window(s) && ProducerRight(s) && ConsumerRight(s) && CellsRight(s)
    && s.popped <= s.pushed && !s.misused
  }

  lemma InitialInv<T>(capacity: nat)
    requires capacity > 0
    ensures Inv(Initial<T>(capacity))
  {
  }

  /** Steps that leave the storage alone and neither begin nor end work on a slot. */
  lemma SameCells<T>(s: Ring<T>, s': Ring<T>)
    requires |s.cells| > 0 && CellsRight(s)
    requires s'.cells == s.cells && s'.pushed == s.pushed && s'.popped == s.popped
    requires s'.producer == s.producer || !(s.producer.Publish? || s'.producer.Publish?)
    requires s'.consumer == s.consumer || !(s.consumer.Destroy? || s.consumer.Release? ||
               s'.consumer.Destroy? || s'.consumer.Release?)
    ensures CellsRight(s')
  {
    forall k | |s.popped| <= k < |s.popped| + |s.cells|
      ensures CellRight(s', k)
    {
      assert CellRight(s, k);
    }
  }

  lemma ConstructKeepsInv<T>(s: Ring<T>)
    requires Inv(s) && s.producer.Construct?
    ensures Inv(ConstructStep(s))
  {
    var s', c, w, r := ConstructStep(s), |s.cells|, |s.pushed|, |s.popped|;
    assert CellRight(s, w);
    forall k | r <= k < r + c
      ensures CellRight(s', k)
    {
      assert CellRight(s, k);
      SameSlot(k, w, c);
    }
  }

  lemma PublishKeepsInv<T>(s: Ring<T>)
    requires Inv(s) && s.producer.Publish?
    ensures Inv(PublishStep(s))
  {
    var s', c, r := PublishStep(s), |s.cells|, |s.popped|;
    forall k | r <= k < r + c
      ensures CellRight(s', k)
    {
      assert CellRight(s, k);
    }
  }

  lemma ProduceKeepsInv<T>(s: Ring<T>)
    requires Inv(s)
    ensures Inv(ProduceStep(s))
  {
    match s.producer
    case Ready =>
    case Check(_, _, _) =>
      FullTest(s.knownRead, |s.pushed|, |s.cells|);
      SameCells(s, ProduceStep(s));
    case Refresh(_, _, _) =>
      FullTest(|s.popped|, |s.pushed|, |s.cells|);
      SameCells(s, ProduceStep(s));
    case Construct(_, _, _) => ConstructKeepsInv(s);
    case Publish(_, _, _) => PublishKeepsInv(s);
  }

  lemma MoveKeepsInv<T>(s: Ring<T>)
    requires Inv(s) && s.consumer.Move?
    ensures Inv(MoveStep(s))
  {
    var s', c, r := MoveStep(s), |s.cells|, |s.popped|;
    assert CellRight(s, r);
    forall k | r <= k < r + c
      ensures CellRight(s', k)
    {
      assert CellRight(s, k);
      SameSlot(k, r, c);
    }
  }

  lemma DestroyKeepsInv<T>(s: Ring<T>)
    requires Inv(s) && s.consumer.Destroy?
    ensures Inv(DestroyStep(s))
  {
    var s', c, r := DestroyStep(s), |s.cells|, |s.popped|;
    assert CellRight(s, r);
    forall k | r <= k < r + c
      ensures CellRight(s', k)
    {
      assert CellRight(s, k);
      SameSlot(k, r, c);
    }
  }

  /** Releasing a slot makes it the last one of the next round. */
  lemma ReleaseKeepsInv<T>(s: Ring<T>)
    requires Inv(s) && s.consumer.Release?
    ensures Inv(ReleaseStep(s))
  {
    var s', c, r := ReleaseStep(s), |s.cells|, |s.popped|;
    IncrementIsNext(r, c);
    forall k | r + 1 <= k < r + 1 + c
      ensures CellRight(s', k)
    {
      if k < r + c {
        assert CellRight(s, k);
      } else {
        assert CellRight(s, r);
        SlotFrom(r, k, c);
      }
    }
  }

  lemma ConsumeKeepsInv<T>(s: Ring<T>)
    requires Inv(s)
    ensures Inv(ConsumeStep(s))
  {
    match s.consumer
    case Waiting =>
    case CheckEmpty(_) =>
      SameSlot(|s.popped|, s.knownWrite, |s.cells|);
      SameCells(s, ConsumeStep(s));
    case RefreshWrite(_) =>
      SameSlot(|s.popped|, |s.pushed|, |s.cells|);
      SameCells(s, ConsumeStep(s));
    case Move(_) => MoveKeepsInv(s);
    case Destroy(_, _) => DestroyKeepsInv(s);
    case Release(_, _) => ReleaseKeepsInv(s);
  }

  /** Every step of either thread, from any state the invariant allows, keeps it. */
  lemma StepKeepsInv<T>(s: Ring<T>, a: Action<T>)
    requires Inv(s)
    ensures Inv(Step(s, a))
  {
    match a
    case StartPush(v) =>
      IncrementIsNext(|s.pushed|, |s.cells|);
      SameCells(s, Step(s, a));
    case ProducerStep => ProduceKeepsInv(s);
    case StartPop => SameCells(s, Step(s, a));
    case ConsumerStep => ConsumeKeepsInv(s);
  }

  lemma {:induction false} RunKeepsInv<T>(s: Ring<T>, schedule: seq<Action<T>>)
    requires Inv(s)
    ensures Inv(Run(s, schedule))
    decreases |schedule|
  {
    if schedule == [] {
    } else {
      StepKeepsInv(s, schedule[0]);
      RunKeepsInv(Step(s, schedule[0]), schedule[1..]);
    }
  }

  /** Under every interleaving from the start: what was popped is a prefix of what was pushed, storage is
      never misused, and both threads' real and cached positions keep their order. */
  lemma SafeUnderEverySchedule<T>(capacity: nat, schedule: seq<Action<T>>)
    requires capacity > 0
    ensures var s := Run(Initial<T>(capacity), schedule);
            && s.popped <= s.pushed
            && !s.misused
            && s.knownRead <= |s.popped| <= s.knownWrite <= |s.pushed| <= s.knownRead + capacity - 1
            && s.cachedRead == SlotOf(s.knownRead, capacity) && s.readIndex == SlotOf(|s.popped|, capacity)
            && s.cachedWrite == SlotOf(s.knownWrite, capacity) && s.writeIndex == SlotOf(|s.pushed|, capacity)
  {
    InitialInv<T>(capacity);
    RunKeepsInv(Initial<T>(capacity), schedule);
  }

  // ----- The ring as a queue -----

  /** The queue the ring stands for: published, not yet released. */
  function Contents<T>(s: Ring<T>): seq<T>
    requires |s.popped| <= |s.pushed|
  {
    s.pushed[|s.popped|..]
  }

  /** Publishing appends, releasing takes the head that pop returns, and no other step of either
      thread, whatever it does to the storage or the caches, can be seen in the queue. */
  lemma StepRefinesQueue<T>(s: Ring<T>, a: Action<T>)
    requires Inv(s)
    ensures Inv(Step(s, a))
    ensures var q, q' := Contents(s), Contents(Step(s, a));
            if a.ProducerStep? && s.producer.Publish? then q' == q + [s.producer.value]
            else if a.ConsumerStep? && s.consumer.Release? then q == [s.consumer.value] + q'
            else q' == q
  {
    StepKeepsInv(s, a);
  }

  /** A push that refreshed its view is refused if and only if the queue then held Capacity - 1 values:
      one slot always stays free. */
  lemma RefusedIffFull<T>(s: Ring<T>)
    requires Inv(s) && s.producer.Refresh?
    ensures Step(s, ProducerStep).producer.Ready? <==> |Contents(s)| == |s.cells| - 1
  {
    FullTest(|s.popped|, |s.pushed|, |s.cells|);
  }

  /** A pop that refreshed its view finds nothing if and only if the queue was then empty. */
  lemma EmptyHandedIffEmpty<T>(s: Ring<T>)
    requires Inv(s) && s.consumer.RefreshWrite?
    ensures Step(s, ConsumerStep).consumer.Waiting? <==> Contents(s) == []
  {
    SameSlot(|s.popped|, |s.pushed|, |s.cells|);
  }

  /** A push looks at the shared read index only if its cached one says full, a pop at the shared write
      index only if its cached one says empty. */
  lemma RefreshesOnlyIfNeeded<T>(s: Ring<T>)
    requires Inv(s)
    ensures s.producer.Check? ==>
              (Step(s, ProducerStep).producer.Refresh? <==> |s.pushed| - s.knownRead == |s.cells| - 1)
    ensures s.consumer.CheckEmpty? ==>
              (Step(s, ConsumerStep).consumer.RefreshWrite? <==> s.knownWrite == |s.popped|)
  {
    FullTest(s.knownRead, |s.pushed|, |s.cells|);
    SameSlot(|s.popped|, s.knownWrite, |s.cells|);
  }

  // ----- One thread running alone -----

  /** A whole push, or a whole pop, with nothing in between; a finished thread stays where it is. */
  function PushAlone<T>(s: Ring<T>, v: T): Ring<T>
    requires |s.cells| > 0
  {
    PlaceAlone(ProduceStep(ProduceStep(StartPushStep(s, v))))
  }

  /** The second half of a push: construct, publish. */
  function PlaceAlone<T>(s: Ring<T>): Ring<T> {
    ProduceStep(ProduceStep(s))
  }

  /** The second half of a pop: move out, destroy, release. */
  function TakeAlone<T>(s: Ring<T>): Ring<T>
    requires |s.cells| > 0
  {
    Step(Step(Step(s, ConsumerStep), ConsumerStep), ConsumerStep)
  }

  function PopAlone<T>(s: Ring<T>): Ring<T>
    requires |s.cells| > 0
  {
    TakeAlone(Step(Step(StartPopStep(s), ConsumerStep), ConsumerStep))
  }

  ghost predicate Quiet<T>(s: Ring<T>) {
    Inv(s) && s.producer.Ready? && s.consumer.Waiting?
  }

  lemma PlaceAloneAppends<T>(s: Ring<T>)
    requires Inv(s) && s.producer.Construct? && s.consumer.Waiting?
    ensures Quiet(PlaceAlone(s)) && |Contents(s)| < |s.cells| - 1
    ensures PlaceAlone(s) == s.(cells := s.cells[s.producer.write := Alive(s.producer.value)],
                                writeIndex := s.producer.next,
                                pushed := s.pushed + [s.producer.value], producer := Ready)
    ensures Contents(PlaceAlone(s)) == Contents(s) + [s.producer.value]
  {
    assert CellRight(s, |s.pushed|);
    ProduceKeepsInv(s);
    ProduceKeepsInv(ProduceStep(s));
  }

  /** A push's view of the read position when it decides: refreshed if the cached one says full. */
  function Refreshed<T>(s: Ring<T>): Ring<T>
    requires |s.cells| > 0
  {
    if Increment(s.writeIndex, |s.cells|) == s.cachedRead
    then s.(cachedRead := s.readIndex, knownRead := |s.popped|)
    else s
  }

  lemma RefreshKeepsQuiet<T>(s: Ring<T>)
    requires Quiet(s)
    ensures Quiet(Refreshed(s)) && Contents(Refreshed(s)) == Contents(s) && Refreshed(s).cells == s.cells
    ensures Increment(s.writeIndex, |s.cells|) == Refreshed(s).cachedRead <==> |Contents(s)| == |s.cells| - 1
  {
    var c, t := |s.cells|, Refreshed(s);
    IncrementIsNext(|s.pushed|, c);
    FullTest(s.knownRead, |s.pushed|, c);
    FullTest(|s.popped|, |s.pushed|, c);
    SameCells(s, t);
  }

  /** What a push of a quiet ring does, step by step put together. */
  lemma PushAloneIs<T>(s: Ring<T>, v: T)
    requires Quiet(s)
    ensures var next, t := Increment(s.writeIndex, |s.cells|), Refreshed(s);
            PushAlone(s, v) == if next == t.cachedRead then t
                               else PlaceAlone(t.(producer := Construct(v, s.writeIndex, next)))
  {
    var next, t := Increment(s.writeIndex, |s.cells|), Refreshed(s);
    var s1 := ProduceStep(StartPushStep(s, v));
    if next == s.cachedRead {
      assert s1 == s.(producer := Refresh(v, s.writeIndex, next));
    } else {
      assert s1 == t.(producer := Construct(v, s.writeIndex, next));
      assert PlaceAlone(ProduceStep(s1)) == ProduceStep(PlaceAlone(s1)) == PlaceAlone(s1) by {
        PlacingInv(s, v);
        PlaceAloneAppends(s1);
      }
    }
  }

  lemma PlacingInv<T>(s: Ring<T>, v: T)
    requires Quiet(s)
    ensures var next, t := Increment(s.writeIndex, |s.cells|), Refreshed(s);
            next != t.cachedRead ==> Inv(t.(producer := Construct(v, s.writeIndex, next)))
  {
    RefreshKeepsQuiet(s);
    var c, t := |s.cells|, Refreshed(s);
    IncrementIsNext(|s.pushed|, c);
    FullTest(t.knownRead, |s.pushed|, c);
    SameCells(t, t.(producer := Construct(v, s.writeIndex, Increment(s.writeIndex, c))));
  }

  /** Placing a value in a quiet ring whose cached read position does not say full. */
  lemma PlaceIs<T>(s: Ring<T>, v: T)
    requires Quiet(s) && Increment(s.writeIndex, |s.cells|) != s.cachedRead
    ensures var next := Increment(s.writeIndex, |s.cells|);
            var s' := PlaceAlone(s.(producer := Construct(v, s.writeIndex, next)));
            && s.writeIndex < |s.cells|
            && s' == s.(cells := s.cells[s.writeIndex := Alive(v)], writeIndex := next, pushed := s.pushed + [v])
            && Quiet(s') && |Contents(s)| < |s.cells| - 1 && Contents(s') == Contents(s) + [v]
  {
    PlacingInv(s, v);
    PlaceAloneAppends(s.(producer := Construct(v, s.writeIndex, Increment(s.writeIndex, |s.cells|))));
  }

  lemma PushAloneAppends<T>(s: Ring<T>, v: T)
    requires Quiet(s)
    ensures Quiet(PushAlone(s, v)) && |PushAlone(s, v).cells| == |s.cells| && PushAlone(s, v).popped == s.popped
    ensures Contents(PushAlone(s, v)) == if |Contents(s)| < |s.cells| - 1 then Contents(s) + [v] else Contents(s)
  {
    PushAloneIs(s, v);
    RefreshKeepsQuiet(s);
    if Increment(s.writeIndex, |s.cells|) != Refreshed(s).cachedRead {
      PlaceIs(Refreshed(s), v);
    }
  }

  lemma TakeAloneTakes<T>(s: Ring<T>)
    requires Inv(s) && s.producer.Ready? && s.consumer.Move?
    ensures Quiet(TakeAlone(s)) && Contents(s) != []
    ensures TakeAlone(s) == s.(cells := s.cells[s.consumer.read := Dead],
                               readIndex := Increment(s.consumer.read, |s.cells|),
                               popped := s.popped + [Contents(s)[0]], consumer := Waiting)
    ensures Contents(TakeAlone(s)) == Contents(s)[1..]
  {
    assert CellRight(s, |s.popped|);
    var s1 := Step(s, ConsumerStep);
    StepKeepsInv(s, ConsumerStep);
    var s2 := Step(s1, ConsumerStep);
    StepKeepsInv(s1, ConsumerStep);
    StepKeepsInv(s2, ConsumerStep);
    assert s.cells[s.consumer.read := MovedFrom][s.consumer.read := Dead] == s.cells[s.consumer.read := Dead];
  }

  lemma TakingInv<T>(s: Ring<T>)
    requires Quiet(s) && |s.popped| < s.knownWrite
    ensures Inv(s.(consumer := Move(s.readIndex)))
    ensures s.readIndex < |s.cells| && s.cells[s.readIndex] == Alive(Contents(s)[0])
  {
    SameCells(s, s.(consumer := Move(s.readIndex)));
    assert CellRight(s, |s.popped|);
  }

  /** Taking the oldest value of a quiet ring that is known not to be empty. */
  lemma TakeAloneIs<T>(s: Ring<T>)
    requires Quiet(s) && |s.popped| < s.knownWrite
    ensures Contents(s) != [] && s.readIndex < |s.cells| && s.cells[s.readIndex] == Alive(Contents(s)[0])
    ensures var s' := TakeAlone(s.(consumer := Move(s.readIndex)));
            && s' == s.(cells := s.cells[s.readIndex := Dead], readIndex := Increment(s.readIndex, |s.cells|),
                        popped := s.popped + [Contents(s)[0]])
            && Quiet(s')
  {
    TakingInv(s);
    TakeAloneTakes(s.(consumer := Move(s.readIndex)));
  }

  /** A pop's view of the write position when it decides: refreshed if the cached one says empty. */
  function Looked<T>(s: Ring<T>): Ring<T> {
    if s.readIndex == s.cachedWrite then s.(cachedWrite := s.writeIndex, knownWrite := |s.pushed|) else s
  }

  lemma LookKeepsQuiet<T>(s: Ring<T>)
    requires Quiet(s)
    ensures Quiet(Looked(s)) && Contents(Looked(s)) == Contents(s) && Looked(s).cells == s.cells
    ensures s.readIndex == Looked(s).cachedWrite <==> Contents(s) == []
    ensures s.readIndex != Looked(s).cachedWrite ==> |s.popped| < Looked(s).knownWrite
  {
    SameSlot(|s.popped|, s.knownWrite, |s.cells|);
    SameSlot(|s.popped|, |s.pushed|, |s.cells|);
    SameCells(s, Looked(s));
  }

  /** What a pop of a quiet ring does, step by step put together. */
  lemma PopAloneIs<T>(s: Ring<T>)
    requires Quiet(s)
    ensures var t := Looked(s);
            PopAlone(s) == if s.readIndex == t.cachedWrite then t else TakeAlone(t.(consumer := Move(s.readIndex)))
  {
    var t := Looked(s);
    var s1 := Step(StartPopStep(s), ConsumerStep);
    if s.readIndex == s.cachedWrite {
      assert s1 == s.(consumer := RefreshWrite(s.readIndex));
    } else {
      assert s1 == t.(consumer := Move(s.readIndex));
      assert Step(TakeAlone(s1), ConsumerStep) == TakeAlone(s1) by {
        LookKeepsQuiet(s);
        TakeAloneIs(t);
      }
    }
  }

  lemma PopAloneTakes<T>(s: Ring<T>)
    requires Quiet(s)
    ensures Quiet(PopAlone(s)) && |PopAlone(s).cells| == |s.cells|
    ensures Contents(PopAlone(s)) == if Contents(s) == [] then [] else Contents(s)[1..]
    ensures PopAlone(s).popped == if Contents(s) == [] then s.popped else s.popped + [Contents(s)[0]]
  {
    PopAloneIs(s);
    LookKeepsQuiet(s);
    if s.readIndex != Looked(s).cachedWrite {
      TakeAloneIs(Looked(s));
    }
  }

  // ----- Reading the size while the other thread runs -----

  /** What `size` computes from its two loads. */
  function SizeOf(write: nat, read: nat, capacity: nat): int {
    if write >= read then write - read else capacity - read + write
  }

  lemma SizeCounts(r: nat, w: nat, c: nat)
    requires c > 0 && r <= w <= r + c - 1
    ensures SizeOf(SlotOf(w, c), SlotOf(r, c), c) == w - r
  {
    SlotFrom(r, w, c);
  }

  lemma {:induction false} OnlyGrows<T>(s: Ring<T>, schedule: seq<Action<T>>)
    requires |s.cells| > 0
    ensures s.pushed <= Run(s, schedule).pushed && s.popped <= Run(s, schedule).popped
    decreases |schedule|
  {
    if schedule == [] {
    } else {
      OnlyGrows(Step(s, schedule[0]), schedule[1..]);
    }
  }

  /** `size` loads the write index, and after any steps of other threads the read index.  It counts
      what lies between the two positions exactly if the read position has not overtaken the write
      position loaded.  So called by the producer it is exact at the second load, called by the
      consumer at the first. */
  lemma SizeIsExactForOwners<T>(s: Ring<T>, between: seq<Action<T>>)
    requires Inv(s)
    ensures var s' := Run(s, between);
            var size := SizeOf(s.writeIndex, s'.readIndex, |s.cells|);
            && |s'.popped| <= |s'.pushed|
            && (size == |s.pushed| - |s'.popped| <==> |s'.popped| <= |s.pushed|)
            && (s'.pushed == s.pushed ==> size == |Contents(s')|)
            && (s'.popped == s.popped ==> size == |Contents(s)|)
  {
    var s' := Run(s, between);
    RunKeepsInv(s, between);
    OnlyGrows(s, between);
    if |s'.popped| <= |s.pushed| {
      SizeCounts(|s'.popped|, |s.pushed|, |s.cells|);
    }
  }

  /** `full` loads the write index first and the read index later: called by the producer it is exact at
      the second load, called by the consumer at the first. */
  lemma FullIsExactForOwners<T>(s: Ring<T>, between: seq<Action<T>>)
    requires Inv(s)
    ensures var s', c := Run(s, between), |s.cells|;
            var full := Increment(s.writeIndex, c) == s'.readIndex;
            && |s'.popped| <= |s'.pushed|
            && (s'.pushed == s.pushed ==> (full <==> |Contents(s')| == c - 1))
            && (s'.popped == s.popped ==> (full <==> |Contents(s)| == c - 1))
  {
    var s' := Run(s, between);
    RunKeepsInv(s, between);
    OnlyGrows(s, between);
    IncrementIsNext(|s.pushed|, |s.cells|);
    if s'.pushed == s.pushed || s'.popped == s.popped {
      FullTest(|s'.popped|, |s.pushed|, |s.cells|);
    }
  }

  /** `empty` loads the read index first and the write index later: called by the consumer it is exact at
      the second load, called by the producer at the first. */
  lemma EmptyIsExactForOwners<T>(s: Ring<T>, between: seq<Action<T>>)
    requires Inv(s)
    ensures var s' := Run(s, between);
            var empty := s.readIndex == s'.writeIndex;
            && |s'.popped| <= |s'.pushed|
            && (s'.popped == s.popped ==> (empty <==> Contents(s') == []))
            && (s'.pushed == s.pushed ==> (empty <==> Contents(s) == []))
  {
    var s' := Run(s, between);
    RunKeepsInv(s, between);
    OnlyGrows(s, between);
    if s'.pushed == s.pushed || s'.popped == s.popped {
      SameSlot(|s.popped|, |s'.pushed|, |s.cells|);
    }
  }

  /** A third thread has no such guarantee: with one value pushed and popped between the two loads,
      `size` of a ring that is empty before and after comes out as Capacity - 1. */
  lemma SizeMisleadsOthers<T>(s: Ring<T>, v: T)
    requires Quiet(s) && Contents(s) == [] && |s.cells| >= 2
    ensures var s' := PopAlone(PushAlone(s, v));
            s'.popped == s'.pushed && SizeOf(s.writeIndex, s'.readIndex, |s.cells|) == |s.cells| - 1
  {
    PushAloneAppends(s, v);
    PopAloneTakes(PushAlone(s, v));
    Overtakes(s, PopAlone(PushAlone(s, v)));
  }

  lemma Overtakes<T>(s: Ring<T>, s': Ring<T>)
    requires Quiet(s) && Quiet(s') && Contents(s) == [] && Contents(s') == []
    requires |s'.cells| == |s.cells| >= 2 && |s'.popped| == |s.popped| + 1
    ensures s'.popped == s'.pushed && SizeOf(s.writeIndex, s'.readIndex, |s.cells|) == |s.cells| - 1
  {
    OvertakenSize(|s.pushed|, |s.cells|);
  }

  lemma OvertakenSize(w: nat, c: nat)
    requires c >= 2
    ensures SizeOf(SlotOf(w, c), SlotOf(w + 1, c), c) == c - 1
  {
    SlotFrom(w, w + 1, c);
  }

  // ----- The ring object -----

  class SpscRingBuffer<T> {
    const storage: array<Cell<T>>
    var writeIndex: nat
    var readIndex: nat
    var cachedReadIndex: nat
    var cachedWriteIndex: nat
    ghost var pushed: seq<T>
    ghost var popped: seq<T>
    ghost var knownRead: nat
    ghost var knownWrite: nat

    /** This object, between calls, as a state of the interleaved machine. */
    ghost function Snapshot(): Ring<T>
      reads this, storage
    {
      Ring(storage[..], writeIndex, readIndex, cachedReadIndex, cachedWriteIndex, Ready, Waiting, false,
           pushed, popped, knownRead, knownWrite)
    }

    ghost predicate Valid()
      reads this, storage
    {
      Inv(Snapshot())
    }

    ghost function Queue(): seq<T>
      requires Valid()
      reads this, storage
    {
      Contents(Snapshot())
    }

    constructor (capacity: nat)
      requires capacity > 0
      ensures Valid() && fresh(storage) && storage.Length == capacity && Queue() == []
    {
      storage := new Cell<T>[capacity](_ => Dead);
      writeIndex, readIndex, cachedReadIndex, cachedWriteIndex := 0, 0, 0, 0;
      pushed, popped, knownRead, knownWrite := [], [], 0, 0;
      new;
      assert Snapshot() == Initial<T>(capacity);
      InitialInv<T>(capacity);
    }

    /** False if and only if Capacity - 1 values are queued; otherwise `value` is appended. */
    method Push(value: T) returns (ok: bool)
      requires Valid()
      modifies this, storage
      ensures Valid() && Snapshot() == PushAlone(old(Snapshot()), value)
      ensures ok <==> |old(Queue())| < storage.Length - 1
      ensures Queue() == if ok then old(Queue()) + [value] else old(Queue())
    {
      PushAloneIs(Snapshot(), value);
      RefreshKeepsQuiet(Snapshot());
      var write := writeIndex;
      var next := Increment(write, storage.Length);
      if next == cachedReadIndex {
        cachedReadIndex, knownRead := readIndex, |popped|;
        assert Snapshot() == Refreshed(old(Snapshot()));
        if next == cachedReadIndex {
          return false;
        }
      }
      Place(value, write, next);
      return true;
    }

    /** Construct the value in its slot and publish it. */
    method Place(value: T, write: nat, next: nat)
      requires Valid() && write == writeIndex && next == Increment(write, storage.Length) != cachedReadIndex
      modifies this, storage
      ensures Valid() && Snapshot() == PlaceAlone(old(Snapshot()).(producer := Construct(value, write, next)))
      ensures Queue() == old(Queue()) + [value]
    {
      ghost var s := Snapshot();
      PlaceIs(s, value);
      storage[write] := Alive(value);
      writeIndex, pushed := next, pushed + [value];
      assert storage[..] == s.cells[write := Alive(value)];
    }

    /** None if and only if nothing is queued; otherwise the oldest value, whose slot is free again. */
    method Pop() returns (r: Option<T>)
      requires Valid()
      modifies this, storage
      ensures Valid() && Snapshot() == PopAlone(old(Snapshot()))
      ensures r == if old(Queue()) == [] then None else Some(old(Queue())[0])
      ensures Queue() == if old(Queue()) == [] then [] else old(Queue())[1..]
    {
      PopAloneIs(Snapshot());
      LookKeepsQuiet(Snapshot());
      var read := readIndex;
      if read == cachedWriteIndex {
        cachedWriteIndex, knownWrite := writeIndex, |pushed|;
        assert Snapshot() == Looked(old(Snapshot()));
        if read == cachedWriteIndex {
          return None;
        }
      }
      var value := Take();
      return Some(value);
    }

    /** Move the oldest value out, destroy what is left in its slot and give the slot back. */
    method Take() returns (value: T)
      requires Valid() && |popped| < knownWrite
      modifies this, storage
      ensures Valid() && Snapshot() == TakeAlone(old(Snapshot().(consumer := Move(readIndex))))
      ensures old(Queue()) == [value] + Queue()
    {
      ghost var s := Snapshot();
      TakeAloneIs(s);
      var read := readIndex;
      value := storage[read].value;
      storage[read] := MovedFrom;
      storage[read] := Dead;
      readIndex, popped := Increment(read, storage.Length), popped + [value];
      assert storage[..] == s.cells[read := Dead];
    }

    method IsEmpty() returns (r: bool)
      requires Valid()
      ensures r <==> Queue() == []
    {
      SameSlot(|popped|, |pushed|, storage.Length);
      r := readIndex == writeIndex;
    }

    method IsFull() returns (r: bool)
      requires Valid()
      ensures r <==> |Queue()| == storage.Length - 1
    {
      FullTest(|popped|, |pushed|, storage.Length);
      IncrementIsNext(|pushed|, storage.Length);
      r := Increment(writeIndex, storage.Length) == readIndex;
    }

    method Size() returns (r: int)
      requires Valid()
      ensures r == |Queue()|
    {
      SizeCounts(|popped|, |pushed|, storage.Length);
      r := if writeIndex >= readIndex then writeIndex - readIndex else storage.Length - readIndex + writeIndex;
    }

    /** The destructor: whatever is still queued is destroyed, and no slot is left alive. */
    method Destroy()
      requires Valid()
      modifies this, storage
      ensures Valid() && Queue() == []
      ensures forall i | 0 <= i < storage.Length :: storage[i].Dead?
    {
      var done := IsEmpty();
      while !done
        invariant Valid() && (done <==> Queue() == [])
        decreases |Queue()|
      {
        var value := Pop();
        done := IsEmpty();
      }
      NothingAlive(Snapshot());
    }
  }

  /** Every slot belongs to some position of the window. */
  lemma SlotTaken(i: nat, r: nat, c: nat) returns (k: nat)
    requires i < c
    ensures r <= k < r + c && SlotOf(k, c) == i
  {
    var at := SlotOf(r, c);
    k := if i >= at then r + (i - at) else r + (i + c - at);
    SlotFrom(r, k, c);
  }

  lemma NothingAlive<T>(s: Ring<T>)
    requires Quiet(s) && Contents(s) == []
    ensures forall i | 0 <= i < |s.cells| :: s.cells[i].Dead?
  {
    forall i | 0 <= i < |s.cells|
      ensures s.cells[i].Dead?
    {
      var k := SlotTaken(i, |s.popped|, |s.cells|);
      assert CellRight(s, k);
    }
  }
}
