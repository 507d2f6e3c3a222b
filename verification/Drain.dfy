/** The threads around the ring: the draining consumer of market events, and the datagram receiver
    with the feed handler that empties its queue.  Both are step systems over the ring's own steps. */
module Drain {
  import opened MarketTypes
  import opened SpscRing

  /** What the consumer's side of the ring did in one step of a pop that is under way. */
  datatype PopOutcome = StillPopping | Popped | NothingThere

  function OutcomeOf<T>(s: Ring<T>, s': Ring<T>): PopOutcome {
    if s'.consumer.Waiting? then (if s.consumer.Release? then Popped else NothingThere) else StillPopping
  }

  /** A pop in progress takes the head, or ends with nothing, or goes on; the other side is untouched. */
  lemma PopStep<T>(s: Ring<T>)
    requires Inv(s) && !s.consumer.Waiting?
    ensures var s' := Step(s, ConsumerStep);
            && Inv(s') && s'.pushed == s.pushed && s'.producer == s.producer
            && |s'.popped| == |s.popped| + (if OutcomeOf(s, s').Popped? then 1 else 0)
  {
    StepKeepsInv(s, ConsumerStep);
  }

  lemma PopStarts<T>(s: Ring<T>)
    requires Inv(s) && s.consumer.Waiting?
    ensures var s' := Step(s, StartPop);
            && Inv(s') && s'.pushed == s.pushed && s'.popped == s.popped && s'.producer == s.producer
            && !s'.consumer.Waiting?
  {
    StepKeepsInv(s, StartPop);
  }

  /** A push in progress publishes its value, or is refused, or goes on; the other side is untouched. */
  lemma PushStep<T>(s: Ring<T>)
    requires Inv(s)
    ensures var s' := Step(s, ProducerStep);
            && Inv(s') && s'.popped == s.popped && s'.consumer == s.consumer
            && |s'.pushed| == |s.pushed| + (if s.producer.Publish? then 1 else 0)
            && (s.producer.Publish? ==> s'.producer.Ready?)
  {
    StepKeepsInv(s, ProducerStep);
  }

  lemma PushStarts<T>(s: Ring<T>, v: T)
    requires Inv(s)
    ensures var s' := Step(s, StartPush(v));
            && Inv(s') && s'.pushed == s.pushed && s'.popped == s.popped && s'.consumer == s.consumer
            && !s'.producer.Ready?
  {
    StepKeepsInv(s, StartPush(v));
  }

  /** `empty()` as the popping thread sees it is exact. */
  lemma EmptyTest<T>(s: Ring<T>)
    requires Inv(s)
    ensures s.readIndex == s.writeIndex <==> |s.popped| == |s.pushed|
  {
    SameSlot(|s.popped|, |s.pushed|, |s.cells|);
  }

  // ----- MarketEventConsumer::run -----

  datatype LoopPhase = ReadDone | TestEmpty | Popping | Returned

  /** `doneAt` is, as history, how much had been published when the flag was raised. */
  datatype EventLoop<T> = EventLoop(
    ring: Ring<T>, producerDone: bool, phase: LoopPhase, consumed: nat, doneAt: Option<nat>)

  /** The producer pushes as it likes, and raises the flag between two pushes. */
  datatype LoopAction<T> = Push(value: T) | Produce | Finish | Consume

  function StartPopping<T>(s: EventLoop<T>): EventLoop<T>
    requires |s.ring.cells| > 0
  {
    s.(ring := Step(s.ring, StartPop), phase := Popping)
  }

  function ConsumerLoopStep<T>(s: EventLoop<T>): EventLoop<T>
    requires |s.ring.cells| > 0
  {
    match s.phase
    case ReadDone => if s.producerDone then s.(phase := TestEmpty) else StartPopping(s)
    case TestEmpty => if s.ring.readIndex == s.ring.writeIndex then s.(phase := Returned) else StartPopping(s)
    case Popping =>
      var ring' := Step(s.ring, ConsumerStep);
      (match OutcomeOf(s.ring, ring')
       case StillPopping => s.(ring := ring')
       case Popped => s.(ring := ring', consumed := s.consumed + 1, phase := ReadDone)
       case NothingThere => s.(ring := ring', phase := ReadDone))
    case Returned => s
  }

  function LoopStep<T>(s: EventLoop<T>, a: LoopAction<T>): EventLoop<T>
    requires |s.ring.cells| > 0
  {
    match a
    case Push(v) => s.(ring := Step(s.ring, StartPush(v)))
    case Produce => s.(ring := Step(s.ring, ProducerStep))
    case Finish =>
      if s.ring.producer.Ready? && !s.producerDone
      then s.(producerDone := true, doneAt := Some(|s.ring.pushed|)) else s
    case Consume => ConsumerLoopStep(s)
  }

  ghost predicate LoopInv<T>(s: EventLoop<T>) {
    && Inv(s.ring)
    && s.consumed == |s.ring.popped|
    && (s.producerDone <==> s.doneAt.Some?)
    && (s.doneAt.Some? ==> s.doneAt.value <= |s.ring.pushed|)
    && (s.phase.Popping? <==> !s.ring.consumer.Waiting?)
    && (s.phase.TestEmpty? || s.phase.Returned? ==> s.producerDone)
    && (s.phase.Returned? ==> s.doneAt.value <= s.consumed)
  }

  lemma LoopStepKeepsInv<T>(s: EventLoop<T>, a: LoopAction<T>)
    requires LoopInv(s)
    ensures LoopInv(LoopStep(s, a))
  {
    match a
    case Push(v) => StepKeepsInv(s.ring, StartPush(v));
    case Produce => PushStep(s.ring);
    case Finish =>
    case Consume =>
      if s.phase.Popping? {
        PopStep(s.ring);
      } else {
        EmptyTest(s.ring);
        PopStarts(s.ring);
      }
  }

  function LoopRun<T>(s: EventLoop<T>, schedule: seq<LoopAction<T>>): EventLoop<T>
    requires |s.ring.cells| > 0
    decreases |schedule|
  {
    if schedule == [] then s else LoopRun(LoopStep(s, schedule[0]), schedule[1..])
  }

  lemma {:induction false} LoopRunKeepsInv<T>(s: EventLoop<T>, schedule: seq<LoopAction<T>>)
    requires LoopInv(s)
    ensures LoopInv(LoopRun(s, schedule))
    decreases |schedule|
  {
    if schedule == [] {
    } else {
      LoopStepKeepsInv(s, schedule[0]);
      LoopRunKeepsInv(LoopStep(s, schedule[0]), schedule[1..]);
    }
  }

  function LoopStart<T>(capacity: nat): EventLoop<T> {
    EventLoop(Initial(capacity), false, ReadDone, 0, None)
  }

  /** Under every schedule: once `run` has returned, everything published before the flag was raised
      has been consumed, in order and once; if the producer then kept quiet, that is everything. */
  lemma DrainedOnReturn<T>(capacity: nat, schedule: seq<LoopAction<T>>)
    requires capacity > 0
    ensures var s := LoopRun(LoopStart<T>(capacity), schedule);
            && s.ring.popped <= s.ring.pushed && s.consumed == |s.ring.popped|
            && (s.phase.Returned? ==>
                  && s.producerDone && s.doneAt.Some?
                  && s.doneAt.value <= s.consumed
                  && (s.doneAt.value == |s.ring.pushed| ==> s.ring.popped == s.ring.pushed))
  {
    InitialInv<T>(capacity);
    LoopRunKeepsInv(LoopStart<T>(capacity), schedule);
  }

  /** Once the flag is up and nothing is queued, `run` returns with its next look. */
  lemma ReturnsWhenDone<T>(s: EventLoop<T>)
    requires LoopInv(s) && s.phase.ReadDone? && s.producerDone && |s.ring.popped| == |s.ring.pushed|
    ensures LoopRun(s, [Consume, Consume]).phase.Returned?
  {
    EmptyTest(s.ring);
    var twice: seq<LoopAction<T>> := [Consume, Consume];
    assert twice[1..] == [Consume] && twice[1..][1..] == [];
    assert LoopRun(s, twice) == LoopStep(LoopStep(s, Consume), Consume);
  }

  // ----- MoldUdpReceiver::receiveLoop and MoldItchFeedHandler::runQueued -----

  datatype ReceiverPhase = LoopHead | Receiving | Pushing | Counting(accepted: bool) | Measuring | Ended

  datatype LeftBy = Drained | StopRequest | BadDatagram

  datatype HandlerPhase = AtPop | InPop | Processing | TestReceiver | TestQueue | TestStop | Left(why: LeftBy)

  /** Both threads, their two running flags and the receiver's counters.  `fellAt` is, as history, how
      much had been queued when the receiver's flag fell. */
  datatype Feed<T> = Feed(
    ring: Ring<T>,
    receiver: ReceiverPhase, receiverRunning: bool,
    received: nat, queued: nat, drops: nat, maxOccupancy: int,
    handler: HandlerPhase, handlerRunning: bool, processed: nat,
    fellAt: Option<nat>)

  /** The environment decides what the socket delivers, when either thread is told to stop, and whether
      a datagram processes cleanly. */
  datatype FeedAction<T> =
    | Receive(datagram: Option<T>)
    | ReceiverStep
    | StopReceiver
    | Process(accepted: bool)
    | HandlerStep
    | StopHandler

  function AfterPush<T>(s: Feed<T>, ring': Ring<T>): Feed<T> {
    s.(ring := ring', receiver := if ring'.producer.Ready? then Counting(s.ring.producer.Publish?) else Pushing)
  }

  function AfterPop<T>(s: Feed<T>, ring': Ring<T>): Feed<T> {
    match OutcomeOf(s.ring, ring')
    case StillPopping => s.(ring := ring')
    case Popped => s.(ring := ring', handler := Processing)
    case NothingThere => s.(ring := ring', handler := TestReceiver)
  }

  function ReceiverStepOf<T>(s: Feed<T>): Feed<T>
    requires |s.ring.cells| > 0
  {
    match s.receiver
    case LoopHead => s.(receiver := if s.receiverRunning then Receiving else Ended)
    case Receiving => s
    case Pushing => AfterPush(s, Step(s.ring, ProducerStep))
    case Counting(accepted) =>
      if accepted then s.(queued := s.queued + 1, receiver := Measuring)
      else s.(drops := s.drops + 1, receiver := LoopHead)
    case Measuring =>
      var occupancy := SizeOf(s.ring.writeIndex, s.ring.readIndex, |s.ring.cells|);
      s.(maxOccupancy := if occupancy > s.maxOccupancy then occupancy else s.maxOccupancy, receiver := LoopHead)
    case Ended => s
  }

  function HandlerStepOf<T>(s: Feed<T>): Feed<T>
    requires |s.ring.cells| > 0
  {
    match s.handler
    case AtPop => s.(ring := Step(s.ring, StartPop), handler := InPop)
    case InPop => AfterPop(s, Step(s.ring, ConsumerStep))
    case Processing => s
    case TestReceiver => s.(handler := if s.receiverRunning then TestStop else TestQueue)
    case TestQueue => s.(handler := if s.ring.readIndex == s.ring.writeIndex then Left(Drained) else AtPop)
    case TestStop => s.(handler := if s.handlerRunning then AtPop else Left(StopRequest))
    case Left(_) => s
  }

  function FeedStep<T>(s: Feed<T>, a: FeedAction<T>): Feed<T>
    requires |s.ring.cells| > 0
  {
    match a
    case Receive(d) =>
      if !s.receiver.Receiving? then s
      else if d.None? then s.(receiver := LoopHead)
      else s.(received := s.received + 1, ring := Step(s.ring, StartPush(d.value)), receiver := Pushing)
    case ReceiverStep => ReceiverStepOf(s)
    case StopReceiver =>
      if s.receiverRunning then s.(receiverRunning := false, fellAt := Some(|s.ring.pushed|)) else s
    case Process(accepted) =>
      if !s.handler.Processing? then s
      else if accepted then s.(processed := s.processed + 1, handler := AtPop)
      else s.(handler := Left(BadDatagram))
    case HandlerStep => HandlerStepOf(s)
    case StopHandler => s.(handlerRunning := false)
  }

  /** A datagram the receiver has taken, or may still take, past the check of its flag. */
  function InFlight<T>(s: Feed<T>): nat {
    if s.receiver.Receiving? || s.receiver.Pushing? then 1 else 0
  }

  /** Popped but not counted as processed. */
  function InHand<T>(s: Feed<T>): nat {
    if s.handler.Processing? || s.handler == Left(BadDatagram) then 1 else 0
  }

  /** The receiver's counters against what it received and published. */
  ghost predicate CountersRight<T>(s: Feed<T>) {
    && s.received == s.queued + s.drops + (if s.receiver.Pushing? || s.receiver.Counting? then 1 else 0)
    && |s.ring.pushed| == s.queued + (if s.receiver == Counting(true) then 1 else 0)
    && 0 <= s.maxOccupancy < |s.ring.cells|
  }

  /** The phases and flags of both threads against the two positions of the ring. */
  ghost predicate PhasesRight<T>(s: Feed<T>) {
    && (s.receiver.Pushing? <==> !s.ring.producer.Ready?)
    && (s.handler.InPop? <==> !s.ring.consumer.Waiting?)
    && |s.ring.popped| == s.processed + InHand(s)
    && (s.receiverRunning <==> s.fellAt.None?)
    && (s.fellAt.Some? ==> s.fellAt.value <= |s.ring.pushed| && |s.ring.pushed| + InFlight(s) <= s.fellAt.value + 1)
    && (s.handler.TestQueue? || s.handler == Left(Drained) ==> s.fellAt.Some?)
    && (s.handler == Left(Drained) ==> s.fellAt.value <= s.processed)
    && (s.handler == Left(StopRequest) ==> !s.handlerRunning)
    && (s.receiver.Ended? ==> !s.receiverRunning)
  }

  ghost predicate FeedInv<T>(s: Feed<T>) {
    Inv(s.ring) && CountersRight(s) && PhasesRight(s)
  }

  lemma AfterPushRight<T>(s: Feed<T>, ring': Ring<T>)
    requires CountersRight(s) && PhasesRight(s) && s.receiver.Pushing?
    requires |ring'.cells| == |s.ring.cells| && ring'.popped == s.ring.popped && ring'.consumer == s.ring.consumer
    requires |ring'.pushed| == |s.ring.pushed| + (if s.ring.producer.Publish? then 1 else 0)
    requires s.ring.producer.Publish? ==> ring'.producer.Ready?
    ensures CountersRight(AfterPush(s, ring')) && PhasesRight(AfterPush(s, ring'))
  {
  }

  lemma MeasuredRight<T>(s: Feed<T>)
    requires FeedInv(s) && s.receiver.Measuring?
    ensures FeedInv(ReceiverStepOf(s))
  {
    SizeCounts(|s.ring.popped|, |s.ring.pushed|, |s.ring.cells|);
  }

  lemma ReceiverKeepsInv<T>(s: Feed<T>)
    requires FeedInv(s)
    ensures FeedInv(ReceiverStepOf(s))
  {
    match s.receiver
    case Pushing =>
      PushStep(s.ring);
      AfterPushRight(s, Step(s.ring, ProducerStep));
    case Measuring => MeasuredRight(s);
    case LoopHead =>
    case Receiving =>
    case Counting(accepted) =>
    case Ended =>
  }

  lemma AfterPopRight<T>(s: Feed<T>, ring': Ring<T>)
    requires CountersRight(s) && PhasesRight(s) && s.handler.InPop?
    requires |ring'.cells| == |s.ring.cells| && ring'.pushed == s.ring.pushed && ring'.producer == s.ring.producer
    requires |ring'.popped| == |s.ring.popped| + (if OutcomeOf(s.ring, ring').Popped? then 1 else 0)
    ensures CountersRight(AfterPop(s, ring')) && PhasesRight(AfterPop(s, ring'))
  {
  }

  lemma PopStartsRight<T>(s: Feed<T>, ring': Ring<T>)
    requires CountersRight(s) && PhasesRight(s) && s.handler.AtPop?
    requires |ring'.cells| == |s.ring.cells| && ring'.pushed == s.ring.pushed && ring'.producer == s.ring.producer
    requires ring'.popped == s.ring.popped && !ring'.consumer.Waiting?
    ensures var s' := s.(ring := ring', handler := InPop); CountersRight(s') && PhasesRight(s')
  {
  }

  /** The steps between two pops look at flags and positions and change no queue. */
  lemma TestsRight<T>(s: Feed<T>)
    requires CountersRight(s) && PhasesRight(s) && |s.ring.cells| > 0 && !s.handler.AtPop? && !s.handler.InPop?
    requires s.ring.readIndex == s.ring.writeIndex <==> |s.ring.popped| == |s.ring.pushed|
    ensures HandlerStepOf(s).ring == s.ring && CountersRight(HandlerStepOf(s)) && PhasesRight(HandlerStepOf(s))
  {
  }

  lemma HandlerPopsKeepInv<T>(s: Feed<T>)
    requires FeedInv(s) && (s.handler.AtPop? || s.handler.InPop?)
    ensures FeedInv(HandlerStepOf(s))
  {
    if s.handler.AtPop? {
      PopStarts(s.ring);
      PopStartsRight(s, Step(s.ring, StartPop));
    } else {
      PopStep(s.ring);
      AfterPopRight(s, Step(s.ring, ConsumerStep));
    }
  }

  lemma HandlerKeepsInv<T>(s: Feed<T>)
    requires FeedInv(s)
    ensures FeedInv(HandlerStepOf(s))
  {
    if s.handler.AtPop? || s.handler.InPop? {
      HandlerPopsKeepInv(s);
    } else {
      EmptyTest(s.ring);
      TestsRight(s);
    }
  }

  lemma FeedStepKeepsInv<T>(s: Feed<T>, a: FeedAction<T>)
    requires FeedInv(s)
    ensures FeedInv(FeedStep(s, a))
  {
    match a
    case Receive(d) => ReceiveKeepsInv(s, d);
    case ReceiverStep => ReceiverKeepsInv(s);
    case StopReceiver => OutsideKeepsInv(s, a);
    case Process(accepted) => OutsideKeepsInv(s, a);
    case HandlerStep => HandlerKeepsInv(s);
    case StopHandler => OutsideKeepsInv(s, a);
  }

  /** Stop requests and the outcome of processing a datagram do not touch the ring. */
  lemma OutsideKeepsInv<T>(s: Feed<T>, a: FeedAction<T>)
    requires FeedInv(s) && (a.StopReceiver? || a.StopHandler? || a.Process?)
    ensures FeedInv(FeedStep(s, a))
  {
    OutsideKeepsRight(s, a);
  }

  lemma OutsideKeepsRight<T>(s: Feed<T>, a: FeedAction<T>)
    requires CountersRight(s) && PhasesRight(s) && |s.ring.cells| > 0
    requires a.StopReceiver? || a.StopHandler? || a.Process?
    ensures var s' := FeedStep(s, a); s'.ring == s.ring && CountersRight(s') && PhasesRight(s')
  {
  }

  lemma ReceiveKeepsInv<T>(s: Feed<T>, d: Option<T>)
    requires FeedInv(s)
    ensures FeedInv(FeedStep(s, Receive(d)))
  {
    if d.Some? {
      PushStarts(s.ring, d.value);
    }
  }

  function FeedRun<T>(s: Feed<T>, schedule: seq<FeedAction<T>>): Feed<T>
    requires |s.ring.cells| > 0
    decreases |schedule|
  {
    if schedule == [] then s else FeedRun(FeedStep(s, schedule[0]), schedule[1..])
  }

  lemma {:induction false} FeedRunKeepsInv<T>(s: Feed<T>, schedule: seq<FeedAction<T>>)
    requires FeedInv(s)
    ensures FeedInv(FeedRun(s, schedule))
    decreases |schedule|
  {
    if schedule == [] {
    } else {
      FeedStepKeepsInv(s, schedule[0]);
      FeedRunKeepsInv(FeedStep(s, schedule[0]), schedule[1..]);
    }
  }

  /** Both loops just started: `start` has raised the flag and zeroed the counters. */
  function FeedStart<T>(capacity: nat): Feed<T> {
    Feed(Initial(capacity), LoopHead, true, 0, 0, 0, 0, AtPop, true, 0, None)
  }

  lemma FeedStaysRight<T>(capacity: nat, schedule: seq<FeedAction<T>>)
    requires capacity > 0
    ensures FeedInv(FeedRun(FeedStart<T>(capacity), schedule))
  {
    InitialInv<T>(capacity);
    FeedRunKeepsInv(FeedStart<T>(capacity), schedule);
  }

  /** At every head of the receive loop each datagram received was queued or counted as dropped, and the
      queue never held more than Capacity - 1 of them. */
  lemma EveryDatagramCounted<T>(capacity: nat, schedule: seq<FeedAction<T>>)
    requires capacity > 0
    ensures var s := FeedRun(FeedStart<T>(capacity), schedule);
            s.receiver.LoopHead? || s.receiver.Ended? ==>
              && s.received == s.queued + s.drops
              && s.queued == |s.ring.pushed|
              && s.maxOccupancy <= capacity - 1
  {
    FeedStaysRight(capacity, schedule);
    FeedKeepsCapacity(FeedStart<T>(capacity), schedule);
  }

  lemma {:induction false} FeedKeepsCapacity<T>(s: Feed<T>, schedule: seq<FeedAction<T>>)
    requires |s.ring.cells| > 0
    ensures |FeedRun(s, schedule).ring.cells| == |s.ring.cells|
    decreases |schedule|
  {
    if schedule == [] {
    } else {
      FeedKeepsCapacity(FeedStep(s, schedule[0]), schedule[1..]);
    }
  }

  /** `runQueued` leaves for a stop request only if there was one, and the receive loop ends only if the
      receiver was stopped. */
  lemma LeavesOnlyIfStopped<T>(capacity: nat, schedule: seq<FeedAction<T>>)
    requires capacity > 0
    ensures var s := FeedRun(FeedStart<T>(capacity), schedule);
            && (s.handler == Left(StopRequest) ==> StopHandler in schedule)
            && (s.receiver.Ended? || s.handler == Left(Drained) ==> StopReceiver in schedule)
  {
    FeedStaysRight(capacity, schedule);
    FlagsFall(FeedStart<T>(capacity), schedule);
  }

  /** Either flag falls exactly when its stop is requested. */
  lemma {:induction false} FlagsFall<T>(s: Feed<T>, schedule: seq<FeedAction<T>>)
    requires |s.ring.cells| > 0
    ensures FeedRun(s, schedule).handlerRunning <==> s.handlerRunning && StopHandler !in schedule
    ensures FeedRun(s, schedule).receiverRunning <==> s.receiverRunning && StopReceiver !in schedule
    decreases |schedule|
  {
    if schedule == [] {
    } else {
      var a, rest := schedule[0], schedule[1..];
      assert schedule == [a] + rest;
      FlagsFall(FeedStep(s, a), rest);
    }
  }

  /** The handler steps `n` times with nothing in between. */
  function HandlerSteps<T>(n: nat): seq<FeedAction<T>> {
    if n == 0 then [] else [HandlerStep] + HandlerSteps(n - 1)
  }

  lemma OneHandlerStep<T>(s: Feed<T>, n: nat)
    requires |s.ring.cells| > 0
    ensures FeedRun(s, HandlerSteps(n)) == if n == 0 then s else FeedRun(FeedStep(s, HandlerStep), HandlerSteps(n - 1))
  {
    if n > 0 {
      assert HandlerSteps<T>(n)[1..] == HandlerSteps<T>(n - 1);
    }
  }

  // The five steps of a poll that finds nothing, each with the `n` steps behind it.

  lemma PollStarts<T>(s: Feed<T>, n: nat)
    requires |s.ring.cells| > 0 && s.handler.AtPop? && s.ring.consumer.Waiting?
    ensures var s' := s.(ring := s.ring.(consumer := CheckEmpty(s.ring.readIndex)), handler := InPop);
            FeedRun(s, HandlerSteps(n + 1)) == FeedRun(s', HandlerSteps(n))
  {
    OneHandlerStep(s, n + 1);
  }

  lemma PollLooks<T>(s: Feed<T>, n: nat)
    requires |s.ring.cells| > 0 && s.handler.InPop? && s.ring.consumer == CheckEmpty(s.ring.cachedWrite)
    ensures var s' := s.(ring := s.ring.(consumer := RefreshWrite(s.ring.cachedWrite)));
            FeedRun(s, HandlerSteps(n + 1)) == FeedRun(s', HandlerSteps(n))
  {
    OneHandlerStep(s, n + 1);
  }

  lemma PollGivesUp<T>(s: Feed<T>, n: nat)
    requires |s.ring.cells| > 0 && s.handler.InPop? && s.ring.consumer == RefreshWrite(s.ring.writeIndex)
    ensures var ring' := s.ring.(cachedWrite := s.ring.writeIndex, knownWrite := |s.ring.pushed|, consumer := Waiting);
            FeedRun(s, HandlerSteps(n + 1)) == FeedRun(s.(ring := ring', handler := TestReceiver), HandlerSteps(n))
  {
    OneHandlerStep(s, n + 1);
  }

  lemma TestsReceiver<T>(s: Feed<T>, n: nat)
    requires |s.ring.cells| > 0 && s.handler.TestReceiver?
    ensures var s' := s.(handler := if s.receiverRunning then TestStop else TestQueue);
            FeedRun(s, HandlerSteps(n + 1)) == FeedRun(s', HandlerSteps(n))
  {
    OneHandlerStep(s, n + 1);
  }

  lemma LastTest<T>(s: Feed<T>)
    requires |s.ring.cells| > 0 && (s.handler.TestStop? || s.handler.TestQueue?)
    requires s.ring.readIndex == s.ring.writeIndex
    ensures FeedRun(s, HandlerSteps(1)) ==
            s.(handler := if s.handler.TestQueue? then Left(Drained)
                          else if !s.handlerRunning then Left(StopRequest) else AtPop)
  {
    OneHandlerStep(s, 1);
    OneHandlerStep(FeedStep(s, HandlerStep), 0);
  }

  /** An idle poll is a pop that finds nothing, the test of the receiver, and one more test.  With nothing
      queued it leaves drained once the receiver has stopped; else it leaves for a stop request, if there was
      one; else it is back where it began. */
  lemma IdlePollDecides<T>(s: Feed<T>)
    requires FeedInv(s) && s.handler.AtPop? && |s.ring.popped| == |s.ring.pushed|
    ensures var s' := FeedRun(s, HandlerSteps(5));
            && s'.ring.pushed == s.ring.pushed && s'.ring.popped == s.ring.popped
            && s'.handler == (if !s.receiverRunning then Left(Drained)
                              else if !s.handlerRunning then Left(StopRequest) else AtPop)
  {
    NothingKnown(s.ring);
    EmptyPoll(s);
  }

  /** In an empty queue both indices and the cached write index are the same. */
  lemma NothingKnown<T>(s: Ring<T>)
    requires Inv(s) && |s.popped| == |s.pushed|
    ensures s.readIndex == s.writeIndex == s.cachedWrite
  {
  }

  lemma EmptyPoll<T>(s: Feed<T>)
    requires |s.ring.cells| > 0 && s.handler.AtPop? && s.ring.consumer.Waiting?
    requires s.ring.readIndex == s.ring.writeIndex == s.ring.cachedWrite
    ensures var s' := FeedRun(s, HandlerSteps(5));
            && s'.ring.pushed == s.ring.pushed && s'.ring.popped == s.ring.popped
            && s'.handler == (if !s.receiverRunning then Left(Drained)
                              else if !s.handlerRunning then Left(StopRequest) else AtPop)
  {
    var index := s.ring.readIndex;
    PollStarts(s, 4);
    var s1 := s.(ring := s.ring.(consumer := CheckEmpty(index)), handler := InPop);
    PollLooks(s1, 3);
    var s2 := s1.(ring := s1.ring.(consumer := RefreshWrite(index)));
    PollGivesUp(s2, 2);
    var s3 := s2.(ring := s2.ring.(knownWrite := |s.ring.pushed|, consumer := Waiting), handler := TestReceiver);
    TestsReceiver(s3, 1);
    LastTest(s3.(handler := if s.receiverRunning then TestStop else TestQueue));
  }

  /** A push that was refused is counted as a drop and nothing is measured; one that was not is counted as
      queued, and then the occupancy is measured. */
  lemma CountsOutcome<T>(s: Feed<T>)
    requires |s.ring.cells| > 0 && s.receiver.Counting?
    ensures var s' := ReceiverStepOf(s);
            if s.receiver.accepted then s' == s.(queued := s.queued + 1, receiver := Measuring)
            else s' == s.(drops := s.drops + 1, receiver := LoopHead)
  {
  }

  /** The occupancy measured after a push is the number of datagrams in the queue, and the largest is kept. */
  lemma MeasuresContents<T>(s: Feed<T>)
    requires FeedInv(s) && s.receiver.Measuring?
    ensures var n := |s.ring.pushed| - |s.ring.popped|;
            ReceiverStepOf(s).maxOccupancy == if n > s.maxOccupancy then n else s.maxOccupancy
  {
    SizeCounts(|s.ring.popped|, |s.ring.pushed|, |s.ring.cells|);
  }

  /** `runQueued` that left because the receiver had stopped has processed everything queued before the
      flag fell, in order; at most one datagram, then in flight, is or will be left behind. */
  lemma DrainedAfterReceiverStopped<T>(capacity: nat, schedule: seq<FeedAction<T>>)
    requires capacity > 0
    ensures var s := FeedRun(FeedStart<T>(capacity), schedule);
            s.handler == Left(Drained) ==>
              && !s.receiverRunning && s.fellAt.Some?
              && s.ring.popped <= s.ring.pushed
              && s.fellAt.value <= s.processed == |s.ring.popped|
              && |Contents(s.ring)| + InFlight(s) <= 1
  {
    FeedStaysRight(capacity, schedule);
  }

  /** Nothing is lost between the threads: once both have ended, what was received is what was
      processed, dropped on a full queue, left in the queue, or the one datagram that was malformed. */
  lemma DatagramsConserved<T>(capacity: nat, schedule: seq<FeedAction<T>>)
    requires capacity > 0
    ensures var s := FeedRun(FeedStart<T>(capacity), schedule);
            s.receiver.Ended? && s.handler.Left? ==>
              && |s.ring.popped| <= |s.ring.pushed|
              && s.received == s.processed + s.drops + |Contents(s.ring)|
                   + (if s.handler.why.BadDatagram? then 1 else 0)
  {
    FeedStaysRight(capacity, schedule);
  }
}
