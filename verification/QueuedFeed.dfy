/** The feed handler behind the receiver's queue: loss on the wire, drops on a full ring, and every exit of
    `runQueued`, together. */
module QueuedFeed {
  import opened MarketTypes
  import opened Wire
  import opened Codec
  import opened BinaryFile
  import opened Packing
  import opened FeedHandler
  import opened EndToEnd
  import opened Recovery
  import opened MarketState
  import Reference
  import SpscRing
  import Drain

  /** The two threads of the feed, queueing datagrams by their number, and the handler's state. */
  datatype System = System(feed: Drain.Feed<nat>, handler: Handler)

  type Action = Drain.FeedAction<nat>

  /** One step of the threads; whether a datagram processes cleanly is decided by processing it. */
  ghost function Step(w: Wiring, ds: seq<PrebuiltDatagram>, q: System, a: Action): System
    requires |q.feed.ring.cells| > 0
  {
    var popped := q.feed.ring.popped;
    if a.Process? && q.feed.handler.Processing? && popped != [] && popped[|popped| - 1] < |ds| then
      var r := Deliver(w, q.handler, ds[popped[|popped| - 1]].bytes);
      System(Drain.FeedStep(q.feed, Drain.Process(r.1)), r.0)
    else if a.Process? then q
    else q.(feed := Drain.FeedStep(q.feed, a))
  }

  ghost function Run(w: Wiring, ds: seq<PrebuiltDatagram>, q: System, schedule: seq<Action>): System
    requires |q.feed.ring.cells| > 0
    decreases |schedule|
  {
    if schedule == [] then q else Run(w, ds, Step(w, ds, q, schedule[0]), schedule[1..])
  }

  function Start(capacity: nat): System {
    System(Drain.FeedStart(capacity), Started([]))
  }

  /** The socket delivers only datagrams that were packed. */
  predicate Sent(a: Action, n: nat) {
    a.Receive? && a.datagram.Some? ==> a.datagram.value < n
  }

  ghost predicate AllSent(schedule: seq<Action>, n: nat) {
    forall i | 0 <= i < |schedule| :: Sent(schedule[i], n)
  }

  /** Processing these datagrams one after another; None if one of them is refused. */
  ghost function Handled(w: Wiring, ds: seq<PrebuiltDatagram>, ks: seq<nat>): Option<Handler>
    requires forall i | 0 <= i < |ks| :: ks[i] < |ds|
  {
    if ks == [] then Some(Started([]))
    else
      match Handled(w, ds, ks[..|ks| - 1])
      case None => None
      case Some(h) => var r := Deliver(w, h, ds[ks[|ks| - 1]].bytes); if r.1 then Some(r.0) else None
  }

  /** Processing these datagrams leaves `h`; if it failed, then at the last of them. */
  ghost predicate HandledAs(w: Wiring, ds: seq<PrebuiltDatagram>, ks: seq<nat>, h: Handler, failed: bool)
    requires forall i | 0 <= i < |ks| :: ks[i] < |ds|
  {
    if failed then
      && ks != []
      && var before := Handled(w, ds, ks[..|ks| - 1]);
         before.Some? && Deliver(w, before.value, ds[ks[|ks| - 1]].bytes) == (h, false)
    else Handled(w, ds, ks) == Some(h)
  }

  /** `runQueued` left at a datagram that could not be processed. */
  predicate Refused(s: Drain.Feed<nat>) {
    s.handler == Drain.Left(Drain.BadDatagram)
  }

  /** The datagrams the handler was given, in order, a refused one included. */
  function Delivered(s: Drain.Feed<nat>): seq<nat> {
    var n := s.processed + if Refused(s) then 1 else 0;
    if n <= |s.ring.pushed| then s.ring.pushed[..n] else []
  }

  // ----- The invariant -----

  /** Everything in the ring, or on its way into it, is a packed datagram. */
  ghost predicate Numbered(s: SpscRing.Ring<nat>, n: nat) {
    && (forall i | 0 <= i < |s.pushed| :: s.pushed[i] < n)
    && (!s.producer.Ready? ==> s.producer.value < n)
  }

  ghost predicate SystemInv(w: Wiring, ds: seq<PrebuiltDatagram>, q: System) {
    var s := q.feed;
    && Drain.FeedInv(s)
    && Numbered(s.ring, |ds|)
    && HandledAs(w, ds, Delivered(s), q.handler, Refused(s))
  }

  lemma RingStaysNumbered(s: SpscRing.Ring<nat>, a: SpscRing.Action<nat>, n: nat)
    requires |s.cells| > 0 && Numbered(s, n) && (a.StartPush? ==> a.value < n)
    ensures Numbered(SpscRing.Step(s, a), n)
    ensures s.pushed <= SpscRing.Step(s, a).pushed
  {
  }

  lemma ReceiverStaysNumbered(s: Drain.Feed<nat>, n: nat)
    requires |s.ring.cells| > 0 && Numbered(s.ring, n)
    ensures var s' := Drain.ReceiverStepOf(s);
            && Numbered(s'.ring, n) && s.ring.pushed <= s'.ring.pushed
            && s'.processed == s.processed && s'.handler == s.handler
  {
    RingStaysNumbered(s.ring, SpscRing.ProducerStep, n);
  }

  lemma HandlerStaysNumbered(s: Drain.Feed<nat>, n: nat)
    requires |s.ring.cells| > 0 && Numbered(s.ring, n)
    ensures var s' := Drain.HandlerStepOf(s);
            && Numbered(s'.ring, n) && s.ring.pushed <= s'.ring.pushed && s'.processed == s.processed
            && (s.handler.Left? ==> s'.handler == s.handler)
            && (!s.handler.Left? ==> s'.handler != Drain.Left(Drain.BadDatagram))
  {
    if s.handler.AtPop? {
      RingStaysNumbered(s.ring, SpscRing.StartPop, n);
    } else if s.handler.InPop? {
      RingStaysNumbered(s.ring, SpscRing.ConsumerStep, n);
    }
  }

  /** A step that neither takes a datagram from the socket nor processes one. */
  lemma FeedStaysNumbered(s: Drain.Feed<nat>, a: Action, n: nat)
    requires |s.ring.cells| > 0 && Numbered(s.ring, n) && Sent(a, n)
    ensures var s' := Drain.FeedStep(s, a);
            && Numbered(s'.ring, n) && s.ring.pushed <= s'.ring.pushed
            && (!a.Process? ==> s'.processed == s.processed)
            && (s.handler.Left? ==> s'.handler == s.handler)
            && (!a.Process? && !s.handler.Left? ==> s'.handler != Drain.Left(Drain.BadDatagram))
  {
    match a
    case Receive(d) => if d.Some? { RingStaysNumbered(s.ring, SpscRing.StartPush(d.value), n); }
    case ReceiverStep => ReceiverStaysNumbered(s, n);
    case StopReceiver =>
    case Process(_) =>
    case HandlerStep => HandlerStaysNumbered(s, n);
    case StopHandler =>
  }

  /** What was given to the handler lies in what was popped; at an exit, it is that. */
  lemma DeliveredPopped(s: Drain.Feed<nat>)
    requires Drain.FeedInv(s)
    ensures |Delivered(s)| == s.processed + (if Refused(s) then 1 else 0) && Delivered(s) <= s.ring.popped
    ensures s.handler.Left? ==> Delivered(s) == s.ring.popped
  {
  }

  /** One more datagram, processed or refused. */
  lemma HandledOneMore(w: Wiring, ds: seq<PrebuiltDatagram>, ks: seq<nat>, k: nat, h: Handler)
    requires k < |ks| && (forall i | 0 <= i < |ks| :: ks[i] < |ds|) && Handled(w, ds, ks[..k]) == Some(h)
    ensures var r := Deliver(w, h, ds[ks[k]].bytes); HandledAs(w, ds, ks[..k + 1], r.0, !r.1)
  {
    assert ks[..k + 1][..k] == ks[..k];
  }

  /** The datagram in hand is the next one the handler is given. */
  lemma InHandIsNext(s: Drain.Feed<nat>)
    requires Drain.FeedInv(s) && s.handler.Processing?
    ensures |s.ring.popped| == s.processed + 1 <= |s.ring.pushed|
    ensures s.ring.popped[s.processed] == s.ring.pushed[s.processed]
    ensures Delivered(s) == s.ring.pushed[..s.processed]
    ensures forall ok :: Delivered(Drain.FeedStep(s, Drain.Process(ok))) == s.ring.pushed[..s.processed + 1]
  {
  }

  lemma ProcessKeepsInv(w: Wiring, ds: seq<PrebuiltDatagram>, q: System, a: Action)
    requires SystemInv(w, ds, q) && a.Process?
    ensures SystemInv(w, ds, Step(w, ds, q, a))
  {
    var s := q.feed;
    if s.handler.Processing? {
      var pushed, k := s.ring.pushed, s.processed;
      InHandIsNext(s);
      HandledOneMore(w, ds, pushed, k, q.handler);
      var r := Deliver(w, q.handler, ds[pushed[k]].bytes);
      Drain.FeedStepKeepsInv(s, Drain.Process(r.1));
      assert Step(w, ds, q, a) == System(Drain.FeedStep(s, Drain.Process(r.1)), r.0);
    }
  }

  lemma StepKeepsInv(w: Wiring, ds: seq<PrebuiltDatagram>, q: System, a: Action)
    requires SystemInv(w, ds, q) && Sent(a, |ds|)
    ensures SystemInv(w, ds, Step(w, ds, q, a))
  {
    if a.Process? {
      ProcessKeepsInv(w, ds, q, a);
    } else {
      var s, s' := q.feed, Drain.FeedStep(q.feed, a);
      Drain.FeedStepKeepsInv(s, a);
      FeedStaysNumbered(s, a, |ds|);
      DeliveredPopped(s);
      assert Delivered(s') == Delivered(s);
    }
  }

  lemma {:induction false} RunKeepsInv(w: Wiring, ds: seq<PrebuiltDatagram>, q: System, schedule: seq<Action>)
    requires SystemInv(w, ds, q) && AllSent(schedule, |ds|)
    ensures SystemInv(w, ds, Run(w, ds, q, schedule))
    decreases |schedule|
  {
    if schedule == [] {
    } else {
      assert Sent(schedule[0], |ds|);
      StepKeepsInv(w, ds, q, schedule[0]);
      RunKeepsInv(w, ds, Step(w, ds, q, schedule[0]), schedule[1..]);
    }
  }

  // ----- What was handled, as a run of the handler -----

  /** Every one of these arrives. */
  function Arrived(ks: seq<nat>): seq<Option<nat>> {
    seq(|ks|, i requires 0 <= i < |ks| => Some(ks[i]))
  }

  /** One more delivery at the end of a run that accepted everything. */
  lemma {:induction false} RunSnoc(w: Wiring, h: Handler, deliveries: seq<Option<Bytes>>, d: Bytes)
    requires RunOver(w, h, deliveries, |deliveries|).accepted == |deliveries|
    requires forall i | 0 <= i < |deliveries| :: deliveries[i].Some?
    ensures var e := RunOver(w, h, deliveries, |deliveries|);
            var r := Deliver(w, e.handler, d);
            (RunOver(w, h, deliveries + [Some(d)], |deliveries| + 1) ==
             if e.failed then e
             else if r.1 then Ending(r.0, |deliveries| + 1, false) else Ending(r.0, |deliveries|, true))
    decreases |deliveries|
  {
    var all := deliveries + [Some(d)];
    if deliveries == [] {
      assert all[1..] == [];
    } else {
      var r := Deliver(w, h, deliveries[0].value);
      assert all[0] == deliveries[0] && all[1..] == deliveries[1..] + [Some(d)];
      RunSnoc(w, r.0, deliveries[1..], d);
    }
  }

  lemma DeliveriesSnoc(ds: seq<PrebuiltDatagram>, ks: seq<nat>)
    requires ks != [] && forall i | 0 <= i < |ks| :: ks[i] < |ds|
    ensures var n := |ks| - 1;
            && Arriving(|ds|, Arrived(ks)) && Arriving(|ds|, Arrived(ks[..n]))
            && Deliveries(ds, Arrived(ks)) == Deliveries(ds, Arrived(ks[..n])) + [Some(ds[ks[n]].bytes)]
            && forall i | 0 <= i < n :: Deliveries(ds, Arrived(ks[..n]))[i].Some?
  {
  }

  /** What was handled without a refusal is a run that accepted all of it. */
  lemma {:induction false} HandledIsRun(w: Wiring, ds: seq<PrebuiltDatagram>, ks: seq<nat>)
    requires forall i | 0 <= i < |ks| :: ks[i] < |ds|
    requires Handled(w, ds, ks).Some?
    ensures Arriving(|ds|, Arrived(ks))
    ensures RunOver(w, Started([]), Deliveries(ds, Arrived(ks)), |ks|) == Ending(Handled(w, ds, ks).value, |ks|, false)
  {
    if ks == [] {
    } else {
      var init, last := ks[..|ks| - 1], ks[|ks| - 1];
      HandledIsRun(w, ds, init);
      RunSnoc(w, Started([]), Deliveries(ds, Arrived(init)), ds[last].bytes);
      DeliveriesSnoc(ds, ks);
    }
  }

  /** Up to the datagram that was refused, if one was. */
  lemma DeliveredIsRun(w: Wiring, ds: seq<PrebuiltDatagram>, ks: seq<nat>, h: Handler, failed: bool)
    requires (forall i | 0 <= i < |ks| :: ks[i] < |ds|) && HandledAs(w, ds, ks, h, failed)
    ensures Arriving(|ds|, Arrived(ks))
    ensures var e := RunOver(w, Started([]), Deliveries(ds, Arrived(ks)), |ks|); e.handler == h && e.failed == failed
  {
    if failed {
      var init, last := ks[..|ks| - 1], ks[|ks| - 1];
      HandledIsRun(w, ds, init);
      RunSnoc(w, Started([]), Deliveries(ds, Arrived(init)), ds[last].bytes);
      DeliveriesSnoc(ds, ks);
    } else {
      HandledIsRun(w, ds, ks);
    }
  }

  lemma {:induction false} ReachIncludes(starts: seq<nat>, arrivals: seq<Option<nat>>, to: nat, limit: nat, j: nat)
    requires |starts| > 0 && Arriving(|starts| - 1, arrivals) && j < |arrivals| <= limit && arrivals[j].Some?
    ensures starts[arrivals[j].value + 1] <= Reach(starts, arrivals, to, limit)
    decreases j
  {
    var to' := if arrivals[0].Some? then Max(to, starts[arrivals[0].value + 1]) else to;
    if j == 0 {
    } else {
      ReachIncludes(starts, arrivals[1..], to', if arrivals[0].Some? then limit - 1 else limit, j - 1);
    }
  }

  // ----- The results -----

  /** Datagram `k` ends at or before `to`. */
  ghost predicate EndsWithin(starts: seq<nat>, k: nat, to: nat) {
    k + 1 < |starts| && starts[k + 1] <= to
  }

  /** Where the first of these datagrams begins. */
  function First(starts: seq<nat>, ks: seq<nat>): nat {
    if ks != [] && ks[0] < |starts| then starts[ks[0]] else 0
  }

  /** Where the furthest of them ends. */
  ghost function Furthest(starts: seq<nat>, ks: seq<nat>): nat {
    if |starts| > 0 && Arriving(|starts| - 1, Arrived(ks)) then Reach(starts, Arrived(ks), 0, |ks|) else 0
  }

  lemma ReachesOne(starts: seq<nat>, ks: seq<nat>, j: nat)
    requires |starts| > 0 && Arriving(|starts| - 1, Arrived(ks)) && j < |ks|
    ensures EndsWithin(starts, ks[j], Furthest(starts, ks))
  {
    assert Arrived(ks)[j] == Some(ks[j]);
    ReachIncludes(starts, Arrived(ks), 0, |ks|, j);
  }

  /** What the handler is left with after these datagrams: the file's records from where the first begins to
      where the furthest ends, or if it failed, those before one in between that cannot be decoded. */
  ghost predicate Slice(w: Wiring, ms: seq<Bytes>, starts: seq<nat>, ks: seq<nat>, h: Handler, failed: bool) {
    if ks == [] then h == Started([]) && !failed
    else
      && First(starts, ks) < Furthest(starts, ks) <= |ms|
      && Ends(w, ms, (h, !failed), First(starts, ks), Furthest(starts, ks))
  }

  lemma HandledIsSlice(w: Wiring, file: Bytes, requested: nat, session: Session, ds: seq<PrebuiltDatagram>,
                       ks: seq<nat>, h: Handler, failed: bool)
    requires Packed(file, requested, session, ds) && RecoversFrom(w, file)
    requires (forall i | 0 <= i < |ks| :: ks[i] < |ds|) && HandledAs(w, ds, ks, h, failed)
    ensures var ms := RecordsRead(file, requested); Slice(w, ms, Starts(ms), ks, h, failed)
  {
    if ks != [] {
      DeliveredIsRun(w, ds, ks, h, failed);
      assert FirstArrival(Arrived(ks)) == Some(ks[0]);
      LossIsInvisible(w, file, requested, session, ds, Arrived(ks), |ks|);
    }
  }

  /** Datagrams lost on the wire, dropped by a full ring, repeated and reordered; stop requests at any time.
      At every moment, and so at each of the three exits, exactly the file's records from the first datagram
      the handler was given to the furthest one are applied, or those before the undecodable one it failed
      at; at an exit it was given everything popped. */
  lemma QueuedFeedIsSlice(w: Wiring, file: Bytes, requested: nat, session: Session, ds: seq<PrebuiltDatagram>,
                          capacity: nat, schedule: seq<Action>)
    requires Packed(file, requested, session, ds) && RecoversFrom(w, file)
    requires capacity > 0 && AllSent(schedule, |ds|)
    ensures var q := Run(w, ds, Start(capacity), schedule);
            var s, ms := q.feed, RecordsRead(file, requested);
            && Slice(w, ms, Starts(ms), Delivered(s), q.handler, Refused(s))
            && (s.handler.Left? ==> Delivered(s) == s.ring.popped <= s.ring.pushed)
  {
    var q := Run(w, ds, Start(capacity), schedule);
    SpscRing.InitialInv<nat>(capacity);
    RunKeepsInv(w, ds, Start(capacity), schedule);
    DeliveredPopped(q.feed);
    HandledIsSlice(w, file, requested, session, ds, Delivered(q.feed), q.handler, Refused(q.feed));
  }

  /** It leaves for a stop request only if there was one, and drained only if the receiver was stopped. */
  lemma LeavesOnlyIfStopped(w: Wiring, ds: seq<PrebuiltDatagram>, capacity: nat, schedule: seq<Action>)
    requires capacity > 0 && AllSent(schedule, |ds|)
    ensures var s := Run(w, ds, Start(capacity), schedule).feed;
            && (s.handler == Drain.Left(Drain.StopRequest) ==> Drain.StopHandler in schedule)
            && (s.handler == Drain.Left(Drain.Drained) ==> Drain.StopReceiver in schedule)
  {
    SpscRing.InitialInv<nat>(capacity);
    RunKeepsInv(w, ds, Start(capacity), schedule);
    FlagsFall(w, ds, Start(capacity), schedule);
  }

  lemma {:induction false} FlagsFall(w: Wiring, ds: seq<PrebuiltDatagram>, q: System, schedule: seq<Action>)
    requires |q.feed.ring.cells| > 0
    ensures var s, s' := q.feed, Run(w, ds, q, schedule).feed;
            && (s'.handlerRunning <==> s.handlerRunning && Drain.StopHandler !in schedule)
            && (s'.receiverRunning <==> s.receiverRunning && Drain.StopReceiver !in schedule)
    decreases |schedule|
  {
    if schedule == [] {
    } else {
      assert schedule == [schedule[0]] + schedule[1..];
      OneFlag(w, ds, q, schedule[0]);
      FlagsFall(w, ds, Step(w, ds, q, schedule[0]), schedule[1..]);
    }
  }

  lemma OneFlag(w: Wiring, ds: seq<PrebuiltDatagram>, q: System, a: Action)
    requires |q.feed.ring.cells| > 0
    ensures var s, s' := q.feed, Step(w, ds, q, a).feed;
            && |s'.ring.cells| > 0
            && (s'.handlerRunning <==> s.handlerRunning && a != Drain.StopHandler)
            && (s'.receiverRunning <==> s.receiverRunning && a != Drain.StopReceiver)
  {
  }

  /** When `runQueued` leaves because the receiver had stopped and the queue was empty, what is applied ends
      no earlier than any datagram that was queued before the receiver's flag fell. */
  lemma DrainedFeedLosesNothing(w: Wiring, file: Bytes, requested: nat, session: Session, ds: seq<PrebuiltDatagram>,
                                capacity: nat, schedule: seq<Action>)
    requires Packed(file, requested, session, ds) && RecoversFrom(w, file)
    requires capacity > 0 && AllSent(schedule, |ds|)
    ensures var q := Run(w, ds, Start(capacity), schedule);
            var s, ms := q.feed, RecordsRead(file, requested);
            s.handler == Drain.Left(Drain.Drained) ==>
              && Slice(w, ms, Starts(ms), s.ring.popped, q.handler, false)
              && s.ring.popped <= s.ring.pushed && s.fellAt.Some? && s.fellAt.value <= |s.ring.popped|
              && forall j | 0 <= j < s.fellAt.value ::
                   EndsWithin(Starts(ms), s.ring.pushed[j], Furthest(Starts(ms), s.ring.popped))
  {
    var s, starts := Run(w, ds, Start(capacity), schedule).feed, Starts(RecordsRead(file, requested));
    QueuedFeedIsSlice(w, file, requested, session, ds, capacity, schedule);
    DrainedExit(w, ds, capacity, schedule);
    if s.handler == Drain.Left(Drain.Drained) {
      EarlierReached(starts, s.ring.popped, s.ring.pushed, s.fellAt.value);
    }
  }

  lemma DrainedExit(w: Wiring, ds: seq<PrebuiltDatagram>, capacity: nat, schedule: seq<Action>)
    requires capacity > 0 && AllSent(schedule, |ds|)
    ensures var s := Run(w, ds, Start(capacity), schedule).feed;
            && (forall i | 0 <= i < |s.ring.popped| :: s.ring.popped[i] < |ds|)
            && (s.handler == Drain.Left(Drain.Drained) ==>
                  s.ring.popped <= s.ring.pushed && s.fellAt.Some? && s.fellAt.value <= |s.ring.popped|)
  {
    SpscRing.InitialInv<nat>(capacity);
    RunKeepsInv(w, ds, Start(capacity), schedule);
    DeliveredPopped(Run(w, ds, Start(capacity), schedule).feed);
  }

  lemma EarlierReached(starts: seq<nat>, popped: seq<nat>, pushed: seq<nat>, n: nat)
    requires |starts| > 0 && Arriving(|starts| - 1, Arrived(popped)) && popped <= pushed && n <= |popped|
    ensures forall j | 0 <= j < n :: EndsWithin(starts, pushed[j], Furthest(starts, popped))
  {
    forall j | 0 <= j < n
      ensures EndsWithin(starts, pushed[j], Furthest(starts, popped))
    {
      ReachesOne(starts, popped, j);
    }
  }

  // ----- With the market state itself -----

  /** A table with room for the whole slice. */
  ghost predicate RoomForSlice(w: Wiring, ms: seq<Bytes>, starts: seq<nat>, ks: seq<nat>, s: Reference.State,
                               capacity: nat)
  {
    Reference.RunHasRoom(s, DecodedSlice(w, ms, First(starts, ks), Furthest(starts, ks)), capacity)
  }

  /** The market state was fed the slice, or what came before an undecodable record, and nothing else. */
  ghost predicate SliceFed(w: Wiring, ms: seq<Bytes>, starts: seq<nat>, ks: seq<nat>, failed: bool,
                           before: Reference.State, after: Reference.State)
  {
    if ks == [] then after == before
    else exists end :: Fed(w, ms, failed, First(starts, ks), Furthest(starts, ks), before, after, end)
  }

  lemma SliceFeeds(w: Wiring, ms: seq<Bytes>, starts: seq<nat>, ks: seq<nat>, h: Handler, failed: bool,
                   s: Reference.State, capacity: nat)
    requires Slice(w, ms, starts, ks, h, failed) && RoomForSlice(w, ms, starts, ks, s, capacity)
    ensures Reference.RunHasRoom(s, MessagesOf(h.applied), capacity)
    ensures SliceFed(w, ms, starts, ks, failed, s, Reference.Run(s, MessagesOf(h.applied)))
  {
    if ks != [] {
      var from, to, e := First(starts, ks), Furthest(starts, ks), Ending(h, 0, failed);
      var end := EndOf(w, ms, e, from, to);
      RoomForApplied(w, ms, e, from, to, end, s, capacity);
      assert Fed(w, ms, failed, from, to, s, Reference.Run(s, MessagesOf(h.applied)), end);
    }
  }

  /** What the queued handler applied, handed on to a market state: it ends valid and as the reference run
      over the file's own records from the first datagram given to the handler to the furthest, or to the
      first record that cannot be decoded. */
  method FeedMarket(ghost source: FileMoldItchRecoverySource, ghost dispatch: Dispatch, ghost requested: nat,
                    ghost session: Session, ghost ds: seq<PrebuiltDatagram>, ghost capacity: nat,
                    ghost schedule: seq<Action>, applied: seq<Applied>, market: ItchMarketState)
    requires source.Valid() && source.indexReady && Describes(source.TheIndex(), source.file, source.checkpointInterval)
    requires Packed(source.file, requested, session, ds) && capacity > 0 && AllSent(schedule, |ds|)
    requires market.Valid() && source as object !in market.Repr
    requires var w, ms := WiredTo(dispatch, source.TheIndex(), source.file), RecordsRead(source.file, requested);
             var q := Run(w, ds, Start(capacity), schedule);
             var ks := Delivered(q.feed);
             && applied == q.handler.applied
             && RoomForSlice(w, ms, Starts(ms), ks, market.Snapshot(), market.orders.slots.Length)
    modifies market.Repr
    ensures market.Valid()
    ensures var w, ms := WiredTo(dispatch, source.TheIndex(), source.file), RecordsRead(source.file, requested);
            var q := Run(w, ds, Start(capacity), schedule);
            var ks := Delivered(q.feed);
            SliceFed(w, ms, Starts(ms), ks, Refused(q.feed), old(market.Snapshot()), market.Snapshot())
  {
    ghost var w, ms := WiredTo(dispatch, source.TheIndex(), source.file), RecordsRead(source.file, requested);
    ghost var q := Run(w, ds, Start(capacity), schedule);
    WiredRecovers(dispatch, source.TheIndex(), source.file, source.checkpointInterval);
    QueuedFeedIsSlice(w, source.file, requested, session, ds, capacity, schedule);
    SliceFeeds(w, ms, Starts(ms), Delivered(q.feed), q.handler, Refused(q.feed), market.Snapshot(),
               market.orders.slots.Length);
    market.OnMessages(MessagesOf(applied));
  }
}
