/** The MoldUDP64 ITCH feed handler: two-pass datagram processing, sequence checking, gap recovery. */
module FeedHandler {
  import opened MarketTypes
  import opened Wire
  import opened Codec
  import opened SequenceRecovery
  import Reference

  type Message = Reference.Message

  /** The decoder of ITCH payloads: a partial function from bytes to messages. */
  type Dispatch = Bytes -> Option<Message>

  /** A message that reached the market state, under its sequence number. */
  datatype Applied = Applied(sequence: nat, message: Message)

  /** What a handler is built around. */
  datatype Wiring = Wiring(dispatch: Dispatch, source: Source)

  /** The handler's own state, and everything it has handed to the market state. */
  datatype Handler = Handler(
    hasSequence: bool, expected: Sequence,
    processed: nat, recovered: nat, ignored: nat, gaps: nat,
    applied: seq<Applied>)

  /** A handler at the start of its lifecycle; what it applied before stays applied. */
  function Started(applied: seq<Applied>): Handler {
    Handler(false, 0, 0, 0, 0, 0, applied)
  }

  function Next(sequence: Sequence): Sequence {
    (sequence + 1) % TWO_64
  }

  // ----- Specification: one message after another -----

  /** A live message whose turn it is; it fails if it is empty or cannot be decoded. */
  function ProcessLive(w: Wiring, h: Handler, sequence: Sequence, payload: Bytes): (Handler, bool) {
    if payload == [] || w.dispatch(payload).None? then (h, false)
    else (h.(processed := h.processed + 1, applied := h.applied + [Applied(sequence, w.dispatch(payload).value)]), true)
  }

  predicate Usable(w: Wiring, m: SequencedMessage) {
    0 < |m.payload| <= MAX_PAYLOAD_SIZE && w.dispatch(m.payload).Some?
  }

  /** Recovered messages up to the first unusable one. */
  function ApplyRecovered(w: Wiring, h: Handler, ms: seq<SequencedMessage>): (Handler, bool)
    decreases |ms|
  {
    if ms == [] then (h, true)
    else if !Usable(w, ms[0]) then (h, false)
    else
      var a := Applied(ms[0].sequence, w.dispatch(ms[0].payload).value);
      ApplyRecovered(w, h.(recovered := h.recovered + 1, applied := h.applied + [a]), ms[1..])
  }

  /** The messages recovered for a gap, if the source's answer is exactly the missing ones. */
  ghost function Filling(w: Wiring, request: nat, from: nat, to: nat): Option<seq<SequencedMessage>> {
    var answer := w.source(request, from, to);
    if answer.Some? && Covers(answer.value, from, to) then answer else None
  }

  ghost function FillGap(w: Wiring, h: Handler, sequence: Sequence): (Handler, CheckResult) {
    var noted := h.(gaps := h.gaps + 1);
    match Filling(w, h.gaps, h.expected, sequence)
    case None => (noted, Stop)
    case Some(ms) =>
      var (filled, ok) := ApplyRecovered(w, noted, ms);
      if ok then (filled.(expected := Next(sequence)), Process) else (filled, Stop)
  }

  ghost function Check(w: Wiring, h: Handler, sequence: Sequence): (Handler, CheckResult) {
    if !h.hasSequence || sequence == h.expected
    then (h.(hasSequence := true, expected := Next(sequence)), Process)
    else if sequence < h.expected then (h.(ignored := h.ignored + 1), Ignore)
    else FillGap(w, h, sequence)
  }

  /** One message of an accepted datagram. */
  ghost function Accept(w: Wiring, h: Handler, sequence: Sequence, payload: Bytes): (Handler, bool) {
    var (h', result) := Check(w, h, sequence);
    match result
    case Stop => (h', false)
    case Ignore => (h', true)
    case Process => ProcessLive(w, h', sequence, payload)
  }

  /** The messages of an accepted datagram, up to the first that fails. */
  ghost function AcceptAll(w: Wiring, h: Handler, first: Sequence, ms: seq<Bytes>): (Handler, bool)
    decreases |ms|
  {
    if ms == [] then (h, true)
    else
      var (h', ok) := Accept(w, h, first, ms[0]);
      if ok then AcceptAll(w, h', Next(first), ms[1..]) else (h', false)
  }

  lemma AcceptAllStep(w: Wiring, h: Handler, first: Sequence, ms: seq<Bytes>)
    requires ms != []
    ensures var r := Accept(w, h, first, ms[0]);
            AcceptAll(w, h, first, ms) == if r.1 then AcceptAll(w, r.0, Next(first), ms[1..]) else r
  {
  }

  /** A datagram whose framing is wrong, or that has no message, changes nothing at all. */
  ghost function Deliver(w: Wiring, h: Handler, data: Bytes): (Handler, bool) {
    match Decode(data)
    case None => (h, false)
    case Some(p) => if p.messages == [] then (h, false) else AcceptAll(w, h, p.sequence, p.messages)
  }

  /** A datagram is refused, and nothing changes, if its framing is wrong or it holds no message. */
  lemma DeliverRefuses(w: Wiring, h: Handler, data: Bytes)
    ensures Decode(data).None? || Decode(data).value.messages == [] ==> Deliver(w, h, data) == (h, false)
    ensures Decode(data).Some? && Decode(data).value.messages != [] ==>
              Deliver(w, h, data) == AcceptAll(w, h, Decode(data).value.sequence, Decode(data).value.messages)
  {
  }

  /** What one message does, by its sequence number: an old one is counted as ignored and nothing else; the
      first one, or the one expected, is applied exactly if it is not empty and can be decoded; an early one is
      counted as a gap, and without the missing messages from the source it stops there. */
  lemma AcceptEffect(w: Wiring, h: Handler, s: Sequence, payload: Bytes)
    ensures h.hasSequence && s < h.expected ==> Accept(w, h, s, payload) == (h.(ignored := h.ignored + 1), true)
    ensures !h.hasSequence || s == h.expected ==>
              var (h', ok), decoded := Accept(w, h, s, payload), w.dispatch(payload);
              && (ok <==> payload != [] && decoded.Some?)
              && h'.hasSequence && h'.expected == (if s == TWO_64 - 1 then 0 else s + 1)
              && h'.ignored == h.ignored && h'.gaps == h.gaps && h'.recovered == h.recovered
              && h'.applied == (if ok then h.applied + [Applied(s, decoded.value)] else h.applied)
              && h'.processed == (if ok then h.processed + 1 else h.processed)
    ensures h.hasSequence && s > h.expected ==>
              var (h', ok), answer := Accept(w, h, s, payload), w.source(h.gaps, h.expected, s);
              && h'.gaps == h.gaps + 1 && h'.ignored == h.ignored
              && (answer.None? || !Covers(answer.value, h.expected, s) ==> !ok && h' == h.(gaps := h.gaps + 1))
  {
    if h.hasSequence && s > h.expected {
      var filling := Filling(w, h.gaps, h.expected, s);
      if filling.Some? {
        RecoveredKeepsRest(w, h.(gaps := h.gaps + 1), filling.value);
      }
    }
  }

  /** Recovered messages, up to the first that cannot be used, are applied and counted as recovered. */
  lemma {:induction false} RecoveredKeepsRest(w: Wiring, h: Handler, ms: seq<SequencedMessage>)
    ensures var (h', ok) := ApplyRecovered(w, h, ms);
            && h' == h.(recovered := h'.recovered, applied := h'.applied)
            && h'.recovered - h.recovered == |h'.applied| - |h.applied| && h.applied <= h'.applied
            && (ok ==> |h'.applied| == |h.applied| + |ms|)
    decreases |ms|
  {
    if ms == [] || !Usable(w, ms[0]) {
    } else {
      var a := Applied(ms[0].sequence, w.dispatch(ms[0].payload).value);
      RecoveredKeepsRest(w, h.(recovered := h.recovered + 1, applied := h.applied + [a]), ms[1..]);
    }
  }

  /** How many datagrams the socket delivers. */
  function Arrivals(deliveries: seq<Option<Bytes>>): nat {
    if deliveries == [] then 0 else (if deliveries[0].Some? then 1 else 0) + Arrivals(deliveries[1..])
  }

  /** A run accepts datagrams until it has enough, nothing more comes, or one is refused. */
  lemma {:induction false} RunAccepts(w: Wiring, h: Handler, deliveries: seq<Option<Bytes>>, limit: nat)
    ensures var e, n := RunOver(w, h, deliveries, limit), Arrivals(deliveries);
            && (!e.failed ==> e.accepted == if n < limit then n else limit)
            && (e.failed ==> e.accepted < n && e.accepted < limit)
    decreases |deliveries|
  {
    if deliveries == [] || limit == 0 {
    } else if deliveries[0].None? {
      RunAccepts(w, h, deliveries[1..], limit);
    } else {
      RunAccepts(w, Deliver(w, h, deliveries[0].value).0, deliveries[1..], limit - 1);
    }
  }

  /** The end of a run: the handler, the datagrams it accepted, and whether a bad one ended it. */
  datatype Ending = Ending(handler: Handler, accepted: nat, failed: bool)

  /** A run over what the socket delivers, None being a receive that got nothing; it ends after `limit`
      accepted datagrams, at a bad one, or when it is told to stop. */
  ghost function RunOver(w: Wiring, h: Handler, deliveries: seq<Option<Bytes>>, limit: nat): Ending
    decreases |deliveries|
  {
    if deliveries == [] || limit == 0 then Ending(h, 0, false)
    else if deliveries[0].None? then RunOver(w, h, deliveries[1..], limit)
    else
      var (h', ok) := Deliver(w, h, deliveries[0].value);
      if !ok then Ending(h', 0, true)
      else
        var e := RunOver(w, h', deliveries[1..], limit - 1);
        e.(accepted := e.accepted + 1)
  }

  /** The next delivery of a run, and the rest. */
  lemma RunUnrolls(w: Wiring, h: Handler, deliveries: seq<Option<Bytes>>, i: nat, limit: nat)
    requires i < |deliveries| && limit > 0
    ensures var e := RunOver(w, h, deliveries[i..], limit);
            if deliveries[i].None? then e == RunOver(w, h, deliveries[i + 1..], limit)
            else
              var r := Deliver(w, h, deliveries[i].value);
              if !r.1 then e == Ending(r.0, 0, true)
              else
                var rest := RunOver(w, r.0, deliveries[i + 1..], limit - 1);
                e == Ending(rest.handler, rest.accepted + 1, rest.failed)
  {
    assert deliveries[i..][0] == deliveries[i] && deliveries[i..][1..] == deliveries[i + 1..];
  }

  // ----- Exactly once, in order -----

  /** The applied messages carry consecutive sequence numbers, modulo the width of the counter. */
  ghost predicate Contiguous(applied: seq<Applied>) {
    forall k | 0 <= k < |applied| :: applied[k].sequence == (applied[0].sequence + k) % TWO_64
  }

  /** Contiguous, every message counted once, and nothing before a sequence is established. */
  ghost predicate Orderly(h: Handler) {
    && Contiguous(h.applied)
    && (forall k | 0 <= k < |h.applied| :: h.applied[k].sequence < TWO_64)
    && h.processed + h.recovered == |h.applied|
    && (!h.hasSequence ==> h.applied == [])
  }

  /** The next message expected is the one after the last applied. */
  ghost predicate Due(h: Handler, sequence: nat) {
    h.applied != [] ==> sequence == (h.applied[0].sequence + |h.applied|) % TWO_64
  }

  /** Between two datagrams of a running handler. */
  ghost predicate Settled(h: Handler) {
    Orderly(h) && Due(h, h.expected) && (h.hasSequence ==> h.applied != [])
  }

  lemma ApplyKeepsOrder(applied: seq<Applied>, a: Applied)
    requires Contiguous(applied) && a.sequence < TWO_64
    requires applied != [] ==> a.sequence == (applied[0].sequence + |applied|) % TWO_64
    ensures Contiguous(applied + [a])
  {
  }

  /** Applying the message that is due makes the next one due. */
  lemma DueAfter(h: Handler, h': Handler, sequence: Sequence)
    requires Due(h, sequence) && |h'.applied| == |h.applied| + 1 && h'.applied[0].sequence < TWO_64
    requires h'.applied[0].sequence == if h.applied == [] then sequence else h.applied[0].sequence
    ensures Due(h', Next(sequence))
  {
  }

  lemma ProcessKeepsOrder(w: Wiring, h: Handler, sequence: Sequence, payload: Bytes)
    requires Orderly(h) && Due(h, sequence) && h.hasSequence && h.expected == Next(sequence)
    ensures var (h', ok) := ProcessLive(w, h, sequence, payload);
            Orderly(h') && (ok ==> Settled(h'))
  {
    var (h', ok) := ProcessLive(w, h, sequence, payload);
    if ok {
      ApplyKeepsOrder(h.applied, h'.applied[|h.applied|]);
      DueAfter(h, h', sequence);
    }
  }

  lemma {:induction false} RecoveredKeepOrder(w: Wiring, h: Handler, ms: seq<SequencedMessage>, from: nat, to: Sequence)
    requires Orderly(h) && h.hasSequence && h.applied != [] && Due(h, from) && Covers(ms, from, to)
    ensures var (h', ok) := ApplyRecovered(w, h, ms);
            Orderly(h') && h'.hasSequence && h'.applied != [] && (ok ==> Due(h', to))
    decreases |ms|
  {
    if ms == [] || !Usable(w, ms[0]) {
    } else {
      var a := Applied(ms[0].sequence, w.dispatch(ms[0].payload).value);
      var h1 := h.(recovered := h.recovered + 1, applied := h.applied + [a]);
      OneRecovered(h, h1, a, from);
      CoversRest(ms, from, to);
      RecoveredKeepOrder(w, h1, ms[1..], from + 1, to);
    }
  }

  lemma OneRecovered(h: Handler, h': Handler, a: Applied, from: nat)
    requires Orderly(h) && h.hasSequence && h.applied != [] && Due(h, from) && a.sequence == from < TWO_64 - 1
    requires h' == h.(recovered := h.recovered + 1, applied := h.applied + [a])
    ensures Orderly(h') && Due(h', from + 1)
  {
    ApplyKeepsOrder(h.applied, a);
  }

  lemma CoversRest(ms: seq<SequencedMessage>, from: nat, to: nat)
    requires ms != [] && Covers(ms, from, to)
    ensures ms[0].sequence == from < to && Covers(ms[1..], from + 1, to)
  {
  }

  lemma AcceptKeepsOrder(w: Wiring, h: Handler, sequence: Sequence, payload: Bytes)
    requires Settled(h)
    ensures var (h', ok) := Accept(w, h, sequence, payload);
            Orderly(h') && (ok ==> Settled(h'))
  {
    var (h', result) := Check(w, h, sequence);
    if h.hasSequence && sequence > h.expected {
      var noted := h.(gaps := h.gaps + 1);
      var filling := Filling(w, h.gaps, h.expected, sequence);
      if filling.Some? {
        RecoveredKeepOrder(w, noted, filling.value, h.expected, sequence);
      }
    }
    if result.Process? {
      ProcessKeepsOrder(w, h', sequence, payload);
    }
  }

  lemma {:induction false} AcceptAllKeepsOrder(w: Wiring, h: Handler, first: Sequence, ms: seq<Bytes>)
    requires Settled(h)
    ensures var (h', ok) := AcceptAll(w, h, first, ms);
            Orderly(h') && (ok ==> Settled(h'))
    decreases |ms|
  {
    if ms == [] {
    } else {
      AcceptKeepsOrder(w, h, first, ms[0]);
      var (h', ok) := Accept(w, h, first, ms[0]);
      if ok {
        AcceptAllKeepsOrder(w, h', Next(first), ms[1..]);
      }
    }
  }

  /** Whatever is delivered and whatever the recovery source answers: at every loop head of a running
      handler the applied messages are consecutive, each counted once, and the next one is expected;
      and even a failing run has applied nothing out of order. */
  lemma {:induction false} RunKeepsOrder(w: Wiring, h: Handler, deliveries: seq<Option<Bytes>>, limit: nat)
    requires Settled(h)
    ensures var e := RunOver(w, h, deliveries, limit);
            Orderly(e.handler) && (!e.failed ==> Settled(e.handler))
    decreases |deliveries|
  {
    if deliveries == [] || limit == 0 {
    } else {
      if deliveries[0].None? {
        RunKeepsOrder(w, h, deliveries[1..], limit);
      } else {
        var data := deliveries[0].value;
        if Decode(data).Some? {
          AcceptAllKeepsOrder(w, h, Decode(data).value.sequence, Decode(data).value.messages);
        }
        var (h', ok) := Deliver(w, h, data);
        if ok {
          RunKeepsOrder(w, h', deliveries[1..], limit - 1);
        }
      }
    }
  }

  /** Below the wrap-around: the k-th applied message is number first + k, so none is applied twice and
      none is missing below the next one expected, and the two counters add up to their number. */
  lemma ExactlyOnce(h: Handler)
    requires Settled(h) && h.applied != [] && h.applied[0].sequence + |h.applied| < TWO_64
    ensures forall k | 0 <= k < |h.applied| :: h.applied[k].sequence == h.applied[0].sequence + k
    ensures h.expected == h.applied[0].sequence + |h.applied|
    ensures h.processed + h.recovered == h.expected - h.applied[0].sequence
  {
  }

  // ----- Further lifecycles -----

  /** A handler that had applied `before` in earlier lifecycles. */
  function Continuing(before: seq<Applied>, h: Handler): Handler {
    h.(applied := before + h.applied)
  }

  lemma {:induction false} ApplyRecoveredAfter(w: Wiring, before: seq<Applied>, h: Handler, ms: seq<SequencedMessage>)
    ensures var r := ApplyRecovered(w, h, ms);
            ApplyRecovered(w, Continuing(before, h), ms) == (Continuing(before, r.0), r.1)
    decreases |ms|
  {
    if ms == [] || !Usable(w, ms[0]) {
    } else {
      var a := Applied(ms[0].sequence, w.dispatch(ms[0].payload).value);
      var h1 := h.(recovered := h.recovered + 1, applied := h.applied + [a]);
      assert before + h.applied + [a] == before + (h.applied + [a]);
      ApplyRecoveredAfter(w, before, h1, ms[1..]);
    }
  }

  lemma AcceptAfter(w: Wiring, before: seq<Applied>, h: Handler, sequence: Sequence, payload: Bytes)
    ensures var r := Accept(w, h, sequence, payload);
            Accept(w, Continuing(before, h), sequence, payload) == (Continuing(before, r.0), r.1)
  {
    var noted := h.(gaps := h.gaps + 1);
    var filling := Filling(w, h.gaps, h.expected, sequence);
    if h.hasSequence && sequence > h.expected && filling.Some? {
      ApplyRecoveredAfter(w, before, noted, filling.value);
    }
    var c, c' := Check(w, h, sequence), Check(w, Continuing(before, h), sequence);
    assert c' == (Continuing(before, c.0), c.1);
    if c.1.Process? && payload != [] && w.dispatch(payload).Some? {
      var a := Applied(sequence, w.dispatch(payload).value);
      assert before + c.0.applied + [a] == before + (c.0.applied + [a]);
    }
  }

  lemma {:induction false} AcceptAllAfter(w: Wiring, before: seq<Applied>, h: Handler, first: Sequence, ms: seq<Bytes>)
    ensures var r := AcceptAll(w, h, first, ms);
            AcceptAll(w, Continuing(before, h), first, ms) == (Continuing(before, r.0), r.1)
    decreases |ms|
  {
    if ms == [] {
    } else {
      AcceptAfter(w, before, h, first, ms[0]);
      AcceptAllStep(w, h, first, ms);
      AcceptAllStep(w, Continuing(before, h), first, ms);
      AcceptAllAfter(w, before, Accept(w, h, first, ms[0]).0, Next(first), ms[1..]);
    }
  }

  lemma DeliverAfter(w: Wiring, before: seq<Applied>, h: Handler, data: Bytes)
    ensures var r := Deliver(w, h, data); Deliver(w, Continuing(before, h), data) == (Continuing(before, r.0), r.1)
  {
    if Decode(data).Some? {
      AcceptAllAfter(w, before, h, Decode(data).value.sequence, Decode(data).value.messages);
    }
  }

  lemma {:induction false} RunAfter(w: Wiring, before: seq<Applied>, h: Handler, deliveries: seq<Option<Bytes>>,
                                    limit: nat)
    ensures var e := RunOver(w, h, deliveries, limit);
            RunOver(w, Continuing(before, h), deliveries, limit) == e.(handler := Continuing(before, e.handler))
    decreases |deliveries|
  {
    if deliveries == [] || limit == 0 {
    } else if deliveries[0].None? {
      RunAfter(w, before, h, deliveries[1..], limit);
    } else {
      DeliverAfter(w, before, h, deliveries[0].value);
      RunAfter(w, before, Deliver(w, h, deliveries[0].value).0, deliveries[1..], limit - 1);
    }
  }

  /** A later lifecycle applies, behind what was applied before, exactly what a first one would; what it
      applies is consecutive, and if it does not fail, settled. */
  lemma LaterLifecycle(w: Wiring, before: seq<Applied>, deliveries: seq<Option<Bytes>>, limit: nat)
    ensures var e, e' := RunOver(w, Started([]), deliveries, limit), RunOver(w, Started(before), deliveries, limit);
            && e' == e.(handler := Continuing(before, e.handler))
            && Orderly(e.handler) && (!e.failed ==> Settled(e.handler))
  {
    assert before + [] == before;
    assert Continuing(before, Started([])) == Started(before);
    RunAfter(w, before, Started([]), deliveries, limit);
    RunKeepsOrder(w, Started([]), deliveries, limit);
  }

  // ----- The handler object -----

  datatype FeedState = Idle | Running | Stopped | Failed

  class MoldItchFeedHandler {
    const wiring: Wiring
    var expectedSequence: Sequence
    var hasSequence: bool
    var processedDatagrams: nat
    var processedMessages: nat
    var recoveredMessages: nat
    var ignoredMessages: nat
    var gapsDetected: nat
    var malformedDatagrams: nat
    var state: FeedState

    /** The messages handed to the market state so far. */
    var applied: seq<Applied>

    ghost function Snapshot(): Handler
      reads this
    {
      Handler(hasSequence, expectedSequence, processedMessages, recoveredMessages, ignoredMessages,
              gapsDetected, applied)
    }

    constructor (wiring: Wiring)
      ensures this.wiring == wiring && Snapshot() == Started([]) && state == Idle
    {
      this.wiring := wiring;
      expectedSequence, hasSequence := 0, false;
      processedDatagrams, processedMessages, recoveredMessages := 0, 0, 0;
      ignoredMessages, gapsDetected, malformedDatagrams := 0, 0, 0;
      state, applied := Idle, [];
    }

    method ProcessMessage(sequence: Sequence, payload: Bytes) returns (ok: bool)
      modifies this`processedMessages, this`applied
      ensures (Snapshot(), ok) == ProcessLive(wiring, old(Snapshot()), sequence, payload)
    {
      if payload == [] {
        return false;
      }
      var decoded := wiring.dispatch(payload);
      if decoded.None? {
        return false;
      }
      applied := applied + [Applied(sequence, decoded.value)];
      processedMessages := processedMessages + 1;
      return true;
    }

    method ProcessRecoveredMessage(message: SequencedMessage) returns (ok: bool)
      modifies this`recoveredMessages, this`applied
      ensures ok <==> 0 < |message.payload| <= 2048 && wiring.dispatch(message.payload).Some?
      ensures ok ==> recoveredMessages == old(recoveredMessages) + 1
                     && applied == old(applied) + [Applied(message.sequence, wiring.dispatch(message.payload).value)]
      ensures !ok ==> recoveredMessages == old(recoveredMessages) && applied == old(applied)
    {
      if message.payload == [] || |message.payload| > MAX_PAYLOAD_SIZE {
        return false;
      }
      var decoded := wiring.dispatch(message.payload);
      if decoded.None? {
        return false;
      }
      applied := applied + [Applied(message.sequence, decoded.value)];
      recoveredMessages := recoveredMessages + 1;
      return true;
    }

    /** Decides about a live message, filling a gap before it if there is one. */
    method CheckSequence(sequence: Sequence) returns (result: CheckResult)
      modifies this`expectedSequence, this`hasSequence, this`ignoredMessages, this`gapsDetected,
               this`recoveredMessages, this`applied
      ensures (Snapshot(), result) == Check(wiring, old(Snapshot()), sequence)
    {
      if !hasSequence {
        expectedSequence := (sequence + 1) % TWO_64;
        hasSequence := true;
        return Process;
      }
      if sequence == expectedSequence {
        expectedSequence := (sequence + 1) % TWO_64;
        return Process;
      }
      if sequence < expectedSequence {
        ignoredMessages := ignoredMessages + 1;
        return Ignore;
      }
      var recoveryResult, messages := Recover(wiring.source, gapsDetected, expectedSequence, sequence);
      gapsDetected := gapsDetected + 1;
      if recoveryResult != Process {
        return recoveryResult;
      }
      var filled := FillIn(messages);
      if !filled {
        return Stop;
      }
      expectedSequence := (sequence + 1) % TWO_64;
      return Process;
    }

    /** The loop over the recovered messages. */
    method FillIn(messages: seq<SequencedMessage>) returns (ok: bool)
      modifies this`recoveredMessages, this`applied
      ensures (Snapshot(), ok) == ApplyRecovered(wiring, old(Snapshot()), messages)
    {
      var i := 0;
      while i < |messages|
        invariant 0 <= i <= |messages|
        invariant ApplyRecovered(wiring, Snapshot(), messages[i..]) == ApplyRecovered(wiring, old(Snapshot()), messages)
      {
        var processed := ProcessRecoveredMessage(messages[i]);
        if !processed {
          return false;
        }
        assert messages[i..][1..] == messages[i + 1..];
        i := i + 1;
      }
      return true;
    }

    /** Pass 1: does the framing hold?  Nothing of the handler is touched. */
    method Validate(data: Bytes, header: Header) returns (ok: bool)
      requires DecodeHeader(data) == Some(header) && |data| >= HEADER_SIZE
      ensures ok <==> Decode(data).Some?
    {
      var validationOffset := HEADER_SIZE;
      var i := 0;
      while i < header.count
        invariant 0 <= i <= header.count
        invariant MessagesFrom(data, validationOffset, header.count - i).Some?
               <==> MessagesFrom(data, HEADER_SIZE, header.count).Some?
      {
        var found, next, message := NextMessage(data, validationOffset);
        if !found {
          return false;
        }
        validationOffset := next;
        i := i + 1;
      }
      return validationOffset == |data|;
    }

    /** Pass 2: the messages of a validated datagram, one after another.  NextMessage cannot fail here. */
    method ProcessMessages(data: Bytes, header: Header, ghost ms: seq<Bytes>) returns (ok: bool)
      requires MessagesFrom(data, HEADER_SIZE, header.count) == Some(ms)
      modifies this`expectedSequence, this`hasSequence, this`ignoredMessages, this`gapsDetected,
               this`processedMessages, this`recoveredMessages, this`applied
      ensures (Snapshot(), ok) == AcceptAll(wiring, old(Snapshot()), header.sequence, ms)
    {
      var offset := HEADER_SIZE;
      var sequence: Sequence := header.sequence;
      var i := 0;
      ghost var rest := ms;
      MessagesCounted(data, HEADER_SIZE, header.count);
      while i < header.count
        invariant i + |rest| == header.count
        invariant MessagesFrom(data, offset, |rest|) == Some(rest)
        invariant AcceptAll(wiring, Snapshot(), sequence, rest)
               == AcceptAll(wiring, old(Snapshot()), header.sequence, ms)
      {
        MessagesUnroll(data, offset, rest);
        var found, next, message := NextMessage(data, offset);
        assert found;  // the C++ returns here if the framing is wrong, which pass 1 has ruled out
        offset := next;
        var result := CheckSequence(sequence);
        if result == Stop {
          return false;
        }
        if result != Ignore {
          var processed := ProcessMessage(sequence, message);
          if !processed {
            return false;
          }
        }
        sequence := (sequence + 1) % TWO_64;
        rest := rest[1..];
        i := i + 1;
      }
      return true;
    }

    /** A datagram whose framing is rejected, or that is empty, changes nothing. */
    method ProcessDatagram(data: Bytes) returns (ok: bool)
      modifies this`expectedSequence, this`hasSequence, this`ignoredMessages, this`gapsDetected,
               this`processedMessages, this`recoveredMessages, this`applied
      ensures (Snapshot(), ok) == Deliver(wiring, old(Snapshot()), data)
      ensures Decode(data).None? ==> !ok && Snapshot() == old(Snapshot())
    {
      var header := DecodeHeader(data);
      if header.None? {
        return false;
      }
      if header.value.count == 0 {
        return false;
      }
      var valid := Validate(data, header.value);
      if !valid {
        return false;
      }
      MessagesCounted(data, HEADER_SIZE, header.value.count);
      ok := ProcessMessages(data, header.value, Decode(data).value.messages);
    }

    method StartLifecycle()
      modifies this
      ensures Snapshot() == Started(old(applied)) && state == Running
      ensures !hasSequence && expectedSequence == 0 && applied == old(applied)
      ensures processedMessages == recoveredMessages == ignoredMessages == gapsDetected == 0
      ensures processedDatagrams == 0 && malformedDatagrams == 0
    {
      expectedSequence, hasSequence := 0, false;
      processedDatagrams, processedMessages, recoveredMessages := 0, 0, 0;
      ignoredMessages, gapsDetected, malformedDatagrams := 0, 0, 0;
      state := Running;
    }

    /** Live mode over what the socket delivers until the handler is told to stop, or until
        `datagramCount` datagrams were accepted. */
    method Start(deliveries: seq<Option<Bytes>>, datagramCount: nat)
      modifies this
      ensures var e := RunOver(wiring, Started(old(applied)), deliveries, datagramCount);
              && Snapshot() == e.handler
              && processedDatagrams == e.accepted
              && malformedDatagrams == (if e.failed then 1 else 0)
              && state == (if e.failed then Failed else Stopped)
    {
      StartLifecycle();
      var failed := ReceiveLoop(deliveries, datagramCount);
      if failed {
        malformedDatagrams := malformedDatagrams + 1;
        state := Failed;
      } else {
        state := Stopped;
      }
    }

    /** Receives and processes until enough datagrams were accepted, one is bad, or nothing more comes. */
    method ReceiveLoop(deliveries: seq<Option<Bytes>>, datagramCount: nat) returns (failed: bool)
      requires processedDatagrams == 0
      modifies this`processedDatagrams, this`expectedSequence, this`hasSequence,
               this`ignoredMessages, this`gapsDetected,
               this`processedMessages, this`recoveredMessages, this`applied
      ensures RunOver(wiring, old(Snapshot()), deliveries, datagramCount)
           == Ending(Snapshot(), processedDatagrams, failed)
    {
      ghost var e := RunOver(wiring, Snapshot(), deliveries, datagramCount);
      var i := 0;
      while i < |deliveries| && processedDatagrams < datagramCount
        invariant 0 <= i <= |deliveries| && processedDatagrams <= datagramCount
        invariant Remaining(wiring, Snapshot(), deliveries, i, processedDatagrams, datagramCount, e)
      {
        RestOfStep(wiring, Snapshot(), deliveries, i, processedDatagrams, datagramCount, e);
        if deliveries[i].Some? {
          var ok := ProcessDatagram(deliveries[i].value);
          if !ok {
            return true;
          }
          processedDatagrams := processedDatagrams + 1;
        }
        i := i + 1;
      }
      return false;
    }
  }

  /** A run that accepts `accepted` datagrams and goes on as `rest` ends as `whole`. */
  ghost predicate RestOf(rest: Ending, accepted: nat, whole: Ending) {
    whole.handler == rest.handler && whole.failed == rest.failed && whole.accepted == accepted + rest.accepted
  }

  /** The run goes on from `h` with its i-th delivery. */
  ghost predicate Remaining(w: Wiring, h: Handler, deliveries: seq<Option<Bytes>>, i: nat, accepted: nat, limit: nat,
                            whole: Ending)
  {
    i <= |deliveries| && accepted <= limit && RestOf(RunOver(w, h, deliveries[i..], limit - accepted), accepted, whole)
  }

  /** What is left of a run after its next delivery. */
  lemma RestOfStep(w: Wiring, h: Handler, deliveries: seq<Option<Bytes>>, i: nat, accepted: nat, limit: nat,
                   whole: Ending)
    requires i < |deliveries| && accepted < limit && Remaining(w, h, deliveries, i, accepted, limit, whole)
    ensures if deliveries[i].None? then Remaining(w, h, deliveries, i + 1, accepted, limit, whole)
            else
              var r := Deliver(w, h, deliveries[i].value);
              if r.1 then Remaining(w, r.0, deliveries, i + 1, accepted + 1, limit, whole)
              else whole == Ending(r.0, accepted, true)
  {
    RunUnrolls(w, h, deliveries, i, limit - accepted);
  }

  /** The next of the messages still to come, and what follows it. */
  lemma MessagesUnroll(data: Bytes, offset: nat, ms: seq<Bytes>)
    requires ms != [] && MessagesFrom(data, offset, |ms|) == Some(ms)
    ensures BlockFrom(data, offset).Some? && ms[0] == BlockFrom(data, offset).value.0
    ensures MessagesFrom(data, BlockFrom(data, offset).value.1, |ms[1..]|) == Some(ms[1..])
  {
  }

  lemma {:induction false} MessagesCounted(data: Bytes, offset: nat, count: nat)
    ensures MessagesFrom(data, offset, count).Some? ==> |MessagesFrom(data, offset, count).value| == count
    decreases count
  {
    if count == 0 || BlockFrom(data, offset).None? {
    } else {
      MessagesCounted(data, BlockFrom(data, offset).value.1, count - 1);
    }
  }
}
