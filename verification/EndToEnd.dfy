/** Pack a file, lose, repeat and reorder its datagrams, recover from the same file: the market state
    cannot tell. */
module EndToEnd {
  import opened MarketTypes
  import opened Wire
  import opened Codec
  import opened SequenceRecovery
  import opened BinaryFile
  import opened Recovery
  import opened Packing
  import opened FeedHandler
  import opened IndexFile
  import opened MarketState
  import Reference

  // ----- A slice of the file, applied -----

  function MessageOf(w: Wiring, m: Bytes): Message {
    w.dispatch(m).GetOr(Reference.Unhandled)
  }

  /** The records from..to-1 (counted from 0), decoded, under their sequence numbers (counted from 1). */
  function AppliedSlice(w: Wiring, ms: seq<Bytes>, from: nat, to: nat): seq<Applied>
    requires from <= to <= |ms|
  {
    seq(to - from, i requires 0 <= i < to - from => Applied(from + 1 + i, MessageOf(w, ms[from + i])))
  }

  ghost predicate AllDecode(w: Wiring, ms: seq<Bytes>, from: nat, to: nat)
    requires from <= to <= |ms|
  {
    forall i | from <= i < to :: w.dispatch(ms[i]).Some?
  }

  /** The handler has applied exactly the records from..to-1, in order. */
  ghost predicate Caught(w: Wiring, ms: seq<Bytes>, h: Handler, from: nat, to: nat) {
    && from <= to <= |ms| < TWO_64 - 1
    && h.hasSequence && h.expected == to + 1
    && AllDecode(w, ms, from, to) && h.applied == AppliedSlice(w, ms, from, to)
  }

  /** The handler stopped at a record that cannot be decoded, having applied records right before it. */
  ghost predicate StuckAt(w: Wiring, ms: seq<Bytes>, h: Handler, from: nat, bad: nat) {
    && from <= bad < |ms| && w.dispatch(ms[bad]).None?
    && AllDecode(w, ms, from, bad) && h.applied == AppliedSlice(w, ms, from, bad)
  }

  /** It stopped there, short of `to`. */
  ghost predicate Stuck(w: Wiring, ms: seq<Bytes>, h: Handler, from: nat, to: nat) {
    exists bad: nat {:trigger StuckAt(w, ms, h, from, bad)} :: bad < to && StuckAt(w, ms, h, from, bad)
  }

  /** Caught up to `to`, or stopped short of it for a record nobody could decode. */
  ghost predicate Ends(w: Wiring, ms: seq<Bytes>, r: (Handler, bool), from: nat, to: nat) {
    if r.1 then Caught(w, ms, r.0, from, to) else Stuck(w, ms, r.0, from, to)
  }

  lemma StuckEarlier(w: Wiring, ms: seq<Bytes>, h: Handler, from: nat, to: nat, further: nat)
    requires Stuck(w, ms, h, from, to) && to <= further
    ensures Stuck(w, ms, h, from, further)
  {
  }

  /** Recovery answers from the file the datagrams were packed from. */
  ghost predicate RecoversFrom(w: Wiring, file: Bytes) {
    forall request: nat, from: nat, to: nat | from < TWO_64 && to < TWO_64 ::
      w.source(request, from, to) == Answer(file, from, to)
  }

  /** `ms` are the file's first records, all of them small enough for a datagram. */
  ghost predicate Feed(ms: seq<Bytes>, file: Bytes) {
    ms <= Records(file, 0) && AllSmall(ms) && AllPayloads(ms) && |ms| < TWO_64 - 1
  }

  lemma SliceGrows(w: Wiring, ms: seq<Bytes>, from: nat, to: nat)
    requires from <= to < |ms|
    ensures AppliedSlice(w, ms, from, to + 1) == AppliedSlice(w, ms, from, to) + [Applied(to + 1, MessageOf(w, ms[to]))]
  {
  }

  /** The record whose turn it is. */
  lemma ProcessExtends(w: Wiring, ms: seq<Bytes>, h: Handler, from: nat, to: nat)
    requires from <= to < |ms| < TWO_64 - 1 && ms[to] != []
    requires h.hasSequence && h.expected == to + 2
    requires AllDecode(w, ms, from, to) && h.applied == AppliedSlice(w, ms, from, to)
    ensures var (h', ok) := ProcessLive(w, h, to + 1, ms[to]);
            if ok then Caught(w, ms, h', from, to + 1) else StuckAt(w, ms, h', from, to)
  {
    SliceGrows(w, ms, from, to);
  }

  /** What is missing between two positions. */
  function Missing(ms: seq<Bytes>, to: nat, end: nat): seq<SequencedMessage>
    requires to <= end <= |ms|
  {
    seq(end - to, i requires 0 <= i < end - to => SequencedMessage(to + 1 + i, ms[to + i]))
  }

  /** Recovered records extend the slice up to the gap's end or to one that cannot be decoded. */
  lemma {:induction false} RecoveryExtends(w: Wiring, ms: seq<Bytes>, h: Handler, from: nat, to: nat, end: nat)
    requires from <= to <= end <= |ms| && AllSmall(ms) && AllPayloads(ms)
    requires AllDecode(w, ms, from, to) && h.applied == AppliedSlice(w, ms, from, to)
    ensures var (h', ok) := ApplyRecovered(w, h, Missing(ms, to, end));
            if ok then AllDecode(w, ms, from, end) && h'.applied == AppliedSlice(w, ms, from, end)
                       && h' == h.(recovered := h'.recovered, applied := h'.applied)
            else Stuck(w, ms, h', from, end)
    decreases end - to
  {
    if to == end {
    } else {
      var found := Missing(ms, to, end);
      assert found[0] == SequencedMessage(to + 1, ms[to]) && found[1..] == Missing(ms, to + 1, end);
      assert SmallEnough(ms[to]);
      if Usable(w, found[0]) {
        SliceGrows(w, ms, from, to);
        var h1 := h.(recovered := h.recovered + 1, applied := h.applied + [Applied(to + 1, w.dispatch(ms[to]).value)]);
        RecoveryExtends(w, ms, h1, from, to + 1, end);
      } else {
        assert StuckAt(w, ms, h, from, to);
      }
    }
  }

  /** What is missing between two of the packed records can be recovered, and is what recovery finds. */
  lemma GapIsRecoverable(file: Bytes, ms: seq<Bytes>, to: nat, end: nat)
    requires Feed(ms, file) && to < end <= |ms|
    ensures Recoverable(file, to + 1, end + 1) && SliceOf(file, to + 1, end + 1) == Missing(ms, to, end)
  {
    forall k | to <= k < end
      ensures |Records(file, 0)[k]| <= MAX_PAYLOAD_SIZE
    {
      assert SmallEnough(ms[k]) && ms[k] == Records(file, 0)[k];
    }
  }

  /** A gap inside the file is always answered, with exactly its records. */
  lemma GapIsAnswered(w: Wiring, file: Bytes, ms: seq<Bytes>, request: nat, to: nat, end: nat)
    requires Feed(ms, file) && RecoversFrom(w, file) && to < end <= |ms|
    ensures Filling(w, request, to + 1, end + 1) == Some(Missing(ms, to, end))
  {
    GapIsRecoverable(file, ms, to, end);
    AnswerIs(file, to + 1, end + 1);
  }

  function Max(a: nat, b: nat): nat {
    if a < b then b else a
  }

  /** Record `j` arrives, early, in turn, late or again: afterwards everything up to it is applied. */
  lemma AcceptCatchesUp(w: Wiring, file: Bytes, ms: seq<Bytes>, h: Handler, from: nat, to: nat, j: nat)
    requires Feed(ms, file) && RecoversFrom(w, file) && Caught(w, ms, h, from, to) && j < |ms|
    ensures Ends(w, ms, Accept(w, h, j + 1, ms[j]), from, Max(to, j + 1))
  {
    if j > to {
      GapCatchesUp(w, file, ms, h, from, to, j);
    } else {
      NoGap(w, ms, h, from, to, j);
    }
  }

  /** Record `j` arrives in turn, or again. */
  lemma NoGap(w: Wiring, ms: seq<Bytes>, h: Handler, from: nat, to: nat, j: nat)
    requires AllPayloads(ms) && Caught(w, ms, h, from, to) && j <= to && j < |ms|
    ensures Ends(w, ms, Accept(w, h, j + 1, ms[j]), from, Max(to, j + 1))
  {
    if j == to {
      ProcessExtends(w, ms, h.(expected := j + 2), from, j);
    }
  }

  /** A message behind an answered gap. */
  lemma AcceptBehindGap(w: Wiring, h: Handler, sequence: Sequence, payload: Bytes, found: seq<SequencedMessage>)
    requires h.hasSequence && h.expected < sequence && Filling(w, h.gaps, h.expected, sequence) == Some(found)
    ensures var r := ApplyRecovered(w, h.(gaps := h.gaps + 1), found);
            Accept(w, h, sequence, payload) ==
            if r.1 then ProcessLive(w, r.0.(expected := Next(sequence)), sequence, payload) else (r.0, false)
  {
  }

  /** Record `j` arrives early: the gap before it is filled first. */
  lemma GapCatchesUp(w: Wiring, file: Bytes, ms: seq<Bytes>, h: Handler, from: nat, to: nat, j: nat)
    requires Feed(ms, file) && RecoversFrom(w, file) && Caught(w, ms, h, from, to) && to < j < |ms|
    ensures Ends(w, ms, Accept(w, h, j + 1, ms[j]), from, j + 1)
  {
    GapIsAnswered(w, file, ms, h.gaps, to, j);
    AnsweredGap(w, ms, h, from, to, j);
  }

  lemma AnsweredGap(w: Wiring, ms: seq<Bytes>, h: Handler, from: nat, to: nat, j: nat)
    requires AllSmall(ms) && AllPayloads(ms) && Caught(w, ms, h, from, to) && to < j < |ms|
    requires Filling(w, h.gaps, to + 1, j + 1) == Some(Missing(ms, to, j))
    ensures Ends(w, ms, Accept(w, h, j + 1, ms[j]), from, j + 1)
  {
    AcceptBehindGap(w, h, j + 1, ms[j], Missing(ms, to, j));
    RecoveredSlice(w, ms, h, from, to, j);
    ProcessBehindGap(w, ms, ApplyRecovered(w, h.(gaps := h.gaps + 1), Missing(ms, to, j)),
                     Accept(w, h, j + 1, ms[j]), from, j);
  }

  lemma RecoveredSlice(w: Wiring, ms: seq<Bytes>, h: Handler, from: nat, to: nat, j: nat)
    requires AllSmall(ms) && AllPayloads(ms) && Caught(w, ms, h, from, to) && to <= j <= |ms|
    ensures var r := ApplyRecovered(w, h.(gaps := h.gaps + 1), Missing(ms, to, j));
            && (r.1 ==> r.0.hasSequence && AllDecode(w, ms, from, j) && r.0.applied == AppliedSlice(w, ms, from, j))
            && (!r.1 ==> Stuck(w, ms, r.0, from, j))
  {
    RecoveryExtends(w, ms, h.(gaps := h.gaps + 1), from, to, j);
  }

  /** Record `j` once the records before it were recovered, or one of them was not. */
  lemma ProcessBehindGap(w: Wiring, ms: seq<Bytes>, r: (Handler, bool), accepted: (Handler, bool), from: nat, j: nat)
    requires from <= j < |ms| < TWO_64 - 1 && ms[j] != []
    requires r.1 ==> r.0.hasSequence && AllDecode(w, ms, from, j) && r.0.applied == AppliedSlice(w, ms, from, j)
    requires !r.1 ==> Stuck(w, ms, r.0, from, j)
    requires accepted == if r.1 then ProcessLive(w, r.0.(expected := j + 2), j + 1, ms[j]) else (r.0, false)
    ensures Ends(w, ms, accepted, from, j + 1)
  {
    if r.1 {
      ProcessExtends(w, ms, r.0.(expected := j + 2), from, j);
    } else {
      StuckEarlier(w, ms, r.0, from, j, j + 1);
    }
  }

  /** The very first message fixes where the slice begins. */
  lemma FirstBegins(w: Wiring, ms: seq<Bytes>, h: Handler, j: nat)
    requires !h.hasSequence && h.applied == [] && j < |ms| < TWO_64 - 1 && ms[j] != []
    ensures Ends(w, ms, Accept(w, h, j + 1, ms[j]), j, j + 1)
  {
    var (h1, result) := Check(w, h, j + 1);
    assert AppliedSlice(w, ms, j, j) == [];
    ProcessExtends(w, ms, h1, j, j);
  }

  lemma SliceStep(w: Wiring, ms: seq<Bytes>, h: Handler, p: nat, q: nat)
    requires p < q <= |ms| < TWO_64 - 1
    ensures var r := Accept(w, h, p + 1, ms[p]);
            AcceptAll(w, h, p + 1, ms[p..q]) == if r.1 then AcceptAll(w, r.0, p + 2, ms[p + 1..q]) else r
  {
    assert ms[p..q][0] == ms[p] && ms[p..q][1..] == ms[p + 1..q];
    AcceptAllStep(w, h, p + 1, ms[p..q]);
  }

  /** A datagram is its first message, and unless that failed, the rest. */
  lemma FirstThenRest(w: Wiring, ms: seq<Bytes>, h: Handler, from: nat, to: nat, p: nat, q: nat)
    requires p < q <= |ms| < TWO_64 - 1
    requires var r := Accept(w, h, p + 1, ms[p]);
             if r.1 then Ends(w, ms, AcceptAll(w, r.0, p + 2, ms[p + 1..q]), from, to) else Stuck(w, ms, r.0, from, to)
    ensures Ends(w, ms, AcceptAll(w, h, p + 1, ms[p..q]), from, to)
  {
    SliceStep(w, ms, h, p, q);
  }

  /** A whole datagram, of records p..q-1. */
  lemma {:induction false} DatagramCatchesUp(w: Wiring, file: Bytes, ms: seq<Bytes>, h: Handler, from: nat, to: nat,
                                             p: nat, q: nat)
    requires Feed(ms, file) && RecoversFrom(w, file) && Caught(w, ms, h, from, to) && p <= q <= |ms|
    ensures Ends(w, ms, AcceptAll(w, h, p + 1, ms[p..q]), from, if p < q then Max(to, q) else to)
    decreases q - p
  {
    if p == q {
    } else {
      AcceptCatchesUp(w, file, ms, h, from, to, p);
      var r := Accept(w, h, p + 1, ms[p]);
      if r.1 {
        DatagramCatchesUp(w, file, ms, r.0, from, Max(to, p + 1), p + 1, q);
      }
      FirstThenRest(w, ms, h, from, Max(to, q), p, q);
    }
  }

  lemma FirstDatagram(w: Wiring, file: Bytes, ms: seq<Bytes>, h: Handler, p: nat, q: nat)
    requires Feed(ms, file) && RecoversFrom(w, file) && !h.hasSequence && h.applied == [] && p < q <= |ms|
    ensures Ends(w, ms, AcceptAll(w, h, p + 1, ms[p..q]), p, q)
  {
    FirstBegins(w, ms, h, p);
    var r := Accept(w, h, p + 1, ms[p]);
    if r.1 {
      DatagramCatchesUp(w, file, ms, r.0, p, p + 1, p + 1, q);
    }
    FirstThenRest(w, ms, h, p, q, p, q);
  }

  // ----- Any delivery of the packed datagrams -----

  /** A file packed for sending. */
  ghost predicate Packed(file: Bytes, requested: nat, session: Session, ds: seq<PrebuiltDatagram>) {
    var ms := RecordsRead(file, requested);
    |file| <= MAX_OFFSET && AllSmall(ms) && PackedAs(ds, session, Greedy(ms))
  }

  /** What the load generator's packing of a file succeeds with is packed in this sense. */
  lemma PackIsPacked(file: Bytes, requested: nat, session: Session, ds: seq<PrebuiltDatagram>)
    requires |file| <= MAX_OFFSET && AllSmall(RecordsRead(file, requested))
    requires PackedAs(ds, session, Greedy(RecordsRead(file, requested)))
    ensures Packed(file, requested, session, ds)
  {
  }

  /** Where the k-th datagram's records begin; for k the number of datagrams, where they end. */
  ghost function Start(ms: seq<Bytes>, k: nat): nat
    requires AllSmall(ms) && k <= |Greedy(ms)|
  {
    |Flatten(Greedy(ms)[..k])|
  }

  lemma FlattenFirst(groups: seq<seq<Bytes>>, k: nat)
    requires 0 < k <= |groups|
    ensures Flatten(groups[..k]) == groups[0] + Flatten(groups[1..][..k - 1])
  {
    assert groups[..k][0] == groups[0] && groups[..k][1..] == groups[1..][..k - 1];
  }

  lemma {:induction false} GroupIn(groups: seq<seq<Bytes>>, k: nat)
    requires k < |groups|
    ensures var p := |Flatten(groups[..k])|; var q := |Flatten(groups[..k + 1])|;
            q == p + |groups[k]| && q <= |Flatten(groups)| && Flatten(groups)[p..q] == groups[k]
    decreases k
  {
    FlattenFirst(groups, k + 1);
    if k == 0 {
      assert groups[1..][..0] == [] && groups[..0] == [];
    } else {
      FlattenFirst(groups, k);
      GroupIn(groups[1..], k - 1);
      var p := |Flatten(groups[1..][..k - 1])|;
      Behind(groups[0], Flatten(groups[1..]), p, p + |groups[k]|);
    }
  }

  lemma Behind<T>(head: seq<T>, tail: seq<T>, p: nat, q: nat)
    requires p <= q <= |tail|
    ensures (head + tail)[|head| + p..|head| + q] == tail[p..q]
  {
  }

  lemma PackedIsFeed(file: Bytes, requested: nat, session: Session, ds: seq<PrebuiltDatagram>)
    requires Packed(file, requested, session, ds)
    ensures Feed(RecordsRead(file, requested), file)
  {
    RecordsFit(file, 0);
  }

  /** Each datagram is a non-empty run of the file's records, under the right sequence number. */
  lemma DatagramHolds(file: Bytes, requested: nat, session: Session, ds: seq<PrebuiltDatagram>, k: nat)
    requires Packed(file, requested, session, ds) && k < |ds|
    ensures var ms := RecordsRead(file, requested);
            && Feed(ms, file)
            && Start(ms, k) < Start(ms, k + 1) <= |ms|
            && Decode(ds[k].bytes) == Some(Packet(session, Start(ms, k) + 1, ms[Start(ms, k)..Start(ms, k + 1)]))
  {
    var ms := RecordsRead(file, requested);
    var groups := Greedy(ms);
    PackedIsFeed(file, requested, session, ds);
    GreedyPacks(ms);
    GroupIn(groups, k);
    assert groups[k] in groups && Packable(groups[k]);
    PackedDecodes(ds, session, groups, k);
    assert After(groups[..k]) == Start(ms, k) + 1;
  }

  /** Datagram `k` carries the records starts[k]..starts[k + 1]-1. */
  ghost predicate Carrying(ds: seq<PrebuiltDatagram>, session: Session, ms: seq<Bytes>, starts: seq<nat>, k: nat)
    requires k < |ds| && |starts| == |ds| + 1
  {
    && starts[k] < starts[k + 1] <= |ms| < TWO_64 - 1
    && Decode(ds[k].bytes) == Some(Packet(session, starts[k] + 1, ms[starts[k]..starts[k + 1]]))
  }

  ghost predicate AllCarrying(ds: seq<PrebuiltDatagram>, session: Session, ms: seq<Bytes>, starts: seq<nat>) {
    |starts| == |ds| + 1 && forall k | 0 <= k < |ds| :: Carrying(ds, session, ms, starts, k)
  }

  ghost function Starts(ms: seq<Bytes>): seq<nat>
    requires AllSmall(ms)
  {
    seq(|Greedy(ms)| + 1, k requires 0 <= k < |Greedy(ms)| + 1 => Start(ms, k))
  }

  lemma PackedCarries(file: Bytes, requested: nat, session: Session, ds: seq<PrebuiltDatagram>)
    requires Packed(file, requested, session, ds)
    ensures var ms := RecordsRead(file, requested);
            Feed(ms, file) && AllCarrying(ds, session, ms, Starts(ms))
  {
    var ms := RecordsRead(file, requested);
    PackedIsFeed(file, requested, session, ds);
    forall k | 0 <= k < |ds|
      ensures Carrying(ds, session, ms, Starts(ms), k)
    {
      DatagramHolds(file, requested, session, ds, k);
    }
  }

  /** What arrives: at each receive one of the datagrams, or nothing.  Any of them may be missing, come
      again, or come out of order. */
  function Deliveries(ds: seq<PrebuiltDatagram>, arrivals: seq<Option<nat>>): (deliveries: seq<Option<Bytes>>)
    requires Arriving(|ds|, arrivals)
    ensures |deliveries| == |arrivals|
  {
    seq(|arrivals|, i requires 0 <= i < |arrivals| =>
          if arrivals[i].Some? then Some(ds[arrivals[i].value].bytes) else None)
  }

  ghost predicate Arriving(n: nat, arrivals: seq<Option<nat>>) {
    forall i | 0 <= i < |arrivals| && arrivals[i].Some? :: arrivals[i].value < n
  }

  /** The end of the furthest datagram among the first `limit` that arrive, if any reaches beyond `to`. */
  ghost function Reach(starts: seq<nat>, arrivals: seq<Option<nat>>, to: nat, limit: nat): (reach: nat)
    requires |starts| > 0 && Arriving(|starts| - 1, arrivals)
    ensures to <= reach
    decreases |arrivals|
  {
    if arrivals == [] || limit == 0 then to
    else if arrivals[0].None? then Reach(starts, arrivals[1..], to, limit)
    else Reach(starts, arrivals[1..], Max(to, starts[arrivals[0].value + 1]), limit - 1)
  }

  lemma DeliverCatchesUp(w: Wiring, file: Bytes, ms: seq<Bytes>, ds: seq<PrebuiltDatagram>, session: Session,
                         starts: seq<nat>, h: Handler, from: nat, to: nat, k: nat)
    requires Feed(ms, file) && RecoversFrom(w, file) && AllCarrying(ds, session, ms, starts) && k < |ds|
    requires Caught(w, ms, h, from, to)
    ensures Ends(w, ms, Deliver(w, h, ds[k].bytes), from, Max(to, starts[k + 1]))
  {
    assert Carrying(ds, session, ms, starts, k);
    DatagramCatchesUp(w, file, ms, h, from, to, starts[k], starts[k + 1]);
  }

  lemma DeliverBegins(w: Wiring, file: Bytes, ms: seq<Bytes>, ds: seq<PrebuiltDatagram>, session: Session,
                      starts: seq<nat>, h: Handler, k: nat)
    requires Feed(ms, file) && RecoversFrom(w, file) && AllCarrying(ds, session, ms, starts) && k < |ds|
    requires !h.hasSequence && h.applied == []
    ensures Ends(w, ms, Deliver(w, h, ds[k].bytes), starts[k], starts[k + 1])
  {
    assert Carrying(ds, session, ms, starts, k);
    FirstDatagram(w, file, ms, h, starts[k], starts[k + 1]);
  }

  /** How a run over these arrivals ends: the handler, and whether it did not fail. */
  ghost function ResultOf(w: Wiring, ds: seq<PrebuiltDatagram>, h: Handler, arrivals: seq<Option<nat>>, limit: nat)
    : (Handler, bool)
    requires Arriving(|ds|, arrivals)
  {
    var e := RunOver(w, h, Deliveries(ds, arrivals), limit);
    (e.handler, !e.failed)
  }

  lemma RunWaits(w: Wiring, ds: seq<PrebuiltDatagram>, h: Handler, arrivals: seq<Option<nat>>, limit: nat)
    requires Arriving(|ds|, arrivals) && arrivals != [] && arrivals[0].None?
    ensures ResultOf(w, ds, h, arrivals, limit) == ResultOf(w, ds, h, arrivals[1..], limit)
  {
    assert Deliveries(ds, arrivals)[1..] == Deliveries(ds, arrivals[1..]);
  }

  /** A run is its first delivery, and unless that failed, a run over the rest. */
  lemma RunDelivers(w: Wiring, ds: seq<PrebuiltDatagram>, h: Handler, arrivals: seq<Option<nat>>, limit: nat)
    requires Arriving(|ds|, arrivals) && arrivals != [] && arrivals[0].Some? && limit > 0
    ensures var r := Deliver(w, h, ds[arrivals[0].value].bytes);
            ResultOf(w, ds, h, arrivals, limit) == if r.1 then ResultOf(w, ds, r.0, arrivals[1..], limit - 1) else r
  {
    assert Deliveries(ds, arrivals)[1..] == Deliveries(ds, arrivals[1..]);
  }

  /** So it ends where the rest ends, or is stuck where the delivery is. */
  lemma RunEndsWithRest(w: Wiring, ms: seq<Bytes>, ds: seq<PrebuiltDatagram>, h: Handler, arrivals: seq<Option<nat>>,
                        limit: nat, from: nat, to: nat)
    requires Arriving(|ds|, arrivals) && arrivals != [] && arrivals[0].Some? && limit > 0
    requires var r := Deliver(w, h, ds[arrivals[0].value].bytes);
             if r.1 then Ends(w, ms, ResultOf(w, ds, r.0, arrivals[1..], limit - 1), from, to)
             else Stuck(w, ms, r.0, from, to)
    ensures Ends(w, ms, ResultOf(w, ds, h, arrivals, limit), from, to)
  {
    RunDelivers(w, ds, h, arrivals, limit);
  }

  lemma {:induction false} RunCatchesUp(w: Wiring, file: Bytes, ms: seq<Bytes>, ds: seq<PrebuiltDatagram>,
                                        session: Session, starts: seq<nat>, h: Handler, from: nat, to: nat,
                                        arrivals: seq<Option<nat>>, limit: nat)
    requires Feed(ms, file) && RecoversFrom(w, file) && AllCarrying(ds, session, ms, starts) && Arriving(|ds|, arrivals)
    requires Caught(w, ms, h, from, to)
    ensures Ends(w, ms, ResultOf(w, ds, h, arrivals, limit), from, Reach(starts, arrivals, to, limit))
    decreases |arrivals|
  {
    if arrivals == [] || limit == 0 {
    } else if arrivals[0].None? {
      RunWaits(w, ds, h, arrivals, limit);
      RunCatchesUp(w, file, ms, ds, session, starts, h, from, to, arrivals[1..], limit);
    } else {
      var rest, further := arrivals[1..], Max(to, starts[arrivals[0].value + 1]);
      DeliverCatchesUp(w, file, ms, ds, session, starts, h, from, to, arrivals[0].value);
      var r := Deliver(w, h, ds[arrivals[0].value].bytes);
      if r.1 {
        RunCatchesUp(w, file, ms, ds, session, starts, r.0, from, further, rest, limit - 1);
      } else {
        StuckEarlier(w, ms, r.0, from, further, Reach(starts, rest, further, limit - 1));
      }
      RunEndsWithRest(w, ms, ds, h, arrivals, limit, from, Reach(starts, rest, further, limit - 1));
    }
  }

  /** The first datagram that arrives. */
  function FirstArrival(arrivals: seq<Option<nat>>): Option<nat> {
    if arrivals == [] then None
    else if arrivals[0].Some? then arrivals[0]
    else FirstArrival(arrivals[1..])
  }

  /** A run that begins with a datagram. */
  lemma BeginsAndCatchesUp(w: Wiring, file: Bytes, ms: seq<Bytes>, ds: seq<PrebuiltDatagram>, session: Session,
                           starts: seq<nat>, h: Handler, arrivals: seq<Option<nat>>, limit: nat)
    requires Feed(ms, file) && RecoversFrom(w, file) && AllCarrying(ds, session, ms, starts) && Arriving(|ds|, arrivals)
    requires !h.hasSequence && h.applied == [] && limit > 0 && arrivals != [] && arrivals[0].Some?
    ensures Ends(w, ms, ResultOf(w, ds, h, arrivals, limit), starts[arrivals[0].value],
                 Reach(starts, arrivals, 0, limit))
  {
    var rest, k := arrivals[1..], arrivals[0].value;
    var from, to := starts[k], starts[k + 1];
    DeliverBegins(w, file, ms, ds, session, starts, h, k);
    var r, reach := Deliver(w, h, ds[k].bytes), Reach(starts, rest, to, limit - 1);
    if r.1 {
      RunCatchesUp(w, file, ms, ds, session, starts, r.0, from, to, rest, limit - 1);
    } else {
      StuckEarlier(w, ms, r.0, from, to, reach);
    }
    RunEndsWithRest(w, ms, ds, h, arrivals, limit, from, reach);
    assert reach == Reach(starts, arrivals, 0, limit);
  }

  /** What a run over any arrivals of the packed datagrams leaves behind. */
  lemma {:induction false} AnyArrivals(w: Wiring, file: Bytes, ms: seq<Bytes>, ds: seq<PrebuiltDatagram>,
                                       session: Session, starts: seq<nat>, h: Handler, arrivals: seq<Option<nat>>,
                                       limit: nat)
    requires Feed(ms, file) && RecoversFrom(w, file) && AllCarrying(ds, session, ms, starts) && Arriving(|ds|, arrivals)
    requires !h.hasSequence && h.applied == [] && limit > 0
    ensures match FirstArrival(arrivals)
            case None => ResultOf(w, ds, h, arrivals, limit) == (h, true)
            case Some(k) =>
              k < |ds| && Ends(w, ms, ResultOf(w, ds, h, arrivals, limit), starts[k], Reach(starts, arrivals, 0, limit))
    decreases |arrivals|
  {
    if arrivals == [] {
    } else if arrivals[0].None? {
      RunWaits(w, ds, h, arrivals, limit);
      AnyArrivals(w, file, ms, ds, session, starts, h, arrivals[1..], limit);
    } else {
      BeginsAndCatchesUp(w, file, ms, ds, session, starts, h, arrivals, limit);
    }
  }

  /** The furthest arrival lies beyond where the first one begins. */
  lemma {:induction false} ReachCovers(ms: seq<Bytes>, ds: seq<PrebuiltDatagram>, session: Session, starts: seq<nat>,
                                       arrivals: seq<Option<nat>>, limit: nat)
    requires AllCarrying(ds, session, ms, starts) && Arriving(|ds|, arrivals)
    requires limit > 0 && FirstArrival(arrivals).Some?
    ensures FirstArrival(arrivals).value < |ds|
    ensures starts[FirstArrival(arrivals).value] < Reach(starts, arrivals, 0, limit)
    decreases |arrivals|
  {
    if arrivals[0].None? {
      ReachCovers(ms, ds, session, starts, arrivals[1..], limit);
    } else {
      assert Carrying(ds, session, ms, starts, arrivals[0].value);
    }
  }

  lemma {:induction false} ReachWithin(ms: seq<Bytes>, ds: seq<PrebuiltDatagram>, session: Session, starts: seq<nat>,
                                       arrivals: seq<Option<nat>>, to: nat, limit: nat)
    requires AllCarrying(ds, session, ms, starts) && Arriving(|ds|, arrivals) && to <= |ms|
    ensures Reach(starts, arrivals, to, limit) <= |ms|
    decreases |arrivals|
  {
    if arrivals == [] || limit == 0 {
    } else if arrivals[0].None? {
      ReachWithin(ms, ds, session, starts, arrivals[1..], to, limit);
    } else {
      var k := arrivals[0].value;
      assert Carrying(ds, session, ms, starts, k);
      ReachWithin(ms, ds, session, starts, arrivals[1..], Max(to, starts[k + 1]), limit - 1);
    }
  }

  // ----- The main results -----

  /** The records from..to-1, decoded: what the market state would be fed from the file itself. */
  function DecodedSlice(w: Wiring, ms: seq<Bytes>, from: nat, to: nat): seq<Message> {
    if from <= to <= |ms| then seq(to - from, i requires 0 <= i < to - from => MessageOf(w, ms[from + i])) else []
  }

  /** Where the records decode, message by message: what they decode to, and applied under their numbers. */
  lemma SliceMeans(w: Wiring, ms: seq<Bytes>, from: nat, to: nat)
    requires from <= to <= |ms| && AllDecode(w, ms, from, to)
    ensures |DecodedSlice(w, ms, from, to)| == |AppliedSlice(w, ms, from, to)| == to - from
    ensures forall i | 0 <= i < to - from ::
              && w.dispatch(ms[from + i]) == Some(DecodedSlice(w, ms, from, to)[i])
              && AppliedSlice(w, ms, from, to)[i] == Applied(from + 1 + i, DecodedSlice(w, ms, from, to)[i])
  {
    var decoded, applied := DecodedSlice(w, ms, from, to), AppliedSlice(w, ms, from, to);
    forall i | 0 <= i < to - from
      ensures w.dispatch(ms[from + i]) == Some(decoded[i]) && applied[i] == Applied(from + 1 + i, decoded[i])
    {
      DecodesAt(w, ms, from, to, from + i);
    }
  }

  lemma DecodesAt(w: Wiring, ms: seq<Bytes>, from: nat, to: nat, k: nat)
    requires from <= k < to <= |ms| && AllDecode(w, ms, from, to)
    ensures w.dispatch(ms[k]) == Some(MessageOf(w, ms[k]))
  {
  }

  /** The messages of what was applied, as the market state sees them. */
  function MessagesOf(applied: seq<Applied>): seq<Message> {
    seq(|applied|, i requires 0 <= i < |applied| => applied[i].message)
  }

  /** Where the first datagram that arrives begins. */
  ghost function Begin(starts: seq<nat>, arrivals: seq<Option<nat>>): nat {
    var k := FirstArrival(arrivals).GetOr(0);
    if k < |starts| then starts[k] else 0
  }

  /** Loss transparency.  Whatever is lost, repeated or reordered, what is applied is exactly the file's
      records from the first datagram that arrived to the furthest one; unless a record among them cannot
      be decoded, and then exactly those before it. */
  lemma LossIsInvisible(w: Wiring, file: Bytes, requested: nat, session: Session, ds: seq<PrebuiltDatagram>,
                        arrivals: seq<Option<nat>>, limit: nat)
    requires Packed(file, requested, session, ds) && RecoversFrom(w, file) && Arriving(|ds|, arrivals)
    requires FirstArrival(arrivals).Some? && limit > 0
    ensures var ms := RecordsRead(file, requested);
            var e := RunOver(w, Started([]), Deliveries(ds, arrivals), limit);
            var from, to := Begin(Starts(ms), arrivals), Reach(Starts(ms), arrivals, 0, limit);
            from < to <= |ms| && Ends(w, ms, (e.handler, !e.failed), from, to)
  {
    var ms := RecordsRead(file, requested);
    PackedCarries(file, requested, session, ds);
    AnyArrivals(w, file, ms, ds, session, Starts(ms), Started([]), arrivals, limit);
    ReachCovers(ms, ds, session, Starts(ms), arrivals, limit);
    ReachWithin(ms, ds, session, Starts(ms), arrivals, 0, limit);
  }

  /** The handler fails if and only if one of the records it would apply cannot be decoded. */
  lemma FailsIffUndecodable(w: Wiring, file: Bytes, requested: nat, session: Session, ds: seq<PrebuiltDatagram>,
                            arrivals: seq<Option<nat>>, limit: nat)
    requires Packed(file, requested, session, ds) && RecoversFrom(w, file) && Arriving(|ds|, arrivals)
    requires FirstArrival(arrivals).Some? && limit > 0
    ensures var ms := RecordsRead(file, requested);
            var from, to := Begin(Starts(ms), arrivals), Reach(Starts(ms), arrivals, 0, limit);
            from <= to <= |ms|
            && (RunOver(w, Started([]), Deliveries(ds, arrivals), limit).failed <==> !AllDecode(w, ms, from, to))
  {
    LossIsInvisible(w, file, requested, session, ds, arrivals, limit);
  }

  // ----- With the objects themselves -----

  /** A handler wired to a recovery source: it is answered what `Recover` returns for its index and file. */
  function WiredTo(dispatch: Dispatch, index: Index, file: Bytes): Wiring {
    Wiring(dispatch, (request: nat, from: nat, to: nat) => Reply(index, file, from, to))
  }

  lemma WiredRecovers(dispatch: Dispatch, index: Index, file: Bytes, interval: nat)
    requires Describes(index, file, interval) && |file| <= MAX_OFFSET
    ensures RecoversFrom(WiredTo(dispatch, index, file), file)
  {
    var w := WiredTo(dispatch, index, file);
    forall request: nat, from: nat, to: nat | from < TWO_64 && to < TWO_64
      ensures w.source(request, from, to) == Answer(file, from, to)
    {
      DescribedAnswers(index, file, interval, from, to);
    }
  }

  lemma AppliedMessages(w: Wiring, ms: seq<Bytes>, from: nat, to: nat)
    requires from <= to <= |ms|
    ensures MessagesOf(AppliedSlice(w, ms, from, to)) == DecodedSlice(w, ms, from, to)
  {
  }

  /** Room for a run is room for its beginnings. */
  lemma {:induction false} RoomForPrefix(s: Reference.State, ms: seq<Message>, n: nat, capacity: nat)
    requires n <= |ms| && Reference.RunHasRoom(s, ms, capacity)
    ensures Reference.RunHasRoom(s, ms[..n], capacity)
    decreases n
  {
    if n == 0 {
    } else {
      assert ms[..n][0] == ms[0] && ms[..n][1..] == ms[1..][..n - 1];
      RoomForPrefix(Reference.Apply(s, ms[0]), ms[1..], n - 1, capacity);
    }
  }

  /** Up to `end` the records were applied: all of them, or those before one that cannot be decoded. */
  ghost predicate AppliedTo(w: Wiring, ms: seq<Bytes>, e: Ending, from: nat, to: nat, end: nat) {
    && from <= end <= to <= |ms| && e.handler.applied == AppliedSlice(w, ms, from, end) && AllDecode(w, ms, from, end)
    && (if e.failed then end < to && w.dispatch(ms[end]).None? else end == to)
  }

  lemma EndOf(w: Wiring, ms: seq<Bytes>, e: Ending, from: nat, to: nat) returns (end: nat)
    requires from < to <= |ms| && Ends(w, ms, (e.handler, !e.failed), from, to)
    ensures AppliedTo(w, ms, e, from, to, end)
  {
    if e.failed {
      end :| end < to && StuckAt(w, ms, e.handler, from, end);
    } else {
      end := to;
    }
  }

  /** What was applied is a beginning of the slice, so room for the slice is room for it. */
  lemma RoomForApplied(w: Wiring, ms: seq<Bytes>, e: Ending, from: nat, to: nat, end: nat, s: Reference.State,
                       capacity: nat)
    requires AppliedTo(w, ms, e, from, to, end) && Reference.RunHasRoom(s, DecodedSlice(w, ms, from, to), capacity)
    ensures MessagesOf(e.handler.applied) == DecodedSlice(w, ms, from, end)
    ensures Reference.RunHasRoom(s, DecodedSlice(w, ms, from, end), capacity)
  {
    AppliedMessages(w, ms, from, end);
    RoomForPrefix(s, DecodedSlice(w, ms, from, to), end - from, capacity);
    assert DecodedSlice(w, ms, from, to)[..end - from] == DecodedSlice(w, ms, from, end);
  }

  /** A handler wired to a source, run over these deliveries. */
  method RunHandler(w: Wiring, deliveries: seq<Option<Bytes>>, limit: nat)
    returns (handler: MoldItchFeedHandler, applied: seq<Message>)
    ensures fresh(handler)
    ensures var e := RunOver(w, Started([]), deliveries, limit);
            && applied == MessagesOf(e.handler.applied)
            && handler.Snapshot() == e.handler
            && (if e.failed then handler.state.Failed? else handler.state.Stopped?)
  {
    handler := new MoldItchFeedHandler(w);
    handler.Start(deliveries, limit);
    applied := MessagesOf(handler.applied);
  }

  /** From state `before` the market state was fed the records from..end-1 and nothing else. */
  ghost predicate Fed(w: Wiring, ms: seq<Bytes>, failed: bool, from: nat, to: nat, before: Reference.State,
                      after: Reference.State, end: nat) {
    && from <= end <= to <= |ms| && AllDecode(w, ms, from, end)
    && (if failed then end < to && w.dispatch(ms[end]).None? else end == to)
    && after == Reference.Run(before, DecodedSlice(w, ms, from, end))
  }

  /** The pipeline on its objects: a recovery source with a ready index of the file, a feed handler wired
      to it, and a market state that takes what the handler applies.  Whatever arrives of the packed
      datagrams, the market state ends valid, and as the reference run over the file's own records from the
      first datagram that arrived to the furthest one, or to the first record that cannot be decoded.
      Nothing the market state does reaches the handler, so it can be fed behind it. */
  method RunPipeline(source: FileMoldItchRecoverySource, dispatch: Dispatch, ghost requested: nat,
                     ghost session: Session, ds: seq<PrebuiltDatagram>, arrivals: seq<Option<nat>>, limit: nat,
                     market: ItchMarketState)
    returns (handler: MoldItchFeedHandler)
    requires source.Valid() && source.indexReady && Describes(source.TheIndex(), source.file, source.checkpointInterval)
    requires Packed(source.file, requested, session, ds) && Arriving(|ds|, arrivals)
    requires FirstArrival(arrivals).Some? && limit > 0
    requires market.Valid() && source as object !in market.Repr
    requires var w, ms := WiredTo(dispatch, source.TheIndex(), source.file), RecordsRead(source.file, requested);
             var from, to := Begin(Starts(ms), arrivals), Reach(Starts(ms), arrivals, 0, limit);
             Reference.RunHasRoom(market.Snapshot(), DecodedSlice(w, ms, from, to), market.orders.slots.Length)
    modifies market.Repr
    ensures market.Valid() && (handler.state.Stopped? || handler.state.Failed?)
    ensures var w, ms := WiredTo(dispatch, source.TheIndex(), source.file), RecordsRead(source.file, requested);
            var from, to := Begin(Starts(ms), arrivals), Reach(Starts(ms), arrivals, 0, limit);
            exists end :: Fed(w, ms, handler.state.Failed?, from, to, old(market.Snapshot()), market.Snapshot(), end)
  {
    var w, deliveries := WiredTo(dispatch, source.TheIndex(), source.file), Deliveries(ds, arrivals);
    ghost var ms := RecordsRead(source.file, requested);
    ghost var from, to := Begin(Starts(ms), arrivals), Reach(Starts(ms), arrivals, 0, limit);
    ghost var end;
    end := PipelineEnd(dispatch, source.TheIndex(), source.file, source.checkpointInterval, requested, session, ds,
                       arrivals, limit, market.Snapshot(), market.orders.slots.Length);
    var applied;
    handler, applied := RunHandler(w, deliveries, limit);
    market.OnMessages(applied);
    assert Fed(w, ms, handler.state.Failed?, from, to, old(market.Snapshot()), market.Snapshot(), end);
  }

  lemma PipelineEnd(dispatch: Dispatch, index: Index, file: Bytes, interval: nat, requested: nat, session: Session,
                    ds: seq<PrebuiltDatagram>, arrivals: seq<Option<nat>>, limit: nat, s: Reference.State,
                    capacity: nat)
    returns (end: nat)
    requires Describes(index, file, interval) && |file| <= MAX_OFFSET
    requires Packed(file, requested, session, ds) && Arriving(|ds|, arrivals)
    requires FirstArrival(arrivals).Some? && limit > 0
    requires var w, ms := WiredTo(dispatch, index, file), RecordsRead(file, requested);
             var from, to := Begin(Starts(ms), arrivals), Reach(Starts(ms), arrivals, 0, limit);
             Reference.RunHasRoom(s, DecodedSlice(w, ms, from, to), capacity)
    ensures var w, ms := WiredTo(dispatch, index, file), RecordsRead(file, requested);
            var from, to := Begin(Starts(ms), arrivals), Reach(Starts(ms), arrivals, 0, limit);
            var e := RunOver(w, Started([]), Deliveries(ds, arrivals), limit);
            && AppliedTo(w, ms, e, from, to, end)
            && MessagesOf(e.handler.applied) == DecodedSlice(w, ms, from, end)
            && Reference.RunHasRoom(s, DecodedSlice(w, ms, from, end), capacity)
  {
    var w, ms := WiredTo(dispatch, index, file), RecordsRead(file, requested);
    var from, to := Begin(Starts(ms), arrivals), Reach(Starts(ms), arrivals, 0, limit);
    WiredRecovers(dispatch, index, file, interval);
    LossIsInvisible(w, file, requested, session, ds, arrivals, limit);
    var e := RunOver(w, Started([]), Deliveries(ds, arrivals), limit);
    end := EndOf(w, ms, e, from, to);
    RoomForApplied(w, ms, e, from, to, end, s, capacity);
  }
}
