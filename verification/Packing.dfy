/** The load generator's packing of BinaryFILE records into MoldUDP64 datagrams. */
module Packing {
  import opened MarketTypes
  import opened Wire
  import opened Codec
  import opened BinaryFile

  /** A finished datagram: the bytes to send, with the fields kept beside them. */
  datatype PrebuiltDatagram = PrebuiltDatagram(bytes: Bytes, firstSequence: Sequence, messageCount: nat)

  // ----- The specification: groups of consecutive messages -----

  /** Whether these messages fit one datagram. */
  ghost predicate Fits(ms: seq<Bytes>) {
    AllFramable(ms) && HEADER_SIZE + |Blocks(ms)| <= MAX_DATAGRAM_SIZE
  }

  /** Whether a message fits a datagram of its own. */
  predicate SmallEnough(m: Bytes) {
    HEADER_SIZE + 2 + |m| <= MAX_DATAGRAM_SIZE
  }

  ghost predicate AllSmall(ms: seq<Bytes>) {
    forall i | 0 <= i < |ms| :: SmallEnough(ms[i])
  }

  function Flatten(groups: seq<seq<Bytes>>): seq<Bytes> {
    if groups == [] then [] else groups[0] + Flatten(groups[1..])
  }

  /** How many of the messages, from the first on and beyond `n`, fit one datagram. */
  ghost function LongestFrom(ms: seq<Bytes>, n: nat): (r: nat)
    requires n <= |ms|
    ensures n <= r <= |ms|
    decreases |ms| - n
  {
    if n < |ms| && Fits(ms[..n + 1]) then LongestFrom(ms, n + 1) else n
  }

  /** Each datagram takes as many messages as fit. */
  ghost function Greedy(ms: seq<Bytes>): seq<seq<Bytes>>
    requires AllSmall(ms)
    decreases |ms|
  {
    if ms == [] then []
    else
      var n := LongestFrom(ms, 0);
      if n == 0 then [] else [ms[..n]] + Greedy(ms[n..])
  }

  lemma BlockSizes(ms: seq<Bytes>, m: Bytes)
    requires AllFramable(ms) && Framable(m)
    ensures |Blocks(ms + [m])| == |Blocks(ms)| + 2 + |m|
  {
    BlocksConcat(ms, [m]);
    assert Blocks([m]) == Block(m) by {
      assert [m][1..] == [];
    }
  }

  /** Whether a message fits a datagram of its own is whether it fits one alone: at most 1400 bytes with the
      header and its length. */
  lemma SmallIffFits(m: Bytes)
    ensures SmallEnough(m) <==> Fits([m])
    ensures SmallEnough(m) <==> 20 + 2 + |m| <= 1400
  {
    if Framable(m) {
      BlockSizes([], m);
      assert [] + [m] == [m];
    } else {
      assert !Framable([m][0]);
    }
  }

  lemma OneFits(m: Bytes)
    requires SmallEnough(m)
    ensures Framable(m) && Fits([m])
  {
    SmallIffFits(m);
  }

  /** All of the messages are small exactly if each alone fits. */
  lemma AllSmallMeans(ms: seq<Bytes>)
    ensures AllSmall(ms) <==> forall i | 0 <= i < |ms| :: Fits([ms[i]])
  {
    forall i | 0 <= i < |ms|
      ensures SmallEnough(ms[i]) <==> Fits([ms[i]])
    {
      SmallIffFits(ms[i]);
    }
  }

  /** A part of what fits, fits. */
  lemma PartFits(a: seq<Bytes>, b: seq<Bytes>)
    requires Fits(a + b)
    ensures Fits(a) && Fits(b)
  {
    assert forall i | 0 <= i < |a| :: (a + b)[i] == a[i];
    assert forall i | 0 <= i < |b| :: (a + b)[|a| + i] == b[i];
    BlocksConcat(a, b);
  }

  /** Every prefix up to the longest fits, and no longer one does. */
  lemma {:induction false} LongestIs(ms: seq<Bytes>, n: nat)
    requires n <= |ms| && Fits(ms[..n])
    ensures Fits(ms[..LongestFrom(ms, n)])
    ensures forall k | n <= k <= |ms| && Fits(ms[..k]) :: k <= LongestFrom(ms, n)
    decreases |ms| - n
  {
    if n < |ms| && Fits(ms[..n + 1]) {
      LongestIs(ms, n + 1);
    } else {
      forall k | n <= k <= |ms| && Fits(ms[..k])
        ensures k <= n
      {
        if k > n {
          assert ms[..k] == ms[..n + 1] + ms[n + 1..k];
          PartFits(ms[..n + 1], ms[n + 1..k]);
        }
      }
    }
  }

  lemma FirstGroup(ms: seq<Bytes>) returns (n: nat)
    requires AllSmall(ms) && ms != []
    ensures n == LongestFrom(ms, 0) && 0 < n <= |ms| && Fits(ms[..n])
    ensures forall k | 0 <= k <= |ms| && Fits(ms[..k]) :: k <= n
  {
    n := LongestFrom(ms, 0);
    assert ms[..0] == [];
    LongestIs(ms, 0);
    OneFits(ms[0]);
    assert ms[..1] == [ms[0]];
  }

  /** Messages that fit form the last group of their own. */
  lemma LastGroup(ms: seq<Bytes>)
    requires AllSmall(ms) && Fits(ms)
    ensures Greedy(ms) == if ms == [] then [] else [ms]
  {
    if ms != [] {
      var n := FirstGroup(ms);
      assert ms[..|ms|] == ms;
    }
  }

  /** A group is closed when the next message does not fit behind it. */
  lemma CloseGroup(group: seq<Bytes>, rest: seq<Bytes>)
    requires group != [] && rest != [] && AllSmall(group + rest)
    requires Fits(group) && !Fits(group + [rest[0]])
    ensures AllSmall(rest) && Greedy(group + rest) == [group] + Greedy(rest)
  {
    var ms := group + rest;
    forall i | 0 <= i < |rest|
      ensures SmallEnough(rest[i])
    {
      assert rest[i] == ms[|group| + i];
    }
    var n := FirstGroup(ms);
    assert ms[..|group|] == group && ms[|group|..] == rest;
    if n > |group| {
      assert ms[..n] == (group + [rest[0]]) + ms[|group| + 1..n];
      PartFits(group + [rest[0]], ms[|group| + 1..n]);
    }
  }

  // ----- What greedy packing guarantees -----

  ghost predicate Packable(group: seq<Bytes>) {
    group != [] && Fits(group) && |group| <= 460
  }

  /** At most 460 messages fit: a block takes at least three bytes. */
  lemma {:induction false} BlocksTakeThree(ms: seq<Bytes>)
    requires AllPayloads(ms)
    ensures 3 * |ms| <= |Blocks(ms)|
  {
    if ms == [] {
    } else {
      BlocksTakeThree(ms[1..]);
    }
  }

  /** Nothing is lost, reordered or repeated, and every group is a non-empty datagram's worth. */
  lemma {:induction false} GreedyPacks(ms: seq<Bytes>)
    requires AllSmall(ms) && AllPayloads(ms)
    ensures Flatten(Greedy(ms)) == ms
    ensures forall g <- Greedy(ms) :: Packable(g)
    decreases |ms|
  {
    if ms == [] {
    } else {
      var n := FirstGroup(ms);
      GreedyPacks(ms[n..]);
      BlocksTakeThree(ms[..n]);
      assert ms == ms[..n] + ms[n..];
    }
  }

  /** Greedy packing of what is left from `j` on needs no more datagrams than any packing of what is left
      from an earlier `i` on. */
  lemma {:induction false} GreedyStaysAhead(ms: seq<Bytes>, i: nat, j: nat, groups: seq<seq<Bytes>>)
    requires AllSmall(ms) && i <= j <= |ms|
    requires Flatten(groups) == ms[i..] && forall g <- groups :: Fits(g)
    ensures |Greedy(ms[j..])| <= |groups|
    decreases |groups|
  {
    if j == |ms| {
    } else {
      var end := SplitGroup(ms, i, groups);
      if end <= j {
        GreedyStaysAhead(ms, end, j, groups[1..]);
      } else {
        var n := FirstGroup(ms[j..]);
        FirstReachesFurther(ms, i, j, end, n);
        GreedyStaysAhead(ms, end, j + n, groups[1..]);
      }
    }
  }

  /** The first of the groups, and the groups behind it. */
  lemma SplitGroup(ms: seq<Bytes>, i: nat, groups: seq<seq<Bytes>>) returns (end: nat)
    requires i < |ms| && Flatten(groups) == ms[i..]
    ensures groups != [] && i <= end <= |ms| && groups[0] == ms[i..end] && Flatten(groups[1..]) == ms[end..]
  {
    end := i + |groups[0]|;
    assert |ms[i..]| == |groups[0]| + |Flatten(groups[1..])|;
    assert groups[0] == ms[i..][..|groups[0]|];
    assert Flatten(groups[1..]) == ms[i..][|groups[0]|..];
  }

  /** A greedy group that starts later reaches at least as far as any group that fits. */
  lemma FirstReachesFurther(ms: seq<Bytes>, i: nat, j: nat, end: nat, n: nat)
    requires AllSmall(ms) && i <= j < end <= |ms| && Fits(ms[i..end])
    requires n <= |ms[j..]| && forall k | 0 <= k <= |ms[j..]| && Fits(ms[j..][..k]) :: k <= n
    ensures end <= j + n <= |ms| && ms[j..][n..] == ms[j + n..]
  {
    assert ms[i..end] == ms[i..j] + ms[j..][..end - j];
    PartFits(ms[i..j], ms[j..][..end - j]);
  }

  /** No in-order packing of the same messages uses fewer datagrams. */
  lemma GreedyIsMinimal(ms: seq<Bytes>, groups: seq<seq<Bytes>>)
    requires AllSmall(ms) && Flatten(groups) == ms && forall g <- groups :: Fits(g)
    ensures |Greedy(ms)| <= |groups|
  {
    assert ms[0..] == ms;
    GreedyStaysAhead(ms, 0, 0, groups);
  }

  // ----- Packing message by message -----

  /** Group `i` fits, and the group before it could not have taken its first message as well. */
  ghost predicate TightAt(groups: seq<seq<Bytes>>, i: nat)
    requires i < |groups|
  {
    && groups[i] != [] && Fits(groups[i])
    && (i > 0 ==> !Fits(groups[i - 1] + [groups[i][0]]))
  }

  ghost predicate Tight(groups: seq<seq<Bytes>>) {
    forall i {:trigger TightAt(groups, i)} | 0 <= i < |groups| :: TightAt(groups, i)
  }

  /** That is what greedy packing does, so a loop that keeps its groups tight packs greedily. */
  lemma {:induction false} TightIsGreedy(groups: seq<seq<Bytes>>)
    requires Tight(groups) && AllSmall(Flatten(groups))
    ensures Greedy(Flatten(groups)) == groups
  {
    if groups == [] {
    } else {
      assert TightAt(groups, 0);
    }
    if |groups| == 1 {
      assert Flatten(groups) == groups[0] by { assert groups[1..] == []; }
      LastGroup(groups[0]);
    } else if |groups| > 1 {
      var g, rest := groups[0], groups[1..];
      forall i | 0 <= i < |rest|
        ensures TightAt(rest, i)
      {
        var k := i + 1;
        assert TightAt(groups, k);
      }
      assert TightAt(rest, 0) && TightAt(groups, 1);
      assert Flatten(rest)[0] == rest[0][0];
      CloseGroup(g, Flatten(rest));
      TightIsGreedy(rest);
    }
  }

  /** The finished groups, and the open one if anything is in it. */
  function GroupsOf(finished: seq<seq<Bytes>>, pending: seq<Bytes>): seq<seq<Bytes>> {
    if pending == [] then finished else finished + [pending]
  }

  /** Taking one more message into the open group, or opening the next one with it. */
  lemma PlaceKeepsTight(finished: seq<seq<Bytes>>, pending: seq<Bytes>, m: Bytes)
    requires Tight(GroupsOf(finished, pending)) && SmallEnough(m) && (pending == [] ==> finished == [])
    ensures if Fits(pending + [m]) then Tight(GroupsOf(finished, pending + [m]))
            else pending != [] && Tight(GroupsOf(finished + [pending], [m]))
  {
    OneFits(m);
    assert [] + [m] == [m];
    if pending != [] {
      TightWithout(finished, pending);
      if Fits(pending + [m]) {
        TightWith(finished, pending, pending + [m]);
      } else {
        TightWith(finished + [pending], [m], [m]);
      }
    } else {
      TightWith([], [m], [m]);
    }
  }

  lemma TightWithout(finished: seq<seq<Bytes>>, last: seq<Bytes>)
    requires Tight(finished + [last])
    ensures Tight(finished) && last != [] && Fits(last)
    ensures finished != [] ==> !Fits(finished[|finished| - 1] + [last[0]])
  {
    var groups, n := finished + [last], |finished|;
    assert TightAt(groups, n) && groups[n] == last && (n > 0 ==> groups[n - 1] == finished[n - 1]);
    forall i | 0 <= i < n
      ensures TightAt(finished, i)
    {
      assert TightAt(groups, i) && groups[i] == finished[i] && (i > 0 ==> groups[i - 1] == finished[i - 1]);
    }
  }

  /** Only the head of the last group matters to the one before it. */
  lemma TightWith(finished: seq<seq<Bytes>>, last: seq<Bytes>, last': seq<Bytes>)
    requires Tight(finished) && last != [] && last' != [] && last[0] == last'[0] && Fits(last')
    requires finished != [] ==> !Fits(finished[|finished| - 1] + [last[0]])
    ensures Tight(finished + [last'])
  {
    var groups := finished + [last'];
    forall i | 0 <= i < |groups|
      ensures TightAt(groups, i)
    {
      if i < |finished| {
        assert TightAt(finished, i) && groups[i] == finished[i] && (i > 0 ==> groups[i - 1] == finished[i - 1]);
      } else {
        assert groups[i] == last' && (i > 0 ==> groups[i - 1] == finished[i - 1]);
      }
    }
  }

  lemma FlattenGroups(finished: seq<seq<Bytes>>, pending: seq<Bytes>)
    ensures Flatten(GroupsOf(finished, pending)) == Flatten(finished) + pending
  {
    FlattenAppend(finished, pending);
  }

  // ----- The datagrams of a packing -----

  /** `d` is the encoding of these messages from sequence number `first` on. */
  ghost predicate Carries(d: PrebuiltDatagram, session: Session, first: nat, ms: seq<Bytes>) {
    && AllFramable(ms) && |ms| <= MAX_U16 && first < TWO_64
    && d == PrebuiltDatagram(Encode(Packet(session, first, ms)), first, |ms|)
  }

  /** The sequence number after `groups`, the first message having sequence number 1. */
  function After(groups: seq<seq<Bytes>>): nat {
    1 + |Flatten(groups)|
  }

  /** Group by group, each datagram starting where the previous one ended. */
  ghost predicate PackedAs(ds: seq<PrebuiltDatagram>, session: Session, groups: seq<seq<Bytes>>) {
    && |ds| == |groups|
    && forall k | 0 <= k < |ds| :: Carries(ds[k], session, After(groups[..k]), groups[k])
  }

  lemma {:induction false} FlattenAppend(groups: seq<seq<Bytes>>, g: seq<Bytes>)
    ensures Flatten(groups + [g]) == Flatten(groups) + g
  {
    if groups == [] {
      assert [g][1..] == [];
    } else {
      FlattenAppend(groups[1..], g);
      assert (groups + [g])[1..] == groups[1..] + [g];
      assert groups[0] + (Flatten(groups[1..]) + g) == groups[0] + Flatten(groups[1..]) + g;
    }
  }

  lemma PackedAppend(ds: seq<PrebuiltDatagram>, session: Session, groups: seq<seq<Bytes>>, d: PrebuiltDatagram,
                     g: seq<Bytes>)
    requires PackedAs(ds, session, groups) && Carries(d, session, After(groups), g)
    ensures PackedAs(ds + [d], session, groups + [g])
  {
    forall k | 0 <= k < |ds + [d]|
      ensures Carries((ds + [d])[k], session, After((groups + [g])[..k]), (groups + [g])[k])
    {
      assert (groups + [g])[..k] == if k < |groups| then groups[..k] else groups;
    }
  }

  /** The k-th datagram decodes to the k-th group, its sequence number counting all messages before it. */
  lemma PackedDecodes(ds: seq<PrebuiltDatagram>, session: Session, groups: seq<seq<Bytes>>, k: nat)
    requires PackedAs(ds, session, groups) && k < |ds|
    ensures ds[k].firstSequence == After(groups[..k]) && ds[k].messageCount == |groups[k]|
    ensures Decode(ds[k].bytes) == Some(Packet(session, After(groups[..k]), groups[k]))
  {
    assert Carries(ds[k], session, After(groups[..k]), groups[k]);
    DecodeEncode(Packet(session, After(groups[..k]), groups[k]));
  }

  lemma GreedyOfSome(ms: seq<Bytes>)
    requires AllSmall(ms)
    ensures Greedy(ms) == [] <==> ms == []
  {
    if ms != [] {
      var n := FirstGroup(ms);
    }
  }

  // ----- The packing loop -----

  /** The local state of the packing loop that its two lambdas share. */
  class Packer {
    const session: Session
    const current: array<Byte>
    var currentSize: nat
    var currentFirst: Sequence
    var currentCount: nat
    var packetOpen: bool
    var nextSequence: nat
    var datagrams: seq<PrebuiltDatagram>

    /** The groups finished so far, and the messages of the open packet. */
    ghost var finished: seq<seq<Bytes>>
    ghost var pending: seq<Bytes>

    ghost predicate Valid()
      reads this, current
    {
      && current.Length == MAX_DATAGRAM_SIZE
      && PackedAs(datagrams, session, finished)
      && nextSequence == After(finished) + |pending|
      && (packetOpen ==> Open(current[..], currentSize, session, currentFirst, pending)
                         && currentFirst == After(finished) && currentCount == |pending|)
      && (!packetOpen ==> pending == [])
    }

    constructor (session: Session)
      ensures Valid() && fresh(current) && this.session == session
      ensures !packetOpen && nextSequence == 1 && datagrams == [] && finished == []
    {
      this.session := session;
      current := new Byte[MAX_DATAGRAM_SIZE](_ => 0);
      currentSize, currentFirst, currentCount, packetOpen := 0, 0, 0, false;
      nextSequence, datagrams, finished, pending := 1, [], [], [];
    }

    method BeginCurrentPacket(firstSequence: Sequence)
      requires Valid() && pending == [] && firstSequence == nextSequence
      modifies this`currentSize, this`currentFirst, this`currentCount, this`packetOpen, current
      ensures Valid() && packetOpen && currentCount == 0 && currentSize == HEADER_SIZE
    {
      currentFirst := firstSequence;
      currentCount := 0;
      currentSize := BeginPacket(session, firstSequence, current);
      packetOpen := true;
    }

    /** Closes the open packet, if it holds anything. */
    method FinalizeCurrentPacket()
      requires Valid() && |pending| <= MAX_U16
      modifies this, current
      ensures Valid() && pending == [] && nextSequence == old(nextSequence)
      ensures finished == if old(pending) == [] then old(finished) else old(finished) + [old(pending)]
      ensures old(pending) != [] ==> !packetOpen
    {
      if !packetOpen || currentCount == 0 {
        return;
      }
      FinalizedIsEncoded(current[..], currentSize, session, currentFirst, pending);
      FinalizePacket(current, currentCount);
      var done := PrebuiltDatagram(current[..currentSize], currentFirst, currentCount);
      PackedAppend(datagrams, session, finished, done, pending);
      FlattenAppend(finished, pending);
      datagrams := datagrams + [done];
      finished, pending := finished + [pending], [];
      currentSize, currentFirst, currentCount, packetOpen := 0, 0, 0, false;
    }

    /** Puts the next record into the open datagram, or closes that one and starts the next with it. */
    method Place(record: Bytes) returns (ok: bool)
      requires Valid() && 0 < |record| && SmallEnough(record) && nextSequence < TWO_64
      requires Fits(pending) && AllPayloads(pending)
      modifies this, current
      ensures Valid() && ok && nextSequence == old(nextSequence) + 1
      ensures if Fits(old(pending) + [record])
              then finished == old(finished) && pending == old(pending) + [record]
              else finished == GroupsOf(old(finished), old(pending)) && pending == [record]
    {
      BlockSizes(pending, record);
      BlocksTakeThree(pending);
      OneFits(record);
      if !packetOpen {
        BeginCurrentPacket(nextSequence);
      }
      var appended := Append(record);
      if !appended {
        if currentCount == 0 {
          return false;
        }
        FinalizeCurrentPacket();
        BeginCurrentPacket(nextSequence);
        assert [] + [record] == [record];
        appended := Append(record);
        if !appended {
          return false;
        }
      }
      return true;
    }

    /** Appends a record to the open packet if the codec takes it. */
    method Append(record: Bytes) returns (ok: bool)
      requires Valid() && packetOpen && 0 < |record| && Framable(record) && |pending| < MAX_U16
      modifies this`currentSize, this`currentCount, this`nextSequence, this`pending, current
      ensures Valid() && packetOpen
      ensures ok <==> Fits(old(pending) + [record])
      ensures pending == if ok then old(pending) + [record] else old(pending)
      ensures nextSequence == old(nextSequence) + |pending| - |old(pending)|
    {
      BlockSizes(pending, record);
      if currentSize + 2 + |record| <= MAX_DATAGRAM_SIZE {
        AppendKeepsOpen(current[..], currentSize, session, currentFirst, pending, record);
      }
      ok, currentSize, currentCount := AppendMessage(record, current, currentSize, currentCount);
      if ok {
        pending, nextSequence := pending + [record], nextSequence + 1;
      }
    }

    /** What the loop keeps: the groups are tight, and hold exactly the messages `ms` read so far. */
    ghost predicate Holding(ms: seq<Bytes>)
      reads this, current
    {
      && Valid()
      && nextSequence == |ms| + 1
      && Flatten(finished) + pending == ms
      && Tight(GroupsOf(finished, pending))
      && AllSmall(ms)
      && Fits(pending) && AllPayloads(pending)
      && (pending == [] ==> finished == [])
    }

    /** One round of the packing loop. */
    method Take(record: Bytes, ghost ms: seq<Bytes>) returns (ok: bool)
      requires Holding(ms) && 0 < |record| && SmallEnough(record) && nextSequence < TWO_64
      modifies this, current
      ensures ok && Holding(ms + [record])
    {
      PlaceKeepsTight(finished, pending, record);
      FlattenGroups(finished, pending);
      OneFits(record);
      ok := Place(record);
      assert Flatten(finished) + pending == ms + [record];
    }

    /** The flush behind the loop leaves the greedy packing of everything read. */
    method Finish(ghost ms: seq<Bytes>)
      requires Holding(ms)
      modifies this, current
      ensures PackedAs(datagrams, session, Greedy(ms)) && (datagrams == [] <==> ms == [])
    {
      GreedyOfSome(ms);
      FlattenGroups(finished, pending);
      TightIsGreedy(GroupsOf(finished, pending));
      BlocksTakeThree(pending);
      FinalizeCurrentPacket();
    }
  }

  /** The records the generator reads: the first `requested`, or all there are. */
  function RecordsRead(file: Bytes, requested: nat): (rs: seq<Bytes>)
    ensures AllPayloads(rs)
  {
    var rs := Records(file, 0);
    if requested < |rs| then rs[..requested] else rs
  }

  /** They are the file's first records, `requested` of them or all. */
  lemma ReadsRequested(file: Bytes, requested: nat)
    ensures var rs, all := RecordsRead(file, requested), Records(file, 0);
            rs <= all && |rs| == if |all| < requested then |all| else requested
  {
  }

  lemma ReadOneMore(file: Bytes, requested: nat, k: nat)
    requires k < requested && k <= |RecordsRead(file, requested)|
    ensures var ms, at := RecordsRead(file, requested), OffsetOf(file, 0, k);
            && (MessageAt(file, at) <==> k < |ms|)
            && (k < |ms| ==> PayloadAt(file, at) == ms[k] && OffsetOf(file, 0, k + 1) == NextOffset(file, at))
            && (k < |ms| ==> ms[..k + 1] == ms[..k] + [ms[k]])
  {
    var ms, offset := RecordsRead(file, requested), 0;
    assert ms <= Records(file, offset) && (|ms| < requested ==> ms == Records(file, offset));
    RecordAt(file, offset, k);
    if k < |ms| {
      TakeOneMore(ms, k);
    }
  }

  lemma TakeOneMore(ms: seq<Bytes>, k: nat)
    requires k < |ms|
    ensures ms[..k + 1] == ms[..k] + [ms[k]]
  {
  }

  datatype Outcome = Taken | Over | Failed

  /** The first `k` records are packed, and the stream stands behind them or has nothing more. */
  ghost predicate PackedUpTo(reader: ItchStreamReader, packer: Packer, requested: nat, k: nat, over: bool)
    reads reader, packer, packer.current
  {
    var ms := RecordsRead(reader.file, requested);
    && k <= |ms| < TWO_64 - 1
    && packer.Holding(ms[..k])
    && (if over then k == |ms| else reader.position == OffsetOf(reader.file, 0, k))
  }

  lemma NothingRead(reader: ItchStreamReader, packer: Packer, requested: nat)
    requires reader.position == 0 && packer.Holding([]) && |Records(reader.file, 0)| < TWO_64 - 1
    ensures PackedUpTo(reader, packer, requested, 0, false)
  {
    assert RecordsRead(reader.file, requested)[..0] == [];
  }

  lemma AllRead(reader: ItchStreamReader, packer: Packer, requested: nat, k: nat, over: bool)
    requires PackedUpTo(reader, packer, requested, k, over) && (over || k >= requested)
    ensures packer.Holding(RecordsRead(reader.file, requested))
  {
    var ms := RecordsRead(reader.file, requested);
    assert ms[..k] == ms;
  }

  /** One turn of the loop: read a record and pack it, or find that there is none, or that it cannot
      fit any datagram. */
  method PackNext(reader: ItchStreamReader, packer: Packer, requested: nat, messagesRead: nat)
    returns (outcome: Outcome)
    requires messagesRead < requested && PackedUpTo(reader, packer, requested, messagesRead, false)
    modifies reader, packer, packer.current
    ensures !outcome.Failed? ==>
              PackedUpTo(reader, packer, requested, if outcome.Taken? then messagesRead + 1 else messagesRead,
                         outcome.Over?)
    ensures outcome.Failed? ==> !AllSmall(RecordsRead(reader.file, requested))
  {
    ghost var ms := RecordsRead(reader.file, requested);
    ReadOneMore(reader.file, requested, messagesRead);
    ghost var read := ms[..messagesRead];
    var record := reader.ReadNext();
    if !record.status.Message? {
      return Over;
    }
    if record.payload == [] || |record.payload| > MAX_U16 || HEADER_SIZE + 2 + |record.payload| > MAX_DATAGRAM_SIZE {
      assert !SmallEnough(ms[messagesRead]);
      return Failed;
    }
    var ok := packer.Take(record.payload, read);
    outcome := if ok then Taken else Failed;
  }

  /** The loop itself: everything is packed, or some record cannot fit. */
  method PackAll(reader: ItchStreamReader, packer: Packer, requested: nat) returns (ok: bool)
    requires reader.position == 0 && packer.Holding([]) && |Records(reader.file, 0)| < TWO_64 - 1
    modifies reader, packer, packer.current
    ensures ok ==> packer.Holding(RecordsRead(reader.file, requested))
    ensures !ok ==> !AllSmall(RecordsRead(reader.file, requested))
  {
    var messagesRead := 0;
    var finishedReading := false;
    NothingRead(reader, packer, requested);
    while messagesRead < requested && !finishedReading
      invariant PackedUpTo(reader, packer, requested, messagesRead, finishedReading)
      decreases requested - messagesRead, !finishedReading
    {
      var outcome := PackNext(reader, packer, requested, messagesRead);
      if outcome.Failed? {
        return false;
      }
      messagesRead := if outcome.Taken? then messagesRead + 1 else messagesRead;
      finishedReading := outcome.Over?;
    }
    AllRead(reader, packer, requested, messagesRead, finishedReading);
    return true;
  }

  /** Packs the file.  It fails if and only if there is nothing to send or some record cannot fit a
      datagram; otherwise the datagrams are those of the greedy packing. */
  method Pack(file: Bytes, requested: nat, session: Session) returns (r: Option<seq<PrebuiltDatagram>>)
    requires |file| <= MAX_OFFSET
    ensures var ms := RecordsRead(file, requested);
            && (r.Some? <==> ms != [] && AllSmall(ms))
            && (r.Some? <==> ms != [] && forall i | 0 <= i < |ms| :: Fits([ms[i]]))
            && (r.Some? ==> PackedAs(r.value, session, Greedy(ms)))
  {
    RecordsFit(file, 0);
    AllSmallMeans(RecordsRead(file, requested));
    var reader := new ItchStreamReader(file, 0);
    var packer := new Packer(session);
    var ok := PackAll(reader, packer, requested);
    if !ok {
      return None;
    }
    packer.Finish(RecordsRead(file, requested));
    if packer.datagrams == [] {
      return None;
    }
    return Some(packer.datagrams);
  }
}
