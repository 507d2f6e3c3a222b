/** Indexes that were accepted but written for another file: which requests they get right. */
module StaleIndex {
  import opened MarketTypes
  import opened Arithmetic
  import opened Wire
  import opened BinaryFile
  import opened IndexFile
  import opened SequenceRecovery
  import opened Recovery

  // ----- Extracting messages, one by one -----

  /** Message number `s`, counting the records from number `first` on, if there is one and a recovered message
      can hold it. */
  function Held(rs: seq<Bytes>, first: nat, s: nat): Option<Bytes> {
    if first <= s < first + |rs| && |rs[s - first]| <= MAX_PAYLOAD_SIZE then Some(rs[s - first]) else None
  }

  ghost predicate AllHeld(rs: seq<Bytes>, first: nat, from: nat, to: nat) {
    forall s: nat {:trigger Held(rs, first, s)} | from <= s < to :: Held(rs, first, s).Some?
  }

  lemma AllHeldIs(rs: seq<Bytes>, first: nat, from: nat, to: nat)
    requires first <= from < to
    ensures AllHeld(rs, first, from, to) <==>
            to - first <= |rs| && forall k | from - first <= k < to - first :: |rs[k]| <= MAX_PAYLOAD_SIZE
  {
    if AllHeld(rs, first, from, to) {
      assert Held(rs, first, to - 1).Some?;
      forall k | from - first <= k < to - first
        ensures |rs[k]| <= MAX_PAYLOAD_SIZE
      {
        assert Held(rs, first, first + k).Some?;
      }
    }
  }

  /** The request [from, to), made of records that are counted from number `first` on. */
  function Request(rs: seq<Bytes>, first: nat, from: nat, to: nat): Option<seq<SequencedMessage>>
    requires first <= from < to
  {
    Extract(rs, from - first, from, to - from)
  }

  /** It succeeds if and only if every message asked for is held, and returns exactly those. */
  lemma RequestIs(rs: seq<Bytes>, first: nat, from: nat, to: nat)
    requires first <= from < to
    ensures var r := Request(rs, first, from, to);
            && (r.Some? <==> AllHeld(rs, first, from, to))
            && (r.Some? ==> |r.value| == to - from)
            && (r.Some? ==> forall i | 0 <= i < to - from ::
                  r.value[i] == SequencedMessage(from + i, Held(rs, first, from + i).GetOr([])))
  {
    var skip, n := from - first, to - from;
    AllHeldIs(rs, first, from, to);
    if skip <= |rs| {
      EnoughBehind(rs, skip, n);
    }
    if skip + n <= |rs| {
      NumberedBehind(rs, skip, from, n);
    }
  }

  /** Where the messages agree, so do the answers. */
  lemma SameRequest(found: seq<Bytes>, first: nat, rs: seq<Bytes>, from: nat, to: nat)
    requires 1 <= first <= from < to && AllHeld(rs, 1, from, to)
    requires forall s: nat | from <= s < to :: Held(found, first, s) == Held(rs, 1, s)
    ensures Request(found, first, from, to) == Request(rs, 1, from, to)
  {
    assert AllHeld(found, first, from, to);
    RequestIs(found, first, from, to);
    RequestIs(rs, 1, from, to);
    var x, y := Request(found, first, from, to).value, Request(rs, 1, from, to).value;
    forall i | 0 <= i < to - from
      ensures x[i] == y[i]
    {
      assert Held(found, first, from + i) == Held(rs, 1, from + i);
    }
    assert x == y;
  }

  /** A message that is missing or too long refuses the whole request. */
  lemma MissingRefuses(rs: seq<Bytes>, first: nat, from: nat, to: nat, s: nat)
    requires first <= from <= s < to && Held(rs, first, s).None?
    ensures Request(rs, first, from, to).None?
  {
    RequestIs(rs, first, from, to);
  }

  lemma {:induction false} FirstMissing(rs: seq<Bytes>, first: nat, start: nat, end: nat) returns (s: nat)
    requires start <= end && !AllHeld(rs, first, start, end)
    ensures start <= s < end && AllHeld(rs, first, start, s) && Held(rs, first, s).None?
    decreases end - start
  {
    s := start;
    if Held(rs, first, start).Some? {
      assert !AllHeld(rs, first, start + 1, end);
      s := FirstMissing(rs, first, start + 1, end);
    }
  }

  // ----- One mark -----

  /** The records found from the mark for message `first` are the file's messages up to `last`, as far as
      requests that start from this mark can see: past the next mark, `interval` on, only as long as every
      message on the way can be recovered. */
  ghost predicate Leads(found: seq<Bytes>, first: nat, rs: seq<Bytes>, interval: nat, last: nat)
    requires interval > 0
  {
    forall s: nat {:trigger Held(found, first, s)} {:trigger Held(rs, 1, s)}
      | first <= s <= last && AllHeld(rs, 1, first + interval - 1, s) :: Held(found, first, s) == Held(rs, 1, s)
  }

  /** The request [from, to) gets from the mark what it gets from the beginning of the file. */
  ghost predicate Agrees(found: seq<Bytes>, first: nat, rs: seq<Bytes>, from: nat, to: nat)
    requires 1 <= first <= from < to
  {
    Request(found, first, from, to) == Request(rs, 1, from, to)
  }

  lemma LeadsAgrees(found: seq<Bytes>, first: nat, rs: seq<Bytes>, interval: nat, last: nat, from: nat, to: nat)
    requires interval > 0 && Leads(found, first, rs, interval, last)
    requires 1 <= first <= from < first + interval && from < to <= last + 1
    ensures Agrees(found, first, rs, from, to)
  {
    if AllHeld(rs, 1, from, to) {
      SameRequest(found, first, rs, from, to);
    } else {
      var s := FirstMissing(rs, 1, from, to);
      assert AllHeld(rs, 1, first + interval - 1, s);
      MissingRefuses(rs, 1, from, to, s);
      MissingRefuses(found, first, from, to, s);
    }
  }

  lemma AgreesLeads(found: seq<Bytes>, first: nat, rs: seq<Bytes>, interval: nat, last: nat)
    requires interval > 0 && first >= 1
    requires forall from: nat, to: nat | first <= from < first + interval && from < to <= last + 1 ::
               Agrees(found, first, rs, from, to)
    ensures Leads(found, first, rs, interval, last)
  {
    forall s: nat | first <= s <= last && AllHeld(rs, 1, first + interval - 1, s)
      ensures Held(found, first, s) == Held(rs, 1, s)
    {
      var from := if s < first + interval then s else first + interval - 1;
      assert Agrees(found, first, rs, from, s + 1);
      assert from < s ==> Agrees(found, first, rs, from, s);
      AgreesAt(found, first, rs, from, s);
    }
  }

  /** Two requests that differ in their last message, both answered alike, pin that message. */
  lemma AgreesAt(found: seq<Bytes>, first: nat, rs: seq<Bytes>, from: nat, s: nat)
    requires 1 <= first <= from <= s && AllHeld(rs, 1, from, s)
    requires (from < s ==> Agrees(found, first, rs, from, s)) && Agrees(found, first, rs, from, s + 1)
    ensures Held(found, first, s) == Held(rs, 1, s)
  {
    assert AllHeld(found, first, from, s) by {
      if from < s {
        RequestIs(found, first, from, s);
        RequestIs(rs, 1, from, s);
      }
    }
    LastMessage(found, first, from, s);
    LastMessage(rs, 1, from, s);
  }

  /** When all before it are held, the last message decides a request and ends its answer. */
  lemma LastMessage(rs: seq<Bytes>, first: nat, from: nat, s: nat)
    requires first <= from <= s && AllHeld(rs, first, from, s)
    ensures var r := Request(rs, first, from, s + 1);
            && (r.Some? <==> Held(rs, first, s).Some?)
            && (r.Some? ==> |r.value| == s + 1 - from && r.value[s - from].payload == Held(rs, first, s).value)
  {
    RequestIs(rs, first, from, s + 1);
    assert AllHeld(rs, first, from, s + 1) <==> Held(rs, first, s).Some?;
  }

  // ----- All marks -----

  function FoundFrom(file: Bytes, mark: Checkpoint): seq<Bytes> {
    Records(file, Seek(file, mark.fileOffset))
  }

  /** One request is answered as a linear scan would. */
  ghost predicate Answers(index: Index, file: Bytes, from: nat, to: nat) {
    Reply(index, file, from, to) == Answer(file, from, to)
  }

  /** Every request is answered as a linear scan would. */
  ghost predicate AnswersAll(index: Index, file: Bytes) {
    forall from: nat, to: nat :: Answers(index, file, from, to)
  }

  /** Behind the messages an index counts there is nothing that could be recovered. */
  ghost predicate NothingBeyond(rs: seq<Bytes>, n: nat) {
    forall s: nat {:trigger Held(rs, 1, s)} | s > n :: Held(rs, 1, s).None?
  }

  ghost predicate MarkLeads(index: Index, file: Bytes, interval: nat, i: nat)
    requires i < |index.checkpoints| && interval > 0
  {
    var mark := index.checkpoints[i];
    Leads(FoundFrom(file, mark), mark.sequence, Records(file, 0), interval, index.messageCount)
  }

  /** The condition on index and file: it counts enough messages, and every mark leads to the records it
      is there for. */
  ghost predicate AllLead(index: Index, file: Bytes, interval: nat)
    requires interval > 0
  {
    && NothingBeyond(Records(file, 0), index.messageCount)
    && forall i | 0 <= i < |index.checkpoints| :: MarkLeads(index, file, interval, i)
  }

  /** Message `from` is fewer than `interval` behind the i-th mark. */
  ghost predicate InReach(index: Index, interval: nat, i: nat, from: nat) {
    && i < |index.checkpoints| && from <= index.messageCount
    && index.checkpoints[i].sequence <= from < index.checkpoints[i].sequence + interval
  }

  /** Marks that tile the messages counted: each message is in reach of one, and that one is found for it. */
  ghost predicate Tiled(index: Index, interval: nat) {
    && interval > 0
    && (forall i | 0 <= i < |index.checkpoints| :: 1 <= index.checkpoints[i].sequence <= index.messageCount)
    && (forall i: nat, from: nat | InReach(index, interval, i, from) ::
          LookUp(index.checkpoints, from) == Some(index.checkpoints[i]))
  }

  ghost predicate Reached(index: Index, interval: nat, from: nat) {
    exists i: nat :: InReach(index, interval, i, from)
  }

  lemma MarkInRange(index: Index, interval: nat, i: nat)
    requires Plausible(index, interval) && i < |index.checkpoints|
    ensures 1 <= index.checkpoints[i].sequence == 1 + i * interval <= index.messageCount
  {
    var last := (index.messageCount - 1) / interval;
    assert EntryRight(index.checkpoints, interval, i) && i <= last;
    LastMultiple(i, last, interval, index.messageCount);
  }

  lemma LastMultiple(i: nat, last: nat, c: nat, n: nat)
    requires c > 0 && n > 0 && i <= last == (n - 1) / c
    ensures 1 + i * c <= n
  {
    DivBounds(n - 1, c);
    if i < last {
      Multiples(i, last, c);
    }
  }

  lemma FindsMark(index: Index, interval: nat, i: nat, from: nat)
    requires Plausible(index, interval) && InReach(index, interval, i, from)
    ensures LookUp(index.checkpoints, from) == Some(index.checkpoints[i])
  {
    MarkInRange(index, interval, i);
    NearestAt(index.checkpoints, interval, from, i, index.checkpoints[i].sequence);
  }

  lemma FindsReached(index: Index, interval: nat, from: nat)
    requires Plausible(index, interval) && 1 <= from <= index.messageCount
    ensures Reached(index, interval, from)
  {
    NearestMark(index, interval, from);
    assert InReach(index, interval, (from - 1) / interval, from);
  }

  lemma AllReached(index: Index, interval: nat)
    requires Plausible(index, interval)
    ensures forall from: nat | 1 <= from <= index.messageCount :: Reached(index, interval, from)
  {
    forall from: nat | 1 <= from <= index.messageCount
      ensures Reached(index, interval, from)
    {
      FindsReached(index, interval, from);
    }
  }

  lemma PlausibleTiles(index: Index, interval: nat)
    requires Plausible(index, interval)
    ensures Tiled(index, interval)
  {
    forall i | 0 <= i < |index.checkpoints|
      ensures 1 <= index.checkpoints[i].sequence <= index.messageCount
    {
      MarkInRange(index, interval, i);
    }
    forall i: nat, from: nat | InReach(index, interval, i, from)
      ensures LookUp(index.checkpoints, from) == Some(index.checkpoints[i])
    {
      FindsMark(index, interval, i, from);
    }
  }

  lemma NothingAtEnd(file: Bytes)
    ensures Records(file, |file|) == []
  {
  }

  /** A mark behind the end of the file finds nothing. */
  lemma FarMark(file: Bytes, mark: Checkpoint)
    requires mark.fileOffset > |file|
    ensures FoundFrom(file, mark) == []
  {
    NothingAtEnd(file);
  }

  /** What a mark leads to, even one far behind the end of the file. */
  lemma ReplyFrom(index: Index, file: Bytes, mark: Checkpoint, from: nat, to: nat)
    requires |file| <= MAX_OFFSET && LookUp(index.checkpoints, from) == Some(mark)
    requires 1 <= mark.sequence <= from < to <= index.messageCount + 1
    ensures Reply(index, file, from, to) == Request(FoundFrom(file, mark), mark.sequence, from, to)
  {
    if mark.fileOffset > MAX_OFFSET {
      FarMark(file, mark);
    }
  }

  /** The request [from, to), within what the index counts, starts from the i-th mark. */
  ghost predicate FromMark(index: Index, interval: nat, i: nat, from: nat, to: nat) {
    InReach(index, interval, i, from) && from < to <= index.messageCount + 1
  }

  lemma AnswersIffAgrees(index: Index, file: Bytes, interval: nat, i: nat, from: nat, to: nat)
    requires Tiled(index, interval) && |file| <= MAX_OFFSET && FromMark(index, interval, i, from, to)
    ensures var mark := index.checkpoints[i];
            && 1 <= mark.sequence <= from
            && (Answers(index, file, from, to) <==>
                Agrees(FoundFrom(file, mark), mark.sequence, Records(file, 0), from, to))
  {
    ReplyFrom(index, file, index.checkpoints[i], from, to);
    AnswerRequests(file, from, to);
  }

  /** The requests that start from a mark are answered rightly if and only if it leads to its records. */
  lemma MarkLeadsIff(index: Index, file: Bytes, interval: nat, i: nat)
    requires Tiled(index, interval) && |file| <= MAX_OFFSET && i < |index.checkpoints|
    ensures MarkLeads(index, file, interval, i) <==>
            forall from: nat, to: nat | FromMark(index, interval, i, from, to) :: Answers(index, file, from, to)
  {
    if MarkLeads(index, file, interval, i) {
      forall from: nat, to: nat | FromMark(index, interval, i, from, to)
        ensures Answers(index, file, from, to)
      {
        LeadsToAnswer(index, file, interval, i, from, to);
      }
    } else if forall from: nat, to: nat | FromMark(index, interval, i, from, to) :: Answers(index, file, from, to) {
      AnswersLead(index, file, interval, i);
    }
  }

  lemma LeadsToAnswer(index: Index, file: Bytes, interval: nat, i: nat, from: nat, to: nat)
    requires Tiled(index, interval) && |file| <= MAX_OFFSET && FromMark(index, interval, i, from, to)
    requires MarkLeads(index, file, interval, i)
    ensures Answers(index, file, from, to)
  {
    var mark := index.checkpoints[i];
    LeadsAgrees(FoundFrom(file, mark), mark.sequence, Records(file, 0), interval, index.messageCount, from, to);
    AnswersIffAgrees(index, file, interval, i, from, to);
  }

  lemma AnswersLead(index: Index, file: Bytes, interval: nat, i: nat)
    requires Tiled(index, interval) && |file| <= MAX_OFFSET && i < |index.checkpoints|
    requires forall from: nat, to: nat | FromMark(index, interval, i, from, to) :: Answers(index, file, from, to)
    ensures MarkLeads(index, file, interval, i)
  {
    var found, rs := FoundFrom(file, index.checkpoints[i]), Records(file, 0);
    var first, last := index.checkpoints[i].sequence, index.messageCount;
    forall from: nat, to: nat | first <= from < first + interval && from < to <= last + 1
      ensures Agrees(found, first, rs, from, to)
    {
      assert FromMark(index, interval, i, from, to);
      AnswersIffAgrees(index, file, interval, i, from, to);
    }
    AgreesLeads(found, first, rs, interval, last);
  }

  /** A request for more than the index counts is refused; that is right for all of them if and only if
      nothing beyond can be recovered. */
  lemma BeyondIff(index: Index, file: Bytes)
    ensures NothingBeyond(Records(file, 0), index.messageCount) <==>
            forall from: nat, to: nat | to > index.messageCount + 1 :: Answers(index, file, from, to)
  {
    var rs, n := Records(file, 0), index.messageCount;
    if NothingBeyond(rs, n) {
      forall from: nat, to: nat | to > n + 1
        ensures Answers(index, file, from, to)
      {
        assert Held(rs, 1, to - 1).None?;
        RefusedRightly(index, file, from, to, to - 1);
      }
    } else {
      var s: nat :| s > n && Held(rs, 1, s).Some?;
      RefusedWrongly(index, file, s, s + 1);
    }
  }

  lemma RefusedRightly(index: Index, file: Bytes, from: nat, to: nat, s: nat)
    requires index.messageCount < s == to - 1 && Held(Records(file, 0), 1, s).None?
    ensures Answers(index, file, from, to)
  {
    if 1 <= from < to {
      ReplyBeyond(index, file, from, to);
      AnswerRequests(file, from, to);
      MissingRefuses(Records(file, 0), 1, from, to, s);
    }
  }

  lemma RefusedWrongly(index: Index, file: Bytes, s: nat, to: nat)
    requires index.messageCount < s == to - 1 && Held(Records(file, 0), 1, s).Some?
    ensures !Answers(index, file, s, to)
  {
    ReplyBeyond(index, file, s, to);
    AnswerRequests(file, s, to);
    RequestIs(Records(file, 0), 1, s, to);
  }

  lemma ReplyBeyond(index: Index, file: Bytes, from: nat, to: nat)
    requires to > index.messageCount + 1
    ensures Reply(index, file, from, to).None?
  {
  }

  lemma AnswerRequests(file: Bytes, from: nat, to: nat)
    requires 1 <= from < to
    ensures Answer(file, from, to) == Request(Records(file, 0), 1, from, to)
  {
    AnswerExtracts(file, from, to);
  }

  /** Every index that is accepted, whatever file it was written for, answers every request rightly if
      and only if it counts enough messages and every mark leads to its records. */
  lemma AnswersAllIff(index: Index, file: Bytes, interval: nat)
    requires Plausible(index, interval) && |file| <= MAX_OFFSET
    ensures AnswersAll(index, file) <==> AllLead(index, file, interval)
  {
    PlausibleTiles(index, interval);
    AllReached(index, interval);
    TiledAnswersIff(index, file, interval);
  }

  lemma TiledAnswersIff(index: Index, file: Bytes, interval: nat)
    requires Tiled(index, interval) && |file| <= MAX_OFFSET
    requires forall from: nat | 1 <= from <= index.messageCount :: Reached(index, interval, from)
    ensures AnswersAll(index, file) <==> AllLead(index, file, interval)
  {
    BeyondIff(index, file);
    forall i | 0 <= i < |index.checkpoints|
      ensures MarkLeads(index, file, interval, i) <==>
              forall from: nat, to: nat | FromMark(index, interval, i, from, to) :: Answers(index, file, from, to)
    {
      MarkLeadsIff(index, file, interval, i);
    }
    if AllLead(index, file, interval) {
      forall from: nat, to: nat
        ensures Answers(index, file, from, to)
      {
        if 1 <= from < to <= index.messageCount + 1 {
          assert Reached(index, interval, from);
          var i: nat :| InReach(index, interval, i, from);
          assert MarkLeads(index, file, interval, i) && FromMark(index, interval, i, from, to);
        } else {
          assert to > index.messageCount + 1 || !(1 <= from < to);
          if !(1 <= from < to) {
            NeverAsked(index, file, from, to);
          }
        }
      }
    }
  }

  lemma NeverAsked(index: Index, file: Bytes, from: nat, to: nat)
    requires !(1 <= from < to)
    ensures Answers(index, file, from, to)
  {
  }

  // ----- Files with short records only, and files whose marks agree -----

  /** From its mark on, the records found begin with all that are left of the file. */
  ghost predicate Follows(file: Bytes, mark: Checkpoint) {
    var rs := Records(file, 0);
    1 <= mark.sequence <= |rs| && rs[mark.sequence - 1..] <= FoundFrom(file, mark)
  }

  lemma LeadsIffFollows(found: seq<Bytes>, first: nat, rs: seq<Bytes>, interval: nat)
    requires interval > 0 && 1 <= first <= |rs| && AllHeld(rs, 1, 1, |rs| + 1)
    ensures Leads(found, first, rs, interval, |rs|) <==> rs[first - 1..] <= found
  {
    var rest := rs[first - 1..];
    if Leads(found, first, rs, interval, |rs|) {
      forall k | 0 <= k < |rest|
        ensures k < |found| && rest[k] == found[k]
      {
        HeldBehind(found, first, rs, first + k, k);
      }
      assert |rest| - 1 < |found| by { assert rest[|rest| - 1] == found[|rest| - 1]; }
    }
    if rest <= found {
      forall s: nat | first <= s <= |rs|
        ensures Held(found, first, s) == Held(rs, 1, s)
      {
        assert rest[s - first] == found[s - first];
        assert Held(rs, 1, s).Some?;
      }
    }
  }

  lemma HeldBehind(found: seq<Bytes>, first: nat, rs: seq<Bytes>, s: nat, k: nat)
    requires 1 <= first <= s <= |rs| && k == s - first && AllHeld(rs, 1, 1, |rs| + 1)
    requires Held(found, first, s) == Held(rs, 1, s)
    ensures k < |found| && rs[first - 1..][k] == found[k]
  {
    assert Held(rs, 1, s).Some?;
  }

  /** Where every record can be recovered and the count is right, every mark has to find the rest of the
      file, and that is all. */
  lemma FollowsIff(index: Index, file: Bytes, interval: nat)
    requires Plausible(index, interval) && |file| <= MAX_OFFSET
    requires var rs := Records(file, 0); index.messageCount == |rs| && AllHeld(rs, 1, 1, |rs| + 1)
    ensures AnswersAll(index, file) <==> forall mark <- index.checkpoints :: Follows(file, mark)
  {
    PlausibleTiles(index, interval);
    AllReached(index, interval);
    TiledAnswersIff(index, file, interval);
    forall i | 0 <= i < |index.checkpoints|
      ensures MarkLeads(index, file, interval, i) <==> Follows(file, index.checkpoints[i])
    {
      var mark := index.checkpoints[i];
      LeadsIffFollows(FoundFrom(file, mark), mark.sequence, Records(file, 0), interval);
    }
    CountIsEnough(Records(file, 0));
  }

  lemma CountIsEnough(rs: seq<Bytes>)
    ensures NothingBeyond(rs, |rs|)
  {
  }

  /** A stored index written for an earlier file of the same size: it is accepted; the exact condition under
      which it answers rightly; and marks that agree are enough. */
  lemma StaleIndexAnswers(index: Index, former: Bytes, file: Bytes, interval: nat)
    requires Describes(index, former, interval) && |former| == |file| <= MAX_OFFSET && interval < TWO_64
    ensures Load(Serialize(index, interval, |former|), interval, |file|) == Some(index)
    ensures AnswersAll(index, file) <==> AllLead(index, file, interval)
    ensures SameMarks(former, file, interval) ==> AnswersAll(index, file)
  {
    ReopenedIndexDescribes(index, former, interval);
    DescribedIsPlausible(index, former, interval);
    AnswersAllIff(index, file, interval);
    DescribesOtherIff(index, former, file, interval);
    if SameMarks(former, file, interval) {
      forall from: nat, to: nat
        ensures Answers(index, file, from, to)
      {
        DescribedAnswers(index, file, interval, from, to);
      }
    }
  }

  // Two files of nine bytes and two records, and the index of the first.
  const FORMER: Bytes := [0, 1, 7, 0, 4, 8, 8, 8, 8]
  const LATER: Bytes := [0, 4, 7, 0, 1, 9, 0, 1, 8]
  const FORMER_INDEX := Index(2, [Checkpoint(1, 0), Checkpoint(2, 3)])

  lemma FormerIsDescribed()
    ensures Records(FORMER, 0) == [[7], [8, 8, 8, 8]] && Describes(FORMER_INDEX, FORMER, 1)
  {
    assert FORMER[2..3] == [7] && FORMER[5..9] == [8, 8, 8, 8];
    assert ReadAt(FORMER, 0) == (Record(Message, [7]), 3) && ReadAt(FORMER, 3) == (Record(Message, [8, 8, 8, 8]), 9);
    assert Records(FORMER, 9) == [] && Records(FORMER, 3) == [[8, 8, 8, 8]];
    assert OffsetOf(FORMER, 0, 1) == OffsetOf(FORMER, 3, 0) == 3;
    var cs := FORMER_INDEX.checkpoints;
    assert MarkRight(FORMER, 1, 2, cs, 0) && MarkRight(FORMER, 1, 2, cs, 1);
  }

  lemma LaterReads()
    ensures Records(LATER, 3) == [[9], [8]] && Records(LATER, 0) == [[7, 0, 1, 9], [8]]
  {
    assert LATER[2..6] == [7, 0, 1, 9] && LATER[5..6] == [9] && LATER[8..9] == [8];
    assert ReadAt(LATER, 0) == (Record(Message, [7, 0, 1, 9]), 6) && ReadAt(LATER, 6) == (Record(Message, [8]), 9);
    assert ReadAt(LATER, 3) == (Record(Message, [9]), 6);
    assert Records(LATER, 9) == [] && Records(LATER, 6) == [[8]];
  }

  lemma LaterReplies()
    ensures Reply(FORMER_INDEX, LATER, 2, 3) == Some([SequencedMessage(2, [9])])
    ensures Answer(LATER, 2, 3) == Some([SequencedMessage(2, [8])])
  {
    LaterReads();
    assert LookUp(FORMER_INDEX.checkpoints, 2) == Some(Checkpoint(2, 3));
    assert [[9], [8]][0..] == [[9], [8]] && [[7, 0, 1, 9], [8]][1..] == [[8]];
    assert Numbered([[9], [8]], 2, 1) == [SequencedMessage(2, [9])];
    assert Numbered([[8]], 2, 1) == [SequencedMessage(2, [8])];
  }

  lemma MisleadingPair() returns (former: Bytes, later: Bytes, index: Index)
    ensures |former| == |later| <= MAX_OFFSET && |Records(former, 0)| == |Records(later, 0)|
    ensures Describes(index, former, 1)
    ensures Reply(index, later, 2, 3) == Some([SequencedMessage(2, [9])])
    ensures Answer(later, 2, 3) == Some([SequencedMessage(2, [8])])
  {
    former, later, index := FORMER, LATER, FORMER_INDEX;
    FormerIsDescribed();
    LaterReads();
    LaterReplies();
  }

  /** Without that the answer can be wrong and look right.  In the second file the index's mark for
      record 2 falls inside record 1, where three payload bytes look like a record of their own; that is
      returned as message 2, under the right sequence number. */
  lemma StaleIndexMisleads() returns (former: Bytes, later: Bytes, index: Index)
    ensures |former| == |later| && |Records(former, 0)| == |Records(later, 0)| && Describes(index, former, 1)
    ensures Load(Serialize(index, 1, |former|), 1, |later|) == Some(index)
    ensures Reply(index, later, 2, 3) == Some([SequencedMessage(2, [9])])
    ensures Covers([SequencedMessage(2, [9])], 2, 3)
    ensures Answer(later, 2, 3) == Some([SequencedMessage(2, [8])])
  {
    former, later, index := MisleadingPair();
    ReopenedIndexDescribes(index, former, 1);
  }

  // A third file of nine bytes; its only record ends where the index has no mark.
  const SHORTER: Bytes := [0, 4, 7, 7, 7, 7, 0, 0, 0]

  lemma ShorterReads()
    ensures Records(SHORTER, 0) == [[7, 7, 7, 7]] && Records(SHORTER, 3) == []
  {
    assert SHORTER[2..6] == [7, 7, 7, 7];
    assert ReadAt(SHORTER, 0) == (Record(Message, [7, 7, 7, 7]), 6);
    assert Records(SHORTER, 6) == [] && Records(SHORTER, 3) == [];
  }

  lemma ShorterFile() returns (former: Bytes, later: Bytes, index: Index)
    ensures |former| == |later| <= MAX_OFFSET && Describes(index, former, 1) && |Records(former, 0)| == 2
    ensures index.messageCount == 2 && index.checkpoints == [Checkpoint(1, 0), Checkpoint(2, 3)]
    ensures |Records(later, 0)| == 1 && FoundFrom(later, Checkpoint(1, 0)) == Records(later, 0)
    ensures FoundFrom(later, Checkpoint(2, 3)) == []
  {
    former, later, index := FORMER, SHORTER, FORMER_INDEX;
    FormerIsDescribed();
    ShorterReads();
  }

  /** Marks that agree are enough, but not necessary: here the second mark finds nothing, and there is
      nothing to find. */
  lemma OtherMarksMayAnswer() returns (former: Bytes, later: Bytes, index: Index)
    ensures |former| == |later| && Describes(index, former, 1) && !SameMarks(former, later, 1)
    ensures AnswersAll(index, later)
  {
    former, later, index := ShorterFile();
    DescribedIsPlausible(index, former, 1);
    assert MarkLeads(index, later, 1, 0) && MarkLeads(index, later, 1, 1);
    AnswersAllIff(index, later, 1);
  }
}
