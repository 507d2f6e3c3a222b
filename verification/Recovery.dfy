/** Recovery from the BinaryFILE itself, through a sparse index of record offsets. */
module Recovery {
  import opened MarketTypes
  import opened Arithmetic
  import opened Wire
  import opened BinaryFile
  import opened IndexFile
  import opened SequenceRecovery

  // ----- The index of a file -----

  /** The checkpoints of a file's first `count` records, one every `interval`. */
  ghost predicate Marks(file: Bytes, interval: nat, count: nat, cs: seq<Checkpoint>)
    requires interval > 0 && count <= |Records(file, 0)|
  {
    && |cs| == CheckpointCount(count, interval)
    && forall i | 0 <= i < |cs| :: MarkRight(file, interval, count, cs, i)
  }

  ghost predicate MarkRight(file: Bytes, interval: nat, count: nat, cs: seq<Checkpoint>, i: nat)
    requires i < |cs| && count <= |Records(file, 0)|
  {
    i * interval < count && cs[i] == Checkpoint(1 + i * interval, OffsetOf(file, 0, i * interval))
  }

  /** `index` says of `file` what a linear scan of it would. */
  ghost predicate Describes(index: Index, file: Bytes, interval: nat) {
    && interval > 0
    && 0 < index.messageCount == |Records(file, 0)|
    && Marks(file, interval, index.messageCount, index.checkpoints)
  }

  /** One more message makes one more checkpoint exactly every `interval` messages. */
  lemma CountStep(k: nat, interval: nat)
    requires interval > 0
    ensures CheckpointCount(k + 1, interval) == CheckpointCount(k, interval) + if k % interval == 0 then 1 else 0
    ensures k % interval == 0 ==> CheckpointCount(k, interval) * interval == k
  {
    var q, r := k / interval, k % interval;
    assert k == interval * q + r;
    if k > 0 {
      if r == 0 {
        assert q > 0;
        assert k - 1 == interval * (q - 1) + (interval - 1);
        Quotient(k - 1, interval, q - 1, interval - 1);
      } else {
        Quotient(k - 1, interval, q, r - 1);
      }
    }
  }

  lemma MarksGrow(file: Bytes, interval: nat, k: nat, cs: seq<Checkpoint>)
    requires interval > 0 && k < |Records(file, 0)| && Marks(file, interval, k, cs)
    ensures var cs' := if k % interval == 0 then cs + [Checkpoint(k + 1, OffsetOf(file, 0, k))] else cs;
            Marks(file, interval, k + 1, cs')
  {
    var cs' := if k % interval == 0 then cs + [Checkpoint(k + 1, OffsetOf(file, 0, k))] else cs;
    CountStep(k, interval);
    var count := k + 1;
    forall i | 0 <= i < |cs'|
      ensures MarkRight(file, interval, count, cs', i)
    {
      if i < |cs| {
        assert MarkRight(file, interval, k, cs, i);
      }
    }
  }

  /** What a scan finds is an index `loadIndex` accepts: nothing it checks can fail. */
  lemma DescribedIsPlausible(index: Index, file: Bytes, interval: nat)
    requires Describes(index, file, interval) && |file| <= MAX_OFFSET
    ensures Plausible(index, interval) && Words(index)
  {
    var cs := index.checkpoints;
    RecordsFit(file, 0);
    forall i | 0 <= i < |cs|
      ensures EntryRight(cs, interval, i) && cs[i].sequence < TWO_64 && cs[i].fileOffset < TWO_64
    {
      MarkIsRightEntry(index, file, interval, i);
    }
    CountBound(index.messageCount, interval);
  }

  lemma MarkIsRightEntry(index: Index, file: Bytes, interval: nat, i: nat)
    requires Describes(index, file, interval) && i < |index.checkpoints|
    ensures EntryRight(index.checkpoints, interval, i)
    ensures index.checkpoints[i].sequence <= index.messageCount && index.checkpoints[i].fileOffset <= |file|
  {
    var n, cs, k := index.messageCount, index.checkpoints, i * interval;
    assert MarkRight(file, interval, n, cs, i);
    if i > 0 {
      assert MarkRight(file, interval, n, cs, i - 1);
      var j := (i - 1) * interval;
      Multiples(i - 1, i, interval);
      OffsetsGrow(file, 0, j, k);
    }
  }

  lemma CountBound(count: nat, interval: nat)
    requires interval > 0
    ensures CheckpointCount(count, interval) <= count
  {
    if count > 0 {
      DivBounds(count - 1, interval);
    }
  }

  /** The index file written for a file is accepted when the file is opened again, and still describes it. */
  lemma ReopenedIndexDescribes(index: Index, file: Bytes, interval: nat)
    requires Describes(index, file, interval) && |file| <= MAX_OFFSET && interval < TWO_64
    ensures Load(Serialize(index, interval, |file|), interval, |file|) == Some(index)
  {
    DescribedIsPlausible(index, file, interval);
    LoadSerialize(index, interval, |file|);
  }

  /** A file has one index. */
  lemma OneIndex(a: Index, b: Index, file: Bytes, interval: nat)
    requires Describes(a, file, interval) && Describes(b, file, interval)
    ensures a == b
  {
    forall i | 0 <= i < |a.checkpoints|
      ensures a.checkpoints[i] == b.checkpoints[i]
    {
      assert MarkRight(file, interval, a.messageCount, a.checkpoints, i);
      assert MarkRight(file, interval, b.messageCount, b.checkpoints, i);
    }
  }

  /** A stored index that loads describes the file if and only if its bytes are those that scanning the
      file would have saved. */
  lemma LoadedDescribesIff(stored: Bytes, loaded: Index, scanned: Index, file: Bytes, interval: nat)
    requires Load(stored, interval, |file|) == Some(loaded) && Describes(scanned, file, interval)
    requires |file| <= MAX_OFFSET && interval < TWO_64
    ensures Describes(loaded, file, interval) <==> stored == Serialize(scanned, interval, |file|)
  {
    SerializeLoad(stored, interval, |file|);
    ReopenedIndexDescribes(scanned, file, interval);
    if Describes(loaded, file, interval) {
      OneIndex(loaded, scanned, file, interval);
    }
  }

  // ----- The specification of a recovery -----

  /** The stream position after a seek: nothing is found beyond the end. */
  function Seek(file: Bytes, offset: nat): (at: nat)
    ensures at <= |file|
  {
    if offset <= |file| then offset else |file|
  }

  /** Whether there are `n` records, none longer than a recovered message can be. */
  predicate Enough(rs: seq<Bytes>, n: nat) {
    n <= |rs| && forall k | 0 <= k < n :: |rs[k]| <= MAX_PAYLOAD_SIZE
  }

  /** The first `n` records under the sequence numbers from `from` on. */
  function Numbered(rs: seq<Bytes>, from: nat, n: nat): seq<SequencedMessage>
    requires n <= |rs|
  {
    seq(n, i requires 0 <= i < n => SequencedMessage(from + i, rs[i]))
  }

  /** The `n` records behind the first `skip`, numbered from `from` on. */
  function Extract(rs: seq<Bytes>, skip: nat, from: nat, n: nat): Option<seq<SequencedMessage>> {
    if skip <= |rs| && Enough(rs[skip..], n) then Some(Numbered(rs[skip..], from, n)) else None
  }

  /** What a scan from a mark finds for [from, to): it takes the record at the mark for the one the mark
      names, and counts from there. */
  function ScanFrom(file: Bytes, mark: Checkpoint, from: nat, to: nat): Option<seq<SequencedMessage>>
    requires mark.sequence <= from < to
  {
    Extract(Records(file, Seek(file, mark.fileOffset)), from - mark.sequence, from, to - from)
  }

  /** The linear-scan reference: what recovery should answer. */
  function Answer(file: Bytes, from: nat, to: nat): Option<seq<SequencedMessage>> {
    if 1 <= from < to then ScanFrom(file, Checkpoint(1, 0), from, to) else None
  }

  /** Whether messages [from, to) can be recovered from `file`: they are all there, and short enough. */
  ghost predicate Recoverable(file: Bytes, from: nat, to: nat) {
    && 1 <= from < to <= |Records(file, 0)| + 1
    && forall k | from - 1 <= k < to - 1 :: |Records(file, 0)[k]| <= 2048
  }

  /** The records from..to-1, each with its sequence number. */
  function SliceOf(file: Bytes, from: nat, to: nat): seq<SequencedMessage>
    requires 1 <= from <= to <= |Records(file, 0)| + 1
  {
    seq(to - from, i requires 0 <= i < to - from => SequencedMessage(from + i, Records(file, 0)[from - 1 + i]))
  }

  /** Dropping the first records shifts which ones have to be short enough. */
  lemma EnoughBehind(rs: seq<Bytes>, skip: nat, n: nat)
    requires skip <= |rs|
    ensures Enough(rs[skip..], n) <==>
            skip + n <= |rs| && forall k | skip <= k < skip + n :: |rs[k]| <= MAX_PAYLOAD_SIZE
  {
    var rest := rs[skip..];
    if skip + n <= |rs| {
      assert forall k | skip <= k < skip + n :: rs[k] == rest[k - skip];
      assert forall k | 0 <= k < n :: rest[k] == rs[skip + k];
    }
  }

  lemma NumberedBehind(rs: seq<Bytes>, skip: nat, from: nat, n: nat)
    requires skip + n <= |rs|
    ensures Numbered(rs[skip..], from, n) == seq(n, i requires 0 <= i < n => SequencedMessage(from + i, rs[skip + i]))
  {
  }

  /** The reference answers exactly the recoverable intervals, each with exactly its records. */
  lemma AnswerIs(file: Bytes, from: nat, to: nat)
    ensures Answer(file, from, to) == if Recoverable(file, from, to) then Some(SliceOf(file, from, to)) else None
    ensures Recoverable(file, from, to) ==> Covers(SliceOf(file, from, to), from, to)
  {
    var rs := Records(file, 0);
    if 1 <= from < to && from - 1 <= |rs| {
      EnoughBehind(rs, from - 1, to - from);
      if Recoverable(file, from, to) {
        NumberedBehind(rs, from - 1, from, to - from);
        assert Numbered(rs[from - 1..], from, to - from) == SliceOf(file, from, to);
      }
    }
  }

  /** The last checkpoint at or before a sequence number. */
  function LookUp(cs: seq<Checkpoint>, sequence: nat): (r: Option<Checkpoint>)
    ensures r.Some? ==> r.value in cs && r.value.sequence <= sequence
  {
    if cs == [] then None
    else if cs[|cs| - 1].sequence <= sequence then Some(cs[|cs| - 1])
    else LookUp(cs[..|cs| - 1], sequence)
  }

  /** The answer an index leads to, whether or not it is an index of this file. */
  function Reply(index: Index, file: Bytes, from: nat, to: nat): Option<seq<SequencedMessage>> {
    if !(1 <= from < to) || to - 1 > index.messageCount then None
    else
      match LookUp(index.checkpoints, from)
      case None => None
      case Some(mark) => if mark.fileOffset > MAX_OFFSET then None else ScanFrom(file, mark, from, to)
  }

  // ----- Finding the mark -----

  ghost predicate Ascending(cs: seq<Checkpoint>) {
    forall i, j | 0 <= i < j < |cs| :: cs[i].sequence < cs[j].sequence
  }

  lemma PlausibleAscends(index: Index, interval: nat)
    requires Plausible(index, interval)
    ensures Ascending(index.checkpoints) && index.checkpoints != []
  {
    var cs := index.checkpoints;
    forall i, j | 0 <= i < j < |cs|
      ensures cs[i].sequence < cs[j].sequence
    {
      assert EntryRight(cs, interval, i) && EntryRight(cs, interval, j);
      Multiples(i, j, interval);
    }
  }

  /** The checkpoint before the first one past a sequence number is the last at or before it. */
  lemma {:induction false} LookUpIs(cs: seq<Checkpoint>, sequence: nat, first: nat)
    requires first <= |cs|
    requires forall i | 0 <= i < first :: cs[i].sequence <= sequence
    requires forall i | first <= i < |cs| :: sequence < cs[i].sequence
    ensures LookUp(cs, sequence) == if first == 0 then None else Some(cs[first - 1])
  {
    if first == |cs| {
    } else {
      LookUpIs(cs[..|cs| - 1], sequence, first);
    }
  }

  /** Among plausible checkpoints the one found is fewer than `interval` messages before the one wanted. */
  lemma {:induction false} NearestMark(index: Index, interval: nat, from: nat)
    requires Plausible(index, interval) && 1 <= from <= index.messageCount
    ensures var r, q := LookUp(index.checkpoints, from), (from - 1) / interval;
            && q < |index.checkpoints| && r == Some(index.checkpoints[q])
            && 1 <= r.value.sequence <= from < r.value.sequence + interval
  {
    var q, first := Position(from, index.messageCount, interval);
    NearestAt(index.checkpoints, interval, from, q, first);
  }

  lemma NearestAt(cs: seq<Checkpoint>, interval: nat, from: nat, q: nat, first: nat)
    requires AllRight(cs, interval) && q < |cs|
    requires first == 1 + q * interval && first <= from < first + interval
    ensures LookUp(cs, from) == Some(cs[q]) && cs[q].sequence == first >= 1
  {
    MarksSplitAt(cs, interval, from, q);
    LookUpIs(cs, from, q + 1);
    assert EntryRight(cs, interval, q);
  }

  /** The marks up to number `q` are at or before `from`, the others behind it. */
  lemma MarksSplitAt(cs: seq<Checkpoint>, interval: nat, from: nat, q: nat)
    requires AllRight(cs, interval) && q * interval < from <= q * interval + interval
    ensures forall i | 0 <= i < |cs| :: i <= q <==> cs[i].sequence <= from
  {
    forall i | 0 <= i < |cs|
      ensures i <= q <==> cs[i].sequence <= from
    {
      assert EntryRight(cs, interval, i);
      MultiplesSplitAt(i, q, interval, from);
    }
  }

  // ----- When an index gives the right answers -----

  /** `mark` stands where the record it names begins. */
  predicate RightMark(file: Bytes, mark: Checkpoint) {
    1 <= mark.sequence <= |Records(file, 0)| + 1 && mark.fileOffset == OffsetOf(file, 0, mark.sequence - 1)
  }

  /** From a right mark a scan finds what a scan from the beginning finds. */
  lemma RightMarkScans(file: Bytes, mark: Checkpoint, from: nat, to: nat)
    requires RightMark(file, mark) && mark.sequence <= from < to
    ensures ScanFrom(file, mark, from, to) == Answer(file, from, to)
  {
    var rs, k, skip := Records(file, 0), mark.sequence - 1, from - mark.sequence;
    RecordsAtMark(file, mark);
    AnswerExtracts(file, from, to);
    assert k + skip == from - 1;
    ExtractBehind(rs, k, skip, from, to - from);
  }

  lemma AnswerExtracts(file: Bytes, from: nat, to: nat)
    requires 1 <= from < to
    ensures Answer(file, from, to) == Extract(Records(file, 0), from - 1, from, to - from)
  {
  }

  lemma RecordsAtMark(file: Bytes, mark: Checkpoint)
    requires RightMark(file, mark)
    ensures Records(file, Seek(file, mark.fileOffset)) == Records(file, 0)[mark.sequence - 1..]
  {
    RecordsFrom(file, 0, mark.sequence - 1);
  }

  lemma ExtractBehind(rs: seq<Bytes>, k: nat, skip: nat, from: nat, n: nat)
    requires k <= |rs|
    ensures Extract(rs[k..], skip, from, n) == Extract(rs, k + skip, from, n)
  {
    if k + skip <= |rs| {
      assert rs[k..][skip..] == rs[k + skip..];
    }
  }

  /** One request: from a right mark the answer is right if and only if the index does not cut it off,
      that is, unless it counts fewer messages than the request needs and the file has. */
  lemma RightMarkAnswers(index: Index, file: Bytes, from: nat, to: nat)
    requires 1 <= from < to && LookUp(index.checkpoints, from).Some?
    requires RightMark(file, LookUp(index.checkpoints, from).value) && |file| <= MAX_OFFSET
    ensures Reply(index, file, from, to) == Answer(file, from, to) <==>
              to - 1 <= index.messageCount || !Recoverable(file, from, to)
  {
    RightMarkScans(file, LookUp(index.checkpoints, from).value, from, to);
    AnswerIs(file, from, to);
  }

  /** An index that describes the file gives the right answer to every request. */
  lemma DescribedAnswers(index: Index, file: Bytes, interval: nat, from: nat, to: nat)
    requires Describes(index, file, interval) && |file| <= MAX_OFFSET
    ensures Reply(index, file, from, to) == Answer(file, from, to)
  {
    AnswerIs(file, from, to);
    if 1 <= from < to && to - 1 <= index.messageCount {
      DescribedIsPlausible(index, file, interval);
      NearestMark(index, interval, from);
      var mark := LookUp(index.checkpoints, from).value;
      var i :| 0 <= i < |index.checkpoints| && index.checkpoints[i] == mark;
      assert MarkRight(file, interval, index.messageCount, index.checkpoints, i);
      RightMarkAnswers(index, file, from, to);
    }
  }

  /** The two files have equally many records, and every interval-th of them begins at the same offset. */
  predicate SameMarks(file: Bytes, other: Bytes, interval: nat)
    requires interval > 0
  {
    var n := |Records(file, 0)|;
    && n == |Records(other, 0)|
    && forall i | 0 <= i < CheckpointCount(n, interval) :: SameMark(file, other, i * interval)
  }

  predicate SameMark(file: Bytes, other: Bytes, k: nat) {
    k <= |Records(file, 0)| && k <= |Records(other, 0)| && OffsetOf(file, 0, k) == OffsetOf(other, 0, k)
  }

  /** The index of one file describes another if and only if their marks agree. */
  lemma DescribesOtherIff(index: Index, file: Bytes, other: Bytes, interval: nat)
    requires Describes(index, file, interval)
    ensures Describes(index, other, interval) <==> SameMarks(file, other, interval)
  {
    var cs, n := index.checkpoints, index.messageCount;
    forall i | 0 <= i < |cs|
      ensures n == |Records(other, 0)| ==>
        (MarkRight(other, interval, n, cs, i) <==> SameMark(file, other, i * interval))
    {
      assert MarkRight(file, interval, n, cs, i);
    }
  }

  // ----- The recovery source -----

  class FileMoldItchRecoverySource {
    const file: Bytes
    const checkpointInterval: nat
    var checkpoints: seq<Checkpoint>
    var indexedMessages: nat
    var indexReady: bool
    var indexLoadedFromDisk: bool
    var recoveryRequests: nat
    var recoveredMessages: nat

    /** How many records the last recovery read before the first one it was asked for. */
    ghost var skipped: nat

    function TheIndex(): Index
      reads this
    {
      Index(indexedMessages, checkpoints)
    }

    /** A ready index has passed the checks of loading, or would. */
    ghost predicate Valid()
      reads this
    {
      && |file| <= MAX_OFFSET && checkpointInterval < TWO_64
      && (indexReady ==> Plausible(TheIndex(), checkpointInterval))
    }

    constructor (file: Bytes, checkpointInterval: nat)
      requires |file| <= MAX_OFFSET && checkpointInterval < TWO_64
      ensures this.file == file && this.checkpointInterval == checkpointInterval
      ensures !indexReady && Valid() && recoveryRequests == 0 && recoveredMessages == 0
    {
      this.file, this.checkpointInterval := file, checkpointInterval;
      checkpoints, indexedMessages := [], 0;
      indexReady, indexLoadedFromDisk := false, false;
      recoveryRequests, recoveredMessages := 0, 0;
    }

    /** The index of the file, from the bytes `stored` of an index file if there is one and it loads;
        otherwise from a scan, and then `saved` are the bytes kept for next time. */
    method Initialize(stored: Option<Bytes>) returns (saved: Option<Bytes>)
      requires Valid() && !indexReady
      modifies this
      ensures Valid() && recoveryRequests == old(recoveryRequests) && recoveredMessages == old(recoveredMessages)
      ensures indexLoadedFromDisk <==>
                checkpointInterval > 0 && stored.Some? && Load(stored.value, checkpointInterval, |file|).Some?
      ensures indexLoadedFromDisk ==>
                indexReady && TheIndex() == Load(stored.value, checkpointInterval, |file|).value
      ensures !indexLoadedFromDisk ==> (indexReady <==> checkpointInterval > 0 && Records(file, 0) != [])
      ensures !indexLoadedFromDisk && indexReady ==> Describes(TheIndex(), file, checkpointInterval)
      ensures saved == if indexReady && !indexLoadedFromDisk
                       then Some(Serialize(TheIndex(), checkpointInterval, |file|)) else None
    {
      saved, indexLoadedFromDisk := None, false;
      if checkpointInterval == 0 {
        return;
      }
      if stored.Some? {
        var index := LoadIndex(stored.value, checkpointInterval, |file|);
        if index.Some? {
          indexedMessages, checkpoints := index.value.messageCount, index.value.checkpoints;
          indexLoadedFromDisk, indexReady := true, true;
          return;
        }
      }
      var built := BuildIndex();
      if !built {
        return;
      }
      RecordsFit(file, 0);
      DescribedIsPlausible(TheIndex(), file, checkpointInterval);
      saved := SaveIndex(TheIndex(), checkpointInterval, |file|);
      indexReady := saved.Some?;
    }

    /** One pass over the file; true if and only if there is something to index. */
    method BuildIndex() returns (built: bool)
      requires checkpointInterval > 0
      modifies this`checkpoints, this`indexedMessages
      ensures built <==> Records(file, 0) != []
      ensures built ==> Describes(TheIndex(), file, checkpointInterval)
    {
      checkpoints, indexedMessages := [], 0;
      var reader := new ItchStreamReader(file, 0);
      var sequence := 1;
      ghost var n := |Records(file, 0)|;
      while true
        invariant reader.file == file && reader.Valid()
        invariant sequence == indexedMessages + 1 && indexedMessages <= n
        invariant reader.position == OffsetOf(file, 0, indexedMessages)
        invariant Marks(file, checkpointInterval, indexedMessages, checkpoints)
        decreases n - indexedMessages
      {
        var position := reader.position;
        RecordAt(file, 0, indexedMessages);
        var record := reader.ReadNext();
        if !record.status.Message? {
          return checkpoints != [];
        }
        MarksGrow(file, checkpointInterval, indexedMessages, checkpoints);
        if (sequence - 1) % checkpointInterval == 0 {
          checkpoints := checkpoints + [Checkpoint(sequence, position)];
        }
        indexedMessages := indexedMessages + 1;
        sequence := sequence + 1;
      }
    }

    /** The last checkpoint at or before `sequence`, by binary search for the first one after it. */
    method FindCheckpoint(sequence: nat) returns (r: Option<Checkpoint>)
      requires Ascending(checkpoints)
      ensures r == if sequence == 0 then None else LookUp(checkpoints, sequence)
    {
      if checkpoints == [] || sequence == 0 {
        return None;
      }
      var first, length := 0, |checkpoints|;
      while length > 0
        invariant 0 <= first && 0 <= length && first + length <= |checkpoints|
        invariant forall i | 0 <= i < first :: checkpoints[i].sequence <= sequence
        invariant forall i | first + length <= i < |checkpoints| :: sequence < checkpoints[i].sequence
        decreases length
      {
        var half := length / 2;
        var middle := first + half;
        if sequence < checkpoints[middle].sequence {
          length := half;
        } else {
          first := middle + 1;
          length := length - half - 1;
        }
      }
      LookUpIs(checkpoints, sequence, first);
      if first == 0 {
        return None;
      }
      return Some(checkpoints[first - 1]);
    }

    /** The messages [from, to), read from the nearest checkpoint on: exactly what the index leads to, or
        nothing at all; with an index that describes the file, the answer of a linear scan. */
    method Recover(from: nat, to: nat) returns (ok: bool, messages: seq<SequencedMessage>)
      requires Valid() && from < TWO_64 && to < TWO_64
      modifies this`recoveryRequests, this`recoveredMessages, this`skipped
      ensures Valid()
      ensures (if ok then Some(messages) else None) == if indexReady then Reply(TheIndex(), file, from, to) else None
      ensures indexReady && Describes(TheIndex(), file, checkpointInterval) ==>
                (if ok then Some(messages) else None) == Answer(file, from, to)
      ensures !ok ==> messages == []
      ensures ok ==> skipped < checkpointInterval
      ensures recoveryRequests == old(recoveryRequests) + 1
      ensures recoveredMessages == old(recoveredMessages) + |messages|
    {
      recoveryRequests := recoveryRequests + 1;
      ok, messages := false, [];
      if indexReady && Describes(TheIndex(), file, checkpointInterval) {
        DescribedAnswers(TheIndex(), file, checkpointInterval, from, to);
      }
      if from >= to || from == 0 || !indexReady {
        return;
      }
      if to - 1 > indexedMessages {
        return;
      }
      PlausibleAscends(TheIndex(), checkpointInterval);
      NearestMark(TheIndex(), checkpointInterval, from);
      var checkpoint := FindCheckpoint(from);
      if checkpoint.None? || checkpoint.value.fileOffset > MAX_OFFSET {
        return;
      }
      ok, messages := ScanFromMark(checkpoint.value, from, to);
      recoveredMessages := recoveredMessages + |messages|;
    }

    /** The two loops of a recovery: on to the first record requested, then the records requested. */
    method ScanFromMark(mark: Checkpoint, from: nat, to: nat) returns (ok: bool, messages: seq<SequencedMessage>)
      requires mark.sequence <= from < to
      modifies this`skipped
      ensures (if ok then Some(messages) else None) == ScanFrom(file, mark, from, to)
      ensures !ok ==> messages == []
      ensures ok ==> skipped == from - mark.sequence
    {
      // a seek beyond the end succeeds, and the reads after it find nothing
      var reader := new ItchStreamReader(file, Seek(file, mark.fileOffset));
      ghost var rs := Records(file, reader.position);
      var found := SkipTo(reader, mark.sequence, from);
      if !found {
        return false, [];
      }
      ok, messages := ReadRange(reader, from, to);
    }

    /** The scan from a mark's record to the first one requested. */
    method SkipTo(reader: ItchStreamReader, start: nat, from: nat) returns (found: bool)
      requires start <= from && reader.file == file && reader.Valid()
      modifies reader, this`skipped
      ensures reader.Valid()
      ensures found <==> from - start <= |Records(file, old(reader.position))|
      ensures found ==> Records(file, reader.position) == Records(file, old(reader.position))[from - start..]
      ensures found ==> skipped == from - start
    {
      var current := start;
      skipped := 0;
      ghost var rs := Records(file, reader.position);
      while current < from
        invariant start <= current <= from && skipped == current - start <= |rs|
        invariant reader.Valid() && Records(file, reader.position) == rs[skipped..]
        decreases from - current
      {
        ReadsOn(file, reader.position, rs, skipped);
        var record := reader.ReadNext();
        if !record.status.Message? {
          return false;
        }
        skipped := skipped + 1;
        current := current + 1;
      }
      return true;
    }

    /** The recovery loop proper, from where the stream stands. */
    method ReadRange(reader: ItchStreamReader, from: nat, to: nat) returns (ok: bool, messages: seq<SequencedMessage>)
      requires from < to && reader.file == file && reader.Valid()
      modifies reader
      ensures var rs := Records(file, old(reader.position));
              && (ok <==> Enough(rs, to - from))
              && messages == if ok then Numbered(rs, from, to - from) else []
    {
      messages := [];
      ghost var rs := Records(file, reader.position);
      assert Numbered(rs, from, 0) == [];
      var current := from;
      while current < to
        invariant from <= current <= to && current - from <= |rs| && Enough(rs, current - from)
        invariant reader.Valid() && Records(file, reader.position) == rs[current - from..]
        invariant messages == Numbered(rs, from, current - from)
      {
        ReadsOn(file, reader.position, rs, current - from);
        NumberedGrows(rs, from, current - from);
        var record := reader.ReadNext();
        if !record.status.Message? || record.payload == [] {
          return false, [];
        }
        if |record.payload| > MAX_PAYLOAD_SIZE {
          return false, [];
        }
        messages := messages + [SequencedMessage(current, record.payload)];
        current := current + 1;
      }
      ok := Verify(messages, from, to);
      if !ok {
        return false, [];
      }
    }

    /** The defensive check of what was collected. */
    method Verify(messages: seq<SequencedMessage>, from: nat, to: nat) returns (ok: bool)
      requires from <= to
      ensures ok <==> Covers(messages, from, to)
    {
      if |messages| != to - from {
        return false;
      }
      var i := 0;
      while i < |messages|
        invariant 0 <= i <= |messages|
        invariant forall k | 0 <= k < i :: messages[k].sequence == from + k
      {
        if messages[i].sequence != from + i {
          return false;
        }
        i := i + 1;
      }
      return true;
    }
  }

  lemma NumberedGrows(rs: seq<Bytes>, from: nat, k: nat)
    requires k <= |rs|
    ensures k < |rs| ==> Numbered(rs, from, k + 1) == Numbered(rs, from, k) + [SequencedMessage(from + k, rs[k])]
    ensures k < |rs| && Enough(rs, k) ==> (Enough(rs, k + 1) <==> |rs[k]| <= MAX_PAYLOAD_SIZE)
  {
  }
}
