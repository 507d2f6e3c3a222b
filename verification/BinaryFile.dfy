/** The BinaryFILE reader: records of a 2-byte big-endian length and that many payload bytes; a zero
    length ends the session, and a record cut short by the end of the file is incomplete. */
module BinaryFile {
  import opened Wire

  /** File positions are signed 64-bit. */
  const MAX_OFFSET: nat := 0x7FFF_FFFF_FFFF_FFFF

  datatype Status = Message | EndOfSession | Incomplete

  datatype Record = Record(status: Status, payload: Bytes)

  /** What a read at `offset` finds, and where it leaves the stream. */
  function ReadAt(file: Bytes, offset: nat): (r: (Record, nat))
    requires offset <= |file|
    ensures offset <= r.1 <= |file|
  {
    if |file| - offset < 2 then (Record(Incomplete, []), |file|)
    else
      var length := ReadU16(file, offset);
      if length == 0 then (Record(EndOfSession, []), offset + 2)
      else if |file| - offset - 2 < length then (Record(Incomplete, []), |file|)
      else (Record(Message, file[offset + 2..offset + 2 + length]), offset + 2 + length)
  }

  predicate MessageAt(file: Bytes, offset: nat)
    requires offset <= |file|
  {
    ReadAt(file, offset).0.status.Message?
  }

  function NextOffset(file: Bytes, offset: nat): (next: nat)
    requires offset <= |file|
    ensures offset <= next <= |file|
    ensures MessageAt(file, offset) ==> offset + 2 < next
  {
    ReadAt(file, offset).1
  }

  function PayloadAt(file: Bytes, offset: nat): (m: Bytes)
    requires offset <= |file|
    ensures MessageAt(file, offset) ==> 0 < |m| && Framable(m)
  {
    if MessageAt(file, offset) then U16Read(file, offset); ReadAt(file, offset).0.payload else []
  }

  /** The payloads read from `offset` on, up to the first read that is not a message. */
  function Records(file: Bytes, offset: nat): (rs: seq<Bytes>)
    requires offset <= |file|
    ensures AllPayloads(rs)
    decreases |file| - offset
  {
    if MessageAt(file, offset) then [PayloadAt(file, offset)] + Records(file, NextOffset(file, offset)) else []
  }

  /** Where the k-th record from `offset` begins; for k the number of records, where they end. */
  function OffsetOf(file: Bytes, offset: nat, k: nat): (at: nat)
    requires offset <= |file| && k <= |Records(file, offset)|
    ensures offset <= at <= |file|
    decreases k
  {
    if k == 0 then offset else OffsetOf(file, NextOffset(file, offset), k - 1)
  }

  /** Reading from the k-th record's offset yields the records from the k-th on. */
  lemma {:induction false} RecordsFrom(file: Bytes, offset: nat, k: nat)
    requires offset <= |file| && k <= |Records(file, offset)|
    ensures Records(file, OffsetOf(file, offset, k)) == Records(file, offset)[k..]
    decreases k
  {
    if k == 0 {
    } else {
      RecordsFrom(file, NextOffset(file, offset), k - 1);
    }
  }

  /** The record at the k-th offset is the k-th one, and the next offset follows it. */
  lemma RecordAt(file: Bytes, offset: nat, k: nat)
    requires offset <= |file| && k <= |Records(file, offset)|
    ensures var at := OffsetOf(file, offset, k);
            && (MessageAt(file, at) <==> k < |Records(file, offset)|)
            && (k < |Records(file, offset)| ==> PayloadAt(file, at) == Records(file, offset)[k])
            && (k < |Records(file, offset)| ==> OffsetOf(file, offset, k + 1) == NextOffset(file, at))
  {
    RecordsFrom(file, offset, k);
    if k < |Records(file, offset)| {
      OffsetStep(file, offset, k);
    }
  }

  lemma {:induction false} OffsetStep(file: Bytes, offset: nat, k: nat)
    requires offset <= |file| && k < |Records(file, offset)|
    ensures OffsetOf(file, offset, k + 1) == NextOffset(file, OffsetOf(file, offset, k))
    decreases k
  {
    if k == 0 {
    } else {
      OffsetStep(file, NextOffset(file, offset), k - 1);
    }
  }

  /** Offsets grow by more than the two length bytes with each record. */
  lemma {:induction false} OffsetsGrow(file: Bytes, offset: nat, j: nat, k: nat)
    requires offset <= |file| && j <= k <= |Records(file, offset)|
    ensures OffsetOf(file, offset, j) + 3 * (k - j) <= OffsetOf(file, offset, k)
    decreases k
  {
    if j == k {
    } else {
      OffsetsGrow(file, offset, j, k - 1);
      RecordAt(file, offset, k - 1);
    }
  }

  /** Where the records from the k-th on are left to read, a read gives the k-th, if there is one. */
  lemma ReadsOn(file: Bytes, at: nat, rs: seq<Bytes>, k: nat)
    requires at <= |file| && k <= |rs| && Records(file, at) == rs[k..]
    ensures var (record, next) := ReadAt(file, at);
            && (record.status.Message? <==> k < |rs|)
            && (k < |rs| ==> record.payload == rs[k] && rs[k] != [] && Records(file, next) == rs[k + 1..])
  {
    if k < |rs| {
      assert rs[k..][0] == rs[k] && rs[k..][1..] == rs[k + 1..];
    }
  }

  /** A record takes at least three bytes. */
  lemma RecordsFit(file: Bytes, offset: nat)
    requires offset <= |file|
    ensures offset + 3 * |Records(file, offset)| <= |file|
  {
    OffsetsGrow(file, offset, 0, |Records(file, offset)|);
  }

  // ----- Framing and reading are inverse -----

  lemma ReadFramed(file: Bytes, at: nat, m: Bytes)
    requires 0 < |m| && Framable(m) && at + 2 + |m| <= |file|
    requires file[at..at + 2 + |m|] == Block(m)
    ensures ReadAt(file, at) == (Record(Message, m), at + 2 + |m|)
  {
    BlockAt(file, at, m);
  }

  /** Payloads a record can carry: the zero length is the end-of-session mark. */
  ghost predicate AllPayloads(ms: seq<Bytes>) {
    AllFramable(ms) && forall i | 0 <= i < |ms| :: 0 < |ms[i]|
  }

  /** The records from a message on are its payload, then those behind it. */
  lemma FirstRecord(file: Bytes, offset: nat, k: nat)
    requires offset <= |file| && MessageAt(file, offset) && k <= |Records(file, NextOffset(file, offset))|
    ensures var rs, rest := Records(file, offset), Records(file, NextOffset(file, offset));
            && rs == [PayloadAt(file, offset)] + rest && rs[1..] == rest && |rs| == 1 + |rest|
            && Blocks(rs) == Block(PayloadAt(file, offset)) + Blocks(rest)
            && OffsetOf(file, offset, k + 1) == OffsetOf(file, NextOffset(file, offset), k)
  {
  }

  lemma Prepend(file: Bytes, at: nat, m: Bytes, rest: seq<Bytes>, next: nat)
    requires at <= next <= |file| && ReadAt(file, at) == (Record(Message, m), next) && Records(file, next) == rest
    ensures Records(file, at) == [m] + rest
    ensures OffsetOf(file, at, |rest| + 1) == OffsetOf(file, next, |rest|)
  {
  }

  lemma {:induction false} ReadBackFrom(file: Bytes, at: nat, end: nat, ms: seq<Bytes>)
    requires AllPayloads(ms) && at <= end <= |file|
    requires file[at..end] == Blocks(ms) && !MessageAt(file, end)
    ensures Records(file, at) == ms && OffsetOf(file, at, |ms|) == end
    decreases |ms|
  {
    if ms == [] {
    } else {
      var next := SplitBlocks(file, at, end, ms);
      ReadFramed(file, at, ms[0]);
      ReadBackFrom(file, next, end, ms[1..]);
      Prepend(file, at, ms[0], ms[1..], next);
      assert [ms[0]] + ms[1..] == ms;
    }
  }

  /** Two zero bytes. */
  predicate EndMarkAt(file: Bytes, at: nat) {
    at + 2 <= |file| && file[at] == 0 && file[at + 1] == 0
  }

  /** The length in two bytes, the high one first. */
  function LengthAt(file: Bytes, at: nat): nat
    requires at + 2 <= |file|
  {
    var high: nat, low: nat := file[at], file[at + 1];
    high * 256 + low
  }

  /** Fewer bytes than a length takes, or than the non-zero length there announces. */
  predicate CutAt(file: Bytes, at: nat) {
    at + 2 > |file| || (!EndMarkAt(file, at) && at + 2 + LengthAt(file, at) > |file|)
  }

  /** What a read finds, by the bytes at its position: the end mark, a cut record, or as many payload bytes as
      the length announces, its high byte first. */
  lemma ReadMeans(file: Bytes, at: nat)
    requires at <= |file|
    ensures var (record, next) := ReadAt(file, at);
            && (record.status == EndOfSession <==> EndMarkAt(file, at))
            && (record.status == Incomplete <==> CutAt(file, at))
            && (record.status == EndOfSession ==> record.payload == [] && next == at + 2)
            && (record.status == Incomplete ==> record.payload == [] && next == |file|)
            && (record.status == Message ==>
                  && at + 2 <= |file| && next == at + 2 + LengthAt(file, at) <= |file|
                  && record.payload == file[at + 2..next])
  {
  }

  /** Reading the concatenation of framed payloads gives back exactly those payloads, and then what
      follows them, as long as that is not itself a message: the end of the session at an end mark, an
      incomplete record at the end of the file or at a record that is cut short. */
  lemma ReadBack(ms: seq<Bytes>, after: Bytes)
    requires AllPayloads(ms) && !MessageAt(after, 0)
    ensures var file, end := Blocks(ms) + after, |Blocks(ms)|;
            && Records(file, 0) == ms && OffsetOf(file, 0, |ms|) == end && ReadAt(file, end).0 == ReadAt(after, 0).0
            && (EndMarkAt(after, 0) || CutAt(after, 0))
            && (EndMarkAt(after, 0) ==> ReadAt(file, end).0 == Record(EndOfSession, []))
            && (CutAt(after, 0) ==> ReadAt(file, end).0 == Record(Incomplete, []))
  {
    ReadMeans(after, 0);
    var file, end := Blocks(ms) + after, |Blocks(ms)|;
    ReadSuffix(Blocks(ms), after);
    assert file[0..end] == Blocks(ms);
    ReadBackFrom(file, 0, end, ms);
  }

  lemma ReadSuffix(before: Bytes, after: Bytes)
    ensures ReadAt(before + after, |before|).0 == ReadAt(after, 0).0
  {
    var file := before + after;
    if |after| >= 2 {
      assert ReadU16(file, |before|) == ReadU16(after, 0);
      var length := ReadU16(after, 0);
      if length <= |after| - 2 {
        assert file[|before| + 2..|before| + 2 + length] == after[2..2 + length];
      }
    }
  }

  lemma MessageIsFramed(file: Bytes, offset: nat)
    requires offset <= |file| && MessageAt(file, offset)
    ensures file[offset..NextOffset(file, offset)] == Block(PayloadAt(file, offset))
  {
    U16Read(file, offset);
    var next := NextOffset(file, offset);
    assert file[offset..next] == file[offset..offset + 2] + file[offset + 2..next];
  }

  /** Every file begins with its records, framed. */
  lemma {:induction false} FileIsFramed(file: Bytes, offset: nat)
    requires offset <= |file|
    ensures file[offset..OffsetOf(file, offset, |Records(file, offset)|)] == Blocks(Records(file, offset))
    decreases |file| - offset
  {
    if !MessageAt(file, offset) {
    } else {
      var next := NextOffset(file, offset);
      var end := OffsetOf(file, next, |Records(file, next)|);
      FileIsFramed(file, next);
      MessageIsFramed(file, offset);
      FirstRecord(file, offset, |Records(file, next)|);
      assert file[offset..end] == file[offset..next] + file[next..end];
    }
  }

  // ----- The reader object -----

  class ItchStreamReader {
    const file: Bytes
    var position: nat

    predicate Valid()
      reads this
    {
      position <= |file|
    }

    constructor (file: Bytes, position: nat)
      requires position <= |file|
      ensures Valid() && this.file == file && this.position == position
    {
      this.file, this.position := file, position;
    }

    /** The record at the stream position; the position then is behind what was consumed. */
    method ReadNext() returns (record: Record)
      requires Valid()
      modifies this
      ensures Valid()
      ensures (record, position) == ReadAt(file, old(position))
      ensures record.status == EndOfSession <==> EndMarkAt(file, old(position))
      ensures record.status == Incomplete <==> CutAt(file, old(position))
      ensures record.status == Message ==>
                && old(position) + 2 <= |file| && position == old(position) + 2 + LengthAt(file, old(position))
                && record.payload == file[old(position) + 2..position]
      ensures record.status.Message? ==> old(position) + 2 < position
    {
      if |file| - position < 2 {
        position := |file|;
        return Record(Incomplete, []);
      }
      var payloadLength := ReadU16(file, position);
      position := position + 2;
      if payloadLength == 0 {
        return Record(EndOfSession, []);
      }
      if |file| - position < payloadLength {
        position := |file|;
        return Record(Incomplete, []);
      }
      record := Record(Message, file[position..position + payloadLength]);
      position := position + payloadLength;
    }
  }
}
