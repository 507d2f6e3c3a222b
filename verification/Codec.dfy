/** The MoldUDP64 codec: downstream packet header (MoldUDP64 Protocol Specification, "Downstream
    Packet") and message blocks, written into and read from a datagram. */
module Codec {
  import opened MarketTypes
  import opened Wire

  const SESSION_SIZE: nat := 10
  const HEADER_SIZE: nat := 20
  const MAX_DATAGRAM_SIZE: nat := 1400
  const SEQUENCE_OFFSET: nat := 10
  const COUNT_OFFSET: nat := 18

  type Session = s: Bytes | |s| == SESSION_SIZE witness [0, 0, 0, 0, 0, 0, 0, 0, 0, 0]
  type Sequence = x: nat | x < TWO_64

  datatype Header = Header(session: Session, sequence: Sequence, count: nat)

  /** One packet as the protocol describes it: consecutive messages from a first sequence number. */
  datatype Packet = Packet(session: Session, sequence: Sequence, messages: seq<Bytes>)

  predicate ValidHeader(h: Header) {
    h.count <= MAX_U16
  }

  ghost predicate ValidPacket(p: Packet) {
    |p.messages| <= MAX_U16 && AllFramable(p.messages)
  }

  // ----- The wire format -----

  function HeaderBytes(h: Header): (b: Bytes)
    ensures |b| == HEADER_SIZE
  {
    h.session + ToBytes(h.sequence, 8) + ToBytes(h.count, 2)
  }

  function Encode(p: Packet): Bytes
    requires ValidPacket(p)
  {
    HeaderBytes(Header(p.session, p.sequence, |p.messages|)) + Blocks(p.messages)
  }

  // ----- Reading -----

  function ReadU64(b: Bytes, at: nat): nat
    requires at + 8 <= |b|
  {
    var b0: nat, b1: nat, b2: nat, b3: nat := b[at], b[at + 1], b[at + 2], b[at + 3];
    var b4: nat, b5: nat, b6: nat, b7: nat := b[at + 4], b[at + 5], b[at + 6], b[at + 7];
    b0 * 0x100_0000_0000_0000 + b1 * 0x1_0000_0000_0000 + b2 * 0x100_0000_0000 + b3 * 0x1_0000_0000
    + b4 * 0x100_0000 + b5 * 0x1_0000 + b6 * 0x100 + b7
  }

  lemma U64FromBytes(b: Bytes)
    requires |b| == 8
    ensures FromBytes(b) == ReadU64(b, 0)
  {
    assert FromBytes(b[..1]) == b[0] by { assert b[..1][..0] == []; }
    assert FromBytes(b[..2]) == 256 * FromBytes(b[..1]) + b[1] by { assert b[..2][..1] == b[..1]; }
    assert FromBytes(b[..3]) == 256 * FromBytes(b[..2]) + b[2] by { assert b[..3][..2] == b[..2]; }
    assert FromBytes(b[..4]) == 256 * FromBytes(b[..3]) + b[3] by { assert b[..4][..3] == b[..3]; }
    assert FromBytes(b[..5]) == 256 * FromBytes(b[..4]) + b[4] by { assert b[..5][..4] == b[..4]; }
    assert FromBytes(b[..6]) == 256 * FromBytes(b[..5]) + b[5] by { assert b[..6][..5] == b[..5]; }
    assert FromBytes(b[..7]) == 256 * FromBytes(b[..6]) + b[6] by { assert b[..7][..6] == b[..6]; }
    assert FromBytes(b) == 256 * FromBytes(b[..7]) + b[7];
  }

  lemma Pow256Of8()
    ensures Pow256(8) == TWO_64
  {
    assert Pow256(4) == 0x1_0000_0000;
    assert Pow256(6) == 0x1_0000_0000_0000;
  }

  /** The word read is the one whose eight bytes these are. */
  lemma U64Read(b: Bytes, at: nat)
    requires at + 8 <= |b|
    ensures ReadU64(b, at) < TWO_64 && b[at..at + 8] == ToBytes(ReadU64(b, at), 8)
  {
    var w := b[at..at + 8];
    assert forall i | 0 <= i < 8 :: w[i] == b[at + i];
    U64FromBytes(w);
    ToFrom(w);
    Pow256Of8();
  }

  lemma U64ReadBack(b: Bytes, at: nat, v: nat)
    requires at + 8 <= |b| && v < TWO_64 && b[at..at + 8] == ToBytes(v, 8)
    ensures ReadU64(b, at) == v
  {
    var w := b[at..at + 8];
    assert forall i | 0 <= i < 8 :: w[i] == b[at + i];
    U64FromBytes(w);
    Pow256Of8();
    FromTo(v, 8);
  }

  function DecodeHeader(data: Bytes): Option<Header> {
    if |data| < HEADER_SIZE then None
    else
      U64Read(data, SEQUENCE_OFFSET);
      Some(Header(data[..SESSION_SIZE], ReadU64(data, SEQUENCE_OFFSET), ReadU16(data, COUNT_OFFSET)))
  }

  /** A header is decoded if and only if twenty bytes are there, and it is the one encoded in them. */
  lemma HeaderDecodes(data: Bytes)
    ensures DecodeHeader(data).Some? <==> |data| >= HEADER_SIZE
    ensures DecodeHeader(data).Some? ==>
              ValidHeader(DecodeHeader(data).value) && data[..HEADER_SIZE] == HeaderBytes(DecodeHeader(data).value)
  {
    if |data| >= HEADER_SIZE {
      U64Read(data, SEQUENCE_OFFSET);
      U16Read(data, COUNT_OFFSET);
      assert data[..HEADER_SIZE] == data[..10] + data[10..18] + data[18..20];
    }
  }

  lemma HeaderRoundTrip(h: Header, rest: Bytes)
    requires ValidHeader(h)
    ensures DecodeHeader(HeaderBytes(h) + rest) == Some(h)
  {
    var data := HeaderBytes(h) + rest;
    assert data[..10] == h.session && data[10..18] == ToBytes(h.sequence, 8) && data[18..20] == ToBytes(h.count, 2);
    U64ReadBack(data, SEQUENCE_OFFSET, h.sequence);
    U16ReadBack(data, COUNT_OFFSET, h.count);
  }

  /** The message block at `offset`, and the offset behind it. */
  function BlockFrom(data: Bytes, offset: nat): Option<(Bytes, nat)> {
    if offset > |data| || |data| - offset < 2 then None
    else
      var size := ReadU16(data, offset);
      if size > |data| - (offset + 2) then None else Some((data[offset + 2..offset + 2 + size], offset + 2 + size))
  }

  /** A block is found exactly where one is encoded. */
  lemma BlockFound(data: Bytes, offset: nat)
    ensures BlockFrom(data, offset).Some? ==>
              var (m, next) := BlockFrom(data, offset).value;
              Framable(m) && next == offset + 2 + |m| <= |data| && data[offset..next] == Block(m)
  {
    if BlockFrom(data, offset).Some? {
      var (m, next) := BlockFrom(data, offset).value;
      U16Read(data, offset);
      assert data[offset..next] == data[offset..offset + 2] + m;
    }
  }

  lemma BlockReadBack(data: Bytes, at: nat, m: Bytes)
    requires Framable(m) && at + 2 + |m| <= |data| && data[at..at + 2 + |m|] == Block(m)
    ensures BlockFrom(data, at) == Some((m, at + 2 + |m|))
  {
    BlockAt(data, at, m);
  }

  /** Reads the block at `offset` and moves past it.  A block whose length is there but whose payload is
      cut short still moves the offset past the length. */
  method NextMessage(data: Bytes, offset: nat) returns (ok: bool, next: nat, message: Bytes)
    ensures ok <==> BlockFrom(data, offset).Some?
    ensures ok ==> BlockFrom(data, offset) == Some((message, next))
    ensures !ok ==> next == if offset + 2 <= |data| then offset + 2 else offset
  {
    if offset > |data| || |data| - offset < 2 {
      return false, offset, [];
    }
    var messageSize := ReadU16(data, offset);
    next := offset + 2;
    if messageSize > |data| - next {
      return false, next, [];
    }
    message := data[next..next + messageSize];
    return true, next + messageSize, message;
  }

  // ----- A whole datagram -----

  /** `count` blocks from `offset`, if they tile the rest of the datagram exactly. */
  function MessagesFrom(data: Bytes, offset: nat, count: nat): Option<seq<Bytes>>
    decreases count
  {
    if count == 0 then (if offset == |data| then Some([]) else None)
    else
      match BlockFrom(data, offset)
      case None => None
      case Some((m, next)) =>
        match MessagesFrom(data, next, count - 1)
        case None => None
        case Some(rest) => Some([m] + rest)
  }

  function Decode(data: Bytes): Option<Packet> {
    match DecodeHeader(data)
    case None => None
    case Some(h) =>
      match MessagesFrom(data, HEADER_SIZE, h.count)
      case None => None
      case Some(ms) => Some(Packet(h.session, h.sequence, ms))
  }

  /** What is decoded tiles the datagram: nothing is skipped and nothing is left over. */
  lemma {:induction false} MessagesTile(data: Bytes, offset: nat, count: nat)
    requires offset <= |data| && MessagesFrom(data, offset, count).Some?
    ensures var ms := MessagesFrom(data, offset, count).value;
            |ms| == count && AllFramable(ms) && data[offset..] == Blocks(ms)
    decreases count
  {
    if count == 0 {
    } else {
      BlockFound(data, offset);
      var (m, next) := BlockFrom(data, offset).value;
      MessagesTile(data, next, count - 1);
      assert data[offset..] == data[offset..next] + data[next..];
      assert ([m] + MessagesFrom(data, next, count - 1).value)[1..] == MessagesFrom(data, next, count - 1).value;
    }
  }

  lemma {:induction false} MessagesReadBack(data: Bytes, at: nat, ms: seq<Bytes>)
    requires AllFramable(ms) && at <= |data| && data[at..|data|] == Blocks(ms)
    ensures MessagesFrom(data, at, |ms|) == Some(ms)
    decreases |ms|
  {
    if ms == [] {
    } else {
      var next := SplitBlocks(data, at, |data|, ms);
      BlockReadBack(data, at, ms[0]);
      MessagesReadBack(data, next, ms[1..]);
      MessagesPrepend(data, at, next, ms);
    }
  }

  lemma MessagesPrepend(data: Bytes, at: nat, next: nat, ms: seq<Bytes>)
    requires ms != [] && BlockFrom(data, at) == Some((ms[0], next))
    requires MessagesFrom(data, next, |ms[1..]|) == Some(ms[1..])
    ensures MessagesFrom(data, at, |ms|) == Some(ms)
  {
    assert [ms[0]] + ms[1..] == ms;
  }

  /** decode(encode(p)) == p. */
  lemma DecodeEncode(p: Packet)
    requires ValidPacket(p)
    ensures Decode(Encode(p)) == Some(p)
  {
    var h := Header(p.session, p.sequence, |p.messages|);
    HeaderRoundTrip(h, Blocks(p.messages));
    MessagesReadBack(Encode(p), HEADER_SIZE, p.messages);
  }

  /** Where everything lies in a datagram: ten bytes of session, the sequence number in the next eight, the
      message count in two more, its high byte first, and the blocks from byte 20 on. */
  lemma PacketLayout(p: Packet)
    requires ValidPacket(p)
    ensures var b := Encode(p);
            && |b| == 20 + |Blocks(p.messages)| && b[..10] == p.session && ReadU64(b, 10) == p.sequence
            && (var high: nat, low: nat := b[18], b[19]; high * 256 + low == |p.messages|)
            && b[20..] == Blocks(p.messages)
  {
    HeaderRoundTrip(Header(p.session, p.sequence, |p.messages|), Blocks(p.messages));
  }

  /** encode(decode(data)) == data, so a datagram that decodes is the only one that decodes to its packet. */
  lemma EncodeDecode(data: Bytes)
    requires Decode(data).Some?
    ensures ValidPacket(Decode(data).value) && Encode(Decode(data).value) == data
  {
    HeaderDecodes(data);
    var h := DecodeHeader(data).value;
    MessagesTile(data, HEADER_SIZE, h.count);
    assert data == data[..HEADER_SIZE] + data[HEADER_SIZE..];
  }

  // ----- Writing -----

  method WriteU16(output: array<Byte>, at: nat, value: nat)
    requires at + 2 <= output.Length && value <= MAX_U16
    modifies output
    ensures output[..] == Splice(old(output[..]), at, ToBytes(value, 2))
  {
    U16Bytes(value);
    output[at] := value / 256 % 256;
    output[at + 1] := value % 256;
  }

  /** Dropping one byte after another is one shift. */
  lemma Shifts(v: nat)
    ensures v / 0x1_0000 == v / 0x100 / 256
    ensures v / 0x100_0000 == v / 0x1_0000 / 256
    ensures v / 0x1_0000_0000 == v / 0x100_0000 / 256
    ensures v / 0x100_0000_0000 == v / 0x1_0000_0000 / 256
    ensures v / 0x1_0000_0000_0000 == v / 0x100_0000_0000 / 256
    ensures v / 0x100_0000_0000_0000 == v / 0x1_0000_0000_0000 / 256
  {
  }

  lemma U64Bytes(v: nat)
    requires v < TWO_64
    ensures ToBytes(v, 8) == [v / 0x100_0000_0000_0000 % 256, v / 0x1_0000_0000_0000 % 256, v / 0x100_0000_0000 % 256,
                              v / 0x1_0000_0000 % 256, v / 0x100_0000 % 256,
                              v / 0x1_0000 % 256, v / 0x100 % 256, v % 256]
  {
    Shifts(v);
    assert ToBytes(v, 8) == ToBytes(v / 0x100, 7) + [v % 256];
    assert ToBytes(v / 0x100, 7) == ToBytes(v / 0x1_0000, 6) + [v / 0x100 % 256];
    assert ToBytes(v / 0x1_0000, 6) == ToBytes(v / 0x100_0000, 5) + [v / 0x1_0000 % 256];
    assert ToBytes(v / 0x100_0000, 5) == ToBytes(v / 0x1_0000_0000, 4) + [v / 0x100_0000 % 256];
    assert ToBytes(v / 0x1_0000_0000, 4) == ToBytes(v / 0x100_0000_0000, 3) + [v / 0x1_0000_0000 % 256];
    assert ToBytes(v / 0x100_0000_0000, 3) == ToBytes(v / 0x1_0000_0000_0000, 2) + [v / 0x100_0000_0000 % 256];
    assert ToBytes(v / 0x1_0000_0000_0000, 2) == ToBytes(v / 0x100_0000_0000_0000, 1) + [v / 0x1_0000_0000_0000 % 256];
    assert ToBytes(v / 0x100_0000_0000_0000, 1) == [v / 0x100_0000_0000_0000 % 256];
  }

  method WriteU64(output: array<Byte>, at: nat, value: nat)
    requires at + 8 <= output.Length && value < TWO_64
    modifies output
    ensures output[..] == Splice(old(output[..]), at, ToBytes(value, 8))
  {
    U64Bytes(value);
    var high: seq<Byte> := [value / 0x100_0000_0000_0000 % 256, value / 0x1_0000_0000_0000 % 256,
                            value / 0x100_0000_0000 % 256, value / 0x1_0000_0000 % 256];
    var low: seq<Byte> := [value / 0x100_0000 % 256, value / 0x1_0000 % 256, value / 0x100 % 256, value % 256];
    assert ToBytes(value, 8) == high + low;
    StoreFour(output, at, high);
    StoreFour(output, at + 4, low);
    SpliceTwice(old(output[..]), at, high, low);
  }

  method StoreFour(output: array<Byte>, at: nat, b: seq<Byte>)
    requires at + 4 <= output.Length && |b| == 4
    modifies output
    ensures output[..] == Splice(old(output[..]), at, b)
  {
    output[at] := b[0];
    output[at + 1] := b[1];
    output[at + 2] := b[2];
    output[at + 3] := b[3];
  }

  method CopyBytes(output: array<Byte>, at: nat, bytes: Bytes)
    requires at + |bytes| <= output.Length
    modifies output
    ensures output[..] == Splice(old(output[..]), at, bytes)
  {
    forall i | 0 <= i < |bytes| {
      output[at + i] := bytes[i];
    }
  }

  /** `output` holds an open packet of `encodedSize` bytes: a header whose count is still zero, and `ms`. */
  ghost predicate Open(output: Bytes, encodedSize: nat, session: Session, first: Sequence, ms: seq<Bytes>) {
    && AllFramable(ms)
    && encodedSize == HEADER_SIZE + |Blocks(ms)| <= |output|
    && output[..encodedSize] == HeaderBytes(Header(session, first, 0)) + Blocks(ms)
  }

  method BeginPacket(session: Session, first: Sequence, output: array<Byte>) returns (encodedSize: nat)
    requires output.Length == MAX_DATAGRAM_SIZE
    modifies output
    ensures Open(output[..], encodedSize, session, first, [])
    ensures encodedSize == HEADER_SIZE
  {
    forall i | 0 <= i < output.Length {
      output[i] := 0;
    }
    CopyBytes(output, 0, session);
    WriteU64(output, SEQUENCE_OFFSET, first);
    WriteU16(output, COUNT_OFFSET, 0);
    encodedSize := HEADER_SIZE;
    assert output[..20] == output[..10] + output[10..18] + output[18..20];
  }

  /** Appends one block if it fits, and otherwise changes nothing. */
  method AppendMessage(message: Bytes, output: array<Byte>, encodedSize: nat, count: nat)
    returns (ok: bool, newSize: nat, newCount: nat)
    modifies output
    ensures ok <==> 0 < |message| <= 0xFFFF && count != 0xFFFF && encodedSize + 2 + |message| <= output.Length
    ensures ok ==> newSize == encodedSize + 2 + |message| && newCount == count + 1
                   && output[..] == Splice(old(output[..]), encodedSize, Block(message))
    ensures !ok ==> newSize == encodedSize && newCount == count && output[..] == old(output[..])
  {
    ok, newSize, newCount := false, encodedSize, count;
    if |message| == 0 || |message| > MAX_U16 || count == MAX_U16 {
      return;
    }
    var requiredSize := 2 + |message|;
    if encodedSize > output.Length || requiredSize > output.Length - encodedSize {
      return;
    }
    WriteU16(output, encodedSize, |message|);
    newSize := encodedSize + 2;
    CopyBytes(output, newSize, message);
    newSize := newSize + |message|;
    newCount := count + 1;
    SpliceTwice(old(output[..]), encodedSize, ToBytes(|message|, 2), message);
    ok := true;
  }

  /** Appending to an open packet leaves an open packet with one more message. */
  lemma AppendKeepsOpen(output: Bytes, encodedSize: nat, session: Session, first: Sequence, ms: seq<Bytes>, m: Bytes)
    requires Open(output, encodedSize, session, first, ms)
    requires Framable(m) && encodedSize + 2 + |m| <= |output|
    ensures Open(Splice(output, encodedSize, Block(m)), encodedSize + 2 + |m|, session, first, ms + [m])
  {
    BlocksConcat(ms, [m]);
    assert Blocks([m]) == Block(m) by {
      assert [m][1..] == [];
      assert Block(m) + [] == Block(m);
    }
    var after := Splice(output, encodedSize, Block(m));
    assert after[..encodedSize + 2 + |m|] == output[..encodedSize] + Block(m);
    assert HeaderBytes(Header(session, first, 0)) + Blocks(ms) + Block(m)
        == HeaderBytes(Header(session, first, 0)) + (Blocks(ms) + Block(m));
  }

  /** Writing the count closes the packet. */
  method FinalizePacket(output: array<Byte>, count: nat)
    requires HEADER_SIZE <= output.Length && count <= MAX_U16
    modifies output
    ensures output[..] == Splice(old(output[..]), COUNT_OFFSET, ToBytes(count, 2))
  {
    WriteU16(output, COUNT_OFFSET, count);
  }

  /** begin, append and finalize leave exactly the packet's encoding in the buffer. */
  lemma FinalizedIsEncoded(output: Bytes, encodedSize: nat, session: Session, first: Sequence, ms: seq<Bytes>)
    requires Open(output, encodedSize, session, first, ms) && |ms| <= MAX_U16
    ensures Splice(output, COUNT_OFFSET, ToBytes(|ms|, 2))[..encodedSize] == Encode(Packet(session, first, ms))
  {
    var count := ToBytes(|ms|, 2);
    OpenParts(output, encodedSize, session, first, ms);
    SplicePrefix(output, COUNT_OFFSET, count, encodedSize);
    assert output[..COUNT_OFFSET] + count == HeaderBytes(Header(session, first, |ms|));
  }

  /** The header of an open packet up to its count, and what follows the count. */
  lemma OpenParts(output: Bytes, encodedSize: nat, session: Session, first: Sequence, ms: seq<Bytes>)
    requires Open(output, encodedSize, session, first, ms)
    ensures output[..COUNT_OFFSET] == session + ToBytes(first, 8)
    ensures output[HEADER_SIZE..encodedSize] == Blocks(ms)
  {
    var head, tail, count := session + ToBytes(first, 8), Blocks(ms), ToBytes(0, 2);
    assert HeaderBytes(Header(session, first, 0)) == head + count;
    ThreeParts(output, encodedSize, head, count, tail);
  }

  /** The first part of a prefix, and the last one. */
  lemma ThreeParts(output: Bytes, end: nat, head: Bytes, middle: Bytes, tail: Bytes)
    requires end <= |output| && output[..end] == head + middle + tail
    ensures output[..|head|] == head && output[|head| + |middle|..end] == tail
  {
    TwoParts(output, 0, end, head + middle, tail);
    TwoParts(output, 0, |head| + |middle|, head, middle);
  }

  /** A splice, cut off behind what was written. */
  lemma SplicePrefix(output: Bytes, at: nat, bytes: Bytes, end: nat)
    requires at + |bytes| <= end <= |output|
    ensures Splice(output, at, bytes)[..end] == output[..at] + bytes + output[at + |bytes|..end]
  {
  }
}
