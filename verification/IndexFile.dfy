/** The persistent checkpoint index as a byte sequence, integers in the (little-endian) byte order of
    the host that writes it. */
module IndexFile {
  import opened MarketTypes
  import opened Arithmetic
  import opened Wire

  /** Where in the BinaryFILE the record with a sequence number begins. */
  datatype Checkpoint = Checkpoint(sequence: nat, fileOffset: nat)

  datatype Index = Index(messageCount: nat, checkpoints: seq<Checkpoint>)

  // "LLTMOLD1"
  const MAGIC: Bytes := [0x4C, 0x4C, 0x54, 0x4D, 0x4F, 0x4C, 0x44, 0x31]
  const VERSION: nat := 1

  // ----- Little-endian words -----

  function ToLittle(v: nat, n: nat): (b: Bytes)
    ensures |b| == n
  {
    if n == 0 then [] else [v % 256] + ToLittle(v / 256, n - 1)
  }

  function FromLittle(b: Bytes): nat {
    if b == [] then 0 else b[0] + 256 * FromLittle(b[1..])
  }

  lemma {:induction false} LittleFromTo(v: nat, n: nat)
    requires v < Pow256(n)
    ensures FromLittle(ToLittle(v, n)) == v
  {
    if n == 0 {
    } else {
      LittleFromTo(v / 256, n - 1);
      assert ToLittle(v, n)[1..] == ToLittle(v / 256, n - 1);
    }
  }

  lemma {:induction false} LittleToFrom(b: Bytes)
    ensures ToLittle(FromLittle(b), |b|) == b && FromLittle(b) < Pow256(|b|)
  {
    if b == [] {
    } else {
      LittleToFrom(b[1..]);
      Quotient(FromLittle(b), 256, FromLittle(b[1..]), b[0]);
      assert b == [b[0]] + b[1..];
    }
  }

  function U64(v: nat): (b: Bytes)
    ensures |b| == 8
  {
    ToLittle(v, 8)
  }

  lemma PowerOf8()
    ensures Pow256(8) == TWO_64
  {
    assert Pow256(4) == TWO_32;
    assert Pow256(6) == 0x1_0000_0000_0000;
  }

  /** Words written one behind the other. */
  function WordBytes(ws: seq<nat>): (b: Bytes)
    ensures |b| == 8 * |ws|
  {
    if ws == [] then [] else WordBytes(ws[..|ws| - 1]) + U64(ws[|ws| - 1])
  }

  function WordIn(b: Bytes, i: nat): nat
    requires 8 * (i + 1) <= |b|
  {
    FromLittle(b[8 * i..8 * i + 8])
  }

  /** Reading a word and having written it say the same. */
  lemma WordIs(b: Bytes, i: nat, v: nat)
    requires 8 * (i + 1) <= |b| && v < TWO_64
    ensures b[8 * i..8 * i + 8] == U64(v) <==> WordIn(b, i) == v
    ensures WordIn(b, i) < TWO_64
  {
    PowerOf8();
    LittleFromTo(v, 8);
    LittleToFrom(b[8 * i..8 * i + 8]);
  }

  lemma {:induction false} WordBytesAt(ws: seq<nat>, i: nat)
    requires i < |ws|
    ensures WordBytes(ws)[8 * i..8 * i + 8] == U64(ws[i])
  {
    var init := ws[..|ws| - 1];
    if i < |init| {
      WordBytesAt(init, i);
      assert WordBytes(ws)[8 * i..8 * i + 8] == WordBytes(init)[8 * i..8 * i + 8];
    }
  }

  lemma {:induction false} WordBytesAre(ws: seq<nat>, b: Bytes)
    requires |b| == 8 * |ws|
    requires forall i | 0 <= i < |ws| :: b[8 * i..8 * i + 8] == U64(ws[i])
    ensures b == WordBytes(ws)
  {
    if ws == [] {
    } else {
      var n := |ws| - 1;
      var init := b[..8 * n];
      forall i | 0 <= i < n
        ensures init[8 * i..8 * i + 8] == U64(ws[..n][i])
      {
        assert init[8 * i..8 * i + 8] == b[8 * i..8 * i + 8];
      }
      WordBytesAre(ws[..n], init);
      assert b == init + b[8 * n..8 * n + 8];
    }
  }

  /** The words in `b`, as many as are complete. */
  function WordsIn(b: Bytes): seq<nat> {
    seq(|b| / 8, i requires 0 <= i < |b| / 8 => WordIn(b, i))
  }

  lemma ReadWords(ws: seq<nat>)
    requires forall i | 0 <= i < |ws| :: ws[i] < TWO_64
    ensures WordsIn(WordBytes(ws)) == ws
  {
    forall i | 0 <= i < |ws|
      ensures WordIn(WordBytes(ws), i) == ws[i]
    {
      WordBytesAt(ws, i);
      WordIs(WordBytes(ws), i, ws[i]);
    }
  }

  lemma WriteWords(b: Bytes)
    requires |b| % 8 == 0
    ensures WordBytes(WordsIn(b)) == b
    ensures forall i | 0 <= i < |WordsIn(b)| :: WordsIn(b)[i] < TWO_64
  {
    var ws := WordsIn(b);
    forall i | 0 <= i < |ws|
      ensures ws[i] < TWO_64 && b[8 * i..8 * i + 8] == U64(ws[i])
    {
      WordIs(b, i, 0);
      WordIs(b, i, ws[i]);
    }
    WordBytesAre(ws, b);
  }

  // ----- The file -----

  /** The magic number, and the version as a 32-bit word. */
  const IDENTITY: Bytes := MAGIC + ToLittle(VERSION, 4)

  /** Everything behind the identity, as 64-bit words. */
  function WordsOf(index: Index, interval: nat, fileSize: nat): (ws: seq<nat>)
    ensures |ws| == 4 + 2 * |index.checkpoints|
  {
    [interval, index.messageCount, |index.checkpoints|, fileSize]
    + seq(2 * |index.checkpoints|, i requires 0 <= i < 2 * |index.checkpoints| =>
            if i % 2 == 0 then index.checkpoints[i / 2].sequence else index.checkpoints[i / 2].fileOffset)
  }

  function Serialize(index: Index, interval: nat, fileSize: nat): Bytes {
    IDENTITY + WordBytes(WordsOf(index, interval, fileSize))
  }

  /** How many checkpoints `count` messages have, one every `interval`. */
  function CheckpointCount(count: nat, interval: nat): nat
    requires interval > 0
  {
    if count == 0 then 0 else (count - 1) / interval + 1
  }

  /** All of the index fits 64-bit words. */
  ghost predicate Words(index: Index) {
    && index.messageCount < TWO_64 && |index.checkpoints| < TWO_64
    && forall i | 0 <= i < |index.checkpoints| ::
         index.checkpoints[i].sequence < TWO_64 && index.checkpoints[i].fileOffset < TWO_64
  }

  predicate EntryRight(cs: seq<Checkpoint>, interval: nat, i: nat)
    requires i < |cs|
  {
    && cs[i].sequence == 1 + i * interval
    && (if i == 0 then cs[i].fileOffset == 0 else cs[i - 1].fileOffset < cs[i].fileOffset)
  }

  ghost predicate AllRight(cs: seq<Checkpoint>, interval: nat) {
    forall i | 0 <= i < |cs| :: EntryRight(cs, interval, i)
  }

  /** An index `loadIndex` can trust as far as it can see: the right number of checkpoints, sequences
      1 + i * interval, offsets from zero and strictly increasing. */
  ghost predicate Plausible(index: Index, interval: nat) {
    && interval > 0 && index.messageCount > 0
    && |index.checkpoints| == CheckpointCount(index.messageCount, interval)
    && AllRight(index.checkpoints, interval)
  }

  // ----- Reading -----

  /** The first `n` entries behind the four metadata words. */
  function EntriesIn(ws: seq<nat>, n: nat): seq<Checkpoint>
    requires 4 + 2 * n <= |ws|
  {
    seq(n, i requires 0 <= i < n => Checkpoint(ws[4 + 2 * i], ws[5 + 2 * i]))
  }

  ghost function LoadWords(ws: seq<nat>, interval: nat, fileSize: nat): Option<Index>
    requires |ws| >= 4
  {
    if ws[0] != interval || ws[3] != fileSize || |ws| != 4 + 2 * ws[2] then None
    else
      var index := Index(ws[1], EntriesIn(ws, ws[2]));
      if Plausible(index, interval) then Some(index) else None
  }

  /** The index in `input`, if it is one for this interval and file size. */
  ghost function Load(input: Bytes, interval: nat, fileSize: nat): Option<Index> {
    if |input| < 44 || input[..12] != IDENTITY || |input[12..]| % 8 != 0 then None
    else LoadWords(WordsIn(input[12..]), interval, fileSize)
  }

  lemma WordsOfIndex(index: Index, interval: nat, fileSize: nat)
    ensures var ws, n := WordsOf(index, interval, fileSize), |index.checkpoints|;
            ws[0] == interval && ws[1] == index.messageCount && ws[2] == n && ws[3] == fileSize
            && EntriesIn(ws, n) == index.checkpoints
  {
  }

  lemma IndexOfWords(ws: seq<nat>, interval: nat, fileSize: nat)
    requires |ws| >= 4 && ws[0] == interval && ws[3] == fileSize && |ws| == 4 + 2 * ws[2]
    ensures WordsOf(Index(ws[1], EntriesIn(ws, ws[2])), interval, fileSize) == ws
  {
    var cs := EntriesIn(ws, ws[2]);
    var ws' := WordsOf(Index(ws[1], cs), interval, fileSize);
    forall i | 4 <= i < |ws|
      ensures ws'[i] == ws[i]
    {
      var k := (i - 4) / 2;
      assert i == 4 + 2 * k || i == 5 + 2 * k;
      assert cs[k] == Checkpoint(ws[4 + 2 * k], ws[5 + 2 * k]);
    }
  }

  /** load(save(index)) == index, for the interval and the file size it was saved with. */
  lemma LoadSerialize(index: Index, interval: nat, fileSize: nat)
    requires Words(index) && Plausible(index, interval) && interval < TWO_64 && fileSize < TWO_64
    ensures Load(Serialize(index, interval, fileSize), interval, fileSize) == Some(index)
  {
    var ws := WordsOf(index, interval, fileSize);
    var input := Serialize(index, interval, fileSize);
    assert input[..12] == IDENTITY && input[12..] == WordBytes(ws);
    ReadWords(ws);
    WordsOfIndex(index, interval, fileSize);
  }

  /** What is loaded was saved: an accepted file is byte for byte the one written for its index, and
      the index is plausible. */
  lemma SerializeLoad(input: Bytes, interval: nat, fileSize: nat)
    requires Load(input, interval, fileSize).Some? && interval < TWO_64 && fileSize < TWO_64
    ensures var index := Load(input, interval, fileSize).value;
            Words(index) && Plausible(index, interval) && input == Serialize(index, interval, fileSize)
  {
    var ws := WordsIn(input[12..]);
    WriteWords(input[12..]);
    IndexOfWords(ws, interval, fileSize);
    assert input == input[..12] + input[12..];
  }

  /** i * interval never overflows, and the check against the message count never rejects on its own. */
  lemma SequencesFit(count: nat, interval: nat, i: nat)
    requires interval > 0 && count > 0 && i < CheckpointCount(count, interval)
    ensures 1 + i * interval <= count
  {
    var q := (count - 1) / interval;
    DivBounds(count - 1, interval);
    if i < q {
      Multiples(i, q, interval);
    }
  }

  // ----- The format and the checks, spelled out -----

  /** The eight bytes of a word, the low one first. */
  lemma U64Means(v: nat)
    ensures U64(v) == [v % 256, v / 0x100 % 256, v / 0x1_0000 % 256, v / 0x100_0000 % 256, v / 0x1_0000_0000 % 256,
                       v / 0x100_0000_0000 % 256, v / 0x1_0000_0000_0000 % 256, v / 0x100_0000_0000_0000 % 256]
  {
    var high := v / 0x1_0000_0000;
    FourThenRest(v, 4);
    FourThenRest(high, 0);
    HighShifts(v);
  }

  lemma FourThenRest(v: nat, n: nat)
    ensures ToLittle(v, n + 4) ==
            [v % 256, v / 0x100 % 256, v / 0x1_0000 % 256, v / 0x100_0000 % 256] + ToLittle(v / 0x1_0000_0000, n)
  {
    var v1, v2, v3, v4 := v / 0x100, v / 0x1_0000, v / 0x100_0000, v / 0x1_0000_0000;
    Shifts(v);
    LowThenHigh(v, v1, n + 3);
    LowThenHigh(v1, v2, n + 2);
    LowThenHigh(v2, v3, n + 1);
    LowThenHigh(v3, v4, n);
  }

  lemma LowThenHigh(v: nat, high: nat, n: nat)
    requires high == v / 256
    ensures ToLittle(v, n + 1) == [v % 256] + ToLittle(high, n)
  {
  }

  lemma Shifts(v: nat)
    ensures v / 0x100 / 256 == v / 0x1_0000 && v / 0x1_0000 / 256 == v / 0x100_0000
    ensures v / 0x100_0000 / 256 == v / 0x1_0000_0000
  {
  }

  lemma HighShifts(v: nat)
    ensures var high := v / 0x1_0000_0000;
            && high / 0x100 == v / 0x100_0000_0000 && high / 0x1_0000 == v / 0x1_0000_0000_0000
            && high / 0x100_0000 == v / 0x100_0000_0000_0000
  {
  }

  /** `part` lies at `at`. */
  predicate LiesAt(b: Bytes, at: nat, part: Bytes) {
    at + |part| <= |b| && b[at..at + |part|] == part
  }

  lemma WordBehind(head: Bytes, ws: seq<nat>, k: nat, at: nat)
    requires k < |ws| && at == |head| + 8 * k
    ensures LiesAt(head + WordBytes(ws), at, U64(ws[k]))
  {
    WordBytesAt(ws, k);
    PartBehind(head, WordBytes(ws), 8 * k, at, U64(ws[k]));
  }

  lemma PartBehind(head: Bytes, tail: Bytes, p: nat, at: nat, part: Bytes)
    requires at == |head| + p && LiesAt(tail, p, part)
    ensures LiesAt(head + tail, at, part)
  {
  }

  /** Where everything lies in an index file: the magic number, a 32-bit version, the interval, both counts, the
      source file's size, and sequence and offset of each checkpoint. */
  lemma IndexLayout(index: Index, interval: nat, fileSize: nat)
    ensures var b, cs := Serialize(index, interval, fileSize), index.checkpoints;
            && |b| == 44 + 16 * |cs|
            && b[..12] == [0x4C, 0x4C, 0x54, 0x4D, 0x4F, 0x4C, 0x44, 0x31, 1, 0, 0, 0]
            && LiesAt(b, 12, U64(interval)) && LiesAt(b, 20, U64(index.messageCount))
            && LiesAt(b, 28, U64(|cs|)) && LiesAt(b, 36, U64(fileSize))
            && forall i | 0 <= i < |cs| ::
                 LiesAt(b, 44 + 16 * i, U64(cs[i].sequence)) && LiesAt(b, 52 + 16 * i, U64(cs[i].fileOffset))
  {
    var b, ws := Serialize(index, interval, fileSize), WordsOf(index, interval, fileSize);
    VersionBytes();
    WordBehind(IDENTITY, ws, 0, 12);
    WordBehind(IDENTITY, ws, 1, 20);
    WordBehind(IDENTITY, ws, 2, 28);
    WordBehind(IDENTITY, ws, 3, 36);
    forall i | 0 <= i < |index.checkpoints|
      ensures LiesAt(b, 44 + 16 * i, U64(index.checkpoints[i].sequence))
      ensures LiesAt(b, 52 + 16 * i, U64(index.checkpoints[i].fileOffset))
    {
      SequenceLies(index, interval, fileSize, i);
      OffsetLies(index, interval, fileSize, i);
    }
  }

  lemma SequenceLies(index: Index, interval: nat, fileSize: nat, i: nat)
    requires i < |index.checkpoints|
    ensures LiesAt(Serialize(index, interval, fileSize), 44 + 16 * i, U64(index.checkpoints[i].sequence))
  {
    var ws, k := WordsOf(index, interval, fileSize), 4 + 2 * i;
    assert ws[k] == index.checkpoints[i].sequence;
    WordBehind(IDENTITY, ws, k, 44 + 16 * i);
  }

  lemma OffsetLies(index: Index, interval: nat, fileSize: nat, i: nat)
    requires i < |index.checkpoints|
    ensures LiesAt(Serialize(index, interval, fileSize), 52 + 16 * i, U64(index.checkpoints[i].fileOffset))
  {
    var ws, k := WordsOf(index, interval, fileSize), 5 + 2 * i;
    assert ws[k] == index.checkpoints[i].fileOffset;
    WordBehind(IDENTITY, ws, k, 52 + 16 * i);
  }

  lemma VersionBytes()
    ensures IDENTITY == [0x4C, 0x4C, 0x54, 0x4D, 0x4F, 0x4C, 0x44, 0x31, 1, 0, 0, 0]
  {
    assert ToLittle(VERSION, 4) == [1, 0, 0, 0];
  }

  /** Checkpoint `i` comes `interval` messages after the one before it, and later in the file. */
  predicate FollowsOn(cs: seq<Checkpoint>, interval: nat, i: nat)
    requires 0 < i < |cs|
  {
    cs[i].sequence == cs[i - 1].sequence + interval && cs[i - 1].fileOffset < cs[i].fileOffset
  }

  /** What loading checks, without multiplication or division: the first checkpoint is message 1 at offset 0,
      each other one follows on, and the last message counted is within an interval of the last. */
  lemma PlausibleMeans(index: Index, interval: nat)
    ensures var cs := index.checkpoints;
            Plausible(index, interval) <==>
              && interval > 0 && cs != [] && cs[0] == Checkpoint(1, 0)
              && (forall i | 0 < i < |cs| :: FollowsOn(cs, interval, i))
              && cs[|cs| - 1].sequence <= index.messageCount < cs[|cs| - 1].sequence + interval
  {
    var cs, n := index.checkpoints, index.messageCount;
    if interval > 0 && cs != [] {
      StepsAreMultiples(cs, interval);
      if AllRight(cs, interval) {
        var last := |cs| - 1;
        assert EntryRight(cs, interval, last);
        AtLeast(last, interval);
        if n > 0 {
          LastOf(n, interval, last);
        }
      }
    }
  }

  lemma LastOf(n: nat, interval: nat, last: nat)
    requires interval > 0 && n > 0
    ensures (n - 1) / interval == last <==> 1 + last * interval <= n < 1 + last * interval + interval
  {
    if 1 + last * interval <= n < 1 + last * interval + interval {
      Quotient(n - 1, interval, last, n - 1 - last * interval);
    } else if (n - 1) / interval == last {
      DivBounds(n - 1, interval);
    }
  }

  lemma StepsAreMultiples(cs: seq<Checkpoint>, interval: nat)
    requires cs != []
    ensures AllRight(cs, interval) <==>
            cs[0] == Checkpoint(1, 0) && forall i | 0 < i < |cs| :: FollowsOn(cs, interval, i)
  {
    if AllRight(cs, interval) {
      assert EntryRight(cs, interval, 0);
      forall i | 0 < i < |cs|
        ensures FollowsOn(cs, interval, i)
      {
        assert EntryRight(cs, interval, i - 1) && EntryRight(cs, interval, i);
        OneMore(i - 1, interval);
      }
    } else if cs[0] == Checkpoint(1, 0) && forall i | 0 < i < |cs| :: FollowsOn(cs, interval, i) {
      forall i | 0 <= i < |cs|
        ensures EntryRight(cs, interval, i)
      {
        EntryFollows(cs, interval, i);
      }
    }
  }

  lemma OneMore(i: nat, c: nat)
    ensures (i + 1) * c == i * c + c
  {
  }

  lemma {:induction false} EntryFollows(cs: seq<Checkpoint>, interval: nat, i: nat)
    requires i < |cs| && cs[0] == Checkpoint(1, 0)
    requires forall k | 0 < k < |cs| :: FollowsOn(cs, interval, k)
    ensures EntryRight(cs, interval, i)
  {
    if i == 0 {
    } else {
      EntryFollows(cs, interval, i - 1);
      assert FollowsOn(cs, interval, i);
      OneMore(i - 1, interval);
    }
  }

  // ----- saveIndex and loadIndex -----

  /** The bytes of a new index file; None when there is nothing to index. */
  method SaveIndex(index: Index, interval: nat, fileSize: nat) returns (output: Option<Bytes>)
    ensures output == if index.checkpoints == [] || index.messageCount == 0 || fileSize == 0 then None
                      else Some(Serialize(index, interval, fileSize))
  {
    if index.checkpoints == [] || index.messageCount == 0 || fileSize == 0 {
      return None;
    }
    ghost var ws := WordsOf(index, interval, fileSize);
    WordsOfIndex(index, interval, fileSize);
    FourWords(ws);
    var bytes := MAGIC + ToLittle(VERSION, 4);
    var words := U64(interval) + U64(index.messageCount) + U64(|index.checkpoints|) + U64(fileSize);
    words := WriteEntries(words, index.checkpoints, ws);
    return Some(bytes + words);
  }

  /** The loop over the checkpoints. */
  method WriteEntries(metadata: Bytes, checkpoints: seq<Checkpoint>, ghost ws: seq<nat>) returns (words: Bytes)
    requires |ws| == 4 + 2 * |checkpoints| && EntriesIn(ws, |checkpoints|) == checkpoints
    requires metadata == WordBytes(ws[..4])
    ensures words == WordBytes(ws)
  {
    words := metadata;
    var i := 0;
    while i < |checkpoints|
      invariant 0 <= i <= |checkpoints|
      invariant words == WordBytes(ws[..4 + 2 * i])
    {
      assert checkpoints[i] == Checkpoint(ws[4 + 2 * i], ws[5 + 2 * i]);
      words := words + U64(checkpoints[i].sequence);
      words := words + U64(checkpoints[i].fileOffset);
      TwoWords(ws, 4 + 2 * i);
      i := i + 1;
    }
    assert ws[..4 + 2 * i] == ws;
  }

  lemma OneWord(ws: seq<nat>, k: nat)
    requires k < |ws|
    ensures WordBytes(ws[..k + 1]) == WordBytes(ws[..k]) + U64(ws[k])
  {
    assert ws[..k + 1][..k] == ws[..k];
  }

  lemma TwoWords(ws: seq<nat>, k: nat)
    requires k + 1 < |ws|
    ensures WordBytes(ws[..k + 2]) == WordBytes(ws[..k]) + U64(ws[k]) + U64(ws[k + 1])
  {
    OneWord(ws, k);
    OneWord(ws, k + 1);
  }

  lemma FourWords(ws: seq<nat>)
    requires |ws| >= 4
    ensures WordBytes(ws[..4]) == U64(ws[0]) + U64(ws[1]) + U64(ws[2]) + U64(ws[3])
  {
    TwoWords(ws, 0);
    TwoWords(ws, 2);
    assert ws[..0] == [];
  }

  lemma IdentityIs(input: Bytes)
    requires |input| >= 12
    ensures input[..12] == IDENTITY <==> input[..8] == MAGIC && FromLittle(input[8..12]) == VERSION
  {
    assert Pow256(4) == TWO_32;
    LittleFromTo(VERSION, 4);
    LittleToFrom(input[8..12]);
    assert input[..12][..8] == input[..8] && input[..12][8..] == input[8..12];
    assert input[..12] == input[..8] + input[8..12];
    assert IDENTITY[..8] == MAGIC && IDENTITY[8..] == ToLittle(VERSION, 4);
  }

  /** One bad entry spoils the index. */
  lemma BadEntry(ws: seq<nat>, interval: nat, i: nat, n: nat)
    requires i < n && 4 + 2 * (i + 1) <= |ws|
    requires !AllRight(EntriesIn(ws, i + 1), interval)
    ensures 4 + 2 * n <= |ws| ==> !AllRight(EntriesIn(ws, n), interval)
  {
    if 4 + 2 * n <= |ws| {
      var k :| 0 <= k <= i && !EntryRight(EntriesIn(ws, i + 1), interval, k);
      assert !EntryRight(EntriesIn(ws, n), interval, k);
    }
  }

  /** The expected sequence, in wrapping arithmetic, is the exact one, within the count and growing. */
  lemma ExpectedSequence(count: nat, interval: nat, i: nat)
    requires interval > 0 && 0 < count < TWO_64 && i < CheckpointCount(count, interval)
    ensures (1 + (i * interval) % TWO_64) % TWO_64 == 1 + i * interval <= count
    ensures i > 0 ==> (i - 1) * interval < i * interval
  {
    SequencesFit(count, interval, i);
    if i > 0 {
      Multiples(i - 1, i, interval);
    }
  }

  /** The checks of one round of the loading loop are those that keep all entries right. */
  lemma EntryChecks(cs: seq<Checkpoint>, c: Checkpoint, count: nat, interval: nat)
    requires interval > 0 && 0 < count < TWO_64 && |cs| < CheckpointCount(count, interval) && AllRight(cs, interval)
    ensures var i := |cs|;
            AllRight(cs + [c], interval) <==>
              && c.sequence == (1 + (i * interval) % TWO_64) % TWO_64 && c.sequence <= count
              && (i == 0 ==> c.fileOffset == 0)
              && (i > 0 ==> cs[i - 1].sequence < c.sequence && cs[i - 1].fileOffset < c.fileOffset)
  {
    var i := |cs|;
    ExpectedSequence(count, interval, i);
    assert i > 0 ==> EntryRight(cs, interval, i - 1);
    OneMoreEntry(cs, c, interval);
  }

  lemma OneMoreEntry(cs: seq<Checkpoint>, c: Checkpoint, interval: nat)
    requires AllRight(cs, interval)
    ensures AllRight(cs + [c], interval) <==>
              && c.sequence == 1 + |cs| * interval
              && if cs == [] then c.fileOffset == 0 else cs[|cs| - 1].fileOffset < c.fileOffset
  {
    var i, extended := |cs|, cs + [c];
    forall k | 0 <= k < i
      ensures EntryRight(extended, interval, k)
    {
      assert EntryRight(cs, interval, k);
    }
    assert AllRight(extended, interval) <==> EntryRight(extended, interval, i);
  }

  /** The four words before the entries are those of an index for this interval and file size. */
  predicate GoodMetadata(words: Bytes, interval: nat, fileSize: nat)
    requires |words| >= 32
  {
    && WordIn(words, 0) == interval > 0 && WordIn(words, 1) > 0 && WordIn(words, 3) == fileSize
    && WordIn(words, 2) == CheckpointCount(WordIn(words, 1), interval)
  }

  lemma MetadataWords(words: Bytes)
    requires |words| >= 32
    ensures var ws := WordsIn(words);
            |ws| >= 4 && ws[0] == WordIn(words, 0) && ws[1] == WordIn(words, 1)
            && ws[2] == WordIn(words, 2) && ws[3] == WordIn(words, 3)
  {
  }

  /** With the metadata right, the entries and the length decide. */
  lemma EntriesDecide(words: Bytes, interval: nat, fileSize: nat, checkpoints: Option<seq<Checkpoint>>)
    requires |words| >= 32 && GoodMetadata(words, interval, fileSize)
    requires EntriesRead(words, WordIn(words, 2), interval, checkpoints)
    ensures (if |words| % 8 != 0 then None else LoadWords(WordsIn(words), interval, fileSize))
         == (if checkpoints.None? || |words| > 8 * (4 + 2 * WordIn(words, 2)) then None
             else Some(Index(WordIn(words, 1), checkpoints.value)))
  {
    MetadataWords(words);
  }

  /** Wrong metadata is enough to refuse a file. */
  lemma BadMetadata(words: Bytes, interval: nat, fileSize: nat)
    requires |words| >= 32 && !GoodMetadata(words, interval, fileSize)
    ensures LoadWords(WordsIn(words), interval, fileSize).None?
  {
    MetadataWords(words);
  }

  /** The metadata, validated against this interval and file size: message and checkpoint count. */
  method ReadMetadata(words: Bytes, interval: nat, fileSize: nat) returns (counts: Option<(nat, nat)>)
    requires |words| >= 32
    ensures counts == if GoodMetadata(words, interval, fileSize) then Some((WordIn(words, 1), WordIn(words, 2)))
                      else None
  {
    var storedInterval := WordIn(words, 0);
    var storedMessageCount := WordIn(words, 1);
    var storedCheckpointCount := WordIn(words, 2);
    var storedSourceFileSize := WordIn(words, 3);
    if storedInterval != interval || storedInterval == 0 || storedMessageCount == 0
       || storedSourceFileSize != fileSize {
      return None;
    }
    var expectedCheckpointCount := ExpectedCount(storedMessageCount, interval);
    if storedCheckpointCount == 0 || storedCheckpointCount != expectedCheckpointCount {
      return None;
    }
    return Some((storedMessageCount, storedCheckpointCount));
  }

  method ExpectedCount(messageCount: nat, interval: nat) returns (count: nat)
    requires messageCount > 0 && interval > 0
    ensures count == CheckpointCount(messageCount, interval) > 0
  {
    DivBounds(messageCount - 1, interval);
    count := (messageCount - 1) / interval + 1;
  }

  /** Reads and validates an index file, checkpoint by checkpoint; all of it or nothing. */
  method LoadIndex(input: Bytes, interval: nat, fileSize: nat) returns (index: Option<Index>)
    requires interval < TWO_64 && fileSize < TWO_64
    ensures index == Load(input, interval, fileSize)
  {
    if |input| < 12 {
      return None;
    }
    IdentityIs(input);
    if input[..8] != MAGIC || |input| < 44 {
      return None;
    }
    var words := input[12..];
    var version := FromLittle(input[8..12]);
    if version != VERSION {
      return None;
    }
    var counts := ReadMetadata(words, interval, fileSize);
    if counts.None? {
      BadMetadata(words, interval, fileSize);
      return None;
    }
    var (storedMessageCount, storedCheckpointCount) := counts.value;
    WordIs(words, 1, 0);
    var checkpoints := ReadEntries(words, storedMessageCount, storedCheckpointCount, interval);
    EntriesDecide(words, interval, fileSize, checkpoints);
    if checkpoints.None? || |words| > 8 * (4 + 2 * storedCheckpointCount) {
      return None;
    }
    return Some(Index(storedMessageCount, checkpoints.value));
  }

  /** The outcome of reading `n` entries: all of them, if they are there and right. */
  ghost predicate EntriesRead(words: Bytes, n: nat, interval: nat, checkpoints: Option<seq<Checkpoint>>) {
    var ws := WordsIn(words);
    match checkpoints
    case Some(cs) => |ws| >= 4 + 2 * n && cs == EntriesIn(ws, n) && AllRight(cs, interval)
    case None => |ws| >= 4 + 2 * n ==> !AllRight(EntriesIn(ws, n), interval)
  }

  lemma OneMoreRead(words: Bytes, i: nat)
    requires 8 * (6 + 2 * i) <= |words|
    ensures 4 + 2 * (i + 1) <= |WordsIn(words)|
    ensures EntriesIn(WordsIn(words), i + 1)
         == EntriesIn(WordsIn(words), i) + [Checkpoint(WordIn(words, 4 + 2 * i), WordIn(words, 5 + 2 * i))]
  {
  }

  /** The loop over the checkpoints: each is checked as it is read. */
  method ReadEntries(words: Bytes, messageCount: nat, checkpointCount: nat, interval: nat)
    returns (checkpoints: Option<seq<Checkpoint>>)
    requires interval > 0 && 0 < messageCount < TWO_64 && checkpointCount == CheckpointCount(messageCount, interval)
    requires |words| >= 32
    ensures EntriesRead(words, checkpointCount, interval, checkpoints)
  {
    ghost var ws := WordsIn(words);
    var cs: seq<Checkpoint> := [];
    var previousSequence, previousOffset := 0, 0;
    var i := 0;
    while i < checkpointCount
      invariant 0 <= i <= checkpointCount
      invariant 4 + 2 * i <= |ws|
      invariant cs == EntriesIn(ws, i) && AllRight(cs, interval)
      invariant i > 0 ==> previousSequence == cs[i - 1].sequence && previousOffset == cs[i - 1].fileOffset
    {
      if |words| < 8 * (6 + 2 * i) {
        return None;
      }
      var checkpoint := Checkpoint(WordIn(words, 4 + 2 * i), WordIn(words, 5 + 2 * i));
      var expectedSequence := (1 + (i * interval) % TWO_64) % TWO_64;
      EntryChecks(cs, checkpoint, messageCount, interval);
      OneMoreRead(words, i);
      if checkpoint.sequence != expectedSequence || checkpoint.sequence > messageCount
         || (i == 0 && checkpoint.fileOffset != 0)
         || (i > 0 && (checkpoint.sequence <= previousSequence || checkpoint.fileOffset <= previousOffset))
      {
        BadEntry(ws, interval, i, checkpointCount);
        return None;
      }
      cs := cs + [checkpoint];
      previousSequence, previousOffset := checkpoint.sequence, checkpoint.fileOffset;
      i := i + 1;
    }
    return Some(cs);
  }
}
