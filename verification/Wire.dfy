/** Bytes on the wire: integers in network order, and length-prefixed blocks.  A BinaryFILE record and
    a MoldUDP64 message block have the same layout: a 2-byte big-endian length, then the payload. */
module Wire {
  type Byte = x: nat | x < 256
  type Bytes = seq<Byte>

  function Pow256(n: nat): (p: nat)
    ensures p > 0
  {
    if n == 0 then 1 else 256 * Pow256(n - 1)
  }

  /** The low `n` bytes of `v`, most significant first. */
  function ToBytes(v: nat, n: nat): (b: Bytes)
    ensures |b| == n
  {
    if n == 0 then [] else ToBytes(v / 256, n - 1) + [v % 256]
  }

  function FromBytes(b: Bytes): nat {
    if b == [] then 0 else 256 * FromBytes(b[..|b| - 1]) + b[|b| - 1]
  }

  lemma {:induction false} FromTo(v: nat, n: nat)
    requires v < Pow256(n)
    ensures FromBytes(ToBytes(v, n)) == v
  {
    if n == 0 {
    } else {
      FromTo(v / 256, n - 1);
      assert ToBytes(v, n)[..n - 1] == ToBytes(v / 256, n - 1);
    }
  }

  lemma {:induction false} ToFrom(b: Bytes)
    ensures ToBytes(FromBytes(b), |b|) == b && FromBytes(b) < Pow256(|b|)
  {
    if b == [] {
    } else {
      ToFrom(b[..|b| - 1]);
      assert b == b[..|b| - 1] + [b[|b| - 1]];
    }
  }

  // ----- 16-bit words -----

  const MAX_U16: nat := 0xFFFF

  function ReadU16(b: Bytes, at: nat): nat
    requires at + 2 <= |b|
  {
    var high: nat := b[at];
    256 * high + b[at + 1]
  }

  lemma U16Bytes(v: nat)
    requires v <= MAX_U16
    ensures ToBytes(v, 2) == [v / 256, v % 256]
  {
    assert ToBytes(v / 256, 1) == ToBytes(v / 256 / 256, 0) + [v / 256 % 256];
  }

  lemma U16Read(b: Bytes, at: nat)
    requires at + 2 <= |b|
    ensures ReadU16(b, at) <= MAX_U16 && b[at..at + 2] == ToBytes(ReadU16(b, at), 2)
  {
    U16Bytes(ReadU16(b, at));
  }

  lemma U16ReadBack(b: Bytes, at: nat, v: nat)
    requires at + 2 <= |b| && v <= MAX_U16 && b[at..at + 2] == ToBytes(v, 2)
    ensures ReadU16(b, at) == v
  {
    U16Bytes(v);
    assert b[at] == b[at..at + 2][0] && b[at + 1] == b[at..at + 2][1];
  }

  // ----- Blocks -----

  /** A payload whose length fits its prefix. */
  predicate Framable(m: Bytes) {
    |m| <= MAX_U16
  }

  function Block(m: Bytes): Bytes
    requires Framable(m)
  {
    ToBytes(|m|, 2) + m
  }

  ghost predicate AllFramable(ms: seq<Bytes>) {
    forall i | 0 <= i < |ms| :: Framable(ms[i])
  }

  function Blocks(ms: seq<Bytes>): (b: Bytes)
    requires AllFramable(ms)
  {
    if ms == [] then [] else Block(ms[0]) + Blocks(ms[1..])
  }

  lemma {:induction false} BlocksConcat(a: seq<Bytes>, b: seq<Bytes>)
    requires AllFramable(a) && AllFramable(b)
    ensures Blocks(a + b) == Blocks(a) + Blocks(b)
  {
    if a == [] {
      assert a + b == b;
    } else {
      assert (a + b)[0] == a[0] && (a + b)[1..] == a[1..] + b;
      BlocksConcat(a[1..], b);
      assert Block(a[0]) + (Blocks(a[1..]) + Blocks(b)) == Block(a[0]) + Blocks(a[1..]) + Blocks(b);
    }
  }

  /** `m` and its prefix lie in `data` from `at` on. */
  lemma BlockAt(data: Bytes, at: nat, m: Bytes)
    requires Framable(m) && at + 2 + |m| <= |data|
    requires data[at..at + 2 + |m|] == Block(m)
    ensures ReadU16(data, at) == |m| && data[at + 2..at + 2 + |m|] == m
  {
    var b := data[at..at + 2 + |m|];
    assert b[..2] == ToBytes(|m|, 2) && b[2..] == m;
    assert data[at..at + 2] == b[..2];
    U16ReadBack(data, at, |m|);
  }

  /** Framed payloads in `data[at..end]`: the first block, and the blocks behind it. */
  lemma SplitBlocks(data: Bytes, at: nat, end: nat, ms: seq<Bytes>) returns (next: nat)
    requires AllFramable(ms) && ms != [] && at <= end <= |data| && data[at..end] == Blocks(ms)
    ensures at + 2 <= next == at + 2 + |ms[0]| <= end
    ensures data[at..next] == Block(ms[0]) && data[next..end] == Blocks(ms[1..])
  {
    next := at + 2 + |ms[0]|;
    TwoParts(data, at, end, Block(ms[0]), Blocks(ms[1..]));
  }

  lemma TwoParts(data: Bytes, at: nat, end: nat, head: Bytes, tail: Bytes)
    requires at <= end <= |data| && data[at..end] == head + tail
    ensures at + |head| <= end && data[at..at + |head|] == head && data[at + |head|..end] == tail
  {
    assert |head + tail| == end - at;
    assert (head + tail)[..|head|] == head && (head + tail)[|head|..] == tail;
    assert data[at..at + |head|] == data[at..end][..|head|];
    assert data[at + |head|..end] == data[at..end][|head|..];
  }

  /** `s` with `b` written over it at `at`. */
  function Splice(s: Bytes, at: nat, b: Bytes): (r: Bytes)
    requires at + |b| <= |s|
    ensures |r| == |s|
  {
    s[..at] + b + s[at + |b|..]
  }

  /** Writing on where a write ended is one longer write. */
  lemma SpliceTwice(s: Bytes, at: nat, a: Bytes, b: Bytes)
    requires at + |a| + |b| <= |s|
    ensures Splice(Splice(s, at, a), at + |a|, b) == Splice(s, at, a + b)
  {
  }
}
