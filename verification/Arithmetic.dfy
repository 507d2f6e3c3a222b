/** Facts about products, quotients and sizes of sets that the solver does not see by itself. */
module Arithmetic {

  lemma {:induction false} AtLeastOnce(q: nat, c: nat)
    requires c > 0
    ensures q <= q * c
  {
    if q == 0 {
    } else {
      AtLeastOnce(q - 1, c);
      assert q * c == (q - 1) * c + c;
    }
  }

  /** Multiples of `c` are at least `c` apart. */
  lemma Multiples(i: nat, j: nat, c: nat)
    requires i < j
    ensures i * c + c <= j * c
  {
    AtLeast(j - i - 1, c);
    Distribute(i, j - i - 1, c);
  }

  lemma AtLeast(d: nat, c: nat)
    ensures d * c >= 0
  {
  }

  lemma Distribute(i: nat, d: nat, c: nat)
    ensures (i + d + 1) * c == i * c + d * c + c
  {
  }

  lemma MultiplesSplitAt(i: nat, q: nat, c: nat, x: nat)
    requires q * c < x <= q * c + c
    ensures i <= q <==> 1 + i * c <= x
  {
    if i < q {
      Multiples(i, q, c);
    } else if q < i {
      Multiples(q, i, c);
    }
  }

  lemma Quotient(x: nat, c: nat, q: nat, r: nat)
    requires c > 0 && r < c && x == c * q + r
    ensures x / c == q && x % c == r
  {
    var d := x / c - q;
    assert c * d == r - x % c by {
      assert x == c * (x / c) + x % c;
      assert c * d == c * (x / c) - c * q;
    }
    assert d >= 1 ==> c * d >= c;
    assert d <= -1 ==> c * d + c <= 0;
  }

  lemma DivBounds(x: nat, c: nat)
    requires c > 0
    ensures var q := x / c; q <= q * c <= x < q * c + c
  {
    var q, r := x / c, x % c;
    assert x == c * q + r && 0 <= r < c;
    AtLeastOnce(q, c);
  }

  lemma InOrder(p: nat, q: nat, c: nat, x: nat, y: nat)
    requires c > 0 && p * c <= x <= y < q * c + c
    ensures p <= q
  {
    if q < p {
      Multiples(q, p, c);
    }
  }

  /** Where the x-th of many falls among stretches of length `c`, counting from one. */
  lemma QuotientAt(x: nat, c: nat)
    requires c > 0 && x >= 1
    ensures var q := (x - 1) / c; 1 + q * c <= x < 1 + q * c + c
  {
    DivBounds(x - 1, c);
  }

  lemma QuotientOrder(x: nat, y: nat, c: nat)
    requires c > 0 && x <= y
    ensures x / c <= y / c
  {
    var p, q := x / c, y / c;
    DivBounds(x, c);
    DivBounds(y, c);
    InOrder(p, q, c, x, y);
  }

  lemma Position(x: nat, n: nat, c: nat) returns (q: nat, first: nat)
    requires c > 0 && 1 <= x <= n
    ensures q == (x - 1) / c < (n - 1) / c + 1 && first == 1 + q * c && first <= x < first + c
  {
    q := (x - 1) / c;
    first := 1 + q * c;
    QuotientAt(x, c);
    QuotientOrder(x - 1, n - 1, c);
  }

  lemma {:induction false} SubsetSize<K>(a: set<K>, b: set<K>)
    requires a <= b
    ensures |a| <= |b|
    ensures |a| == |b| ==> a == b
    decreases a
  {
    if a == {} {
    } else {
      var x :| x in a;
      SubsetSize(a - {x}, b - {x});
    }
  }
}
