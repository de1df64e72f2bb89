/** Facts about Euclidean division by a positive block size. */
module Arith {

  lemma MulMono(a: int, b: int, d: nat)
    requires a <= b
    ensures a * d <= b * d
  {
  }

  lemma DivUnique(x: int, d: nat, q: int)
    requires d > 0 && q * d <= x < q * d + d
    ensures x / d == q && x % d == x - q * d
  {
    var q' := x / d;
    if q' < q {
      MulMono(q' + 1, q, d);
    } else if q' > q {
      MulMono(q + 1, q', d);
    }
  }

  lemma DivMono(x: int, y: int, d: nat)
    requires d > 0 && x <= y
    ensures x / d <= y / d
  {
    if x / d > y / d {
      MulMono(y / d + 1, x / d, d);
    }
  }

  /** x is a multiple of d exactly when -x is. */
  lemma NegatedMultiple(x: int, d: nat)
    requires d > 0
    ensures x % d == 0 <==> (-x) % d == 0
  {
    if x % d == 0 {
      var k := x / d;
      DivUnique(-x, d, -k);
    }
    if (-x) % d == 0 {
      var k := (-x) / d;
      DivUnique(x, d, -k);
    }
  }

  /** A multiple of d above q blocks reaches the end of block q. */
  lemma MultipleAbove(m: nat, d: nat, q: nat, x: int)
    requires d > 0 && m % d == 0 && q * d <= x < m
    ensures q * d + d <= m
  {
    var k := m / d;
    assert m == k * d;
    if k <= q {
      MulMono(k, q, d);
      assert false;
    }
    MulMono(q + 1, k, d);
  }

  lemma MulDivCancel(q: nat, d: nat)
    requires d > 0
    ensures (q * d) / d == q && (q * d) % d == 0
  {
    DivUnique(q * d, d, q);
  }

  /** Stepping back one block keeps a multiple of d a multiple of d. */
  lemma MultipleStep(x: nat, d: nat)
    requires d > 0 && x % d == 0 && x > 0
    ensures x >= d && (x - d) % d == 0 && (x - d) / d == x / d - 1
  {
    var k := x / d;
    assert x == k * d;
    if k < 1 {
      MulMono(k, 0, d);
    }
    assert x - d == (k - 1) * d;
    DivUnique(x - d, d, k - 1);
  }

  /** n is a whole number of d-byte blocks, stated without division. */
  predicate Aligned(n: int, d: nat)
    decreases n
  {
    d > 0 && n >= 0 && (n == 0 || (n >= d && Aligned(n - d, d)))
  }

  lemma {:induction false} AlignedIff(n: nat, d: nat)
    requires d > 0
    ensures Aligned(n, d) <==> n % d == 0
    decreases n
  {
    if n == 0 {
      MulDivCancel(0, d);
    } else if n % d == 0 {
      MultipleStep(n, d);
      AlignedIff(n - d, d);
    } else if n >= d {
      AlignedIff(n - d, d);
      if (n - d) % d == 0 {
        DivUnique(n, d, (n - d) / d + 1);
      }
    }
  }

  lemma OffsetInBlock(pos: nat, i: nat, d: nat)
    requires d > 0 && pos % d == 0 && i < d
    ensures (pos + i) % d == i && (pos + d) % d == 0
  {
    DivUnique(pos + i, d, pos / d);
    DivUnique(pos + d, d, pos / d + 1);
  }

  /** Block j lies wholly below x when j is below x's block index. */
  lemma BlockBelow(j: nat, d: nat, x: nat)
    requires d > 0 && j < x / d
    ensures j * d + d <= x && (j * d) % d == 0 && (j * d) / d == j
  {
    MulMono(j + 1, x / d, d);
    assert (j + 1) * d == j * d + d;
    MulDivCancel(j, d);
  }

  /** The block that holds position x starts at x / d * d. */
  lemma BlockOf(x: nat, d: nat)
    requires d > 0
    ensures x / d * d <= x < x / d * d + d
    ensures (x / d * d) % d == 0 && (x / d * d) / d == x / d
  {
    MulDivCancel(x / d, d);
  }
}
