/** Facts about powers of two, Euclidean division and remainder used by the
    proofs about bit positions. */
module Arithmetic {
  function Pow2(k: nat): (r: nat)
    ensures r > 0
  {
    if k == 0 then 1 else 2 * Pow2(k - 1)
  }

  lemma Pow2Values()
    ensures Pow2(8) == 256
  {
    assert Pow2(4) == 16;
  }

  lemma {:induction false} Pow2Add(a: nat, b: nat)
    ensures Pow2(a + b) == Pow2(a) * Pow2(b)
  {
    if a > 0 { Pow2Add(a - 1, b); }
  }

  lemma DivModUnique(x: int, d: int, q: int, r: int)
    requires d > 0 && 0 <= r < d && x == q * d + r
    ensures x / d == q && x % d == r
  {
    var q', r' := x / d, x % d;
    assert (q - q') * d == r' - r;
    if q > q' {
      MulAtLeast(q - q', d);
    } else if q < q' {
      MulAtLeast(q' - q, d);
    }
  }

  lemma MulAtLeast(k: int, d: int)
    requires k >= 1 && d > 0
    ensures k * d >= d
  {
  }

  lemma DivAddMultiple(x: int, y: int, d: int)
    requires d > 0
    ensures (x * d + y) / d == x + y / d
  {
    DivModUnique(x * d + y, d, x + y / d, y % d);
  }

  lemma DivDiv(x: int, a: int, b: int)
    requires a > 0 && b > 0
    ensures (x / a) / b == x / (a * b)
  {
    var q1, r1 := x / a, x % a;
    var q2, r2 := q1 / b, q1 % b;
    assert x == q1 * a + r1;
    assert q1 == q2 * b + r2;
    var r := r2 * a + r1;
    assert x == q2 * (a * b) + r by {
      Distribute(q2 * b, r2, a);
      MulAssoc(q2, b, a);
    }
    assert r < a * b by {
      MulMono(r2, b - 1, a);
      Distribute(b, -1, a);
    }
    DivModUnique(x, a * b, q2, r);
  }

  lemma Distribute(x: int, y: int, a: int)
    ensures (x + y) * a == x * a + y * a
  {
  }

  lemma MulMono(x: int, y: int, a: int)
    requires x <= y && a >= 0
    ensures x * a <= y * a
  {
  }

  lemma HalfStep(h: int, r: int, p: int)
    requires p > 0 && 0 <= r < 2
    ensures (2 * h + r) / (2 * p) == h / p
  {
    DivDiv(2 * h + r, 2, p);
    DivModUnique(2 * h + r, 2, h, r);
  }

  lemma ModMultiple(m: int, e: int)
    requires e > 0
    ensures (8 * m) % (8 * e) == 8 * (m % e)
  {
    DivModUnique(8 * m, 8 * e, m / e, 8 * (m % e));
  }

  lemma ModOfMultipleOf8(i: int, e: int)
    requires e > 0 && i % (8 * e) == 0
    ensures i % 8 == 0
  {
    DivModUnique(i, 8, e * (i / (8 * e)), 0);
  }

  lemma MulAssoc(a: int, b: int, c: int)
    ensures (a * b) * c == a * (b * c) && b * c == c * b
  {
  }
}
