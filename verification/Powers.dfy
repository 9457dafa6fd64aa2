/** Integer powers of reals, and the inequalities the transfer curve needs. */
module Powers {
  import opened Common

  function Pow(x: real, n: nat): real {
    if n == 0 then 1.0 else x * Pow(x, n - 1)
  }

  lemma {:induction false} PowAdd(x: real, m: nat, n: nat)
    ensures Pow(x, m + n) == Pow(x, m) * Pow(x, n)
  {
    if m > 0 {
      PowAdd(x, m - 1, n);
      Associative(x, Pow(x, m - 1), Pow(x, n));
    }
  }

  lemma Associative(x: real, y: real, z: real)
    ensures x * (y * z) == x * y * z
  {
  }

  lemma {:induction false} PowMul(x: real, m: nat, n: nat)
    ensures Pow(Pow(x, m), n) == Pow(x, m * n)
  {
    if n > 0 {
      PowMul(x, m, n - 1);
      PowAdd(x, m, m * (n - 1));
      assert m * n == m + m * (n - 1);
    } else {
      assert m * n == 0;
    }
  }

  lemma {:induction false} PowProduct(x: real, y: real, n: nat)
    ensures Pow(x * y, n) == Pow(x, n) * Pow(y, n)
  {
    if n > 0 {
      PowProduct(x, y, n - 1);
      assert x * y * (Pow(x, n - 1) * Pow(y, n - 1)) == (x * Pow(x, n - 1)) * (y * Pow(y, n - 1));
    }
  }

  lemma {:induction false} PowSign(x: real, n: nat)
    requires x >= 0.0
    ensures Pow(x, n) >= 0.0
    ensures x > 0.0 ==> Pow(x, n) > 0.0
  {
    if n > 0 { PowSign(x, n - 1); }
  }

  lemma Positive(x: real, y: real)
    requires x > 0.0 && y > 0.0
    ensures x * y > 0.0
  {
  }

  lemma MulOrder(a: real, b: real, c: real, d: real)
    requires 0.0 <= a <= b && 0.0 <= c <= d
    ensures a * c <= b * d
    ensures a < b && 0.0 < d ==> a * c < b * d
  {
    var rise, gap := b - a, d - c;
    NonNegative(a, gap);
    NonNegative(rise, d);
    if rise > 0.0 && d > 0.0 { Positive(rise, d); }
    ProductGap(a, b, c, d, rise, gap);
  }

  lemma ProductGap(a: real, b: real, c: real, d: real, rise: real, gap: real)
    requires b == a + rise && d == c + gap
    ensures b * d == a * c + a * gap + rise * d
  {
    assert b * d == a * d + rise * d;
    assert a * d == a * c + a * gap;
  }

  lemma {:induction false} PowMonotone(x: real, y: real, n: nat)
    requires 0.0 <= x <= y
    ensures Pow(x, n) <= Pow(y, n)
    ensures x < y && n > 0 ==> Pow(x, n) < Pow(y, n)
  {
    if n > 0 {
      PowMonotone(x, y, n - 1);
      PowSign(x, n - 1);
      PowSign(y, n - 1);
      MulOrder(x, y, Pow(x, n - 1), Pow(y, n - 1));
    }
  }

  /** Comparing powers compares the bases. */
  lemma PowOrder(x: real, y: real, n: nat)
    requires x >= 0.0 && y >= 0.0 && n > 0
    ensures Pow(x, n) <= Pow(y, n) <==> x <= y
    ensures Pow(x, n) == Pow(y, n) <==> x == y
  {
    if x <= y { PowMonotone(x, y, n); }
    if y <= x { PowMonotone(y, x, n); }
  }

  lemma TangentStep(t: real, r: real, m: real, p: real, q: real)
    requires t >= 0.0 && m >= 0.0 && p >= 0.0
    requires q - r * p >= m * p * (t - r)
    ensures t * q - r * (r * p) >= (m + 1.0) * (r * p) * (t - r)
  {
    var e := t - r;
    assert m * p * (e * e) >= 0.0 by { assert e * e >= 0.0 && m * p >= 0.0; }
    assert t * (q - r * p - m * p * e) >= 0.0;
    assert t * (q - r * p - m * p * e) == t * q - t * (r * p) - m * p * (t * e);
    assert m * p * (t * e) == m * p * (r * e) + m * p * (e * e);
  }

  /** A power lies above its tangent. */
  lemma {:induction false} Tangent(t: real, r: real, n: nat)
    requires t >= 0.0 && r >= 0.0 && n > 0
    ensures Pow(t, n) - Pow(r, n) >= n as real * Pow(r, n - 1) * (t - r)
  {
    if n > 1 {
      Tangent(t, r, n - 1);
      PowSign(r, n - 2);
      TangentStep(t, r, (n - 1) as real, Pow(r, n - 2), Pow(t, n - 1));
    }
  }

  lemma MeanStep(t: real, r: real, a: real, b: real, ta: real, rb: real, tA: real, rA: real, tB: real, rB: real,
                 whole: real, tAB: real, rAB: real)
    requires t >= 0.0 && r >= 0.0 && a >= 0.0 && b >= 0.0 && ta >= 0.0 && rb >= 0.0
    requires tA == t * ta && rB == r * rb && whole == a + b && tAB == tA * tB && rAB == rA * rB
    requires tB - rB >= b * rb * (t - r)
    requires rA - tA >= a * ta * (r - t)
    ensures a * tAB + b * rAB >= whole * (tA * rB)
  {
    var e := t - r;
    var c, d := b * rb * e, a * ta * e;
    NonNegative(t, ta);
    NonNegative(r, rb);
    NonNegative(a, tA);
    NonNegative(b, rB);
    NonNegative(a * tA, tB - rB - c);
    NonNegative(b * rB, rA - tA + d);
    Spread(a, tA, tB, rB, c);
    SpreadBack(b, rB, rA, tA, d);
    MeanCross(a, b, t, r, ta, rb, tA, rB, e);
    assert whole * (tA * rB) == a * (tA * rB) + b * (tA * rB);
  }

  lemma Spread(a: real, p: real, q: real, s: real, c: real)
    ensures a * p * (q - s - c) == a * (p * q) - a * (p * s) - a * p * c
  {
  }

  lemma SpreadBack(b: real, s: real, q: real, p: real, d: real)
    ensures b * s * (q - p + d) == b * (q * s) - b * (p * s) + b * s * d
  {
  }

  /** What the two tangents' errors add up to. */
  lemma MeanCross(a: real, b: real, t: real, r: real, ta: real, rb: real, tA: real, rB: real, e: real)
    requires a >= 0.0 && b >= 0.0 && ta >= 0.0 && rb >= 0.0 && e == t - r && tA == t * ta && rB == r * rb
    ensures a * tA * (b * rb * e) - b * rB * (a * ta * e) >= 0.0
  {
    NonNegative(a, b);
    NonNegative(ta, rb);
    NonNegative(a * b, ta * rb);
    Square(e);
    NonNegative(a * b * (ta * rb), e * e);
    assert a * tA * (b * rb * e) == a * b * (ta * rb) * (t * e);
    assert b * rB * (a * ta * e) == a * b * (ta * rb) * (r * e);
    assert t * e - r * e == e * e;
  }

  lemma Square(x: real)
    ensures x * x >= 0.0
  {
  }

  /** The weighted mean inequality: the slope bound of a fractional power. */
  lemma WeightedMean(t: real, r: real, a: nat, b: nat)
    requires t >= 0.0 && r >= 0.0 && a > 0 && b > 0
    ensures a as real * Pow(t, a + b) + b as real * Pow(r, a + b) >= (a + b) as real * (Pow(t, a) * Pow(r, b))
  {
    var ta, rb := PowHead(t, a), PowHead(r, b);
    var tA, rA, tB, rB := Pow(t, a), Pow(r, a), Pow(t, b), Pow(r, b);
    var tAB, rAB := Pow(t, a + b), Pow(r, a + b);
    assert tAB == tA * tB by { PowAdd(t, a, b); }
    assert rAB == rA * rB by { PowAdd(r, a, b); }
    assert tB - rB >= b as real * rb * (t - r) by { Tangent(t, r, b); }
    assert rA - tA >= a as real * ta * (r - t) by { Tangent(r, t, a); }
    MeanStep(t, r, a as real, b as real, ta, rb, tA, rA, tB, rB, (a + b) as real, tAB, rAB);
  }

  /** All but one factor of a power. */
  ghost function PowHead(x: real, n: nat): (h: real)
    requires n > 0 && x >= 0.0
    ensures h == Pow(x, n - 1) && h >= 0.0 && Pow(x, n) == x * h
  {
    PowSign(x, n - 1);
    Pow(x, n - 1)
  }
}
