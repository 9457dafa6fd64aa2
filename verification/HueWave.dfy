/** The piecewise hue wave both colour conversions follow, and what it takes back to RGB. */
module HueWave {
  import opened Common

  datatype Rgb = Rgb(r: real, g: real, b: real)

  function Max3(c: Rgb): real { Max(Max(c.r, c.g), c.b) }

  function Min3(c: Rgb): real { Min(Min(c.r, c.g), c.b) }

  predicate InGamut(c: Rgb) { 0.0 <= c.r <= 1.0 && 0.0 <= c.g <= 1.0 && 0.0 <= c.b <= 1.0 }

  lemma QuotientTimes(n: real, d: real)
    requires d > 0.0
    ensures n / d * d == n
    ensures 0.0 <= n ==> 0.0 <= n / d
    ensures n < 0.0 ==> n / d < 0.0
    ensures n <= d ==> n / d <= 1.0
    ensures n < d ==> n / d < 1.0
    ensures -d <= n ==> -1.0 <= n / d
  {
    var x := n / d;
    assert x * d == n;
    assert (x - 1.0) * d == n - d && (x + 1.0) * d == n + d;
  }

  /** The channel wave over six sextants: up, flat, flat, down, low, low. */
  function Wave(p: real, q: real, z: real): real {
    if z < 1.0 then p + (q - p) * z
    else if z < 3.0 then q
    else if z < 4.0 then p + (q - p) * (4.0 - z)
    else p
  }

  /** The three channels at sextant `s`: red leads green by two sextants, blue trails by two. */
  function WaveTriple(min: real, max: real, s: real): Rgb {
    Rgb(Wave(min, max, RemEuclid(s + 2.0, 6.0)),
        Wave(min, max, RemEuclid(s, 6.0)),
        Wave(min, max, RemEuclid(s - 2.0, 6.0)))
  }

  lemma TripleIs(min: real, max: real, s: real, zr: real, kr: int, zg: real, kg: int, zb: real, kb: int)
    requires 0.0 <= zr < 6.0 && s + 2.0 == zr + kr as real * 6.0
    requires 0.0 <= zg < 6.0 && s == zg + kg as real * 6.0
    requires 0.0 <= zb < 6.0 && s - 2.0 == zb + kb as real * 6.0
    ensures WaveTriple(min, max, s) == Rgb(Wave(min, max, zr), Wave(min, max, zg), Wave(min, max, zb))
  {
    RemEuclidIs(s + 2.0, 6.0, kr);
    RemEuclidIs(s, 6.0, kg);
    RemEuclidIs(s - 2.0, 6.0, kb);
  }

  /** The rising and falling ends of the wave, with `x = n / delta`. */
  lemma WaveRises(min: real, max: real, n: real, x: real)
    requires min < max && 0.0 <= n <= max - min && x * (max - min) == n && 0.0 <= x <= 1.0
    ensures Wave(min, max, x) == min + n
    ensures Wave(min, max, x + 2.0) == max
    ensures Wave(min, max, x + 4.0) == min
  {
  }

  lemma WaveFalls(min: real, max: real, n: real, x: real)
    requires min < max && min - max <= n < 0.0 && x * (max - min) == n && -1.0 <= x < 0.0
    ensures Wave(min, max, x + 6.0) == min
    ensures Wave(min, max, x + 2.0) == max
    ensures Wave(min, max, x + 4.0) == min - n
  {
  }

  lemma Chroma(n: real, delta: real) returns (x: real)
    requires delta > 0.0 && -delta <= n <= delta
    ensures x == n / delta && x * delta == n
    ensures 0.0 <= n ==> 0.0 <= x <= 1.0
    ensures n < 0.0 ==> -1.0 <= x < 0.0
  {
    QuotientTimes(n, delta);
    x := n / delta;
  }

  /** Red taken as the maximum, within epsilon: the other two channels come back exactly. */
  lemma RedSide(min: real, max: real, g: real, b: real)
    requires min < max && min <= g <= max && min <= b <= max && (g == min || b == min)
    ensures WaveTriple(min, max, RemEuclid((g - b) / (max - min), 6.0)) == Rgb(max, g, b)
  {
    var delta := max - min;
    var x := Chroma(g - b, delta);
    if g >= b {
      RemEuclidIs(x, 6.0, 0);
      WaveRises(min, max, g - b, x);
      TripleIs(min, max, x, x + 2.0, 0, x, 0, x + 4.0, -1);
    } else {
      RemEuclidIs(x, 6.0, -1);
      WaveFalls(min, max, g - b, x);
      TripleIs(min, max, x + 6.0, x + 2.0, 1, x + 6.0, 0, x + 4.0, 0);
    }
  }

  lemma GreenSide(min: real, max: real, r: real, b: real)
    requires min < max && min <= r <= max && min <= b <= max && (r == min || b == min)
    ensures WaveTriple(min, max, (b - r) / (max - min) + 2.0) == Rgb(r, max, b)
  {
    var x := Chroma(b - r, max - min);
    if b >= r {
      WaveRises(min, max, b - r, x);
      TripleIs(min, max, x + 2.0, x + 4.0, 0, x + 2.0, 0, x, 0);
    } else {
      WaveFalls(min, max, b - r, x);
      TripleIs(min, max, x + 2.0, x + 4.0, 0, x + 2.0, 0, x + 6.0, -1);
    }
  }

  lemma BlueSide(min: real, max: real, r: real, g: real)
    requires min < max && min <= r <= max && min <= g <= max && (r == min || g == min)
    ensures WaveTriple(min, max, (r - g) / (max - min) + 4.0) == Rgb(r, g, max)
  {
    var x := Chroma(r - g, max - min);
    if r >= g {
      WaveRises(min, max, r - g, x);
      TripleIs(min, max, x + 4.0, x, 1, x + 4.0, 0, x + 2.0, 0);
    } else {
      WaveFalls(min, max, r - g, x);
      TripleIs(min, max, x + 4.0, x + 6.0, 0, x + 4.0, 0, x + 2.0, 0);
    }
  }
}
