/** Byte RGB to HSV and HSL in degrees and back, on exact reals. */
module ColorConvert {
  import opened Common
  import opened HueWave
  import opened Transfer

  datatype Hsv = Hsv(h: real, s: real, v: real)

  datatype Hsl = Hsl(h: real, s: real, l: real)

  datatype ByteRgb = ByteRgb(r: byte, g: byte, b: byte)

  function WrapHue(h: real): (r: real)
    ensures 0.0 <= r < 360.0
  {
    var wrapped := RemEuclid(h, 360.0);
    if wrapped >= 360.0 then 0.0 else wrapped
  }

  function SectorRgb(h: real, c: real): Rgb {
    var hp := h / 60.0;
    var x := c * (1.0 - Abs(RemEuclid(hp, 2.0) - 1.0));
    Sector(hp.Floor, c, x)
  }

  /** Sixths of a turn, before scaling to degrees. */
  function SextantOf(c: Rgb, max: real, delta: real): real
    requires delta > 0.0
  {
    if max == c.r then RemEuclid((c.g - c.b) / delta, 6.0)
    else if max == c.g then (c.b - c.r) / delta + 2.0
    else (c.r - c.g) / delta + 4.0
  }

  function HueFromDeltas(c: Rgb, max: real, delta: real): real
    requires delta >= 0.0
  {
    if delta == 0.0 then 0.0 else WrapHue(60.0 * SextantOf(c, max, delta))
  }

  function Shifted(c: Rgb, m: real): Rgb { Rgb(c.r + m, c.g + m, c.b + m) }

  /** The sector triple at a hue, lifted by the match-lightness offset. */
  function FromHue(h: real, chroma: real, m: real): Rgb {
    Shifted(SectorRgb(WrapHue(h), chroma), m)
  }

  function HsvFromUnits(c: Rgb): Hsv {
    var max, delta := Max3(c), Max3(c) - Min3(c);
    Hsv(HueFromDeltas(c, max, delta), if max == 0.0 then 0.0 else delta / max, max)
  }

  function HsvChroma(c: Hsv): real { ClampUnit(c.v) * ClampUnit(c.s) }

  function HsvToUnits(c: Hsv): Rgb {
    FromHue(c.h, HsvChroma(c), ClampUnit(c.v) - HsvChroma(c))
  }

  function HslFromUnits(c: Rgb): Hsl
    requires InGamut(c)
  {
    var max, min := Max3(c), Min3(c);
    var l := (max + min) / 2.0;
    Hsl(HueFromDeltas(c, max, max - min), if max - min == 0.0 then 0.0 else (max - min) / (1.0 - Abs(2.0 * l - 1.0)), l)
  }

  function HslChroma(c: Hsl): real { (1.0 - Abs(2.0 * ClampUnit(c.l) - 1.0)) * ClampUnit(c.s) }

  function HslToUnits(c: Hsl): Rgb {
    FromHue(c.h, HslChroma(c), ClampUnit(c.l) - HslChroma(c) / 2.0)
  }

  function Units(c: ByteRgb): Rgb { Rgb(Unit(c.r), Unit(c.g), Unit(c.b)) }

  function Bytes(c: Rgb): ByteRgb { ByteRgb(UnitToByte(c.r), UnitToByte(c.g), UnitToByte(c.b)) }

  // ----- The sector table is the hue wave -----

  /** The intermediate channel rises through even sectors and falls through odd ones. */
  lemma Intermediate(z: real, k: int)
    requires k as real <= z < k as real + 1.0
    ensures 1.0 - Abs(RemEuclid(z, 2.0) - 1.0) == if k % 2 == 0 then z - k as real else k as real + 1.0 - z
  {
    RemEuclidIs(z, 2.0, k / 2);
  }

  /** One sector's triple, with the intermediate channel already computed. */
  function Sector(k: int, c: real, x: real): Rgb {
    match k
    case 0 => Rgb(c, x, 0.0)
    case 1 => Rgb(x, c, 0.0)
    case 2 => Rgb(0.0, c, x)
    case 3 => Rgb(0.0, x, c)
    case 4 => Rgb(x, 0.0, c)
    case _ => Rgb(c, 0.0, x)
  }

  /** Where red and blue stand on the wave when green stands at `z`. */
  function RedAt(z: real): real { if z < 4.0 then z + 2.0 else z - 4.0 }

  function BlueAt(z: real): real { if z < 2.0 then z + 4.0 else z - 2.0 }

  lemma TripleAt(min: real, max: real, z: real)
    requires 0.0 <= z < 6.0
    ensures WaveTriple(min, max, z) == Rgb(Wave(min, max, RedAt(z)), Wave(min, max, z), Wave(min, max, BlueAt(z)))
  {
    TripleIs(min, max, z, RedAt(z), if z < 4.0 then 0 else 1, z, 0, BlueAt(z), if z < 2.0 then -1 else 0);
  }

  lemma RisingSector(z: real, c: real, m: real, k: int, x: real)
    requires (k == 0 || k == 2 || k == 4) && k as real <= z < k as real + 1.0 && x == c * (z - k as real)
    ensures Shifted(Sector(k, c, x), m) ==
            Rgb(Wave(m, m + c, RedAt(z)), Wave(m, m + c, z), Wave(m, m + c, BlueAt(z)))
  {
  }

  lemma FallingSector(z: real, c: real, m: real, k: int, x: real)
    requires (k == 1 || k == 3 || k == 5) && k as real <= z < k as real + 1.0 && x == c * (k as real + 1.0 - z)
    ensures Shifted(Sector(k, c, x), m) ==
            Rgb(Wave(m, m + c, RedAt(z)), Wave(m, m + c, z), Wave(m, m + c, BlueAt(z)))
  {
  }

  lemma SectorShape(z: real, c: real) returns (k: int, x: real)
    requires 0.0 <= z < 6.0
    ensures 0 <= k < 6 && k as real <= z < k as real + 1.0
    ensures x == c * if k % 2 == 0 then z - k as real else k as real + 1.0 - z
    ensures SectorRgb(60.0 * z, c) == Sector(k, c, x)
  {
    k := z.Floor;
    Intermediate(z, k);
    assert 60.0 * z / 60.0 == z;
    x := c * (1.0 - Abs(RemEuclid(z, 2.0) - 1.0));
  }

  lemma SectorWaves(rgb: Rgb, z: real, c: real, m: real, k: int, x: real)
    requires 0 <= k < 6 && k as real <= z < k as real + 1.0
    requires x == c * if k % 2 == 0 then z - k as real else k as real + 1.0 - z
    requires rgb == Sector(k, c, x)
    ensures Shifted(rgb, m) == Rgb(Wave(m, m + c, RedAt(z)), Wave(m, m + c, z), Wave(m, m + c, BlueAt(z)))
  {
    if k % 2 == 0 {
      RisingSector(z, c, m, k, x);
    } else {
      FallingSector(z, c, m, k, x);
    }
  }

  lemma SectorTriple(rgb: Rgb, z: real, c: real, m: real, k: int, x: real)
    requires 0 <= k < 6 && k as real <= z < k as real + 1.0
    requires x == c * if k % 2 == 0 then z - k as real else k as real + 1.0 - z
    requires rgb == Sector(k, c, x)
    ensures Shifted(rgb, m) == WaveTriple(m, m + c, z)
  {
    SectorWaves(rgb, z, c, m, k, x);
    TripleAt(m, m + c, z);
  }

  lemma SectorIsWave(z: real, c: real, m: real)
    requires 0.0 <= z < 6.0
    ensures Shifted(SectorRgb(60.0 * z, c), m) == WaveTriple(m, m + c, z)
  {
    var k, x := SectorShape(z, c);
    SectorTriple(SectorRgb(60.0 * z, c), z, c, m, k, x);
  }

  // ----- Round trips -----

  lemma WrapKeeps(h: real)
    requires 0.0 <= h < 360.0
    ensures WrapHue(h) == h
  {
    RemEuclidIs(h, 360.0, 0);
  }

  predicate IsTurned(h: real, base: real, turns: int) { h == base + turns as real * 360.0 }

  /** Whole turns make no difference, and what is left is less than one. */
  lemma WrapIsPeriodic(h: real, turns: int)
    ensures WrapHue(h + turns as real * 360.0) == WrapHue(h)
    ensures exists k: int :: IsTurned(h, WrapHue(h), k)
  {
    var k := (h / 360.0).Floor;
    RemEuclidIs(h, 360.0, k);
    assert IsTurned(h, WrapHue(h), k);
    RemEuclidIs(h + turns as real * 360.0, 360.0, k + turns);
  }

  lemma SextantInRange(c: Rgb, max: real, min: real)
    requires max == Max3(c) && min == Min3(c) && min < max
    ensures 0.0 <= SextantOf(c, max, max - min) < 6.0
    ensures WaveTriple(min, max, SextantOf(c, max, max - min)) == c
  {
    if max == c.r {
      RedSide(min, max, c.g, c.b);
    } else if max == c.g {
      var x := Chroma(c.b - c.r, max - min);
      GreenSide(min, max, c.r, c.b);
    } else {
      var x := Chroma(c.r - c.g, max - min);
      BlueSide(min, max, c.r, c.g);
    }
  }

  /** From its hue, spread and minimum a colour is rebuilt in every sector and on every boundary. */
  lemma Rebuilt(c: Rgb, max: real, min: real)
    requires max == Max3(c) && min == Min3(c)
    ensures FromHue(HueFromDeltas(c, max, max - min), max - min, min) == c
  {
    if min < max {
      SextantInRange(c, max, min);
      var z := SextantOf(c, max, max - min);
      WrapKeeps(60.0 * z);
      SectorIsWave(z, max - min, min);
    } else {
      WrapKeeps(0.0);
    }
  }

  lemma HsvChromaIs(hsv: Hsv, max: real, min: real)
    requires 0.0 <= min <= max <= 1.0 && hsv.v == max
    requires hsv.s == if max == 0.0 then 0.0 else (max - min) / max
    ensures HsvChroma(hsv) == max - min
    ensures ClampUnit(hsv.v) - HsvChroma(hsv) == min
  {
    if max > 0.0 {
      QuotientTimes(max - min, max);
    }
  }

  /** HSV undoes itself on every unit triple. */
  lemma HsvRoundTrip(c: Rgb)
    requires InGamut(c)
    ensures HsvToUnits(HsvFromUnits(c)) == c
  {
    var max, min := Max3(c), Min3(c);
    Rebuilt(c, max, min);
    HsvChromaIs(HsvFromUnits(c), max, min);
    HsvRebuilds(c, HsvFromUnits(c), max, min);
  }

  lemma HsvRebuilds(c: Rgb, hsv: Hsv, max: real, min: real)
    requires HsvChroma(hsv) == max - min && ClampUnit(hsv.v) - HsvChroma(hsv) == min
    requires FromHue(hsv.h, max - min, min) == c
    ensures HsvToUnits(hsv) == c
  {
  }

  lemma HslChromaIs(hsl: Hsl, max: real, min: real)
    requires 0.0 <= min <= max <= 1.0 && hsl.l == (max + min) / 2.0
    requires hsl.s == if max - min == 0.0 then 0.0 else (max - min) / (1.0 - Abs(2.0 * hsl.l - 1.0))
    ensures HslChroma(hsl) == max - min
    ensures ClampUnit(hsl.l) - HslChroma(hsl) / 2.0 == min
  {
    if min < max {
      QuotientTimes(max - min, 1.0 - Abs(2.0 * hsl.l - 1.0));
    }
  }

  /** HSL undoes itself on every unit triple. */
  lemma HslRoundTrip(c: Rgb)
    requires InGamut(c)
    ensures HslToUnits(HslFromUnits(c)) == c
  {
    var max, min := Max3(c), Min3(c);
    Rebuilt(c, max, min);
    HslChromaIs(HslFromUnits(c), max, min);
    HslRebuilds(c, HslFromUnits(c), max, min);
  }

  lemma HslRebuilds(c: Rgb, hsl: Hsl, max: real, min: real)
    requires HslChroma(hsl) == max - min && ClampUnit(hsl.l) - HslChroma(hsl) / 2.0 == min
    requires FromHue(hsl.h, max - min, min) == c
    ensures HslToUnits(hsl) == c
  {
  }

  lemma BytesOfUnits(c: ByteRgb)
    ensures Bytes(Units(c)) == c
  {
    UnitToByteNear(Unit(c.r), c.r);
    UnitToByteNear(Unit(c.g), c.g);
    UnitToByteNear(Unit(c.b), c.b);
  }

  /** So every byte colour survives both conversions unchanged. */
  lemma ByteColoursRoundTrip(c: ByteRgb)
    ensures Bytes(HsvToUnits(HsvFromUnits(Units(c)))) == c
    ensures Bytes(HslToUnits(HslFromUnits(Units(c)))) == c
  {
    HsvRoundTrip(Units(c));
    HslRoundTrip(Units(c));
    BytesOfUnits(c);
  }

  /** Red, yellow, green, cyan, blue and magenta stand a sixth of a turn apart, in this order. */
  lemma PrimaryHues()
    ensures HsvFromUnits(Rgb(1.0, 0.0, 0.0)).h == HslFromUnits(Rgb(1.0, 0.0, 0.0)).h == 0.0
    ensures HsvFromUnits(Rgb(1.0, 1.0, 0.0)).h == HslFromUnits(Rgb(1.0, 1.0, 0.0)).h == 60.0
    ensures HsvFromUnits(Rgb(0.0, 1.0, 0.0)).h == HslFromUnits(Rgb(0.0, 1.0, 0.0)).h == 120.0
    ensures HsvFromUnits(Rgb(0.0, 1.0, 1.0)).h == HslFromUnits(Rgb(0.0, 1.0, 1.0)).h == 180.0
    ensures HsvFromUnits(Rgb(0.0, 0.0, 1.0)).h == HslFromUnits(Rgb(0.0, 0.0, 1.0)).h == 240.0
    ensures HsvFromUnits(Rgb(1.0, 0.0, 1.0)).h == HslFromUnits(Rgb(1.0, 0.0, 1.0)).h == 300.0
  {
    HueIs(Rgb(1.0, 0.0, 0.0), 0.0, 0);
    HueIs(Rgb(1.0, 1.0, 0.0), 1.0, 0);
    HueIs(Rgb(0.0, 1.0, 0.0), 2.0, 0);
    HueIs(Rgb(0.0, 1.0, 1.0), 3.0, 0);
    HueIs(Rgb(0.0, 0.0, 1.0), 4.0, 0);
    HueIs(Rgb(1.0, 0.0, 1.0), 5.0, -1);
  }

  lemma HueIs(c: Rgb, z: real, turns: int)
    requires Max3(c) == 1.0 && Min3(c) == 0.0 && 0.0 <= z < 6.0
    requires if c.r == 1.0 then c.g - c.b == z + turns as real * 6.0
             else if c.g == 1.0 then z == c.b - c.r + 2.0
             else z == c.r - c.g + 4.0
    ensures HueFromDeltas(c, 1.0, 1.0) == 60.0 * z
  {
    if c.r == 1.0 { RemEuclidIs(c.g - c.b, 6.0, turns); }
    WrapKeeps(60.0 * z);
  }

  /** The most that two bounds with this sum can lie apart. */
  function MostSpread(sum: real): real { Min(sum, 2.0 - sum) }

  /** Value is the brightest channel, and saturation the spread's share of it. */
  lemma HsvToneIs(c: Rgb)
    requires InGamut(c)
    ensures HsvFromUnits(c).v == Max3(c) && HsvFromUnits(c).s * Max3(c) == Max3(c) - Min3(c)
  {
    HsvTone(c, Max3(c), Min3(c), HsvFromUnits(c).s);
  }

  /** Lightness lies halfway between the bounds, and saturation is the spread's share of the most it could be. */
  lemma HslToneIs(c: Rgb)
    requires InGamut(c)
    ensures HslFromUnits(c).l - Min3(c) == Max3(c) - HslFromUnits(c).l
    ensures HslFromUnits(c).s * MostSpread(Max3(c) + Min3(c)) == Max3(c) - Min3(c)
  {
    HslTone(c, Max3(c), Min3(c), HslFromUnits(c).s, 1.0 - Abs(2.0 * ((Max3(c) + Min3(c)) / 2.0) - 1.0));
  }

  lemma HsvTone(c: Rgb, max: real, min: real, s: real)
    requires InGamut(c) && max == Max3(c) && min == Min3(c) && s == HsvFromUnits(c).s
    ensures s * max == max - min
  {
    if max > 0.0 { ShareOf(max - min, max, s); }
  }

  lemma HslTone(c: Rgb, max: real, min: real, s: real, most: real)
    requires InGamut(c) && max == Max3(c) && min == Min3(c)
    requires most == 1.0 - Abs(2.0 * ((max + min) / 2.0) - 1.0)
    requires s == if max - min == 0.0 then 0.0 else (max - min) / most
    ensures s * MostSpread(max + min) == max - min
  {
    assert most == MostSpread(max + min);
    if max != min { ShareOf(max - min, most, s); }
  }

  lemma ShareOf(n: real, d: real, share: real)
    requires d > 0.0 && share == n / d
    ensures share * d == n
  {
    QuotientTimes(n, d);
  }
}
