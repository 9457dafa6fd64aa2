/**
 The layer adjustment's float HSL pair, on exact reals: hue as a fraction of a
 turn, near-ties decided by an epsilon.
 */
module LayerHsl {
  import opened Common
  import opened HueWave

  /** `f32::EPSILON`. */
  const EPSILON := 1.0 / 8388608.0

  datatype Hsl = Hsl(hue: real, saturation: real, lightness: real)

  function SaturationOf(max: real, min: real): real
    requires min < max && 0.0 <= min && max <= 1.0
  {
    if (max + min) / 2.0 > 0.5 then (max - min) / (2.0 - max - min) else (max - min) / (max + min)
  }

  /** Six times the hue. */
  function SextantOf(c: Rgb, max: real, delta: real): real
    requires delta > 0.0
  {
    if Abs(max - c.r) <= EPSILON then RemEuclid((c.g - c.b) / delta, 6.0)
    else if Abs(max - c.g) <= EPSILON then (c.b - c.r) / delta + 2.0
    else (c.r - c.g) / delta + 4.0
  }

  function RgbToHsl(c: Rgb): Hsl
    requires InGamut(c)
  {
    var max, min := Max3(c), Min3(c);
    var delta := max - min;
    if delta <= EPSILON then Hsl(0.0, 0.0, (max + min) / 2.0)
    else Hsl(SextantOf(c, max, delta) / 6.0, SaturationOf(max, min), (max + min) / 2.0)
  }

  function HueToRgb(p: real, q: real, turn: real): real {
    var hue := RemEuclid(turn, 1.0);
    if hue < 1.0 / 6.0 then p + (q - p) * 6.0 * hue
    else if hue < 0.5 then q
    else if hue < 2.0 / 3.0 then p + (q - p) * (2.0 / 3.0 - hue) * 6.0
    else p
  }

  /** The larger of the two mixing bounds. */
  function UpperBound(lightness: real, saturation: real): real {
    if lightness < 0.5 then lightness * (1.0 + saturation) else lightness + saturation - lightness * saturation
  }

  /** The three channels between the bounds at a hue. */
  function Spread(p: real, q: real, hue: real): Rgb {
    Rgb(HueToRgb(p, q, hue + 1.0 / 3.0), HueToRgb(p, q, hue), HueToRgb(p, q, hue - 1.0 / 3.0))
  }

  function HslToRgb(c: Hsl): Rgb {
    if c.saturation <= EPSILON then Rgb(c.lightness, c.lightness, c.lightness) else
    var q := UpperBound(c.lightness, c.saturation);
    Spread(2.0 * c.lightness - q, q, c.hue)
  }

  // ----- Saturation -----

  lemma QuotientAtLeast(n: real, d: real)
    requires n >= 0.0 && 0.0 < d <= 1.0
    ensures n / d >= n
  {
    QuotientTimes(n, d);
    NonNegative(n / d, 1.0 - d);
  }

  /** A chromatic colour never takes the grey exit, and its bounds come back exactly. */
  lemma ChromaticBounds(max: real, min: real)
    requires 0.0 <= min && max <= 1.0 && max - min > EPSILON
    ensures SaturationOf(max, min) > EPSILON
    ensures UpperBound((max + min) / 2.0, SaturationOf(max, min)) == max
  {
    var l := (max + min) / 2.0;
    var delta := max - min;
    if l > 0.5 {
      QuotientAtLeast(delta, 2.0 - max - min);
      HalfProduct(delta / (2.0 - max - min), 1.0 - l, delta);
    } else {
      QuotientAtLeast(delta, max + min);
      HalfProduct(delta / (max + min), l, delta);
    }
  }

  lemma HalfProduct(s: real, half: real, delta: real)
    requires s * (2.0 * half) == delta
    ensures s * half == delta / 2.0
  {
  }

  // ----- Hue -----

  lemma HueIsWave(p: real, q: real, turn: real, z: real, k: int)
    requires 0.0 <= z < 6.0 && 6.0 * turn == z + 6.0 * k as real
    ensures HueToRgb(p, q, turn) == Wave(p, q, z)
  {
    RemEuclidIs(turn, 1.0, k);
    var hue := RemEuclid(turn, 1.0);
    assert 6.0 * hue == z;
    var d := q - p;
    assert d * 6.0 * hue == d * z;
    assert d * (2.0 / 3.0 - hue) * 6.0 == d * (4.0 - z);
  }

  /** The float formula spreads the channels along the hue wave. */
  lemma SpreadIsWave(min: real, max: real, s: real)
    ensures Spread(min, max, s / 6.0) == WaveTriple(min, max, s)
  {
    TurnIsWave(min, max, s / 6.0 + 1.0 / 3.0, s + 2.0);
    TurnIsWave(min, max, s / 6.0, s);
    TurnIsWave(min, max, s / 6.0 - 1.0 / 3.0, s - 2.0);
  }

  lemma TurnIsWave(p: real, q: real, turn: real, z: real)
    requires 6.0 * turn == z
    ensures HueToRgb(p, q, turn) == Wave(p, q, RemEuclid(z, 6.0))
  {
    var k := (z / 6.0).Floor;
    HueIsWave(p, q, turn, RemEuclid(z, 6.0), k);
  }

  predicate Within(c: Rgb, d: Rgb, tolerance: real) {
    Abs(c.r - d.r) <= tolerance && Abs(c.g - d.g) <= tolerance && Abs(c.b - d.b) <= tolerance
  }

  /** With its spread above epsilon a colour is rebuilt from its own bounds. */
  lemma RebuiltFromBounds(c: Rgb, max: real, min: real)
    requires InGamut(c) && max == Max3(c) && min == Min3(c) && max - min > EPSILON
    ensures RgbToHsl(c).saturation > EPSILON
    ensures HslToRgb(RgbToHsl(c)) == Spread(min, max, SextantOf(c, max, max - min) / 6.0)
  {
    RebuiltAt(max, min, SextantOf(c, max, max - min) / 6.0);
  }

  lemma RebuiltAt(max: real, min: real, hue: real)
    requires 0.0 <= min && max <= 1.0 && max - min > EPSILON
    ensures SaturationOf(max, min) > EPSILON
    ensures HslToRgb(Hsl(hue, SaturationOf(max, min), (max + min) / 2.0)) == Spread(min, max, hue)
  {
    ChromaticBounds(max, min);
    SpreadFromBounds(hue, SaturationOf(max, min), (max + min) / 2.0, max, min);
  }

  lemma SpreadFromBounds(hue: real, saturation: real, lightness: real, max: real, min: real)
    requires saturation > EPSILON && UpperBound(lightness, saturation) == max && 2.0 * lightness - max == min
    ensures HslToRgb(Hsl(hue, saturation, lightness)) == Spread(min, max, hue)
  {
  }

  lemma RebuiltAsWave(c: Rgb, max: real, min: real)
    requires InGamut(c) && max == Max3(c) && min == Min3(c) && max - min > EPSILON
    ensures RgbToHsl(c).saturation > EPSILON
    ensures HslToRgb(RgbToHsl(c)) == WaveTriple(min, max, SextantOf(c, max, max - min))
  {
    RebuiltFromBounds(c, max, min);
    SpreadIsWave(min, max, SextantOf(c, max, max - min));
  }

  /** The channel the epsilon tests take for the maximum. */
  datatype Side = Red | Green | Blue

  function SideOf(c: Rgb): Side {
    if Abs(Max3(c) - c.r) <= EPSILON then Red else if Abs(Max3(c) - c.g) <= EPSILON then Green else Blue
  }

  /** Only the channel taken for the maximum can move, and it becomes the maximum. */
  lemma RoundTripMovesOneChannel(c: Rgb)
    requires InGamut(c) && Max3(c) - Min3(c) > EPSILON
    ensures RgbToHsl(c).saturation > EPSILON
    ensures HslToRgb(RgbToHsl(c)) ==
            match SideOf(c)
            case Red => Rgb(Max3(c), c.g, c.b)
            case Green => Rgb(c.r, Max3(c), c.b)
            case Blue => Rgb(c.r, c.g, Max3(c))
  {
    var max, min := Max3(c), Min3(c);
    RebuiltAsWave(c, max, min);
    match SideOf(c)
    case Red => RedSide(min, max, c.g, c.b);
    case Green => GreenSide(min, max, c.r, c.b);
    case Blue => BlueSide(min, max, c.r, c.g);
  }

  /**
   Converting to HSL and back moves no channel by more than one epsilon, near
   ties where a channel that is not the maximum is taken for it included; and a
   colour with spread above epsilon never leaves by the grey exit.
   */
  lemma RoundTrip(c: Rgb)
    requires InGamut(c)
    ensures Within(HslToRgb(RgbToHsl(c)), c, EPSILON)
    ensures Max3(c) - Min3(c) > EPSILON ==> RgbToHsl(c).saturation > EPSILON
  {
    if Max3(c) - Min3(c) > EPSILON {
      RoundTripMovesOneChannel(c);
    }
  }

  /** Red, yellow, green, cyan, blue and magenta stand a sixth of a turn apart, in this order. */
  lemma PrimaryHues()
    ensures RgbToHsl(Rgb(1.0, 0.0, 0.0)).hue == 0.0 && RgbToHsl(Rgb(1.0, 1.0, 0.0)).hue == 1.0 / 6.0
    ensures RgbToHsl(Rgb(0.0, 1.0, 0.0)).hue == 2.0 / 6.0 && RgbToHsl(Rgb(0.0, 1.0, 1.0)).hue == 3.0 / 6.0
    ensures RgbToHsl(Rgb(0.0, 0.0, 1.0)).hue == 4.0 / 6.0 && RgbToHsl(Rgb(1.0, 0.0, 1.0)).hue == 5.0 / 6.0
  {
    RemEuclidIs(0.0, 6.0, 0);
    RemEuclidIs(1.0, 6.0, 0);
    RemEuclidIs(-1.0, 6.0, -1);
  }

  /** Lightness lies halfway between the bounds, and saturation is the spread's share of the most it could be. */
  lemma ToneIs(c: Rgb)
    requires InGamut(c) && Max3(c) - Min3(c) > EPSILON
    ensures
      var max, min, hsl := Max3(c), Min3(c), RgbToHsl(c);
      && hsl.lightness - min == max - hsl.lightness
      && (hsl.lightness <= 0.5 ==> hsl.saturation * (max + min) == max - min)
      && (hsl.lightness > 0.5 ==> hsl.saturation * (2.0 - max - min) == max - min)
  {
    var max, min := Max3(c), Min3(c);
    QuotientTimes(max - min, if (max + min) / 2.0 > 0.5 then 2.0 - max - min else max + min);
  }
}
