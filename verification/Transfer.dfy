/**
 The sRGB transfer pair of IEC 61966-2-1 in exact reals, and the quantizing
 tables built from it. `powf(2.4)` and `powf(1.0 / 2.4)` are written through the
 exact fifth and twelfth roots.
 */
module Transfer {
  import opened Common
  import opened Powers

  /** The irrational operations the kernel uses. */
  datatype Roots = Roots(square: real -> real, fifth: real -> real, twelfth: real -> real)

  ghost predicate Exact(k: Roots) {
    forall x: real :: x >= 0.0 ==>
      && k.square(x) >= 0.0 && k.square(x) * k.square(x) == x
      && k.fifth(x) >= 0.0 && Pow(k.fifth(x), 5) == x
      && k.twelfth(x) >= 0.0 && Pow(k.twelfth(x), 12) == x
  }

  function SrgbToLinear(k: Roots, c: real): real {
    if c <= 0.04045 then c / 12.92 else Pow(k.fifth((c + 0.055) / 1.055), 12)
  }

  function LinearToSrgb(k: Roots, c: real): real {
    if c <= 0.0031308 then c * 12.92 else 1.055 * Pow(k.twelfth(c), 5) - 0.055
  }

  /** Round, then clamp to the byte range. */
  function UnitToByte(x: real): (r: byte) {
    var scaled := x * 255.0;
    if scaled <= 0.0 then 0 else if scaled >= 255.0 then 255 else Round(scaled) as byte
  }

  function Unit(b: byte): (u: real)
    ensures 0.0 <= u <= 1.0
  {
    b as real / 255.0
  }

  lemma UnitToByteNear(x: real, b: byte)
    requires Abs(x - Unit(b)) < 0.5 / 255.0
    ensures UnitToByte(x) == b
  {
    assert Abs(x * 255.0 - b as real) < 0.5;
  }

  /** `srgb_u8_to_linear`: what the 256-entry table holds. */
  function DecodeByte(k: Roots, b: byte): real {
    SrgbToLinear(k, Unit(b))
  }

  const COARSE := 4095.0
  const FINE := 65535.0

  /** The nearest point of an `n`-step grid to a clamped value. */
  function Snap(x: real, n: real): (r: real)
    requires n >= 1.0
    ensures 0.0 <= r
    ensures 0.0 <= x <= 1.0 ==> Abs(r - x) * n <= 0.5
  {
    var i := Round(ClampUnit(x) * n) as real;
    assert i / n * n == i;
    assert 0.0 <= x <= 1.0 ==> Abs(i / n - x) * n <= 0.5 by {
      assert (i / n - x) * n == i - x * n;
    }
    i / n
  }

  /** `linear_to_srgb_u8`: through the 12-bit table. */
  function LinearToByte(k: Roots, c: real): byte {
    UnitToByte(LinearToSrgb(k, Snap(c, COARSE)))
  }

  /** `encode_srgb_channel`: through the 16-bit table, whose entries come from the 12-bit one. */
  function EncodeChannel(k: Roots, c: real): byte {
    LinearToByte(k, Snap(c, FINE))
  }

  // ----- The curve -----

  /** The powers of the rational landmarks used below. */
  lemma Landmarks()
    ensures Pow(0.618, 12) <= 0.0031308 && Pow(0.618, 7) >= 0.034024
    ensures Pow(0.617, 12) <= 0.0031308 && Pow(0.617, 7) >= 0.034024 && Pow(0.617, 5) <= 0.08943
    ensures Pow(0.61839, 12) <= 0.0031308 && Pow(0.61839, 5) >= 0.0904
    ensures Pow(0.621, 5) <= 0.093 && Pow(0.621, 12) > 0.0031308
  {
  }

  /** Decoding a byte and encoding it again is exact before quantization. */
  lemma ByteInverse(k: Roots, b: byte)
    requires Exact(k)
    ensures 0.0 <= DecodeByte(k, b) <= 1.0
    ensures LinearToSrgb(k, DecodeByte(k, b)) == Unit(b)
  {
    var c := Unit(b);
    if b <= 10 {
      assert c <= 0.04045;
      assert c / 12.92 * 12.92 == c;
    } else {
      assert c > 0.04045;
      var base := (c + 0.055) / 1.055;
      var s := k.fifth(base);
      assert 0.093 <= base <= 1.0 && 1.055 * base - 0.055 == c;
      assert Pow(1.0, 5) == 1.0 && Pow(1.0, 12) == 1.0;
      Landmarks();
      PowOrder(0.621, s, 5);
      PowOrder(s, 1.0, 5);
      PowMonotone(0.621, s, 12);
      PowMonotone(s, 1.0, 12);
      PowSign(s, 12);
      PowOrder(k.twelfth(Pow(s, 12)), s, 12);
    }
  }

  /** The power branch rises no faster than the linear one. */
  lemma PowerSlope(k: Roots, y: real, x: real)
    requires Exact(k) && 0.0031308 < y <= x
    ensures 0.0 <= LinearToSrgb(k, x) - LinearToSrgb(k, y) <= 12.92 * (x - y)
  {
    var t, r := k.twelfth(x), k.twelfth(y);
    PowOrder(r, t, 12);
    PowMonotone(r, t, 5);
    Landmarks();
    PowOrder(0.618, r, 12);
    PowMonotone(0.618, r, 7);
    WeightedMean(t, r, 5, 7);
    PowAdd(r, 5, 7);
    SlopeArithmetic(x, y, Pow(t, 5), Pow(r, 5), Pow(r, 7));
  }

  lemma SlopeArithmetic(x: real, y: real, u: real, v: real, w: real)
    requires 5.0 * x + 7.0 * y >= 12.0 * (u * w) && y == v * w && w >= 0.034024 && u >= v
    ensures 1.055 * (u - v) <= 12.92 * (x - y)
  {
    assert 5.0 * (x - y) >= 12.0 * ((u - v) * w);
    var rise := u - v;
    assert rise * (w - 0.034024) >= 0.0;
  }

  /** The power branch never exceeds the extended linear one by a ten-thousandth. */
  lemma PowerAbove(k: Roots, x: real)
    requires Exact(k) && 0.0031308 < x
    ensures 0.04045 - 0.0001 <= LinearToSrgb(k, x) <= 12.92 * x + 0.0001
  {
    var t := k.twelfth(x);
    Landmarks();
    PowOrder(0.61839, t, 12);
    PowMonotone(0.61839, t, 5);
    WeightedMean(t, 0.617, 5, 7);
    PowAdd(0.617, 5, 7);
    AboveArithmetic(x, Pow(t, 5), Pow(0.617, 5), Pow(0.617, 7));
  }

  lemma AboveArithmetic(x: real, u: real, v: real, w: real)
    requires 5.0 * x + 7.0 * (v * w) >= 12.0 * (u * w) && w >= 0.034024 && 0.0 <= v <= 0.08943 && x >= 0.0
    ensures 1.055 * u - 0.055 <= 12.92 * x + 0.0001
  {
    var excess := 1.055 * u - 12.92 * x - 0.0551;
    var xw, vw, uw := x * w, v * w, u * w;
    assert xw >= 0.034024 * x by { assert x * (w - 0.034024) >= 0.0; }
    assert vw <= 0.08943 * w by { assert (0.08943 - v) * w >= 0.0; }
    assert excess * w == 1.055 * uw - 12.92 * xw - 0.0551 * w;
    assert excess * w <= 0.0;
    assert excess <= 0.0;
  }

  /** Encoding stretches distances by at most 12.92, up to a ten-thousandth at the branch seam. */
  lemma Gentle(k: Roots, y: real, x: real)
    requires Exact(k) && 0.0 <= y <= x
    ensures -0.0001 <= LinearToSrgb(k, x) - LinearToSrgb(k, y) <= 12.92 * (x - y) + 0.0001
  {
    if y > 0.0031308 {
      PowerSlope(k, y, x);
    } else if x > 0.0031308 {
      PowerAbove(k, x);
    }
  }

  /** Where the two branches meet. */
  const SEAM := 0.0031308

  /** The linear value at which the power branch catches up with the linear branch's value at `y`. */
  function CatchUp(k: Roots, y: real): real { Pow(k.fifth((12.92 * y + 0.055) / 1.055), 12) }

  lemma AcrossSeam(k: Roots, y: real, x: real)
    requires Exact(k) && y <= SEAM < x && 12.92 * y + 0.055 >= 0.0
    ensures LinearToSrgb(k, y) <= LinearToSrgb(k, x) <==> CatchUp(k, y) <= x
  {
    var base := (12.92 * y + 0.055) / 1.055;
    var s, t := k.fifth(base), k.twelfth(x);
    PowOrder(s, t, 5);
    PowOrder(s, t, 12);
    assert 1.055 * base == 12.92 * y + 0.055;
  }

  /**
   Encoding keeps the order of two values exactly when both lie on one branch, the lower
   one is far below the curve, or the upper one is past the point where the power branch
   catches up with it.
   */
  lemma EncodeMonotone(k: Roots, y: real, x: real)
    requires Exact(k) && y <= x
    ensures LinearToSrgb(k, y) <= LinearToSrgb(k, x) <==>
      x <= SEAM || SEAM < y || 12.92 * y + 0.055 < 0.0 || CatchUp(k, y) <= x
  {
    if x <= SEAM {
    } else if SEAM < y {
      PowerSlope(k, y, x);
    } else if 12.92 * y + 0.055 < 0.0 {
      PowSign(k.twelfth(x), 5);
    } else {
      AcrossSeam(k, y, x);
    }
  }

  /** The order is lost right behind the seam. */
  lemma EncodeIsNotMonotone(k: Roots)
    requires Exact(k)
    ensures LinearToSrgb(k, 0.00313080001) < LinearToSrgb(k, SEAM)
  {
    var t := k.twelfth(0.00313080001);
    assert Pow(0.6184500238, 12) > 0.00313080001;
    PowOrder(t, 0.6184500238, 12);
    PowMonotone(t, 0.6184500238, 5);
    assert 1.055 * Pow(0.6184500238, 5) - 0.055 < 12.92 * SEAM;
  }

  // ----- The quantizers -----

  /** An encoding that stretches unit distances by at most 12.92, with a ten-thousandth to spare. */
  ghost predicate GentleCurve(encode: real -> real) {
    forall x: real, y: real {:trigger encode(x), encode(y)} :: 0.0 <= y <= x <= 1.0 ==>
      -0.0001 <= encode(x) - encode(y) <= 12.92 * (x - y) + 0.0001
  }

  lemma SnapStaysUnit(x: real, n: real)
    requires n == FINE || n == COARSE
    ensures 0.0 <= Snap(x, n) <= 1.0
  {
    assert ClampUnit(x) * n <= n;
  }

  /**
   Any gentle curve survives the chained grids: the value that encodes to a byte
   still does after snapping to the 16-bit grid and then to the 12-bit one.
   */
  lemma QuantizersRecover(encode: real -> real, linear: real, b: byte)
    requires GentleCurve(encode) && 0.0 <= linear <= 1.0 && encode(linear) == Unit(b)
    ensures UnitToByte(encode(Snap(Snap(linear, FINE), COARSE))) == b
    ensures UnitToByte(encode(Snap(linear, COARSE))) == b
  {
    SnapStaysUnit(linear, FINE);
    SnapStaysUnit(linear, COARSE);
    SnapStaysUnit(Snap(linear, FINE), COARSE);
    UnitToByteNear(encode(Snap(Snap(linear, FINE), COARSE)), b);
    UnitToByteNear(encode(Snap(linear, COARSE)), b);
  }

  /**
   Every stored byte survives the compositor: decode, snap to the 16-bit grid,
   snap to the 12-bit grid, encode, round. The 12-bit table alone also does it.
   */
  lemma ByteRoundTrip(k: Roots, b: byte)
    requires Exact(k)
    ensures EncodeChannel(k, DecodeByte(k, b)) == b
    ensures LinearToByte(k, DecodeByte(k, b)) == b
  {
    ByteInverse(k, b);
    var encode := c => LinearToSrgb(k, c);
    forall x: real, y: real | 0.0 <= y <= x <= 1.0
      ensures -0.0001 <= encode(x) - encode(y) <= 12.92 * (x - y) + 0.0001
    {
      Gentle(k, y, x);
    }
    QuantizersRecover(encode, DecodeByte(k, b), b);
  }

  // ----- Filling the tables -----

  /** The 256-entry byte to linear table. */
  method DecodeTable(k: Roots) returns (table: array<real>)
    ensures fresh(table) && table.Length == 256
    ensures forall b: byte :: table[b as int] == DecodeByte(k, b)
  {
    table := new real[256];
    for index := 0 to 256
      invariant forall b: byte :: b as int < index ==> table[b as int] == DecodeByte(k, b)
    {
      table[index] := SrgbToLinear(k, index as real / 255.0);
    }
  }

  /** The 4096-entry linear to byte table. */
  method EncodeTable(k: Roots) returns (table: array<byte>)
    ensures fresh(table) && table.Length == 4096
    ensures forall i :: 0 <= i < 4096 ==> table[i] == UnitToByte(LinearToSrgb(k, i as real / COARSE))
  {
    table := new byte[4096];
    for index := 0 to 4096
      invariant forall i :: 0 <= i < index ==> table[i] == UnitToByte(LinearToSrgb(k, i as real / COARSE))
    {
      table[index] := UnitToByte(LinearToSrgb(k, index as real / COARSE));
    }
  }
}
