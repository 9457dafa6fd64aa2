/**
 What the blend modes are, said by the laws that determine them instead of by their
 formulas, and what those laws mean for bytes that pass through the compositor.
 */
module BlendLaws {
  import opened Common
  import opened Powers
  import opened Transfer
  import opened BlendKernel
  import opened Compositor
  import opened CompositorBuffers

  // ----- Multiply and Screen -----

  /**
   Multiply is even in its first channel, symmetric, gives the other channel against
   white and black against black, and never brightens.
   */
  lemma MultiplyLaws(k: Roots, d: real, e: real, s: real, w: real)
    requires InUnit(d) && InUnit(e) && InUnit(s) && InUnit(w)
    ensures Blended(k, Multiply, Mixed(d, e, w), s)
         == Mixed(Blended(k, Multiply, d, s), Blended(k, Multiply, e, s), w)
    ensures Blended(k, Multiply, d, s) == Blended(k, Multiply, s, d)
    ensures Blended(k, Multiply, 1.0, s) == s && Blended(k, Multiply, 0.0, s) == 0.0
    ensures Blended(k, Multiply, d, s) <= d && Blended(k, Multiply, d, s) <= s
  {
    UnitProduct(d, s);
    MixedProduct(d, e, s, w);
  }

  lemma MixedProduct(d: real, e: real, s: real, w: real)
    ensures Mixed(d, e, w) * s == Mixed(d * s, e * s, w)
  {
    assert d * (1.0 - w) * s == d * s * (1.0 - w);
    assert e * w * s == e * s * w;
  }

  /** Screen is Multiply of the complements: black leaves the other channel, white wins, and nothing gets darker. */
  lemma ScreenLaws(k: Roots, d: real, s: real)
    requires InUnit(d) && InUnit(s)
    ensures 1.0 - Blended(k, Screen, d, s) == Blended(k, Multiply, 1.0 - d, 1.0 - s)
    ensures Blended(k, Screen, d, s) >= d && Blended(k, Screen, d, s) >= s
    ensures Blended(k, Screen, d, 0.0) == d && Blended(k, Screen, 0.0, s) == s
    ensures Blended(k, Screen, d, 1.0) == Blended(k, Screen, 1.0, s) == 1.0
  {
    ScreenBrightens(d, s, 1.0 - d, 1.0 - s, Blended(k, Screen, d, s));
  }

  lemma ScreenBrightens(d: real, s: real, e: real, t: real, x: real)
    requires InUnit(d) && InUnit(s) && e == 1.0 - d && t == 1.0 - s && x == 1.0 - e * t
    ensures x >= d && x >= s
  {
    BelowBoth(e, t, e * t);
  }

  lemma BelowBoth(e: real, t: real, product: real)
    requires InUnit(e) && InUnit(t) && product == e * t
    ensures product <= e && product <= t
  {
    UnitProduct(e, t);
  }

  // ----- The modes built from them -----

  /** Overlay multiplies by the doubled channel in the lower half and screens by it in the upper one. */
  lemma OverlayLaws(k: Roots, d: real, s: real)
    requires InUnit(d) && InUnit(s)
    ensures d < 0.5 ==> Blended(k, Overlay, d, s) == Blended(k, Multiply, 2.0 * d, s)
    ensures d >= 0.5 ==> Blended(k, Overlay, d, s) == Blended(k, Screen, 2.0 * d - 1.0, s)
  {
    var (e, t) := (1.0 - d, 1.0 - s);
    assert 2.0 * e == 1.0 - (2.0 * d - 1.0);
    assert 2.0 * e * t == (2.0 * e) * t;
  }

  /** SoftLight moves from the square over the channel itself, at mid-grey, to the root, evenly on both sides. */
  lemma SoftLightLaws(k: Roots, d: real, s: real)
    requires Exact(k) && InUnit(d) && InUnit(s)
    ensures
      var root := Blended(k, SoftLight, d, 1.0);
      && Blended(k, SoftLight, d, 0.5) == d
      && Blended(k, SoftLight, d, 0.0) == Blended(k, Multiply, d, d)
      && root >= d && Blended(k, Multiply, root, root) == d
      && (s <= 0.5 ==> Blended(k, SoftLight, d, s) == Mixed(Blended(k, Multiply, d, d), d, 2.0 * s))
      && (s >= 0.5 ==> Blended(k, SoftLight, d, s) == Mixed(d, root, 2.0 * s - 1.0))
  {
    RootAbove(k.square(d), d);
    SoftLightEven(d, k.square(d), s);
    SoftLightEven(d, k.square(d), 0.0);
  }

  lemma SoftLightEven(d: real, root: real, s: real)
    ensures d - (1.0 - 2.0 * s) * d * (1.0 - d) == Mixed(d * d, d, 2.0 * s)
    ensures d + (2.0 * s - 1.0) * (root - d) == Mixed(d, root, 2.0 * s - 1.0)
  {
    var t := 1.0 - 2.0 * s;
    assert t * d * (1.0 - d) == t * d - t * (d * d);
    assert d * (1.0 - t) == d - t * d;
    var u := 2.0 * s - 1.0;
    assert u * (root - d) == root * u - d * u;
  }

  // ----- Sums, quotients and differences -----

  /** Add is the sum until it saturates. */
  lemma AddLaws(k: Roots, d: real, s: real)
    requires InUnit(d) && InUnit(s)
    ensures d + s <= 1.0 ==> Blended(k, Add, d, s) == d + s
    ensures d + s >= 1.0 ==> Blended(k, Add, d, s) == 1.0
  {
  }

  /** ColorDodge is what multiplied by the source's complement gives the channel back, until it saturates. */
  lemma ColorDodgeLaws(k: Roots, d: real, s: real)
    requires InUnit(d) && InUnit(s)
    ensures s < 1.0 && d <= 1.0 - s ==> Blended(k, ColorDodge, d, s) * (1.0 - s) == d
    ensures s == 1.0 || d >= 1.0 - s ==> Blended(k, ColorDodge, d, s) == 1.0
    ensures Blended(k, ColorDodge, d, 0.0) == d
  {
    if s < 1.0 { DodgeQuotient(d, 1.0 - s); }
  }

  lemma DodgeQuotient(d: real, w: real)
    requires d >= 0.0 && w > 0.0
    ensures d / w * w == d
    ensures d / w <= 1.0 <==> d <= w
    ensures d / w >= 1.0 <==> d >= w
  {
    var q := d / w;
    assert q * w == d;
    if q > 1.0 { assert (q - 1.0) * w > 0.0; }
    if q < 1.0 { assert (1.0 - q) * w > 0.0; }
  }

  /** Difference is how far the larger channel is above the smaller: symmetric, and black exactly on equal channels. */
  lemma DifferenceLaws(k: Roots, d: real, s: real)
    requires InUnit(d) && InUnit(s)
    ensures Min(d, s) + Blended(k, Difference, d, s) == Max(d, s)
    ensures Blended(k, Difference, d, s) == Blended(k, Difference, s, d)
    ensures Blended(k, Difference, d, s) == 0.0 <==> d == s
    ensures Blended(k, Difference, d, 0.0) == d
  {
  }

  // ----- Coverage -----

  /** Painting one channel twice is painting it once with the union of the two coverages. */
  lemma TwiceIsUnion(d: real, paint: real, w: real, v: real)
    requires InUnit(w) && InUnit(v)
    ensures Mixed(Mixed(d, paint, w), paint, v) == Mixed(d, paint, Union(w, v))
    ensures Mixed(d, paint, 0.0) == d && Mixed(d, paint, 1.0) == paint
  {
    UnionCovers(w, v);
    Complement(w, v);
    var (a, b) := (1.0 - w, 1.0 - v);
    assert (d * a + paint * w) * b == d * (a * b) + paint * (w * b);
    assert w * b + v == w + v - w * v;
    assert paint * (w * b) + paint * v == paint * (w * b + v);
  }

  lemma Complement(w: real, v: real)
    ensures (1.0 - w) * (1.0 - v) == 1.0 - (w + v - w * v)
  {
  }

  // ----- Bytes -----

  lemma Ends(k: Roots)
    requires Exact(k)
    ensures DecodeByte(k, 0) == 0.0 && DecodeByte(k, 255) == 1.0
    ensures EncodeChannel(k, 0.0) == 0 && EncodeChannel(k, 1.0) == 255
  {
    ByteInverse(k, 255);
    assert Unit(255) == 1.0 && Unit(0) == 0.0;
    OneFromOne(k.fifth(1.0));
    ByteRoundTrip(k, 0);
    ByteRoundTrip(k, 255);
  }

  lemma OneFromOne(x: real)
    requires x >= 0.0 && Pow(x, 5) == 1.0
    ensures Pow(x, 12) == 1.0
  {
    assert Pow(1.0, 5) == 1.0 && Pow(1.0, 12) == 1.0;
    PowOrder(x, 1.0, 5);
  }

  /** What a mode's channel does at full weight against white, black and itself, for every byte. */
  predicate ChannelLaw(k: Roots, b: byte) {
    && PairEntry(k, Normal, 0, b) == b && PairEntry(k, Normal, 255, b) == b
    && PairEntry(k, Add, b, 0) == b && PairEntry(k, Add, b, 255) == 255
    && PairEntry(k, Screen, b, 0) == b && PairEntry(k, Screen, b, 255) == 255
    && PairEntry(k, Multiply, b, 0) == 0 && PairEntry(k, Multiply, b, 255) == b
    && PairEntry(k, Overlay, 0, b) == 0 && PairEntry(k, Overlay, 255, b) == 255
    && PairEntry(k, SoftLight, 0, b) == 0 && PairEntry(k, SoftLight, 255, b) == 255
    && PairEntry(k, ColorDodge, b, 0) == b && PairEntry(k, ColorDodge, b, 255) == 255
    && PairEntry(k, Difference, b, 0) == b && PairEntry(k, Difference, b, b) == 0
  }

  lemma PairIs(k: Roots, mode: Mode, dst: byte, src: byte, r: byte)
    requires Exact(k) && Blended(k, mode, DecodeByte(k, dst), DecodeByte(k, src)) == DecodeByte(k, r)
    ensures PairEntry(k, mode, dst, src) == r
  {
    EntryIs(k, mode, dst, src, Blended(k, mode, DecodeByte(k, dst), DecodeByte(k, src)));
    ByteRoundTrip(k, r);
  }

  lemma EntryIs(k: Roots, mode: Mode, dst: byte, src: byte, x: real)
    requires x == Blended(k, mode, DecodeByte(k, dst), DecodeByte(k, src))
    ensures PairEntry(k, mode, dst, src) == EncodeChannel(k, x)
  {
    SameValue(k, mode, DecodeByte(k, dst), DecodeByte(k, src), x);
  }

  lemma SameValue(k: Roots, mode: Mode, d: real, s: real, x: real)
    requires x == Blended(k, mode, d, s)
    ensures ByteBlended(k, mode, d, s) == x
  {
  }

  lemma EveryChannel(k: Roots, b: byte)
    requires Exact(k)
    ensures ChannelLaw(k, b)
  {
    Ends(k);
    ByteInverse(k, b);
    AgainstEnds(k, DecodeByte(k, b));
    PairIs(k, Normal, 0, b, b);
    PairIs(k, Normal, 255, b, b);
    PairIs(k, Add, b, 0, b);
    PairIs(k, Add, b, 255, 255);
    PairIs(k, Screen, b, 0, b);
    PairIs(k, Screen, b, 255, 255);
    PairIs(k, Multiply, b, 0, 0);
    PairIs(k, Multiply, b, 255, b);
    PairIs(k, Overlay, 0, b, 0);
    PairIs(k, Overlay, 255, b, 255);
    PairIs(k, SoftLight, 0, b, 0);
    PairIs(k, SoftLight, 255, b, 255);
    PairIs(k, ColorDodge, b, 0, b);
    PairIs(k, ColorDodge, b, 255, 255);
    PairIs(k, Difference, b, 0, b);
    PairIs(k, Difference, b, b, 0);
  }

  lemma AgainstEnds(k: Roots, x: real)
    requires Exact(k) && InUnit(x)
    ensures Blended(k, Add, x, 0.0) == x && Blended(k, Add, x, 1.0) == 1.0
    ensures Blended(k, Screen, x, 0.0) == x && Blended(k, Screen, x, 1.0) == 1.0
    ensures Blended(k, Multiply, x, 0.0) == 0.0 && Blended(k, Multiply, x, 1.0) == x
    ensures Blended(k, Overlay, 0.0, x) == 0.0 && Blended(k, Overlay, 1.0, x) == 1.0
    ensures Blended(k, SoftLight, 0.0, x) == 0.0 && Blended(k, SoftLight, 1.0, x) == 1.0
    ensures Blended(k, ColorDodge, x, 0.0) == x && Blended(k, ColorDodge, x, 1.0) == 1.0
    ensures Blended(k, Difference, x, 0.0) == x && Blended(k, Difference, x, x) == 0.0
  {
    RootAbove(k.square(1.0), 1.0);
    OnlyRootOfZero(k.square(0.0), 0.0);
  }

  lemma OnlyRootOfZero(root: real, square: real)
    requires root >= 0.0 && square == root * root && square == 0.0
    ensures root == 0.0
  {
    if root > 0.0 { AboveZero(root, root, square); }
  }

  lemma AboveZero(x: real, y: real, product: real)
    requires x > 0.0 && y > 0.0 && product == x * y
    ensures product > 0.0
  {
    Positive(x, y);
  }

  /** Three channels at full weight, between opaque pixels. */
  lemma OpaquePair(k: Roots, mode: Mode, dst: Pixel, src: Pixel)
    requires dst.a == 255 && src.a == 255
    ensures BlendPixel(SrgbCodec(k), dst, src, mode, 1.0)
         == Pixel(PairEntry(k, mode, dst.r, src.r), PairEntry(k, mode, dst.g, src.g),
                  PairEntry(k, mode, dst.b, src.b), 255)
  {
    OpaquePixel(SrgbCodec(k), dst, src, mode, 1.0);
    PairIsReference(k, mode, dst.r, src.r);
    PairIsReference(k, mode, dst.g, src.g);
    PairIsReference(k, mode, dst.b, src.b);
  }

  const BLACK := Pixel(0, 0, 0, 255)
  const WHITE := Pixel(255, 255, 255, 255)

  /**
   Opaque black and white layers over any opaque pixel, through decoding, mixing and both
   encoding tables: the modes in which they leave it alone, and the modes in which they win.
   */
  lemma BlackAndWhite(k: Roots, p: Pixel)
    requires Exact(k) && p.a == 255
    ensures forall mode | mode in {Add, Screen, ColorDodge, Difference} ::
              BlendPixel(SrgbCodec(k), p, BLACK, mode, 1.0) == p
    ensures BlendPixel(SrgbCodec(k), p, WHITE, Multiply, 1.0) == p
    ensures forall mode | mode in {Normal, Add, Screen, ColorDodge} ::
              BlendPixel(SrgbCodec(k), p, WHITE, mode, 1.0) == WHITE
    ensures BlendPixel(SrgbCodec(k), p, BLACK, Multiply, 1.0) == BLACK
    ensures BlendPixel(SrgbCodec(k), p, p, Difference, 1.0) == BLACK
    ensures forall mode | mode in {Overlay, SoftLight} ::
              && BlendPixel(SrgbCodec(k), BLACK, p, mode, 1.0) == BLACK
              && BlendPixel(SrgbCodec(k), WHITE, p, mode, 1.0) == WHITE
    ensures BlendPixel(SrgbCodec(k), BLACK, p, Normal, 1.0) == p
  {
    EveryChannel(k, p.r);
    EveryChannel(k, p.g);
    EveryChannel(k, p.b);
    EveryChannel(k, 255);
    forall dst: Pixel, src: Pixel, mode | dst.a == 255 && src.a == 255
      ensures BlendPixel(SrgbCodec(k), dst, src, mode, 1.0)
           == Pixel(PairEntry(k, mode, dst.r, src.r), PairEntry(k, mode, dst.g, src.g),
                    PairEntry(k, mode, dst.b, src.b), 255)
    {
      OpaquePair(k, mode, dst, src);
    }
  }
}
