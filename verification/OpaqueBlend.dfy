/** The loop for layers taken to be opaque: where it agrees with the compositor, and where it does not. */
module OpaqueBlend {
  import opened Common
  import opened Powers
  import opened Transfer
  import opened BlendKernel
  import opened Compositor
  import opened CompositorBuffers
  import opened InPlaceBlend

  function Opaque(p: Pixel): Pixel { Pixel(p.r, p.g, p.b, 255) }

  /** What the reference would make of the colours of two opaque pixels, under the target's own alpha. */
  function OpaqueFade(c: Codec, dst: Pixel, src: Pixel, opacity: real): Pixel {
    var blended := BlendPixel(c, Opaque(dst), Opaque(src), Normal, opacity);
    Pixel(blended.r, blended.g, blended.b, dst.a)
  }

  ghost predicate FadedUpTo(c: Codec, before: seq<byte>, source: seq<byte>, opacity: real, n: nat, now: seq<byte>)
    requires n <= CommonPixels(|before|, |source|)
  {
    && |now| == |before|
    && (forall p: nat :: p < n ==> PixelAt(now, p) == OpaqueFade(c, PixelAt(before, p), PixelAt(source, p), opacity))
    && (forall i :: 4 * n <= i < |before| ==> now[i] == before[i])
  }

  /** Every complete common pixel of both buffers is opaque. */
  predicate AllOpaque(before: seq<byte>, source: seq<byte>) {
    forall p: nat :: p < CommonPixels(|before|, |source|) ==>
      PixelAt(before, p).a == 255 && PixelAt(source, p).a == 255
  }

  lemma FadeExtends(c: Codec, before: seq<byte>, source: seq<byte>, opacity: real, n: nat,
                    now: seq<byte>, next: seq<byte>)
    requires n < CommonPixels(|before|, |source|) && FadedUpTo(c, before, source, opacity, n, now)
    requires |next| == |now| && PixelAt(next, n) == OpaqueFade(c, PixelAt(before, n), PixelAt(source, n), opacity)
    requires forall i :: 0 <= i < |now| && (i < 4 * n || 4 * n + 4 <= i) ==> next[i] == now[i]
    ensures FadedUpTo(c, before, source, opacity, n + 1, next)
  {
    forall p: nat | p < n + 1
      ensures PixelAt(next, p) == OpaqueFade(c, PixelAt(before, p), PixelAt(source, p), opacity)
    {
      if p < n { assert PixelAt(next, p) == PixelAt(now, p); }
    }
  }

  /** On opaque buffers the loop is the compositor's Normal mode. */
  lemma OpaqueIsBlended(c: Codec, before: seq<byte>, source: seq<byte>, opacity: real, now: seq<byte>)
    requires AllOpaque(before, source) && 0.0 < opacity < 1.0
    requires FadedUpTo(c, before, source, opacity, CommonPixels(|before|, |source|), now)
    ensures IsBlended(c, before, source, Normal, opacity, now)
  {
    forall p: nat | p < CommonPixels(|before|, |source|)
      ensures PixelAt(now, p) == BlendPixel(c, PixelAt(before, p), PixelAt(source, p), Normal, opacity)
    {
      OpaqueFadeIsBlend(c, PixelAt(before, p), PixelAt(source, p), opacity);
    }
  }

  lemma OpaqueFadeIsBlend(c: Codec, dst: Pixel, src: Pixel, opacity: real)
    requires dst.a == 255 && src.a == 255 && 0.0 < opacity < 1.0
    ensures OpaqueFade(c, dst, src, opacity) == BlendPixel(c, dst, src, Normal, opacity)
  {
    OpaquePixel(c, dst, src, Normal, opacity);
    assert Opaque(dst) == dst && Opaque(src) == src;
  }

  /** At a partial opacity the compositor leaves the target's alpha exactly when what it adds rounds to nothing. */
  lemma AlphaKept(alpha: byte, opacity: real)
    requires 0.0 < opacity < 1.0
    ensures EncodeAlpha(CompositeAlpha(alpha, opacity)) == alpha <==> (255.0 - alpha as real) * opacity < 0.5
  {
    var gain := (255.0 - alpha as real) * opacity;
    UnionCovers(Unit(alpha), opacity);
    AlphaGain(alpha, opacity);
    assert gain >= 0.0 by { NonNegative(255.0 - alpha as real, opacity); }
    assert EncodeAlpha(CompositeAlpha(alpha, opacity)) as int == Round(alpha as real + gain);
  }

  lemma AlphaGain(alpha: byte, opacity: real)
    ensures (Unit(alpha) + opacity - Unit(alpha) * opacity) * 255.0
         == alpha as real + (255.0 - alpha as real) * opacity
  {
    assert Unit(alpha) * opacity * 255.0 == alpha as real * opacity;
  }

  /**
   For an opaque source pixel the loop agrees with the compositor, whatever the target's alpha,
   if and only if the compositor's gain in alpha rounds to nothing.
   */
  lemma FadeAgrees(c: Codec, dst: Pixel, src: Pixel, opacity: real)
    requires src.a == 255 && 0.0 < opacity < 1.0
    ensures OpaqueFade(c, dst, src, opacity) == BlendPixel(c, dst, src, Normal, opacity)
       <==> (255.0 - dst.a as real) * opacity < 0.5
  {
    OpaquePixel(c, Opaque(dst), src, Normal, opacity);
    OpaqueWeight(opacity);
    assert Opaque(src) == src;
    AlphaKept(dst.a, opacity);
  }

  method FadePixel(tables: Tables, dst: Pixel, src: Pixel, opacity: real) returns (r: Pixel)
    requires tables.Valid() && 0.0 < opacity < 1.0
    ensures r == OpaqueFade(SrgbCodec(tables.roots), dst, src, opacity)
  {
    OpaquePixel(SrgbCodec(tables.roots), Opaque(dst), Opaque(src), Normal, opacity);
    var red := LerpChannel(tables, opacity, dst.r, src.r);
    var green := LerpChannel(tables, opacity, dst.g, src.g);
    var blue := LerpChannel(tables, opacity, dst.b, src.b);
    r := Pixel(red, green, blue, dst.a);
  }

  method FadeOpaque(tables: Tables, target: array<byte>, source: array<byte>, opacity: real)
    requires tables.Valid() && Apart(tables, target, source) && 0.0 < opacity < 1.0
    modifies target
    ensures FadedUpTo(SrgbCodec(tables.roots), old(target[..]), source[..], opacity,
                      CommonPixels(target.Length, source.Length), target[..])
  {
    var c := SrgbCodec(tables.roots);
    ghost var before := target[..];
    var len := if target.Length <= source.Length then target.Length else source.Length;
    var p := 0;
    while 4 * p + 3 < len
      invariant p <= CommonPixels(|before|, |source[..]|) && tables.Valid()
      invariant FadedUpTo(c, before, source[..], opacity, p, target[..])
    {
      ghost var now := target[..];
      assert PixelAt(now, p) == PixelAt(before, p);
      var pixel := FadePixel(tables, PixelIn(target, p), PixelIn(source, p), opacity);
      StorePixel(target, p, pixel);
      FadeExtends(c, before, source[..], opacity, p, now, target[..]);
      p := p + 1;
    }
  }

  /**
   `blend_opaque_normal_rgba_pixels_in_place`: for opaque buffers and any opacity exactly what
   the compositor's Normal mode leaves. At a partial opacity it looks at no alpha at all.
   */
  method BlendOpaqueNormal(tables: Tables, target: array<byte>, source: array<byte>, opacity: real)
    requires tables.Valid() && Exact(tables.roots) && Apart(tables, target, source)
    modifies target
    ensures AllOpaque(old(target[..]), source[..]) || !(0.0 < opacity < 1.0) ==>
              IsBlended(SrgbCodec(tables.roots), old(target[..]), source[..], Normal, opacity, target[..])
    ensures 0.0 < opacity < 1.0 ==>
              FadedUpTo(SrgbCodec(tables.roots), old(target[..]), source[..], opacity,
                        CommonPixels(target.Length, source.Length), target[..])
  {
    var clamped := ClampUnit(opacity);
    if clamped <= 0.0 {
      TransparentBlend(SrgbCodec(tables.roots), target[..], source[..], Normal, opacity);
    } else if clamped >= 1.0 {
      BlendInPlace(tables, target, source, Normal, 1.0);
      ClampedIsBlended(SrgbCodec(tables.roots), old(target[..]), source[..], Normal, opacity, target[..]);
    } else {
      FadeOpaque(tables, target, source, clamped);
      if AllOpaque(old(target[..]), source[..]) {
        OpaqueIsBlended(SrgbCodec(tables.roots), old(target[..]), source[..], opacity, target[..]);
      }
    }
  }

  /** Encoding anything from the middle of the range on gives a visible byte. */
  lemma EncodesVisibly(k: Roots, x: real)
    requires Exact(k) && 0.4 <= x <= 1.0
    ensures EncodeChannel(k, x) > 0
  {
    var snapped := Snap(Snap(x, FINE), COARSE);
    SnapStaysUnit(x, FINE);
    assert snapped >= 0.3;
    PowerAbove(k, snapped);
  }

  /** A transparent source pixel shows: the loop for opaque layers paints what the compositor leaves out. */
  lemma TransparentIsPainted(k: Roots)
    requires Exact(k)
    ensures
      var c, dst, src := SrgbCodec(k), Pixel(0, 0, 0, 255), Pixel(255, 255, 255, 0);
      OpaqueFade(c, dst, src, 0.5) != BlendPixel(c, dst, src, Normal, 0.5)
  {
    var c, dst, src := SrgbCodec(k), Pixel(0, 0, 0, 255), Pixel(255, 255, 255, 0);
    OpaquePixel(c, Opaque(dst), Opaque(src), Normal, 0.5);
    NormalChannel(c, 0.5, 0, 255);
    ByteInverse(k, 0);
    WhiteIsOne(k);
    EncodesVisibly(k, Mixed(c.decode(0), c.decode(255), 0.5));
    assert BlendPixel(c, dst, src, Normal, 0.5) == dst;
  }

  lemma WhiteIsOne(k: Roots)
    requires Exact(k)
    ensures DecodeByte(k, 255) == 1.0
  {
    assert Unit(255) == 1.0 && (1.0 + 0.055) / 1.055 == 1.0;
    assert Pow(1.0, 5) == 1.0 && Pow(1.0, 12) == 1.0;
    PowOrder(k.fifth(1.0), 1.0, 5);
  }
}
