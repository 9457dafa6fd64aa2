/**
 The byte compositor's per-pixel reference, and its agreement with the float
 kernel. The channel codec is a parameter; `SrgbCodec` is the real one.
 */
module Compositor {
  import opened Common
  import opened Transfer
  import opened BlendKernel

  datatype Pixel = Pixel(r: byte, g: byte, b: byte, a: byte)

  /** How channels are decoded to linear light and encoded back. */
  datatype Codec = Codec(roots: Roots, decode: byte -> real, encode: real -> byte)

  /** Encoding undoes decoding. */
  ghost predicate Faithful(c: Codec) {
    forall b: byte :: c.encode(c.decode(b)) == b
  }

  function SrgbCodec(k: Roots): Codec {
    Codec(k, b => DecodeByte(k, b), x => EncodeChannel(k, x))
  }

  lemma SrgbIsFaithful(k: Roots)
    requires Exact(k)
    ensures Faithful(SrgbCodec(k))
    ensures forall b: byte :: InUnit(SrgbCodec(k).decode(b))
  {
    var c := SrgbCodec(k);
    forall b: byte ensures c.encode(c.decode(b)) == b && InUnit(c.decode(b)) {
      ByteRoundTrip(k, b);
      ByteInverse(k, b);
    }
  }

  // ----- The per-pixel reference -----

  function AlphaWeight(alpha: byte, opacity: real): real {
    Unit(alpha) * opacity
  }

  function CompositeAlpha(target: byte, weight: real): real {
    Union(Unit(target), weight)
  }

  function EncodeAlpha(alpha: real): byte {
    Round(ClampUnit(alpha) * 255.0) as byte
  }

  /** `screen_blend`. */
  function ScreenBlend(dst: real, src: real): real {
    1.0 - (1.0 - dst) * (1.0 - src)
  }

  /** The compositor's own copy of the mode table. */
  function ByteBlended(k: Roots, mode: Mode, dst: real, src: real): real {
    match mode
    case Normal => src
    case Add => Min(dst + src, 1.0)
    case Screen => ScreenBlend(dst, src)
    case Multiply => dst * src
    case Overlay => if dst < 0.5 then 2.0 * dst * src else 1.0 - 2.0 * (1.0 - dst) * (1.0 - src)
    case SoftLight =>
      if src < 0.5 then dst - (1.0 - 2.0 * src) * dst * (1.0 - dst)
      else dst + (2.0 * src - 1.0) * (k.square(dst) - dst)
    case ColorDodge => if src >= 1.0 then 1.0 else Min(dst / (1.0 - src), 1.0)
    case Difference => Abs(dst - src)
  }

  function ByteBlender(k: Roots, mode: Mode): (real, real) -> real {
    (dst, src) => ByteBlended(k, mode, dst, src)
  }

  function BlendChannel(c: Codec, blend: (real, real) -> real, weight: real, dst: byte, src: byte): byte {
    var d, s := c.decode(dst), c.decode(src);
    c.encode(Mixed(d, blend(d, s), weight))
  }

  /** `blend_rgba_pixel`. */
  function BlendPixel(c: Codec, dst: Pixel, src: Pixel, mode: Mode, opacity: real): Pixel {
    BlendPixelWith(c, ByteBlender(c.roots, mode), dst, src, opacity)
  }

  /** Its body, with the channel formula a parameter. */
  function BlendPixelWith(c: Codec, blend: (real, real) -> real, dst: Pixel, src: Pixel, opacity: real): Pixel {
    if src.a == 0 || opacity <= 0.0 then dst else
    var weight := AlphaWeight(src.a, ClampUnit(opacity));
    if weight <= 0.0 then dst else
    Pixel(
      BlendChannel(c, blend, weight, dst.r, src.r),
      BlendChannel(c, blend, weight, dst.g, src.g),
      BlendChannel(c, blend, weight, dst.b, src.b),
      if src.a == 255 && dst.a == 255 then 255 else EncodeAlpha(CompositeAlpha(dst.a, weight)))
  }

  // ----- The reference is decode, float kernel, encode -----

  function Decoded(c: Codec, p: Pixel): LinearRgba {
    LinearRgba(c.decode(p.r), c.decode(p.g), c.decode(p.b), Unit(p.a))
  }

  function Encoded(c: Codec, p: LinearRgba): Pixel {
    Pixel(c.encode(p.r), c.encode(p.g), c.encode(p.b), EncodeAlpha(p.a))
  }

  lemma AlphaRoundTrip(a: byte)
    ensures EncodeAlpha(Unit(a)) == a
  {
    assert Unit(a) * 255.0 == a as real;
  }

  ghost predicate Agree(f: (real, real) -> real, g: (real, real) -> real) {
    forall d: real, s: real :: f(d, s) == g(d, s)
  }

  lemma SameTable(k: Roots, mode: Mode)
    ensures Agree(ByteBlender(k, mode), Blender(k, mode))
  {
    forall d: real, s: real ensures ByteBlended(k, mode, d, s) == Blended(k, mode, d, s) {}
  }

  lemma WeightlessChannel(c: Codec, blend: (real, real) -> real, dst: byte, src: byte)
    requires Faithful(c)
    ensures BlendChannel(c, blend, 0.0, dst, src) == dst
  {
    assert Mixed(c.decode(dst), blend(c.decode(dst), c.decode(src)), 0.0) == c.decode(dst);
  }

  lemma PositiveWeight(a: byte, opacity: real)
    requires a > 0 && 0.0 < opacity
    ensures AlphaWeight(a, opacity) > 0.0
  {
    assert Unit(a) > 0.0;
  }

  lemma UnionEnds(d: real)
    requires InUnit(d)
    ensures Union(d, 0.0) == d && Union(1.0, d) == 1.0
  {
  }

  /** The source pixel as the kernel sees it once its alpha is its final weight. */
  function Weighted(c: Codec, src: Pixel, weight: real): LinearRgba {
    LinearRgba(c.decode(src.r), c.decode(src.g), c.decode(src.b), weight)
  }

  lemma ComponentsAreKernel(c: Codec, f: (real, real) -> real, g: (real, real) -> real,
                            dst: Pixel, src: Pixel, weight: real)
    requires Agree(f, g)
    ensures Encoded(c, Composite(g, Weighted(c, src, weight), Decoded(c, dst))) ==
            Pixel(
              BlendChannel(c, f, weight, dst.r, src.r),
              BlendChannel(c, f, weight, dst.g, src.g),
              BlendChannel(c, f, weight, dst.b, src.b),
              EncodeAlpha(CompositeAlpha(dst.a, weight)))
  {
  }

  lemma PixelWithIsKernel(c: Codec, f: (real, real) -> real, g: (real, real) -> real,
                          dst: Pixel, src: Pixel, opacity: real)
    requires Faithful(c) && 0.0 < opacity <= 1.0 && Agree(f, g)
    ensures BlendPixelWith(c, f, dst, src, opacity) ==
            Encoded(c, Composite(g, Weighted(c, src, AlphaWeight(src.a, opacity)), Decoded(c, dst)))
  {
    ComponentsAreKernel(c, f, g, dst, src, AlphaWeight(src.a, opacity));
    if src.a == 0 {
      WeightlessChannel(c, f, dst.r, src.r);
      WeightlessChannel(c, f, dst.g, src.g);
      WeightlessChannel(c, f, dst.b, src.b);
      AlphaRoundTrip(dst.a);
      UnionEnds(Unit(dst.a));
    } else {
      PositiveWeight(src.a, opacity);
      if src.a == 255 && dst.a == 255 {
        AlphaRoundTrip(255);
        UnionEnds(opacity);
      }
    }
  }

  lemma PixelIsComposite(c: Codec, dst: Pixel, src: Pixel, mode: Mode, opacity: real)
    requires Faithful(c) && 0.0 < opacity <= 1.0
    ensures BlendPixel(c, dst, src, mode, opacity) ==
            Encoded(c, Composite(Blender(c.roots, mode), Weighted(c, src, AlphaWeight(src.a, opacity)),
                                 Decoded(c, dst)))
  {
    SameTable(c.roots, mode);
    PixelWithIsKernel(c, ByteBlender(c.roots, mode), Blender(c.roots, mode), dst, src, opacity);
  }

  /** For every mode, pixel pair and opacity, the bytes are those of the float kernel. */
  lemma PixelIsKernel(c: Codec, dst: Pixel, src: Pixel, mode: Mode, opacity: real)
    requires Faithful(c) && 0.0 < opacity <= 1.0
    ensures BlendPixel(c, dst, src, mode, opacity) ==
            Encoded(c, BlendOver(c.roots, Decoded(c, src), Decoded(c, dst), mode, opacity))
  {
    PixelIsComposite(c, dst, src, mode, opacity);
    assert Faded(Decoded(c, src), opacity) == Weighted(c, src, AlphaWeight(src.a, opacity));
  }
}
