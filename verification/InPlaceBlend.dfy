/** The buffer loops of the compositor, each proved to leave what the reference leaves. */
module InPlaceBlend {
  import opened Common
  import opened Transfer
  import opened BlendKernel
  import opened Compositor
  import opened CompositorBuffers

  /** The target buffer is none of the tables and not the source. */
  predicate Apart(tables: Tables, target: array<byte>, source: array<byte>) {
    target != source && target != tables.fine && target != tables.screen && target != tables.difference
  }

  function PixelIn(a: array<byte>, p: nat): Pixel
    requires 4 * p + 3 < a.Length
    reads a
  {
    Pixel(a[4 * p], a[4 * p + 1], a[4 * p + 2], a[4 * p + 3])
  }

  /** Skip, copy, or fall back: the full-opacity Normal loop's pixel. */
  method NormalFullPixel(tables: Tables, dst: Pixel, src: Pixel) returns (r: Pixel)
    requires tables.Valid() && Exact(tables.roots)
    ensures r == BlendPixel(SrgbCodec(tables.roots), dst, src, Normal, 1.0)
  {
    if src.a == 0 {
      return dst;
    }
    if src.a == 255 && dst.a == 255 {
      SrgbIsFaithful(tables.roots);
      OpaqueCopy(SrgbCodec(tables.roots), dst, src);
      return src;
    }
    r := tables.Reference(dst, src, Normal, 1.0);
  }

  /** Skip, lerp three channels, or fall back: the faded Normal loop's pixel. */
  method NormalFadedPixel(tables: Tables, dst: Pixel, src: Pixel, opacity: real) returns (r: Pixel)
    requires tables.Valid() && 0.0 < opacity < 1.0
    ensures r == BlendPixel(SrgbCodec(tables.roots), dst, src, Normal, opacity)
  {
    if src.a == 0 {
      return dst;
    }
    if src.a == 255 && dst.a == 255 {
      var c := SrgbCodec(tables.roots);
      OpaquePixel(c, dst, src, Normal, opacity);
      var red := LerpChannel(tables, opacity, dst.r, src.r);
      var green := LerpChannel(tables, opacity, dst.g, src.g);
      var blue := LerpChannel(tables, opacity, dst.b, src.b);
      return Pixel(red, green, blue, dst.a);
    }
    r := tables.Reference(dst, src, Normal, opacity);
  }

  method LerpChannel(tables: Tables, opacity: real, dst: byte, src: byte) returns (r: byte)
    requires tables.Valid()
    ensures r == BlendChannel(SrgbCodec(tables.roots), ByteBlender(tables.roots, Normal), opacity, dst, src)
  {
    NormalChannel(SrgbCodec(tables.roots), opacity, dst, src);
    r := tables.Encode(Mixed(tables.Decode(dst), tables.Decode(src), opacity));
  }

  /** Skip, look three channels up, or fall back: the Screen and Difference loops' pixel. */
  method PairPixel(tables: Tables, mode: Mode, dst: Pixel, src: Pixel) returns (r: Pixel)
    requires tables.Valid() && (mode.Screen? || mode.Difference?)
    ensures r == BlendPixel(SrgbCodec(tables.roots), dst, src, mode, 1.0)
  {
    if src.a == 0 {
      return dst;
    }
    if src.a == 255 && dst.a == 255 {
      OpaquePixel(SrgbCodec(tables.roots), dst, src, mode, 1.0);
      var red := tables.PairChannel(mode, dst.r, src.r);
      var green := tables.PairChannel(mode, dst.g, src.g);
      var blue := tables.PairChannel(mode, dst.b, src.b);
      return Pixel(red, green, blue, dst.a);
    }
    r := tables.Reference(dst, src, mode, 1.0);
  }

  method BlendNormalFull(tables: Tables, target: array<byte>, source: array<byte>)
    requires tables.Valid() && Exact(tables.roots) && Apart(tables, target, source)
    modifies target
    ensures IsBlended(SrgbCodec(tables.roots), old(target[..]), source[..], Normal, 1.0, target[..])
  {
    var c := SrgbCodec(tables.roots);
    ghost var before := target[..];
    var len := if target.Length <= source.Length then target.Length else source.Length;
    var p := 0;
    while 4 * p + 3 < len
      invariant p <= CommonPixels(|before|, |source[..]|) && tables.Valid()
      invariant BlendedUpTo(c, before, source[..], Normal, 1.0, p, target[..])
    {
      ghost var now := target[..];
      StillBefore(c, before, source[..], Normal, 1.0, p, now);
      var pixel := NormalFullPixel(tables, PixelIn(target, p), PixelIn(source, p));
      StorePixel(target, p, pixel);
      Extend(c, before, source[..], Normal, 1.0, p, now, target[..]);
      p := p + 1;
    }
  }

  method BlendNormalFaded(tables: Tables, target: array<byte>, source: array<byte>, opacity: real)
    requires tables.Valid() && Apart(tables, target, source) && 0.0 < opacity < 1.0
    modifies target
    ensures IsBlended(SrgbCodec(tables.roots), old(target[..]), source[..], Normal, opacity, target[..])
  {
    var c := SrgbCodec(tables.roots);
    ghost var before := target[..];
    var len := if target.Length <= source.Length then target.Length else source.Length;
    var p := 0;
    while 4 * p + 3 < len
      invariant p <= CommonPixels(|before|, |source[..]|) && tables.Valid()
      invariant BlendedUpTo(c, before, source[..], Normal, opacity, p, target[..])
    {
      ghost var now := target[..];
      StillBefore(c, before, source[..], Normal, opacity, p, now);
      var pixel := NormalFadedPixel(tables, PixelIn(target, p), PixelIn(source, p), opacity);
      StorePixel(target, p, pixel);
      Extend(c, before, source[..], Normal, opacity, p, now, target[..]);
      p := p + 1;
    }
  }

  method BlendByPairTable(tables: Tables, target: array<byte>, source: array<byte>, mode: Mode)
    requires tables.Valid() && Apart(tables, target, source) && (mode.Screen? || mode.Difference?)
    modifies target
    ensures IsBlended(SrgbCodec(tables.roots), old(target[..]), source[..], mode, 1.0, target[..])
  {
    var c := SrgbCodec(tables.roots);
    ghost var before := target[..];
    var chunks := CommonPixels(target.Length, source.Length);
    for p := 0 to chunks
      invariant tables.Valid()
      invariant BlendedUpTo(c, before, source[..], mode, 1.0, p, target[..])
    {
      ghost var now := target[..];
      StillBefore(c, before, source[..], mode, 1.0, p, now);
      var pixel := PairPixel(tables, mode, PixelIn(target, p), PixelIn(source, p));
      StorePixel(target, p, pixel);
      Extend(c, before, source[..], mode, 1.0, p, now, target[..]);
    }
  }

  method BlendWithReference(tables: Tables, target: array<byte>, source: array<byte>, mode: Mode, opacity: real)
    requires tables.Valid() && Apart(tables, target, source)
    modifies target
    ensures IsBlended(SrgbCodec(tables.roots), old(target[..]), source[..], mode, opacity, target[..])
  {
    var c := SrgbCodec(tables.roots);
    ghost var before := target[..];
    var chunks := CommonPixels(target.Length, source.Length);
    for p := 0 to chunks
      invariant tables.Valid()
      invariant BlendedUpTo(c, before, source[..], mode, opacity, p, target[..])
    {
      ghost var now := target[..];
      StillBefore(c, before, source[..], mode, opacity, p, now);
      var pixel := tables.Reference(PixelIn(target, p), PixelIn(source, p), mode, opacity);
      StorePixel(target, p, pixel);
      Extend(c, before, source[..], mode, opacity, p, now, target[..]);
    }
  }

  /** Clamping the opacity first does not change the specification. */
  lemma ClampedIsBlended(c: Codec, before: seq<byte>, source: seq<byte>, mode: Mode, opacity: real, now: seq<byte>)
    requires IsBlended(c, before, source, mode, ClampUnit(opacity), now)
    ensures IsBlended(c, before, source, mode, opacity, now)
  {
    forall p: nat | p < CommonPixels(|before|, |source|)
      ensures PixelAt(now, p) == BlendPixel(c, PixelAt(before, p), PixelAt(source, p), mode, opacity)
    {
      ReferenceClamps(c, PixelAt(before, p), PixelAt(source, p), mode, opacity);
    }
  }

  lemma TransparentBlend(c: Codec, before: seq<byte>, source: seq<byte>, mode: Mode, opacity: real)
    requires opacity <= 0.0
    ensures IsBlended(c, before, source, mode, opacity, before)
  {
  }

  /** The four loops, for an opacity that is already clamped and not zero. */
  method BlendByMode(tables: Tables, target: array<byte>, source: array<byte>, mode: Mode, opacity: real)
    requires tables.Valid() && Exact(tables.roots) && Apart(tables, target, source) && 0.0 < opacity <= 1.0
    modifies target
    ensures IsBlended(SrgbCodec(tables.roots), old(target[..]), source[..], mode, opacity, target[..])
  {
    if mode.Normal? && opacity >= 1.0 {
      BlendNormalFull(tables, target, source);
    } else if mode.Normal? {
      BlendNormalFaded(tables, target, source, opacity);
    } else if (mode.Screen? || mode.Difference?) && opacity >= 1.0 {
      BlendByPairTable(tables, target, source, mode);
    } else {
      BlendWithReference(tables, target, source, mode, opacity);
    }
  }

  /**
   `blend_rgba_pixels_in_place`: for buffers of any lengths, any mode and any
   opacity, the reference mapped over the complete common pixels, and every
   trailing byte untouched.
   */
  method BlendInPlace(tables: Tables, target: array<byte>, source: array<byte>, mode: Mode, opacity: real)
    requires tables.Valid() && Exact(tables.roots) && Apart(tables, target, source)
    modifies target
    ensures IsBlended(SrgbCodec(tables.roots), old(target[..]), source[..], mode, opacity, target[..])
  {
    var clamped := ClampUnit(opacity);
    if clamped <= 0.0 {
      TransparentBlend(SrgbCodec(tables.roots), target[..], source[..], mode, opacity);
      return;
    }
    BlendByMode(tables, target, source, mode, clamped);
    ClampedIsBlended(SrgbCodec(tables.roots), old(target[..]), source[..], mode, opacity, target[..]);
  }
}
