/**
 Blending whole buffers in place: the copy, lerp and lookup-table shortcuts
 leave exactly the bytes the per-pixel reference computes.
 */
module CompositorBuffers {
  import opened Common
  import opened Transfer
  import opened BlendKernel
  import opened Compositor

  // ----- What each shortcut may assume -----

  lemma ReferenceClamps(c: Codec, dst: Pixel, src: Pixel, mode: Mode, opacity: real)
    ensures BlendPixel(c, dst, src, mode, ClampUnit(opacity)) == BlendPixel(c, dst, src, mode, opacity)
  {
  }

  lemma OpaqueWeight(opacity: real)
    requires 0.0 < opacity <= 1.0
    ensures AlphaWeight(255, ClampUnit(opacity)) == opacity
  {
  }

  /** Two opaque pixels: the reference is one channel formula and full alpha. */
  lemma OpaquePixel(c: Codec, dst: Pixel, src: Pixel, mode: Mode, opacity: real)
    requires dst.a == 255 && src.a == 255 && 0.0 < opacity <= 1.0
    ensures BlendPixel(c, dst, src, mode, opacity) ==
            Pixel(
              BlendChannel(c, ByteBlender(c.roots, mode), opacity, dst.r, src.r),
              BlendChannel(c, ByteBlender(c.roots, mode), opacity, dst.g, src.g),
              BlendChannel(c, ByteBlender(c.roots, mode), opacity, dst.b, src.b),
              255)
  {
    OpaqueWeight(opacity);
  }

  lemma NormalChannel(c: Codec, opacity: real, dst: byte, src: byte)
    ensures BlendChannel(c, ByteBlender(c.roots, Normal), opacity, dst, src) ==
            c.encode(Mixed(c.decode(dst), c.decode(src), opacity))
  {
    assert ByteBlender(c.roots, Normal)(c.decode(dst), c.decode(src)) == c.decode(src);
  }

  /** The copy shortcut is sound because the codec returns every byte. */
  lemma OpaqueCopy(c: Codec, dst: Pixel, src: Pixel)
    requires Faithful(c) && dst.a == 255 && src.a == 255
    ensures BlendPixel(c, dst, src, Normal, 1.0) == src
  {
    OpaquePixel(c, dst, src, Normal, 1.0);
    FullChannel(c, dst.r, src.r);
    FullChannel(c, dst.g, src.g);
    FullChannel(c, dst.b, src.b);
  }

  lemma FullChannel(c: Codec, dst: byte, src: byte)
    requires Faithful(c)
    ensures BlendChannel(c, ByteBlender(c.roots, Normal), 1.0, dst, src) == src
  {
    NormalChannel(c, 1.0, dst, src);
    assert Mixed(c.decode(dst), c.decode(src), 1.0) == c.decode(src);
  }

  lemma FullMode(c: Codec, mode: Mode, dst: byte, src: byte)
    ensures BlendChannel(c, ByteBlender(c.roots, mode), 1.0, dst, src) ==
            c.encode(ByteBlended(c.roots, mode, c.decode(dst), c.decode(src)))
  {
    var blended := ByteBlender(c.roots, mode)(c.decode(dst), c.decode(src));
    assert Mixed(c.decode(dst), blended, 1.0) == blended;
  }

  // ----- Buffers -----

  function PixelAt(s: seq<byte>, p: nat): Pixel
    requires 4 * p + 3 < |s|
  {
    Pixel(s[4 * p], s[4 * p + 1], s[4 * p + 2], s[4 * p + 3])
  }

  /** The complete pixels both buffers have. */
  function CommonPixels(target: nat, source: nat): nat {
    if target <= source then target / 4 else source / 4
  }

  /** `now` is `before` with the common pixels blended and every other byte untouched. */
  ghost predicate IsBlended(c: Codec, before: seq<byte>, source: seq<byte>, mode: Mode, opacity: real, now: seq<byte>) {
    BlendedUpTo(c, before, source, mode, opacity, CommonPixels(|before|, |source|), now)
  }

  ghost predicate BlendedUpTo(c: Codec, before: seq<byte>, source: seq<byte>, mode: Mode, opacity: real,
                              n: nat, now: seq<byte>)
    requires n <= CommonPixels(|before|, |source|)
  {
    && |now| == |before|
    && (forall p: nat :: p < n ==>
          PixelAt(now, p) == BlendPixel(c, PixelAt(before, p), PixelAt(source, p), mode, opacity))
    && (forall i :: 4 * n <= i < |before| ==> now[i] == before[i])
  }

  /** The specification leaves no freedom. */
  lemma BlendedIsUnique(c: Codec, before: seq<byte>, source: seq<byte>, mode: Mode, opacity: real,
                        a: seq<byte>, b: seq<byte>)
    requires IsBlended(c, before, source, mode, opacity, a)
    requires IsBlended(c, before, source, mode, opacity, b)
    ensures a == b
  {
    forall i | 0 <= i < |a| ensures a[i] == b[i] {
      var p := i / 4;
      if p < CommonPixels(|before|, |source|) {
        assert PixelAt(a, p) == PixelAt(b, p);
        assert i == 4 * p || i == 4 * p + 1 || i == 4 * p + 2 || i == 4 * p + 3;
      }
    }
  }

  method StorePixel(target: array<byte>, p: nat, pixel: Pixel)
    requires 4 * p + 3 < target.Length
    modifies target
    ensures PixelAt(target[..], p) == pixel
    ensures forall i :: 0 <= i < target.Length && (i < 4 * p || 4 * p + 4 <= i) ==> target[i] == old(target[i])
  {
    target[4 * p] := pixel.r;
    target[4 * p + 1] := pixel.g;
    target[4 * p + 2] := pixel.b;
    target[4 * p + 3] := pixel.a;
  }

  /** Storing the blended pixel `n` extends the blended prefix. */
  lemma Extend(c: Codec, before: seq<byte>, source: seq<byte>, mode: Mode, opacity: real, n: nat,
               now: seq<byte>, next: seq<byte>)
    requires n < CommonPixels(|before|, |source|)
    requires BlendedUpTo(c, before, source, mode, opacity, n, now)
    requires |next| == |now|
    requires PixelAt(next, n) == BlendPixel(c, PixelAt(before, n), PixelAt(source, n), mode, opacity)
    requires forall i :: 0 <= i < |now| && (i < 4 * n || 4 * n + 4 <= i) ==> next[i] == now[i]
    ensures BlendedUpTo(c, before, source, mode, opacity, n + 1, next)
  {
    forall p: nat | p < n + 1
      ensures PixelAt(next, p) == BlendPixel(c, PixelAt(before, p), PixelAt(source, p), mode, opacity)
    {
      if p < n {
        assert PixelAt(next, p) == PixelAt(now, p);
      }
    }
  }

  lemma StillBefore(c: Codec, before: seq<byte>, source: seq<byte>, mode: Mode, opacity: real, n: nat, now: seq<byte>)
    requires n < CommonPixels(|before|, |source|)
    requires BlendedUpTo(c, before, source, mode, opacity, n, now)
    ensures PixelAt(now, n) == PixelAt(before, n)
  {
  }

  // ----- The lookup tables -----

  /** One entry of a channel-pair table. */
  function PairEntry(k: Roots, mode: Mode, dst: byte, src: byte): byte {
    var c := SrgbCodec(k);
    c.encode(ByteBlended(k, mode, c.decode(dst), c.decode(src)))
  }

  lemma PairIsReference(k: Roots, mode: Mode, dst: byte, src: byte)
    ensures PairEntry(k, mode, dst, src) == BlendChannel(SrgbCodec(k), ByteBlender(k, mode), 1.0, dst, src)
  {
    FullMode(SrgbCodec(k), mode, dst, src);
  }

  /** The 65536-entry linear to byte table, filled through the coarse one. */
  method FineTable(k: Roots, coarse: array<byte>) returns (table: array<byte>)
    requires coarse.Length == 4096
    requires forall i :: 0 <= i < 4096 ==> coarse[i] == UnitToByte(LinearToSrgb(k, i as real / COARSE))
    ensures fresh(table) && table.Length == 65536
    ensures forall i :: 0 <= i < 65536 ==> table[i] == LinearToByte(k, i as real / FINE)
  {
    table := new byte[65536];
    for index := 0 to 65536
      invariant forall i :: 0 <= i < index ==> table[i] == LinearToByte(k, i as real / FINE)
    {
      var step := Round(ClampUnit(index as real / FINE) * COARSE);
      table[index] := coarse[step];
    }
  }

  /** The entry at a packed index: destination in the high byte, source in the low one. */
  function PairAt(k: Roots, mode: Mode, index: nat): byte
    requires index < 65536
  {
    PairEntry(k, mode, (index / 256) as byte, (index % 256) as byte)
  }

  method PairValue(k: Roots, mode: Mode, decode: array<real>, fine: array<byte>, dst: byte, src: byte) returns (r: byte)
    requires decode.Length == 256 && fine.Length == 65536
    requires forall b: byte :: decode[b as int] == DecodeByte(k, b)
    requires forall i :: 0 <= i < 65536 ==> fine[i] == LinearToByte(k, i as real / FINE)
    ensures r == PairEntry(k, mode, dst, src)
  {
    var blended := ByteBlended(k, mode, decode[dst as int], decode[src as int]);
    r := fine[Round(ClampUnit(blended) * FINE)];
  }

  method PairTable(k: Roots, mode: Mode, decode: array<real>, fine: array<byte>) returns (table: array<byte>)
    requires decode.Length == 256 && fine.Length == 65536
    requires forall b: byte :: decode[b as int] == DecodeByte(k, b)
    requires forall i :: 0 <= i < 65536 ==> fine[i] == LinearToByte(k, i as real / FINE)
    ensures fresh(table) && table.Length == 65536
    ensures forall i :: 0 <= i < 65536 ==> table[i] == PairAt(k, mode, i)
  {
    table := new byte[65536];
    for index := 0 to 65536
      invariant forall i :: 0 <= i < index ==> table[i] == PairAt(k, mode, i)
    {
      table[index] := PairValue(k, mode, decode, fine, (index / 256) as byte, (index % 256) as byte);
    }
  }

  class Tables {
    const roots: Roots
    const decode: array<real>
    const fine: array<byte>
    const screen: array<byte>
    const difference: array<byte>

    constructor (k: Roots)
      ensures roots == k && Valid()
      ensures fresh(decode) && fresh(fine) && fresh(screen) && fresh(difference)
    {
      var d := DecodeTable(k);
      var coarse := EncodeTable(k);
      var f := FineTable(k, coarse);
      var s := PairTable(k, Screen, d, f);
      var diff := PairTable(k, Difference, d, f);
      roots, decode, fine, screen, difference := k, d, f, s, diff;
    }

    ghost predicate Valid()
      reads decode, fine, screen, difference
    {
      && decode.Length == 256 && fine.Length == 65536 && screen.Length == 65536 && difference.Length == 65536
      && (forall b: byte :: decode[b as int] == DecodeByte(roots, b))
      && (forall i :: 0 <= i < 65536 ==> fine[i] == LinearToByte(roots, i as real / FINE))
      && (forall i :: 0 <= i < 65536 ==> screen[i] == PairAt(roots, Screen, i))
      && (forall i :: 0 <= i < 65536 ==> difference[i] == PairAt(roots, Difference, i))
    }

    /** `decode_srgb_channel`. */
    function Decode(b: byte): real
      requires Valid()
      reads decode, fine, screen, difference
      ensures Decode(b) == SrgbCodec(roots).decode(b)
    {
      decode[b as int]
    }

    /** `encode_srgb_channel`. */
    function Encode(x: real): byte
      requires Valid()
      reads decode, fine, screen, difference
      ensures Encode(x) == SrgbCodec(roots).encode(x)
    {
      fine[Round(ClampUnit(x) * FINE)]
    }

    /** `screen_blend_channel` or `difference_blend_channel`: what the reference gives at full opacity. */
    method PairChannel(mode: Mode, dst: byte, src: byte) returns (r: byte)
      requires Valid() && (mode.Screen? || mode.Difference?)
      ensures r == BlendChannel(SrgbCodec(roots), ByteBlender(roots, mode), 1.0, dst, src)
    {
      var index := dst as int * 256 + src as int;
      assert index / 256 == dst as int && index % 256 == src as int;
      r := if mode.Screen? then screen[index] else difference[index];
      PairIsReference(roots, mode, dst, src);
    }

    /** `blend_rgba_pixel` with its table lookups. */
    method Reference(dst: Pixel, src: Pixel, mode: Mode, opacity: real) returns (r: Pixel)
      requires Valid()
      ensures r == BlendPixel(SrgbCodec(roots), dst, src, mode, opacity)
    {
      if src.a == 0 || opacity <= 0.0 {
        return dst;
      }
      var weight := AlphaWeight(src.a, ClampUnit(opacity));
      if weight <= 0.0 {
        return dst;
      }
      var red := ReferenceChannel(mode, weight, dst.r, src.r);
      var green := ReferenceChannel(mode, weight, dst.g, src.g);
      var blue := ReferenceChannel(mode, weight, dst.b, src.b);
      var alpha := if src.a == 255 && dst.a == 255 then 255 else EncodeAlpha(CompositeAlpha(dst.a, weight));
      return Pixel(red, green, blue, alpha);
    }

    method ReferenceChannel(mode: Mode, weight: real, dst: byte, src: byte) returns (r: byte)
      requires Valid()
      ensures r == BlendChannel(SrgbCodec(roots), ByteBlender(roots, mode), weight, dst, src)
    {
      var d, s := Decode(dst), Decode(src);
      assert ByteBlender(roots, mode)(d, s) == ByteBlended(roots, mode, d, s);
      r := Encode(Mixed(d, ByteBlended(roots, mode, d, s), weight));
    }
  }
}
