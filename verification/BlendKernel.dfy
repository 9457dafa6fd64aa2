/** The float blend kernel: one expression per channel and mode, on exact reals. */
module BlendKernel {
  import opened Common
  import opened Transfer

  datatype Mode = Normal | Add | Screen | Multiply | Overlay | SoftLight | ColorDodge | Difference

  datatype LinearRgba = LinearRgba(r: real, g: real, b: real, a: real)

  predicate InUnit(x: real) { 0.0 <= x <= 1.0 }

  function Blended(k: Roots, mode: Mode, d: real, s: real): real {
    match mode
    case Normal => s
    case Add => Min(d + s, 1.0)
    case Screen => 1.0 - (1.0 - d) * (1.0 - s)
    case Multiply => d * s
    case Overlay => if d < 0.5 then 2.0 * d * s else 1.0 - 2.0 * (1.0 - d) * (1.0 - s)
    case SoftLight =>
      if s < 0.5 then d - (1.0 - 2.0 * s) * d * (1.0 - d)
      else d + (2.0 * s - 1.0) * (k.square(d) - d)
    case ColorDodge => if s >= 1.0 then 1.0 else Min(d / (1.0 - s), 1.0)
    case Difference => Abs(d - s)
  }

  function Blender(k: Roots, mode: Mode): (real, real) -> real {
    (d, s) => Blended(k, mode, d, s)
  }

  /** Mix a blended channel into the destination by the source's weight. */
  function Mixed(d: real, blended: real, weight: real): real {
    d * (1.0 - weight) + blended * weight
  }

  function BlendOver(k: Roots, src: LinearRgba, dst: LinearRgba, mode: Mode, opacity: real): LinearRgba {
    Composite(Blender(k, mode), Faded(src, opacity), dst)
  }

  /** Source alpha is modulated by opacity before compositing. */
  function Faded(src: LinearRgba, opacity: real): LinearRgba {
    LinearRgba(src.r, src.g, src.b, src.a * opacity)
  }

  /** The kernel once the mode is fixed and the source's alpha is its final weight. */
  function Composite(blend: (real, real) -> real, src: LinearRgba, dst: LinearRgba): LinearRgba {
    LinearRgba(
      Mixed(dst.r, blend(dst.r, src.r), src.a),
      Mixed(dst.g, blend(dst.g, src.g), src.a),
      Mixed(dst.b, blend(dst.b, src.b), src.a),
      Union(dst.a, src.a))
  }

  /** Source-over union of two coverages. */
  function Union(d: real, a: real): real {
    Min(d + a - d * a, 1.0)
  }

  lemma UnitProduct(x: real, y: real)
    requires InUnit(x) && InUnit(y)
    ensures InUnit(x * y) && x * y <= x && x * y <= y
  {
    NonNegative(x, y);
    NonNegative(x, 1.0 - y);
    NonNegative(1.0 - x, y);
  }

  lemma SquareAboveOne(x: real)
    requires x > 1.0
    ensures x * x > 1.0
  {
    assert (x - 1.0) * (x + 1.0) > 0.0;
  }

  lemma RootAbove(root: real, d: real)
    requires InUnit(d) && root >= 0.0 && root * root == d
    ensures d <= root <= 1.0
  {
    if root > 1.0 {
      SquareAboveOne(root);
      assert false;
    }
    UnitProduct(root, root);
  }

  lemma OverlayInUnit(d: real, s: real)
    requires InUnit(d) && InUnit(s)
    ensures InUnit(if d < 0.5 then 2.0 * d * s else 1.0 - 2.0 * (1.0 - d) * (1.0 - s))
  {
    if d < 0.5 {
      UnitProduct(2.0 * d, s);
    } else {
      UnitProduct(2.0 * (1.0 - d), 1.0 - s);
    }
  }

  lemma StepInUnit(d: real, step: real, weight: real)
    requires InUnit(d) && 0.0 <= step && d + step <= 1.0 && InUnit(weight)
    ensures InUnit(d + weight * step) && InUnit(d + step - weight * step)
  {
    UnitProduct(weight, step);
  }

  lemma SoftLightInUnit(d: real, s: real, root: real)
    requires InUnit(d) && InUnit(s) && root >= 0.0 && root * root == d
    ensures InUnit(if s < 0.5 then d - (1.0 - 2.0 * s) * d * (1.0 - d) else d + (2.0 * s - 1.0) * (root - d))
  {
    if s < 0.5 {
      UnitProduct(d, 1.0 - d);
      StepInUnit(d - d * (1.0 - d), d * (1.0 - d), 1.0 - 2.0 * s);
      assert (1.0 - 2.0 * s) * d * (1.0 - d) == (1.0 - 2.0 * s) * (d * (1.0 - d));
    } else {
      RootAbove(root, d);
      StepInUnit(d, root - d, 2.0 * s - 1.0);
    }
  }

  lemma QuotientSign(d: real, w: real)
    requires d >= 0.0 && w > 0.0
    ensures d / w >= 0.0
  {
  }

  lemma PlainModesInUnit(k: Roots, mode: Mode, d: real, s: real)
    requires InUnit(d) && InUnit(s)
    requires mode.Normal? || mode.Add? || mode.Difference? || mode.Multiply? || mode.Screen? || mode.ColorDodge?
    ensures InUnit(Blended(k, mode, d, s))
  {
    match mode
    case Screen => UnitProduct(1.0 - d, 1.0 - s);
    case Multiply => UnitProduct(d, s);
    case ColorDodge => if s < 1.0 { QuotientSign(d, 1.0 - s); }
    case _ => {}
  }

  /** Every mode keeps unit channels in the unit range. */
  lemma BlendedInUnit(k: Roots, mode: Mode, d: real, s: real)
    requires Exact(k) && InUnit(d) && InUnit(s)
    ensures InUnit(Blended(k, mode, d, s))
  {
    if mode.Overlay? {
      OverlayInUnit(d, s);
    } else if mode.SoftLight? {
      SoftLightInUnit(d, s, k.square(d));
    } else {
      PlainModesInUnit(k, mode, d, s);
    }
  }

  lemma MixedBetween(d: real, blended: real, weight: real)
    requires InUnit(d) && InUnit(blended) && InUnit(weight)
    ensures InUnit(Mixed(d, blended, weight))
  {
    UnitProduct(d, 1.0 - weight);
    UnitProduct(blended, weight);
    UnitProduct(1.0 - d, 1.0 - weight);
    UnitProduct(1.0 - blended, weight);
    assert 1.0 - Mixed(d, blended, weight) == (1.0 - d) * (1.0 - weight) + (1.0 - blended) * weight;
  }

  predicate PixelInUnit(p: LinearRgba) {
    InUnit(p.r) && InUnit(p.g) && InUnit(p.b) && InUnit(p.a)
  }

  ghost predicate KeepsUnit(blend: (real, real) -> real) {
    forall d: real, s: real :: InUnit(d) && InUnit(s) ==> InUnit(blend(d, s))
  }

  /** The union covers both, stays in range, and its clamp is never what decides it. */
  lemma UnionCovers(d: real, a: real)
    requires InUnit(d) && InUnit(a)
    ensures InUnit(Union(d, a)) && Union(d, a) >= d && Union(d, a) >= a
    ensures Union(d, a) == d + a - d * a
  {
    NonNegative(1.0 - d, 1.0 - a);
    UnionFrom(d, a, d * a);
  }

  lemma UnionFrom(d: real, a: real, both: real)
    requires InUnit(d) && InUnit(a) && both == d * a && d + a - both <= 1.0
    ensures InUnit(Union(d, a)) && Union(d, a) >= d && Union(d, a) >= a
    ensures Union(d, a) == d + a - d * a
  {
    UnitProduct(d, a);
    assert both <= d && both <= a;
    assert Union(d, a) == Min(d + a - both, 1.0);
  }

  lemma CompositeInUnit(blend: (real, real) -> real, src: LinearRgba, dst: LinearRgba)
    requires KeepsUnit(blend) && PixelInUnit(src) && PixelInUnit(dst)
    ensures var out := Composite(blend, src, dst);
            && PixelInUnit(out) && out.a >= dst.a && out.a >= src.a
  {
    var out := Composite(blend, src, dst);
    assert InUnit(out.r) by { MixedBetween(dst.r, blend(dst.r, src.r), src.a); }
    assert InUnit(out.g) by { MixedBetween(dst.g, blend(dst.g, src.g), src.a); }
    assert InUnit(out.b) by { MixedBetween(dst.b, blend(dst.b, src.b), src.a); }
    assert InUnit(out.a) && out.a >= dst.a && out.a >= src.a by { UnionCovers(dst.a, src.a); }
  }

  lemma BlendKeepsUnit(k: Roots, mode: Mode)
    requires Exact(k)
    ensures KeepsUnit(Blender(k, mode))
  {
    forall d: real, s: real | InUnit(d) && InUnit(s) ensures InUnit(Blended(k, mode, d, s)) {
      BlendedInUnit(k, mode, d, s);
    }
  }

  lemma FadedInUnit(src: LinearRgba, opacity: real)
    requires PixelInUnit(src) && InUnit(opacity)
    ensures PixelInUnit(Faded(src, opacity)) && Faded(src, opacity).a == src.a * opacity
  {
    UnitProduct(src.a, opacity);
  }

  /** Unit pixels blend to a unit pixel whose alpha covers both inputs. */
  lemma BlendOverInUnit(k: Roots, src: LinearRgba, dst: LinearRgba, mode: Mode, opacity: real)
    requires Exact(k) && PixelInUnit(src) && PixelInUnit(dst) && InUnit(opacity)
    ensures var out := BlendOver(k, src, dst, mode, opacity);
            && PixelInUnit(out) && out.a >= dst.a && out.a >= src.a * opacity
  {
    BlendKeepsUnit(k, mode);
    FadedInUnit(src, opacity);
    CompositeInUnit(Blender(k, mode), Faded(src, opacity), dst);
  }
}
