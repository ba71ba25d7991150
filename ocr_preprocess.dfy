/**
 * The arithmetic of the client-side image preprocessor: the option defaults,
 * the crop rectangle, the fit-within scaling of the crop, and the in-place
 * grayscale and contrast pass over the RGBA pixel buffer.
 */
module OcrPreprocess {
  import opened Wrappers
  import opened JsNumber

  // ---- Options ----

  /** `cropMode`: `"center"`, or `"smart"` (every mode other than `"center"` takes the smart path). */
  datatype CropMode = Center | Smart

  /** The optional fields of `opts`; an absent field is `undefined`. */
  datatype Options = Options(maxWidth: Option<Count>, maxHeight: Option<Count>, cropMode: Option<CropMode>)

  datatype Settings = Settings(maxWidth: Count, maxHeight: Count, cropMode: CropMode)

  const DefaultMaxSide: Count := 1100

  /** `opts?.maxWidth ?? 1100`, `opts?.maxHeight ?? 1100`, `opts?.cropMode ?? "smart"`. */
  function ResolveOptions(opts: Option<Options>): (st: Settings)
    ensures opts.None? ==> st == Settings(1100, 1100, Smart)
    ensures opts.Some? ==> st.maxWidth == (if opts.value.maxWidth.Some? then opts.value.maxWidth.value else 1100)
    ensures opts.Some? ==> st.maxHeight == (if opts.value.maxHeight.Some? then opts.value.maxHeight.value else 1100)
    ensures opts.Some? ==> st.cropMode == (if opts.value.cropMode.Some? then opts.value.cropMode.value else Smart)
  {
    match opts
    case None => Settings(DefaultMaxSide, DefaultMaxSide, Smart)
    case Some(o) =>
      Settings(
        if o.maxWidth.Some? then o.maxWidth.value else DefaultMaxSide,
        if o.maxHeight.Some? then o.maxHeight.value else DefaultMaxSide,
        if o.cropMode.Some? then o.cropMode.value else Smart)
  }

  // ---- Crop rectangle ----

  datatype CropRect = CropRect(sx: nat, sy: nat, sw: Count, sh: Count)

  /** `n` is `Math.floor(x)`. */
  predicate IsFloorOf(n: int, x: real) {
    n as real <= x < n as real + 1.0
  }

  /** `Math.floor(n * pct / 100)` computed exactly. */
  function Percent(n: Count, pct: nat): (r: Count)
    requires pct <= 100
    ensures IsFloorOf(r, n as real * (pct as real / 100.0))
    ensures r <= n
  {
    PercentFloor(n, pct);
    PercentAtMost(n, pct);
    n * pct / 100
  }

  lemma {:induction false} PercentAtMost(n: nat, pct: nat)
    requires pct <= 100
    ensures n * pct / 100 <= n
  {
    ProductAtMostHundred(n, pct);
  }

  lemma {:induction false} ProductAtMostHundred(n: nat, pct: nat)
    requires pct <= 100
    ensures n * pct <= n * 100
  {
  }

  lemma {:induction false} PercentFloor(n: nat, pct: nat)
    ensures IsFloorOf(n * pct / 100, n as real * (pct as real / 100.0))
  {
    var p := n * pct;
    var q, m := p / 100, p % 100;
    assert p == 100 * q + m;
    ProductAsReal(n, pct);
    assert n as real * (pct as real / 100.0) == p as real / 100.0;
    assert p as real / 100.0 == q as real + m as real / 100.0;
  }

  lemma {:induction false} ProductAsReal(a: nat, b: nat)
    ensures (a * b) as real == a as real * b as real
  {
  }

  /**
   * `getCropRect`: the fractional crop of a `w` by `h` image, each side and
   * offset floored. The rectangle always lies inside the image.
   */
  function GetCropRect(w: Count, h: Count, mode: CropMode): (r: CropRect)
    ensures mode == Center ==>
      IsFloorOf(r.sx, w as real * 0.10) && IsFloorOf(r.sy, h as real * 0.18) &&
      IsFloorOf(r.sw, w as real * 0.80) && IsFloorOf(r.sh, h as real * 0.55)
    ensures mode == Smart ==>
      IsFloorOf(r.sx, w as real * 0.06) && IsFloorOf(r.sy, h as real * 0.15) &&
      IsFloorOf(r.sw, w as real * 0.88) && IsFloorOf(r.sh, h as real * 0.60)
    ensures r.sx + r.sw <= w && r.sy + r.sh <= h
  {
    match mode
    case Center => CropRect(Percent(w, 10), Percent(h, 18), Percent(w, 80), Percent(h, 55))
    case Smart => CropRect(Percent(w, 6), Percent(h, 15), Percent(w, 88), Percent(h, 60))
  }

  /** Images of at least 2 by 2 pixels get a crop of at least one pixel each way. */
  lemma {:induction false} CropIsNonEmpty(w: Count, h: Count, mode: CropMode)
    requires w >= 2 && h >= 2
    ensures GetCropRect(w, h, mode).sw >= 1 && GetCropRect(w, h, mode).sh >= 1
  {
  }

  /** A one-pixel image gets an empty crop: the floors give width and height 0. */
  lemma {:induction false} CropOfSinglePixel(mode: CropMode)
    ensures GetCropRect(1, 1, mode) == CropRect(0, 0, 0, 0)
  {
    var r := GetCropRect(1, 1, mode);
    assert r.sw as real < 1.0 && r.sh as real < 1.0;
  }

  // ---- Fit-within scaling ----

  /** `max / side`. */
  function Ratio(max: Count, side: Count): Num {
    Divide(max as real, side as real)
  }

  /** `Math.min(maxW / sw, maxH / sh, 1)`. */
  function Scale(sw: Count, sh: Count, maxW: Count, maxH: Count): Num {
    Min(Min(Ratio(maxW, sw), Ratio(maxH, sh)), Finite(1.0))
  }

  /** `Math.max(1, Math.floor(side * scale))`. */
  function ScaledSide(side: Count, scale: Num): Num {
    Max(Finite(1.0), Floor(Times(Finite(side as real), scale)))
  }

  /** The destination size `{ dw, dh }`; NaN where the scale is. */
  datatype Fit = Fit(dw: Num, dh: Num)

  /** `fitWithin(sw, sh, maxW, maxH)`. */
  function FitWithin(sw: Count, sh: Count, maxW: Count, maxH: Count): Fit {
    var scale := Scale(sw, sh, maxW, maxH);
    Fit(ScaledSide(sw, scale), ScaledSide(sh, scale))
  }

  /** The scale is `0 / 0`, NaN, exactly when a zero side meets a zero cap. */
  predicate ScaleUndefined(sw: Count, sh: Count, maxW: Count, maxH: Count) {
    (sw == 0 && maxW == 0) || (sh == 0 && maxH == 0)
  }

  /**
   * `s` is the largest factor of at most 1 that brings every non-zero side
   * within its cap: it is 1, or it brings some non-zero side exactly to its cap.
   */
  predicate LargestFitting(s: real, sw: nat, sh: nat, maxW: nat, maxH: nat) {
    0.0 <= s <= 1.0 && sw as real * s <= maxW as real && sh as real * s <= maxH as real &&
    (s == 1.0 || (sw > 0 && sw as real * s == maxW as real) || (sh > 0 && sh as real * s == maxH as real))
  }

  /** The scale is NaN exactly in the `0 / 0` case; otherwise it is the largest fitting factor. */
  lemma {:induction false} ScaleIsLargestFitting(sw: Count, sh: Count, maxW: Count, maxH: Count)
    ensures Scale(sw, sh, maxW, maxH).NaN? <==> ScaleUndefined(sw, sh, maxW, maxH)
    ensures !ScaleUndefined(sw, sh, maxW, maxH) ==>
      Scale(sw, sh, maxW, maxH).Finite? && LargestFitting(Scale(sw, sh, maxW, maxH).value, sw, sh, maxW, maxH)
  {
    RatioIsRatioOf(maxW, sw);
    RatioIsRatioOf(maxH, sh);
    FittingFactor(Ratio(maxW, sw), Ratio(maxH, sh), sw, sh, maxW, maxH);
  }

  /** What `max / side` is, stated without division: a quotient, an infinity or NaN. */
  predicate RatioOf(r: Num, max: Count, side: Count) {
    if side > 0 then r.Finite? && 0.0 <= r.value && side as real * r.value == max as real
    else if max > 0 then r.PosInfinity?
    else r.NaN?
  }

  lemma {:induction false} RatioIsRatioOf(max: Count, side: Count)
    ensures RatioOf(Ratio(max, side), max, side)
  {
    if side > 0 {
      RatioFinite(max, side);
      QuotientFacts(max as real, side as real);
    }
  }

  /** `Math.min(rw, rh, 1)` for two ratios, whatever their values. */
  lemma {:induction false} FittingFactor(rw: Num, rh: Num, sw: Count, sh: Count, maxW: Count, maxH: Count)
    requires RatioOf(rw, maxW, sw) && RatioOf(rh, maxH, sh)
    ensures Min(Min(rw, rh), Finite(1.0)).NaN? <==> ScaleUndefined(sw, sh, maxW, maxH)
    ensures !ScaleUndefined(sw, sh, maxW, maxH) ==>
      Min(Min(rw, rh), Finite(1.0)).Finite? && LargestFitting(Min(Min(rw, rh), Finite(1.0)).value, sw, sh, maxW, maxH)
  {
    var m := Min(Min(rw, rh), Finite(1.0));
    if !ScaleUndefined(sw, sh, maxW, maxH) {
      var s := m.value;
      assert m == rw || m == rh || m == Finite(1.0);
      assert 0.0 <= s <= 1.0;
      WithinCap(rw, sw, maxW, s);
      WithinCap(rh, sh, maxH, s);
    }
  }

  /** A factor no larger than a side's ratio keeps that side within its cap, exactly at the cap when it is the ratio. */
  lemma {:induction false} WithinCap(r: Num, side: Count, max: Count, s: real)
    requires RatioOf(r, max, side) && 0.0 <= s && !r.NaN? && AtMost(Finite(s), r)
    ensures side as real * s <= max as real
    ensures side > 0 && Finite(s) == r ==> side as real * s == max as real
  {
    if side > 0 {
      MulMonotone(side as real, s, r.value);
    } else {
      assert side as real * s == 0.0;
    }
  }

  lemma {:induction false} MulMonotone(x: real, a: real, b: real)
    requires 0.0 <= x && a <= b
    ensures x * a <= x * b
  {
    assert x * b - x * a == x * (b - a);
  }

  lemma {:induction false} ProductAtMost(a: real, s: real)
    requires 0.0 <= a && 0.0 <= s <= 1.0
    ensures 0.0 <= a * s <= a
  {
    assert a - a * s == a * (1.0 - s);
  }

  lemma {:induction false} QuotientFacts(m: real, d: real)
    requires 0.0 <= m && 1.0 <= d
    ensures 0.0 <= m / d <= m && d * (m / d) == m
    ensures d <= m ==> m / d >= 1.0
  {
    var q := m / d;
    assert d * q == m;
    assert q >= 0.0;
    assert m - q == q * (d - 1.0);
    assert q * (d - 1.0) >= 0.0;
    if d <= m {
      assert q * d >= 1.0 * d;
    }
  }

  lemma {:induction false} RatioFinite(max: Count, side: Count)
    requires side > 0
    ensures Ratio(max, side) == Finite(max as real / side as real)
    ensures side as real * (max as real / side as real) == max as real
    ensures side <= max ==> max as real / side as real >= 1.0
  {
    QuotientFacts(max as real, side as real);
  }

  /** A side scaled by a factor in [0, 1] is `max(1, floor(side * s))`. */
  lemma {:induction false} ScaledSideValue(side: Count, s: real)
    requires 0.0 <= s <= 1.0
    ensures ScaledSide(side, Finite(s)) == SideAt(side, s)
  {
    var p := side as real * s;
    ProductWithinRange(side, s);
    var f := p.Floor;
    assert Floor(Finite(p)) == Finite(f as real);
    OneOrMore(f);
  }

  lemma {:induction false} ProductWithinRange(side: Count, s: real)
    requires 0.0 <= s <= 1.0
    ensures Times(Finite(side as real), Finite(s)) == Finite(side as real * s)
  {
    var a := side as real;
    ProductAtMost(a, s);
    assert a < OverflowBound;
    assert a * s < OverflowBound;
    assert FromExact(a * s) == Finite(a * s);
  }

  lemma {:induction false} OneOrMore(f: int)
    ensures Max(Finite(1.0), Finite(f as real)) == Finite(MaxOne(f) as real)
  {
  }

  function MaxOne(n: int): int {
    if n < 1 then 1 else n
  }

  /** `max(1, floor(p))` pixels. */
  function Pixels(p: real): Num {
    Finite(MaxOne(p.Floor) as real)
  }

  /** `max(1, floor(side * s))` pixels. */
  function SideAt(side: nat, s: real): Num {
    Pixels(side as real * s)
  }

  /** Both sides scaled by the same factor `s`. */
  function FitAt(sw: nat, sh: nat, s: real): Fit {
    Fit(SideAt(sw, s), SideAt(sh, s))
  }

  /**
   * Both sides come from one and the same factor `s`, the largest factor of
   * at most 1 that brings every non-zero side within its cap: the aspect ratio
   * is kept up to flooring, and the crop is never enlarged.
   */
  lemma {:induction false} FitWithinUniformScale(sw: Count, sh: Count, maxW: Count, maxH: Count)
    requires !ScaleUndefined(sw, sh, maxW, maxH)
    ensures exists s: real :: LargestFitting(s, sw, sh, maxW, maxH) && FitWithin(sw, sh, maxW, maxH) == FitAt(sw, sh, s)
  {
    var s := FitWithinFactor(sw, sh, maxW, maxH);
  }

  /** A side is NaN exactly in the `0 / 0` case; otherwise it is a whole number of at least one pixel. */
  lemma {:induction false} FitWithinDefinedness(sw: Count, sh: Count, maxW: Count, maxH: Count)
    ensures var r := FitWithin(sw, sh, maxW, maxH);
      (r.dw.NaN? <==> ScaleUndefined(sw, sh, maxW, maxH)) && (r.dh.NaN? <==> ScaleUndefined(sw, sh, maxW, maxH))
    ensures var r := FitWithin(sw, sh, maxW, maxH);
      !ScaleUndefined(sw, sh, maxW, maxH) ==>
        r.dw.Finite? && r.dh.Finite? && r.dw.value >= 1.0 && r.dh.value >= 1.0 &&
        r.dw.value == r.dw.value.Floor as real && r.dh.value == r.dh.value.Floor as real
  {
    ScaleIsLargestFitting(sw, sh, maxW, maxH);
    if !ScaleUndefined(sw, sh, maxW, maxH) {
      var s := Scale(sw, sh, maxW, maxH).value;
      ScaledSideValue(sw, s);
      ScaledSideValue(sh, s);
    }
  }

  /**
   * No side is enlarged: each is finite and at most the crop's (or 1 for an
   * empty crop), and at most its cap when the cap is at least 1.
   */
  predicate NoUpscale(r: Fit, sw: nat, sh: nat, maxW: nat, maxH: nat) {
    r.dw.Finite? && r.dh.Finite? &&
    r.dw.value <= MaxOne(sw) as real && r.dh.value <= MaxOne(sh) as real &&
    (maxW >= 1 ==> r.dw.value <= maxW as real) && (maxH >= 1 ==> r.dh.value <= maxH as real)
  }

  /** Fit-within never upscales. */
  lemma {:induction false} FitWithinNoUpscale(sw: Count, sh: Count, maxW: Count, maxH: Count)
    requires !ScaleUndefined(sw, sh, maxW, maxH)
    ensures NoUpscale(FitWithin(sw, sh, maxW, maxH), sw, sh, maxW, maxH)
  {
    var s := FitWithinFactor(sw, sh, maxW, maxH);
    FitAtBounds(sw, sh, s, maxW, maxH);
  }

  /** Outside the NaN case the destination size is `FitAt` of the scale, returned as `s`. */
  lemma {:induction false} FitWithinFactor(sw: Count, sh: Count, maxW: Count, maxH: Count) returns (s: real)
    requires !ScaleUndefined(sw, sh, maxW, maxH)
    ensures LargestFitting(s, sw, sh, maxW, maxH) && FitWithin(sw, sh, maxW, maxH) == FitAt(sw, sh, s)
  {
    ScaleIsLargestFitting(sw, sh, maxW, maxH);
    s := Scale(sw, sh, maxW, maxH).value;
    ScaledSideValue(sw, s);
    ScaledSideValue(sh, s);
  }

  lemma {:induction false} FitAtBounds(sw: nat, sh: nat, s: real, maxW: nat, maxH: nat)
    requires LargestFitting(s, sw, sh, maxW, maxH)
    ensures NoUpscale(FitAt(sw, sh, s), sw, sh, maxW, maxH)
  {
    ProductWithin(sw, s, maxW);
    FlooredWithin(sw as real * s, sw, maxW);
    ProductWithin(sh, s, maxH);
    FlooredWithin(sh as real * s, sh, maxH);
  }

  /** `p` lies between 0 and both `side` and `cap`. */
  predicate Within(p: real, side: nat, cap: nat) {
    0.0 <= p <= side as real && p <= cap as real
  }

  lemma {:induction false} ProductWithin(side: nat, s: real, cap: nat)
    requires 0.0 <= s <= 1.0 && side as real * s <= cap as real
    ensures Within(side as real * s, side, cap)
  {
    ProductAtMost(side as real, s);
  }

  lemma {:induction false} FlooredWithin(p: real, side: nat, cap: nat)
    requires Within(p, side, cap)
    ensures Pixels(p).value <= MaxOne(side) as real && (cap >= 1 ==> Pixels(p).value <= cap as real)
  {
  }

  /** A crop that already fits is kept at its own size. */
  lemma {:induction false} FitWithinKeepsFittingCrop(sw: Count, sh: Count, maxW: Count, maxH: Count)
    requires 1 <= sw <= maxW && 1 <= sh <= maxH
    ensures FitWithin(sw, sh, maxW, maxH) == Fit(Finite(sw as real), Finite(sh as real))
  {
    RatioFinite(maxW, sw);
    RatioFinite(maxH, sh);
    assert Scale(sw, sh, maxW, maxH) == Finite(1.0);
    ScaledSideValue(sw, 1.0);
    ScaledSideValue(sh, 1.0);
    UnitFactor(sw);
    UnitFactor(sh);
  }

  lemma {:induction false} UnitFactor(side: Count)
    ensures SideAt(side, 1.0) == Finite(MaxOne(side) as real)
  {
    assert side as real * 1.0 == side as real;
  }

  // ---- Grayscale and contrast ----

  /** The contrast factor of `enhanceForOCR`, applied around the midpoint 128. */
  const Contrast: real := 1.25

  /** `d[k]` as a number: the byte, or NaN for the `undefined` read past the end. */
  function ByteAt(s: seq<Uint8>, k: int): (n: Num)
    ensures n.Finite? <==> 0 <= k < |s|
    ensures !n.Finite? ==> n.NaN?
    ensures n.Finite? ==> 0.0 <= n.value <= 255.0 && n.value == n.value.Floor as real
  {
    if 0 <= k < |s| then Finite(s[k] as real) else NaN
  }

  /** The luminance `0.299 * r + 0.587 * g + 0.114 * b`. */
  function Luminance(r: Num, g: Num, b: Num): Num {
    Plus(Plus(Times(Finite(0.299), r), Times(Finite(0.587), g)), Times(Finite(0.114), b))
  }

  /** `(y - 128) * contrast + 128`, then clamped by `Math.max(0, Math.min(255, y))`. */
  function Adjusted(y: Num): Num {
    Max(Finite(0.0), Min(Finite(255.0), Plus(Times(Minus(y, Finite(128.0)), Finite(Contrast)), Finite(128.0))))
  }

  /** The byte stored into the R, G and B slots of a pixel whose channels read as `r`, `g`, `b`. */
  function GrayOf(r: Num, g: Num, b: Num): Uint8 {
    ToUint8Clamp(Adjusted(Luminance(r, g, b)))
  }

  /** The contrast-stretched luminance of a complete pixel, clamped to [0, 255], in exact arithmetic. */
  function Stretched(r: Uint8, g: Uint8, b: Uint8): (c: real)
    ensures 0.0 <= c <= 255.0
  {
    var y := 0.299 * r as real + 0.587 * g as real + 0.114 * b as real;
    var c := (y - 128.0) * Contrast + 128.0;
    if c < 0.0 then 0.0 else if c > 255.0 then 255.0 else c
  }

  /** The gray value of a complete pixel. */
  function Gray(r: Uint8, g: Uint8, b: Uint8): Uint8 {
    ToUint8Clamp(Finite(Stretched(r, g, b)))
  }

  /** The gray value written for the pixel starting at byte `i`: 0 when the buffer ends before its B byte. */
  function PixelGray(s: seq<Uint8>, i: nat): Uint8
    requires i < |s|
  {
    if i + 2 < |s| then Gray(s[i], s[i + 1], s[i + 2]) else 0
  }

  /**
   * The buffer after `enhanceForOCR`, pixel by pixel: the R, G and B bytes of
   * a pixel hold its gray value and its alpha byte is kept; a last pixel of
   * fewer than four bytes gets the gray value in every byte it has.
   */
  function Enhanced(s: seq<Uint8>): (t: seq<Uint8>)
    ensures |t| == |s|
    decreases |s|
  {
    if |s| == 0 then []
    else
      var v := PixelGray(s, 0);
      if |s| < 4 then [v, v, v][..|s|]
      else [v, v, v, s[3]] + Enhanced(s[4..])
  }

  /** Reading past the first four bytes does not depend on what follows them. */
  lemma {:induction false} PixelGrayOfPrefix(a: seq<Uint8>, b: seq<Uint8>)
    requires |a| >= 4
    ensures PixelGray(a + b, 0) == PixelGray(a, 0)
  {
    assert (a + b)[0] == a[0] && (a + b)[1] == a[1] && (a + b)[2] == a[2];
  }

  /** The pass works on whole pixels, so it distributes over a split at a pixel boundary. */
  lemma {:induction false} EnhancedAppend(a: seq<Uint8>, b: seq<Uint8>)
    requires |a| % 4 == 0
    ensures Enhanced(a + b) == Enhanced(a) + Enhanced(b)
    decreases |a|
  {
    if |a| == 0 {
      assert a + b == b;
    } else {
      assert (a + b)[4..] == a[4..] + b;
      assert (a + b)[3] == a[3];
      PixelGrayOfPrefix(a, b);
      EnhancedAppend(a[4..], b);
    }
  }

  /** On a complete pixel the number arithmetic of the pass computes `Stretched`. */
  lemma {:induction false} GrayOfBytes(r: Uint8, g: Uint8, b: Uint8)
    ensures GrayOf(Finite(r as real), Finite(g as real), Finite(b as real)) == ToUint8Clamp(Finite(Stretched(r, g, b)))
  {
    var y := 0.299 * r as real + 0.587 * g as real + 0.114 * b as real;
    assert 0.0 <= y <= 255.0;
    assert Luminance(Finite(r as real), Finite(g as real), Finite(b as real)) == Finite(y);
    assert Minus(Finite(y), Finite(128.0)) == Finite(y - 128.0);
    assert Times(Finite(y - 128.0), Finite(Contrast)) == Finite((y - 128.0) * 1.25);
    assert Plus(Finite((y - 128.0) * 1.25), Finite(128.0)) == Finite((y - 128.0) * 1.25 + 128.0);
  }

  /** A pixel with a missing channel (the last one of a buffer whose length is not a multiple of 4) is written as 0. */
  lemma {:induction false} GrayOfMissingChannel(r: Num, g: Num, b: Num)
    requires g.NaN? || b.NaN?
    ensures GrayOf(r, g, b) == 0
  {
  }

  /** The number arithmetic of the pass on the bytes read at `i` gives `PixelGray`. */
  lemma {:induction false} GrayOfPixel(s: seq<Uint8>, i: nat)
    requires i < |s|
    ensures GrayOf(ByteAt(s, i), ByteAt(s, i + 1), ByteAt(s, i + 2)) == PixelGray(s, i)
  {
    if i + 2 < |s| {
      GrayOfBytes(s[i], s[i + 1], s[i + 2]);
    } else {
      GrayOfMissingChannel(ByteAt(s, i), ByteAt(s, i + 1), ByteAt(s, i + 2));
    }
  }

  /**
   * The gray value of a complete pixel is the byte nearest to the
   * contrast-stretched luminance clamped to [0, 255], ties to even.
   */
  lemma {:induction false} GrayIsNearest(r: Uint8, g: Uint8, b: Uint8)
    ensures var c := (0.299 * r as real + 0.587 * g as real + 0.114 * b as real - 128.0) * 1.25 + 128.0;
      var v := Gray(r, g, b);
      (c <= 0.0 ==> v == 0) && (c >= 255.0 ==> v == 255) &&
      (0.0 < c < 255.0 ==> v as real - 0.5 <= c <= v as real + 0.5) &&
      (0.0 < c < 255.0 && (c == v as real - 0.5 || c == v as real + 0.5) ==> v % 2 == 0)
  {
  }

  /** A pixel that is brighter channel by channel stays at least as bright. */
  lemma {:induction false} GrayMonotone(r: Uint8, g: Uint8, b: Uint8, r': Uint8, g': Uint8, b': Uint8)
    requires r <= r' && g <= g' && b <= b'
    ensures Gray(r, g, b) <= Gray(r', g', b')
  {
    ToUint8ClampMonotone(Stretched(r, g, b), Stretched(r', g', b'));
  }

  /**
   * On a gray pixel the pass is a contrast stretch: values above the
   * midpoint 128 do not get darker, values below it do not get lighter, and
   * black, the midpoint and white are fixed.
   */
  lemma {:induction false} GrayStretchesContrast(v: Uint8)
    ensures v >= 128 ==> Gray(v, v, v) >= v
    ensures v <= 128 ==> Gray(v, v, v) <= v
    ensures Gray(0, 0, 0) == 0 && Gray(128, 128, 128) == 128 && Gray(255, 255, 255) == 255
  {
    GrayIsNearest(v, v, v);
    assert 0.299 * v as real + 0.587 * v as real + 0.114 * v as real == v as real;
    GrayIsNearest(0, 0, 0);
    GrayIsNearest(128, 128, 128);
    GrayIsNearest(255, 255, 255);
  }

  /** A complete pixel: R, G and B all become its gray value and alpha is kept. */
  lemma {:induction false} EnhancedPixel(s: seq<Uint8>, i: nat)
    requires i % 4 == 0 && i + 3 < |s|
    ensures var t, v := Enhanced(s), Gray(s[i], s[i + 1], s[i + 2]);
      t[i] == v && t[i + 1] == v && t[i + 2] == v && t[i + 3] == s[i + 3]
  {
    EnhancedAt(s, i, 0);
    EnhancedAt(s, i, 1);
    EnhancedAt(s, i, 2);
    EnhancedAt(s, i, 3);
  }

  lemma {:induction false} LastPixelStart(n: nat)
    ensures 0 <= n - n % 4 <= n && (n - n % 4) % 4 == 0
  {
    assert n == 4 * (n / 4) + n % 4;
  }

  /**
   * The bytes after the last complete pixel: three of them get the gray
   * value of those three channels; one or two of them become 0.
   */
  lemma {:induction false} EnhancedTail(s: seq<Uint8>)
    ensures var t, i := Enhanced(s), |s| - |s| % 4;
      (|s| % 4 == 3 ==> var v := Gray(s[i], s[i + 1], s[i + 2]); t[i] == v && t[i + 1] == v && t[i + 2] == v) &&
      (|s| % 4 == 1 || |s| % 4 == 2 ==> forall k :: i <= k < |s| ==> t[k] == 0)
  {
    var i := |s| - |s| % 4;
    LastPixelStart(|s|);
    var head, tail := s[..i], s[i..];
    assert s == head + tail;
    EnhancedAppend(head, tail);
    assert Enhanced(s)[i..] == Enhanced(tail);
    if |tail| == 3 {
      assert tail[0] == s[i] && tail[1] == s[i + 1] && tail[2] == s[i + 2];
    }
  }

  /**
   * `enhanceForOCR`: one pass over the buffer, four bytes at a time, writing
   * the gray value into B, G and R (a write past the end is dropped).
   */
  method EnhanceForOcr(d: array<Uint8>)
    modifies d
    ensures d[..] == Enhanced(old(d[..]))
  {
    ghost var s := d[..];
    ghost var t := Enhanced(s);
    ghost var pixels := 0;
    var i := 0;
    while i < d.Length
      invariant i == 4 * pixels
      invariant forall k :: 0 <= k < d.Length && k < i ==> d[k] == t[k]
      invariant forall k :: i <= k < d.Length ==> d[k] == s[k]
    {
      PixelStart(pixels);
      var y := PixelGrayAt(d, i);
      SameBytesSameGray(d[..], s, i);
      WriteGray(d, i, y);
      forall k | i <= k < i + 4 && k < d.Length
        ensures d[k] == t[k]
      {
        EnhancedAt(s, i, k - i);
      }
      i := i + 4;
      pixels := pixels + 1;
    }
    assert d[..] == t;
  }

  /** Writes `y` into the B, G and R bytes of the pixel at `i`, in that order, dropping writes past the end. */
  method WriteGray(d: array<Uint8>, i: nat, y: Uint8)
    requires i < d.Length
    modifies d
    ensures forall k :: 0 <= k < d.Length ==> d[k] == if i <= k < i + 3 then y else old(d[k])
  {
    if i + 2 < d.Length {
      d[i + 2] := y;
    }
    if i + 1 < d.Length {
      d[i + 1] := y;
    }
    d[i] := y;
  }

  /** Byte `j` of the pixel starting at `i` after the pass: the pixel's gray value, or its kept alpha. */
  lemma {:induction false} EnhancedAt(s: seq<Uint8>, i: nat, j: nat)
    requires i % 4 == 0 && j < 4 && i + j < |s|
    ensures Enhanced(s)[i + j] == if j == 3 then s[i + j] else PixelGray(s, i)
    decreases i
  {
    if i > 0 {
      var rest := s[4..];
      EnhancedAt(rest, i - 4, j);
      assert Enhanced(s)[4..] == Enhanced(rest);
      assert rest[i - 4 + j] == s[i + j];
      PixelGrayOfSuffix(s, i);
    }
  }

  /** The gray value at `i` is that of the same pixel in the buffer without its first pixel. */
  lemma {:induction false} PixelGrayOfSuffix(s: seq<Uint8>, i: nat)
    requires 4 <= i < |s|
    ensures PixelGray(s[4..], i - 4) == PixelGray(s, i)
  {
    if i + 2 < |s| {
      assert s[4..][i - 4] == s[i] && s[4..][i - 3] == s[i + 1] && s[4..][i - 2] == s[i + 2];
    }
  }

  /** Two buffers of the same length that agree on a pixel's R, G and B bytes give it the same gray value. */
  lemma {:induction false} SameBytesSameGray(a: seq<Uint8>, b: seq<Uint8>, i: nat)
    requires |a| == |b| && i < |a|
    requires forall k :: i <= k < i + 3 && k < |a| ==> a[k] == b[k]
    ensures PixelGray(a, i) == PixelGray(b, i)
  {
  }

  lemma {:induction false} PixelStart(p: nat)
    ensures (4 * p) % 4 == 0
  {
  }

  /** Reads the R, G and B bytes at `i` (`undefined`, so NaN, past the end) and computes the pixel's gray value. */
  method PixelGrayAt(d: array<Uint8>, i: nat) returns (y: Uint8)
    requires i < d.Length
    ensures y == PixelGray(d[..], i)
  {
    var r := Finite(d[i] as real);
    var g := if i + 1 < d.Length then Finite(d[i + 1] as real) else NaN;
    var b := if i + 2 < d.Length then Finite(d[i + 2] as real) else NaN;
    y := GrayOf(r, g, b);
    GrayOfPixel(d[..], i);
  }

  // ---- The geometry of preprocessForInstapayOCR ----

  /** The size of the canvas `preprocessForInstapayOCR` draws on, for a `w` by `h` image. */
  function OutputSize(w: Count, h: Count, opts: Option<Options>): Fit {
    var st := ResolveOptions(opts);
    var crop := GetCropRect(w, h, st.cropMode);
    FitWithin(crop.sw, crop.sh, st.maxWidth, st.maxHeight)
  }

  /** With the default options every image gives a canvas between 1 by 1 and 1100 by 1100 pixels. */
  lemma {:induction false} DefaultOutputSizeBounds(w: Count, h: Count)
    ensures var r := OutputSize(w, h, None);
      r.dw.Finite? && r.dh.Finite? && 1.0 <= r.dw.value <= 1100.0 && 1.0 <= r.dh.value <= 1100.0
  {
    var crop := GetCropRect(w, h, Smart);
    FitWithinDefinedness(crop.sw, crop.sh, 1100, 1100);
    FitWithinNoUpscale(crop.sw, crop.sh, 1100, 1100);
  }
}
