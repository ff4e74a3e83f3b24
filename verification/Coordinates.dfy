/** Frame pixels to model pixels and back: ROI crop, letterbox, decode, remap. */
module Coordinates {
  import opened Options
  import opened Messages
  import opened Geometry

  type Positive = n: int | n > 0 witness 1

  /** Truncation toward zero. */
  function Trunc(x: real): (n: int)
    ensures x >= 0.0 ==> n as real <= x < n as real + 1.0
    ensures x < 0.0 ==> n as real - 1.0 < x <= n as real
  {
    if x >= 0.0 then x.Floor else -((-x).Floor)
  }

  /** Nearest integer, ties to even. */
  function Round(x: real): (n: int)
    ensures -0.5 <= n as real - x <= 0.5
    ensures x - x.Floor as real == 0.5 ==> n % 2 == 0
  {
    var f := x.Floor;
    var d := x - f as real;
    if d < 0.5 || (d == 0.5 && f % 2 == 0) then f else f + 1
  }

  function Clamp(x: real): (r: real)
    ensures 0.0 <= r <= 1.0
    ensures x <= 0.0 ==> r == 0.0
    ensures 0.0 <= x <= 1.0 ==> r == x
    ensures x >= 1.0 ==> r == 1.0
  {
    Max(0.0, Min(1.0, x))
  }

  // Crop.

  const MIN_CROP_PX := 8

  datatype Crop = Crop(x1: int, y1: int, cw: int, ch: int)

  function IntoRange(n: int, size: int): int {
    var m := if n <= size then n else size;
    if m >= 0 then m else 0
  }

  /** A normalised coordinate on an axis of n pixels. */
  function Scaled(v: real, n: real): real {
    v * n
  }

  /** The pixel it falls in, kept on the axis. */
  function PixelOf(v: real, size: int): int {
    IntoRange(Trunc(Scaled(v, size as real)), size)
  }

  function Least(xs: seq<real>): (m: real)
    requires xs != []
    ensures m in xs && forall x | x in xs :: m <= x
  {
    assert xs == [xs[0]] + xs[1..];
    if |xs| == 1 then xs[0] else Min(xs[0], Least(xs[1..]))
  }

  function Greatest(xs: seq<real>): (m: real)
    requires xs != []
    ensures m in xs && forall x | x in xs :: x <= m
  {
    assert xs == [xs[0]] + xs[1..];
    if |xs| == 1 then xs[0] else Max(xs[0], Greatest(xs[1..]))
  }

  function Xs(points: seq<Point>): (r: seq<real>)
    ensures |r| == |points| && forall i | 0 <= i < |points| :: r[i] == points[i].x
  {
    seq(|points|, i requires 0 <= i < |points| => points[i].x)
  }

  function Ys(points: seq<Point>): (r: seq<real>)
    ensures |r| == |points| && forall i | 0 <= i < |points| :: r[i] == points[i].y
  {
    seq(|points|, i requires 0 <= i < |points| => points[i].y)
  }

  /** The pixel rectangle around the ROI points; the whole frame when there is none or it is tiny. */
  function CropOf(roi: Option<seq<Point>>, w: int, h: int): Crop {
    if roi.None? || |roi.value| < 2 then Crop(0, 0, w, h)
    else
      var xs, ys := Xs(roi.value), Ys(roi.value);
      var x1, y1 := PixelOf(Least(xs), w), PixelOf(Least(ys), h);
      var x2, y2 := PixelOf(Greatest(xs), w), PixelOf(Greatest(ys), h);
      if x2 - x1 < MIN_CROP_PX || y2 - y1 < MIN_CROP_PX then Crop(0, 0, w, h)
      else Crop(x1, y1, x2 - x1, y2 - y1)
  }

  method CropToRoi(roi: Option<seq<Point>>, w: int, h: int) returns (crop: Crop)
    ensures crop == CropOf(roi, w, h)
  {
    hide PixelOf, Least, Greatest;
    if roi.None? || |roi.value| < 2 {
      return Crop(0, 0, w, h);
    }
    var xs, ys := Corners(roi.value);
    var x1, y1 := PixelOf(Least(xs), w), PixelOf(Least(ys), h);
    var x2, y2 := PixelOf(Greatest(xs), w), PixelOf(Greatest(ys), h);
    var cw, ch := x2 - x1, y2 - y1;
    if cw < MIN_CROP_PX || ch < MIN_CROP_PX {
      return Crop(0, 0, w, h);
    }
    return Crop(x1, y1, cw, ch);
  }

  method Corners(points: seq<Point>) returns (xs: seq<real>, ys: seq<real>)
    ensures xs == Xs(points) && ys == Ys(points)
  {
    xs, ys := [], [];
    for i := 0 to |points|
      invariant |xs| == |ys| == i
      invariant forall k | 0 <= k < i :: xs[k] == points[k].x && ys[k] == points[k].y
    {
      xs := xs + [points[i].x];
      ys := ys + [points[i].y];
    }
  }

  predicate InFrame(c: Crop, w: int, h: int) {
    && 0 <= c.x1 && 0 < c.cw && c.x1 + c.cw <= w
    && 0 <= c.y1 && 0 < c.ch && c.y1 + c.ch <= h
  }

  /** The crop is a non-empty rectangle of the frame, and at least 8 by 8 unless it is the frame itself. */
  lemma CropInFrame(roi: Option<seq<Point>>, w: int, h: int)
    requires w > 0 && h > 0
    ensures
      var c := CropOf(roi, w, h);
      InFrame(c, w, h) && (c == Crop(0, 0, w, h) || (c.cw >= MIN_CROP_PX && c.ch >= MIN_CROP_PX))
  {
  }

  lemma TruncInRange(y: real, size: int)
    requires 0.0 <= y <= size as real
    ensures IntoRange(Trunc(y), size) == Trunc(y)
    ensures Trunc(y) as real <= y < Trunc(y) as real + 1.0
  {
  }

  lemma TruncOutOfRange(y: real, size: int)
    requires size > 0
    ensures y < 0.0 ==> IntoRange(Trunc(y), size) == 0
    ensures y > size as real ==> IntoRange(Trunc(y), size) == size
  {
  }

  lemma ScaledOutside(v: real, n: real)
    requires n > 0.0
    ensures v < 0.0 ==> Scaled(v, n) < 0.0
    ensures v > 1.0 ==> Scaled(v, n) > n
    ensures Scaled(0.0, n) == 0.0 && Scaled(1.0, n) == n
  {
    if v < 0.0 {
      MulPositive(-v, n);
    } else if v > 1.0 {
      MulPositive(v - 1.0, n);
      assert (v - 1.0) * n == v * n - n;
    }
  }

  /** A coordinate outside the frame counts as the nearest one inside. */
  lemma PixelOfAny(v: real, size: int)
    requires size > 0
    ensures PixelOf(v, size) as real <= Scaled(Clamp(v), size as real) < PixelOf(v, size) as real + 1.0
  {
    ScaledUnit(Clamp(v), size as real);
    ScaledOutside(v, size as real);
    hide Scaled;
    TruncInRange(Scaled(Clamp(v), size as real), size);
    TruncOutOfRange(Scaled(v, size as real), size);
  }

  lemma ScaledUnit(v: real, n: real)
    requires 0.0 <= v <= 1.0 && n >= 0.0
    ensures 0.0 <= Scaled(v, n) <= n
  {
    MulMono(v, n, 1.0, n);
  }

  lemma ScaledOrder(a: real, b: real, n: real)
    requires a <= b && n >= 0.0
    ensures Scaled(a, n) <= Scaled(b, n)
  {
  }

  /** Position v of an axis falls in pixels lo to hi, the last one included. */
  predicate Held(lo: int, hi: int, v: real, size: int) {
    lo as real <= Scaled(v, size as real) < hi as real + 1.0
  }

  lemma AxisCovers(xs: seq<real>, x: real, size: int)
    requires size > 0 && x in xs
    ensures Held(PixelOf(Least(xs), size), PixelOf(Greatest(xs), size), Clamp(x), size)
    ensures Held(0, size, Clamp(x), size)
  {
    hide Least, Greatest, PixelOf, Held;
    var a, b := Least(xs), Greatest(xs);
    PixelOfAny(a, size);
    PixelOfAny(b, size);
    ClampOrder(a, x);
    ClampOrder(x, b);
    hide Clamp;
    HeldBetween(PixelOf(a, size), PixelOf(b, size), Clamp(a), Clamp(x), Clamp(b), size);
    HeldInside(Clamp(x), size);
  }

  lemma ClampOrder(a: real, b: real)
    requires a <= b
    ensures Clamp(a) <= Clamp(b)
  {
  }

  lemma HeldBetween(lo: int, hi: int, a: real, x: real, b: real, size: int)
    requires size > 0 && a <= x <= b
    requires lo as real <= Scaled(a, size as real) && Scaled(b, size as real) < hi as real + 1.0
    ensures Held(lo, hi, x, size)
  {
    ScaledOrder(a, x, size as real);
    ScaledOrder(x, b, size as real);
    hide Scaled;
  }

  lemma HeldInside(x: real, size: int)
    requires size > 0 && 0.0 <= x <= 1.0
    ensures Held(0, size, x, size)
  {
    ScaledUnit(x, size as real);
    hide Scaled;
  }

  /** The crop holds every ROI point, up to the fraction of a pixel lost at its far edges; a point outside the frame
      counts as the nearest one inside. */
  lemma CropCoversRoi(roi: seq<Point>, w: int, h: int, p: Point)
    requires w > 0 && h > 0 && p in roi
    ensures
      var c := CropOf(Some(roi), w, h);
      Held(c.x1, c.x1 + c.cw, Clamp(p.x), w) && Held(c.y1, c.y1 + c.ch, Clamp(p.y), h)
  {
    hide Least, Greatest, PixelOf, Held, Clamp;
    var xs, ys := Xs(roi), Ys(roi);
    var i :| 0 <= i < |roi| && roi[i] == p;
    assert xs[i] in xs && ys[i] in ys;
    AxisCovers(xs, p.x, w);
    AxisCovers(ys, p.y, h);
  }

  /** The pixel in which a coordinate falls, the nearest one inside when it lies outside the frame. */
  function Pixel(v: real, size: int): int {
    (Clamp(v) * size as real).Floor
  }

  lemma PixelIsFloor(v: real, size: int)
    requires size > 0
    ensures PixelOf(v, size) == Pixel(v, size)
  {
    PixelOfAny(v, size);
    hide PixelOf, Clamp;
  }

  lemma PixelOrder(a: real, b: real, size: int)
    requires size > 0 && a <= b
    ensures Pixel(a, size) <= Pixel(b, size)
  {
    ClampOrder(a, b);
    hide Clamp;
    ScaledOrder(Clamp(a), Clamp(b), size as real);
  }

  /** lo and hi are the lowest and the highest pixel of any of the coordinates. */
  ghost predicate Spans(xs: seq<real>, size: int, lo: int, hi: int) {
    && (exists x :: x in xs && Pixel(x, size) == lo)
    && (exists x :: x in xs && Pixel(x, size) == hi)
    && (forall x | x in xs :: lo <= Pixel(x, size) <= hi)
  }

  lemma ExtremesSpan(xs: seq<real>, size: int)
    requires size > 0 && xs != []
    ensures Spans(xs, size, PixelOf(Least(xs), size), PixelOf(Greatest(xs), size))
  {
    hide Least, Greatest, PixelOf, Pixel;
    var a, b := Least(xs), Greatest(xs);
    PixelIsFloor(a, size);
    PixelIsFloor(b, size);
    forall x | x in xs
      ensures Pixel(a, size) <= Pixel(x, size) <= Pixel(b, size)
    {
      PixelOrder(a, x, size);
      PixelOrder(x, b, size);
    }
  }

  /** No two of the coordinates lie 8 pixels apart. */
  ghost predicate Narrow(xs: seq<real>, size: int) {
    forall x, y | x in xs && y in xs :: Pixel(y, size) - Pixel(x, size) < 8
  }

  lemma NarrowSpan(xs: seq<real>, size: int, lo: int, hi: int)
    requires Spans(xs, size, lo, hi)
    ensures Narrow(xs, size) <==> hi - lo < 8
  {
    hide Pixel;
  }

  /** The crop is the whole frame when there is no ROI, or one of fewer than two points or of points too close on one axis;
      otherwise its edges are, on each axis, the lowest and the highest pixel of any ROI point. */
  lemma CropIsTight(roi: Option<seq<Point>>, w: int, h: int)
    requires w > 0 && h > 0
    ensures
      var c := CropOf(roi, w, h);
      if roi.None? || |roi.value| < 2 || Narrow(Xs(roi.value), w) || Narrow(Ys(roi.value), h) then c == Crop(0, 0, w, h)
      else Spans(Xs(roi.value), w, c.x1, c.x1 + c.cw) && Spans(Ys(roi.value), h, c.y1, c.y1 + c.ch)
  {
    hide Least, Greatest, PixelOf, Spans, Narrow;
    if roi.Some? && |roi.value| >= 2 {
      var xs, ys := Xs(roi.value), Ys(roi.value);
      ExtremesSpan(xs, w);
      ExtremesSpan(ys, h);
      NarrowSpan(xs, w, PixelOf(Least(xs), w), PixelOf(Greatest(xs), w));
      NarrowSpan(ys, h, PixelOf(Least(ys), h), PixelOf(Greatest(ys), h));
    }
  }

  // Letterbox.

  datatype Letterbox = Letterbox(ratio: real, newW: int, newH: int, padX: int, padY: int)

  function Resized(n: int, ratio: real): int {
    Round(n as real * ratio)
  }

  function LetterboxOf(w: int, h: int, mw: int, mh: int): Letterbox
    requires w > 0 && h > 0
  {
    var r := Min(mh as real / h as real, mw as real / w as real);
    var newH, newW := Resized(h, r), Resized(w, r);
    Letterbox(r, newW, newH, (mw - newW) / 2, (mh - newH) / 2)
  }

  lemma RatioBound(n: int, m: int, r: real)
    requires n > 0 && r <= m as real / n as real
    ensures n as real * r <= m as real
    ensures r == m as real / n as real ==> n as real * r == m as real
  {
    var q := m as real / n as real;
    assert n as real * q == m as real;
    assert n as real * r <= n as real * q;
  }

  lemma RoundBelow(x: real, m: int)
    requires 0.0 <= x <= m as real
    ensures 0 <= Round(x) <= m
    ensures x == m as real ==> Round(x) == m
  {
  }

  lemma AxisFits(n: int, m: int, r: real)
    requires n > 0 && 0.0 < r <= m as real / n as real
    ensures 0 <= Resized(n, r) <= m
    ensures r == m as real / n as real ==> Resized(n, r) == m
  {
    hide Round;
    RatioBound(n, m, r);
    MulPositive(n as real, r);
    RoundBelow(n as real * r, m);
  }

  lemma QuotientPositive(m: int, n: int)
    requires m > 0 && n > 0
    ensures m as real / n as real > 0.0
  {
  }

  /** The resized image lies in the middle of the canvas, to half a pixel, with non-negative padding, and one direction
      has none. */
  lemma LetterboxFits(w: int, h: int, mw: int, mh: int)
    requires w > 0 && h > 0 && mw > 0 && mh > 0
    ensures
      var l := LetterboxOf(w, h, mw, mh);
      && l.ratio > 0.0
      && 0 <= l.padX && l.padX + l.newW <= mw && 0 <= l.newW
      && 0 <= l.padY && l.padY + l.newH <= mh && 0 <= l.newH
      && (l.padX == 0 || l.padY == 0)
    ensures
      var l := LetterboxOf(w, h, mw, mh);
      0 <= mw - (2 * l.padX + l.newW) <= 1 && 0 <= mh - (2 * l.padY + l.newH) <= 1
  {
    var a, b := mh as real / h as real, mw as real / w as real;
    QuotientPositive(mh, h);
    QuotientPositive(mw, w);
    hide Resized;
    var l := LetterboxOf(w, h, mw, mh);
    assert l.ratio == Min(a, b);
    AxisFits(h, mh, l.ratio);
    AxisFits(w, mw, l.ratio);
    HalfPad(mw, l.newW);
    HalfPad(mh, l.newH);
  }

  lemma HalfPad(m: int, n: int)
    requires n <= m
    ensures 0 <= (m - n) / 2 <= m - n && 0 <= m - (2 * ((m - n) / 2) + n) <= 1
    ensures n == m ==> (m - n) / 2 == 0
  {
  }

  // One coordinate, there and back.

  /** Where cropped pixel x lands on the canvas when the image is scaled by exactly the ratio. */
  function ToModelIdeal(x: real, ratio: real, pad: int): real {
    x * ratio + pad as real
  }

  /** Where it lands when the image of n pixels is resized to newN whole pixels. */
  function ToModelResized(x: real, n: int, newN: int, pad: int): real
    requires n > 0
  {
    x * (newN as real / n as real) + pad as real
  }

  /** The decoder: undo padding and ratio, normalise to the crop, clamp. */
  function FromModel(x: real, ratio: real, pad: int, n: int): real
    requires ratio > 0.0 && n > 0
  {
    Clamp((x - pad as real) / ratio / n as real)
  }

  /** Crop-normalised to frame-normalised. */
  function RemapAxis(v: real, size: int, start: int, frame: int): real
    requires frame > 0
  {
    (v * size as real + start as real) * (1.0 / frame as real)
  }

  lemma Undo(x: real, r: real)
    requires r > 0.0
    ensures x * r / r == x
  {
  }

  /** A frame coordinate inside the crop comes back unchanged through an ideally scaled letterbox. */
  lemma RoundTripExact(v: real, start: int, size: int, frame: int, ratio: real, pad: int)
    requires ratio > 0.0 && 0 <= start && 0 < size && start + size <= frame
    requires start as real <= v * frame as real <= (start + size) as real
    ensures
      var x := v * frame as real - start as real;
      RemapAxis(FromModel(ToModelIdeal(x, ratio, pad), ratio, pad, size), size, start, frame) == v
  {
    var n := size as real;
    var x := v * frame as real - start as real;
    var y := ToModelIdeal(x, ratio, pad) - pad as real;
    assert y == x * ratio;
    Undo(x, ratio);
    WithinUnit(x, n);
    assert x / n * n == x;
    Undo(v, frame as real);
    assert (x + start as real) * (1.0 / frame as real) == v * frame as real / frame as real;
  }

  lemma WithinUnit(x: real, n: real)
    requires n > 0.0 && 0.0 <= x <= n
    ensures 0.0 <= x / n <= 1.0
  {
    DivBounds(x, n);
  }

  lemma HalfOfFraction(f: real, d: real)
    requires 0.0 <= f <= 1.0 && -0.5 <= d <= 0.5
    ensures -0.5 <= f * d <= 0.5
  {
    if d >= 0.0 {
      MulMono(f, d, 1.0, 0.5);
    } else {
      MulMono(f, -d, 1.0, 0.5);
      assert f * -d == -(f * d);
    }
  }

  lemma HalfOver(g: real, r: real)
    requires r > 0.0 && -0.5 <= g <= 0.5
    ensures -(0.5 / r) <= g / r <= 0.5 / r
  {
    DivMonotone(g, 0.5, r);
    DivMonotone(-0.5, g, r);
    assert -0.5 / r == -(0.5 / r);
  }

  /** The stretch a whole-pixel resize puts on pixel x, measured back in image pixels. */
  lemma ResizeError(x: real, n: int, newN: int, ratio: real)
    requires ratio > 0.0 && n > 0 && 0.0 <= x <= n as real
    requires -0.5 <= newN as real - n as real * ratio <= 0.5
    ensures
      var back := x * (newN as real / n as real) / ratio;
      -(0.5 / ratio) <= back - x <= 0.5 / ratio
  {
    var f, d := x / n as real, newN as real - n as real * ratio;
    assert 0.0 <= f <= 1.0 by { WithinUnit(x, n as real); }
    assert x * (newN as real / n as real) / ratio - x == f * d / ratio by {
      StretchOf(x, n as real, newN as real, ratio);
    }
    var g := f * d;
    assert -0.5 <= g <= 0.5 by { HalfOfFraction(f, d); }
    HalfOver(g, ratio);
  }

  lemma DivMonotone(a: real, b: real, r: real)
    requires r > 0.0 && a <= b
    ensures a / r <= b / r
  {
  }

  lemma StretchOf(x: real, n: real, m: real, ratio: real)
    requires n > 0.0 && ratio > 0.0
    ensures x * (m / n) / ratio - x == (x / n) * (m - n * ratio) / ratio
  {
    var f := x / n;
    assert x == f * n;
    assert x * (m / n) == f * m;
    assert f * m - f * (n * ratio) == f * (m - n * ratio);
    assert f * (n * ratio) == x * ratio;
    Undo(x, ratio);
  }

  lemma ClampNearer(y: real, x: real, e: real)
    requires 0.0 <= x <= 1.0 && -e <= y - x <= e
    ensures -e <= Clamp(y) - x <= e
  {
  }

  /** How far u is from v in a frame of that many pixels. */
  function Pixels(u: real, v: real, frame: int): real {
    (u - v) * frame as real
  }

  ghost predicate Within(d: real, e: real) {
    -e <= d <= e
  }

  /** Clamp and remap carry an error of e pixels in the crop to at most e pixels in the frame. */
  lemma CarryError(x: real, y: real, v: real, size: int, start: int, frame: int, e: real)
    requires 0 < size && 0 < frame && 0.0 <= x <= size as real && Within(y - x, e)
    requires x == v * frame as real - start as real
    ensures Within(Pixels(RemapAxis(Clamp(y / size as real), size, start, frame), v, frame), e)
  {
    hide Clamp;
    var n := size as real;
    WithinUnit(x, n);
    ScaleError(x, y, n, e);
    ClampNearer(y / n, x / n, e / n);
    var u := Clamp(y / n);
    UnscaleError(u, x, n, e);
    RemapError(u, x, v, n, start as real, frame as real);
  }

  /** Decoding an edge of the resized image: the unclamped value, in crop pixels. */
  lemma DecodedResized(x: real, size: int, newSize: int, ratio: real, pad: int) returns (y: real)
    requires ratio > 0.0 && 0 < size && newSize == Resized(size, ratio) && 0.0 <= x <= size as real
    ensures Within(y - x, 0.5 / ratio)
    ensures FromModel(ToModelResized(x, size, newSize, pad), ratio, pad, size) == Clamp(y / size as real)
  {
    hide Clamp;
    assert -0.5 <= newSize as real - size as real * ratio <= 0.5;
    hide Resized;
    var z := x * (newSize as real / size as real);
    y := z / ratio;
    ResizeError(x, size, newSize, ratio);
    assert ToModelResized(x, size, newSize, pad) - pad as real == z;
  }

  /** With the image resized to whole pixels, a decoded edge is off by at most 0.5/ratio frame pixels. */
  lemma RoundTripError(v: real, start: int, size: int, frame: int, newSize: int, ratio: real, pad: int)
    requires ratio > 0.0 && 0 <= start && 0 < size && start + size <= frame
    requires newSize == Resized(size, ratio)
    requires start as real <= v * frame as real <= (start + size) as real
    ensures
      var x := v * frame as real - start as real;
      var back := RemapAxis(FromModel(ToModelResized(x, size, newSize, pad), ratio, pad, size), size, start, frame);
      Within(Pixels(back, v, frame), 0.5 / ratio)
  {
    hide *;
    var x := v * frame as real - start as real;
    var y := DecodedResized(x, size, newSize, ratio, pad);
    CarryError(x, y, v, size, start, frame, 0.5 / ratio);
  }

  lemma ScaleError(x: real, y: real, n: real, e: real)
    requires n > 0.0 && -e <= y - x <= e
    ensures -(e / n) <= y / n - x / n <= e / n
  {
    DivMonotone(y - x, e, n);
    DivMonotone(-e, y - x, n);
    assert (y - x) / n == y / n - x / n;
    assert -e / n == -(e / n);
  }

  lemma UnscaleError(u: real, x: real, n: real, e: real)
    requires n > 0.0 && -(e / n) <= u - x / n <= e / n
    ensures -e <= u * n - x <= e
  {
    assert (u - x / n) * n == u * n - x;
    assert (e / n) * n == e;
    assert (u - x / n) * n <= (e / n) * n;
    assert -(e / n) * n <= (u - x / n) * n;
  }

  lemma RemapError(u: real, x: real, v: real, n: real, s: real, N: real)
    requires N > 0.0 && x == v * N - s
    ensures ((u * n + s) * (1.0 / N) - v) * N == u * n - x
  {
    var t := u * n + s;
    assert t * (1.0 / N) * N == t;
    assert (t * (1.0 / N) - v) * N == t * (1.0 / N) * N - v * N;
  }

  // Boxes.

  function Remap(b: Box, c: Crop, w: int, h: int): Box
    requires w > 0 && h > 0
  {
    Box(RemapAxis(b.x1, c.cw, c.x1, w), RemapAxis(b.y1, c.ch, c.y1, h),
        RemapAxis(b.x2, c.cw, c.x1, w), RemapAxis(b.y2, c.ch, c.y1, h))
  }

  function RemapMap(c: Crop, w: int, h: int): Affine
    requires w > 0 && h > 0
  {
    Affine(Axis(c.cw as real / w as real, c.x1 as real / w as real), Axis(c.ch as real / h as real, c.y1 as real / h as real))
  }

  lemma RemapAxisIsAffine(v: real, size: int, start: int, frame: int)
    requires frame > 0
    ensures RemapAxis(v, size, start, frame) == Axis(size as real / frame as real, start as real / frame as real).At(v)
  {
    var k := 1.0 / frame as real;
    assert size as real / frame as real == size as real * k;
    assert start as real / frame as real == start as real * k;
    assert (v * size as real + start as real) * k == v * (size as real * k) + start as real * k;
  }

  /** The remap is one positive scaling and translation per axis, so it changes no overlap ratio. */
  lemma RemapKeepsIou(a: Box, b: Box, c: Crop, w: int, h: int)
    requires w > 0 && h > 0 && c.cw > 0 && c.ch > 0
    ensures Iou(Remap(a, c, w, h), Remap(b, c, w, h)) == Iou(a, b)
  {
    hide Iou, RemapAxis, Axis.At;
    var f := RemapMap(c, w, h);
    RemapIsAffine(a, c, w, h);
    RemapIsAffine(b, c, w, h);
    assert f.Valid();
    IouAffineInvariant(f, a, b);
  }

  lemma RemapIsAffine(b: Box, c: Crop, w: int, h: int)
    requires w > 0 && h > 0
    ensures Remap(b, c, w, h) == RemapMap(c, w, h).Apply(b)
  {
    hide RemapAxis, Axis.At;
    RemapAxisIsAffine(b.x1, c.cw, c.x1, w);
    RemapAxisIsAffine(b.x2, c.cw, c.x1, w);
    RemapAxisIsAffine(b.y1, c.ch, c.y1, h);
    RemapAxisIsAffine(b.y2, c.ch, c.y1, h);
  }

  /** A box with an interior, inside the unit square. */
  predicate Proper(b: Box) {
    0.0 <= b.x1 < b.x2 <= 1.0 && 0.0 <= b.y1 < b.y2 <= 1.0
  }

  /** Pixel p as a frame coordinate. */
  function Norm(p: int, frame: int): real
    requires frame > 0
  {
    p as real / frame as real
  }

  lemma RemapAxisBounds(v: real, u: real, size: int, start: int, frame: int)
    requires 0.0 <= v < u <= 1.0 && 0 <= start && 0 < size && start + size <= frame
    ensures 0.0 <= Norm(start, frame) <= RemapAxis(v, size, start, frame) < RemapAxis(u, size, start, frame)
    ensures RemapAxis(u, size, start, frame) <= Norm(start + size, frame) <= 1.0
  {
    hide Norm, RemapAxis, Remapped;
    RealBounds(v, u, size as real, start as real, (start + size) as real, frame as real);
    RemappedAs(v, size, start, frame);
    RemappedAs(u, size, start, frame);
    NormAs(start, frame);
    NormAs(start + size, frame);
  }

  function Remapped(v: real, n: real, s: real, N: real): real
    requires N > 0.0
  {
    (v * n + s) * (1.0 / N)
  }

  function Quotient(a: real, n: real): real
    requires n > 0.0
  {
    a / n
  }

  lemma RemappedAs(v: real, size: int, start: int, frame: int)
    requires frame > 0
    ensures RemapAxis(v, size, start, frame) == Remapped(v, size as real, start as real, frame as real)
  {
  }

  lemma NormAs(p: int, frame: int)
    requires frame > 0
    ensures Norm(p, frame) == Quotient(p as real, frame as real)
  {
  }

  lemma RealBounds(v: real, u: real, n: real, s: real, e: real, N: real)
    requires 0.0 <= v < u <= 1.0 && n > 0.0 && 0.0 <= s && e == s + n && e <= N
    ensures 0.0 <= Quotient(s, N) <= Remapped(v, n, s, N) < Remapped(u, n, s, N) <= Quotient(e, N) <= 1.0
  {
    PixelBounds(v, u, n, s);
    var a, b := v * n + s, u * n + s;
    assert 0.0 <= s <= a;
    assert a < b <= e;
    NormBounds(s, a, b, e, N);
  }

  lemma PixelBounds(v: real, u: real, n: real, s: real)
    requires 0.0 <= v < u <= 1.0 && n > 0.0
    ensures s <= v * n + s < u * n + s <= s + n
  {
    ScaleOrder(0.0, v, n);
    ScaleOrder(v, u, n);
    ScaleOrder(u, 1.0, n);
  }

  lemma NormBounds(s: real, a: real, b: real, e: real, n: real)
    requires 0.0 <= s <= a < b <= e <= n && n > 0.0
    ensures 0.0 <= s / n <= a * (1.0 / n) < b * (1.0 / n) <= e / n <= 1.0
  {
    var k := 1.0 / n;
    Reciprocal(n);
    DivideByScaling(s, n);
    DivideByScaling(e, n);
    ScaleOrder(0.0, s, k);
    ScaleOrder(s, a, k);
    ScaleOrder(a, b, k);
    ScaleOrder(b, e, k);
    ScaleOrder(e, n, k);
  }

  lemma Reciprocal(n: real)
    requires n > 0.0
    ensures 1.0 / n > 0.0 && n * (1.0 / n) == 1.0
  {
  }

  lemma DivideByScaling(v: real, n: real)
    requires n > 0.0
    ensures v / n == v * (1.0 / n)
  {
    var q, k := v / n, 1.0 / n;
    assert q * n == v && n * k == 1.0;
    assert (q * n) * k == q * (n * k);
  }

  /** A proper crop-relative box stays proper, and inside the crop, in the frame. */
  lemma RemapStaysProper(b: Box, c: Crop, w: int, h: int)
    requires Proper(b) && InFrame(c, w, h)
    ensures
      var r := Remap(b, c, w, h);
      && Proper(r)
      && Norm(c.x1, w) <= r.x1 && r.x2 <= Norm(c.x1 + c.cw, w)
      && Norm(c.y1, h) <= r.y1 && r.y2 <= Norm(c.y1 + c.ch, h)
  {
    hide RemapAxis, Norm;
    RemapAxisBounds(b.x1, b.x2, c.cw, c.x1, w);
    RemapAxisBounds(b.y1, b.y2, c.ch, c.y1, h);
  }
}
