/** Axis-aligned boxes and their overlap ratio. */
module Geometry {

  datatype Box = Box(x1: real, y1: real, x2: real, y2: real)

  function Max(a: real, b: real): real {
    if a >= b then a else b
  }

  function Min(a: real, b: real): real {
    if a <= b then a else b
  }

  /** Length of the interval from lo to hi, 0 when it is reversed. */
  function Span(lo: real, hi: real): real {
    Max(hi - lo, 0.0)
  }

  function Area(a: Box): real {
    Span(a.x1, a.x2) * Span(a.y1, a.y2)
  }

  function MeetWidth(a: Box, b: Box): real {
    Span(Max(a.x1, b.x1), Min(a.x2, b.x2))
  }

  function MeetHeight(a: Box, b: Box): real {
    Span(Max(a.y1, b.y1), Min(a.y2, b.y2))
  }

  function Overlap(a: Box, b: Box): real {
    MeetWidth(a, b) * MeetHeight(a, b)
  }

  function Union(a: Box, b: Box): real {
    Area(a) + Area(b) - Overlap(a, b)
  }

  /** The divisor stays positive on zero-area boxes. */
  const UNION_FLOOR := 0.000000001

  function Iou(a: Box, b: Box): real {
    var u := Union(a, b);
    Overlap(a, b) / (if u <= 0.0 then UNION_FLOOR else u)
  }

  lemma MulMono(a: real, b: real, c: real, d: real)
    requires 0.0 <= a <= c && 0.0 <= b <= d
    ensures 0.0 <= a * b <= c * d
  {
    assert a * b <= a * d;
    assert a * d <= c * d;
  }

  lemma OverlapBounds(a: Box, b: Box)
    ensures 0.0 <= Overlap(a, b) <= Area(a)
    ensures Overlap(a, b) <= Area(b)
  {
    var w, h := MeetWidth(a, b), MeetHeight(a, b);
    assert 0.0 <= w <= Span(a.x1, a.x2) && w <= Span(b.x1, b.x2);
    assert 0.0 <= h <= Span(a.y1, a.y2) && h <= Span(b.y1, b.y2);
    hide Span, MeetWidth, MeetHeight;
    MulMono(w, h, Span(a.x1, a.x2), Span(a.y1, a.y2));
    MulMono(w, h, Span(b.x1, b.x2), Span(b.y1, b.y2));
  }

  lemma DivBounds(n: real, d: real)
    requires 0.0 <= n <= d && 0.0 < d
    ensures 0.0 <= n / d <= 1.0
  {
    var q := n / d;
    assert q * d == n;
    if q < 0.0 {
      MulPositive(-q, d);
      assert false;
    }
    if q > 1.0 {
      MulPositive(q - 1.0, d);
      assert false;
    }
  }

  lemma MulPositive(a: real, b: real)
    requires a > 0.0 && b > 0.0
    ensures a * b > 0.0
  {
  }

  lemma ScaleOrder(a: real, b: real, k: real)
    requires k > 0.0
    ensures a < b ==> a * k < b * k
    ensures a <= b ==> a * k <= b * k
  {
    if a < b {
      MulPositive(b - a, k);
      assert (b - a) * k == b * k - a * k;
    }
  }

  /** Every ratio lies in [0,1], reversed and empty boxes included. */
  lemma IouInUnitInterval(a: Box, b: Box)
    ensures 0.0 <= Iou(a, b) <= 1.0
  {
    OverlapBounds(a, b);
    if Union(a, b) > 0.0 {
      DivBounds(Overlap(a, b), Union(a, b));
    }
  }

  lemma IouSymmetric(a: Box, b: Box)
    ensures Iou(a, b) == Iou(b, a)
  {
    assert Overlap(a, b) == Overlap(b, a);
    assert Union(a, b) == Union(b, a);
  }

  /** A box with an interior overlaps itself completely. */
  lemma IouSelf(a: Box)
    requires a.x1 < a.x2 && a.y1 < a.y2
    ensures Iou(a, a) == 1.0
  {
    MulPositive(a.x2 - a.x1, a.y2 - a.y1);
    var u := Union(a, a);
    assert Overlap(a, a) == Area(a) == u > 0.0;
    assert u / u == 1.0;
  }

  /** The ratio is positive exactly when the interiors meet. */
  lemma IouPositiveIff(a: Box, b: Box)
    ensures Iou(a, b) > 0.0 <==>
      Max(a.x1, b.x1) < Min(a.x2, b.x2) && Max(a.y1, b.y1) < Min(a.y2, b.y2)
  {
    var w, h := MeetWidth(a, b), MeetHeight(a, b);
    IouInUnitInterval(a, b);
    OverlapBounds(a, b);
    if w > 0.0 && h > 0.0 {
      MulPositive(w, h);
      assert Iou(a, b) * Union(a, b) == Overlap(a, b);
    } else {
      assert Overlap(a, b) == 0.0;
    }
  }

  /** Scaling and translation of one axis. */
  datatype Axis = Axis(scale: real, shift: real) {
    predicate Valid() {
      scale > 0.0
    }

    function At(v: real): real {
      v * scale + shift
    }
  }

  /** Each axis is scaled and translated on its own. */
  datatype Affine = Affine(x: Axis, y: Axis) {
    predicate Valid() {
      x.Valid() && y.Valid()
    }

    function Apply(b: Box): Box {
      Box(x.At(b.x1), y.At(b.y1), x.At(b.x2), y.At(b.y2))
    }
  }

  lemma AxisMonotone(f: Axis, a: real, b: real)
    requires f.Valid()
    ensures a < b <==> f.At(a) < f.At(b)
  {
    if a < b {
      MulPositive(b - a, f.scale);
      assert b * f.scale - a * f.scale == (b - a) * f.scale;
    } else if b < a {
      MulPositive(a - b, f.scale);
      assert a * f.scale - b * f.scale == (a - b) * f.scale;
    }
  }

  lemma AxisOrder(f: Axis, a: real, b: real)
    requires f.Valid()
    ensures Max(f.At(a), f.At(b)) == f.At(Max(a, b))
    ensures Min(f.At(a), f.At(b)) == f.At(Min(a, b))
  {
    AxisMonotone(f, a, b);
    AxisMonotone(f, b, a);
  }

  lemma AxisSpan(f: Axis, lo: real, hi: real)
    requires f.Valid()
    ensures Span(f.At(lo), f.At(hi)) == Span(lo, hi) * f.scale
  {
    assert f.At(hi) - f.At(lo) == (hi - lo) * f.scale;
    AxisMonotone(f, lo, hi);
  }

  lemma AxisMeet(f: Axis, lo: real, lo': real, hi: real, hi': real)
    requires f.Valid()
    ensures Span(Max(f.At(lo), f.At(lo')), Min(f.At(hi), f.At(hi'))) == Span(Max(lo, lo'), Min(hi, hi')) * f.scale
  {
    hide Axis.At, Max, Min;
    AxisOrder(f, lo, lo');
    AxisOrder(f, hi, hi');
    AxisSpan(f, Max(lo, lo'), Min(hi, hi'));
  }

  lemma ProductScales(w: real, h: real, sx: real, sy: real, w': real, h': real)
    requires w' == w * sx && h' == h * sy
    ensures w' * h' == (w * h) * (sx * sy)
  {
    assert (w * sx) * (h * sy) == (w * h) * (sx * sy);
  }

  lemma AreaScales(f: Affine, a: Box)
    requires f.Valid()
    ensures Area(f.Apply(a)) == Area(a) * (f.x.scale * f.y.scale)
  {
    hide Axis.At, Span;
    var b := f.Apply(a);
    AxisSpan(f.x, a.x1, a.x2);
    AxisSpan(f.y, a.y1, a.y2);
    ProductScales(Span(a.x1, a.x2), Span(a.y1, a.y2), f.x.scale, f.y.scale, Span(b.x1, b.x2), Span(b.y1, b.y2));
  }

  lemma MeetScales(f: Affine, a: Box, b: Box)
    requires f.Valid()
    ensures MeetWidth(f.Apply(a), f.Apply(b)) == MeetWidth(a, b) * f.x.scale
    ensures MeetHeight(f.Apply(a), f.Apply(b)) == MeetHeight(a, b) * f.y.scale
  {
    hide Axis.At;
    AxisMeet(f.x, a.x1, b.x1, a.x2, b.x2);
    AxisMeet(f.y, a.y1, b.y1, a.y2, b.y2);
  }

  lemma OverlapScales(f: Affine, a: Box, b: Box)
    requires f.Valid()
    ensures Overlap(f.Apply(a), f.Apply(b)) == Overlap(a, b) * (f.x.scale * f.y.scale)
  {
    hide Affine.Apply, MeetWidth, MeetHeight;
    var c, d := f.Apply(a), f.Apply(b);
    MeetScales(f, a, b);
    ProductScales(MeetWidth(a, b), MeetHeight(a, b), f.x.scale, f.y.scale, MeetWidth(c, d), MeetHeight(c, d));
  }

  lemma CancelScale(n: real, d: real, k: real)
    requires d > 0.0 && k > 0.0
    ensures d * k > 0.0 && (n * k) / (d * k) == n / d
  {
    MulPositive(d, k);
    var q := n / d;
    assert q * d == n;
    assert q * (d * k) == n * k;
  }

  lemma ScaleUnion(a: real, b: real, o: real, k: real)
    ensures a * k + b * k - o * k == (a + b - o) * k
  {
  }

  lemma RatioCancels(o: real, u: real, k: real)
    requires k > 0.0 && (u > 0.0 || (u == 0.0 && o == 0.0))
    ensures (o * k) / (if u * k <= 0.0 then UNION_FLOOR else u * k) == o / (if u <= 0.0 then UNION_FLOOR else u)
  {
    if u > 0.0 {
      CancelScale(o, u, k);
    }
  }

  /** The ratio of two boxes does not change when both go through the same map. */
  lemma IouAffineInvariant(f: Affine, a: Box, b: Box)
    requires f.Valid()
    ensures Iou(f.Apply(a), f.Apply(b)) == Iou(a, b)
  {
    hide Affine.Apply, Area, Overlap;
    var k := f.x.scale * f.y.scale;
    MulPositive(f.x.scale, f.y.scale);
    AreaScales(f, a);
    AreaScales(f, b);
    OverlapScales(f, a, b);
    ScaleUnion(Area(a), Area(b), Overlap(a, b), k);
    OverlapBounds(a, b);
    RatioCancels(Overlap(a, b), Union(a, b), k);
  }
}
