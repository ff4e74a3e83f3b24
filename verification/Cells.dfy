/** The overlap ratio by counting: boxes as sets of grid cells. */
module Cells {
  import opened Geometry
  import opened Coordinates

  /** A box with corners on a grid. */
  datatype Rect = Rect(x1: int, y1: int, x2: int, y2: int)

  datatype Spot = Spot(x: int, y: int)

  /** The grid cells inside it. */
  function CellsOf(r: Rect): (s: set<Spot>)
    ensures forall c :: c in s <==> r.x1 <= c.x < r.x2 && r.y1 <= c.y < r.y2
  {
    set x, y | r.x1 <= x < r.x2 && r.y1 <= y < r.y2 :: Spot(x, y)
  }

  /** The box, the grid having n columns and m rows to the unit. */
  function BoxOn(r: Rect, n: Positive, m: Positive): Box {
    Box(r.x1 as real / n as real, r.y1 as real / m as real, r.x2 as real / n as real, r.y2 as real / m as real)
  }

  function Whole(r: Rect): Box {
    Box(r.x1 as real, r.y1 as real, r.x2 as real, r.y2 as real)
  }

  function Length(lo: int, hi: int): nat {
    if hi <= lo then 0 else hi - lo
  }

  lemma {:induction false} ColumnCount(x: int, lo: int, hi: int)
    ensures |CellsOf(Rect(x, lo, x + 1, hi))| == Length(lo, hi)
    decreases Length(lo, hi)
  {
    var column := CellsOf(Rect(x, lo, x + 1, hi));
    if hi <= lo {
      assert column == {};
    } else {
      ColumnCount(x, lo, hi - 1);
      assert column == CellsOf(Rect(x, lo, x + 1, hi - 1)) + {Spot(x, hi - 1)};
    }
  }

  lemma {:induction false} CellCount(r: Rect)
    ensures |CellsOf(r)| == Length(r.x1, r.x2) * Length(r.y1, r.y2)
    decreases Length(r.x1, r.x2)
  {
    if r.x2 <= r.x1 {
      assert CellsOf(r) == {};
    } else {
      CellCount(r.(x2 := r.x2 - 1));
      ColumnCount(r.x2 - 1, r.y1, r.y2);
      LastColumn(r);
      hide CellsOf;
      OneMore(Length(r.x1, r.x2 - 1), Length(r.y1, r.y2));
    }
  }

  lemma LastColumn(r: Rect)
    requires r.x1 < r.x2
    ensures |CellsOf(r)| == |CellsOf(r.(x2 := r.x2 - 1))| + |CellsOf(Rect(r.x2 - 1, r.y1, r.x2, r.y2))|
  {
    var rest, column := CellsOf(r.(x2 := r.x2 - 1)), CellsOf(Rect(r.x2 - 1, r.y1, r.x2, r.y2));
    assert CellsOf(r) == rest + column;
    assert rest * column == {};
  }

  lemma OneMore(w: nat, h: nat)
    ensures (w + 1) * h == w * h + h
  {
  }

  function Meet(a: Rect, b: Rect): Rect {
    Rect(if a.x1 >= b.x1 then a.x1 else b.x1, if a.y1 >= b.y1 then a.y1 else b.y1,
         if a.x2 <= b.x2 then a.x2 else b.x2, if a.y2 <= b.y2 then a.y2 else b.y2)
  }

  lemma MeetCells(a: Rect, b: Rect)
    ensures CellsOf(Meet(a, b)) == CellsOf(a) * CellsOf(b)
  {
  }

  lemma Product(w: nat, h: nat)
    ensures w as real * h as real == (w * h) as real
  {
  }

  lemma AreaCounts(a: Rect)
    ensures Area(Whole(a)) == |CellsOf(a)| as real
  {
    CellCount(a);
    Product(Length(a.x1, a.x2), Length(a.y1, a.y2));
  }

  lemma MeetArea(a: Rect, b: Rect)
    ensures Overlap(Whole(a), Whole(b)) == Area(Whole(Meet(a, b)))
  {
  }

  lemma OverlapCounts(a: Rect, b: Rect)
    ensures Overlap(Whole(a), Whole(b)) == |CellsOf(a) * CellsOf(b)| as real
  {
    hide *;
    MeetCells(a, b);
    MeetArea(a, b);
    AreaCounts(Meet(a, b));
  }

  lemma UnionCounts(a: Rect, b: Rect)
    ensures Union(Whole(a), Whole(b)) == |CellsOf(a) + CellsOf(b)| as real
  {
    AreaCounts(a);
    AreaCounts(b);
    OverlapCounts(a, b);
    hide CellsOf, Area, Overlap;
  }

  lemma WholeRatio(a: Rect, b: Rect)
    ensures Iou(Whole(a), Whole(b)) * |CellsOf(a) + CellsOf(b)| as real == |CellsOf(a) * CellsOf(b)| as real
    ensures CellsOf(a) * CellsOf(b) == {} ==> Iou(Whole(a), Whole(b)) == 0.0
  {
    OverlapCounts(a, b);
    UnionCounts(a, b);
    hide Whole, Overlap, Union, CellsOf;
    var both, some := CellsOf(a) * CellsOf(b), CellsOf(a) + CellsOf(b);
    if some == {} {
      assert both <= some;
      assert both == {};
    } else {
      Divided(|both| as real, |some| as real);
      assert Iou(Whole(a), Whole(b)) == |both| as real / |some| as real;
    }
  }

  lemma Divided(n: real, d: real)
    requires d > 0.0
    ensures n / d * d == n && (n == 0.0 ==> n / d == 0.0)
  {
  }

  /** The overlap ratio is intersection over union: the cells in both boxes, divided by those in at least one. The corners
      may lie on any grid, so this covers all rational ones; boxes without a common cell have no overlap. */
  lemma IouCountsCells(a: Rect, b: Rect, n: Positive, m: Positive)
    ensures Iou(BoxOn(a, n, m), BoxOn(b, n, m)) * |CellsOf(a) + CellsOf(b)| as real == |CellsOf(a) * CellsOf(b)| as real
    ensures CellsOf(a) * CellsOf(b) == {} ==> Iou(BoxOn(a, n, m), BoxOn(b, n, m)) == 0.0
  {
    hide *;
    var f := Affine(Axis(n as real, 0.0), Axis(m as real, 0.0));
    WholeRatio(a, b);
    GridScales(a, n, m);
    GridScales(b, n, m);
    IouAffineInvariant(f, BoxOn(a, n, m), BoxOn(b, n, m));
  }

  lemma GridScales(r: Rect, n: Positive, m: Positive)
    ensures
      var f := Affine(Axis(n as real, 0.0), Axis(m as real, 0.0));
      f.Valid() && f.Apply(BoxOn(r, n, m)) == Whole(r)
  {
  }
}
