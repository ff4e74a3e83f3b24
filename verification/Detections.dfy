/** From model output to the boxes of a reply: decode, remap, region filter; and the class names. */
module Detections {
  import opened Options
  import opened Lists
  import opened Messages
  import opened Geometry
  import opened Coordinates
  import opened ByteTrack
  import opened Filtering
  import opened Text

  /** One row of the model's output, its box in canvas pixels. */
  datatype Row = Row(xyxy: Box, score: real, cls: int)

  function ViewOf(b: BoxRecord): Det
    reads b
  {
    Det(b.xyxy, b.score, b.cls)
  }

  function DetsOf(boxes: seq<BoxRecord>): (r: seq<Det>)
    reads boxes
    ensures |r| == |boxes|
    ensures forall i | 0 <= i < |boxes| :: r[i] == ViewOf(boxes[i])
  {
    if boxes == [] then [] else DetsOf(boxes[..|boxes| - 1]) + [ViewOf(boxes[|boxes| - 1])]
  }

  // Class filter.

  /** Absent or empty means no filter here; the empty list never gets this far. */
  predicate ClassWanted(filter: Option<seq<int>>, cls: int) {
    filter.Some? && filter.value != [] ==> cls in filter.value
  }

  function Selected(rows: seq<Row>, conf: real, filter: Option<seq<int>>): seq<Row> {
    if rows == [] then []
    else
      Selected(rows[..|rows| - 1], conf, filter) +
      (var r := rows[|rows| - 1]; if r.score >= conf && ClassWanted(filter, r.cls) then [r] else [])
  }

  /** Names to ids, in order, whatever their case and padding; unknown names are dropped. */
  function NamesToIds(table: map<string, nat>, names: seq<string>): seq<int> {
    if names == [] then []
    else
      NamesToIds(table, names[..|names| - 1]) +
      (var key := Key(names[|names| - 1]); if key in table then [table[key]] else [])
  }

  method TranslateNames(table: map<string, nat>, names: seq<string>) returns (ids: seq<int>)
    ensures ids == NamesToIds(table, names)
  {
    hide Key;
    ids := [];
    for i := 0 to |names|
      invariant ids == NamesToIds(table, names[..i])
    {
      assert names[..i + 1][..i] == names[..i];
      var key := Key(names[i]);
      if key in table {
        ids := ids + [table[key]];
      }
    }
    assert names[..|names|] == names;
  }

  /** The ids wanted are exactly those of the known names. */
  lemma {:induction false} NamesToIdsExact(table: map<string, nat>, names: seq<string>)
    ensures forall id :: id in NamesToIds(table, names) <==> exists n :: n in names && Key(n) in table && table[Key(n)] == id
    decreases |names|
  {
    hide Key;
    if names == [] {
    } else {
      var init, last := names[..|names| - 1], names[|names| - 1];
      NamesToIdsExact(table, init);
      assert names == init + [last];
      forall id
        ensures id in NamesToIds(table, names) <==> exists n :: n in names && Key(n) in table && table[Key(n)] == id
      {
        if n :| n in names && Key(n) in table && table[Key(n)] == id {
          assert n in init || n == last;
        }
      }
    }
  }

  // Decode.

  /** A model row as a box of the image the model was given; none when nothing is left of it inside the image. */
  function DecodeRow(r: Row, w0: int, h0: int, l: Letterbox): Option<Det>
    requires w0 > 0 && h0 > 0 && l.ratio > 0.0
  {
    var b := Box(FromModel(r.xyxy.x1, l.ratio, l.padX, w0), FromModel(r.xyxy.y1, l.ratio, l.padY, h0),
                 FromModel(r.xyxy.x2, l.ratio, l.padX, w0), FromModel(r.xyxy.y2, l.ratio, l.padY, h0));
    if b.x2 <= b.x1 || b.y2 <= b.y1 then None else Some(Det(b, r.score, r.cls))
  }

  function DecodeRows(rows: seq<Row>, w0: int, h0: int, l: Letterbox): (r: seq<Det>)
    requires w0 > 0 && h0 > 0 && l.ratio > 0.0
  {
    if rows == [] then []
    else
      DecodeRows(rows[..|rows| - 1], w0, h0, l) +
      (var d := DecodeRow(rows[|rows| - 1], w0, h0, l); if d.Some? then [d.value] else [])
  }

  /** The rows that non-maximum suppression kept, in its order; an end-to-end model keeps all. */
  function Picked(rows: seq<Row>, idxs: seq<nat>): (r: seq<Row>)
    requires forall i | i in idxs :: i < |rows|
    ensures |r| == |idxs| && forall k | 0 <= k < |idxs| :: idxs[k] < |rows| && r[k] == rows[idxs[k]]
  {
    assert forall k | 0 <= k < |idxs| :: idxs[k] in idxs;
    seq(|idxs|, k requires 0 <= k < |idxs| => rows[idxs[k]])
  }

  method DecodeBoxes(rows: seq<Row>, idxs: seq<nat>, w0: int, h0: int, l: Letterbox) returns (out: seq<BoxRecord>)
    requires w0 > 0 && h0 > 0 && l.ratio > 0.0
    requires forall i | i in idxs :: i < |rows|
    ensures DetsOf(out) == DecodeRows(Picked(rows, idxs), w0, h0, l)
    ensures Distinct(out) && forall b | b in out :: fresh(b)
  {
    hide DecodeRow, DetsOf;
    out := [];
    ghost var picked := Picked(rows, idxs);
    assert picked[..0] == [];
    ghost var done: seq<Det> := [];
    for k := 0 to |idxs|
      invariant done == DecodeRows(picked[..k], w0, h0, l)
      invariant |out| == |done| && forall i | 0 <= i < |out| :: ViewOf(out[i]) == done[i]
      invariant Distinct(out) && forall b | b in out :: fresh(b)
    {
      assert picked[..k + 1][..k] == picked[..k];
      assert idxs[k] in idxs;
      var d := DecodeRow(rows[idxs[k]], w0, h0, l);
      if d.Some? {
        var b := new BoxRecord(d.value.xyxy, d.value.score, d.value.cls);
        out := out + [b];
        done := done + [d.value];
      }
    }
    assert picked[..|idxs|] == picked;
  }

  /** Every decoded box is proper: positive sides, inside the unit square. */
  lemma {:induction false} DecodedAreProper(rows: seq<Row>, w0: int, h0: int, l: Letterbox)
    requires w0 > 0 && h0 > 0 && l.ratio > 0.0
    ensures forall d | d in DecodeRows(rows, w0, h0, l) :: Proper(d.xyxy) && exists r :: r in rows && r.score == d.score && r.cls == d.cls
    decreases |rows|
  {
    if rows == [] {
    } else {
      var init, last := rows[..|rows| - 1], rows[|rows| - 1];
      DecodedAreProper(init, w0, h0, l);
      assert rows == init + [last];
      forall d | d in DecodeRows(rows, w0, h0, l)
        ensures Proper(d.xyxy) && exists r :: r in rows && r.score == d.score && r.cls == d.cls
      {
        if d !in DecodeRows(init, w0, h0, l) {
          assert DecodeRow(last, w0, h0, l) == Some(d);
          assert last in rows;
        } else {
          var r :| r in init && r.score == d.score && r.cls == d.cls;
          assert r in rows;
        }
      }
    }
  }

  /** A row, if it is confident enough and of a wanted class. */
  function Wanting(conf: real, filter: Option<seq<int>>): Row -> Option<Row> {
    (r: Row) => if r.score >= conf && ClassWanted(filter, r.cls) then Some(r) else None
  }

  /** In order and each once, exactly the confident rows of a wanted class. */
  lemma {:induction false} SelectedExact(rows: seq<Row>, conf: real, filter: Option<seq<int>>)
    ensures Keeps(rows, Selected(rows, conf, filter), Wanting(conf, filter))
    ensures forall r :: r in Selected(rows, conf, filter) <==> r in rows && r.score >= conf && ClassWanted(filter, r.cls)
    decreases |rows|
  {
    if rows == [] {
      KeepsNothing(Wanting(conf, filter));
    } else {
      var init, last := rows[..|rows| - 1], rows[|rows| - 1];
      SelectedExact(init, conf, filter);
      hide Keeps;
      KeepsOneMore(init, Selected(init, conf, filter), Wanting(conf, filter), last);
      assert rows == init + [last];
    }
  }

  /** A row as a box, if something of it is left. */
  function Decoding(w0: int, h0: int, l: Letterbox): Row -> Option<Det>
    requires w0 > 0 && h0 > 0 && l.ratio > 0.0
  {
    (r: Row) => DecodeRow(r, w0, h0, l)
  }

  /** In order and each once, exactly the rows of which something is left inside the image. */
  lemma {:induction false} DecodedInOrder(rows: seq<Row>, w0: int, h0: int, l: Letterbox)
    requires w0 > 0 && h0 > 0 && l.ratio > 0.0
    ensures Keeps(rows, DecodeRows(rows, w0, h0, l), Decoding(w0, h0, l))
    decreases |rows|
  {
    var f := Decoding(w0, h0, l);
    if rows == [] {
      KeepsNothing(f);
    } else {
      var init, last := rows[..|rows| - 1], rows[|rows| - 1];
      DecodedInOrder(init, w0, h0, l);
      hide Keeps, DecodeRow;
      KeepsOneMore(init, DecodeRows(init, w0, h0, l), f, last);
      assert rows == init + [last];
    }
  }

  // Remap.

  function RemapDets(dets: seq<Det>, c: Crop, w: int, h: int): (r: seq<Det>)
    requires w > 0 && h > 0
    ensures |r| == |dets|
    ensures forall i | 0 <= i < |dets| :: r[i] == dets[i].(xyxy := Remap(dets[i].xyxy, c, w, h))
  {
    seq(|dets|, i requires 0 <= i < |dets| => dets[i].(xyxy := Remap(dets[i].xyxy, c, w, h)))
  }

  /** Every box record is rewritten in place from the crop to the frame. */
  method RemapBoxes(boxes: seq<BoxRecord>, c: Crop, w: int, h: int)
    requires w > 0 && h > 0 && Distinct(boxes)
    modifies boxes
    ensures DetsOf(boxes) == RemapDets(old(DetsOf(boxes)), c, w, h)
  {
    hide Remap, Distinct, DetsOf;
    ghost var before := DetsOf(boxes);
    for i := 0 to |boxes|
      invariant forall k | 0 <= k < |boxes| ::
        ViewOf(boxes[k]) == if k < i then before[k].(xyxy := Remap(before[k].xyxy, c, w, h)) else before[k]
    {
      DistinctElsewhere(boxes, i);
      boxes[i].xyxy := Remap(boxes[i].xyxy, c, w, h);
    }
  }

  /** An uncropped frame needs no remap: it would change nothing. */
  lemma RemapFullFrame(dets: seq<Det>, w: int, h: int)
    requires w > 0 && h > 0
    ensures RemapDets(dets, Crop(0, 0, w, h), w, h) == dets
  {
    forall i | 0 <= i < |dets|
      ensures Remap(dets[i].xyxy, Crop(0, 0, w, h), w, h) == dets[i].xyxy
    {
      var b := dets[i].xyxy;
      FullAxis(b.x1, w);
      FullAxis(b.x2, w);
      FullAxis(b.y1, h);
      FullAxis(b.y2, h);
    }
  }

  lemma FullAxis(v: real, size: int)
    requires size > 0
    ensures RemapAxis(v, size, 0, size) == v
  {
    Undo(v, size as real);
  }

  // Regions.

  type Polygon = seq<(int, int)>

  /** Point in polygon, boundary included: a library test taken as given. */
  type InsideTest = (Polygon, real, real) -> bool

  function VertexAxis(v: real, size: int): int {
    Trunc(Scaled(Clamp(v), size as real))
  }

  function Vertex(p: Point, w: int, h: int): (int, int) {
    (VertexAxis(p.x, w), VertexAxis(p.y, h))
  }

  function PixelPolygon(points: Option<seq<Point>>, w: int, h: int): Option<Polygon> {
    if points.None? || |points.value| < 3 then None
    else
      Some(seq(|points.value|, i requires 0 <= i < |points.value| => Vertex(points.value[i], w, h)))
  }

  /** p is the pixel in which the coordinate falls, one outside the frame counting as the nearest inside. */
  predicate FallsIn(v: real, p: int, size: int) {
    0.0 <= Clamp(v) * size as real - p as real < 1.0
  }

  /** Vertex by vertex, the pixel each point falls in. */
  lemma PolygonIsPixels(points: seq<Point>, w: int, h: int, k: nat)
    requires w > 0 && h > 0 && k < |points|
    ensures PixelPolygon(Some(points), w, h).Some? <==> |points| >= 3
    ensures |points| >= 3 ==>
      var polygon, p := PixelPolygon(Some(points), w, h).value, points[k];
      && |polygon| == |points|
      && FallsIn(p.x, polygon[k].0, w) && FallsIn(p.y, polygon[k].1, h)
  {
    hide Clamp, Vertex, FallsIn;
    VertexIsPixel(points[k], w, h);
  }

  lemma VertexIsPixel(p: Point, w: int, h: int)
    requires w > 0 && h > 0
    ensures FallsIn(p.x, Vertex(p, w, h).0, w) && FallsIn(p.y, Vertex(p, w, h).1, h)
  {
    hide FallsIn, VertexAxis;
    CoordinateFalls(p.x, w);
    CoordinateFalls(p.y, h);
  }

  lemma CoordinateFalls(v: real, size: int)
    requires size > 0
    ensures FallsIn(v, VertexAxis(v, size), size)
  {
    ScaledUnit(Clamp(v), size as real);
    hide Clamp, Trunc;
  }

  predicate PointIn(inside: InsideTest, polygon: Option<Polygon>, x: real, y: real) {
    polygon.Some? && inside(polygon.value, x, y)
  }

  /** In pixels, half way between the edges. */
  function Centre(lo: real, hi: real, size: int): (c: real)
    ensures 2.0 * c == lo * size as real + hi * size as real
  {
    (lo + hi) * 0.5 * size as real
  }

  /** The centre lies in the inclusive polygon, if there is one, and not in the exclusive one. */
  predicate Passes(inside: InsideTest, d: Det, w: int, h: int, inclusive: Option<Polygon>, exclusive: Option<Polygon>) {
    var cx, cy := Centre(d.xyxy.x1, d.xyxy.x2, w), Centre(d.xyxy.y1, d.xyxy.y2, h);
    (inclusive.Some? ==> PointIn(inside, inclusive, cx, cy)) && !PointIn(inside, exclusive, cx, cy)
  }

  function Passing(inside: InsideTest, dets: seq<Det>, w: int, h: int, inclusive: Option<Polygon>, exclusive: Option<Polygon>): seq<Det> {
    if dets == [] then []
    else
      Passing(inside, dets[..|dets| - 1], w, h, inclusive, exclusive) +
      (var d := dets[|dets| - 1]; if Passes(inside, d, w, h, inclusive, exclusive) then [d] else [])
  }

  lemma {:induction false} NothingToFilter(inside: InsideTest, dets: seq<Det>, w: int, h: int)
    ensures Passing(inside, dets, w, h, None, None) == dets
    decreases |dets|
  {
    if dets == [] {
    } else {
      NothingToFilter(inside, dets[..|dets| - 1], w, h);
    }
  }

  /** A box, if it passes. */
  function Admitting(inside: InsideTest, w: int, h: int, inclusive: Option<Polygon>, exclusive: Option<Polygon>): Det -> Option<Det> {
    (d: Det) => if Passes(inside, d, w, h, inclusive, exclusive) then Some(d) else None
  }

  /** In order and each once, exactly the boxes that pass. */
  lemma {:induction false} PassingExact(inside: InsideTest, dets: seq<Det>, w: int, h: int, inclusive: Option<Polygon>, exclusive: Option<Polygon>)
    ensures Keeps(dets, Passing(inside, dets, w, h, inclusive, exclusive), Admitting(inside, w, h, inclusive, exclusive))
    ensures forall d :: d in Passing(inside, dets, w, h, inclusive, exclusive) <==> d in dets && Passes(inside, d, w, h, inclusive, exclusive)
    decreases |dets|
  {
    var f := Admitting(inside, w, h, inclusive, exclusive);
    if dets == [] {
      KeepsNothing(f);
    } else {
      var init, last := dets[..|dets| - 1], dets[|dets| - 1];
      PassingExact(inside, init, w, h, inclusive, exclusive);
      hide Keeps, Passes;
      KeepsOneMore(init, Passing(inside, init, w, h, inclusive, exclusive), f, last);
      assert dets == init + [last];
    }
  }

  lemma DetsOfStep(boxes: seq<BoxRecord>, b: BoxRecord)
    ensures DetsOf(boxes + [b]) == DetsOf(boxes) + [ViewOf(b)]
  {
    assert (boxes + [b])[..|boxes|] == boxes;
  }

  lemma PassingNext(inside: InsideTest, dets: seq<Det>, i: nat, w: int, h: int, inclusive: Option<Polygon>, exclusive: Option<Polygon>)
    requires i < |dets|
    ensures Passing(inside, dets[..i + 1], w, h, inclusive, exclusive) ==
            Passing(inside, dets[..i], w, h, inclusive, exclusive) + if Passes(inside, dets[i], w, h, inclusive, exclusive) then [dets[i]] else []
  {
    hide Passes;
    assert dets[..i + 1][..i] == dets[..i];
  }

  /** kept holds no record twice, and only records of the first n boxes. */
  ghost predicate Among(kept: seq<BoxRecord>, boxes: seq<BoxRecord>, n: nat) {
    n <= |boxes| && Distinct(kept) && forall b | b in kept :: b in boxes[..n]
  }

  lemma AmongStart(boxes: seq<BoxRecord>)
    ensures Among([], boxes, 0) && DetsOf([]) == []
  {
  }

  lemma AmongStep(kept: seq<BoxRecord>, boxes: seq<BoxRecord>, i: nat)
    requires Distinct(boxes) && i < |boxes| && Among(kept, boxes, i)
    ensures Among(kept, boxes, i + 1) && Among(kept + [boxes[i]], boxes, i + 1)
  {
    assert boxes[i] !in boxes[..i];
    assert forall b :: b in boxes[..i + 1] <==> b in boxes[..i] || b == boxes[i];
  }

  lemma AmongAll(kept: seq<BoxRecord>, boxes: seq<BoxRecord>)
    requires Among(kept, boxes, |boxes|)
    ensures Distinct(kept) && forall b | b in kept :: b in boxes
  {
  }

  method FilterBoxesByRegions(inside: InsideTest, boxes: seq<BoxRecord>, w: int, h: int,
                              inclusive: Option<Polygon>, exclusive: Option<Polygon>) returns (kept: seq<BoxRecord>)
    requires Distinct(boxes)
    ensures DetsOf(kept) == Passing(inside, DetsOf(boxes), w, h, inclusive, exclusive)
    ensures Distinct(kept) && forall b | b in kept :: b in boxes
  {
    if inclusive.None? && exclusive.None? {
      NothingToFilter(inside, DetsOf(boxes), w, h);
      return boxes;
    }
    ghost var dets := DetsOf(boxes);
    kept := [];
    AmongStart(boxes);
    assert Passing(inside, dets[..0], w, h, inclusive, exclusive) == [];
    hide Passes, Passing, DetsOf, Distinct, Among;
    for i := 0 to |boxes|
      invariant |dets| == |boxes| && DetsOf(kept) == Passing(inside, dets[..i], w, h, inclusive, exclusive)
      invariant Among(kept, boxes, i)
    {
      PassingNext(inside, dets, i, w, h, inclusive, exclusive);
      AmongStep(kept, boxes, i);
      if Passes(inside, ViewOf(boxes[i]), w, h, inclusive, exclusive) {
        DetsOfStep(kept, boxes[i]);
        kept := kept + [boxes[i]];
      }
    }
    assert dets[..|boxes|] == dets;
    AmongAll(kept, boxes);
  }

  // There and back: frame, crop, canvas, decode, remap.

  /** A frame coordinate in pixels of the crop. */
  function CropPixel(v: real, start: int, frame: int): real {
    v * frame as real - start as real
  }

  /** The edges lie in the crop. */
  predicate InCrop(b: Box, c: Crop, w: int, h: int) {
    && 0.0 <= CropPixel(b.x1, c.x1, w) && CropPixel(b.x2, c.x1, w) <= c.cw as real
    && 0.0 <= CropPixel(b.y1, c.y1, h) && CropPixel(b.y2, c.y1, h) <= c.ch as real
  }

  /** Where a frame box lies on the canvas when the crop is scaled by exactly the ratio. */
  function OnCanvas(b: Box, c: Crop, w: int, h: int, l: Letterbox): Box {
    Box(ToModelIdeal(CropPixel(b.x1, c.x1, w), l.ratio, l.padX), ToModelIdeal(CropPixel(b.y1, c.y1, h), l.ratio, l.padY),
        ToModelIdeal(CropPixel(b.x2, c.x1, w), l.ratio, l.padX), ToModelIdeal(CropPixel(b.y2, c.y1, h), l.ratio, l.padY))
  }

  /** Where it lies when the crop is resized to whole pixels. */
  function OnResizedCanvas(b: Box, c: Crop, w: int, h: int, l: Letterbox): Box
    requires c.cw > 0 && c.ch > 0
  {
    Box(ToModelResized(CropPixel(b.x1, c.x1, w), c.cw, l.newW, l.padX), ToModelResized(CropPixel(b.y1, c.y1, h), c.ch, l.newH, l.padY),
        ToModelResized(CropPixel(b.x2, c.x1, w), c.cw, l.newW, l.padX), ToModelResized(CropPixel(b.y2, c.y1, h), c.ch, l.newH, l.padY))
  }

  lemma CropPixelOrder(a: real, b: real, start: int, frame: int)
    requires frame > 0 && a <= b
    ensures CropPixel(a, start, frame) <= CropPixel(b, start, frame)
  {
    ScaleOrder(a, b, frame as real);
  }

  lemma RemapAxisOrder(u: real, v: real, size: int, start: int, frame: int)
    requires 0 < size && 0 < frame && u <= v
    ensures RemapAxis(u, size, start, frame) <= RemapAxis(v, size, start, frame)
  {
    ScaleOrder(u, v, size as real);
    ScaleOrder(u * size as real + start as real, v * size as real + start as real, 1.0 / frame as real);
  }

  lemma EdgeComesBack(a: real, start: int, size: int, frame: int, ratio: real, pad: int)
    requires ratio > 0.0 && 0 <= start && 0 < size && start + size <= frame
    requires 0.0 <= CropPixel(a, start, frame) <= size as real
    ensures RemapAxis(FromModel(ToModelIdeal(CropPixel(a, start, frame), ratio, pad), ratio, pad, size), size, start, frame) == a
  {
    RoundTripExact(a, start, size, frame, ratio, pad);
    hide FromModel, ToModelIdeal, RemapAxis;
  }

  /** Two edges of a box come back, and in their order. */
  lemma AxisComesBack(a: real, b: real, start: int, size: int, frame: int, ratio: real, pad: int)
    requires ratio > 0.0 && 0 <= start && 0 < size && start + size <= frame && a < b
    requires 0.0 <= CropPixel(a, start, frame) && CropPixel(b, start, frame) <= size as real
    ensures
      var u := FromModel(ToModelIdeal(CropPixel(a, start, frame), ratio, pad), ratio, pad, size);
      var v := FromModel(ToModelIdeal(CropPixel(b, start, frame), ratio, pad), ratio, pad, size);
      u < v && RemapAxis(u, size, start, frame) == a && RemapAxis(v, size, start, frame) == b
  {
    CropPixelOrder(a, b, start, frame);
    hide *;
    EdgeComesBack(a, start, size, frame, ratio, pad);
    EdgeComesBack(b, start, size, frame, ratio, pad);
    var u := FromModel(ToModelIdeal(CropPixel(a, start, frame), ratio, pad), ratio, pad, size);
    var v := FromModel(ToModelIdeal(CropPixel(b, start, frame), ratio, pad), ratio, pad, size);
    if v <= u {
      RemapAxisOrder(v, u, size, start, frame);
    }
  }

  lemma BoxThroughCanvas(b: Box, score: real, cls: int, c: Crop, w: int, h: int, l: Letterbox)
    requires InFrame(c, w, h) && l.ratio > 0.0
    requires b.x1 < b.x2 && b.y1 < b.y2 && InCrop(b, c, w, h)
    ensures
      var d := DecodeRow(Row(OnCanvas(b, c, w, h, l), score, cls), c.cw, c.ch, l);
      d.Some? && d.value.(xyxy := Remap(d.value.xyxy, c, w, h)) == Det(b, score, cls)
  {
    hide FromModel, ToModelIdeal, RemapAxis, CropPixel;
    AxisComesBack(b.x1, b.x2, c.x1, c.cw, w, l.ratio, l.padX);
    AxisComesBack(b.y1, b.y2, c.y1, c.ch, h, l.ratio, l.padY);
  }

  /** A box inside the crop, ideally scaled onto the canvas, is decoded and remapped to itself: never dropped, never moved. */
  lemma BoxComesBack(b: Box, score: real, cls: int, roi: Option<seq<Point>>, w: int, h: int, mw: int, mh: int)
    requires w > 0 && h > 0 && mw > 0 && mh > 0
    requires b.x1 < b.x2 && b.y1 < b.y2 && InCrop(b, CropOf(roi, w, h), w, h)
    ensures InFrame(CropOf(roi, w, h), w, h)
    ensures
      var c := CropOf(roi, w, h);
      var l := LetterboxOf(c.cw, c.ch, mw, mh);
      l.ratio > 0.0 &&
      var d := DecodeRow(Row(OnCanvas(b, c, w, h, l), score, cls), c.cw, c.ch, l);
      d.Some? && d.value.(xyxy := Remap(d.value.xyxy, c, w, h)) == Det(b, score, cls)
  {
    CropInFrame(roi, w, h);
    var c := CropOf(roi, w, h);
    assert InFrame(c, w, h) && c.cw > 0 && c.ch > 0;
    hide *;
    LetterboxFits(c.cw, c.ch, mw, mh);
    BoxThroughCanvas(b, score, cls, c, w, h, LetterboxOf(c.cw, c.ch, mw, mh));
  }

  /** Both edges of one axis are off by at most e frame pixels. */
  ghost predicate AxisNear(a: real, b: real, a': real, b': real, frame: int, e: real) {
    Within(Pixels(a', a, frame), e) && Within(Pixels(b', b, frame), e)
  }

  lemma AxisComesNear(a: real, b: real, start: int, size: int, frame: int, newSize: int, ratio: real, pad: int)
    requires ratio > 0.0 && 0 <= start && 0 < size && start + size <= frame && a <= b
    requires newSize == Resized(size, ratio)
    requires 0.0 <= CropPixel(a, start, frame) && CropPixel(b, start, frame) <= size as real
    ensures
      var u := FromModel(ToModelResized(CropPixel(a, start, frame), size, newSize, pad), ratio, pad, size);
      var v := FromModel(ToModelResized(CropPixel(b, start, frame), size, newSize, pad), ratio, pad, size);
      AxisNear(a, b, RemapAxis(u, size, start, frame), RemapAxis(v, size, start, frame), frame, 0.5 / ratio)
  {
    hide FromModel, ToModelResized, RemapAxis, Resized, CropPixel, Within, Pixels;
    CropPixelOrder(a, b, start, frame);
    EdgeComesNear(a, start, size, frame, newSize, ratio, pad);
    EdgeComesNear(b, start, size, frame, newSize, ratio, pad);
  }

  lemma EdgeComesNear(a: real, start: int, size: int, frame: int, newSize: int, ratio: real, pad: int)
    requires ratio > 0.0 && 0 <= start && 0 < size && start + size <= frame
    requires newSize == Resized(size, ratio)
    requires 0.0 <= CropPixel(a, start, frame) <= size as real
    ensures
      var u := FromModel(ToModelResized(CropPixel(a, start, frame), size, newSize, pad), ratio, pad, size);
      Within(Pixels(RemapAxis(u, size, start, frame), a, frame), 0.5 / ratio)
  {
    hide FromModel, ToModelResized, RemapAxis, Resized, Within, Pixels;
    RoundTripError(a, start, size, frame, newSize, ratio, pad);
  }

  /** With the crop resized to whole pixels, a box that decoding keeps is off by at most 0.5/ratio frame pixels on every edge. */
  lemma BoxComesBackNearly(b: Box, score: real, cls: int, roi: Option<seq<Point>>, w: int, h: int, mw: int, mh: int)
    requires w > 0 && h > 0 && mw > 0 && mh > 0
    requires b.x1 <= b.x2 && b.y1 <= b.y2 && InCrop(b, CropOf(roi, w, h), w, h)
    ensures InFrame(CropOf(roi, w, h), w, h)
    ensures
      var c := CropOf(roi, w, h);
      var l := LetterboxOf(c.cw, c.ch, mw, mh);
      l.ratio > 0.0 &&
      var d := DecodeRow(Row(OnResizedCanvas(b, c, w, h, l), score, cls), c.cw, c.ch, l);
      d.Some? ==>
        var r := Remap(d.value.xyxy, c, w, h);
        AxisNear(b.x1, b.x2, r.x1, r.x2, w, 0.5 / l.ratio) && AxisNear(b.y1, b.y2, r.y1, r.y2, h, 0.5 / l.ratio)
  {
    CropInFrame(roi, w, h);
    var c := CropOf(roi, w, h);
    assert c.x1 >= 0 && c.cw > 0 && c.x1 + c.cw <= w && c.y1 >= 0 && c.ch > 0 && c.y1 + c.ch <= h;
    LetterboxFits(c.cw, c.ch, mw, mh);
    var l := LetterboxOf(c.cw, c.ch, mw, mh);
    assert l.newW == Resized(c.cw, l.ratio) && l.newH == Resized(c.ch, l.ratio);
    hide LetterboxOf, CropOf, FromModel, ToModelResized, RemapAxis, Resized, CropPixel, AxisNear;
    AxisComesNear(b.x1, b.x2, c.x1, c.cw, w, l.newW, l.ratio, l.padX);
    AxisComesNear(b.y1, b.y2, c.y1, c.ch, h, l.newH, l.ratio, l.padY);
  }

  /** Pixel a of an axis after the axis is resized to whole pixels. */
  function Stretched(a: real, size: int, newSize: int): real
    requires size > 0
  {
    a * (newSize as real / size as real)
  }

  /** The near edge of a box lands before the end of the ideally scaled image, on an axis resized to something. */
  predicate EdgeInside(a: real, size: int, newSize: int, ratio: real)
    requires size > 0
  {
    newSize > 0 && Stretched(a, size, newSize) < ratio * size as real
  }

  lemma QuotientOrder(u: real, v: real, r: real)
    requires r > 0.0
    ensures u < v <==> u / r < v / r
  {
    var p, q := u / r, v / r;
    assert p * r == u && q * r == v;
    if p < q {
      ScaleOrder(p, q, r);
    } else if q < p {
      ScaleOrder(q, p, r);
    }
  }

  /** Clamping tells two positions apart exactly when the smaller one is below 1. */
  lemma ClampTellsApart(u: real, v: real)
    requires 0.0 <= u
    ensures u < v ==> (Clamp(u) < Clamp(v) <==> u < 1.0)
    ensures u == v ==> Clamp(u) == Clamp(v)
  {
  }

  /** The value the decoder clamps. */
  function Unclamped(x: real, ratio: real, size: int): real
    requires ratio > 0.0 && size > 0
  {
    x / ratio / size as real
  }

  lemma UnclampedOrder(x: real, y: real, ratio: real, size: int)
    requires ratio > 0.0 && size > 0
    ensures x < y <==> Unclamped(x, ratio, size) < Unclamped(y, ratio, size)
    ensures Unclamped(0.0, ratio, size) == 0.0
    ensures Unclamped(ratio * size as real, ratio, size) == 1.0
  {
    QuotientOrder(x, y, ratio);
    QuotientOrder(x / ratio, y / ratio, size as real);
    assert ratio * size as real / ratio == size as real by {
      var q := ratio * size as real / ratio;
      assert q * ratio == size as real * ratio;
    }
  }

  lemma ResizedOrder(a: real, b: real, k: real)
    requires 0.0 <= a < b && k >= 0.0
    ensures 0.0 <= a * k
    ensures if k > 0.0 then a * k < b * k else a * k == b * k
  {
    if k > 0.0 {
      ScaleOrder(a, b, k);
      if a > 0.0 {
        MulPositive(a, k);
      }
    }
  }

  lemma DecodesStretched(a: real, size: int, newSize: int, ratio: real, pad: int)
    requires ratio > 0.0 && size > 0
    ensures FromModel(ToModelResized(a, size, newSize, pad), ratio, pad, size) == Clamp(Unclamped(Stretched(a, size, newSize), ratio, size))
  {
    hide Clamp;
    assert ToModelResized(a, size, newSize, pad) - pad as real == Stretched(a, size, newSize);
  }

  lemma StretchedOrder(a: real, b: real, size: int, newSize: int)
    requires size > 0 && newSize >= 0 && 0.0 <= a < b
    ensures 0.0 <= Stretched(a, size, newSize)
    ensures newSize > 0 ==> Stretched(a, size, newSize) < Stretched(b, size, newSize)
    ensures newSize == 0 ==> Stretched(a, size, newSize) == Stretched(b, size, newSize)
  {
    var k := newSize as real / size as real;
    QuotientOrder(0.0, newSize as real, size as real);
    assert k >= 0.0 && (k > 0.0 <==> newSize > 0);
    ResizedOrder(a, b, k);
  }

  lemma UnclampedApart(x: real, y: real, ratio: real, size: int)
    requires ratio > 0.0 && size > 0 && 0.0 <= x <= y
    ensures Clamp(Unclamped(x, ratio, size)) < Clamp(Unclamped(y, ratio, size)) <==> x < y && x < ratio * size as real
  {
    UnclampedOrder(x, y, ratio, size);
    UnclampedOrder(x, 0.0, ratio, size);
    UnclampedOrder(x, ratio * size as real, ratio, size);
    hide *;
    ClampTellsApart(Unclamped(x, ratio, size), Unclamped(y, ratio, size));
  }

  /** Two edges stay apart through a whole-pixel resize and the clamp exactly when the near one lands inside. */
  lemma EdgesApart(a: real, b: real, size: int, newSize: int, ratio: real, pad: int)
    requires ratio > 0.0 && size > 0 && newSize >= 0 && 0.0 <= a < b
    ensures
      FromModel(ToModelResized(a, size, newSize, pad), ratio, pad, size) < FromModel(ToModelResized(b, size, newSize, pad), ratio, pad, size)
      <==> EdgeInside(a, size, newSize, ratio)
  {
    hide Clamp, Unclamped, Stretched, FromModel, ToModelResized;
    StretchedOrder(a, b, size, newSize);
    DecodesStretched(a, size, newSize, ratio, pad);
    DecodesStretched(b, size, newSize, ratio, pad);
    UnclampedApart(Stretched(a, size, newSize), Stretched(b, size, newSize), ratio, size);
  }

  /** A box inside the crop survives the whole-pixel resize, decoding and clamping exactly when its near edges land
      inside the ideally scaled image and no side of the crop is resized to nothing. */
  lemma BoxSurvivesIff(b: Box, score: real, cls: int, roi: Option<seq<Point>>, w: int, h: int, mw: int, mh: int)
    requires w > 0 && h > 0 && mw > 0 && mh > 0
    requires b.x1 < b.x2 && b.y1 < b.y2 && InCrop(b, CropOf(roi, w, h), w, h)
    ensures InFrame(CropOf(roi, w, h), w, h)
    ensures
      var c := CropOf(roi, w, h);
      var l := LetterboxOf(c.cw, c.ch, mw, mh);
      l.ratio > 0.0 &&
      (DecodeRow(Row(OnResizedCanvas(b, c, w, h, l), score, cls), c.cw, c.ch, l).Some? <==>
        EdgeInside(CropPixel(b.x1, c.x1, w), c.cw, l.newW, l.ratio) && EdgeInside(CropPixel(b.y1, c.y1, h), c.ch, l.newH, l.ratio))
  {
    CropInFrame(roi, w, h);
    var c := CropOf(roi, w, h);
    LetterboxFits(c.cw, c.ch, mw, mh);
    var l := LetterboxOf(c.cw, c.ch, mw, mh);
    CropPixelGrows(b.x1, b.x2, c.x1, w);
    CropPixelGrows(b.y1, b.y2, c.y1, h);
    hide LetterboxOf, CropOf, FromModel, ToModelResized, CropPixel, EdgeInside;
    EdgesApart(CropPixel(b.x1, c.x1, w), CropPixel(b.x2, c.x1, w), c.cw, l.newW, l.ratio, l.padX);
    EdgesApart(CropPixel(b.y1, c.y1, h), CropPixel(b.y2, c.y1, h), c.ch, l.newH, l.ratio, l.padY);
  }

  lemma CropPixelGrows(a: real, b: real, start: int, frame: int)
    requires frame > 0 && a < b
    ensures CropPixel(a, start, frame) < CropPixel(b, start, frame)
  {
    ScaleOrder(a, b, frame as real);
  }

  // The part of a box inside the crop.

  function Clip(v: real, lo: real, hi: real): real {
    if v < lo then lo else if v > hi then hi else v
  }

  /** The box cut off at the edges of the crop. */
  function ClipTo(b: Box, c: Crop, w: int, h: int): Box
    requires w > 0 && h > 0
  {
    Box(Clip(b.x1, Norm(c.x1, w), Norm(c.x1 + c.cw, w)), Clip(b.y1, Norm(c.y1, h), Norm(c.y1 + c.ch, h)),
        Clip(b.x2, Norm(c.x1, w), Norm(c.x1 + c.cw, w)), Clip(b.y2, Norm(c.y1, h), Norm(c.y1 + c.ch, h)))
  }

  lemma PixelSide(v: real, start: int, p: int, frame: int)
    requires frame > 0
    ensures CropPixel(v, start, frame) < (p - start) as real <==> v < Norm(p, frame)
    ensures CropPixel(v, start, frame) > (p - start) as real <==> v > Norm(p, frame)
  {
    var n := frame as real;
    var q := Norm(p, frame);
    assert q * n == p as real;
    ScaleOrder(v, q, n);
    ScaleOrder(q, v, n);
  }

  lemma ModelAxis(x: real, ratio: real, pad: int, n: int)
    requires ratio > 0.0 && n > 0
    ensures FromModel(ToModelIdeal(x, ratio, pad), ratio, pad, n) == Clamp(x / n as real)
  {
    Undo(x, ratio);
    assert ToModelIdeal(x, ratio, pad) - pad as real == x * ratio;
  }

  lemma QuotientSide(x: real, n: real)
    requires n > 0.0
    ensures x < 0.0 ==> x / n < 0.0
    ensures x > n ==> x / n > 1.0
  {
    var q := x / n;
    assert q * n == x;
    if x < 0.0 && q >= 0.0 {
      ScaleOrder(0.0, q, n);
    }
    if x > n && q <= 1.0 {
      ScaleOrder(q, 1.0, n);
    }
  }

  lemma RemapEnds(size: int, start: int, frame: int)
    requires frame > 0
    ensures RemapAxis(0.0, size, start, frame) == Norm(start, frame)
    ensures RemapAxis(1.0, size, start, frame) == Norm(start + size, frame)
  {
    DivideByScaling(start as real, frame as real);
    DivideByScaling((start + size) as real, frame as real);
  }

  lemma EdgeIsClipped(v: real, start: int, size: int, frame: int, ratio: real, pad: int)
    requires ratio > 0.0 && 0 <= start && 0 < size && start + size <= frame
    ensures RemapAxis(FromModel(ToModelIdeal(CropPixel(v, start, frame), ratio, pad), ratio, pad, size), size, start, frame)
      == Clip(v, Norm(start, frame), Norm(start + size, frame))
  {
    var x := CropPixel(v, start, frame);
    PixelSide(v, start, start, frame);
    PixelSide(v, start, start + size, frame);
    ModelAxis(x, ratio, pad, size);
    QuotientSide(x, size as real);
    RemapEnds(size, start, frame);
    hide Norm, RemapAxis, FromModel, ToModelIdeal, CropPixel;
    if 0.0 <= x <= size as real {
      EdgeComesBack(v, start, size, frame, ratio, pad);
    }
  }

  lemma RemapKeepsSides(u: real, v: real, size: int, start: int, frame: int)
    requires 0 < size && 0 < frame
    ensures u < v <==> RemapAxis(u, size, start, frame) < RemapAxis(v, size, start, frame)
  {
    if u < v {
      ScaleOrder(u, v, size as real);
      ScaleOrder(u * size as real + start as real, v * size as real + start as real, 1.0 / frame as real);
    } else {
      RemapAxisOrder(v, u, size, start, frame);
    }
  }

  /** Whatever the box: ideally scaled onto the canvas, it is decoded and remapped to its part inside the crop, and dropped
      exactly when it has none. */
  lemma BoxIsClipped(b: Box, score: real, cls: int, c: Crop, w: int, h: int, l: Letterbox)
    requires InFrame(c, w, h) && l.ratio > 0.0
    ensures
      var d, part := DecodeRow(Row(OnCanvas(b, c, w, h, l), score, cls), c.cw, c.ch, l), ClipTo(b, c, w, h);
      && (d.Some? <==> part.x1 < part.x2 && part.y1 < part.y2)
      && (d.Some? ==> d.value.(xyxy := Remap(d.value.xyxy, c, w, h)) == Det(part, score, cls))
  {
    hide FromModel, ToModelIdeal, RemapAxis, CropPixel, Norm, Clip;
    EdgeIsClipped(b.x1, c.x1, c.cw, w, l.ratio, l.padX);
    EdgeIsClipped(b.x2, c.x1, c.cw, w, l.ratio, l.padX);
    EdgeIsClipped(b.y1, c.y1, c.ch, h, l.ratio, l.padY);
    EdgeIsClipped(b.y2, c.y1, c.ch, h, l.ratio, l.padY);
    var at := OnCanvas(b, c, w, h, l);
    RemapKeepsSides(FromModel(at.x1, l.ratio, l.padX, c.cw), FromModel(at.x2, l.ratio, l.padX, c.cw), c.cw, c.x1, w);
    RemapKeepsSides(FromModel(at.y1, l.ratio, l.padY, c.ch), FromModel(at.y2, l.ratio, l.padY, c.ch), c.ch, c.y1, h);
  }
}
