/** What a reply holds, told from the last config and the model's output alone. */
module ReplyContents {
  import opened Options
  import opened Messages
  import opened Coordinates
  import opened Geometry
  import opened Filtering
  import opened Detections
  import opened Text
  import opened ServeSpec
  import opened ClassMatch
  import T = TrackerSpec

  // Settings.

  /** What the session was last told to do with detections. */
  datatype Settings = Settings(conf: real, classes: Option<seq<string>>, roi: Option<seq<Point>>,
                               inclusive: Option<seq<Point>>, exclusive: Option<seq<Point>>,
                               maxAge: int, mode: Mode)

  /** The last config decides, except that one without a confidence threshold, a grace period or a mode keeps what was
      before. */
  ghost function SettingsOf(events: seq<Event>): (t: Settings)
    ensures (t.inclusive.Some? ==> |t.inclusive.value| >= 3) && (t.exclusive.Some? ==> |t.exclusive.value| >= 3)
  {
    if events == [] then Settings(0.30, None, None, None, None, 90, VehicleGroup)
    else
      var before, e := SettingsOf(events[..|events| - 1]), events[|events| - 1];
      if e.ConfigEvent? then
        var m := e.config;
        Settings(if m.conf.Some? then m.conf.value else before.conf, m.classes,
                 CoercePoly(m.roi), CoercePoly(m.inclusive), CoercePoly(m.exclusive),
                 if m.trackMaxAge.Some? then m.trackMaxAge.value else before.maxAge,
                 if m.trackClassMatch.Some? then NormalizeMode(m.trackClassMatch.value) else before.mode)
      else before
  }

  predicate Tracks(tracker: T.Tracker, maxAge: int, mode: Mode) {
    tracker.threshold == 0.3 && tracker.maxAge == maxAge && tracker.mode == mode
  }

  /** The fields of every reachable state follow the settings, those of its tracker included. */
  lemma {:induction false} StateFollowsSettings(inside: InsideTest, table: map<string, nat>, events: seq<Event>)
    ensures
      var s, t := Serve(inside, table, events).state, SettingsOf(events);
      && s.conf == t.conf && s.filter == FilterOf(table, t.classes)
      && s.roi == t.roi && s.inclusive == t.inclusive && s.exclusive == t.exclusive
      && (if s.tracker.Some? then Tracks(s.tracker.value, t.maxAge, t.mode) else t.maxAge == 90 && t.mode == VehicleGroup)
    decreases |events|
  {
    if events == [] {
    } else {
      var n := |events| - 1;
      StateFollowsSettings(inside, table, events[..n]);
      var r := Serve(inside, table, events[..n]);
      assert Serve(inside, table, events) == Handle(inside, table, r, events[n]);
      hide Serve;
      StepFollowsSettings(inside, table, r, events[n]);
    }
  }

  lemma StepFollowsSettings(inside: InsideTest, table: map<string, nat>, r: Session, e: Event)
    ensures
      var s, s' := r.state, Handle(inside, table, r, e).state;
      if e.ConfigEvent? then
        var m := e.config;
        && s'.tracker.Some?
        && s'.tracker.value.threshold == (if s.tracker.Some? then s.tracker.value.threshold else 0.3)
        && s'.tracker.value.maxAge ==
           (if m.trackMaxAge.Some? then m.trackMaxAge.value else if s.tracker.Some? then s.tracker.value.maxAge else 90)
        && s'.tracker.value.mode ==
           (if m.trackClassMatch.Some? then NormalizeMode(m.trackClassMatch.value) else if s.tracker.Some? then s.tracker.value.mode else VehicleGroup)
        && s'.conf == (if m.conf.Some? then m.conf.value else s.conf) && s'.filter == FilterOf(table, m.classes)
        && s'.roi == CoercePoly(m.roi) && s'.inclusive == CoercePoly(m.inclusive) && s'.exclusive == CoercePoly(m.exclusive)
      else
        && s'.tracker.Some? == s.tracker.Some?
        && (s.tracker.Some? ==>
              var a, b := s.tracker.value, s'.tracker.value;
              a.threshold == b.threshold && a.maxAge == b.maxAge && a.mode == b.mode)
        && s'.conf == s.conf && s'.filter == s.filter
        && s'.roi == s.roi && s'.inclusive == s.inclusive && s'.exclusive == s.exclusive
  {
    hide Sighted;
  }

  // Classes.

  /** What a user means by the three forms of the setting: absent, every class; a list, the classes named in it. */
  ghost predicate Ticked(table: map<string, nat>, classes: Option<seq<string>>, cls: int) {
    classes.None? || exists n :: n in classes.value && Key(n) in table && table[Key(n)] == cls
  }

  /** The filter means that: all, none or some; and the model is skipped exactly when no class is ticked. */
  lemma TriState(table: map<string, nat>, classes: Option<seq<string>>)
    ensures
      var filter := FilterOf(table, classes);
      && (filter == Some([]) <==> forall cls :: !Ticked(table, classes, cls))
      && (filter != Some([]) ==> forall cls :: ClassWanted(filter, cls) <==> Ticked(table, classes, cls))
  {
    var filter := FilterOf(table, classes);
    if classes.Some? {
      NamesToIdsExact(table, classes.value);
      assert forall cls :: Ticked(table, classes, cls) <==> cls in filter.value;
      if filter.value != [] {
        var id := filter.value[0];
        assert id in filter.value && Ticked(table, classes, id);
      }
    } else {
      assert Ticked(table, classes, 0);
    }
  }

  /** A row, if it is confident enough and its class is ticked. */
  ghost function Ticking(table: map<string, nat>, conf: real, classes: Option<seq<string>>): Row -> Option<Row> {
    (r: Row) => if r.score >= conf && Ticked(table, classes, r.cls) then Some(r) else None
  }

  // Boxes.

  /** What the k-th selected row becomes, if the model keeps it: a box of the frame that passes the polygons. */
  function Emerging(inside: InsideTest, selected: seq<Row>, crop: Crop, l: Letterbox, w: int, h: int,
                    inclusive: Option<Polygon>, exclusive: Option<Polygon>): nat -> Option<Det>
    requires w > 0 && h > 0 && crop.cw > 0 && crop.ch > 0 && l.ratio > 0.0
  {
    (k: nat) =>
      if k >= |selected| then None
      else
        match DecodeRow(selected[k], crop.cw, crop.ch, l)
        case None => None
        case Some(d) =>
          var framed := d.(xyxy := Remap(d.xyxy, crop, w, h));
          if Passes(inside, framed, w, h, inclusive, exclusive) then Some(framed) else None
  }

  lemma {:induction false} EmergeInOrder(inside: InsideTest, selected: seq<Row>, idxs: seq<nat>, crop: Crop, l: Letterbox,
                                         w: int, h: int, inclusive: Option<Polygon>, exclusive: Option<Polygon>)
    requires w > 0 && h > 0 && crop.cw > 0 && crop.ch > 0 && l.ratio > 0.0
    requires InRange(idxs, |selected|)
    ensures
      var framed := RemapDets(DecodeRows(Picked(selected, idxs), crop.cw, crop.ch, l), crop, w, h);
      Keeps(idxs, Passing(inside, framed, w, h, inclusive, exclusive),
            Emerging(inside, selected, crop, l, w, h, inclusive, exclusive))
    decreases |idxs|
  {
    hide *;
    var f := Emerging(inside, selected, crop, l, w, h, inclusive, exclusive);
    if idxs == [] {
      KeepsNothing(f);
      EmergeNothing(inside, selected, crop, l, w, h, inclusive, exclusive);
    } else {
      var init, k := idxs[..|idxs| - 1], idxs[|idxs| - 1];
      assert idxs == init + [k];
      RangeSplits(init, k, |selected|);
      EmergeInOrder(inside, selected, init, crop, l, w, h, inclusive, exclusive);
      EmergeOneMore(inside, selected, init, k, crop, l, w, h, inclusive, exclusive);
      KeepsOneMore(init, Passing(inside, RemapDets(DecodeRows(Picked(selected, init), crop.cw, crop.ch, l), crop, w, h), w, h, inclusive, exclusive), f, k);
    }
  }

  lemma RangeSplits(init: seq<nat>, k: nat, n: nat)
    requires InRange(init + [k], n)
    ensures InRange(init, n) && forall i | i in init :: i < n
  {
    assert forall i | i in init :: i in init + [k];
  }

  lemma EmergeNothing(inside: InsideTest, selected: seq<Row>, crop: Crop, l: Letterbox, w: int, h: int,
                      inclusive: Option<Polygon>, exclusive: Option<Polygon>)
    requires w > 0 && h > 0 && crop.cw > 0 && crop.ch > 0 && l.ratio > 0.0
    ensures Passing(inside, RemapDets(DecodeRows(Picked(selected, []), crop.cw, crop.ch, l), crop, w, h), w, h, inclusive, exclusive) == []
  {
  }

  lemma EmergeOneMore(inside: InsideTest, selected: seq<Row>, idxs: seq<nat>, k: nat, crop: Crop, l: Letterbox,
                      w: int, h: int, inclusive: Option<Polygon>, exclusive: Option<Polygon>)
    requires w > 0 && h > 0 && crop.cw > 0 && crop.ch > 0 && l.ratio > 0.0
    requires InRange(idxs + [k], |selected|) && InRange(idxs, |selected|)
    ensures
      var f := Emerging(inside, selected, crop, l, w, h, inclusive, exclusive);
      Passing(inside, RemapDets(DecodeRows(Picked(selected, idxs + [k]), crop.cw, crop.ch, l), crop, w, h), w, h, inclusive, exclusive) ==
      Passing(inside, RemapDets(DecodeRows(Picked(selected, idxs), crop.cw, crop.ch, l), crop, w, h), w, h, inclusive, exclusive) +
      if f(k).Some? then [f(k).value] else []
  {
    hide DecodeRow, Passes, Remap;
    var picked := Picked(selected, idxs);
    assert k in idxs + [k];
    assert Picked(selected, idxs + [k]) == picked + [selected[k]];
    var decoded := DecodeRows(picked, crop.cw, crop.ch, l);
    var d := DecodeRow(selected[k], crop.cw, crop.ch, l);
    assert (picked + [selected[k]])[..|picked|] == picked;
    var more := DecodeRows(picked + [selected[k]], crop.cw, crop.ch, l);
    assert more == decoded + if d.Some? then [d.value] else [];
    var framed := RemapDets(decoded, crop, w, h);
    if d.Some? {
      var b := d.value.(xyxy := Remap(d.value.xyxy, crop, w, h));
      assert RemapDets(more, crop, w, h) == framed + [b];
      assert (framed + [b])[..|framed|] == framed;
    } else {
      assert more == decoded;
    }
  }

  // Replies.

  /** The model ran on the frame and its boxes could be read. */
  ghost predicate Inferred(s: State, selected: seq<Row>, w: int, h: int, stride: int, inference: Inference) {
    && Ready(s) && stride >= w * 3 && w > 0 && h > 0 && inference.Rows? && InRange(inference.idxs, |selected|)
    && var l := BoxFor(s, CropFor(s, w, h)); l.newW != 0 && l.newH != 0
  }

  /** In the order of the indices the model keeps and each once, exactly those whose row becomes a box that passes the
      polygons; none when inference does not come about. */
  ghost predicate Shows(inside: InsideTest, s: State, t: Settings, selected: seq<Row>, dets: seq<Det>,
                        w: int, h: int, stride: int, inference: Inference)
  {
    if !Inferred(s, selected, w, h, stride, inference) then dets == []
    else
      var crop := CropOf(t.roi, w, h);
      && InFrame(crop, w, h)
      && Keeps(inference.idxs, dets,
               Emerging(inside, selected, crop, BoxFor(s, crop), w, h, PixelPolygon(t.inclusive, w, h), PixelPolygon(t.exclusive, w, h)))
  }

  lemma SelectedByTicks(table: map<string, nat>, t: Settings, rows: seq<Row>)
    requires FilterOf(table, t.classes) != Some([])
    ensures Keeps(rows, Selected(rows, t.conf, FilterOf(table, t.classes)), Ticking(table, t.conf, t.classes))
  {
    var filter := FilterOf(table, t.classes);
    SelectedExact(rows, t.conf, filter);
    TriState(table, t.classes);
    hide Keeps, FilterOf, ClassWanted, Ticked, Selected;
    KeepsSame(rows, Selected(rows, t.conf, filter), Wanting(t.conf, filter), Ticking(table, t.conf, t.classes));
  }

  lemma PassingShows(inside: InsideTest, s: State, t: Settings, dets: seq<Det>, w: int, h: int, stride: int, inference: Inference)
    requires Ready(s) && stride >= w * 3 && inference.Rows?
    requires s.roi == t.roi && s.inclusive == t.inclusive && s.exclusive == t.exclusive
    requires dets == if FrameBoxes(s, w, h, inference).None? then []
      else Passing(inside, FrameBoxes(s, w, h, inference).value, w, h, PixelPolygon(s.inclusive, w, h), PixelPolygon(s.exclusive, w, h))
    ensures Shows(inside, s, t, Selected(inference.rows, s.conf, s.filter), dets, w, h, stride, inference)
  {
    hide Passing, PixelPolygon, Selected, RemapDets, DecodeRows, Picked, CropOf, Keeps, LetterboxOf, Emerging, InRange;
    var selected := Selected(inference.rows, s.conf, s.filter);
    if Inferred(s, selected, w, h, stride, inference) {
      var crop := CropFor(s, w, h);
      EmergeInOrder(inside, selected, inference.idxs, crop, BoxFor(s, crop), w, h, PixelPolygon(s.inclusive, w, h), PixelPolygon(s.exclusive, w, h));
    }
  }

  /** The boxes of a reply, from the last config and the model's output alone: nothing when no class is ticked or the
      model fails; otherwise those its kept indices show, out of exactly the confident rows of a ticked class. */
  lemma ReplyFollowsSettings(inside: InsideTest, table: map<string, nat>, events: seq<Event>,
                             id: int, w: int, h: int, stride: int, inference: Inference)
    ensures
      var s, t := Serve(inside, table, events).state, SettingsOf(events);
      var dets := AfterFrame(inside, s, id, w, h, stride, inference).reply.dets;
      && ((forall cls :: !Ticked(table, t.classes, cls)) || inference.Fails? ==> dets == [])
      && ((exists cls :: Ticked(table, t.classes, cls)) && inference.Rows? ==>
            exists selected :: Keeps(inference.rows, selected, Ticking(table, t.conf, t.classes))
                               && Shows(inside, s, t, selected, dets, w, h, stride, inference))
  {
    var s, t := Serve(inside, table, events).state, SettingsOf(events);
    var dets := AfterFrame(inside, s, id, w, h, stride, inference).reply.dets;
    ReplyIsExact(inside, table, events, id, w, h, stride, inference);
    StateFollowsSettings(inside, table, events);
    TriState(table, t.classes);
    hide Serve, AfterFrame, SettingsOf, Ticked, FilterOf, Passing, PixelPolygon, Selected, Keeps, Ticking;
    if s.filter != Some([]) && inference.Rows? {
      var selected := Selected(inference.rows, s.conf, s.filter);
      SelectedByTicks(table, t, inference.rows);
      if Ready(s) && stride >= w * 3 {
        PassingShows(inside, s, t, dets, w, h, stride, inference);
      }
      hide FrameBoxes;
      assert Shows(inside, s, t, selected, dets, w, h, stride, inference);
    }
  }

  /** Detection by detection: a box is replied if and only if some index the model keeps leads to it through a row that
      is confident and of a ticked class, decodes to something and passes the polygons. */
  lemma RepliedIff(inside: InsideTest, table: map<string, nat>, events: seq<Event>,
                   id: int, w: int, h: int, stride: int, inference: Inference, selected: seq<Row>, d: Det)
    requires inference.Rows? && exists cls :: Ticked(table, SettingsOf(events).classes, cls)
    requires Keeps(inference.rows, selected, Ticking(table, SettingsOf(events).conf, SettingsOf(events).classes))
    requires Inferred(Serve(inside, table, events).state, selected, w, h, stride, inference)
    ensures forall r :: r in selected <==>
      r in inference.rows && r.score >= SettingsOf(events).conf && Ticked(table, SettingsOf(events).classes, r.cls)
    ensures
      var s, t := Serve(inside, table, events).state, SettingsOf(events);
      var crop := CropOf(t.roi, w, h);
      && InFrame(crop, w, h)
      && (d in AfterFrame(inside, s, id, w, h, stride, inference).reply.dets <==>
          exists k :: 0 <= k < |inference.idxs| &&
            Emerging(inside, selected, crop, BoxFor(s, crop), w, h, PixelPolygon(t.inclusive, w, h), PixelPolygon(t.exclusive, w, h))
              (inference.idxs[k]) == Some(d))
  {
    var s, t := Serve(inside, table, events).state, SettingsOf(events);
    var dets := AfterFrame(inside, s, id, w, h, stride, inference).reply.dets;
    ReplyFollowsSettings(inside, table, events, id, w, h, stride, inference);
    var f := Ticking(table, t.conf, t.classes);
    var other :| Keeps(inference.rows, other, f) && Shows(inside, s, t, other, dets, w, h, stride, inference);
    KeptUnique(inference.rows, selected, other, f);
    KeptMembers(inference.rows, selected, f);
    var crop := CropOf(t.roi, w, h);
    hide Serve, AfterFrame, SettingsOf, Ticked, PixelPolygon, Keeps, CropOf, LetterboxOf, DecodeRow, Passes;
    var g := Emerging(inside, selected, crop, BoxFor(s, crop), w, h, PixelPolygon(t.inclusive, w, h), PixelPolygon(t.exclusive, w, h));
    KeptMembers(inference.idxs, dets, g);
    forall r
      ensures r in selected <==> r in inference.rows && r.score >= t.conf && Ticked(table, t.classes, r.cls)
    {
      assert r in selected <==> Yields(inference.rows, f, r);
    }
    assert d in dets <==> Yields(inference.idxs, g, d);
  }

  /** (cx, cy) lies half way between the edges, in pixels of the frame. */
  predicate Centred(b: Box, w: int, h: int, cx: real, cy: real) {
    2.0 * cx == b.x1 * w as real + b.x2 * w as real && 2.0 * cy == b.y1 * h as real + b.y2 * h as real
  }

  /** Of the boxes of the frame, exactly those are replied whose centre the last config's inclusive polygon holds, if it
      has one, and its exclusive one does not. */
  lemma RegionsDecide(inside: InsideTest, table: map<string, nat>, events: seq<Event>,
                      id: int, w: int, h: int, stride: int, inference: Inference, d: Det, cx: real, cy: real)
    requires Centred(d.xyxy, w, h, cx, cy)
    ensures
      var s, t := Serve(inside, table, events).state, SettingsOf(events);
      d in AfterFrame(inside, s, id, w, h, stride, inference).reply.dets <==>
        && (exists cls :: Ticked(table, t.classes, cls)) && Ready(s) && stride >= w * 3
        && FrameBoxes(s, w, h, inference).Some? && d in FrameBoxes(s, w, h, inference).value
        && (t.inclusive.Some? ==> inside(PixelPolygon(t.inclusive, w, h).value, cx, cy))
        && (t.exclusive.Some? ==> !inside(PixelPolygon(t.exclusive, w, h).value, cx, cy))
  {
    var s, t := Serve(inside, table, events).state, SettingsOf(events);
    ReplyIsExact(inside, table, events, id, w, h, stride, inference);
    StateFollowsSettings(inside, table, events);
    TriState(table, t.classes);
    hide Serve, AfterFrame, SettingsOf, Ticked, FilterOf, FrameBoxes, Passing, Centred;
    if s.filter != Some([]) && Ready(s) && stride >= w * 3 && FrameBoxes(s, w, h, inference).Some? {
      PassingExact(inside, FrameBoxes(s, w, h, inference).value, w, h, PixelPolygon(s.inclusive, w, h), PixelPolygon(s.exclusive, w, h));
      PassesMeans(inside, d, w, h, PixelPolygon(t.inclusive, w, h), PixelPolygon(t.exclusive, w, h), cx, cy);
      assert PixelPolygon(t.inclusive, w, h).Some? == t.inclusive.Some? && PixelPolygon(t.exclusive, w, h).Some? == t.exclusive.Some?;
      hide Passes, PixelPolygon;
    }
  }

  lemma PassesMeans(inside: InsideTest, d: Det, w: int, h: int, inclusive: Option<Polygon>, exclusive: Option<Polygon>, cx: real, cy: real)
    requires Centred(d.xyxy, w, h, cx, cy)
    ensures Passes(inside, d, w, h, inclusive, exclusive) <==>
      (inclusive.Some? ==> inside(inclusive.value, cx, cy)) && (exclusive.Some? ==> !inside(exclusive.value, cx, cy))
  {
    assert cx == Centre(d.xyxy.x1, d.xyxy.x2, w) && cy == Centre(d.xyxy.y1, d.xyxy.y2, h);
    hide Centre, Centred;
  }

  /** A box that the model reports where the crop's letterbox puts it, in a row that is confident, of a ticked class and
      kept, is replied: its part inside the crop, if there is one and its centre suits the polygons. */
  lemma ReportedIsReplied(inside: InsideTest, table: map<string, nat>, events: seq<Event>,
                          id: int, w: int, h: int, stride: int, inference: Inference, selected: seq<Row>,
                          k: nat, b: Box, score: real, cls: int, mw: Positive, mh: Positive, cx: real, cy: real)
    requires inference.Rows? && exists cls :: Ticked(table, SettingsOf(events).classes, cls)
    requires Keeps(inference.rows, selected, Ticking(table, SettingsOf(events).conf, SettingsOf(events).classes))
    requires Inferred(Serve(inside, table, events).state, selected, w, h, stride, inference)
    requires
      var input := Serve(inside, table, events).state.adapter.value.input.value;
      input.mw == mw && input.mh == mh
    requires k in inference.idxs
    requires
      var t, c := SettingsOf(events), CropOf(SettingsOf(events).roi, w, h);
      var part := ClipTo(b, c, w, h);
      && c.cw > 0 && c.ch > 0
      && selected[k] == Row(OnCanvas(b, c, w, h, LetterboxOf(c.cw, c.ch, mw, mh)), score, cls)
      && part.x1 < part.x2 && part.y1 < part.y2 && Centred(part, w, h, cx, cy)
      && (t.inclusive.Some? ==> inside(PixelPolygon(t.inclusive, w, h).value, cx, cy))
      && (t.exclusive.Some? ==> !inside(PixelPolygon(t.exclusive, w, h).value, cx, cy))
    ensures
      Det(ClipTo(b, CropOf(SettingsOf(events).roi, w, h), w, h), score, cls) in
        AfterFrame(inside, Serve(inside, table, events).state, id, w, h, stride, inference).reply.dets
  {
    var s, t := Serve(inside, table, events).state, SettingsOf(events);
    var c := CropOf(t.roi, w, h);
    var d := Det(ClipTo(b, c, w, h), score, cls);
    RepliedIff(inside, table, events, id, w, h, stride, inference, selected, d);
    hide Serve, AfterFrame, SettingsOf, Ticked, PixelPolygon, Keeps, CropOf, LetterboxOf, DecodeRow, Passes, ClipTo, OnCanvas, Centred, Remap;
    BoxIsClipped(b, score, cls, c, w, h, LetterboxOf(c.cw, c.ch, mw, mh));
    PassesMeans(inside, d, w, h, PixelPolygon(t.inclusive, w, h), PixelPolygon(t.exclusive, w, h), cx, cy);
    var i :| 0 <= i < |inference.idxs| && inference.idxs[i] == k;
  }
}
