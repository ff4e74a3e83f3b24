/** Which runs of the tracker some session of the worker makes. */
module SessionRuns {
  import opened Options
  import opened Messages
  import opened Geometry
  import opened Coordinates
  import opened ClassMatch
  import opened Text
  import opened Detections
  import opened ServeSpec
  import T = TrackerSpec
  import R = TrackerRuns

  /** Boxes with an interior, inside the frame; and no change of the overlap threshold. */
  ghost predicate Tellable(e: R.Event) {
    match e
    case Frame(dets) => forall d | d in dets :: Proper(d.xyxy)
    case Settings(threshold, _, _) => threshold.None?
  }

  lemma ToldIsTellable(inside: InsideTest, table: map<string, nat>, events: seq<Event>, e: Event)
    ensures
      var told := Told(inside, Serve(inside, table, events).state, e);
      told.Some? ==> Tellable(told.value)
  {
    if e.FrameEvent? {
      ReplyBoxesAreWanted(inside, table, events, e.id, e.w, e.h, e.stride, e.inference);
    }
    hide Serve, AfterFrame, Proper;
  }

  lemma {:induction false} SessionsTell(inside: InsideTest, table: map<string, nat>, events: seq<Event>)
    ensures forall e | e in TrackerEvents(inside, table, events) :: Tellable(e)
    decreases |events|
  {
    hide Serve, Told, Tellable;
    if events == [] {
    } else {
      var n := |events| - 1;
      SessionsTell(inside, table, events[..n]);
      ToldIsTellable(inside, table, events[..n], events[n]);
    }
  }

  // A session that makes a given run.

  const SIDE: Positive := 640
  const MODEL := "yolo26n.onnx"
  const LOADED := ConfigOutcome(true, Some(Input(SIDE, SIDE, "cpu")))
  const FULL := Crop(0, 0, SIDE, SIDE)

  function Canvas(): (l: Letterbox)
    ensures l.ratio == 1.0 && l.newW != 0 && l.newH != 0
  {
    LetterboxOf(SIDE, SIDE, SIDE, SIDE)
  }

  function RowsFor(dets: seq<T.Detection>): (r: seq<Row>)
    ensures |r| == |dets|
    ensures forall i | 0 <= i < |dets| :: r[i] == Row(OnCanvas(dets[i].xyxy, FULL, SIDE, SIDE, Canvas()), 1.0, dets[i].cls)
  {
    seq(|dets|, i requires 0 <= i < |dets| => Row(OnCanvas(dets[i].xyxy, FULL, SIDE, SIDE, Canvas()), 1.0, dets[i].cls))
  }

  function Everything(n: nat): (r: seq<nat>)
    ensures |r| == n && forall i | 0 <= i < n :: r[i] == i
  {
    seq(n, i requires 0 <= i < n => i)
  }

  function ModeText(mode: Mode): string {
    match mode
    case Strict => "strict"
    case VehicleGroup => "vehicle_group"
    case Any => "any"
  }

  lemma ModeComesBack(mode: Mode)
    ensures NormalizeMode(ModeText(mode)) == mode
  {
    var text := ModeText(mode);
    assert "" + text + "" == text;
    assert |"strict"| == 6 && |"vehicle_group"| == 13 && |"any"| == 3;
    assert !IsBlank('s') && !IsBlank('t') && !IsBlank('v') && !IsBlank('p') && !IsBlank('a') && !IsBlank('y');
    assert Trimmed(text);
    ModeOfText("", text, "");
  }

  function ConfigFor(maxAge: Option<int>, mode: Option<Mode>): ConfigMessage {
    ConfigMessage("onnx", "cpu", MODEL, None, None, None, None, None, maxAge,
                  if mode.Some? then Some(ModeText(mode.value)) else None)
  }

  function EventFor(e: R.Event): Event {
    match e
    case Frame(dets) => FrameEvent(0, SIDE, SIDE, 3 * SIDE, Rows(RowsFor(dets), Everything(|dets|)))
    case Settings(_, maxAge, mode) => ConfigEvent(ConfigFor(maxAge, mode), LOADED)
  }

  function EventsFor(maxAge: int, mode: Mode, es: seq<R.Event>): (r: seq<Event>)
    ensures |r| == 1 + |es|
  {
    if es == [] then [ConfigEvent(ConfigFor(Some(maxAge), Some(mode)), LOADED)]
    else EventsFor(maxAge, mode, es[..|es| - 1]) + [EventFor(es[|es| - 1])]
  }

  /** Serving, and nothing set that keeps a box away. */
  ghost predicate Open(s: State) {
    && s.adapter.Some? && s.adapter.value.input == LOADED.loaded
    && s.runtime == KeyOrElse("onnx", "onnx") && s.device == KeyOrElse("cpu", "cpu") && s.model == MODEL
    && s.conf <= 1.0 && s.filter.None? && s.roi.None? && s.inclusive.None? && s.exclusive.None?
    && s.tracker.Some?
  }

  lemma ConfigOpens(table: map<string, nat>, s: State, maxAge: Option<int>, mode: Option<Mode>)
    requires s == INITIAL || Open(s)
    ensures Open(AfterConfig(table, s, ConfigFor(maxAge, mode), LOADED))
  {
    hide KeyOrElse, TrackerAfterConfig;
  }

  lemma {:induction false} AllSelected(rows: seq<Row>, conf: real)
    requires forall r | r in rows :: r.score >= conf
    ensures Selected(rows, conf, None) == rows
    decreases |rows|
  {
    if rows == [] {
    } else {
      var init, last := rows[..|rows| - 1], rows[|rows| - 1];
      assert rows == init + [last];
      AllSelected(init, conf);
    }
  }

  lemma {:induction false} AllDecoded(rows: seq<Row>, w0: int, h0: int, l: Letterbox)
    requires w0 > 0 && h0 > 0 && l.ratio > 0.0
    requires forall i | 0 <= i < |rows| :: DecodeRow(rows[i], w0, h0, l).Some?
    ensures |DecodeRows(rows, w0, h0, l)| == |rows|
    ensures forall i | 0 <= i < |rows| :: DecodeRows(rows, w0, h0, l)[i] == DecodeRow(rows[i], w0, h0, l).value
    decreases |rows|
  {
    hide DecodeRow;
    if rows == [] {
    } else {
      AllDecoded(rows[..|rows| - 1], w0, h0, l);
    }
  }

  lemma BoxComesThrough(d: T.Detection)
    requires Proper(d.xyxy)
    ensures
      var box := DecodeRow(Row(OnCanvas(d.xyxy, FULL, SIDE, SIDE, Canvas()), 1.0, d.cls), SIDE, SIDE, Canvas());
      box.Some? && box.value.(xyxy := Remap(box.value.xyxy, FULL, SIDE, SIDE)) == Det(d.xyxy, 1.0, d.cls)
  {
    assert InCrop(d.xyxy, FULL, SIDE, SIDE);
    hide *;
    assert InFrame(FULL, SIDE, SIDE) by {
      CropInFrame(None, SIDE, SIDE);
    }
    Edges(d.xyxy);
    BoxThroughCanvas(d.xyxy, 1.0, d.cls, FULL, SIDE, SIDE, Canvas());
  }

  lemma Edges(b: Box)
    requires Proper(b)
    ensures b.x1 < b.x2 && b.y1 < b.y2
  {
  }

  /** The frame brings exactly these boxes. */
  lemma RowsComeThrough(dets: seq<T.Detection>, boxes: seq<Det>)
    requires forall d | d in dets :: Proper(d.xyxy)
    requires boxes == RemapDets(DecodeRows(RowsFor(dets), SIDE, SIDE, Canvas()), FULL, SIDE, SIDE)
    ensures |boxes| == |dets| && forall i | 0 <= i < |dets| :: boxes[i] == Det(dets[i].xyxy, 1.0, dets[i].cls)
  {
    hide *;
    var rows := RowsFor(dets);
    forall i | 0 <= i < |dets|
      ensures DecodeRow(rows[i], SIDE, SIDE, Canvas()).Some?
      ensures
        var box := DecodeRow(rows[i], SIDE, SIDE, Canvas()).value;
        box.(xyxy := Remap(box.xyxy, FULL, SIDE, SIDE)) == Det(dets[i].xyxy, 1.0, dets[i].cls)
    {
      assert dets[i] in dets;
      BoxComesThrough(dets[i]);
    }
    AllDecoded(rows, SIDE, SIDE, Canvas());
  }

  lemma FrameBrings(s: State, dets: seq<T.Detection>)
    requires Open(s) && forall d | d in dets :: Proper(d.xyxy)
    ensures
      var boxes := FrameBoxes(s, SIDE, SIDE, Rows(RowsFor(dets), Everything(|dets|)));
      boxes.Some? && ToTracker(boxes.value) == dets
  {
    var inference := Rows(RowsFor(dets), Everything(|dets|));
    var boxes := FrameBoxes(s, SIDE, SIDE, inference);
    var rows := inference.rows;
    assert CropFor(s, SIDE, SIDE) == FULL && BoxFor(s, FULL) == Canvas();
    AllSelected(rows, s.conf);
    assert Picked(rows, inference.idxs) == rows;
    hide RowsFor, Proper, DecodeRows, Selected, Canvas;
    RowsComeThrough(dets, boxes.value);
  }

  lemma FrameTells(inside: InsideTest, table: map<string, nat>, r: Session, dets: seq<T.Detection>)
    requires Open(r.state) && forall d | d in dets :: Proper(d.xyxy)
    ensures Told(inside, r.state, EventFor(R.Frame(dets))) == Some(R.Frame(dets))
    ensures Open(Handle(inside, table, r, EventFor(R.Frame(dets))).state)
  {
    FrameReplies(inside, r.state, dets);
    hide Sighted, T.Update, RowsFor, Everything, Proper;
  }

  lemma FrameReplies(inside: InsideTest, s: State, dets: seq<T.Detection>)
    requires Open(s) && forall d | d in dets :: Proper(d.xyxy)
    ensures ToTracker(Sighted(inside, s, SIDE, SIDE, 3 * SIDE, Rows(RowsFor(dets), Everything(|dets|))).0) == dets
  {
    FrameBrings(s, dets);
    var boxes := FrameBoxes(s, SIDE, SIDE, Rows(RowsFor(dets), Everything(|dets|))).value;
    NothingToFilter(inside, boxes, SIDE, SIDE);
    hide FrameBoxes, Passing, RowsFor, Everything, Proper;
  }

  lemma SettingsTell(inside: InsideTest, table: map<string, nat>, r: Session, maxAge: Option<int>, mode: Option<Mode>)
    requires Open(r.state)
    ensures Told(inside, r.state, EventFor(R.Settings(None, maxAge, mode))) == Some(R.Settings(None, maxAge, mode))
    ensures Open(Handle(inside, table, r, EventFor(R.Settings(None, maxAge, mode))).state)
  {
    ConfigOpens(table, r.state, maxAge, mode);
    hide AfterConfig, NormalizeMode;
    if mode.Some? {
      ModeComesBack(mode.value);
    }
  }

  lemma {:induction false} RunIsServed(inside: InsideTest, table: map<string, nat>, maxAge: int, mode: Mode, es: seq<R.Event>)
    requires forall e | e in es :: Tellable(e)
    ensures TrackerEvents(inside, table, EventsFor(maxAge, mode, es)) == es
    ensures Open(Serve(inside, table, EventsFor(maxAge, mode, es)).state)
    ensures FirstConfig(EventsFor(maxAge, mode, es)) == Some(ConfigFor(Some(maxAge), Some(mode)))
    decreases |es|
  {
    if es == [] {
      FirstEventTells(inside, table, maxAge, mode);
    } else {
      var init, e := es[..|es| - 1], es[|es| - 1];
      assert es == init + [e] && e in es && forall x | x in init :: x in es;
      var events := EventsFor(maxAge, mode, init);
      assert EventsFor(maxAge, mode, es) == events + [EventFor(e)];
      hide *;
      RunIsServed(inside, table, maxAge, mode, init);
      FirstConfigAppend(events, EventFor(e));
      EventTells(inside, table, events, e);
    }
  }

  lemma EventTells(inside: InsideTest, table: map<string, nat>, events: seq<Event>, e: R.Event)
    requires Open(Serve(inside, table, events).state) && Tellable(e)
    ensures TrackerEvents(inside, table, events + [EventFor(e)]) == TrackerEvents(inside, table, events) + [e]
    ensures Open(Serve(inside, table, events + [EventFor(e)]).state)
  {
    var r := Serve(inside, table, events);
    assert (events + [EventFor(e)])[..|events|] == events;
    hide Open, EventFor, Handle, Told;
    match e {
      case Frame(dets) => FrameTells(inside, table, r, dets);
      case Settings(threshold, a, m) => SettingsTell(inside, table, r, a, m);
    }
  }

  lemma FirstEventTells(inside: InsideTest, table: map<string, nat>, maxAge: int, mode: Mode)
    ensures TrackerEvents(inside, table, EventsFor(maxAge, mode, [])) == []
    ensures Open(Serve(inside, table, EventsFor(maxAge, mode, [])).state)
    ensures FirstConfig(EventsFor(maxAge, mode, [])) == Some(ConfigFor(Some(maxAge), Some(mode)))
  {
    var e := ConfigEvent(ConfigFor(Some(maxAge), Some(mode)), LOADED);
    ConfigOpens(table, INITIAL, Some(maxAge), Some(mode));
    assert [e][..0] == [];
    assert Serve(inside, table, []) == Session(INITIAL, []);
    hide AfterConfig, ConfigFor;
  }

  /** The runs of a tracker inside a session, from its creation on, are exactly the runs of boxes with an interior inside
      the frame, with any changes of grace period and mode between them, and of the threshold never. */
  lemma TrackerRunsOfSessions(inside: InsideTest, table: map<string, nat>, maxAge: int, mode: Mode, es: seq<R.Event>)
    ensures
      (exists events :: Born(events) == R.Start(TRACKER_IOU, maxAge, mode) && TrackerEvents(inside, table, events) == es)
      <==> forall e | e in es :: Tellable(e)
  {
    if events :| Born(events) == R.Start(TRACKER_IOU, maxAge, mode) && TrackerEvents(inside, table, events) == es {
      SessionsTell(inside, table, events);
    }
    if forall e | e in es :: Tellable(e) {
      RunIsServed(inside, table, maxAge, mode, es);
      BornFrom(EventsFor(maxAge, mode, es), maxAge, mode);
    }
  }

  lemma BornFrom(events: seq<Event>, maxAge: int, mode: Mode)
    requires FirstConfig(events) == Some(ConfigFor(Some(maxAge), Some(mode)))
    ensures Born(events) == R.Start(TRACKER_IOU, maxAge, mode)
  {
    ModeComesBack(mode);
    hide FirstConfig, NormalizeMode;
  }
}
