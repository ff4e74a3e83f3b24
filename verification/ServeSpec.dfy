/** The per-connection state of the worker on values: what a config and a frame do to it. */
module ServeSpec {
  import opened Options
  import opened Messages
  import opened Geometry
  import opened Coordinates
  import opened ClassMatch
  import opened Text
  import opened Filtering
  import opened Detections
  import T = TrackerSpec
  import R = TrackerRuns

  /** A loaded session: the canvas size of its model, and the device it ended up on, which is the runtime's choice. */
  datatype Input = Input(mw: Positive, mh: Positive, device: string)

  /** The adapter of a runtime; without an input it has no session yet, otherwise one it was asked to load from that model for
      that device. */
  datatype Adapter = Adapter(runtime: string, input: Option<Input>, asked: (string, string))

  type Regions = (Option<Polygon>, Option<Polygon>)

  datatype State = State(
    adapter: Option<Adapter>,
    runtime: string,
    device: string,
    model: string,
    conf: real,
    filter: Option<seq<int>>,
    roi: Option<seq<Point>>,
    inclusive: Option<seq<Point>>,
    exclusive: Option<seq<Point>>,
    polygons: map<(int, int), Regions>,
    tracker: Option<T.Tracker>)

  const INITIAL := State(None, "", "", "", 0.30, None, None, None, None, map[], None)

  const TRACKER_IOU := 0.3
  const DEFAULT_MAX_AGE := 90

  // Configuration.

  /** What the foreign code does during one config: the adapter's constructor and its load. */
  datatype ConfigOutcome = ConfigOutcome(made: bool, loaded: Option<Input>)

  /** The runtime a config asks for. */
  function Runtime(m: ConfigMessage): string {
    KeyOrElse(m.runtime, "onnx")
  }

  /** The device a config asks for. */
  function Device(m: ConfigMessage): string {
    KeyOrElse(m.device, "cpu")
  }

  /** The adapter instantiated for a runtime; the default once more for a name that was only blanks. */
  function AdapterFor(runtime: string): string {
    KeyOrElse(runtime, "onnx")
  }

  /** Fewer than three points are no polygon. */
  function CoercePoly(points: Option<seq<Point>>): (r: Option<seq<Point>>)
    ensures r.Some? <==> points.Some? && |points.value| >= 3
    ensures r.Some? ==> r == points
  {
    if points.Some? && |points.value| >= 3 then points else None
  }

  function ModeOf(text: Option<string>): Option<Mode> {
    if text.Some? then Some(NormalizeMode(text.value)) else None
  }

  function FilterOf(table: map<string, nat>, classes: Option<seq<string>>): Option<seq<int>> {
    if classes.None? then None else Some(NamesToIds(table, classes.value))
  }

  function TrackerAfterConfig(tracker: Option<T.Tracker>, m: ConfigMessage): T.Tracker {
    match tracker
    case None =>
      T.Fresh(TRACKER_IOU, if m.trackMaxAge.Some? then m.trackMaxAge.value else DEFAULT_MAX_AGE,
              if m.trackClassMatch.Some? then NormalizeMode(m.trackClassMatch.value) else VehicleGroup)
    case Some(t) => T.SetParams(t, None, m.trackMaxAge, ModeOf(m.trackClassMatch))
  }

  /** A new runtime, or none working yet: instantiate; failing that, no adapter. */
  function SwapAdapter(s: State, runtime: string, made: bool): State {
    if runtime == s.runtime && s.adapter.Some? then s
    else if made then s.(adapter := Some(Adapter(AdapterFor(runtime), None, ("", ""))), runtime := runtime, device := "", model := "")
    else s.(adapter := None, runtime := "")
  }

  /** A new model or device, or none loaded: load, all or nothing. */
  function LoadModel(s: State, model: string, device: string, loaded: Option<Input>): State {
    if s.adapter.None? || model == "" then s
    else if model == s.model && device == s.device && s.adapter.value.input.Some? then s
    else if loaded.Some? then s.(adapter := Some(s.adapter.value.(input := loaded, asked := (model, device))), model := model, device := device)
    else s
  }

  /** Thresholds, class filter and polygons; the polygon table starts over. */
  function Refiltered(table: map<string, nat>, s: State, m: ConfigMessage): State {
    s.(conf := if m.conf.Some? then m.conf.value else s.conf,
       filter := FilterOf(table, m.classes),
       roi := CoercePoly(m.roi),
       inclusive := CoercePoly(m.inclusive),
       exclusive := CoercePoly(m.exclusive),
       polygons := map[])
  }

  function AfterConfig(table: map<string, nat>, s: State, m: ConfigMessage, o: ConfigOutcome): State {
    var s1 := Refiltered(table, s.(tracker := Some(TrackerAfterConfig(s.tracker, m))), m);
    var s2 := SwapAdapter(s1, Runtime(m), o.made);
    LoadModel(s2, m.modelPath, Device(m), o.loaded)
  }

  // Frames.

  /** What the model does with one image: rows and the indices kept, or an exception. */
  datatype Inference = Fails | Rows(rows: seq<Row>, idxs: seq<nat>)

  /** The polygons to test against: from the table of this resolution, or computed and put there. */
  function Recomputed(s: State, w: int, h: int): Regions {
    (PixelPolygon(s.inclusive, w, h), PixelPolygon(s.exclusive, w, h))
  }

  function CachedRegions(s: State, w: int, h: int): Regions {
    if (w, h) in s.polygons then s.polygons[(w, h)] else Recomputed(s, w, h)
  }

  /** Nothing at all was selected: the model is not even run. */
  predicate ShortCircuit(s: State) {
    s.filter == Some([])
  }

  predicate Ready(s: State) {
    s.adapter.Some? && s.adapter.value.input.Some?
  }

  /** The letterbox of a crop for the loaded model. */
  function BoxFor(s: State, crop: Crop): (l: Letterbox)
    requires Ready(s) && crop.cw > 0 && crop.ch > 0
    ensures l.ratio > 0.0
  {
    var input := s.adapter.value.input.value;
    LetterboxFits(crop.cw, crop.ch, input.mw, input.mh);
    LetterboxOf(crop.cw, crop.ch, input.mw, input.mh)
  }

  function CropFor(s: State, w: int, h: int): (c: Crop)
    requires w > 0 && h > 0
    ensures InFrame(c, w, h)
  {
    CropInFrame(s.roi, w, h);
    CropOf(s.roi, w, h)
  }

  predicate InRange(idxs: seq<nat>, n: nat) {
    forall i | i in idxs :: i < n
  }

  /** The model's answer as boxes of the frame, before the region filter. */
  function FrameBoxes(s: State, w: int, h: int, inference: Inference): Option<seq<Det>>
    requires Ready(s)
  {
    if inference.Fails? || w <= 0 || h <= 0 then None
    else
      var crop := CropFor(s, w, h);
      var l := BoxFor(s, crop);
      var rows := Selected(inference.rows, s.conf, s.filter);
      // A side resized to nothing is refused by the resizer.
      if l.newW == 0 || l.newH == 0 || !InRange(inference.idxs, |rows|) then None
      else Some(RemapDets(DecodeRows(Picked(rows, inference.idxs), crop.cw, crop.ch, l), crop, w, h))
  }

  /** The boxes handed to the tracker and the reply; none when inference was skipped or failed. */
  function Detected(inside: InsideTest, s: State, w: int, h: int, stride: int, inference: Inference, regions: Regions): Option<seq<Det>> {
    if ShortCircuit(s) || !Ready(s) || stride < w * 3 then None
    else
      var boxes := FrameBoxes(s, w, h, inference);
      if boxes.None? then None else Some(Passing(inside, boxes.value, w, h, regions.0, regions.1))
  }

  function ToTracker(dets: seq<Det>): (r: seq<T.Detection>)
    ensures |r| == |dets|
    ensures forall i | 0 <= i < |dets| :: r[i] == T.Detection(dets[i].xyxy, dets[i].cls)
  {
    seq(|dets|, i requires 0 <= i < |dets| => T.Detection(dets[i].xyxy, dets[i].cls))
  }

  datatype FrameResult = FrameResult(next: State, reply: FrameReply)

  /** What one frame shows, and the polygon table after it. */
  function Sighted(inside: InsideTest, s: State, w: int, h: int, stride: int, inference: Inference): (seq<Det>, map<(int, int), Regions>) {
    var masked := s.inclusive.Some? || s.exclusive.Some?;
    var regions := if masked then CachedRegions(s, w, h) else (None, None);
    var detected := Detected(inside, s, w, h, stride, inference, regions);
    if detected.None? then ([], s.polygons)
    else (detected.value, if masked then s.polygons[(w, h) := regions] else s.polygons)
  }

  ghost function AfterFrame(inside: InsideTest, s: State, id: int, w: int, h: int, stride: int, inference: Inference): FrameResult {
    var (dets, polygons) := Sighted(inside, s, w, h, stride, inference);
    match s.tracker
    case None => FrameResult(s.(polygons := polygons), FrameReply(id, dets, []))
    case Some(t) =>
      var o := T.Update(t, ToTracker(dets));
      FrameResult(s.(polygons := polygons, tracker := Some(o.next)), FrameReply(id, dets, o.labels))
  }

  // Runs of one connection.

  datatype Event =
    | ConfigEvent(config: ConfigMessage, outcome: ConfigOutcome)
    | FrameEvent(id: int, w: int, h: int, stride: int, inference: Inference)
    | OtherEvent

  datatype Session = Session(state: State, replies: seq<FrameReply>)

  ghost function Handle(inside: InsideTest, table: map<string, nat>, r: Session, e: Event): Session {
    match e
    case ConfigEvent(m, o) => r.(state := AfterConfig(table, r.state, m, o))
    case FrameEvent(id, w, h, stride, inference) =>
      var f := AfterFrame(inside, r.state, id, w, h, stride, inference);
      Session(f.next, r.replies + [f.reply])
    case OtherEvent => r
  }

  ghost function Serve(inside: InsideTest, table: map<string, nat>, events: seq<Event>): Session {
    if events == [] then Session(INITIAL, [])
    else Handle(inside, table, Serve(inside, table, events[..|events| - 1]), events[|events| - 1])
  }

  /** The polygon table never disagrees with the current polygons. */
  ghost predicate PolygonsCurrent(s: State) {
    forall k | k in s.polygons :: s.polygons[k] == Recomputed(s, k.0, k.1)
  }

  ghost predicate Sound(s: State) {
    && (s.adapter.Some? ==> s.tracker.Some?)
    && (s.tracker.Some? ==> R.WellFormed(s.tracker.value) && s.tracker.value.threshold == TRACKER_IOU)
    && PolygonsCurrent(s)
    && (s.inclusive.Some? ==> |s.inclusive.value| >= 3)
    && (s.exclusive.Some? ==> |s.exclusive.value| >= 3)
  }

  lemma ConfigKeepsSound(table: map<string, nat>, s: State, m: ConfigMessage, o: ConfigOutcome)
    requires Sound(s)
    ensures Sound(AfterConfig(table, s, m, o))
  {
  }

  lemma FrameKeepsSound(inside: InsideTest, s: State, id: int, w: int, h: int, stride: int, inference: Inference)
    requires Sound(s)
    ensures Sound(AfterFrame(inside, s, id, w, h, stride, inference).next)
  {
    hide Detected, T.Update, R.WellFormed;
    if s.tracker.Some? {
      var dets := AfterFrame(inside, s, id, w, h, stride, inference).reply.dets;
      R.UpdateKeepsWellFormed(s.tracker.value, ToTracker(dets));
      ThresholdStays(s.tracker.value, ToTracker(dets));
    }
  }

  lemma ThresholdStays(t: T.Tracker, dets: seq<T.Detection>)
    ensures T.Update(t, dets).next.threshold == t.threshold && T.Update(t, dets).next.maxAge == t.maxAge
  {
  }

  lemma {:induction false} ServeKeepsSound(inside: InsideTest, table: map<string, nat>, events: seq<Event>)
    ensures Sound(Serve(inside, table, events).state)
    decreases |events|
  {
    if events == [] {
    } else {
      var n := |events| - 1;
      ServeKeepsSound(inside, table, events[..n]);
      var s := Serve(inside, table, events[..n]).state;
      hide AfterConfig, AfterFrame, Sound;
      match events[n] {
        case ConfigEvent(m, o) => ConfigKeepsSound(table, s, m, o);
        case FrameEvent(id, w, h, stride, inference) => FrameKeepsSound(inside, s, id, w, h, stride, inference);
        case OtherEvent =>
      }
    }
  }

  /** In every reachable state an adapter implies a tracker, and the polygon table equals recomputation. */
  lemma AdapterImpliesTracker(inside: InsideTest, table: map<string, nat>, events: seq<Event>)
    ensures
      var s := Serve(inside, table, events).state;
      && (s.adapter.Some? ==> s.tracker.Some?)
      && PolygonsCurrent(s)
  {
    ServeKeepsSound(inside, table, events);
  }

  /** The boxes of a reply, in order: the model's boxes in the frame that pass the current polygons at this
      resolution; none when every class is unticked, the adapter is not ready or inference fails. */
  lemma ReplyIsExact(inside: InsideTest, table: map<string, nat>, events: seq<Event>, id: int, w: int, h: int, stride: int, inference: Inference)
    ensures
      var s := Serve(inside, table, events).state;
      var reply := AfterFrame(inside, s, id, w, h, stride, inference).reply;
      && reply.id == id
      && reply.dets ==
         if ShortCircuit(s) || !Ready(s) || stride < w * 3 || FrameBoxes(s, w, h, inference).None? then []
         else Passing(inside, FrameBoxes(s, w, h, inference).value, w, h,
                      PixelPolygon(s.inclusive, w, h), PixelPolygon(s.exclusive, w, h))
  {
    hide FrameBoxes, Passing, T.Update;
    ServeKeepsSound(inside, table, events);
    var s := Serve(inside, table, events).state;
    assert CachedRegions(s, w, h) == Recomputed(s, w, h);
    if s.inclusive.None? && s.exclusive.None? {
      assert Recomputed(s, w, h) == (None, None);
    }
  }

  /** Every replied box is proper, confident and of a wanted class. */
  lemma ReplyBoxesAreWanted(inside: InsideTest, table: map<string, nat>, events: seq<Event>, id: int, w: int, h: int, stride: int, inference: Inference)
    ensures
      var s := Serve(inside, table, events).state;
      forall d | d in AfterFrame(inside, s, id, w, h, stride, inference).reply.dets ::
        && Proper(d.xyxy) && d.score >= s.conf
        && (s.filter.Some? ==> d.cls in s.filter.value)
  {
    var s := Serve(inside, table, events).state;
    ReplyIsExact(inside, table, events, id, w, h, stride, inference);
    hide AfterFrame, Serve;
    if !ShortCircuit(s) && Ready(s) && FrameBoxes(s, w, h, inference).Some? {
      FrameBoxesAreWanted(s, w, h, inference);
      hide FrameBoxes, Passes;
      PassingExact(inside, FrameBoxes(s, w, h, inference).value, w, h, PixelPolygon(s.inclusive, w, h), PixelPolygon(s.exclusive, w, h));
    }
  }

  /** Boxes decoded from selected rows. */
  lemma DecodedAreWanted(rows: seq<Row>, conf: real, filter: Option<seq<int>>, idxs: seq<nat>, w0: int, h0: int, l: Letterbox)
    requires w0 > 0 && h0 > 0 && l.ratio > 0.0 && InRange(idxs, |Selected(rows, conf, filter)|)
    ensures forall d | d in DecodeRows(Picked(Selected(rows, conf, filter), idxs), w0, h0, l) ::
      Proper(d.xyxy) && d.score >= conf && ClassWanted(filter, d.cls)
  {
    hide Selected, DecodeRows, Keeps, Proper, ClassWanted;
    var selected := Selected(rows, conf, filter);
    var picked := Picked(selected, idxs);
    SelectedExact(rows, conf, filter);
    DecodedAreProper(picked, w0, h0, l);
    forall d | d in DecodeRows(picked, w0, h0, l)
      ensures d.score >= conf && ClassWanted(filter, d.cls)
    {
      var r :| r in picked && r.score == d.score && r.cls == d.cls;
      var k :| 0 <= k < |picked| && picked[k] == r;
      assert idxs[k] in idxs && selected[idxs[k]] in selected;
    }
  }

  lemma RemappedAreWanted(dets: seq<Det>, conf: real, filter: Option<seq<int>>, crop: Crop, w: int, h: int)
    requires w > 0 && h > 0 && InFrame(crop, w, h)
    requires forall d | d in dets :: Proper(d.xyxy) && d.score >= conf && ClassWanted(filter, d.cls)
    ensures forall d | d in RemapDets(dets, crop, w, h) :: Proper(d.xyxy) && d.score >= conf && ClassWanted(filter, d.cls)
  {
    hide Remap, Proper, ClassWanted, InFrame;
    var boxes := RemapDets(dets, crop, w, h);
    forall d | d in boxes
      ensures Proper(d.xyxy) && d.score >= conf && ClassWanted(filter, d.cls)
    {
      var i :| 0 <= i < |boxes| && boxes[i] == d;
      assert dets[i] in dets;
      RemapStaysProper(dets[i].xyxy, crop, w, h);
    }
  }

  lemma FrameBoxesAreWanted(s: State, w: int, h: int, inference: Inference)
    requires Ready(s) && FrameBoxes(s, w, h, inference).Some?
    ensures forall d | d in FrameBoxes(s, w, h, inference).value ::
      Proper(d.xyxy) && d.score >= s.conf && ClassWanted(s.filter, d.cls)
  {
    hide CropFor, BoxFor, Selected, DecodeRows, RemapDets, Picked, Proper, ClassWanted, InRange;
    var crop := CropFor(s, w, h);
    var l := BoxFor(s, crop);
    DecodedAreWanted(inference.rows, s.conf, s.filter, inference.idxs, crop.cw, crop.ch, l);
    RemappedAreWanted(DecodeRows(Picked(Selected(inference.rows, s.conf, s.filter), inference.idxs), crop.cw, crop.ch, l), s.conf, s.filter, crop, w, h);
  }

  /** Every replied box carries a track id of its own, at least 1. */
  lemma ReplyIdsAreDistinct(inside: InsideTest, table: map<string, nat>, events: seq<Event>, id: int, w: int, h: int, stride: int, inference: Inference)
    ensures
      var reply := AfterFrame(inside, Serve(inside, table, events).state, id, w, h, stride, inference).reply;
      && |reply.trackIds| == |reply.dets|
      && (forall i | 0 <= i < |reply.trackIds| :: reply.trackIds[i] >= 1)
      && (forall i, j | 0 <= i < j < |reply.trackIds| :: reply.trackIds[i] != reply.trackIds[j])
  {
    ServeKeepsSound(inside, table, events);
    var s := Serve(inside, table, events).state;
    hide FrameBoxes, Passing, T.Update, R.WellFormed, Serve;
    if s.tracker.Some? {
      var dets := AfterFrame(inside, s, id, w, h, stride, inference).reply.dets;
      R.LabelsAreDistinct(s.tracker.value, ToTracker(dets));
    }
  }

  // The tracker's own run inside the session.

  /** What one event of the session tells an existing tracker. */
  ghost function Told(inside: InsideTest, s: State, e: Event): Option<R.Event> {
    if s.tracker.None? then None
    else
      match e
      case ConfigEvent(m, o) => Some(R.Settings(None, m.trackMaxAge, ModeOf(m.trackClassMatch)))
      case FrameEvent(id, w, h, stride, inference) =>
        Some(R.Frame(ToTracker(AfterFrame(inside, s, id, w, h, stride, inference).reply.dets)))
      case OtherEvent => None
  }

  /** What the tracker is told: one settings change per later config, one update per frame. */
  ghost function TrackerEvents(inside: InsideTest, table: map<string, nat>, events: seq<Event>): seq<R.Event> {
    if events == [] then []
    else
      var n := |events| - 1;
      var told := Told(inside, Serve(inside, table, events[..n]).state, events[n]);
      TrackerEvents(inside, table, events[..n]) + if told.Some? then [told.value] else []
  }

  /** The config that created the tracker. */
  ghost function FirstConfig(events: seq<Event>): Option<ConfigMessage> {
    if events == [] then None
    else if events[0].ConfigEvent? then Some(events[0].config)
    else FirstConfig(events[1..])
  }

  ghost function Born(events: seq<Event>): R.History {
    var t := if FirstConfig(events).Some? then TrackerAfterConfig(None, FirstConfig(events).value) else T.Fresh(TRACKER_IOU, DEFAULT_MAX_AGE, VehicleGroup);
    R.Start(t.threshold, t.maxAge, t.mode)
  }

  lemma {:induction false} FirstConfigAppend(events: seq<Event>, e: Event)
    ensures FirstConfig(events + [e]) ==
      if FirstConfig(events).Some? then FirstConfig(events) else if e.ConfigEvent? then Some(e.config) else None
    decreases |events|
  {
    if events == [] {
      assert events + [e] == [e];
      assert [e][1..] == [];
    } else {
      assert (events + [e])[1..] == events[1..] + [e];
      FirstConfigAppend(events[1..], e);
    }
  }

  lemma {:induction false} RunAppend(h: R.History, es: seq<R.Event>, e: R.Event)
    ensures R.Run(h, es + [e]) == R.Advance(R.Run(h, es), e)
    decreases |es|
  {
    if es == [] {
      assert es + [e] == [e];
      assert [e][1..] == [];
    } else {
      assert (es + [e])[1..] == es[1..] + [e];
      RunAppend(R.Advance(h, es[0]), es[1..], e);
    }
  }

  lemma ToldOnce(inside: InsideTest, table: map<string, nat>, r: Session, e: Event, h: R.History)
    requires r.state.tracker.Some? && r.state.tracker.value == h.now
    ensures
      var after := Handle(inside, table, r, e).state.tracker;
      after == Some(if Told(inside, r.state, e).Some? then R.Advance(h, Told(inside, r.state, e).value).now else h.now)
  {
    hide T.Update, AfterFrame, AfterConfig;
    StepInside(inside, table, r, e);
  }

  lemma BornStays(init: seq<Event>, e: Event)
    requires FirstConfig(init).Some?
    ensures Born(init + [e]) == Born(init)
  {
    FirstConfigAppend(init, e);
  }

  lemma TrackerEventsStep(inside: InsideTest, table: map<string, nat>, init: seq<Event>, e: Event)
    ensures
      var told := Told(inside, Serve(inside, table, init).state, e);
      TrackerEvents(inside, table, init + [e]) == TrackerEvents(inside, table, init) + if told.Some? then [told.value] else []
  {
    assert (init + [e])[..|init|] == init;
    hide Serve, Told;
  }

  lemma ServeStep(inside: InsideTest, table: map<string, nat>, init: seq<Event>, e: Event)
    ensures Serve(inside, table, init + [e]) == Handle(inside, table, Serve(inside, table, init), e)
  {
    assert (init + [e])[..|init|] == init;
    hide Handle;
  }

  /** The session's tracker is the tracker run on exactly those events: created by the first config, and from then on
      ticked once per frame, with the boxes replied, and not reset by any later config. */
  lemma {:induction false} TrackerRunsInside(inside: InsideTest, table: map<string, nat>, events: seq<Event>)
    ensures
      var s := Serve(inside, table, events).state;
      && s.tracker.Some? == FirstConfig(events).Some?
      && (s.tracker.Some? ==> s.tracker.value == R.Run(Born(events), TrackerEvents(inside, table, events)).now)
      && (s.tracker.None? ==> TrackerEvents(inside, table, events) == [])
    decreases |events|
  {
    hide *;
    if events == [] {
      NothingRuns(inside, table);
    } else {
      var init, e := events[..|events| - 1], events[|events| - 1];
      assert events == init + [e];
      var before := Serve(inside, table, init);
      TrackerRunsInside(inside, table, init);
      FirstConfigAppend(init, e);
      ServeStep(inside, table, init, e);
      TrackerEventsStep(inside, table, init, e);
      if before.state.tracker.Some? {
        var es, told := TrackerEvents(inside, table, init), Told(inside, before.state, e);
        BornStays(init, e);
        ToldOnce(inside, table, before, e, R.Run(Born(init), es));
        if told.Some? {
          RunAppend(Born(init), es, told.value);
        } else {
          assert es + [] == es;
        }
      } else {
        StepInside(inside, table, before, e);
        FreshRun(inside, before, e);
        StartsFresh(events);
      }
    }
  }

  lemma NothingRuns(inside: InsideTest, table: map<string, nat>)
    ensures Serve(inside, table, []).state.tracker == None && FirstConfig([]) == None && TrackerEvents(inside, table, []) == []
  {
  }

  lemma FreshRun(inside: InsideTest, r: Session, e: Event)
    requires r.state.tracker.None?
    ensures Told(inside, r.state, e).None?
  {
  }

  lemma StartsFresh(events: seq<Event>)
    ensures FirstConfig(events).Some? ==> R.Run(Born(events), []).now == TrackerAfterConfig(None, FirstConfig(events).value)
  {
  }

  lemma StepInside(inside: InsideTest, table: map<string, nat>, r: Session, e: Event)
    ensures
      var after := Handle(inside, table, r, e).state.tracker;
      match e
      case ConfigEvent(m, o) => after == Some(TrackerAfterConfig(r.state.tracker, m))
      case FrameEvent(id, w, h, stride, inference) =>
        after == if r.state.tracker.None? then None
                 else Some(T.Update(r.state.tracker.value,
                                    ToTracker(AfterFrame(inside, r.state, id, w, h, stride, inference).reply.dets)).next)
      case OtherEvent => after == r.state.tracker
  {
    hide T.Update, Detected;
  }

  function FrameIds(events: seq<Event>): seq<int> {
    if events == [] then []
    else FrameIds(events[..|events| - 1]) + (var e := events[|events| - 1]; if e.FrameEvent? then [e.id] else [])
  }

  function ReplyIds(replies: seq<FrameReply>): seq<int> {
    if replies == [] then [] else ReplyIds(replies[..|replies| - 1]) + [replies[|replies| - 1].id]
  }

  /** One reply per frame, in order, whatever inference does; nothing else is answered. */
  lemma {:induction false} OneReplyPerFrame(inside: InsideTest, table: map<string, nat>, events: seq<Event>)
    ensures ReplyIds(Serve(inside, table, events).replies) == FrameIds(events)
    decreases |events|
  {
    if events == [] {
    } else {
      var n := |events| - 1;
      OneReplyPerFrame(inside, table, events[..n]);
      var before := Serve(inside, table, events[..n]);
      var e := events[n];
      hide AfterConfig, Detected, T.Update;
      if e.FrameEvent? {
        var reply := AfterFrame(inside, before.state, e.id, e.w, e.h, e.stride, e.inference).reply;
        assert (before.replies + [reply])[..|before.replies|] == before.replies;
      }
    }
  }

  /** What a first config leaves open is onnx on the cpu, a confidence of 0.3, every class, and a tracker that matches within
      the vehicle groups from an overlap of 0.3 on and keeps what it has not seen for 90 updates. */
  lemma Defaults(inside: InsideTest, table: map<string, nat>, m: ConfigMessage, o: ConfigOutcome)
    ensures
      var s := Serve(inside, table, [ConfigEvent(m, o)]).state;
      && (m.runtime == "" && o.made ==> s.runtime == "onnx" && s.adapter.Some? && s.adapter.value.runtime == "onnx")
      && (m.device == "" && m.modelPath != "" && o.made && o.loaded.Some? ==> s.device == "cpu")
      && (m.conf.None? ==> s.conf == 0.3)
      && (m.classes.None? ==> s.filter.None?)
      && s.tracker.Some? && s.tracker.value.threshold == 0.3
      && (m.trackMaxAge.None? ==> s.tracker.value.maxAge == 90)
      && (m.trackClassMatch.None? ==> s.tracker.value.mode == VehicleGroup)
  {
    assert [ConfigEvent(m, o)][..0] == [];
    PlainName("onnx");
    PlainName("cpu");
    hide KeyOrElse;
  }

  lemma PlainName(name: string)
    requires name == "onnx" || name == "cpu"
    ensures KeyOrElse("", name) == name && KeyOrElse(name, "onnx") == name
  {
    assert "" + "" + "" == "" && "" + name + "" == name;
    assert !IsBlank(name[0]) && !IsBlank(name[|name| - 1]);
    NameIsSpelled("", "", "", name, name);
    NameIsSpelled("", name, "", "onnx", name);
  }
}
