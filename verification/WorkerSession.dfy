/** The worker's side of one connection, as it keeps its state. */
module WorkerSession {
  import opened Options
  import opened Lists
  import opened Messages
  import opened Geometry
  import opened Coordinates
  import opened ClassMatch
  import opened Detections
  import opened ByteTrack
  import opened Spec = ServeSpec
  import T = TrackerSpec

  class Connection {
    const inside: InsideTest
    const table: map<string, nat>
    var adapter: Option<Adapter>
    var currentRuntime: string
    var currentDevice: string
    var currentModel: string
    var confThr: real
    var classFilterIds: Option<seq<int>>
    var roiNorm: Option<seq<Point>>
    var inclusiveNorm: Option<seq<Point>>
    var exclusiveNorm: Option<seq<Point>>
    var polyPxCache: map<(int, int), Regions>
    var tracker: ByteTrackLite?

    ghost predicate Valid()
      reads this`tracker, tracker
    {
      tracker != null ==> tracker.Valid() && tracker.iouThr > -1.0
    }

    /** The fields of this object, with a tracker given as a value. */
    ghost function Fields(t: Option<T.Tracker>): State
      reads `adapter, `currentRuntime, `currentDevice, `currentModel, `confThr, `classFilterIds,
            `roiNorm, `inclusiveNorm, `exclusiveNorm, `polyPxCache
    {
      State(adapter, currentRuntime, currentDevice, currentModel, confThr, classFilterIds,
            roiNorm, inclusiveNorm, exclusiveNorm, polyPxCache, t)
    }

    ghost function TrackerView(): Option<T.Tracker>
      reads this`tracker, tracker, if tracker == null then [] else tracker.tracks
    {
      if tracker == null then None else Some(tracker.View())
    }

    ghost function View(): State
      reads this, tracker, if tracker == null then [] else tracker.tracks
    {
      Fields(TrackerView())
    }

    constructor (inside: InsideTest, table: map<string, nat>)
      ensures Valid() && View() == INITIAL && this.inside == inside && this.table == table
      ensures tracker == null
    {
      this.inside, this.table := inside, table;
      adapter := None;
      currentRuntime, currentDevice, currentModel := "", "", "";
      confThr := 0.30;
      classFilterIds, roiNorm, inclusiveNorm, exclusiveNorm := None, None, None, None;
      polyPxCache := map[];
      tracker := null;
    }

    method ConfigureTracker(m: ConfigMessage)
      requires Valid()
      modifies this`tracker, tracker
      ensures Valid() && TrackerView() == Some(TrackerAfterConfig(old(TrackerView()), m))
      ensures old(tracker) == null ==> fresh(tracker) && tracker.tracks == []
      ensures old(tracker) != null ==> tracker == old(tracker) && tracker.tracks == old(tracker.tracks)
    {
      if tracker == null {
        tracker := new ByteTrackLite(
          TRACKER_IOU,
          if m.trackMaxAge.Some? then m.trackMaxAge.value else DEFAULT_MAX_AGE,
          if m.trackClassMatch.Some? then NormalizeMode(m.trackClassMatch.value) else VehicleGroup);
      } else {
        tracker.SetParams(None, m.trackMaxAge, ModeOf(m.trackClassMatch));
      }
    }

    /** Instantiates the adapter if the runtime changed or there is none. */
    method ConfigureAdapter(newRuntime: string, made: bool, ghost t: Option<T.Tracker>)
      modifies this`adapter, this`currentRuntime, this`currentDevice, this`currentModel
      ensures Fields(t) == SwapAdapter(old(Fields(t)), newRuntime, made)
    {
      if newRuntime != currentRuntime || adapter.None? {
        if made {
          adapter := Some(Adapter(AdapterFor(newRuntime), None, ("", "")));
          currentRuntime := newRuntime;
          currentDevice := "";
          currentModel := "";
        } else {
          adapter := None;
          currentRuntime := "";
        }
      }
    }

    /** Loads the model if the path or the device changed or nothing is loaded. */
    method ConfigureModel(newModel: string, newDevice: string, loaded: Option<Input>, ghost t: Option<T.Tracker>)
      modifies this`adapter, this`currentDevice, this`currentModel
      ensures Fields(t) == LoadModel(old(Fields(t)), newModel, newDevice, loaded)
    {
      if adapter.Some? && newModel != "" {
        var needLoad := newModel != currentModel || newDevice != currentDevice || adapter.value.input.None?;
        if needLoad && loaded.Some? {
          adapter := Some(adapter.value.(input := loaded, asked := (newModel, newDevice)));
          currentModel := newModel;
          currentDevice := newDevice;
        }
      }
    }

    /** Thresholds, class filter and polygons; the polygon table starts over. */
    method ConfigureFilters(m: ConfigMessage, ghost t: Option<T.Tracker>)
      modifies this`confThr, this`classFilterIds, this`roiNorm, this`inclusiveNorm, this`exclusiveNorm, this`polyPxCache
      ensures Fields(t) == Refiltered(table, old(Fields(t)), m)
    {
      if m.conf.Some? {
        confThr := m.conf.value;
      }
      if m.classes.None? {
        classFilterIds := None;
      } else {
        var ids := TranslateNames(table, m.classes.value);
        classFilterIds := Some(ids);
      }
      roiNorm := CoercePoly(m.roi);
      inclusiveNorm := CoercePoly(m.inclusive);
      exclusiveNorm := CoercePoly(m.exclusive);
      polyPxCache := map[];
    }

    method HandleConfig(m: ConfigMessage, o: ConfigOutcome)
      requires Valid()
      modifies this, tracker
      ensures Valid() && View() == AfterConfig(table, old(View()), m, o)
    {
      hide TrackerAfterConfig, SwapAdapter, LoadModel, Refiltered, Runtime, Device;
      ghost var t := Some(TrackerAfterConfig(TrackerView(), m));
      ghost var s0 := Fields(t);
      assert s0 == View().(tracker := t) && View().tracker == TrackerView();
      hide Fields;
      ConfigureFilters(m, t);
      ConfigureTracker(m);
      ConfigureRuntime(m, o, t);
    }

    method ConfigureRuntime(m: ConfigMessage, o: ConfigOutcome, ghost t: Option<T.Tracker>)
      requires Valid()
      modifies this`adapter, this`currentRuntime, this`currentDevice, this`currentModel
      ensures Valid() && TrackerView() == old(TrackerView())
      ensures Fields(t) ==
        LoadModel(SwapAdapter(old(Fields(t)), Runtime(m), o.made), m.modelPath, Device(m), o.loaded)
    {
      hide Fields, SwapAdapter, LoadModel, Runtime, Device;
      ConfigureAdapter(Runtime(m), o.made, t);
      ConfigureModel(m.modelPath, Device(m), o.loaded, t);
    }

    /** The polygons of this resolution, remembered from an earlier frame or made now. */
    method RegionsFor(w: int, h: int, ghost t: Option<T.Tracker>) returns (r: Regions)
      modifies this`polyPxCache
      ensures r == CachedRegions(old(Fields(t)), w, h)
      ensures polyPxCache == old(polyPxCache)[(w, h) := r]
    {
      if (w, h) in polyPxCache {
        r := polyPxCache[(w, h)];
      } else {
        r := (PixelPolygon(inclusiveNorm, w, h), PixelPolygon(exclusiveNorm, w, h));
        polyPxCache := polyPxCache[(w, h) := r];
      }
    }

    /** Crop, run the model, decode and bring the boxes back to the frame. */
    method Infer(w: int, h: int, inference: Inference, ghost t: Option<T.Tracker>) returns (boxes: Option<seq<BoxRecord>>)
      requires Ready(Fields(t))
      ensures boxes.Some? == FrameBoxes(Fields(t), w, h, inference).Some?
      ensures boxes.Some? ==> DetsOf(boxes.value) == FrameBoxes(Fields(t), w, h, inference).value
      ensures boxes.Some? ==> Distinct(boxes.value) && forall b | b in boxes.value :: fresh(b)
    {
      hide DecodeRows, RemapDets, Selected, LetterboxOf, CropOf, DetsOf, Picked, Distinct;
      if inference.Fails? || w <= 0 || h <= 0 {
        return None;
      }
      var crop := CropToRoi(roiNorm, w, h);
      assert crop == CropFor(Fields(t), w, h);
      var input := adapter.value.input.value;
      var l := LetterboxOf(crop.cw, crop.ch, input.mw, input.mh);
      assert l == BoxFor(Fields(t), crop);
      var rows := Selected(inference.rows, confThr, classFilterIds);
      if l.newW == 0 || l.newH == 0 || !InRange(inference.idxs, |rows|) {
        return None;
      }
      hide CropFor, BoxFor;
      var out := DecodeAndRemap(rows, inference.idxs, crop, l, w, h);
      return Some(out);
    }

    method DecodeAndRemap(rows: seq<Row>, idxs: seq<nat>, crop: Crop, l: Letterbox, w: int, h: int) returns (out: seq<BoxRecord>)
      requires w > 0 && h > 0 && crop.cw > 0 && crop.ch > 0 && l.ratio > 0.0 && InRange(idxs, |rows|)
      ensures DetsOf(out) == RemapDets(DecodeRows(Picked(rows, idxs), crop.cw, crop.ch, l), crop, w, h)
      ensures Distinct(out) && forall b | b in out :: fresh(b)
    {
      hide DecodeRows, RemapDets, DetsOf, Picked, Distinct;
      out := DecodeBoxes(rows, idxs, crop.cw, crop.ch, l);
      assert forall i | 0 <= i < |out| :: out[i] in out;
      if crop != Crop(0, 0, w, h) {
        RemapBoxes(out, crop, w, h);
      } else {
        RemapFullFrame(DetsOf(out), w, h);
      }
    }

    /** The boxes of one frame, through the region filter; none when inference is skipped or fails. */
    method DetectBoxes(w: int, h: int, stride: int, inference: Inference, ghost t: Option<T.Tracker>)
      returns (boxes: seq<BoxRecord>)
      modifies this`polyPxCache
      ensures (DetsOf(boxes), polyPxCache) == Sighted(inside, old(Fields(t)), w, h, stride, inference)
      ensures Distinct(boxes) && forall b | b in boxes :: fresh(b)
    {
      hide FrameBoxes, Passing, CachedRegions;
      if classFilterIds == Some([]) || adapter.None? || adapter.value.input.None? || stride < w * 3 {
        return [];
      }
      hide DetsOf, Distinct;
      var all := Infer(w, h, inference, t);
      if all.None? {
        boxes := [];
        NoBoxes();
        return;
      }
      if inclusiveNorm.Some? || exclusiveNorm.Some? {
        var r := RegionsFor(w, h, t);
        boxes := FilterBoxesByRegions(inside, all.value, w, h, r.0, r.1);
        return;
      }
      NothingToFilter(inside, DetsOf(all.value), w, h);
      return all.value;
    }

    /** Writes the track ids and ticks the tracker, if there is one. */
    method Tick(boxes: seq<BoxRecord>, ghost dets: seq<Det>)
      requires Valid() && Distinct(boxes) && dets == DetsOf(boxes)
      modifies tracker, if tracker == null then [] else tracker.tracks, boxes
      ensures Valid() && DetsOf(boxes) == dets
      ensures TrackerView() ==
        if old(TrackerView()).None? then None else Some(T.Update(old(TrackerView()).value, ToTracker(dets)).next)
      ensures tracker != null ==>
        && |T.Update(old(TrackerView()).value, ToTracker(dets)).labels| == |boxes|
        && forall i | 0 <= i < |boxes| :: boxes[i].trackId == T.Update(old(TrackerView()).value, ToTracker(dets)).labels[i]
    {
      hide T.Update, T.Matches, DetsOf, DetectionsOf, Distinct, Decides, ToTracker;
      if tracker != null {
        assert DetectionsOf(boxes) == ToTracker(dets);
        DistinctDecide(boxes, T.Matches(tracker.View(), DetectionsOf(boxes)));
        tracker.Update(boxes);
      }
    }

    /** What follows once the boxes are known. */
    method TickAndReply(boxes: seq<BoxRecord>, ghost s: State,
                        ghost id: int, ghost w: int, ghost h: int, ghost stride: int, ghost inference: Inference)
      requires Valid() && Distinct(boxes) && View() == s.(polygons := polyPxCache)
      requires (DetsOf(boxes), polyPxCache) == Sighted(inside, s, w, h, stride, inference)
      modifies tracker, if tracker == null then [] else tracker.tracks, boxes
      ensures Valid() && Replies(boxes, AfterFrame(inside, s, id, w, h, stride, inference))
    {
      hide AfterFrame, Sighted, T.Update, DetsOf, Distinct, ToTracker;
      AfterFrameIs(inside, s, id, w, h, stride, inference, DetsOf(boxes), polyPxCache);
      Tick(boxes, DetsOf(boxes));
    }

    /** The state and the boxes to send are those of the result f. */
    ghost predicate Replies(boxes: seq<BoxRecord>, f: FrameResult)
      reads this, tracker, if tracker == null then [] else tracker.tracks, boxes
    {
      && View() == f.next
      && DetsOf(boxes) == f.reply.dets
      && (tracker != null ==>
            |f.reply.trackIds| == |boxes| && forall i | 0 <= i < |boxes| :: boxes[i].trackId == f.reply.trackIds[i])
    }

    /** Every accepted frame: detect, tick the tracker once, reply. */
    method HandleFrame(id: int, w: int, h: int, stride: int, inference: Inference) returns (boxes: seq<BoxRecord>)
      requires Valid()
      modifies this`polyPxCache, tracker, if tracker == null then [] else tracker.tracks
      ensures Valid() && Replies(boxes, AfterFrame(inside, old(View()), id, w, h, stride, inference))
    {
      hide AfterFrame, Sighted, DetsOf, Distinct, TrackerView, Replies;
      ghost var t := TrackerView();
      ghost var s := View();
      boxes := DetectBoxes(w, h, stride, inference, t);
      assert View() == s.(polygons := polyPxCache);
      assert forall i | 0 <= i < |boxes| :: boxes[i] in boxes;
      TickAndReply(boxes, s, id, w, h, stride, inference);
    }
  }

  lemma AfterFrameIs(inside: InsideTest, s: State, id: int, w: int, h: int, stride: int, inference: Inference,
                     dets: seq<Det>, polygons: map<(int, int), Regions>)
    requires (dets, polygons) == Sighted(inside, s, w, h, stride, inference)
    ensures
      var f := AfterFrame(inside, s, id, w, h, stride, inference);
      && f.reply.dets == dets
      && f.next.tracker.Some? == s.tracker.Some?
      && f.next == s.(polygons := polygons, tracker := f.next.tracker)
      && (s.tracker.Some? ==>
            var o := T.Update(s.tracker.value, ToTracker(dets));
            f.next.tracker == Some(o.next) && f.reply.trackIds == o.labels)
  {
    hide Sighted, T.Update, ToTracker;
  }

  lemma NoBoxes()
    ensures DetsOf([]) == [] && Distinct<BoxRecord>([])
  {
  }
}
