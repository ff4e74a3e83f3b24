/** The tracker object of one connection. */
module ByteTrack {
  import opened Options
  import opened Lists
  import opened Geometry
  import opened ClassMatch
  import opened Greedy
  import opened GreedyLoop
  import Spec = TrackerSpec

  /** One detection, as the adapter builds it; the tracker writes trackId. */
  class BoxRecord {
    var xyxy: Box
    var score: real
    var cls: int
    var trackId: int

    constructor (xyxy: Box, score: real, cls: int)
      ensures this.xyxy == xyxy && this.score == score && this.cls == cls && trackId == 0
    {
      this.xyxy, this.score, this.cls, trackId := xyxy, score, cls, 0;
    }
  }

  class TrackObject {
    const id: int
    var xyxy: Box
    var cls: int
    var timeSinceUpdate: int
    var hits: int

    constructor (id: int, xyxy: Box, cls: int)
      ensures View() == Spec.Track(id, xyxy, cls, 0, 1)
    {
      this.id, this.xyxy, this.cls, timeSinceUpdate, hits := id, xyxy, cls, 0, 1;
    }

    ghost function View(): Spec.Track
      reads this
    {
      Spec.Track(id, xyxy, cls, timeSinceUpdate, hits)
    }

    method TakeMatch(d: Spec.Detection)
      modifies this
      ensures View() == Spec.Track(id, d.xyxy, d.cls, 0, old(hits) + 1)
    {
      xyxy := d.xyxy;
      cls := d.cls;
      timeSinceUpdate := 0;
      hits := hits + 1;
    }

    method Miss()
      modifies this
      ensures View() == old(View()).(age := old(timeSinceUpdate) + 1)
    {
      timeSinceUpdate := timeSinceUpdate + 1;
    }
  }

  function DetectionsOf(boxes: seq<BoxRecord>): (dets: seq<Spec.Detection>)
    reads boxes
    ensures |dets| == |boxes|
    ensures forall i | 0 <= i < |boxes| :: dets[i] == Spec.Detection(boxes[i].xyxy, boxes[i].cls)
  {
    if boxes == [] then [] else DetectionsOf(boxes[..|boxes| - 1]) + [Spec.Detection(boxes[|boxes| - 1].xyxy, boxes[|boxes| - 1].cls)]
  }

  ghost function IdsOf(boxes: seq<BoxRecord>): (ids: seq<int>)
    reads boxes
    ensures |ids| == |boxes| && forall i | 0 <= i < |boxes| :: ids[i] == boxes[i].trackId
  {
    if boxes == [] then [] else IdsOf(boxes[..|boxes| - 1]) + [boxes[|boxes| - 1].trackId]
  }

  ghost function ViewsOf(tracks: seq<TrackObject>): (r: seq<Spec.Track>)
    reads tracks
    ensures |r| == |tracks|
    ensures forall i | 0 <= i < |tracks| :: r[i] == tracks[i].View()
  {
    if tracks == [] then [] else ViewsOf(tracks[..|tracks| - 1]) + [tracks[|tracks| - 1].View()]
  }

  ghost predicate Shows(tracks: seq<TrackObject>, views: seq<Spec.Track>)
    reads tracks
  {
    |tracks| == |views| && forall i | 0 <= i < |tracks| :: tracks[i].View() == views[i]
  }

  /** A track after the first `done` detections were applied. */
  function Applied(t: Spec.Track, partner: Option<nat>, dets: seq<Spec.Detection>, done: nat): Spec.Track
    requires done <= |dets|
  {
    if partner.Some? && partner.value < done then Spec.Ticked(t, partner, dets) else t
  }

  /** Of the detections before n, none after i writes the id of a match on the same record. */
  ghost predicate LastMatch(boxes: seq<BoxRecord>, picks: seq<Cell>, i: nat, n: nat)
    requires i < n <= |boxes|
  {
    forall k: nat | i < k < n && RowPartner(picks, k).Some? :: boxes[k] != boxes[i]
  }

  lemma LastMatchBefore(boxes: seq<BoxRecord>, picks: seq<Cell>, n: nat)
    requires n < |boxes| && RowPartner(picks, n).Some?
    ensures forall i: nat | i < n && LastMatch(boxes, picks, i, n + 1) :: LastMatch(boxes, picks, i, n) && boxes[i] != boxes[n]
  {
    hide RowPartner;
  }

  /** The same for the id of a birth. */
  ghost predicate LastBirth(boxes: seq<BoxRecord>, picks: seq<Cell>, i: nat, n: nat)
    requires i < n <= |boxes|
  {
    forall k: nat | i < k < n && RowPartner(picks, k).None? :: boxes[k] != boxes[i]
  }

  /** Before n no birth writes on the record at i. */
  ghost predicate NoBirth(boxes: seq<BoxRecord>, picks: seq<Cell>, i: nat, n: nat)
    requires i < |boxes| && n <= |boxes|
  {
    forall k: nat | k < n && RowPartner(picks, k).None? :: boxes[k] != boxes[i]
  }

  /** Of all places where the record at i is listed, i is the one whose id stays on it: births are written after
      matches, later ones over earlier ones. */
  ghost predicate Decides(boxes: seq<BoxRecord>, picks: seq<Cell>, i: nat)
    requires i < |boxes|
  {
    if RowPartner(picks, i).None? then LastBirth(boxes, picks, i, |boxes|)
    else NoBirth(boxes, picks, i, |boxes|) && LastMatch(boxes, picks, i, |boxes|)
  }

  /** A record listed once is decided where it is listed. */
  lemma DistinctDecide(boxes: seq<BoxRecord>, picks: seq<Cell>)
    requires Distinct(boxes)
    ensures forall i: nat | i < |boxes| :: Decides(boxes, picks, i)
  {
    hide RowPartner;
  }

  /** The first `done` detections have been applied. */
  ghost predicate AppliedUpTo(tracks: seq<TrackObject>, boxes: seq<BoxRecord>, dets: seq<Spec.Detection>,
                              picks: seq<Cell>, views: seq<Spec.Track>, done: nat)
    reads tracks, boxes
  {
    && done <= |dets| == |boxes| && |views| == |tracks|
    && Inverse(picks, |dets|, |tracks|)
    && (forall j | 0 <= j < |tracks| :: tracks[j].View() == Applied(views[j], ColPartner(picks, j), dets, done))
    && (forall i: nat | i < done && RowPartner(picks, i).Some? && LastMatch(boxes, picks, i, done) ::
          boxes[i].trackId == views[RowPartner(picks, i).value].id)
  }

  lemma SkipOne(tracks: seq<TrackObject>, boxes: seq<BoxRecord>, dets: seq<Spec.Detection>,
                picks: seq<Cell>, views: seq<Spec.Track>, done: nat)
    requires done < |dets| && AppliedUpTo(tracks, boxes, dets, picks, views, done)
    requires RowPartner(picks, done).None?
    ensures AppliedUpTo(tracks, boxes, dets, picks, views, done + 1)
  {
    hide RowPartner, ColPartner, Applied;
    assert forall j: nat :: ColPartner(picks, j) != Some(done);
    AppliedStep(views, picks, dets, done);
  }

  method ApplyOne(tracks: seq<TrackObject>, boxes: seq<BoxRecord>, dets: seq<Spec.Detection>, di: nat, ti: nat,
                  ghost picks: seq<Cell>, ghost views: seq<Spec.Track>)
    requires Distinct(tracks)
    requires di < |dets| && AppliedUpTo(tracks, boxes, dets, picks, views, di)
    requires RowPartner(picks, di) == Some(ti)
    modifies tracks, boxes`trackId
    ensures AppliedUpTo(tracks, boxes, dets, picks, views, di + 1)
  {
    hide RowPartner, ColPartner, Distinct, Applied, LastMatch;
    assert ColPartner(picks, ti) == Some(di);
    assert forall j: nat | j != ti :: ColPartner(picks, j) != Some(di);
    AppliedStep(views, picks, dets, di);
    DistinctElsewhere(tracks, ti);
    LastMatchBefore(boxes, picks, di);
    tracks[ti].TakeMatch(dets[di]);
    boxes[di].trackId := tracks[ti].id;
  }

  /** The matched detections overwrite their tracks and take their ids. */
  method ApplyMatches(tracks: seq<TrackObject>, boxes: seq<BoxRecord>, dets: seq<Spec.Detection>,
                      detToTrack: array<Option<nat>>, ghost picks: seq<Cell>, ghost views: seq<Spec.Track>)
    requires Distinct(tracks)
    requires |dets| == |boxes| == detToTrack.Length
    requires Inverse(picks, |dets|, |tracks|)
    requires forall i | 0 <= i < detToTrack.Length :: detToTrack[i] == RowPartner(picks, i)
    requires Shows(tracks, views)
    modifies tracks, boxes`trackId
    ensures AppliedUpTo(tracks, boxes, dets, picks, views, |dets|)
  {
    AppliedNone(views, picks, dets);
    assert AppliedUpTo(tracks, boxes, dets, picks, views, 0) by {
      hide RowPartner, ColPartner, Applied;
    }
    hide RowPartner, ColPartner, Applied, AppliedUpTo, Inverse, Distinct;
    for di := 0 to |boxes|
      invariant AppliedUpTo(tracks, boxes, dets, picks, views, di)
    {
      if detToTrack[di].None? {
        SkipOne(tracks, boxes, dets, picks, views, di);
        continue;
      }
      ApplyOne(tracks, boxes, dets, di, detToTrack[di].value, picks, views);
    }
  }

  lemma AppliedNone(views: seq<Spec.Track>, picks: seq<Cell>, dets: seq<Spec.Detection>)
    ensures forall j: nat | j < |views| :: Applied(views[j], ColPartner(picks, j), dets, 0) == views[j]
  {
  }

  lemma AppliedStep(views: seq<Spec.Track>, picks: seq<Cell>, dets: seq<Spec.Detection>, done: nat)
    requires done < |dets|
    ensures forall j: nat | j < |views| ::
      Applied(views[j], ColPartner(picks, j), dets, done + 1) ==
      if ColPartner(picks, j) == Some(done)
      then Spec.Track(views[j].id, dets[done].xyxy, dets[done].cls, 0, views[j].hits + 1)
      else Applied(views[j], ColPartner(picks, j), dets, done)
    ensures forall j: nat | j < |views| && ColPartner(picks, j) == Some(done) ::
      Applied(views[j], ColPartner(picks, j), dets, done) == views[j]
  {
  }

  lemma DistinctElsewhere<T>(s: seq<T>, k: nat)
    requires Distinct(s) && k < |s|
    ensures forall i | 0 <= i < |s| && i != k :: s[i] != s[k]
  {
  }

  method AgeUnmatched(tracks: seq<TrackObject>, trkMatched: array<bool>, ghost views: seq<Spec.Track>)
    requires Distinct(tracks) && trkMatched.Length == |tracks|
    requires Shows(tracks, views)
    modifies tracks
    ensures forall j | 0 <= j < |tracks| ::
      tracks[j].View() == if trkMatched[j] then views[j] else views[j].(age := views[j].age + 1)
  {
    hide Distinct;
    for ti := 0 to |tracks|
      invariant forall j | 0 <= j < |tracks| ::
        tracks[j].View() == if j >= ti || trkMatched[j] then views[j] else views[j].(age := views[j].age + 1)
    {
      DistinctElsewhere(tracks, ti);
      if !trkMatched[ti] {
        tracks[ti].Miss();
      }
    }
  }

  method AgeAll(tracks: seq<TrackObject>, ghost views: seq<Spec.Track>)
    requires Distinct(tracks) && Shows(tracks, views)
    modifies tracks
    ensures forall j | 0 <= j < |tracks| :: tracks[j].View() == views[j].(age := views[j].age + 1)
  {
    hide Distinct;
    for ti := 0 to |tracks|
      invariant forall j | 0 <= j < |tracks| ::
        tracks[j].View() == if j >= ti then views[j] else views[j].(age := views[j].age + 1)
    {
      DistinctElsewhere(tracks, ti);
      tracks[ti].Miss();
    }
  }

  method TickTracks(tracks: seq<TrackObject>, boxes: seq<BoxRecord>, dets: seq<Spec.Detection>,
                    detToTrack: array<Option<nat>>, trkMatched: array<bool>, ghost picks: seq<Cell>, ghost views: seq<Spec.Track>)
    requires Distinct(tracks)
    requires |dets| == |boxes| == detToTrack.Length && trkMatched.Length == |tracks|
    requires Inverse(picks, |dets|, |tracks|) && Spec.OneToOne(picks, |dets|, |tracks|)
    requires forall i | 0 <= i < detToTrack.Length :: detToTrack[i] == RowPartner(picks, i)
    requires forall j | 0 <= j < trkMatched.Length :: trkMatched[j] == ColPartner(picks, j).Some?
    requires Shows(tracks, views)
    modifies tracks, boxes`trackId
    ensures Shows(tracks, Spec.TickAll(views, dets, picks))
    ensures forall i: nat | i < |boxes| && RowPartner(picks, i).Some? && LastMatch(boxes, picks, i, |boxes|) ::
      boxes[i].trackId == views[RowPartner(picks, i).value].id
  {
    hide RowPartner, ColPartner, Distinct, ViewsOf, Spec.TickAll;
    ApplyMatches(tracks, boxes, dets, detToTrack, picks, views);
    AgeUnmatched(tracks, trkMatched, ViewsOf(tracks));
  }

  lemma SurvivorsExtend(views: seq<Spec.Track>, i: nat, maxAge: int)
    requires i < |views|
    ensures Spec.Survivors(views[..i + 1], maxAge) ==
      Spec.Survivors(views[..i], maxAge) + if views[i].age <= maxAge then [views[i]] else []
  {
    assert views[..i + 1][..i] == views[..i];
  }

  method Pruned(tracks: seq<TrackObject>, maxAge: int, ghost views: seq<Spec.Track>) returns (kept: seq<TrackObject>)
    requires Distinct(tracks) && Shows(tracks, views)
    ensures Shows(kept, Spec.Survivors(views, maxAge))
    ensures Distinct(kept) && forall t | t in kept :: t in tracks
  {
    hide Spec.Survivors;
    kept := [];
    NoSurvivors(maxAge);
    assert views[..0] == [];
    for i := 0 to |tracks|
      invariant Shows(kept, Spec.Survivors(views[..i], maxAge))
      invariant Distinct(kept) && forall t | t in kept :: t in tracks[..i]
    {
      SurvivorsExtend(views, i, maxAge);
      assert tracks[i] !in tracks[..i];
      if tracks[i].timeSinceUpdate <= maxAge {
        kept := kept + [tracks[i]];
      }
    }
    assert views[..|tracks|] == views;
  }

  lemma NoSurvivors(maxAge: int)
    ensures Spec.Survivors([], maxAge) == []
  {
  }

  class ByteTrackLite {
    var nextId: int
    var tracks: seq<TrackObject>
    var iouThr: real
    var maxAge: int
    var matchMode: Mode

    ghost predicate Valid()
      reads this
    {
      Distinct(tracks)
    }

    ghost function View(): Spec.Tracker
      reads this, tracks
    {
      Spec.Tracker(ViewsOf(tracks), nextId, iouThr, maxAge, matchMode)
    }

    constructor (iouThr: real, maxAge: int, matchMode: Mode)
      ensures Valid() && tracks == [] && View() == Spec.Fresh(iouThr, maxAge, matchMode)
    {
      nextId, tracks := 1, [];
      this.iouThr, this.maxAge, this.matchMode := iouThr, maxAge, matchMode;
    }

    method SetParams(iouThr: Option<real>, maxAge: Option<int>, matchMode: Option<Mode>)
      requires Valid()
      modifies this`iouThr, this`maxAge, this`matchMode
      ensures Valid() && View() == Spec.SetParams(old(View()), iouThr, maxAge, matchMode)
      ensures this.iouThr == (if iouThr.Some? then iouThr.value else old(this.iouThr))
      ensures this.maxAge == (if maxAge.Some? then maxAge.value else old(this.maxAge))
      ensures this.matchMode == (if matchMode.Some? then matchMode.value else old(this.matchMode))
    {
      hide ViewsOf, Distinct;
      if iouThr.Some? {
        this.iouThr := iouThr.value;
      }
      if maxAge.Some? {
        this.maxAge := maxAge.value;
      }
      if matchMode.Some? {
        this.matchMode := matchMode.value;
      }
    }

    method LiveCount() returns (n: nat)
      ensures n == |View().tracks|
    {
      n := |tracks|;
    }

    method NewTrack(xyxy: Box, cls: int, ghost views: seq<Spec.Track>) returns (tid: int)
      requires Valid() && Shows(tracks, views)
      modifies this`nextId, this`tracks
      ensures Valid() && tid == old(nextId) && nextId == old(nextId) + 1
      ensures |tracks| == |old(tracks)| + 1 && tracks[..|old(tracks)|] == old(tracks) && fresh(tracks[|old(tracks)|])
      ensures Shows(tracks, views + [Spec.Track(tid, xyxy, cls, 0, 1)])
    {
      tid := nextId;
      nextId := nextId + 1;
      var t := new TrackObject(tid, xyxy, cls);
      tracks := tracks + [t];
    }

    method AgeAndPrune()
      requires Valid()
      modifies this`tracks, tracks
      ensures Valid() && forall t | t in tracks :: t in old(tracks)
      ensures View() == Spec.Update(old(View()), []).next
    {
      hide ViewsOf, Spec.Survivors, Spec.TickAll, Spec.Update;
      ghost var s := View();
      AgeAll(tracks, s.tracks);
      Spec.NothingDetected(s);
      tracks := Pruned(tracks, maxAge, Spec.TickAll(s.tracks, [], []));
    }

    /** Unmatched detections become tracks, in input order. */
    method GiveBirth(boxes: seq<BoxRecord>, dets: seq<Spec.Detection>, detMatched: array<bool>, ghost picks: seq<Cell>,
                     ghost views: seq<Spec.Track>)
      requires Valid() && |dets| == |boxes| == detMatched.Length
      requires forall i | 0 <= i < |boxes| :: detMatched[i] == RowPartner(picks, i).Some?
      requires Shows(tracks, views)
      modifies this`nextId, this`tracks, boxes`trackId
      ensures Valid() && forall t | t in tracks :: t in old(tracks) || fresh(t)
      ensures nextId == old(nextId) + Spec.Unmatched(picks, |dets|)
      ensures Shows(tracks, views + Spec.Births(old(nextId), dets, picks, |dets|))
      ensures forall i: nat | i < |boxes| && NoBirth(boxes, picks, i, |boxes|) :: boxes[i].trackId == old(boxes[i].trackId)
      ensures forall i: nat | i < |boxes| && RowPartner(picks, i).None? && LastBirth(boxes, picks, i, |boxes|) ::
        boxes[i].trackId == old(nextId) + Spec.Unmatched(picks, i)
    {
      hide Distinct, RowPartner, Labelled, IdsOf, Spec.Births, Spec.Unmatched, Spec.Newborn;
      BirthsStart(old(nextId), dets, picks);
      ghost var born: seq<Spec.Track> := [];
      ghost var before := IdsOf(boxes);
      ghost var ids := before;
      assert views + born == views;
      NothingLabelled(boxes, picks, old(nextId), before);
      for di := 0 to |boxes|
        invariant Valid() && forall t | t in tracks :: t in old(tracks) || fresh(t)
        invariant nextId == old(nextId) + Spec.Unmatched(picks, di)
        invariant born == Spec.Births(old(nextId), dets, picks, di) && Shows(tracks, views + born)
        invariant |ids| == |boxes| && forall i | 0 <= i < |boxes| :: boxes[i].trackId == ids[i]
        invariant Labelled(boxes, picks, old(nextId), before, ids, di)
      {
        BirthsStep(old(nextId), dets, picks, di);
        if detMatched[di] {
          LabelSkipped(boxes, picks, old(nextId), before, ids, di);
        } else {
          var tid := NewTrack(dets[di].xyxy, dets[di].cls, views + born);
          boxes[di].trackId := tid;
          ghost var next := IdsOf(boxes);
          LabelGiven(boxes, picks, old(nextId), before, ids, next, di);
          ids := next;
          assert (views + born) + [Spec.Track(tid, dets[di].xyxy, dets[di].cls, 0, 1)] ==
            views + (born + [Spec.Newborn(old(nextId), dets, picks, di)]);
          born := born + [Spec.Newborn(old(nextId), dets, picks, di)];
        }
      }
      LabelsGiven(boxes, picks, old(nextId), before, ids);
    }

    lemma ViewParts()
      requires Valid()
      ensures Distinct(tracks) && |View().tracks| == |tracks| && Shows(tracks, View().tracks)
      ensures View().threshold == iouThr && View().maxAge == maxAge && View().nextId == nextId && View().mode == matchMode
    {
    }

    /** Overlaps of all pairs, masked by class. */
    method WeightMatrix(boxes: seq<BoxRecord>, dets: seq<Spec.Detection>, ghost s: Spec.Tracker) returns (iou: array2<real>)
      requires s == View() && dets == DetectionsOf(boxes)
      ensures fresh(iou) && iou.Length0 == |boxes| && iou.Length1 == |tracks|
      ensures GridOf(iou) == Spec.Weights(s, dets)
    {
      hide GridOf, Spec.Weights, Spec.Weight, ViewsOf, DetectionsOf;
      var mode := matchMode;
      var trks := Snapshot(tracks);
      iou := new real[|boxes|, |tracks|]((i, j) requires 0 <= i < |dets| && 0 <= j < |trks| => Spec.Weight(mode, dets[i], trks[j]));
      WeightsMatch(s, dets, iou);
    }

    /** Builds the matrix, runs the loop, applies the matches and ages the rest. */
    method MatchAndAge(boxes: seq<BoxRecord>, dets: seq<Spec.Detection>, ghost s: Spec.Tracker)
      returns (detMatched: array<bool>)
      requires Valid() && iouThr > -1.0 && s == View()
      requires boxes != [] && tracks != [] && dets == DetectionsOf(boxes)
      requires Inverse(Spec.Matches(s, dets), |dets|, |s.tracks|)
      requires Spec.OneToOne(Spec.Matches(s, dets), |dets|, |s.tracks|)
      modifies tracks, boxes`trackId
      ensures Shows(tracks, Spec.TickAll(s.tracks, dets, Spec.Matches(s, dets)))
      ensures fresh(detMatched) && detMatched.Length == |boxes|
      ensures forall i | 0 <= i < |boxes| :: detMatched[i] == RowPartner(Spec.Matches(s, dets), i).Some?
      ensures forall i: nat | i < |boxes| && detMatched[i] && LastMatch(boxes, Spec.Matches(s, dets), i, |boxes|) ::
        boxes[i].trackId == s.tracks[RowPartner(Spec.Matches(s, dets), i).value].id
    {
      hide *;
      ghost var picks := Spec.Matches(s, dets);
      ViewParts();
      MatchesArePicks(s, dets);
      var iou := WeightMatrix(boxes, dets, s);
      var trkMatched, detToTrack;
      detMatched, trkMatched, detToTrack := GreedyMatch(iou, iouThr);
      TickTracks(tracks, boxes, dets, detToTrack, trkMatched, picks, s.tracks);
    }

    method MatchAndBirth(boxes: seq<BoxRecord>, dets: seq<Spec.Detection>, ghost s: Spec.Tracker)
      requires Valid() && iouThr > -1.0 && s == View()
      requires boxes != [] && tracks != [] && dets == DetectionsOf(boxes)
      modifies this`nextId, this`tracks, tracks, boxes`trackId
      ensures Valid() && forall t | t in tracks :: t in old(tracks) || fresh(t)
      ensures View() == Spec.Update(s, dets).next
      ensures |Spec.Update(s, dets).labels| == |boxes|
      ensures forall i: nat | i < |boxes| && Decides(boxes, Spec.Matches(s, dets), i) :: boxes[i].trackId == Spec.Update(s, dets).labels[i]
    {
      hide Spec.Matches, Spec.TickAll, Spec.Survivors, Spec.Births, Spec.Unmatched, Spec.Update;
      hide Inverse, RowPartner, ColPartner, ViewsOf, DetectionsOf, Distinct;
      ghost var picks := Spec.Matches(s, dets);
      Spec.MatchesAreInverse(s, dets);
      assert forall c | c in picks :: c.row < |dets|;
      hide Spec.OneToOne;
      var detMatched := MatchAndAge(boxes, dets, s);
      // Pruning comes before births: the list of matched tracks has one entry per old track.
      tracks := Pruned(tracks, maxAge, Spec.TickAll(s.tracks, dets, picks));
      GiveBirth(boxes, dets, detMatched, picks, Spec.Survivors(Spec.TickAll(s.tracks, dets, picks), s.maxAge));
      Spec.UpdateUnfolds(s, dets);
    }

    /** Writes a track id on every box and moves the tracks one tick on. */
    method Update(boxes: seq<BoxRecord>)
      requires Valid() && iouThr > -1.0
      modifies this`nextId, this`tracks, tracks, boxes`trackId
      ensures Valid() && forall t | t in tracks :: t in old(tracks) || fresh(t)
      ensures View() == Spec.Update(old(View()), old(DetectionsOf(boxes))).next
      ensures |Spec.Update(old(View()), old(DetectionsOf(boxes))).labels| == |boxes|
      ensures forall i: nat | i < |boxes| && Decides(boxes, Spec.Matches(old(View()), old(DetectionsOf(boxes))), i) ::
        boxes[i].trackId == Spec.Update(old(View()), old(DetectionsOf(boxes))).labels[i]
    {
      hide Spec.Update;
      if |boxes| == 0 {
        AgeAndPrune();
        Spec.LabelCount(old(View()), []);
        return;
      }
      var dets := DetectionsOf(boxes);
      ghost var s := View();
      if |tracks| == 0 {
        OnlyBirths(boxes, dets, s);
        return;
      }
      MatchAndBirth(boxes, dets, s);
    }

    method OnlyBirths(boxes: seq<BoxRecord>, dets: seq<Spec.Detection>, ghost s: Spec.Tracker)
      requires Valid() && s == View() && tracks == [] && dets == DetectionsOf(boxes)
      modifies this`nextId, this`tracks, tracks, boxes`trackId
      ensures Valid() && forall t | t in tracks :: fresh(t)
      ensures View() == Spec.Update(s, dets).next
      ensures |Spec.Update(s, dets).labels| == |boxes|
      ensures forall i: nat | i < |boxes| && Decides(boxes, Spec.Matches(s, dets), i) :: boxes[i].trackId == Spec.Update(s, dets).labels[i]
    {
      hide Spec.Update, ViewsOf, Spec.Births;
      var none := new bool[|boxes|](_ => false);
      assert forall k: nat :: RowPartner([], k) == None;
      GiveBirth(boxes, dets, none, [], []);
      Spec.NothingTracked(s, dets);
    }
  }

  /** The ids on the boxes after the births among the first n detections: untouched records keep theirs, the others show
      the last birth. */
  ghost predicate Labelled(boxes: seq<BoxRecord>, picks: seq<Cell>, base: int, before: seq<int>, ids: seq<int>, n: nat) {
    && |before| == |ids| == |boxes| && n <= |boxes|
    && (forall i: nat | i < |boxes| && NoBirth(boxes, picks, i, n) :: ids[i] == before[i])
    && (forall i: nat | i < n && RowPartner(picks, i).None? && LastBirth(boxes, picks, i, n) :: ids[i] == base + Spec.Unmatched(picks, i))
  }

  lemma BirthsStart(nextId: int, dets: seq<Spec.Detection>, picks: seq<Cell>)
    ensures Spec.Births(nextId, dets, picks, 0) == [] && Spec.Unmatched(picks, 0) == 0
  {
  }

  lemma BirthsStep(nextId: int, dets: seq<Spec.Detection>, picks: seq<Cell>, i: nat)
    requires i < |dets|
    ensures RowPartner(picks, i).None? ==>
      && Spec.Births(nextId, dets, picks, i + 1) == Spec.Births(nextId, dets, picks, i) + [Spec.Newborn(nextId, dets, picks, i)]
      && Spec.Unmatched(picks, i + 1) == Spec.Unmatched(picks, i) + 1
      && Spec.Newborn(nextId, dets, picks, i) == Spec.Track(nextId + Spec.Unmatched(picks, i), dets[i].xyxy, dets[i].cls, 0, 1)
    ensures RowPartner(picks, i).Some? ==>
      && Spec.Births(nextId, dets, picks, i + 1) == Spec.Births(nextId, dets, picks, i)
      && Spec.Unmatched(picks, i + 1) == Spec.Unmatched(picks, i)
  {
    hide RowPartner;
  }

  lemma NothingLabelled(boxes: seq<BoxRecord>, picks: seq<Cell>, base: int, before: seq<int>)
    requires |before| == |boxes|
    ensures Labelled(boxes, picks, base, before, before, 0)
  {
  }

  lemma LabelSkipped(boxes: seq<BoxRecord>, picks: seq<Cell>, base: int, before: seq<int>, ids: seq<int>, n: nat)
    requires n < |boxes| && Labelled(boxes, picks, base, before, ids, n) && RowPartner(picks, n).Some?
    ensures Labelled(boxes, picks, base, before, ids, n + 1)
  {
    hide RowPartner;
  }

  lemma NoBirthStep(boxes: seq<BoxRecord>, picks: seq<Cell>, i: nat, n: nat)
    requires i < |boxes| && n < |boxes| && RowPartner(picks, n).None?
    ensures NoBirth(boxes, picks, i, n + 1) ==> NoBirth(boxes, picks, i, n) && boxes[n] != boxes[i]
  {
    hide RowPartner;
  }

  lemma LastBirthStep(boxes: seq<BoxRecord>, picks: seq<Cell>, i: nat, n: nat)
    requires i < n < |boxes| && RowPartner(picks, n).None?
    ensures LastBirth(boxes, picks, i, n + 1) ==> LastBirth(boxes, picks, i, n) && boxes[n] != boxes[i]
  {
    hide RowPartner;
  }

  lemma LabelGiven(boxes: seq<BoxRecord>, picks: seq<Cell>, base: int, before: seq<int>, ids: seq<int>, next: seq<int>, n: nat)
    requires n < |boxes| && Labelled(boxes, picks, base, before, ids, n) && RowPartner(picks, n).None?
    requires |next| == |ids|
    requires forall i | 0 <= i < |ids| :: next[i] == if boxes[i] == boxes[n] then base + Spec.Unmatched(picks, n) else ids[i]
    ensures Labelled(boxes, picks, base, before, next, n + 1)
  {
    hide RowPartner, NoBirth, LastBirth, Spec.Unmatched;
    forall i: nat | i < |boxes| && NoBirth(boxes, picks, i, n + 1)
      ensures next[i] == before[i]
    {
      NoBirthStep(boxes, picks, i, n);
    }
    forall i: nat | i < n + 1 && RowPartner(picks, i).None? && LastBirth(boxes, picks, i, n + 1)
      ensures next[i] == base + Spec.Unmatched(picks, i)
    {
      if i < n {
        LastBirthStep(boxes, picks, i, n);
      }
    }
  }

  lemma LabelsGiven(boxes: seq<BoxRecord>, picks: seq<Cell>, base: int, before: seq<int>, ids: seq<int>)
    requires Labelled(boxes, picks, base, before, ids, |boxes|)
    ensures |before| == |ids| == |boxes|
    ensures forall i: nat | i < |boxes| && NoBirth(boxes, picks, i, |boxes|) :: ids[i] == before[i]
    ensures forall i: nat | i < |boxes| && RowPartner(picks, i).None? && LastBirth(boxes, picks, i, |boxes|) ::
      ids[i] == base + Spec.Unmatched(picks, i)
  {
  }

  lemma MatchesArePicks(s: Spec.Tracker, dets: seq<Spec.Detection>)
    ensures Spec.Matches(s, dets) == Picks(Spec.Weights(s, dets), Spec.Weights(s, dets).Keys, s.threshold)
  {
  }

  /** The matrix built for the loop is the weighted grid of the specification. */
  lemma WeightsMatch(s: Spec.Tracker, dets: seq<Spec.Detection>, iou: array2<real>)
    requires iou.Length0 == |dets| && iou.Length1 == |s.tracks|
    requires forall i, j | 0 <= i < |dets| && 0 <= j < |s.tracks| :: iou[i, j] == Spec.Weight(s.mode, dets[i], s.tracks[j])
    ensures GridOf(iou) == Spec.Weights(s, dets)
  {
    hide Spec.Weight;
  }

  function Snapshot(tracks: seq<TrackObject>): (r: seq<Spec.Track>)
    reads tracks
    ensures r == ViewsOf(tracks)
  {
    if tracks == [] then []
    else
      var t := tracks[|tracks| - 1];
      Snapshot(tracks[..|tracks| - 1]) + [Spec.Track(t.id, t.xyxy, t.cls, t.timeSinceUpdate, t.hits)]
  }
}
