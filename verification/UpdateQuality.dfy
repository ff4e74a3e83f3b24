/** What an update promises, told from boxes, classes and labels alone. */
module UpdateQuality {
  import opened Options
  import opened Geometry
  import opened ClassMatch
  import opened Greedy
  import opened TrackerSpec
  import opened TrackerRuns
  import opened TrackerMeaning
  import opened MatchQuality

  /** Detections and live tracks of known classes. */
  ghost predicate Classed(s: Tracker, dets: seq<Detection>) {
    (forall t | t in s.tracks :: t.cls >= 0) && (forall d | d in dets :: d.cls >= 0)
  }

  /** The mode calls their classes interchangeable, and their boxes overlap enough. */
  predicate Fitting(s: Tracker, d: Detection, t: Track) {
    Interchangeable(d.cls, t.cls, s.mode) && Iou(d.xyxy, t.xyxy) >= s.threshold
  }

  /** The mask leaves the overlap of interchangeable classes alone and takes that of all others away. */
  lemma WeightOf(mode: Mode, d: Detection, t: Track)
    requires d.cls >= 0 && t.cls >= 0
    ensures Weight(mode, d, t) == if Interchangeable(d.cls, t.cls, mode) then Iou(d.xyxy, t.xyxy) else 0.0
  {
    CanonicalClassIsExact(d.cls, t.cls, mode);
    hide Iou;
  }

  lemma FittingIsAdmissible(s: Tracker, d: Detection, t: Track)
    requires d.cls >= 0 && t.cls >= 0 && s.threshold > 0.0
    ensures Weight(s.mode, d, t) >= s.threshold <==> Fitting(s, d, t)
  {
    WeightOf(s.mode, d, t);
    hide Weight, Iou, Interchangeable;
  }

  /** Detection i carries the id of track j. */
  ghost predicate Taken(s: Tracker, dets: seq<Detection>, i: nat, j: nat) {
    && i < |dets| && j < |s.tracks| && |Update(s, dets).labels| == |dets|
    && Update(s, dets).labels[i] == s.tracks[j].id
  }

  lemma TakenIsMatched(s: Tracker, dets: seq<Detection>, i: nat, j: nat)
    requires WellFormed(s) && i < |dets| && j < |s.tracks|
    ensures Taken(s, dets, i, j) <==> Cell(i, j) in Matches(s, dets)
  {
    UpdateMeans(s, dets);
    hide Update, Matches, WellFormed, Remains;
  }

  /** A pair that fits is taken, or one of its ends is taken by a pair that overlaps at least as much. */
  ghost predicate Served(s: Tracker, dets: seq<Detection>, i: nat, j: nat)
    requires i < |dets| && j < |s.tracks|
  {
    exists a: nat, b: nat :: Taken(s, dets, a, b) && (a == i || b == j) &&
      Iou(dets[a].xyxy, s.tracks[b].xyxy) >= Iou(dets[i].xyxy, s.tracks[j].xyxy)
  }

  /** Detections carry ids of tracks that fit them, and no pair that fits is left out for pairs that overlap less. */
  lemma UpdateIsStable(s: Tracker, dets: seq<Detection>)
    requires WellFormed(s) && Classed(s, dets) && s.threshold > 0.0
    ensures forall i: nat, j: nat | Taken(s, dets, i, j) :: Fitting(s, dets[i], s.tracks[j])
    ensures forall i: nat, j: nat | i < |dets| && j < |s.tracks| && Fitting(s, dets[i], s.tracks[j]) :: Served(s, dets, i, j)
  {
    hide *;
    forall i: nat, j: nat | Taken(s, dets, i, j)
      ensures i < |dets| && j < |s.tracks| && Fitting(s, dets[i], s.tracks[j])
    {
      TakenFits(s, dets, i, j);
    }
    forall i: nat, j: nat | i < |dets| && j < |s.tracks| && Fitting(s, dets[i], s.tracks[j])
      ensures Served(s, dets, i, j)
    {
      FittingIsServed(s, dets, i, j);
    }
  }

  lemma TakenFits(s: Tracker, dets: seq<Detection>, i: nat, j: nat)
    requires WellFormed(s) && Classed(s, dets) && s.threshold > 0.0 && Taken(s, dets, i, j)
    ensures i < |dets| && j < |s.tracks| && Fitting(s, dets[i], s.tracks[j])
  {
    hide WellFormed, Update, Matches, Weight, Fitting;
    TakenIsMatched(s, dets, i, j);
    AdmittedPair(s, dets, i, j);
    FittingIsAdmissible(s, dets[i], s.tracks[j]);
  }

  lemma AdmittedPair(s: Tracker, dets: seq<Detection>, i: nat, j: nat)
    requires Cell(i, j) in Matches(s, dets)
    ensures i < |dets| && j < |s.tracks| && Weight(s.mode, dets[i], s.tracks[j]) >= s.threshold
  {
    MatchingIsStable(s, dets);
    assert Cell(i, j) in Matched(s, dets);
    hide Weight, Matches;
  }

  lemma CoveringPair(s: Tracker, dets: seq<Detection>, i: nat, j: nat) returns (a: nat, b: nat)
    requires i < |dets| && j < |s.tracks| && Weight(s.mode, dets[i], s.tracks[j]) >= s.threshold
    ensures Cell(a, b) in Matches(s, dets) && (a == i || b == j) && a < |dets| && b < |s.tracks|
    ensures Weight(s.mode, dets[a], s.tracks[b]) >= Weight(s.mode, dets[i], s.tracks[j])
  {
    MatchingIsStable(s, dets);
    hide Weight, Matches;
    var w, c := Weights(s, dets), Cell(i, j);
    assert c in w && w[c] >= s.threshold;
    var d :| d in Matched(s, dets) && Clash(d, c) && w[d] >= w[c];
    a, b := d.row, d.col;
  }

  lemma FittingIsServed(s: Tracker, dets: seq<Detection>, i: nat, j: nat)
    requires WellFormed(s) && Classed(s, dets) && s.threshold > 0.0
    requires i < |dets| && j < |s.tracks| && Fitting(s, dets[i], s.tracks[j])
    ensures Served(s, dets, i, j)
  {
    hide WellFormed, Matches, Weight, Iou, Interchangeable, Taken;
    FittingIsAdmissible(s, dets[i], s.tracks[j]);
    var a, b := CoveringPair(s, dets, i, j);
    TakenIsMatched(s, dets, a, b);
    WeightOf(s.mode, dets[i], s.tracks[j]);
    WeightOf(s.mode, dets[a], s.tracks[b]);
    IouInUnitInterval(dets[a].xyxy, s.tracks[b].xyxy);
    assert Taken(s, dets, a, b);
  }

  /** One detection, one track: it gets the track's id exactly when both conditions hold. */
  lemma OneAgainstOne(s: Tracker, d: Detection)
    requires WellFormed(s) && |s.tracks| == 1 && Classed(s, [d]) && s.threshold > 0.0
    ensures |Update(s, [d]).labels| == 1
    ensures Update(s, [d]).labels[0] == s.tracks[0].id <==>
      Interchangeable(d.cls, s.tracks[0].cls, s.mode) && Iou(d.xyxy, s.tracks[0].xyxy) >= s.threshold
  {
    LabelCount(s, [d]);
    hide WellFormed, Update, Iou, Interchangeable;
    UpdateIsStable(s, [d]);
    if Fitting(s, d, s.tracks[0]) {
      assert Served(s, [d], 0, 0);
    }
    assert Taken(s, [d], 0, 0) <==> Update(s, [d]).labels[0] == s.tracks[0].id;
  }
}
