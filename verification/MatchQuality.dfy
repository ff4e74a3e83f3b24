/** What the greedy matching is worth to the tracker. */
module MatchQuality {
  import opened Options
  import opened Geometry
  import opened Coordinates
  import opened Greedy
  import opened TrackerSpec

  lemma WeightBounds(s: Tracker, dets: seq<Detection>)
    ensures forall c | c in Weights(s, dets) :: 0.0 <= Weights(s, dets)[c] <= 1.0
  {
    var w := Weights(s, dets);
    forall c | c in w
      ensures 0.0 <= w[c] <= 1.0
    {
      IouInUnitInterval(dets[c.row].xyxy, s.tracks[c.col].xyxy);
    }
  }

  ghost function Matched(s: Tracker, dets: seq<Detection>): set<Cell> {
    set c | c in Matches(s, dets)
  }

  /** One-to-one, and every pair at or above the threshold shares an end with a matched pair of at least its weight. */
  lemma MatchingIsStable(s: Tracker, dets: seq<Detection>)
    ensures Stable(Weights(s, dets), Weights(s, dets).Keys, s.threshold, Matched(s, dets))
  {
    GreedyIsStable(Weights(s, dets), Weights(s, dets).Keys, s.threshold);
  }

  /** The matched overlap is at least half of what any other one-to-one choice of admissible pairs reaches. */
  lemma MatchingIsHalfOptimal(s: Tracker, dets: seq<Detection>, other: set<Cell>)
    requires other <= Weights(s, dets).Keys && IsMatching(other)
    requires forall c | c in other :: Weights(s, dets)[c] >= s.threshold
    ensures Matched(s, dets) <= Weights(s, dets).Keys
    ensures Total(Weights(s, dets), other) <= 2.0 * Total(Weights(s, dets), Matched(s, dets))
  {
    WeightBounds(s, dets);
    GreedyIsHalfOptimal(Weights(s, dets), Weights(s, dets).Keys, s.threshold, other);
  }

  /** The matches are those of one scan over all pairs by descending weight, then row-major. */
  lemma MatchingIsTheScan(s: Tracker, dets: seq<Detection>)
    ensures Matches(s, dets) == Scan(Weights(s, dets), Sorted(Weights(s, dets), Weights(s, dets).Keys), {}, {}, s.threshold)
  {
    ScanEqualsPicks(Weights(s, dets), s.threshold);
  }

  /** dets' lists the detections of dets at other places. */
  ghost predicate Reordered(dets: seq<Detection>, dets': seq<Detection>, f: map<nat, nat>) {
    && |dets| == |dets'|
    && (forall i: nat :: i in f <==> i < |dets|)
    && (forall i, j | i in f && j in f && f[i] == f[j] :: i == j)
    && (forall i | i in f :: f[i] < |dets'| && dets'[f[i]] == dets[i])
    && (forall k: nat | k < |dets'| :: k in f.Values)
  }

  lemma ReorderedGrid(s: Tracker, dets: seq<Detection>, dets': seq<Detection>, f: map<nat, nat>)
    requires Reordered(dets, dets', f)
    ensures RowsRenamed(Weights(s, dets), Weights(s, dets'), f)
  {
    var w, w' := Weights(s, dets), Weights(s, dets');
    hide Weight, Weights, Rename;
    forall c | c in w
      ensures Rename(f, c) in w' && w'[Rename(f, c)] == w[c]
    {
      RenamedCell(s, dets, dets', f, c);
    }
    forall d | d in w'
      ensures exists c :: c in w && d == Rename(f, c)
    {
      var c := SourceCell(s, dets, dets', f, d);
    }
  }

  lemma RenamedCell(s: Tracker, dets: seq<Detection>, dets': seq<Detection>, f: map<nat, nat>, c: Cell)
    requires Reordered(dets, dets', f) && c in Weights(s, dets)
    ensures c.row in f && Rename(f, c) in Weights(s, dets') && Weights(s, dets')[Rename(f, c)] == Weights(s, dets)[c]
  {
    hide Weight, Weights;
    assert dets'[f[c.row]] == dets[c.row];
  }

  lemma SourceCell(s: Tracker, dets: seq<Detection>, dets': seq<Detection>, f: map<nat, nat>, d: Cell) returns (c: Cell)
    requires Reordered(dets, dets', f) && d in Weights(s, dets')
    ensures c in Weights(s, dets) && c.row in f && d == Rename(f, c)
  {
    hide Weight, Weights;
    assert d.row in f.Values;
    var i: nat :| i in f && f[i] == d.row;
    c := Cell(i, d.col);
  }

  /** Without ties, every track gets the same detection whatever the order of the detections. */
  lemma MatchingIgnoresOrder(s: Tracker, dets: seq<Detection>, dets': seq<Detection>, f: map<nat, nat>)
    requires Reordered(dets, dets', f)
    requires DistinctWeights(Weights(s, dets), Weights(s, dets).Keys, s.threshold)
    ensures forall c | c in Matched(s, dets) :: c.row in f
    ensures Matched(s, dets') == Renamed(Matched(s, dets), f)
  {
    hide Weights, Reordered, DistinctWeights, Picks;
    var w, w' := Weights(s, dets), Weights(s, dets');
    ReorderedGrid(s, dets, dets', f);
    MatchIgnoresRowOrder(w, w', f, s.threshold);
    assert Matched(s, dets) == Chosen(w, w.Keys, s.threshold) && Matched(s, dets') == Chosen(w', w'.Keys, s.threshold);
    hide Matched, Chosen;
  }

  function MovedDetections(f: Affine, dets: seq<Detection>): (r: seq<Detection>)
    ensures |r| == |dets| && forall i | 0 <= i < |dets| :: r[i] == dets[i].(xyxy := f.Apply(dets[i].xyxy))
  {
    seq(|dets|, i requires 0 <= i < |dets| => dets[i].(xyxy := f.Apply(dets[i].xyxy)))
  }

  function MovedTracks(f: Affine, tracks: seq<Track>): (r: seq<Track>)
    ensures |r| == |tracks| && forall i | 0 <= i < |tracks| :: r[i] == tracks[i].(xyxy := f.Apply(tracks[i].xyxy))
  {
    seq(|tracks|, i requires 0 <= i < |tracks| => tracks[i].(xyxy := f.Apply(tracks[i].xyxy)))
  }

  /** The coordinates the tracker works in do not matter: crop or frame, pixels or normalised. */
  lemma MatchingIgnoresCoordinates(s: Tracker, dets: seq<Detection>, f: Affine)
    requires f.Valid()
    ensures Matches(s.(tracks := MovedTracks(f, s.tracks)), MovedDetections(f, dets)) == Matches(s, dets)
  {
    hide Iou;
    var s', dets' := s.(tracks := MovedTracks(f, s.tracks)), MovedDetections(f, dets);
    var w, w' := Weights(s, dets), Weights(s', dets');
    forall c | c in w
      ensures c in w' && w'[c] == w[c]
    {
      IouAffineInvariant(f, dets[c.row].xyxy, s.tracks[c.col].xyxy);
    }
    assert w == w';
  }

  /** In particular the crop-to-frame remap leaves the matching alone. */
  lemma MatchingIgnoresRemap(s: Tracker, dets: seq<Detection>, c: Crop, w: int, h: int)
    requires w > 0 && h > 0 && c.cw > 0 && c.ch > 0
    ensures RemapMap(c, w, h).Valid()
    ensures forall b: Box :: RemapMap(c, w, h).Apply(b) == Remap(b, c, w, h)
    ensures Matches(s.(tracks := MovedTracks(RemapMap(c, w, h), s.tracks)), MovedDetections(RemapMap(c, w, h), dets)) == Matches(s, dets)
  {
    hide Remap, Matches, MovedTracks, MovedDetections;
    MatchingIgnoresCoordinates(s, dets, RemapMap(c, w, h));
    forall b: Box
      ensures RemapMap(c, w, h).Apply(b) == Remap(b, c, w, h)
    {
      RemapIsAffine(b, c, w, h);
    }
  }
}
