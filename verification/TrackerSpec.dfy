/** One tracker update on values: match, age, prune, give birth. */
module TrackerSpec {
  import opened Options
  import opened Geometry
  import opened ClassMatch
  import opened Greedy

  datatype Detection = Detection(xyxy: Box, cls: int)

  datatype Track = Track(id: int, xyxy: Box, cls: int, age: int, hits: int)

  datatype Tracker = Tracker(tracks: seq<Track>, nextId: int, threshold: real, maxAge: int, mode: Mode)

  function Fresh(threshold: real, maxAge: int, mode: Mode): Tracker {
    Tracker([], 1, threshold, maxAge, mode)
  }

  /** Overlap, driven to 0 on a class mismatch. */
  function Weight(mode: Mode, d: Detection, t: Track): real {
    var iou := Iou(d.xyxy, t.xyxy);
    if mode == Any then iou
    else iou * (if CanonicalClass(d.cls, mode) == CanonicalClass(t.cls, mode) then 1.0 else 0.0)
  }

  ghost function Weights(s: Tracker, dets: seq<Detection>): (w: Grid)
    ensures forall c :: c in w <==> c.row < |dets| && c.col < |s.tracks|
    ensures forall c | c in w :: w[c] == Weight(s.mode, dets[c.row], s.tracks[c.col])
  {
    map i: nat, j: nat | i < |dets| && j < |s.tracks| :: Cell(i, j) := Weight(s.mode, dets[i], s.tracks[j])
  }

  ghost function Matches(s: Tracker, dets: seq<Detection>): seq<Cell> {
    Picks(Weights(s, dets), Weights(s, dets).Keys, s.threshold)
  }

  /** Every matched cell is in range and no two share an end. */
  ghost predicate OneToOne(picks: seq<Cell>, rows: nat, cols: nat) {
    && (forall c | c in picks :: c.row < rows && c.col < cols)
    && (forall i, j | 0 <= i < j < |picks| :: !Clash(picks[i], picks[j]))
  }

  /** A track after this update's match or miss. */
  function Ticked(t: Track, partner: Option<nat>, dets: seq<Detection>): Track
    requires partner.Some? ==> partner.value < |dets|
  {
    match partner
    case Some(i) => Track(t.id, dets[i].xyxy, dets[i].cls, 0, t.hits + 1)
    case None => t.(age := t.age + 1)
  }

  ghost function TickAll(tracks: seq<Track>, dets: seq<Detection>, picks: seq<Cell>): (r: seq<Track>)
    requires forall c | c in picks :: c.row < |dets|
    ensures |r| == |tracks|
    ensures forall j | 0 <= j < |r| ::
      (ColPartner(picks, j).Some? ==> ColPartner(picks, j).value < |dets|) && r[j] == Ticked(tracks[j], ColPartner(picks, j), dets)
  {
    if tracks == [] then []
    else
      var j := |tracks| - 1;
      PartnersInside(picks, j);
      TickAll(tracks[..j], dets, picks) + [Ticked(tracks[j], ColPartner(picks, j), dets)]
  }

  function Survivors(tracks: seq<Track>, maxAge: int): seq<Track> {
    if tracks == [] then []
    else
      var last := tracks[|tracks| - 1];
      Survivors(tracks[..|tracks| - 1], maxAge) + if last.age <= maxAge then [last] else []
  }

  function Expired(tracks: seq<Track>, maxAge: int): seq<Track> {
    if tracks == [] then []
    else
      var last := tracks[|tracks| - 1];
      Expired(tracks[..|tracks| - 1], maxAge) + if last.age <= maxAge then [] else [last]
  }

  /** How many of the first n detections found no track. */
  function Unmatched(picks: seq<Cell>, n: nat): nat {
    if n == 0 then 0
    else Unmatched(picks, n - 1) + if RowPartner(picks, n - 1).None? then 1 else 0
  }

  function Newborn(nextId: int, dets: seq<Detection>, picks: seq<Cell>, i: nat): Track
    requires i < |dets|
  {
    Track(nextId + Unmatched(picks, i), dets[i].xyxy, dets[i].cls, 0, 1)
  }

  function Births(nextId: int, dets: seq<Detection>, picks: seq<Cell>, n: nat): seq<Track>
    requires n <= |dets|
  {
    if n == 0 then []
    else
      Births(nextId, dets, picks, n - 1) +
      (if RowPartner(picks, n - 1).None? then [Newborn(nextId, dets, picks, n - 1)] else [])
  }

  /** The id written on detection i. */
  function Label(tracks: seq<Track>, nextId: int, picks: seq<Cell>, i: nat): int
    requires forall c | c in picks :: c.col < |tracks|
  {
    PartnersInside(picks, i);
    match RowPartner(picks, i)
    case Some(j) => tracks[j].id
    case None => nextId + Unmatched(picks, i)
  }

  function Labels(tracks: seq<Track>, nextId: int, picks: seq<Cell>, n: nat): (r: seq<int>)
    requires forall c | c in picks :: c.col < |tracks|
    ensures |r| == n
    ensures forall i: nat | i < n :: r[i] == Label(tracks, nextId, picks, i)
  {
    if n == 0 then [] else Labels(tracks, nextId, picks, n - 1) + [Label(tracks, nextId, picks, n - 1)]
  }

  lemma MatchesOneToOne(s: Tracker, dets: seq<Detection>)
    ensures OneToOne(Matches(s, dets), |dets|, |s.tracks|)
  {
    PicksOneToOne(Weights(s, dets), Weights(s, dets).Keys, s.threshold);
  }

  lemma {:induction false} PicksOneToOne(w: Grid, live: set<Cell>, threshold: real)
    requires live <= w.Keys
    ensures
      var p := Picks(w, live, threshold);
      && (forall c | c in p :: c in live)
      && (forall i, j | 0 <= i < j < |p| :: !Clash(p[i], p[j]))
    decreases live
  {
    PicksInside(w, live, threshold);
    if live != {} && w[Best(w, live)] >= threshold {
      var b := Best(w, live);
      var rest := Unmasked(live, b);
      assert b !in rest;
      PicksOneToOne(w, rest, threshold);
      var p, q := Picks(w, live, threshold), Picks(w, rest, threshold);
      assert p == [b] + q;
      forall i, j | 0 <= i < j < |p|
        ensures !Clash(p[i], p[j])
      {
        assert p[j] == q[j - 1] && q[j - 1] in q;
        if i > 0 {
          assert p[i] == q[i - 1];
        }
      }
    }
  }

  lemma MatchesAreInverse(s: Tracker, dets: seq<Detection>)
    ensures Inverse(Matches(s, dets), |dets|, |s.tracks|) && OneToOne(Matches(s, dets), |dets|, |s.tracks|)
  {
    var picks := Matches(s, dets);
    MatchesOneToOne(s, dets);
    hide RowPartner, ColPartner, Matches, OneToOne;
    forall a: nat, b: nat
      ensures RowPartner(picks, a) == Some(b) <==> ColPartner(picks, b) == Some(a)
    {
      PartnersOfMatches(s, dets, a, b);
    }
    forall a: nat
      ensures RowPartner(picks, a).Some? ==> a < |dets| && RowPartner(picks, a).value < |s.tracks|
    {
      PartnerInRange(picks, |dets|, |s.tracks|, a);
    }
  }

  lemma PartnerInRange(picks: seq<Cell>, rows: nat, cols: nat, a: nat)
    requires OneToOne(picks, rows, cols)
    ensures RowPartner(picks, a).Some? ==> a < rows && RowPartner(picks, a).value < cols
  {
    PartnersInside(picks, a);
  }

  lemma PartnersOfMatches(s: Tracker, dets: seq<Detection>, a: nat, b: nat)
    ensures RowPartner(Matches(s, dets), a) == Some(b) <==> Cell(a, b) in Matches(s, dets)
    ensures ColPartner(Matches(s, dets), b) == Some(a) <==> Cell(a, b) in Matches(s, dets)
  {
    hide RowPartner, ColPartner, Weights;
    var w := Weights(s, dets);
    PartnersInverse(w, w.Keys, s.threshold, a, b);
  }

  datatype Outcome = Outcome(next: Tracker, labels: seq<int>, retired: seq<Track>)

  /** What follows from a given matching. */
  ghost function UpdateWith(s: Tracker, dets: seq<Detection>, picks: seq<Cell>): Outcome
    requires OneToOne(picks, |dets|, |s.tracks|)
  {
    var ticked := TickAll(s.tracks, dets, picks);
    Outcome(
      s.(tracks := Survivors(ticked, s.maxAge) + Births(s.nextId, dets, picks, |dets|),
         nextId := s.nextId + Unmatched(picks, |dets|)),
      Labels(s.tracks, s.nextId, picks, |dets|),
      Expired(ticked, s.maxAge))
  }

  /** The whole update, early returns included. */
  ghost function Update(s: Tracker, dets: seq<Detection>): Outcome {
    MatchesOneToOne(s, dets);
    UpdateWith(s, dets, Matches(s, dets))
  }

  /** Settings change without touching live tracks. */
  function SetParams(s: Tracker, threshold: Option<real>, maxAge: Option<int>, mode: Option<Mode>): Tracker {
    s.(threshold := if threshold.Some? then threshold.value else s.threshold,
       maxAge := if maxAge.Some? then maxAge.value else s.maxAge,
       mode := if mode.Some? then mode.value else s.mode)
  }

  /** With no detection or no track there is nothing to match. */
  lemma NothingMatched(s: Tracker, dets: seq<Detection>)
    requires s.tracks == [] || dets == []
    ensures Matches(s, dets) == []
  {
  }

  /** No detections: every track ages. */
  lemma NothingDetected(s: Tracker)
    ensures TickAll(s.tracks, [], []) == seq(|s.tracks|, j requires 0 <= j < |s.tracks| => s.tracks[j].(age := s.tracks[j].age + 1))
    ensures Update(s, []).next == s.(tracks := Survivors(TickAll(s.tracks, [], []), s.maxAge))
  {
    NothingMatched(s, []);
  }

  /** No tracks: every detection is a birth. */
  lemma NothingTracked(s: Tracker, dets: seq<Detection>)
    requires s.tracks == []
    ensures
      var o := Update(s, dets);
      && o.next == s.(tracks := [] + Births(s.nextId, dets, [], |dets|), nextId := s.nextId + Unmatched([], |dets|))
      && |o.labels| == |dets|
      && forall i: nat | i < |dets| :: o.labels[i] == s.nextId + Unmatched([], i)
  {
    NothingMatched(s, dets);
  }

  lemma UpdateUnfolds(s: Tracker, dets: seq<Detection>)
    ensures OneToOne(Matches(s, dets), |dets|, |s.tracks|)
    ensures
      var p := Matches(s, dets);
      var o := Update(s, dets);
      && o.next == s.(tracks := Survivors(TickAll(s.tracks, dets, p), s.maxAge) + Births(s.nextId, dets, p, |dets|),
                      nextId := s.nextId + Unmatched(p, |dets|))
      && |o.labels| == |dets|
    ensures forall i: nat | i < |dets| ::
      var p := Matches(s, dets);
      match RowPartner(p, i)
      case Some(j) => j < |s.tracks| && Update(s, dets).labels[i] == s.tracks[j].id
      case None => Update(s, dets).labels[i] == s.nextId + Unmatched(p, i)
  {
    MatchesOneToOne(s, dets);
    var p := Matches(s, dets);
    hide Matches, RowPartner;
    forall i: nat | i < |dets| && RowPartner(p, i).Some?
      ensures RowPartner(p, i).value < |s.tracks|
    {
      PartnersInside(p, i);
    }
  }

  lemma LabelCount(s: Tracker, dets: seq<Detection>)
    ensures |Update(s, dets).labels| == |dets|
  {
  }

  lemma LabelCountWith(s: Tracker, dets: seq<Detection>, picks: seq<Cell>)
    requires OneToOne(picks, |dets|, |s.tracks|)
    ensures |UpdateWith(s, dets, picks).labels| == |dets|
  {
  }

  // Class agreement.

  /** Every match joins interchangeable classes, whatever the boxes. */
  ghost predicate MatchesAgree(s: Tracker, dets: seq<Detection>) {
    forall c | c in Matches(s, dets) :: c.row < |dets| && c.col < |s.tracks| &&
      Interchangeable(dets[c.row].cls, s.tracks[c.col].cls, s.mode)
  }

  /** With a positive threshold a mismatched pair, weighing 0, is never taken. */
  lemma PositiveThresholdAgrees(s: Tracker, dets: seq<Detection>)
    requires s.threshold > 0.0
    requires forall t | t in s.tracks :: t.cls >= 0
    requires forall d | d in dets :: d.cls >= 0
    ensures MatchesAgree(s, dets)
  {
    var w := Weights(s, dets);
    GreedyIsStable(w, w.Keys, s.threshold);
    MatchesOneToOne(s, dets);
    forall c | c in Matches(s, dets)
      ensures Interchangeable(dets[c.row].cls, s.tracks[c.col].cls, s.mode)
    {
      assert c in Chosen(w, w.Keys, s.threshold);
      assert w[c] >= s.threshold;
      CanonicalClassIsExact(dets[c.row].cls, s.tracks[c.col].cls, s.mode);
    }
  }

  /** Exactly the positive thresholds keep classes apart on every input. */
  lemma AgreementNeedsPositiveThreshold(threshold: real)
    ensures
      (forall s: Tracker, dets: seq<Detection> {:trigger MatchesAgree(s, dets)} |
         && s.threshold == threshold
         && (forall t | t in s.tracks :: t.cls >= 0)
         && (forall d | d in dets :: d.cls >= 0) :: MatchesAgree(s, dets))
      <==> threshold > 0.0
  {
    if threshold > 0.0 {
      forall s: Tracker, dets: seq<Detection> |
        && s.threshold == threshold
        && (forall t | t in s.tracks :: t.cls >= 0)
        && (forall d | d in dets :: d.cls >= 0)
        ensures MatchesAgree(s, dets)
      {
        PositiveThresholdAgrees(s, dets);
      }
    } else {
      // A person on a car, thresholded at 0 or less.
      var unit := Box(0.0, 0.0, 1.0, 1.0);
      var s := Tracker([Track(1, unit, 2, 0, 1)], 2, threshold, 0, Strict);
      var dets := [Detection(unit, 0)];
      var w := Weights(s, dets);
      var c := Cell(0, 0);
      IouSelf(unit);
      assert w.Keys == {c};
      assert w[c] == 0.0;
      assert Unmasked(w.Keys, c) == {};
      assert Best(w, w.Keys) == c;
      assert Picks(w, w.Keys, threshold) == [c] + Picks(w, {}, threshold);
      assert Matches(s, dets) == [c];
      assert c in Matches(s, dets);
      assert !MatchesAgree(s, dets);
    }
  }
}
