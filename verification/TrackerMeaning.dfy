/** What an update does to each track, read off the labels alone. */
module TrackerMeaning {
  import opened Options
  import opened Greedy
  import opened TrackerSpec
  import opened TrackerRuns

  /** The hits of the track with that id, none if there is no such track. */
  ghost function HitsOf(tracks: seq<Track>, id: int): int {
    if t :| t in tracks && t.id == id then t.hits else 0
  }

  /** t' is the track of detection i, which was given its id: there and then, seen now, with one hit more. An old track
      stays only with a grace period of at least 0. */
  ghost predicate SeenAs(s: Tracker, d: Detection, id: int, t': Track) {
    && t' == Track(id, d.xyxy, d.cls, 0, HitsOf(s.tracks, id) + 1)
    && (Known(s.tracks, id) ==> s.maxAge >= 0)
  }

  /** t' is an old track whose id no detection was given: unchanged but one tick older, and not too old. */
  ghost predicate Missed(s: Tracker, labels: seq<int>, t: Track, t': Track) {
    t.id !in labels && t' == t.(age := t.age + 1) && t'.age <= s.maxAge
  }

  ghost predicate Remains(s: Tracker, dets: seq<Detection>, labels: seq<int>, t': Track)
    requires |labels| == |dets|
  {
    || (exists i :: 0 <= i < |dets| && SeenAs(s, dets[i], labels[i], t'))
    || (exists t :: t in s.tracks && Missed(s, labels, t, t'))
  }

  lemma HitsOfTrack(s: Tracker, t: Track)
    requires WellFormed(s) && t in s.tracks
    ensures HitsOf(s.tracks, t.id) == t.hits
  {
    var u :| u in s.tracks && u.id == t.id && HitsOf(s.tracks, t.id) == u.hits;
    var i :| 0 <= i < |s.tracks| && s.tracks[i] == t;
    var j :| 0 <= j < |s.tracks| && s.tracks[j] == u;
  }

  lemma HitsOfNone(tracks: seq<Track>, id: int)
    requires !Known(tracks, id)
    ensures HitsOf(tracks, id) == 0
  {
  }

  /** A matched detection: its label is the id of its track, and the ticked track is seen as that. */
  lemma MatchedSeen(s: Tracker, dets: seq<Detection>, picks: seq<Cell>, i: nat, j: nat)
    requires WellFormed(s) && OneToOne(picks, |dets|, |s.tracks|) && i < |dets| && j < |s.tracks|
    requires RowPartner(picks, i) == Some(j) && ColPartner(picks, j) == Some(i)
    ensures
      var o := UpdateWith(s, dets, picks);
      && |o.labels| == |dets| && o.labels[i] == s.tracks[j].id && Known(s.tracks, o.labels[i])
      && TickAll(s.tracks, dets, picks)[j] == Track(o.labels[i], dets[i].xyxy, dets[i].cls, 0, HitsOf(s.tracks, o.labels[i]) + 1)
  {
    LabelOf(s, dets, picks, i);
    assert s.tracks[j] in s.tracks;
    HitsOfTrack(s, s.tracks[j]);
  }

  /** An unmatched detection: its label is new, and its newborn is seen as that. */
  lemma UnmatchedSeen(s: Tracker, dets: seq<Detection>, picks: seq<Cell>, i: nat)
    requires WellFormed(s) && OneToOne(picks, |dets|, |s.tracks|) && i < |dets| && RowPartner(picks, i).None?
    ensures
      var o := UpdateWith(s, dets, picks);
      && |o.labels| == |dets| && !Known(s.tracks, o.labels[i])
      && Newborn(s.nextId, dets, picks, i) == Track(o.labels[i], dets[i].xyxy, dets[i].cls, 0, HitsOf(s.tracks, o.labels[i]) + 1)
  {
    LabelOf(s, dets, picks, i);
    var id := UpdateWith(s, dets, picks).labels[i];
    assert id >= s.nextId;
    HitsOfNone(s.tracks, id);
  }

  /** An unmatched track: no detection has its id, and it only ages. */
  lemma UnmatchedMissed(s: Tracker, dets: seq<Detection>, picks: seq<Cell>, j: nat)
    requires WellFormed(s) && OneToOne(picks, |dets|, |s.tracks|) && j < |s.tracks| && ColPartner(picks, j).None?
    requires Inverse(picks, |dets|, |s.tracks|)
    ensures
      var o := UpdateWith(s, dets, picks);
      && |o.labels| == |dets| && s.tracks[j].id !in o.labels
      && TickAll(s.tracks, dets, picks)[j] == s.tracks[j].(age := s.tracks[j].age + 1)
  {
    assert forall c | c in picks :: c.row < |dets|;
    hide *;
    Unpaired(picks, |dets|, |s.tracks|, j);
    TickedMiss(s, dets, picks, j);
    UnpairedUnlabelled(s, dets, picks, j);
  }

  lemma Unpaired(picks: seq<Cell>, rows: nat, cols: nat, j: nat)
    requires Inverse(picks, rows, cols) && ColPartner(picks, j).None?
    ensures forall i: nat :: RowPartner(picks, i) != Some(j)
  {
    hide RowPartner, ColPartner;
  }

  lemma TickedMiss(s: Tracker, dets: seq<Detection>, picks: seq<Cell>, j: nat)
    requires OneToOne(picks, |dets|, |s.tracks|) && j < |s.tracks| && ColPartner(picks, j).None?
    ensures TickAll(s.tracks, dets, picks)[j] == s.tracks[j].(age := s.tracks[j].age + 1)
  {
    hide ColPartner;
  }

  lemma UnpairedUnlabelled(s: Tracker, dets: seq<Detection>, picks: seq<Cell>, j: nat)
    requires WellFormed(s) && OneToOne(picks, |dets|, |s.tracks|) && j < |s.tracks|
    requires forall i: nat | i < |dets| :: RowPartner(picks, i) != Some(j)
    ensures |UpdateWith(s, dets, picks).labels| == |dets| && s.tracks[j].id !in UpdateWith(s, dets, picks).labels
  {
    hide *;
    LabelCountWith(s, dets, picks);
    forall i: nat | i < |dets|
      ensures UpdateWith(s, dets, picks).labels[i] != s.tracks[j].id
    {
      LabelNames(s, dets, picks, i, j);
    }
  }

  lemma KeptRemain(s: Tracker, dets: seq<Detection>, picks: seq<Cell>, j: nat)
    requires WellFormed(s) && OneToOne(picks, |dets|, |s.tracks|) && Inverse(picks, |dets|, |s.tracks|)
    requires j < |s.tracks| && TickAll(s.tracks, dets, picks)[j].age <= s.maxAge
    ensures |UpdateWith(s, dets, picks).labels| == |dets|
    ensures Remains(s, dets, UpdateWith(s, dets, picks).labels, TickAll(s.tracks, dets, picks)[j])
  {
    assert forall c | c in picks :: c.row < |dets|;
    hide RowPartner, ColPartner, TickAll, UpdateWith, HitsOf, OneToOne, WellFormed;
    LabelCountWith(s, dets, picks);
    var t', labels := TickAll(s.tracks, dets, picks)[j], UpdateWith(s, dets, picks).labels;
    if ColPartner(picks, j).Some? {
      var i := ColPartner(picks, j).value;
      assert RowPartner(picks, i) == Some(j);
      MatchedSeen(s, dets, picks, i, j);
      assert SeenAs(s, dets[i], labels[i], t');
    } else {
      UnmatchedMissed(s, dets, picks, j);
      assert s.tracks[j] in s.tracks && Missed(s, labels, s.tracks[j], t');
    }
  }

  lemma BornRemain(s: Tracker, dets: seq<Detection>, picks: seq<Cell>, i: nat)
    requires WellFormed(s) && OneToOne(picks, |dets|, |s.tracks|)
    requires i < |dets| && RowPartner(picks, i).None?
    ensures |UpdateWith(s, dets, picks).labels| == |dets|
    ensures Remains(s, dets, UpdateWith(s, dets, picks).labels, Newborn(s.nextId, dets, picks, i))
  {
    hide RowPartner, UpdateWith, HitsOf, OneToOne, WellFormed, Newborn;
    UnmatchedSeen(s, dets, picks, i);
    assert SeenAs(s, dets[i], UpdateWith(s, dets, picks).labels[i], Newborn(s.nextId, dets, picks, i));
  }

  lemma SeenStay(s: Tracker, dets: seq<Detection>, picks: seq<Cell>, i: nat, t': Track)
    requires WellFormed(s) && OneToOne(picks, |dets|, |s.tracks|) && Inverse(picks, |dets|, |s.tracks|) && i < |dets|
    requires |UpdateWith(s, dets, picks).labels| == |dets| && SeenAs(s, dets[i], UpdateWith(s, dets, picks).labels[i], t')
    ensures
      || (exists j: nat :: j < |s.tracks| && t' == TickAll(s.tracks, dets, picks)[j] && t'.age <= s.maxAge)
      || (RowPartner(picks, i).None? && t' == Newborn(s.nextId, dets, picks, i))
  {
    assert forall c | c in picks :: c.row < |dets|;
    hide RowPartner, ColPartner, TickAll, UpdateWith, HitsOf, OneToOne, WellFormed, Newborn;
    if RowPartner(picks, i).Some? {
      var j := RowPartner(picks, i).value;
      MatchedSeen(s, dets, picks, i, j);
      assert j < |s.tracks| && t' == TickAll(s.tracks, dets, picks)[j];
    } else {
      UnmatchedSeen(s, dets, picks, i);
    }
  }

  lemma MissedStay(s: Tracker, dets: seq<Detection>, picks: seq<Cell>, t: Track, t': Track)
    requires WellFormed(s) && OneToOne(picks, |dets|, |s.tracks|) && Inverse(picks, |dets|, |s.tracks|)
    requires t in s.tracks && Missed(s, UpdateWith(s, dets, picks).labels, t, t')
    ensures exists j: nat :: j < |s.tracks| && t' == TickAll(s.tracks, dets, picks)[j] && t'.age <= s.maxAge
  {
    assert forall c | c in picks :: c.row < |dets|;
    hide RowPartner, ColPartner, TickAll, UpdateWith, OneToOne, WellFormed;
    LabelCountWith(s, dets, picks);
    var j: nat :| j < |s.tracks| && s.tracks[j] == t;
    if ColPartner(picks, j).Some? {
      MatchedNamed(s, dets, picks, j);
    } else {
      UnmatchedMissed(s, dets, picks, j);
      assert t' == TickAll(s.tracks, dets, picks)[j];
    }
  }

  lemma MatchedNamed(s: Tracker, dets: seq<Detection>, picks: seq<Cell>, j: nat)
    requires WellFormed(s) && OneToOne(picks, |dets|, |s.tracks|) && Inverse(picks, |dets|, |s.tracks|)
    requires j < |s.tracks| && ColPartner(picks, j).Some?
    ensures s.tracks[j].id in UpdateWith(s, dets, picks).labels
  {
    hide RowPartner, ColPartner, TickAll, UpdateWith, OneToOne, WellFormed;
    var i := ColPartner(picks, j).value;
    assert RowPartner(picks, i) == Some(j);
    MatchedSeen(s, dets, picks, i, j);
  }

  /** The tracks afterwards: the ticked ones that are not too old, and the newborn. */
  lemma NextTracks(s: Tracker, dets: seq<Detection>, picks: seq<Cell>, t': Track)
    requires OneToOne(picks, |dets|, |s.tracks|)
    ensures t' in UpdateWith(s, dets, picks).next.tracks <==>
      || (exists j: nat :: j < |s.tracks| && t' == TickAll(s.tracks, dets, picks)[j] && t'.age <= s.maxAge)
      || (exists i: nat :: i < |dets| && RowPartner(picks, i).None? && t' == Newborn(s.nextId, dets, picks, i))
  {
    var ticked := TickAll(s.tracks, dets, picks);
    var kept, born := Survivors(ticked, s.maxAge), Births(s.nextId, dets, picks, |dets|);
    assert UpdateWith(s, dets, picks).next.tracks == kept + born;
    hide *;
    SurvivorsInside(ticked, s.maxAge);
    BirthsInside(s.nextId, dets, picks, |dets|);
    assert t' in kept + born <==> t' in kept || t' in born;
    Places(ticked, t');
    if t' in kept {
      var j: nat :| j < |ticked| && t' == ticked[j];
      assert j < |s.tracks| && t' == TickAll(s.tracks, dets, picks)[j] && t'.age <= s.maxAge;
    }
    if j: nat :| j < |s.tracks| && t' == TickAll(s.tracks, dets, picks)[j] && t'.age <= s.maxAge {
      assert t' == ticked[j];
    }
  }

  lemma Places<T>(xs: seq<T>, x: T)
    ensures x in xs <==> exists j: nat :: j < |xs| && x == xs[j]
  {
    if x in xs {
      var j :| 0 <= j < |xs| && xs[j] == x;
      var k: nat := j;
      assert x == xs[k];
    }
  }

  lemma RemainsWith(s: Tracker, dets: seq<Detection>, picks: seq<Cell>, t': Track)
    requires WellFormed(s) && OneToOne(picks, |dets|, |s.tracks|) && Inverse(picks, |dets|, |s.tracks|)
    ensures |UpdateWith(s, dets, picks).labels| == |dets|
    ensures t' in UpdateWith(s, dets, picks).next.tracks <==> Remains(s, dets, UpdateWith(s, dets, picks).labels, t')
  {
    var labels := UpdateWith(s, dets, picks).labels;
    LabelCountWith(s, dets, picks);
    NextTracks(s, dets, picks, t');
    hide RowPartner, ColPartner, TickAll, UpdateWith, OneToOne, WellFormed, Newborn, SeenAs, Missed, Inverse;
    if j: nat :| j < |s.tracks| && t' == TickAll(s.tracks, dets, picks)[j] && t'.age <= s.maxAge {
      KeptRemain(s, dets, picks, j);
    }
    if i: nat :| i < |dets| && RowPartner(picks, i).None? && t' == Newborn(s.nextId, dets, picks, i) {
      BornRemain(s, dets, picks, i);
    }
    if i: nat :| i < |dets| && SeenAs(s, dets[i], labels[i], t') {
      SeenStay(s, dets, picks, i, t');
    }
    if t :| t in s.tracks && Missed(s, labels, t, t') {
      MissedStay(s, dets, picks, t, t');
    }
  }

  lemma LabelNames(s: Tracker, dets: seq<Detection>, picks: seq<Cell>, i: nat, j: nat)
    requires WellFormed(s) && OneToOne(picks, |dets|, |s.tracks|) && i < |dets| && j < |s.tracks|
    ensures |UpdateWith(s, dets, picks).labels| == |dets|
    ensures UpdateWith(s, dets, picks).labels[i] == s.tracks[j].id <==> RowPartner(picks, i) == Some(j)
  {
    hide RowPartner, UpdateWith;
    LabelOf(s, dets, picks, i);
    assert s.tracks[j] in s.tracks;
  }

  /** An update through its labels. A detection gets the id of a track exactly when the matching pairs them. The tracks
      afterwards are, by increasing id, exactly the detections under their labels and the old tracks that no detection
      was given and that are not too old. */
  lemma UpdateMeans(s: Tracker, dets: seq<Detection>)
    requires WellFormed(s)
    ensures |Update(s, dets).labels| == |dets|
    ensures forall i: nat, j: nat | i < |dets| && j < |s.tracks| ::
      Update(s, dets).labels[i] == s.tracks[j].id <==> Cell(i, j) in Matches(s, dets)
    ensures IdsIncrease(Update(s, dets).next.tracks)
    ensures forall t' :: t' in Update(s, dets).next.tracks <==> Remains(s, dets, Update(s, dets).labels, t')
  {
    var picks := Matches(s, dets);
    UpdateKeepsWellFormed(s, dets);
    assert IdsIncrease(Update(s, dets).next.tracks);
    MatchesAreInverse(s, dets);
    assert Update(s, dets) == UpdateWith(s, dets, picks);
    LabelCountWith(s, dets, picks);
    hide *;
    forall i: nat, j: nat | i < |dets| && j < |s.tracks|
      ensures Update(s, dets).labels[i] == s.tracks[j].id <==> Cell(i, j) in picks
    {
      PartnersOfMatches(s, dets, i, j);
      LabelNames(s, dets, picks, i, j);
    }
    forall t'
      ensures t' in Update(s, dets).next.tracks <==> Remains(s, dets, Update(s, dets).labels, t')
    {
      RemainsWith(s, dets, picks, t');
    }
  }
}
