/** The order in which the detections of a frame are listed. */
module UpdateOrder {
  import opened Options
  import opened Greedy
  import opened TrackerSpec
  import opened TrackerRuns
  import opened TrackerMeaning
  import opened MatchQuality

  ghost predicate NoTies(s: Tracker, dets: seq<Detection>) {
    DistinctWeights(Weights(s, dets), Weights(s, dets).Keys, s.threshold)
  }

  lemma MatchesFollow(s: Tracker, dets: seq<Detection>, dets': seq<Detection>, f: map<nat, nat>, i: nat, j: nat)
    requires Reordered(dets, dets', f) && NoTies(s, dets) && i < |dets|
    ensures i in f && (Cell(i, j) in Matches(s, dets) <==> Cell(f[i], j) in Matches(s, dets'))
  {
    MatchingIgnoresOrder(s, dets, dets', f);
    var m, m' := Matched(s, dets), Matched(s, dets');
    assert Cell(i, j) in m <==> Cell(i, j) in Matches(s, dets);
    assert Cell(f[i], j) in m' <==> Cell(f[i], j) in Matches(s, dets');
    hide Matches, NoTies, Matched;
    assert Rename(f, Cell(i, j)) == Cell(f[i], j);
    if Cell(f[i], j) in m' {
      var c :| c in m && Rename(f, c) == Cell(f[i], j);
      assert c == Cell(i, j);
    }
  }

  lemma KnownAt(tracks: seq<Track>, id: int) returns (j: nat)
    requires Known(tracks, id)
    ensures j < |tracks| && tracks[j].id == id
  {
    var t :| t in tracks && t.id == id;
    j :| j < |tracks| && tracks[j] == t;
  }

  /** A detection gets the id of an old track at one place exactly when it does at the other. */
  lemma LabelFollows(s: Tracker, dets: seq<Detection>, dets': seq<Detection>, f: map<nat, nat>, i: nat)
    requires WellFormed(s) && Reordered(dets, dets', f) && NoTies(s, dets) && i < |dets|
    ensures i in f && f[i] < |dets'| && |Update(s, dets).labels| == |dets| && |Update(s, dets').labels| == |dets'|
    ensures
      var a, b := Update(s, dets).labels[i], Update(s, dets').labels[f[i]];
      a < s.nextId || b < s.nextId ==> a == b
  {
    UpdateMeans(s, dets);
    UpdateMeans(s, dets');
    LabelsAreDistinct(s, dets);
    LabelsAreDistinct(s, dets');
    hide Update, Remains, Matches, WellFormed, NoTies, Known;
    var a, b := Update(s, dets).labels[i], Update(s, dets').labels[f[i]];
    if a < s.nextId {
      var j := KnownAt(s.tracks, a);
      MatchesFollow(s, dets, dets', f, i, j);
    }
    if b < s.nextId {
      var j := KnownAt(s.tracks, b);
      MatchesFollow(s, dets, dets', f, i, j);
    }
  }

  ghost predicate Follow(labels: seq<int>, labels': seq<int>, f: map<nat, nat>, nextId: int) {
    forall i: nat | i < |labels| ::
      i in f && f[i] < |labels'| && (labels[i] < nextId || labels'[f[i]] < nextId ==> labels[i] == labels'[f[i]])
  }

  lemma OldLabelsSame(dets: seq<Detection>, dets': seq<Detection>, f: map<nat, nat>, labels: seq<int>, labels': seq<int>, nextId: int, id: int)
    requires Reordered(dets, dets', f) && |labels| == |dets| && |labels'| == |dets'|
    requires Follow(labels, labels', f, nextId) && id < nextId
    ensures id in labels <==> id in labels'
  {
    if id in labels {
      var i: nat :| i < |labels| && labels[i] == id;
      assert labels'[f[i]] == id;
    }
    if id in labels' {
      var k: nat :| k < |labels'| && labels'[k] == id;
      assert k in f.Values;
      var i: nat :| i in f && f[i] == k;
      assert labels[i] == id;
    }
  }

  lemma RemainsSame(s: Tracker, dets: seq<Detection>, dets': seq<Detection>, f: map<nat, nat>, labels: seq<int>, labels': seq<int>, t': Track)
    requires Reordered(dets, dets', f) && |labels| == |dets| && |labels'| == |dets'|
    requires Follow(labels, labels', f, s.nextId) && t'.id < s.nextId && forall t | t in s.tracks :: t.id < s.nextId
    ensures Remains(s, dets, labels, t') <==> Remains(s, dets', labels', t')
  {
    hide HitsOf, Known;
    if i: nat :| i < |dets| && SeenAs(s, dets[i], labels[i], t') {
      assert SeenAs(s, dets'[f[i]], labels'[f[i]], t');
    }
    if k: nat :| k < |dets'| && SeenAs(s, dets'[k], labels'[k], t') {
      assert k in f.Values;
      var i: nat :| i in f && f[i] == k;
      assert SeenAs(s, dets[i], labels[i], t');
    }
    forall t | t in s.tracks
      ensures Missed(s, labels, t, t') <==> Missed(s, labels', t, t')
    {
      OldLabelsSame(dets, dets', f, labels, labels', s.nextId, t.id);
    }
  }

  /** Without ties, the order in which a frame lists its detections does not matter to the tracks there were: each gets the
      same detection or none, the same tracks remain, and they remain the same. Newborn tracks are numbered in that order. */
  lemma OrderDoesNotMatter(s: Tracker, dets: seq<Detection>, dets': seq<Detection>, f: map<nat, nat>)
    requires WellFormed(s) && Reordered(dets, dets', f) && NoTies(s, dets)
    ensures |Update(s, dets).labels| == |dets| && |Update(s, dets').labels| == |dets'|
    ensures Follow(Update(s, dets).labels, Update(s, dets').labels, f, s.nextId)
    ensures forall t: Track | t.id < s.nextId :: t in Update(s, dets).next.tracks <==> t in Update(s, dets').next.tracks
  {
    UpdateMeans(s, dets);
    UpdateMeans(s, dets');
    assert forall t | t in s.tracks :: t.id < s.nextId;
    assert |dets'| == |dets|;
    hide *;
    var labels, labels' := Update(s, dets).labels, Update(s, dets').labels;
    LabelsFollow(s, dets, dets', f);
    forall t: Track | t.id < s.nextId
      ensures t in Update(s, dets).next.tracks <==> t in Update(s, dets').next.tracks
    {
      RemainsSame(s, dets, dets', f, labels, labels', t);
    }
  }

  lemma LabelsFollow(s: Tracker, dets: seq<Detection>, dets': seq<Detection>, f: map<nat, nat>)
    requires WellFormed(s) && Reordered(dets, dets', f) && NoTies(s, dets)
    requires |Update(s, dets).labels| == |dets| && |Update(s, dets').labels| == |dets'|
    ensures Follow(Update(s, dets).labels, Update(s, dets').labels, f, s.nextId)
  {
    hide Update, WellFormed, Reordered, NoTies;
    forall i: nat | i < |dets|
      ensures i in f && f[i] < |dets'|
      ensures
        var a, b := Update(s, dets).labels[i], Update(s, dets').labels[f[i]];
        a < s.nextId || b < s.nextId ==> a == b
    {
      LabelFollows(s, dets, dets', f, i);
    }
  }
}
