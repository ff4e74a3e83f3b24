/** A track through a time in which its object is not seen. */
module Occlusion {
  import opened Options
  import opened Greedy
  import opened TrackerSpec
  import opened TrackerRuns
  import opened TrackerMeaning
  import opened MatchQuality

  /** The tracker after some frames and settings changes. */
  ghost function Watch(s: Tracker, events: seq<Event>): Tracker
    decreases |events|
  {
    if events == [] then s else Watch(After(s, events[0]), events[1..])
  }

  ghost function After(s: Tracker, e: Event): Tracker {
    match e
    case Frame(dets) => Update(s, dets).next
    case Settings(threshold, maxAge, mode) => SetParams(s, threshold, maxAge, mode)
  }

  /** No detection of the frame reaches the threshold with the track. */
  ghost predicate Unseen(s: Tracker, t: Track, dets: seq<Detection>) {
    forall d | d in dets :: Weight(s.mode, d, t) < s.threshold
  }

  /** Detection i reaches it; no other detection does, and detection i reaches it with no other track. */
  ghost predicate Unrivalled(s: Tracker, t: Track, dets: seq<Detection>, i: nat) {
    && i < |dets| && Weight(s.mode, dets[i], t) >= s.threshold
    && (forall k: nat | k < |dets| && k != i :: Weight(s.mode, dets[k], t) < s.threshold)
    && (forall u | u in s.tracks && u.id != t.id :: Weight(s.mode, dets[i], u) < s.threshold)
  }

  /** None of the frames shows it. */
  ghost predicate UnseenThrough(s: Tracker, t: Track, events: seq<Event>)
    decreases |events|
  {
    events == [] ||
    ((events[0].Frame? ==> Unseen(s, t, events[0].dets)) && UnseenThrough(After(s, events[0]), t, events[1..]))
  }

  /** A track of that age that is missed in every frame is within the grace period in force at each of them. */
  ghost predicate Outlives(age: int, maxAge: int, events: seq<Event>)
    decreases |events|
  {
    events == [] ||
    match events[0]
    case Frame(_) => age + 1 <= maxAge && Outlives(age + 1, maxAge, events[1..])
    case Settings(_, m, _) => Outlives(age, if m.Some? then m.value else maxAge, events[1..])
  }

  function Frames(events: seq<Event>): nat {
    if events == [] then 0 else (if events[0].Frame? then 1 else 0) + Frames(events[1..])
  }

  /** Without settings changes that is a count of the frames. */
  lemma {:induction false} OutlivesFrames(age: int, maxAge: int, events: seq<Event>)
    requires forall e | e in events :: e.Frame?
    ensures Outlives(age, maxAge, events) <==> events == [] || age + |events| <= maxAge
    decreases |events|
  {
    if events == [] {
    } else {
      assert events[0] in events && forall e | e in events[1..] :: e in events;
      OutlivesFrames(age + 1, maxAge, events[1..]);
    }
  }

  lemma SettingsStay(s: Tracker, e: Event)
    requires WellFormed(s)
    ensures WellFormed(After(s, e)) && s.nextId <= After(s, e).nextId
    ensures e.Frame? ==> After(s, e).maxAge == s.maxAge
  {
    if e.Frame? {
      UpdateKeepsWellFormed(s, e.dets);
    }
  }

  lemma OneTrackPerId(s: Tracker, t: Track, u: Track)
    requires WellFormed(s) && t in s.tracks && u in s.tracks && t.id == u.id
    ensures t == u
  {
    var i :| 0 <= i < |s.tracks| && s.tracks[i] == t;
    var j :| 0 <= j < |s.tracks| && s.tracks[j] == u;
  }

  lemma MatchedAdmissible(s: Tracker, dets: seq<Detection>, c: Cell)
    requires c in Matches(s, dets)
    ensures c.row < |dets| && c.col < |s.tracks| && Weight(s.mode, dets[c.row], s.tracks[c.col]) >= s.threshold
  {
    MatchingIsStable(s, dets);
    assert c in Matched(s, dets);
    hide Weight, Matches;
  }

  /** No detection gets the id of an unseen track. */
  lemma UnseenUnlabelled(s: Tracker, t: Track, dets: seq<Detection>)
    requires WellFormed(s) && t in s.tracks && Unseen(s, t, dets)
    ensures t.id !in Update(s, dets).labels
  {
    UpdateMeans(s, dets);
    var j: nat :| j < |s.tracks| && s.tracks[j] == t;
    hide Update, Remains, Weight, Matches;
    forall i: nat | i < |dets|
      ensures Update(s, dets).labels[i] != t.id
    {
      assert dets[i] in dets;
      if Cell(i, j) in Matches(s, dets) {
        MatchedAdmissible(s, dets, Cell(i, j));
      }
    }
  }

  /** An id without a track, or with one that was missed for too long, has none afterwards. */
  lemma GoneStays(s: Tracker, id: int, dets: seq<Detection>)
    requires WellFormed(s) && id < s.nextId && id !in Update(s, dets).labels
    requires forall t | t in s.tracks && t.id == id :: t.age + 1 > s.maxAge
    ensures !Known(Update(s, dets).next.tracks, id)
  {
    UpdateMeans(s, dets);
    hide Update, Matches, Remains, WellFormed;
    forall t' | t' in Update(s, dets).next.tracks
      ensures t'.id != id
    {
      OthersRemain(s, dets, Update(s, dets).labels, id, t');
    }
  }

  lemma OthersRemain(s: Tracker, dets: seq<Detection>, labels: seq<int>, id: int, t': Track)
    requires |labels| == |dets| && Remains(s, dets, labels, t') && id !in labels
    requires forall t | t in s.tracks && t.id == id :: t.age + 1 > s.maxAge
    ensures t'.id != id
  {
    hide HitsOf, Known;
  }

  lemma GoneUnlabelled(s: Tracker, id: int, dets: seq<Detection>)
    requires WellFormed(s) && id < s.nextId && !Known(s.tracks, id)
    ensures id !in Update(s, dets).labels
  {
    LabelsAreDistinct(s, dets);
    hide Update;
  }

  lemma MissedRemains(s: Tracker, t: Track, dets: seq<Detection>)
    requires WellFormed(s) && t in s.tracks && Unseen(s, t, dets)
    ensures t.age + 1 <= s.maxAge ==> t.(age := t.age + 1) in Update(s, dets).next.tracks
    ensures t.age + 1 > s.maxAge ==> !Known(Update(s, dets).next.tracks, t.id)
  {
    UnseenUnlabelled(s, t, dets);
    hide Update, Unseen, Known;
    if t.age + 1 <= s.maxAge {
      UpdateMeans(s, dets);
      assert Missed(s, Update(s, dets).labels, t, t.(age := t.age + 1));
      assert Remains(s, dets, Update(s, dets).labels, t.(age := t.age + 1));
    } else {
      forall u | u in s.tracks && u.id == t.id
        ensures u.age + 1 > s.maxAge
      {
        OneTrackPerId(s, t, u);
      }
      GoneStays(s, t.id, dets);
    }
  }

  lemma {:induction false} NeverBack(s: Tracker, id: int, events: seq<Event>)
    requires WellFormed(s) && id < s.nextId && !Known(s.tracks, id)
    ensures
      var s' := Watch(s, events);
      WellFormed(s') && id < s'.nextId && !Known(s'.tracks, id)
    decreases |events|
  {
    hide Update, WellFormed;
    if events == [] {
    } else {
      SettingsStay(s, events[0]);
      if events[0].Frame? {
        GoneUnlabelled(s, id, events[0].dets);
        GoneStays(s, id, events[0].dets);
      }
      NeverBack(After(s, events[0]), id, events[1..]);
    }
  }

  /** What has become of a track none of the frames has shown. */
  ghost predicate Waits(t: Track, alive: bool, frames: nat, s: Tracker) {
    && WellFormed(s) && t.id < s.nextId
    && (if alive then t.(age := t.age + frames) in s.tracks else !Known(s.tracks, t.id))
  }

  lemma {:induction false} UnseenOlder(s: Tracker, t: Track, age: int, events: seq<Event>)
    requires UnseenThrough(s, t, events)
    ensures UnseenThrough(s, t.(age := age), events)
    decreases |events|
  {
    hide After;
    if events == [] {
    } else {
      UnseenOlder(After(s, events[0]), t, age, events[1..]);
    }
  }

  lemma {:induction false} UnseenFor(s: Tracker, t: Track, events: seq<Event>)
    requires WellFormed(s) && t in s.tracks && UnseenThrough(s, t, events)
    ensures Waits(t, Outlives(t.age, s.maxAge, events), Frames(events), Watch(s, events))
    decreases |events|
  {
    hide Update, Unseen, WellFormed, Known;
    IdBelowNext(s, t);
    if events == [] {
    } else {
      var e, rest := events[0], events[1..];
      var s1 := After(s, e);
      SettingsStay(s, e);
      match e {
        case Frame(dets) =>
          MissedRemains(s, t, dets);
          if t.age + 1 <= s.maxAge {
            UnseenOlder(s1, t, t.age + 1, rest);
            UnseenFor(s1, t.(age := t.age + 1), rest);
          } else {
            NeverBack(s1, t.id, rest);
          }
        case Settings(threshold, maxAge, mode) =>
          UnseenFor(s1, t, rest);
      }
    }
  }

  lemma IdBelowNext(s: Tracker, t: Track)
    requires WellFormed(s) && t in s.tracks
    ensures t.id < s.nextId
  {
  }

  /** An unrivalled detection is matched with its track. */
  lemma UnrivalledMatched(s: Tracker, t: Track, dets: seq<Detection>, i: nat, j: nat)
    requires WellFormed(s) && j < |s.tracks| && s.tracks[j] == t && Unrivalled(s, t, dets, i)
    ensures Cell(i, j) in Matches(s, dets)
  {
    MatchingIsStable(s, dets);
    var w, c := Weights(s, dets), Cell(i, j);
    hide Weight, Matches, WellFormed;
    assert c in w && w[c] >= s.threshold;
    var b :| b in Matched(s, dets) && (b == c || Clash(b, c)) && w[b] >= w[c];
    MatchedAdmissible(s, dets, b);
    if b.row == i {
      var u := s.tracks[b.col];
      assert u in s.tracks && u.id == t.id;
      OneTrackPerId(s, t, u);
      SamePlace(s, j, b.col);
    }
  }

  lemma SamePlace(s: Tracker, j: nat, k: nat)
    requires WellFormed(s) && j < |s.tracks| && k < |s.tracks| && s.tracks[j].id == s.tracks[k].id
    ensures j == k
  {
  }

  /** An object that no detection meets for some time, whatever else the frames show and whatever settings change, and
      that one detection then meets without a rival, gets its id back exactly when its track was never too old. */
  lemma OccludedKeepsId(s: Tracker, t: Track, events: seq<Event>, dets: seq<Detection>, i: nat)
    requires WellFormed(s) && t in s.tracks && UnseenThrough(s, t, events)
    requires Unrivalled(Watch(s, events), t, dets, i)
    ensures |Update(Watch(s, events), dets).labels| == |dets|
    ensures Update(Watch(s, events), dets).labels[i] == t.id <==> Outlives(t.age, s.maxAge, events)
  {
    hide *;
    var s', alive := Watch(s, events), Outlives(t.age, s.maxAge, events);
    UnseenFor(s, t, events);
    WaitsMeans(t, alive, Frames(events), s');
    IsADetection(s', t, dets, i);
    LabelCount(s', dets);
    if alive {
      var t' := t.(age := t.age + Frames(events));
      StillUnrivalled(s', t, t', dets, i);
      GetsIdBack(s', t', dets, i);
    } else {
      GoneUnlabelled(s', t.id, dets);
    }
  }

  lemma WaitsMeans(t: Track, alive: bool, frames: nat, s: Tracker)
    requires Waits(t, alive, frames, s)
    ensures WellFormed(s) && t.id < s.nextId
    ensures if alive then t.(age := t.age + frames) in s.tracks else !Known(s.tracks, t.id)
  {
    hide WellFormed, Known;
  }

  lemma IsADetection(s: Tracker, t: Track, dets: seq<Detection>, i: nat)
    requires Unrivalled(s, t, dets, i)
    ensures i < |dets|
  {
  }

  lemma GetsIdBack(s: Tracker, t: Track, dets: seq<Detection>, i: nat)
    requires WellFormed(s) && t in s.tracks && Unrivalled(s, t, dets, i)
    ensures |Update(s, dets).labels| == |dets| && Update(s, dets).labels[i] == t.id
  {
    hide *;
    IsADetection(s, t, dets, i);
    var j: nat :| j < |s.tracks| && s.tracks[j] == t;
    UnrivalledMatched(s, t, dets, i, j);
    UpdateMeans(s, dets);
  }

  lemma StillUnrivalled(s: Tracker, t: Track, t': Track, dets: seq<Detection>, i: nat)
    requires Unrivalled(s, t, dets, i) && t' == t.(age := t'.age)
    ensures Unrivalled(s, t', dets, i)
  {
    assert forall d :: Weight(s.mode, d, t') == Weight(s.mode, d, t);
    hide Weight;
  }
}
