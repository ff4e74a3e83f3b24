/** The number of concurrently live tracks is not what keeps a track in the table. */
module LiveCount {
  import opened Options
  import opened Geometry
  import opened Coordinates
  import opened ClassMatch
  import opened Greedy
  import opened TrackerSpec
  import opened TrackerRuns
  import opened UuidCache
  import opened TrackIdentity

  /** No moment of the run, before or after a frame, has more than cap live tracks. */
  ghost predicate LiveWithin(s: Tracker, events: seq<Event>, cap: nat)
    decreases |events|
  {
    && |s.tracks| <= cap
    && (events == [] ||
        match events[0]
        case Frame(dets) => LiveWithin(Update(s, dets).next, events[1..], cap)
        case Settings(threshold, maxAge, mode) => LiveWithin(SetParams(s, threshold, maxAge, mode), events[1..], cap))
  }

  /** The frame in m upright stripes, and stripe k. */
  function Place(m: Positive, k: nat): Box {
    Box(Norm(k, m), 0.0, Norm(k + 1, m), 1.0)
  }

  function At(m: Positive, k: nat): Detection {
    Detection(Place(m, k), 0)
  }

  lemma NormOrder(m: Positive, a: int, b: int)
    ensures a < b ==> Norm(a, m) < Norm(b, m)
    ensures Norm(0, m) == 0.0 && Norm(m, m) == 1.0
  {
    Reciprocal(m as real);
    DivideByScaling(a as real, m as real);
    DivideByScaling(b as real, m as real);
    if a < b {
      ScaleOrder(a as real, b as real, 1.0 / m as real);
    }
  }

  lemma PlaceIsProper(m: Positive, k: nat)
    requires k < m
    ensures Proper(Place(m, k))
  {
    hide Norm;
    NormOrder(m, k, k + 1);
    NormOrder(m, 0, k);
    NormOrder(m, k + 1, m);
  }

  lemma PlacesApart(m: Positive, a: nat, b: nat)
    ensures Iou(Place(m, a), Place(m, b)) == if a == b then 1.0 else 0.0
  {
    hide Iou, Norm;
    NormOrder(m, a, a + 1);
    NormOrder(m, b, b + 1);
    NormOrder(m, a + 1, b);
    NormOrder(m, b + 1, a);
    if a == b {
      IouSelf(Place(m, a));
    } else {
      IouPositiveIff(Place(m, a), Place(m, b));
      IouInUnitInterval(Place(m, a), Place(m, b));
    }
  }

  /** n objects standing still, last seen `age` updates ago. */
  ghost function Standing(m: Positive, n: nat, age: int): (r: seq<Track>)
    ensures |r| == n
    ensures forall k: nat | k < n :: r[k] == Track(k + 1, Place(m, k), 0, age, 1)
  {
    seq(n, k requires 0 <= k < n => Track(k + 1, Place(m, k), 0, age, 1))
  }

  ghost function Crowd(m: Positive, n: nat, age: int, maxAge: int): Tracker {
    Tracker(Standing(m, n, age), n + 1, 0.3, maxAge, VehicleGroup)
  }

  ghost function Everyone(m: Positive, n: nat): (r: seq<Detection>)
    ensures |r| == n
    ensures forall k: nat | k < n :: r[k] == At(m, k)
  {
    seq(n, k requires 0 <= k < n => At(m, k))
  }

  function Ids(lo: int, hi: int): (r: seq<int>)
    requires lo <= hi
    ensures |r| == hi - lo
    ensures forall k | 0 <= k < |r| :: r[k] == lo + k
    decreases hi - lo
  {
    if lo == hi then [] else [lo] + Ids(lo + 1, hi)
  }

  lemma {:induction false} AllBorn(m: Positive, dets: seq<Detection>, n: nat)
    requires n <= |dets| && forall k: nat | k < |dets| :: dets[k] == At(m, k)
    ensures Births(1, dets, [], n) == Standing(m, n, 0)
    ensures Unmatched([], n) == n
  {
    if n > 0 {
      AllBorn(m, dets, n - 1);
    }
  }

  /** The first frame: everybody gets an id. */
  lemma Arrive(m: Positive, n: nat, maxAge: int)
    ensures
      var o := Update(Fresh(0.3, maxAge, VehicleGroup), Everyone(m, n));
      o.next == Crowd(m, n, 0, maxAge) && o.labels == Ids(1, n + 1)
  {
    hide Update, Births, Unmatched;
    var s := Fresh(0.3, maxAge, VehicleGroup);
    var dets := Everyone(m, n);
    NothingTracked(s, dets);
    AllBorn(m, dets, n);
    forall i: nat | i < n
      ensures Update(s, dets).labels[i] == 1 + i
    {
      NothingPicked(i);
    }
  }

  lemma {:induction false} AllSurvive(tracks: seq<Track>, maxAge: int)
    requires forall t | t in tracks :: t.age <= maxAge
    ensures Survivors(tracks, maxAge) == tracks
    decreases |tracks|
  {
    if tracks == [] {
    } else {
      var init, last := tracks[..|tracks| - 1], tracks[|tracks| - 1];
      assert last in tracks && tracks == init + [last];
      AllSurvive(init, maxAge);
    }
  }

  /** An empty frame within the grace period: everybody ages. */
  lemma Wait(m: Positive, n: nat, age: nat, maxAge: int)
    requires age < maxAge
    ensures
      var o := Update(Crowd(m, n, age, maxAge), []);
      o.next == Crowd(m, n, age + 1, maxAge) && o.labels == []
  {
    var s := Crowd(m, n, age, maxAge);
    assert Matches(s, []) == [] by {
      assert Weights(s, []).Keys == {};
    }
    assert TickAll(s.tracks, [], []) == Standing(m, n, age + 1);
    AllSurvive(Standing(m, n, age + 1), maxAge);
  }

  lemma {:induction false} OnlyFirstSurvives(tracks: seq<Track>, maxAge: int)
    requires tracks != [] && tracks[0].age <= maxAge
    requires forall k | 0 < k < |tracks| :: tracks[k].age > maxAge
    ensures Survivors(tracks, maxAge) == [tracks[0]]
    decreases |tracks|
  {
    if |tracks| > 1 {
      OnlyFirstSurvives(tracks[..|tracks| - 1], maxAge);
    } else {
      assert Survivors([], maxAge) == [];
    }
  }

  lemma NewcomerAndFirst(m: Positive, n: nat, age: nat, maxAge: int)
    requires n >= 1
    ensures Matches(Crowd(m, n, age, maxAge), [At(m, n), At(m, 0)]) == [Cell(1, 0)]
  {
    var s := Crowd(m, n, age, maxAge);
    var dets := [At(m, n), At(m, 0)];
    var w := Weights(s, dets);
    var c := Cell(1, 0);
    forall d | d in w
      ensures w[d] == if d == c then 1.0 else 0.0
    {
      PlacesApart(m, if d.row == 0 then n else 0, d.col);
    }
    hide Weights;
    BestUnique(w, w.Keys, c);
    PicksBelow(w, Unmasked(w.Keys, c), 0.3);
    assert Picks(w, w.Keys, 0.3) == [c] + Picks(w, Unmasked(w.Keys, c), 0.3);
  }

  lemma OnlyReturnerKept(m: Positive, n: nat, maxAge: int)
    requires n >= 1 && maxAge >= 0
    ensures |Survivors(TickAll(Standing(m, n, maxAge), [At(m, n), At(m, 0)], [Cell(1, 0)]), maxAge)| == 1
  {
    var picks := [Cell(1, 0)];
    hide Standing;
    assert picks[1..] == [];
    forall k: nat | 0 < k < n
      ensures ColPartner(picks, k) == None
    {
      assert ColPartner(picks[1..], k) == None;
    }
    hide TickAll, Survivors;
    OnlyFirstSurvives(TickAll(Standing(m, n, maxAge), [At(m, n), At(m, 0)], picks), maxAge);
  }

  lemma OneMatched()
    ensures var p := [Cell(1, 0)]; RowPartner(p, 0) == None && RowPartner(p, 1) == Some(0)
    ensures var p := [Cell(1, 0)]; Unmatched(p, 0) == 0 && Unmatched(p, 1) == 1 && Unmatched(p, 2) == 1
  {
    var p := [Cell(1, 0)];
    assert p[1..] == [];
    assert RowPartner(p, 0) == None && RowPartner(p, 1) == Some(0);
    assert Unmatched(p, 0) == 0;
    assert Unmatched(p, 1) == 1;
  }

  lemma ReturnTracks(m: Positive, n: nat, maxAge: int)
    requires n >= 1 && maxAge >= 0
    ensures |Update(Crowd(m, n, maxAge, maxAge), [At(m, n), At(m, 0)]).next.tracks| == 2
  {
    var s := Crowd(m, n, maxAge, maxAge);
    var dets := [At(m, n), At(m, 0)];
    NewcomerAndFirst(m, n, maxAge, maxAge);
    hide Update, Standing, TickAll, Survivors, Births, Unmatched, RowPartner, ColPartner, Matches, At;
    UpdateUnfolds(s, dets);
    OneMatched();
    OnlyReturnerKept(m, n, maxAge);
    BirthsInside(s.nextId, dets, [Cell(1, 0)], 2);
  }

  lemma ReturnLabels(m: Positive, n: nat, maxAge: int)
    requires n >= 1 && maxAge >= 0
    ensures Update(Crowd(m, n, maxAge, maxAge), [At(m, n), At(m, 0)]).labels == [n + 1, 1]
  {
    var s := Crowd(m, n, maxAge, maxAge);
    var dets := [At(m, n), At(m, 0)];
    var p := [Cell(1, 0)];
    NewcomerAndFirst(m, n, maxAge, maxAge);
    OneMatched();
    MatchesOneToOne(s, dets);
    assert s.tracks[0].id == 1 && s.nextId == n + 1;
    assert Label(s.tracks, s.nextId, p, 0) == n + 1 && Label(s.tracks, s.nextId, p, 1) == 1;
    assert Update(s, dets).labels == Labels(s.tracks, s.nextId, p, 2);
    hide *;
    LabelsOfTwo(s.tracks, s.nextId, p);
  }

  lemma LabelsOfTwo(tracks: seq<Track>, nextId: int, p: seq<Cell>)
    requires forall c | c in p :: c.col < |tracks|
    ensures Labels(tracks, nextId, p, 2) == [Label(tracks, nextId, p, 0), Label(tracks, nextId, p, 1)]
  {
    hide Label;
  }

  /** A newcomer is listed before the oldest object, which is the only one to come back. */
  lemma Return(m: Positive, n: nat, maxAge: int)
    requires n >= 1 && maxAge >= 0
    ensures
      var o := Update(Crowd(m, n, maxAge, maxAge), [At(m, n), At(m, 0)]);
      |o.next.tracks| == 2 && o.labels == [n + 1, 1]
  {
    hide *;
    ReturnTracks(m, n, maxAge);
    ReturnLabels(m, n, maxAge);
  }

  // The table along this run.

  ghost predicate Filled(cache: seq<Entry>, n: nat) {
    |cache| == n && forall i | 0 <= i < n :: cache[i].tid == n - i
  }

  lemma {:induction false} FillTable(gen: nat -> Uuid, cap: nat, l: Link, k: nat)
    requires k <= cap && Filled(l.cache, k)
    ensures Filled(UseAll(gen, cap, l, Ids(k + 1, cap + 1)).cache, cap)
    ensures l.log <= UseAll(gen, cap, l, Ids(k + 1, cap + 1)).log
    ensures UseAll(gen, cap, l, Ids(k + 1, cap + 1)).draws == l.draws + (cap - k)
    decreases cap - k
  {
    if k < cap {
      var l1 := Use(gen, cap, l, k + 1);
      assert IndexOf(l.cache, k + 1) == k;
      assert Ids(k + 1, cap + 1)[1..] == Ids(k + 2, cap + 1);
      FillTable(gen, cap, l1, k + 1);
    }
  }

  lemma EvictedThenMissed(gen: nat -> Uuid, cap: nat, l: Link)
    requires cap >= 1 && Filled(l.cache, cap)
    ensures UseAll(gen, cap, l, [cap + 1, 1]).log == l.log + [Entry(cap + 1, gen(l.draws)), Entry(1, gen(l.draws + 1))]
  {
    assert IndexOf(l.cache, cap + 1) == cap;
    var l1 := Use(gen, cap, l, cap + 1);
    assert forall i | 0 <= i < |l1.cache| :: l1.cache[i].tid == cap + 1 - i;
    assert IndexOf(l1.cache, 1) == |l1.cache|;
    var l2 := Use(gen, cap, l1, 1);
    assert UseAll(gen, cap, l1, [1]) == UseAll(gen, cap, l2, []);
    assert [cap + 1, 1][1..] == [1];
  }

  function Waiting(k: nat): seq<Event> {
    if k == 0 then [] else [Frame([])] + Waiting(k - 1)
  }

  lemma Unfold(gen: nat -> Uuid, cap: nat, l: Link, dets: seq<Detection>, rest: seq<Event>)
    ensures RunLink(gen, cap, l, [Frame(dets)] + rest) == RunLink(gen, cap, Step(gen, cap, l, Frame(dets)), rest)
    ensures LiveWithin(l.tracker, [Frame(dets)] + rest, cap) <==>
      |l.tracker.tracks| <= cap && LiveWithin(Update(l.tracker, dets).next, rest, cap)
  {
    hide Step, Update;
    var events := [Frame(dets)] + rest;
    assert events[0] == Frame(dets) && events[1..] == rest;
  }

  lemma Depart(m: Positive, gen: nat -> Uuid, cap: nat, l: Link, maxAge: int)
    requires cap >= 2 && maxAge >= 0
    requires l.tracker == Crowd(m, cap, maxAge, maxAge) && Filled(l.cache, cap)
    ensures
      var events := [Frame([At(m, cap), At(m, 0)])];
      && LiveWithin(l.tracker, events, cap)
      && RunLink(gen, cap, l, events).log == l.log + [Entry(cap + 1, gen(l.draws)), Entry(1, gen(l.draws + 1))]
  {
    hide Update, UseAll;
    var dets := [At(m, cap), At(m, 0)];
    Return(m, cap, maxAge);
    EvictedThenMissed(gen, cap, l.(tracker := Update(l.tracker, dets).next));
    Unfold(gen, cap, l, dets, []);
    assert [Frame(dets)] + [] == [Frame(dets)];
    var l1 := Step(gen, cap, l, Frame(dets));
    assert RunLink(gen, cap, l1, []) == l1;
    assert LiveWithin(Update(l.tracker, dets).next, [], cap);
  }

  lemma WaitStep(m: Positive, gen: nat -> Uuid, cap: nat, l: Link, age: nat, maxAge: int)
    requires age < maxAge && l.tracker == Crowd(m, cap, age, maxAge)
    ensures Step(gen, cap, l, Frame([])) == l.(tracker := Crowd(m, cap, age + 1, maxAge))
    ensures Update(l.tracker, []).next == Crowd(m, cap, age + 1, maxAge)
    ensures |l.tracker.tracks| == cap
  {
    Wait(m, cap, age, maxAge);
    hide Update, Standing;
  }

  lemma {:induction false} WaitAndReturn(m: Positive, gen: nat -> Uuid, cap: nat, l: Link, age: nat, maxAge: int)
    requires cap >= 2 && age <= maxAge
    requires l.tracker == Crowd(m, cap, age, maxAge) && Filled(l.cache, cap)
    ensures
      var events := Waiting(maxAge - age) + [Frame([At(m, cap), At(m, 0)])];
      && LiveWithin(l.tracker, events, cap)
      && RunLink(gen, cap, l, events).log == l.log + [Entry(cap + 1, gen(l.draws)), Entry(1, gen(l.draws + 1))]
    decreases maxAge - age
  {
    hide Update, Crowd, RunLink, LiveWithin, Step, Filled;
    var last := [Frame([At(m, cap), At(m, 0)])];
    if age < maxAge {
      var rest := Waiting(maxAge - (age + 1)) + last;
      assert Waiting(maxAge - age) + last == [Frame([])] + rest;
      WaitStep(m, gen, cap, l, age, maxAge);
      WaitAndReturn(m, gen, cap, l.(tracker := Crowd(m, cap, age + 1, maxAge)), age + 1, maxAge);
      Unfold(gen, cap, l, [], rest);
    } else {
      assert Waiting(0) + last == last;
      Depart(m, gen, cap, l, maxAge);
    }
  }

  /** The first frame fills the table. */
  lemma ArriveInTable(m: Positive, gen: nat -> Uuid, cap: nat, maxAge: int)
    requires cap >= 1
    ensures
      var l := Step(gen, cap, Connect(0.3, maxAge, VehicleGroup), Frame(Everyone(m, cap)));
      && l.tracker == Crowd(m, cap, 0, maxAge)
      && Filled(l.cache, cap) && l.draws == cap && Entry(1, gen(0)) in l.log
  {
    var l := Connect(0.3, maxAge, VehicleGroup);
    Arrive(m, cap, maxAge);
    var l1 := l.(tracker := Crowd(m, cap, 0, maxAge));
    assert Step(gen, cap, l, Frame(Everyone(m, cap))) == UseAll(gen, cap, l1, Ids(1, cap + 1));
    hide Update, Crowd, Everyone;
    var u := Use(gen, cap, l1, 1);
    assert IndexOf(l1.cache, 1) == 0;
    assert u.log == [Entry(1, gen(0))] && u.draws == 1 && Filled(u.cache, 1);
    assert Ids(1, cap + 1)[1..] == Ids(2, cap + 1);
    FillTable(gen, cap, u, 1);
    var l2 := UseAll(gen, cap, u, Ids(2, cap + 1));
    assert UseAll(gen, cap, l1, Ids(1, cap + 1)) == l2;
    assert u.log[0] in l2.log;
  }

  /** Two entries of a log give one id two UUIDs. */
  ghost predicate Changed(log: seq<Entry>) {
    exists a, b :: a in log && b in log && a.tid == b.tid && a.uuid != b.uuid
  }

  ghost predicate AllProper(events: seq<Event>) {
    forall e | e in events :: e.Frame? && forall d | d in e.dets :: Proper(d.xyxy)
  }

  lemma {:induction false} WaitingIsProper(k: nat)
    ensures AllProper(Waiting(k))
  {
    if k > 0 {
      WaitingIsProper(k - 1);
    }
  }

  lemma CrowdIsProper(cap: nat, k: nat)
    ensures AllProper([Frame(Everyone(cap + 1, cap))] + (Waiting(k) + [Frame([At(cap + 1, cap), At(cap + 1, 0)])]))
  {
    hide Place;
    WaitingIsProper(k);
    var m, all := cap + 1, Everyone(cap + 1, cap);
    forall d | d in all
      ensures Proper(d.xyxy)
    {
      var j: nat :| j < |all| && all[j] == d;
      PlaceIsProper(m, j);
    }
    PlaceIsProper(m, cap);
    PlaceIsProper(m, 0);
  }

  /** Whatever the cap and the grace period, a run of boxes inside the frame can keep at most cap tracks alive at every
      moment and still see one live track change its UUID: a newcomer is resolved before the oldest track comes back, in
      the frame that prunes all others. */
  lemma CrowdedRun(gen: nat -> Uuid, cap: nat, maxAge: int) returns (events: seq<Event>)
    requires Injective(gen) && cap >= 2 && maxAge >= 0
    ensures LiveWithin(Fresh(0.3, maxAge, VehicleGroup), events, cap) && AllProper(events)
    ensures Changed(RunLink(gen, cap, Connect(0.3, maxAge, VehicleGroup), events).log)
  {
    hide *;
    var m := cap + 1;
    var l := Connect(0.3, maxAge, VehicleGroup);
    var rest := Waiting(maxAge - 0) + [Frame([At(m, cap), At(m, 0)])];
    var l2 := Step(gen, cap, l, Frame(Everyone(m, cap)));
    ArriveInTable(m, gen, cap, maxAge);
    WaitAndReturn(m, gen, cap, l2, 0, maxAge);
    Unfold(gen, cap, l, Everyone(m, cap), rest);
    Arrive(m, cap, maxAge);
    CrowdIsProper(cap, maxAge);
    events := [Frame(Everyone(m, cap))] + rest;
    NoneYet(gen, cap, maxAge);
    ChangedBetween(gen, RunLink(gen, cap, l, events).log, 0, l2.draws + 1);
  }

  lemma NoneYet(gen: nat -> Uuid, cap: nat, maxAge: int)
    ensures var l := Connect(0.3, maxAge, VehicleGroup); l.tracker == Fresh(0.3, maxAge, VehicleGroup) && l.tracker.tracks == []
  {
  }

  lemma ChangedBetween(gen: nat -> Uuid, log: seq<Entry>, i: nat, j: nat)
    requires Injective(gen) && i != j && Entry(1, gen(i)) in log && Entry(1, gen(j)) in log
    ensures Changed(log)
  {
    var a, b := Entry(1, gen(i)), Entry(1, gen(j));
    assert a.tid == b.tid && a.uuid != b.uuid;
  }
}
