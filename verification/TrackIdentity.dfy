/** The tracker and the UUID table together: one worker connection, seen from the camera. */
module TrackIdentity {
  import opened Options
  import opened Lists
  import opened Greedy
  import opened ClassMatch
  import opened TrackerSpec
  import opened TrackerRuns
  import opened UuidCache

  // Live tracks and their ages.

  ghost predicate AgesAre(ages: map<int, int>, tracks: seq<Track>) {
    && (forall t | t in tracks :: t.id in ages && ages[t.id] == t.age)
    && (forall id | id in ages :: Known(tracks, id))
  }

  function AgesOf(tracks: seq<Track>): map<int, int> {
    if tracks == [] then map[]
    else AgesOf(tracks[..|tracks| - 1])[tracks[|tracks| - 1].id := tracks[|tracks| - 1].age]
  }

  lemma AgesExtend(ages: map<int, int>, init: seq<Track>, last: Track)
    requires AgesAre(ages, init) && forall t | t in init :: t.id != last.id
    ensures AgesAre(ages[last.id := last.age], init + [last])
  {
  }

  lemma LastIdIsNew(init: seq<Track>, last: Track)
    requires IdsIncrease(init + [last])
    ensures forall t | t in init :: t.id != last.id
  {
    forall t | t in init
      ensures t.id != last.id
    {
      var k :| 0 <= k < |init| && init[k] == t;
      assert (init + [last])[k] == t && (init + [last])[|init|] == last;
    }
  }

  lemma {:induction false} AgesOfTracks(tracks: seq<Track>)
    requires IdsIncrease(tracks)
    ensures AgesAre(AgesOf(tracks), tracks)
    decreases |tracks|
  {
    if tracks == [] {
    } else {
      var init, last := tracks[..|tracks| - 1], tracks[|tracks| - 1];
      AgesOfTracks(init);
      assert tracks == init + [last];
      LastIdIsNew(init, last);
      assert AgesOf(tracks) == AgesOf(init)[last.id := last.age];
      hide AgesOf, AgesAre, IdsIncrease;
      AgesExtend(AgesOf(init), init, last);
    }
  }

  lemma AgesUnique(a: map<int, int>, b: map<int, int>, tracks: seq<Track>)
    requires AgesAre(a, tracks) && AgesAre(b, tracks)
    ensures a == b
  {
    assert forall id | id in a :: id in b && a[id] == b[id];
    assert forall id | id in b :: id in a;
  }

  // Live tracks stand first in the table, youngest first.

  /** The first n entries are exactly the ids of `ages`, in order of age. */
  ghost predicate YoungestFirst(cache: seq<Entry>, ages: map<int, int>, n: nat) {
    && n <= |cache|
    && (forall i, j | 0 <= i < j < |cache| :: cache[i].tid != cache[j].tid)
    && (forall i | 0 <= i < n :: cache[i].tid in ages)
    && (forall id | id in ages :: IndexOf(cache, id) < n)
    && (forall i, j | 0 <= i < j < n :: ages[cache[i].tid] <= ages[cache[j].tid])
  }

  ghost predicate LiveFirst(cache: seq<Entry>, ages: map<int, int>) {
    exists n: nat :: YoungestFirst(cache, ages, n)
  }

  lemma PrefixCount(cache: seq<Entry>, ages: map<int, int>, n: nat)
    requires YoungestFirst(cache, ages, n)
    ensures |ages| == n
  {
    hide IndexOf, CachedTids;
    var front := CachedTids(cache)[..n];
    assert Distinct(front);
    DistinctCount(front);
    forall id | id in ages
      ensures id in front
    {
      assert front[IndexOf(cache, id)] == id;
    }
    assert IdSet(front) == ages.Keys;
  }

  lemma FoundAt(cache: seq<Entry>, id: int, i: nat)
    requires i < |cache| && cache[i].tid == id
    ensures IndexOf(cache, id) <= i
  {
  }

  /** `next` is `cache` with tid brought to the front from position i, or put there when i is the length. */
  ghost predicate Fronted(cache: seq<Entry>, i: nat, tid: int, next: seq<Entry>) {
    && i <= |cache| && next != [] && next[0].tid == tid
    && (i < |cache| ==> cache[i].tid == tid)
    && (forall k | 0 <= k < |cache| && k != i :: cache[k].tid != tid)
    && (forall k | 0 < k < |next| && k <= i :: next[k] == cache[k - 1])
    && (forall k | i < k < |next| :: k < |cache| && next[k] == cache[k])
  }

  lemma FrontedDistinct(cache: seq<Entry>, i: nat, tid: int, next: seq<Entry>)
    requires Fronted(cache, i, tid, next)
    requires forall a, b | 0 <= a < b < |cache| :: cache[a].tid != cache[b].tid
    ensures forall a, b | 0 <= a < b < |next| :: next[a].tid != next[b].tid
  {
  }

  lemma FrontedOrdered(cache: seq<Entry>, ages: map<int, int>, n: nat, i: nat, tid: int, next: seq<Entry>, m: nat)
    requires YoungestFirst(cache, ages, n) && Fronted(cache, i, tid, next)
    requires forall id | id in ages :: ages[id] >= 0
    requires m <= |next| && m == if i < n then n else n + 1
    requires i < n || i == |cache|
    ensures forall a | 0 <= a < m :: next[a].tid in ages[tid := 0]
    ensures forall a, b | 0 <= a < b < m :: ages[tid := 0][next[a].tid] <= ages[tid := 0][next[b].tid]
  {
    hide IndexOf;
  }

  lemma OrderFromFront(cache: seq<Entry>, ages: map<int, int>, n: nat, i: nat, tid: int, next: seq<Entry>, m: nat)
    requires YoungestFirst(cache, ages, n) && Fronted(cache, i, tid, next)
    requires forall id | id in ages :: ages[id] >= 0
    requires m <= |next| && m == if i < n then n else n + 1
    requires i < n || i == |cache|
    requires forall id | id in ages && id != tid :: IndexOf(next, id) < m
    ensures YoungestFirst(next, ages[tid := 0], m)
  {
    FrontedOrdered(cache, ages, n, i, tid, next, m);
    FrontedDistinct(cache, i, tid, next);
    FoundAt(next, tid, 0);
    hide IndexOf, Fronted;
  }

  lemma RotatedFronts(cache: seq<Entry>, i: nat, tid: int, next: seq<Entry>)
    requires i < |cache| && cache[i].tid == tid
    requires forall a, b | 0 <= a < b < |cache| :: cache[a].tid != cache[b].tid
    requires next == [cache[i]] + (cache[..i] + cache[i + 1..])
    ensures Fronted(cache, i, tid, next) && |next| == |cache|
  {
  }

  lemma HitFronts(cache: seq<Entry>, tid: int, drawn: Uuid, cap: nat)
    requires forall a, b | 0 <= a < b < |cache| :: cache[a].tid != cache[b].tid
    requires IndexOf(cache, tid) < |cache|
    ensures
      var next := Resolve(cache, tid, drawn, cap).cache;
      Fronted(cache, IndexOf(cache, tid), tid, next) && |next| == |cache|
  {
    var i := IndexOf(cache, tid);
    assert Resolve(cache, tid, drawn, cap).cache == [cache[i]] + (cache[..i] + cache[i + 1..]);
    hide *;
    RotatedFronts(cache, i, tid, [cache[i]] + (cache[..i] + cache[i + 1..]));
  }

  lemma FrontedIndex(cache: seq<Entry>, i: nat, tid: int, next: seq<Entry>, id: int)
    requires Fronted(cache, i, tid, next) && id != tid && IndexOf(cache, id) < |cache|
    ensures var k := IndexOf(cache, id); (if k < i then k + 1 else k) < |next| ==> IndexOf(next, id) <= if k < i then k + 1 else k
  {
    hide IndexOf;
    var k := IndexOf(cache, id);
    if (if k < i then k + 1 else k) < |next| {
      FoundAt(next, id, if k < i then k + 1 else k);
    }
  }

  lemma HitKeepsOrder(cache: seq<Entry>, ages: map<int, int>, n: nat, tid: int, drawn: Uuid, cap: nat)
    requires YoungestFirst(cache, ages, n) && tid in ages
    requires forall id | id in ages :: ages[id] >= 0
    ensures YoungestFirst(Resolve(cache, tid, drawn, cap).cache, ages[tid := 0], n)
  {
    hide IndexOf, Resolve, Fronted;
    var next := Resolve(cache, tid, drawn, cap).cache;
    var i := IndexOf(cache, tid);
    HitFronts(cache, tid, drawn, cap);
    forall id | id in ages && id != tid
      ensures IndexOf(next, id) < n
    {
      FrontedIndex(cache, i, tid, next, id);
    }
    OrderFromFront(cache, ages, n, i, tid, next, n);
  }

  lemma MissFronts(cache: seq<Entry>, tid: int, drawn: Uuid, cap: nat)
    requires 0 < cap && forall e | e in cache :: e.tid != tid
    ensures
      var next := Resolve(cache, tid, drawn, cap).cache;
      Fronted(cache, |cache|, tid, next) && |next| == if |cache| < cap then |cache| + 1 else cap
  {
  }

  lemma MissIndex(cache: seq<Entry>, tid: int, next: seq<Entry>, id: int, n: nat)
    requires Fronted(cache, |cache|, tid, next)
    requires IndexOf(cache, id) < n <= |cache| && n < |next|
    ensures IndexOf(next, id) < n + 1
  {
    hide IndexOf;
    FoundAt(next, id, IndexOf(cache, id) + 1);
  }

  lemma MissKeepsOrder(cache: seq<Entry>, ages: map<int, int>, n: nat, tid: int, drawn: Uuid, cap: nat)
    requires YoungestFirst(cache, ages, n) && tid !in ages
    requires forall id | id in ages :: ages[id] >= 0
    requires n < cap && forall e | e in cache :: e.tid != tid
    ensures YoungestFirst(Resolve(cache, tid, drawn, cap).cache, ages[tid := 0], n + 1)
  {
    var next := Resolve(cache, tid, drawn, cap).cache;
    MissFronts(cache, tid, drawn, cap);
    hide IndexOf, Resolve, Fronted;
    forall id | id in ages && id != tid
      ensures IndexOf(next, id) < n + 1
    {
      MissIndex(cache, tid, next, id, n);
    }
    OrderFromFront(cache, ages, n, |cache|, tid, next, n + 1);
  }

  /** Using an id makes it the youngest; nobody live leaves while the live ids fit. */
  lemma UseKeepsOrder(cache: seq<Entry>, ages: map<int, int>, tid: int, drawn: Uuid, cap: nat)
    requires LiveFirst(cache, ages)
    requires forall id | id in ages :: ages[id] >= 0
    requires tid in ages || (|ages| < cap && forall e | e in cache :: e.tid != tid)
    ensures LiveFirst(Resolve(cache, tid, drawn, cap).cache, ages[tid := 0])
  {
    hide YoungestFirst, Resolve;
    var n: nat :| YoungestFirst(cache, ages, n);
    PrefixCount(cache, ages, n);
    if tid in ages {
      HitKeepsOrder(cache, ages, n, tid, drawn, cap);
    } else {
      MissKeepsOrder(cache, ages, n, tid, drawn, cap);
    }
  }

  lemma {:induction false} OldestSplit(cache: seq<Entry>, ages: map<int, int>, n: nat, maxAge: int, k: nat) returns (p: nat)
    requires YoungestFirst(cache, ages, n) && k <= n
    requires forall i | k <= i < n :: ages[cache[i].tid] > maxAge
    ensures p <= k
    ensures forall i | 0 <= i < p :: ages[cache[i].tid] <= maxAge
    ensures forall i | p <= i < n :: ages[cache[i].tid] > maxAge
    decreases k
  {
    if k == 0 || ages[cache[k - 1].tid] <= maxAge {
      p := k;
    } else {
      p := OldestSplit(cache, ages, n, maxAge, k - 1);
    }
  }

  function Kept(ages: map<int, int>, maxAge: int): map<int, int> {
    map id | id in ages && ages[id] <= maxAge :: ages[id]
  }

  /** Pruning cuts the live entries at their old end. */
  lemma PruneKeepsOrder(cache: seq<Entry>, ages: map<int, int>, maxAge: int)
    requires LiveFirst(cache, ages)
    ensures LiveFirst(cache, Kept(ages, maxAge))
  {
    hide IndexOf;
    var n: nat :| YoungestFirst(cache, ages, n);
    var p := OldestSplit(cache, ages, n, maxAge, n);
    assert YoungestFirst(cache, Kept(ages, maxAge), p);
  }

  function Older(ages: map<int, int>): map<int, int> {
    map id | id in ages :: ages[id] + 1
  }

  lemma TickKeepsOrder(cache: seq<Entry>, ages: map<int, int>)
    requires LiveFirst(cache, ages)
    ensures LiveFirst(cache, Older(ages))
  {
    hide IndexOf;
    var n: nat :| YoungestFirst(cache, ages, n);
    assert YoungestFirst(cache, Older(ages), n);
  }

  // The camera side: every label of a reply is resolved, in order.

  datatype Link = Link(tracker: Tracker, cache: seq<Entry>, draws: nat, log: seq<Entry>)

  ghost predicate Injective(gen: nat -> Uuid) {
    forall i, j | gen(i) == gen(j) :: i == j
  }

  function Use(gen: nat -> Uuid, cap: nat, l: Link, tid: int): Link {
    var r := Resolve(l.cache, tid, gen(l.draws), cap);
    l.(cache := r.cache, draws := if r.isNew then l.draws + 1 else l.draws, log := l.log + [Entry(tid, r.uuid)])
  }

  function UseAll(gen: nat -> Uuid, cap: nat, l: Link, labels: seq<int>): (r: Link)
    ensures r.tracker == l.tracker
    decreases |labels|
  {
    if labels == [] then l else UseAll(gen, cap, Use(gen, cap, l, labels[0]), labels[1..])
  }

  ghost function Step(gen: nat -> Uuid, cap: nat, l: Link, e: Event): Link {
    match e
    case Frame(dets) =>
      var o := Update(l.tracker, dets);
      UseAll(gen, cap, l.(tracker := o.next), o.labels)
    case Settings(threshold, maxAge, mode) =>
      l.(tracker := SetParams(l.tracker, threshold, maxAge, mode))
  }

  ghost function RunLink(gen: nat -> Uuid, cap: nat, l: Link, events: seq<Event>): Link
    decreases |events|
  {
    if events == [] then l else RunLink(gen, cap, Step(gen, cap, l, events[0]), events[1..])
  }

  /** Every id seen so far has one UUID of its own, and the table and the log agree with it. */
  ghost predicate Assigned(gen: nat -> Uuid, l: Link, owner: map<int, Uuid>) {
    && (forall e | e in l.cache :: e.tid in owner && owner[e.tid] == e.uuid)
    && (forall e | e in l.log :: e.tid in owner && owner[e.tid] == e.uuid)
    && (forall a, b | a in owner && b in owner && owner[a] == owner[b] :: a == b)
    && (forall id | id in owner :: exists k: nat :: k < l.draws && gen(k) == owner[id])
  }

  lemma UseKeepsAssigned(gen: nat -> Uuid, cap: nat, l: Link, owner: map<int, Uuid>, tid: int) returns (owner': map<int, Uuid>)
    requires Injective(gen) && Assigned(gen, l, owner)
    requires tid in owner ==> IndexOf(l.cache, tid) < |l.cache|
    ensures Assigned(gen, Use(gen, cap, l, tid), owner')
    ensures owner'.Keys == owner.Keys + {tid}
  {
    hide IndexOf;
    var i := IndexOf(l.cache, tid);
    var l' := Use(gen, cap, l, tid);
    if i < |l.cache| {
      owner' := owner;
      assert l.cache[i] in l.cache;
      assert forall e | e in l'.cache :: e in l.cache;
      assert forall e | e in l'.log :: e in l.log || e == l.cache[i];
    } else {
      owner' := owner[tid := gen(l.draws)];
      assert forall e | e in l'.cache :: e in l.cache || e == Entry(tid, gen(l.draws));
      assert forall e | e in l'.log :: e in l.log || e == Entry(tid, gen(l.draws));
      forall id | id in owner'
        ensures exists k: nat :: k < l'.draws && gen(k) == owner'[id]
      {
        if id == tid {
          assert gen(l.draws) == owner'[id];
        } else {
          var k: nat :| k < l.draws && gen(k) == owner[id];
        }
      }
    }
  }

  function Zeroed(ages: map<int, int>, labels: seq<int>): map<int, int>
    decreases |labels|
  {
    if labels == [] then ages else Zeroed(ages[labels[0] := 0], labels[1..])
  }

  lemma {:induction false} ZeroedFacts(ages: map<int, int>, labels: seq<int>)
    ensures Zeroed(ages, labels).Keys == ages.Keys + IdSet(labels)
    ensures forall id | id in Zeroed(ages, labels) :: Zeroed(ages, labels)[id] == if id in labels then 0 else ages[id]
    decreases |labels|
  {
    if labels == [] {
    } else {
      ZeroedFacts(ages[labels[0] := 0], labels[1..]);
      assert forall x :: x in labels <==> x == labels[0] || x in labels[1..];
    }
  }

  lemma SubsetSize(a: set<int>, b: set<int>)
    requires a <= b
    ensures |a| <= |b|
  {
    assert b == a + (b - a);
  }

  lemma UseKeeps(gen: nat -> Uuid, cap: nat, l: Link, owner: map<int, Uuid>, ages: map<int, int>, tid: int)
    returns (owner': map<int, Uuid>)
    requires Injective(gen) && Assigned(gen, l, owner)
    requires LiveFirst(l.cache, ages) && forall id | id in ages :: ages[id] >= 0
    requires tid in ages || (tid !in owner && |ages| < cap)
    ensures
      var l' := Use(gen, cap, l, tid);
      && Assigned(gen, l', owner')
      && LiveFirst(l'.cache, ages[tid := 0])
      && owner'.Keys == owner.Keys + {tid}
  {
    hide IndexOf, Resolve;
    if tid in ages {
      var n: nat :| YoungestFirst(l.cache, ages, n);
      assert IndexOf(l.cache, tid) < n;
    }
    UseKeepsOrder(l.cache, ages, tid, gen(l.draws), cap);
    owner' := UseKeepsAssigned(gen, cap, l, owner, tid);
  }

  /** No label comes twice, none belongs to a dead track, and the live ids and the labels fit the table. */
  ghost predicate Resolvable(ages: map<int, int>, known: set<int>, labels: seq<int>, cap: nat) {
    && Distinct(labels)
    && (forall x | x in labels :: x in ages || x !in known)
    && |ages.Keys + IdSet(labels)| <= cap
  }

  lemma IdSetSplit(labels: seq<int>)
    requires labels != []
    ensures IdSet(labels) == {labels[0]} + IdSet(labels[1..])
  {
  }

  lemma RestOfDistinct(labels: seq<int>)
    requires labels != [] && Distinct(labels)
    ensures Distinct(labels[1..])
    ensures forall x | x in labels[1..] :: x in labels && x != labels[0]
  {
  }

  lemma FirstIsKey(ages: map<int, int>, x: int, rest: set<int>)
    ensures ages.Keys + ({x} + rest) == ages[x := 0].Keys + rest
  {
  }

  lemma RestResolvable(ages: map<int, int>, known: set<int>, labels: seq<int>, cap: nat)
    requires labels != [] && Resolvable(ages, known, labels, cap)
    ensures Resolvable(ages[labels[0] := 0], known + {labels[0]}, labels[1..], cap)
  {
    hide IdSet, Distinct;
    IdSetSplit(labels);
    RestOfDistinct(labels);
    FirstIsKey(ages, labels[0], IdSet(labels[1..]));
  }

  lemma RoomForFirst(ages: map<int, int>, known: set<int>, labels: seq<int>, cap: nat)
    requires labels != [] && Resolvable(ages, known, labels, cap)
    ensures labels[0] in ages || (labels[0] !in known && |ages| < cap)
  {
    var first := labels[0];
    assert first in labels;
    assert first in ages || first !in known;
    hide IdSet, Distinct;
    IdSetSplit(labels);
    if labels[0] !in ages {
      var more := ages.Keys + {labels[0]};
      assert |more| == |ages.Keys| + 1 && |ages.Keys| == |ages|;
      SubsetSize(more, ages.Keys + IdSet(labels));
    }
  }

  lemma SetsJoin(a: set<int>, b: set<int>, c: set<int>)
    ensures (a + b) + c == a + (b + c)
  {
  }

  /** What one reply keeps. */
  ghost predicate Replied(gen: nat -> Uuid, l: Link, owner: map<int, Uuid>, ages: map<int, int>) {
    && Injective(gen)
    && Assigned(gen, l, owner)
    && LiveFirst(l.cache, ages)
    && forall id | id in ages :: ages[id] >= 0
  }

  lemma UseFirst(gen: nat -> Uuid, cap: nat, l: Link, owner: map<int, Uuid>, ages: map<int, int>, labels: seq<int>)
    returns (owner': map<int, Uuid>)
    requires labels != [] && Replied(gen, l, owner, ages) && Resolvable(ages, owner.Keys, labels, cap)
    ensures Replied(gen, Use(gen, cap, l, labels[0]), owner', ages[labels[0] := 0])
    ensures Resolvable(ages[labels[0] := 0], owner'.Keys, labels[1..], cap)
    ensures owner'.Keys == owner.Keys + {labels[0]}
    ensures UseAll(gen, cap, l, labels) == UseAll(gen, cap, Use(gen, cap, l, labels[0]), labels[1..])
    ensures Zeroed(ages, labels) == Zeroed(ages[labels[0] := 0], labels[1..])
    ensures IdSet(labels) == {labels[0]} + IdSet(labels[1..])
  {
    hide Resolvable, Assigned, LiveFirst, Use, IdSet;
    RoomForFirst(ages, owner.Keys, labels, cap);
    RestResolvable(ages, owner.Keys, labels, cap);
    IdSetSplit(labels);
    owner' := UseKeeps(gen, cap, l, owner, ages, labels[0]);
  }

  /** One reply: no live track leaves the table, whatever the order of its boxes. */
  lemma {:induction false} UseAllKeeps(gen: nat -> Uuid, cap: nat, l: Link, owner: map<int, Uuid>, ages: map<int, int>, labels: seq<int>)
    returns (owner': map<int, Uuid>)
    requires Replied(gen, l, owner, ages) && Resolvable(ages, owner.Keys, labels, cap)
    ensures Replied(gen, UseAll(gen, cap, l, labels), owner', Zeroed(ages, labels))
    ensures owner'.Keys == owner.Keys + IdSet(labels)
    decreases |labels|
  {
    hide Replied, Resolvable, Use;
    if labels == [] {
      owner' := owner;
      assert owner'.Keys == owner.Keys + IdSet(labels);
    } else {
      hide *;
      var owner1 := UseFirst(gen, cap, l, owner, ages, labels);
      owner' := UseAllKeeps(gen, cap, Use(gen, cap, l, labels[0]), owner1, ages[labels[0] := 0], labels[1..]);
      SetsJoin(owner.Keys, {labels[0]}, IdSet(labels[1..]));
    }
  }

  // Frames.

  /** Live tracks of this frame and its births fit the table. */
  ghost predicate Fits(s: Tracker, dets: seq<Detection>, cap: nat) {
    |s.tracks| + (Update(s, dets).next.nextId - s.nextId) <= cap
  }

  function Range(lo: int, hi: int): (r: set<int>)
    requires lo <= hi
    ensures forall k :: k in r <==> lo <= k < hi
    ensures |r| == hi - lo
    decreases hi - lo
  {
    if lo == hi then {} else Range(lo, hi - 1) + {hi - 1}
  }

  lemma LabelsInside(s: Tracker, dets: seq<Detection>, known: set<int>)
    requires WellFormed(s) && forall id | id in known :: id < s.nextId
    ensures s.nextId <= Update(s, dets).next.nextId
    ensures Distinct(Update(s, dets).labels)
    ensures forall x | x in Update(s, dets).labels ::
      x in AgesOf(s.tracks) || (x in Range(s.nextId, Update(s, dets).next.nextId) && x !in known)
  {
    hide Update, Range;
    var labels := Update(s, dets).labels;
    AgesOfTracks(s.tracks);
    LabelsAreDistinct(s, dets);
    NextIdGrows(s, dets);
    forall x | x in labels
      ensures x in AgesOf(s.tracks) || (x in Range(s.nextId, Update(s, dets).next.nextId) && x !in known)
    {
      var i :| 0 <= i < |labels| && labels[i] == x;
      assert labels[i] >= s.nextId || Known(s.tracks, labels[i]);
    }
  }

  lemma {:induction false} AgesCount(tracks: seq<Track>)
    ensures |AgesOf(tracks)| <= |tracks|
    decreases |tracks|
  {
    if tracks == [] {
    } else {
      var init, last := tracks[..|tracks| - 1], tracks[|tracks| - 1];
      AgesCount(init);
      assert AgesOf(tracks).Keys == AgesOf(init).Keys + {last.id};
    }
  }

  lemma LabelsResolvable(s: Tracker, dets: seq<Detection>, known: set<int>, cap: nat)
    requires WellFormed(s) && Fits(s, dets, cap)
    requires forall id | id in known :: id < s.nextId
    ensures Resolvable(Older(AgesOf(s.tracks)), known, Update(s, dets).labels, cap)
  {
    hide Update, Range, Distinct;
    var labels := Update(s, dets).labels;
    var ages := AgesOf(s.tracks);
    LabelsInside(s, dets, known);
    AgesCount(s.tracks);
    var born := Range(s.nextId, Update(s, dets).next.nextId);
    assert Older(ages).Keys == ages.Keys;
    SubsetSize(ages.Keys + IdSet(labels), ages.Keys + born);
  }

  lemma TickedAge(s: Tracker, dets: seq<Detection>, picks: seq<Cell>, j: nat)
    requires WellFormed(s) && OneToOne(picks, |dets|, |s.tracks|) && j < |s.tracks|
    requires forall a: nat, b: nat :: RowPartner(picks, a) == Some(b) <==> ColPartner(picks, b) == Some(a)
    ensures
      var o := UpdateWith(s, dets, picks);
      TickAll(s.tracks, dets, picks)[j].age == if s.tracks[j].id in o.labels then 0 else s.tracks[j].age + 1
  {
    hide TickAll, RowPartner, ColPartner, UpdateWith;
    var labels := UpdateWith(s, dets, picks).labels;
    var id := s.tracks[j].id;
    if i: nat :| ColPartner(picks, j) == Some(i) {
      assert RowPartner(picks, i) == Some(j);
      PartnersInside(picks, j);
      LabelOf(s, dets, picks, i);
      assert labels[i] in labels;
    } else {
      assert ColPartner(picks, j).None?;
      LabelCountWith(s, dets, picks);
      forall i: nat | i < |dets|
        ensures labels[i] != id
      {
        LabelOf(s, dets, picks, i);
        if RowPartner(picks, i).Some? {
          var k := RowPartner(picks, i).value;
          assert ColPartner(picks, k) == Some(i);
          assert k < j ==> s.tracks[k].id < id;
        } else {
          assert s.tracks[j] in s.tracks;
        }
      }
    }
  }

  // The tracker and the table stay in step.

  lemma TickedZeroed(s: Tracker, dets: seq<Detection>, picks: seq<Cell>)
    requires WellFormed(s) && OneToOne(picks, |dets|, |s.tracks|)
    requires forall a: nat, b: nat :: RowPartner(picks, a) == Some(b) <==> ColPartner(picks, b) == Some(a)
    ensures
      var o := UpdateWith(s, dets, picks);
      var ages := Zeroed(Older(AgesOf(s.tracks)), o.labels);
      forall t | t in TickAll(s.tracks, dets, picks) :: t.id in ages && ages[t.id] == t.age
  {
    hide TickAll, RowPartner, ColPartner, UpdateWith, AgesOf;
    var ticked := TickAll(s.tracks, dets, picks);
    var labels := UpdateWith(s, dets, picks).labels;
    AgesOfTracks(s.tracks);
    ZeroedFacts(Older(AgesOf(s.tracks)), labels);
    forall t | t in ticked
      ensures t.id in Zeroed(Older(AgesOf(s.tracks)), labels)
      ensures Zeroed(Older(AgesOf(s.tracks)), labels)[t.id] == t.age
    {
      var j :| 0 <= j < |ticked| && ticked[j] == t;
      assert s.tracks[j] in s.tracks;
      TickedAge(s, dets, picks, j);
    }
  }

  lemma BirthLabelled(s: Tracker, dets: seq<Detection>, picks: seq<Cell>, t: Track)
    requires WellFormed(s) && OneToOne(picks, |dets|, |s.tracks|)
    requires t in Births(s.nextId, dets, picks, |dets|)
    ensures t.age == 0 && t.id in UpdateWith(s, dets, picks).labels
  {
    hide Births, RowPartner, UpdateWith;
    BirthsInside(s.nextId, dets, picks, |dets|);
    var i: nat :| i < |dets| && RowPartner(picks, i).None? && t == Newborn(s.nextId, dets, picks, i);
    LabelOf(s, dets, picks, i);
    assert UpdateWith(s, dets, picks).labels[i] == t.id;
  }

  lemma LabelKnown(s: Tracker, dets: seq<Detection>, picks: seq<Cell>, id: int)
    requires WellFormed(s) && OneToOne(picks, |dets|, |s.tracks|)
    requires id in UpdateWith(s, dets, picks).labels
    ensures Known(s.tracks, id) || Known(Births(s.nextId, dets, picks, |dets|), id)
  {
    hide Births, RowPartner, UpdateWith;
    var labels := UpdateWith(s, dets, picks).labels;
    LabelCountWith(s, dets, picks);
    var i: nat :| i < |labels| && labels[i] == id;
    LabelOf(s, dets, picks, i);
    BirthsInside(s.nextId, dets, picks, |dets|);
    if RowPartner(picks, i).Some? {
      assert s.tracks[RowPartner(picks, i).value] in s.tracks;
    } else {
      assert Newborn(s.nextId, dets, picks, i) in Births(s.nextId, dets, picks, |dets|);
    }
  }

  /** The ages after an update: labelled ids at 0, the others one older, the too old gone. */
  lemma AgesAfter(s: Tracker, dets: seq<Detection>)
    requires WellFormed(s) && s.maxAge >= 0
    ensures
      var o := Update(s, dets);
      AgesOf(o.next.tracks) == Kept(Zeroed(Older(AgesOf(s.tracks)), o.labels), s.maxAge)
  {
    var picks := Matches(s, dets);
    MatchesAreInverse(s, dets);
    UpdateKeepsWellFormed(s, dets);
    AgesAfterWith(s, dets, picks);
    assert Update(s, dets) == UpdateWith(s, dets, picks) && IdsIncrease(Update(s, dets).next.tracks);
    hide *;
    AgesOfTracks(Update(s, dets).next.tracks);
    AgesUnique(AgesOf(Update(s, dets).next.tracks),
               Kept(Zeroed(Older(AgesOf(s.tracks)), Update(s, dets).labels), s.maxAge),
               Update(s, dets).next.tracks);
  }

  lemma AgesAfterWith(s: Tracker, dets: seq<Detection>, picks: seq<Cell>)
    requires WellFormed(s) && s.maxAge >= 0 && OneToOne(picks, |dets|, |s.tracks|)
    requires forall a: nat, b: nat :: RowPartner(picks, a) == Some(b) <==> ColPartner(picks, b) == Some(a)
    ensures
      var o := UpdateWith(s, dets, picks);
      AgesAre(Kept(Zeroed(Older(AgesOf(s.tracks)), o.labels), s.maxAge), o.next.tracks)
  {
    var o := UpdateWith(s, dets, picks);
    var ticked := TickAll(s.tracks, dets, picks);
    var kept, born := Survivors(ticked, s.maxAge), Births(s.nextId, dets, picks, |dets|);
    var all := Zeroed(Older(AgesOf(s.tracks)), o.labels);
    var ages := Kept(all, s.maxAge);
    assert o.next.tracks == kept + born;
    AgesOfTracks(s.tracks);
    hide RowPartner, ColPartner, UpdateWith, TickAll, Survivors, Births, AgesOf, Zeroed;
    ZeroedFacts(Older(AgesOf(s.tracks)), o.labels);
    TickedZeroed(s, dets, picks);
    SurvivorsInside(ticked, s.maxAge);
    forall t: Track | t in kept + born
      ensures t.id in ages && ages[t.id] == t.age
    {
      if t !in kept {
        BirthLabelled(s, dets, picks, t);
      }
    }
    forall id | id in ages
      ensures Known(kept + born, id)
    {
      if Known(s.tracks, id) {
        KnownTicked(s.tracks, dets, picks, id);
        var t :| t in ticked && t.id == id;
        assert t in kept;
      } else {
        LabelKnown(s, dets, picks, id);
        var t :| t in born && t.id == id;
      }
    }
  }

  /** Between frames: live tracks lead the table, youngest first, and every id keeps its UUID. */
  ghost predicate InStep(gen: nat -> Uuid, l: Link, owner: map<int, Uuid>) {
    && WellFormed(l.tracker)
    && Replied(gen, l, owner, AgesOf(l.tracker.tracks))
    && forall id | id in owner :: id < l.tracker.nextId
  }

  /** The aged tracks, ready for the labels of this frame. */
  lemma FrameStarts(gen: nat -> Uuid, cap: nat, l: Link, owner: map<int, Uuid>, dets: seq<Detection>)
    requires InStep(gen, l, owner) && Fits(l.tracker, dets, cap)
    ensures
      var o := Update(l.tracker, dets);
      var ages := Older(AgesOf(l.tracker.tracks));
      && Replied(gen, l.(tracker := o.next), owner, ages)
      && Resolvable(ages, owner.Keys, o.labels, cap)
  {
    hide Update, AgesOf, Kept, Older, LiveFirst, Resolvable;
    TickKeepsOrder(l.cache, AgesOf(l.tracker.tracks));
    OlderAges(AgesOf(l.tracker.tracks));
    LabelsResolvable(l.tracker, dets, owner.Keys, cap);
  }

  /** After the labels the too old ones go. */
  lemma FrameEnds(gen: nat -> Uuid, l: Link, owner: map<int, Uuid>, s: Tracker, dets: seq<Detection>)
    requires WellFormed(s) && s.maxAge >= 0 && l.tracker == Update(s, dets).next
    requires Replied(gen, l, owner, Zeroed(Older(AgesOf(s.tracks)), Update(s, dets).labels))
    requires forall id | id in owner :: id < l.tracker.nextId
    ensures InStep(gen, l, owner)
  {
    hide Update, AgesOf, Zeroed, Kept, Older, Assigned, LiveFirst;
    var ages := Zeroed(Older(AgesOf(s.tracks)), Update(s, dets).labels);
    PruneKeepsOrder(l.cache, ages, s.maxAge);
    AgesAfter(s, dets);
    UpdateKeepsWellFormed(s, dets);
    KeptAges(ages, s.maxAge);
  }

  lemma FrameKeepsStep(gen: nat -> Uuid, cap: nat, l: Link, owner: map<int, Uuid>, dets: seq<Detection>) returns (owner': map<int, Uuid>)
    requires InStep(gen, l, owner) && Fits(l.tracker, dets, cap) && l.tracker.maxAge >= 0
    ensures InStep(gen, Step(gen, cap, l, Frame(dets)), owner')
  {
    hide Update, AgesOf, Zeroed, UseAll, Older, Replied, Resolvable;
    var o := Update(l.tracker, dets);
    var l1 := l.(tracker := o.next);
    FrameStarts(gen, cap, l, owner, dets);
    owner' := UseAllKeeps(gen, cap, l1, owner, Older(AgesOf(l.tracker.tracks)), o.labels);
    LabelsBelow(l.tracker, dets);
    FrameEnds(gen, UseAll(gen, cap, l1, o.labels), owner', l.tracker, dets);
  }

  lemma OlderAges(ages: map<int, int>)
    requires forall id | id in ages :: ages[id] >= 0
    ensures forall id | id in Older(ages) :: Older(ages)[id] >= 0
  {
  }

  lemma KeptAges(ages: map<int, int>, maxAge: int)
    requires forall id | id in ages :: ages[id] >= 0
    ensures forall id | id in Kept(ages, maxAge) :: Kept(ages, maxAge)[id] >= 0
  {
  }

  lemma LabelsBelow(s: Tracker, dets: seq<Detection>)
    requires WellFormed(s)
    ensures s.nextId <= Update(s, dets).next.nextId
    ensures forall id | id in IdSet(Update(s, dets).labels) :: id < Update(s, dets).next.nextId
  {
    hide Update;
    NextIdGrows(s, dets);
    LabelsAreDistinct(s, dets);
  }

  /** Every frame of the run fits, and no setting makes the grace period negative. */
  ghost predicate RunFits(s: Tracker, events: seq<Event>, cap: nat)
    decreases |events|
  {
    events == [] ||
    match events[0]
    case Frame(dets) => Fits(s, dets, cap) && RunFits(Update(s, dets).next, events[1..], cap)
    case Settings(threshold, maxAge, mode) =>
      (maxAge.Some? ==> maxAge.value >= 0) && RunFits(SetParams(s, threshold, maxAge, mode), events[1..], cap)
  }

  lemma {:induction false} RunKeepsStep(gen: nat -> Uuid, cap: nat, l: Link, owner: map<int, Uuid>, events: seq<Event>)
    returns (owner': map<int, Uuid>)
    requires InStep(gen, l, owner) && l.tracker.maxAge >= 0 && RunFits(l.tracker, events, cap)
    ensures InStep(gen, RunLink(gen, cap, l, events), owner')
    decreases |events|
  {
    if events == [] {
      owner' := owner;
    } else {
      if !events[0].Frame? {
        assert InStep(gen, Step(gen, cap, l, events[0]), owner);
      }
      hide InStep, Update, UseAll, Fits;
      var owner1 := owner;
      if events[0].Frame? {
        owner1 := FrameKeepsStep(gen, cap, l, owner, events[0].dets);
      }
      owner' := RunKeepsStep(gen, cap, Step(gen, cap, l, events[0]), owner1, events[1..]);
    }
  }

  ghost function Connect(threshold: real, maxAge: int, mode: Mode): Link {
    Link(Fresh(threshold, maxAge, mode), [], 0, [])
  }

  lemma ConnectInStep(gen: nat -> Uuid, threshold: real, maxAge: int, mode: Mode)
    requires Injective(gen)
    ensures InStep(gen, Connect(threshold, maxAge, mode), map[])
  {
    assert YoungestFirst([], map[], 0);
    assert LiveFirst([], AgesOf([]));
  }

  /** Over every run of a connection whose frames fit the table, a track id and its UUID determine each other,
      in whatever frames they were sent, and every live track is still in the table. */
  lemma IdentityIsStable(gen: nat -> Uuid, cap: nat, threshold: real, maxAge: int, mode: Mode, events: seq<Event>)
    requires Injective(gen) && maxAge >= 0
    requires RunFits(Fresh(threshold, maxAge, mode), events, cap)
    ensures
      var l := RunLink(gen, cap, Connect(threshold, maxAge, mode), events);
      && (forall a, b | a in l.log && b in l.log :: a.tid == b.tid <==> a.uuid == b.uuid)
      && (forall t | t in l.tracker.tracks :: exists e :: e in l.cache && e.tid == t.id)
  {
    hide RunLink, RunFits, AgesOf, IndexOf;
    ConnectInStep(gen, threshold, maxAge, mode);
    var owner := RunKeepsStep(gen, cap, Connect(threshold, maxAge, mode), map[], events);
    var l := RunLink(gen, cap, Connect(threshold, maxAge, mode), events);
    AgesOfTracks(l.tracker.tracks);
    var n: nat :| YoungestFirst(l.cache, AgesOf(l.tracker.tracks), n);
    forall t | t in l.tracker.tracks
      ensures exists e :: e in l.cache && e.tid == t.id
    {
      assert l.cache[IndexOf(l.cache, t.id)] in l.cache;
    }
  }
}
