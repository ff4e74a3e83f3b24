/** Exactly which runs of tracker and table keep every UUID. */
module UuidRuns {
  import opened Options
  import opened TrackerSpec
  import opened TrackerRuns
  import opened UuidCache
  import opened TrackIdentity
  import opened LiveCount
  import opened ClassMatch

  // What a run looked up and drew.

  /** For each entry of the log the lookup behind it, the number of draws at that time and the draw its UUID came from;
      and for each draw the id it was made for. */
  datatype Trace = Trace(touches: seq<Touch>, marks: seq<nat>, sources: seq<nat>, owners: seq<int>)

  /** Entry k of the log is what its lookup found. */
  ghost predicate LookedUp(log: seq<Entry>, touches: seq<Touch>, cap: nat, k: nat)
    requires k < |log| == |touches|
  {
    log[k] == Entry(touches[k].tid, Resolve(After([], touches[..k], cap), touches[k].tid, touches[k].drawn, cap).uuid)
  }

  ghost predicate DrawnFor(gen: nat -> Uuid, owners: seq<int>, e: Entry, n: nat) {
    n < |owners| && e.uuid == gen(n) && owners[n] == e.tid
  }

  /** The table and the log are those of the lookups. */
  ghost predicate Found(l: Link, touches: seq<Touch>, cap: nat) {
    && |touches| == |l.log| && l.cache == After([], touches, cap)
    && forall k: nat | k < |l.log| :: LookedUp(l.log, touches, cap, k)
  }

  /** The draws happened in the order of the lookups. */
  ghost predicate DrawnInOrder(gen: nat -> Uuid, draws: nat, touches: seq<Touch>, marks: seq<nat>, sources: seq<nat>) {
    && |touches| == |marks| == |sources|
    && (forall k | 0 <= k < |touches| :: touches[k].drawn == gen(marks[k]))
    && (forall k | 0 <= k < |sources| :: sources[k] < draws)
    && (forall i, j | 0 <= i < j < |sources| :: sources[i] < marks[j])
  }

  /** Every UUID shown or held was drawn for its id. */
  ghost predicate Owned(gen: nat -> Uuid, l: Link, sources: seq<nat>, owners: seq<int>) {
    && |sources| == |l.log| && |owners| == l.draws
    && (forall k | 0 <= k < |l.log| :: DrawnFor(gen, owners, l.log[k], sources[k]))
    && (forall e | e in l.cache :: exists n: nat :: DrawnFor(gen, owners, e, n))
  }

  ghost predicate Traced(gen: nat -> Uuid, cap: nat, l: Link, t: Trace) {
    && Found(l, t.touches, cap)
    && DrawnInOrder(gen, l.draws, t.touches, t.marks, t.sources)
    && Owned(gen, l, t.sources, t.owners)
  }

  lemma OneMoreTouch(touches: seq<Touch>, x: Touch, cap: nat)
    ensures After([], touches + [x], cap) == Resolve(After([], touches, cap), x.tid, x.drawn, cap).cache
    ensures forall k: nat | k <= |touches| :: (touches + [x])[..k] == touches[..k]
  {
    assert (touches + [x])[..|touches|] == touches;
    hide Resolve;
  }

  lemma SameOwners(gen: nat -> Uuid, owners: seq<int>, more: seq<int>, e: Entry, n: nat)
    requires DrawnFor(gen, owners, e, n)
    ensures DrawnFor(gen, owners + more, e, n)
  {
  }

  /** The draw behind a lookup: a new one on a miss, the one behind the entry on a hit. */
  lemma SourceOf(gen: nat -> Uuid, cap: nat, l: Link, t: Trace, tid: int) returns (n: nat, owners: seq<int>)
    requires Traced(gen, cap, l, t)
    ensures
      var l' := Use(gen, cap, l, tid);
      && t.owners <= owners && |owners| == l'.draws
      && DrawnFor(gen, owners, l'.log[|l.log|], n)
      && forall e | e in l'.cache :: exists m: nat :: DrawnFor(gen, owners, e, m)
  {
    var drawn := gen(l.draws);
    var r := Resolve(l.cache, tid, drawn, cap);
    ResolvedEntries(l.cache, tid, drawn, cap);
    hide Resolve;
    if r.isNew {
      n, owners := l.draws, t.owners + [tid];
      forall e | e in r.cache
        ensures exists m: nat :: DrawnFor(gen, owners, e, m)
      {
        if e in l.cache {
          var m: nat :| DrawnFor(gen, t.owners, e, m);
          SameOwners(gen, t.owners, [tid], e, m);
        } else {
          assert DrawnFor(gen, owners, e, l.draws);
        }
      }
    } else {
      owners := t.owners;
      n :| DrawnFor(gen, t.owners, Entry(tid, r.uuid), n);
    }
  }

  lemma UseTraced(gen: nat -> Uuid, cap: nat, l: Link, t: Trace, tid: int) returns (t': Trace)
    requires Traced(gen, cap, l, t)
    ensures Traced(gen, cap, Use(gen, cap, l, tid), t')
  {
    var n, owners := SourceOf(gen, cap, l, t, tid);
    t' := Trace(t.touches + [Touch(tid, gen(l.draws))], t.marks + [l.draws], t.sources + [n], owners);
    UseFound(gen, cap, l, t.touches, tid);
    UseOwned(gen, cap, l, t.sources, t.owners, tid, n, owners);
    UseDrawn(gen, cap, l, t, tid, n, owners);
    hide Found, DrawnInOrder, Owned, Use, Resolve, After;
  }

  lemma UseOwned(gen: nat -> Uuid, cap: nat, l: Link, sources: seq<nat>, owners: seq<int>, tid: int, n: nat, more: seq<int>)
    requires Owned(gen, l, sources, owners) && owners <= more
    requires
      var l' := Use(gen, cap, l, tid);
      && |more| == l'.draws && DrawnFor(gen, more, l'.log[|l.log|], n)
      && forall e | e in l'.cache :: exists m: nat :: DrawnFor(gen, more, e, m)
    ensures Owned(gen, Use(gen, cap, l, tid), sources + [n], more)
  {
    UseUnfolds(gen, cap, l, tid);
    OwnersKept(gen, owners, more, l.log, sources);
    hide Use, Resolve, DrawnFor;
  }

  lemma UseDrawn(gen: nat -> Uuid, cap: nat, l: Link, t: Trace, tid: int, n: nat, owners: seq<int>)
    requires Traced(gen, cap, l, t) && |owners| == Use(gen, cap, l, tid).draws && n < |owners|
    ensures DrawnInOrder(gen, Use(gen, cap, l, tid).draws, t.touches + [Touch(tid, gen(l.draws))], t.marks + [l.draws], t.sources + [n])
  {
    UseUnfolds(gen, cap, l, tid);
    hide Use, Resolve, After, LookedUp, DrawnFor;
  }

  lemma UseFound(gen: nat -> Uuid, cap: nat, l: Link, touches: seq<Touch>, tid: int)
    requires Found(l, touches, cap)
    ensures Found(Use(gen, cap, l, tid), touches + [Touch(tid, gen(l.draws))], cap)
  {
    var x := Touch(tid, gen(l.draws));
    OneMoreTouch(touches, x, cap);
    LookupsKept(l.log, touches, x, cap);
    UseUnfolds(gen, cap, l, tid);
    hide Use, Resolve, After, LookedUp;
  }

  lemma UseUnfolds(gen: nat -> Uuid, cap: nat, l: Link, tid: int)
    ensures
      var r, l' := Resolve(l.cache, tid, gen(l.draws), cap), Use(gen, cap, l, tid);
      && l'.cache == r.cache && l'.log == l.log + [Entry(tid, r.uuid)] && l.draws <= l'.draws
      && (forall k: nat | k < |l.log| :: l'.log[k] == l.log[k])
  {
    hide Resolve;
  }

  lemma LookupsKept(log: seq<Entry>, touches: seq<Touch>, x: Touch, cap: nat)
    requires |log| == |touches| && forall k: nat | k < |log| :: LookedUp(log, touches, cap, k)
    ensures
      var log' := log + [Entry(x.tid, Resolve(After([], touches, cap), x.tid, x.drawn, cap).uuid)];
      forall k: nat | k < |log'| :: LookedUp(log', touches + [x], cap, k)
  {
    OneMoreTouch(touches, x, cap);
    hide Resolve, After;
    forall k: nat | k <= |log|
      ensures
        var log' := log + [Entry(x.tid, Resolve(After([], touches, cap), x.tid, x.drawn, cap).uuid)];
        LookedUp(log', touches + [x], cap, k)
    {
      if k < |log| {
        assert LookedUp(log, touches, cap, k);
      } else {
        assert touches[..k] == touches;
      }
    }
  }

  lemma OwnersKept(gen: nat -> Uuid, owners: seq<int>, more: seq<int>, log: seq<Entry>, sources: seq<nat>)
    requires owners <= more && |log| == |sources| && forall k | 0 <= k < |log| :: DrawnFor(gen, owners, log[k], sources[k])
    ensures forall k | 0 <= k < |log| :: DrawnFor(gen, more, log[k], sources[k])
  {
    forall k | 0 <= k < |log|
      ensures DrawnFor(gen, more, log[k], sources[k])
    {
      assert DrawnFor(gen, owners, log[k], sources[k]);
    }
  }

  lemma {:induction false} UseAllTraced(gen: nat -> Uuid, cap: nat, l: Link, t: Trace, ids: seq<int>) returns (t': Trace)
    requires Traced(gen, cap, l, t)
    ensures Traced(gen, cap, UseAll(gen, cap, l, ids), t')
    decreases |ids|
  {
    hide Traced, Use;
    if ids == [] {
      t' := t;
    } else {
      var t1 := UseTraced(gen, cap, l, t, ids[0]);
      t' := UseAllTraced(gen, cap, Use(gen, cap, l, ids[0]), t1, ids[1..]);
    }
  }

  lemma {:induction false} RunTraced(gen: nat -> Uuid, cap: nat, l: Link, t: Trace, events: seq<Event>) returns (t': Trace)
    requires Traced(gen, cap, l, t)
    ensures Traced(gen, cap, RunLink(gen, cap, l, events), t')
    decreases |events|
  {
    if events == [] {
      t' := t;
    } else {
      var t1 := t;
      if events[0].Frame? {
        var o := Update(l.tracker, events[0].dets);
        assert Traced(gen, cap, l.(tracker := o.next), t);
        hide Traced, UseAll, Update;
        t1 := UseAllTraced(gen, cap, l.(tracker := o.next), t, o.labels);
      } else {
        assert Traced(gen, cap, Step(gen, cap, l, events[0]), t);
      }
      hide Traced, UseAll, Update;
      t' := RunTraced(gen, cap, Step(gen, cap, l, events[0]), t1, events[1..]);
    }
  }

  // Revisits.

  function LogTids(log: seq<Entry>): (r: seq<int>)
    ensures |r| == |log| && forall i | 0 <= i < |log| :: r[i] == log[i].tid
  {
    CachedTids(log)
  }

  /** Places i and j show one id, and none in between does. */
  ghost predicate Revisit(ids: seq<int>, i: nat, j: nat) {
    i < j < |ids| && ids[i] == ids[j] && forall k | i < k < j :: ids[k] != ids[i]
  }

  /** How many other ids are shown between the two. */
  ghost function OthersBetween(ids: seq<int>, i: nat, j: nat): nat
    requires i < j <= |ids|
  {
    |IdSet(ids[i + 1..j])|
  }

  /** Between two consecutive shows of an id fewer than cap other ids are shown. */
  ghost predicate RevisitsFit(ids: seq<int>, cap: nat) {
    forall i: nat, j: nat | Revisit(ids, i, j) :: OthersBetween(ids, i, j) < cap
  }

  lemma TouchTids(log: seq<Entry>, touches: seq<Touch>, i: nat, j: nat)
    requires i <= j <= |log| == |touches| && forall k | 0 <= k < |log| :: log[k].tid == touches[k].tid
    ensures TidsOf(touches[i..j]) == LogTids(log)[i..j]
  {
  }

  lemma RevisitKeepsIff(gen: nat -> Uuid, cap: nat, l: Link, t: Trace, i: nat, j: nat)
    requires Injective(gen) && Traced(gen, cap, l, t) && Revisit(LogTids(l.log), i, j)
    ensures l.log[i].uuid == l.log[j].uuid <==> OthersBetween(LogTids(l.log), i, j) < cap
  {
    var x, mid, again := t.touches[i], t.touches[i + 1..j], t.touches[j].drawn;
    RevisitLookups(gen, cap, l, t, i, j);
    RevisitMiddle(gen, cap, l, t, i, j);
    hide *;
    KeepsUuidIff(t.touches[..i], x, mid, again, cap);
  }

  /** The two lookups of a revisit, and that the second would draw something new. */
  lemma RevisitLookups(gen: nat -> Uuid, cap: nat, l: Link, t: Trace, i: nat, j: nat)
    requires Injective(gen) && Traced(gen, cap, l, t) && Revisit(LogTids(l.log), i, j)
    ensures |t.touches| == |l.log|
    ensures
      var x, mid, again := t.touches[i], t.touches[i + 1..j], t.touches[j].drawn;
      && l.log[i].uuid == Resolve(After([], t.touches[..i], cap), x.tid, x.drawn, cap).uuid
      && l.log[j].uuid == Resolve(After([], t.touches[..i] + [x] + mid, cap), x.tid, again, cap).uuid
      && l.log[i].uuid != again
  {
    hide Resolve, After;
    var x, mid, again := t.touches[i], t.touches[i + 1..j], t.touches[j].drawn;
    assert LookedUp(l.log, t.touches, cap, i) && LookedUp(l.log, t.touches, cap, j);
    assert t.touches[..j] == t.touches[..i] + [x] + mid;
    assert DrawnFor(gen, t.owners, l.log[i], t.sources[i]) && t.sources[i] < t.marks[j];
  }

  /** The lookups in between are of other ids, as many as the log shows. */
  lemma RevisitMiddle(gen: nat -> Uuid, cap: nat, l: Link, t: Trace, i: nat, j: nat)
    requires Traced(gen, cap, l, t) && Revisit(LogTids(l.log), i, j)
    ensures |t.touches| == |l.log|
    ensures
      var x, mid := t.touches[i], t.touches[i + 1..j];
      x.tid !in TidsOf(mid) && |IdSet(TidsOf(mid))| == OthersBetween(LogTids(l.log), i, j)
  {
    hide Resolve, After, TidsOf, LogTids, IdSet;
    var mid := t.touches[i + 1..j];
    assert forall k: nat | k < |l.log| :: LookedUp(l.log, t.touches, cap, k) && l.log[k].tid == t.touches[k].tid;
    TouchTids(l.log, t.touches, i + 1, j);
    assert forall k | 0 <= k < |mid| :: TidsOf(mid)[k] == l.log[i + 1 + k].tid;
  }

  lemma {:induction false} SameIdSameUuid(gen: nat -> Uuid, cap: nat, l: Link, t: Trace, i: nat, j: nat)
    requires Injective(gen) && Traced(gen, cap, l, t) && RevisitsFit(LogTids(l.log), cap)
    requires i <= j < |l.log| && l.log[i].tid == l.log[j].tid
    ensures l.log[i].uuid == l.log[j].uuid
    decreases j
  {
    hide Traced;
    if i < j {
      var k := LastBefore(LogTids(l.log), i, j);
      RevisitKeepsIff(gen, cap, l, t, k, j);
      SameIdSameUuid(gen, cap, l, t, i, k);
    }
  }

  /** The last show before j of the id shown at i and j. */
  lemma LastBefore(ids: seq<int>, i: nat, j: nat) returns (k: nat)
    requires i < j < |ids| && ids[i] == ids[j]
    ensures i <= k < j && Revisit(ids, k, j)
  {
    k := j - 1;
    while ids[k] != ids[j]
      invariant i <= k < j && forall m | k < m < j :: ids[m] != ids[j]
      decreases k
    {
      k := k - 1;
    }
  }

  /** Ids and UUIDs determine each other. */
  ghost predicate OneToOneLog(log: seq<Entry>) {
    forall a, b | a in log && b in log :: a.tid == b.tid <==> a.uuid == b.uuid
  }

  lemma OthersDiffer(gen: nat -> Uuid, cap: nat, l: Link, t: Trace, i: nat, j: nat)
    requires Injective(gen) && Traced(gen, cap, l, t) && i < |l.log| && j < |l.log| && l.log[i].uuid == l.log[j].uuid
    ensures l.log[i].tid == l.log[j].tid
  {
    assert DrawnFor(gen, t.owners, l.log[i], t.sources[i]) && DrawnFor(gen, t.owners, l.log[j], t.sources[j]);
  }

  lemma TracedIff(gen: nat -> Uuid, cap: nat, l: Link, t: Trace)
    requires Injective(gen) && Traced(gen, cap, l, t)
    ensures !Changed(l.log) <==> RevisitsFit(LogTids(l.log), cap)
    ensures OneToOneLog(l.log) <==> RevisitsFit(LogTids(l.log), cap)
  {
    hide Traced;
    if RevisitsFit(LogTids(l.log), cap) {
      forall a, b | a in l.log && b in l.log
        ensures a.tid == b.tid <==> a.uuid == b.uuid
      {
        var i: nat :| i < |l.log| && l.log[i] == a;
        var j: nat :| j < |l.log| && l.log[j] == b;
        if a.uuid == b.uuid {
          OthersDiffer(gen, cap, l, t, i, j);
        }
        if a.tid == b.tid {
          SameIdSameUuid(gen, cap, l, t, if i <= j then i else j, if i <= j then j else i);
        }
      }
    } else {
      var i: nat, j: nat :| Revisit(LogTids(l.log), i, j) && OthersBetween(LogTids(l.log), i, j) >= cap;
      RevisitKeepsIff(gen, cap, l, t, i, j);
      assert l.log[i] in l.log && l.log[j] in l.log;
    }
  }

  /** Over every run of a connection, whatever its frames: no id ever changes its UUID, and ids and UUIDs determine each
      other, if and only if fewer than cap other ids are shown between any two consecutive shows of an id. */
  lemma IdentityIff(gen: nat -> Uuid, cap: nat, threshold: real, maxAge: int, mode: Mode, events: seq<Event>)
    requires Injective(gen)
    ensures
      var log := RunLink(gen, cap, Connect(threshold, maxAge, mode), events).log;
      && (!Changed(log) <==> RevisitsFit(LogTids(log), cap))
      && (OneToOneLog(log) <==> RevisitsFit(LogTids(log), cap))
  {
    var start := Connect(threshold, maxAge, mode);
    assert Traced(gen, cap, start, Trace([], [], [], []));
    hide Traced, RunLink;
    var t := RunTraced(gen, cap, start, Trace([], [], [], []), events);
    TracedIff(gen, cap, RunLink(gen, cap, start, events), t);
  }
}
