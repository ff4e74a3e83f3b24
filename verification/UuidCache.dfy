/** The bounded table from worker track ids to stable UUIDs: most recent first. */
module UuidCache {
  import opened Lists

  datatype Uuid = Uuid(value: nat)

  datatype Entry = Entry(tid: int, uuid: Uuid)

  const TRACK_UUID_CAP: nat := 4096

  datatype Resolution = Resolution(cache: seq<Entry>, uuid: Uuid, isNew: bool)

  function IndexOf(cache: seq<Entry>, tid: int): (i: nat)
    ensures i <= |cache|
    ensures i < |cache| ==> cache[i].tid == tid
    ensures forall j | 0 <= j < i :: cache[j].tid != tid
  {
    if cache == [] || cache[0].tid == tid then 0 else 1 + IndexOf(cache[1..], tid)
  }

  /** The cache with tid taken out. */
  function Without(cache: seq<Entry>, tid: int): seq<Entry> {
    var i := IndexOf(cache, tid);
    if i < |cache| then cache[..i] + cache[i + 1..] else cache
  }

  function Truncated(cache: seq<Entry>, cap: nat): seq<Entry> {
    if |cache| > cap then cache[..cap] else cache
  }

  /** A hit moves its entry to the front; a miss puts a fresh one there and drops the last ones over the cap. */
  function Resolve(cache: seq<Entry>, tid: int, fresh_: Uuid, cap: nat): Resolution {
    var i := IndexOf(cache, tid);
    if i < |cache| then
      Resolution([cache[i]] + Without(cache, tid), cache[i].uuid, false)
    else
      Resolution(Truncated([Entry(tid, fresh_)] + cache, cap), fresh_, true)
  }

  // The list nodes and the index of the real table.

  class TrackUuidEntry {
    const tid: int
    const uuid: Uuid

    constructor (tid: int, uuid: Uuid)
      ensures this.tid == tid && this.uuid == uuid
    {
      this.tid, this.uuid := tid, uuid;
    }
  }

  function Contents(lru: seq<TrackUuidEntry>): (c: seq<Entry>)
    ensures |c| == |lru|
    ensures forall i | 0 <= i < |lru| :: c[i] == Entry(lru[i].tid, lru[i].uuid)
  {
    if lru == [] then [] else [Entry(lru[0].tid, lru[0].uuid)] + Contents(lru[1..])
  }

  class TrackUuidTable {
    const cap: nat
    var lru: seq<TrackUuidEntry>
    var index: map<int, TrackUuidEntry>

    /** The list and the index hold the same entries, one per id, at most cap of them. */
    ghost predicate Valid()
      reads this
    {
      && Linked()
      && |lru| <= cap
    }

    ghost predicate Linked()
      reads this
    {
      && DistinctIds(lru)
      && (forall e | e in lru :: e.tid in index && index[e.tid] == e)
      && (forall tid | tid in index :: index[tid] in lru && index[tid].tid == tid)
    }

    constructor (cap: nat)
      ensures Valid() && Contents(lru) == [] && this.cap == cap
    {
      this.cap := cap;
      lru, index := [], map[];
    }

    /** Moves a node of the list to its front. */
    method SpliceToFront(e: TrackUuidEntry)
      requires Linked() && e in lru
      modifies this`lru
      ensures Linked() && |lru| == |old(lru)|
      ensures Contents(lru) == [Entry(e.tid, e.uuid)] + Without(Contents(old(lru)), e.tid)
    {
      hide Contents, Without;
      var k := 0;
      while lru[k] != e
        invariant k < |lru| && forall j | 0 <= j < k :: lru[j] != e
        decreases |lru| - k
      {
        assert e in lru[k + 1..];
        k := k + 1;
      }
      Spliced(lru, k);
      lru := [e] + (lru[..k] + lru[k + 1..]);
    }

    method EvictLast()
      requires Linked() && lru != []
      modifies this`lru, this`index
      ensures Linked() && lru == old(lru)[..|old(lru)| - 1]
    {
      var victim := lru[|lru| - 1];
      index := index - {victim.tid};
      lru := lru[..|lru| - 1];
    }

    method ResolveTrackUuid(tid: int, randomUuid: Uuid) returns (uuid: Uuid, isNew: bool)
      requires Valid()
      modifies this`lru, this`index
      ensures Valid()
      ensures Resolution(Contents(lru), uuid, isNew) == Resolve(Contents(old(lru)), tid, randomUuid, cap)
    {
      ghost var c := Contents(lru);
      if tid in index {
        var e := index[tid];
        HitFound(lru, e);
        SpliceToFront(e);
        return e.uuid, false;
      }
      assert IndexOf(c, tid) == |c|;
      var entry := new TrackUuidEntry(tid, randomUuid);
      uuid := Insert(entry);
      isNew := true;
    }

    /** Puts a new entry in front and evicts from the tail until the list fits. */
    method Insert(entry: TrackUuidEntry) returns (uuid: Uuid)
      requires Valid() && entry.tid !in index
      modifies this`lru, this`index
      ensures Valid() && uuid == entry.uuid
      ensures Contents(lru) == Truncated([Entry(entry.tid, entry.uuid)] + Contents(old(lru)), cap)
    {
      lru := [entry] + lru;
      index := index[entry.tid := entry];
      assert Contents(lru) == [Entry(entry.tid, entry.uuid)] + Contents(old(lru));
      EvictOver();
      return entry.uuid;
    }

    method EvictOver()
      requires Linked()
      modifies this`lru, this`index
      ensures Valid()
      ensures Contents(lru) == Truncated(old(Contents(lru)), cap)
    {
      hide Contents;
      ghost var grown := lru;
      while |lru| > cap
        invariant Linked() && |lru| <= |grown| && lru == grown[..|lru|]
        invariant |lru| == |grown| || |lru| >= cap
      {
        hide Linked;
        EvictLast();
      }
    }
  }

  ghost predicate DistinctIds(lru: seq<TrackUuidEntry>) {
    forall i, j | 0 <= i < j < |lru| :: lru[i].tid != lru[j].tid
  }

  /** Node k at the front, the others in their order. */
  lemma Spliced(lru: seq<TrackUuidEntry>, k: nat)
    requires k < |lru| && DistinctIds(lru)
    ensures
      var next := [lru[k]] + (lru[..k] + lru[k + 1..]);
      && DistinctIds(next) && (forall x :: x in next <==> x in lru)
      && Contents(next) == [Entry(lru[k].tid, lru[k].uuid)] + Without(Contents(lru), lru[k].tid)
  {
    hide Contents, IndexOf;
    var c, rest := Contents(lru), lru[..k] + lru[k + 1..];
    assert IndexOf(c, lru[k].tid) == k;
    assert Contents(rest) == c[..k] + c[k + 1..];
    assert lru == lru[..k] + [lru[k]] + lru[k + 1..];
  }

  lemma HitFound(lru: seq<TrackUuidEntry>, e: TrackUuidEntry)
    requires e in lru && DistinctIds(lru)
    ensures IndexOf(Contents(lru), e.tid) < |lru|
    ensures Contents(lru)[IndexOf(Contents(lru), e.tid)] == Entry(e.tid, e.uuid)
  {
    hide Contents, IndexOf;
    var k :| 0 <= k < |lru| && lru[k] == e;
    var i := IndexOf(Contents(lru), e.tid);
    assert Contents(lru)[k].tid == e.tid;
    assert i <= k;
  }

  // What the table remembers.

  /** One lookup with the UUID that would be drawn on a miss. */
  datatype Touch = Touch(tid: int, drawn: Uuid)

  function After(cache: seq<Entry>, touches: seq<Touch>, cap: nat): seq<Entry> {
    if touches == [] then cache
    else
      var n := |touches| - 1;
      Resolve(After(cache, touches[..n], cap), touches[n].tid, touches[n].drawn, cap).cache
  }

  /** The ids used, most recent use first, each once. */
  function ByRecency(tids: seq<int>): seq<int> {
    if tids == [] then []
    else
      var n := |tids| - 1;
      [tids[n]] + Dropped(ByRecency(tids[..n]), tids[n])
  }

  function Dropped(tids: seq<int>, tid: int): seq<int> {
    if tids == [] then []
    else if tids[0] == tid then Dropped(tids[1..], tid)
    else [tids[0]] + Dropped(tids[1..], tid)
  }

  function TidsOf(touches: seq<Touch>): (r: seq<int>)
    ensures |r| == |touches|
    ensures forall i | 0 <= i < |touches| :: r[i] == touches[i].tid
  {
    if touches == [] then [] else TidsOf(touches[..|touches| - 1]) + [touches[|touches| - 1].tid]
  }

  function CachedTids(cache: seq<Entry>): (r: seq<int>)
    ensures |r| == |cache|
    ensures forall i | 0 <= i < |cache| :: r[i] == cache[i].tid
  {
    if cache == [] then [] else [cache[0].tid] + CachedTids(cache[1..])
  }

  function Take(s: seq<int>, n: nat): seq<int> {
    if |s| > n then s[..n] else s
  }

  lemma {:induction false} DroppedMember(tids: seq<int>, tid: int, x: int)
    ensures x in Dropped(tids, tid) <==> x in tids && x != tid
    decreases |tids|
  {
    if tids == [] {
    } else {
      DroppedMember(tids[1..], tid, x);
      assert x in tids <==> x == tids[0] || x in tids[1..];
    }
  }

  lemma {:induction false} DroppedNone(tids: seq<int>, tid: int)
    requires tid !in tids
    ensures Dropped(tids, tid) == tids
    decreases |tids|
  {
    if tids == [] {
    } else {
      DroppedNone(tids[1..], tid);
      assert tids == [tids[0]] + tids[1..];
    }
  }

  lemma DroppedFacts(tids: seq<int>, tid: int)
    ensures forall x :: x in Dropped(tids, tid) <==> x in tids && x != tid
    ensures tid !in tids ==> Dropped(tids, tid) == tids
  {
    hide Dropped;
    if tid !in tids {
      DroppedNone(tids, tid);
    }
    forall x
      ensures x in Dropped(tids, tid) <==> x in tids && x != tid
    {
      DroppedMember(tids, tid, x);
    }
  }

  lemma {:induction false} DroppedDistinct(tids: seq<int>, tid: int)
    requires Distinct(tids)
    ensures Distinct(Dropped(tids, tid))
    decreases |tids|
  {
    if tids == [] {
    } else {
      var first, rest := tids[0], tids[1..];
      assert tids == [first] + rest;
      hide Distinct;
      DistinctCons(first, rest);
      DroppedFacts(rest, tid);
      DroppedDistinct(rest, tid);
      DistinctCons(first, Dropped(rest, tid));
    }
  }

  lemma {:induction false} DroppedSplit(a: seq<int>, b: seq<int>, tid: int)
    ensures Dropped(a + b, tid) == Dropped(a, tid) + Dropped(b, tid)
    decreases |a|
  {
    if a == [] {
      assert a + b == b;
    } else {
      assert (a + b)[1..] == a[1..] + b;
      DroppedSplit(a[1..], b, tid);
    }
  }

  lemma {:induction false} RecencyFacts(tids: seq<int>)
    ensures forall x :: x in ByRecency(tids) <==> x in tids
    ensures Distinct(ByRecency(tids))
    decreases |tids|
  {
    if tids == [] {
    } else {
      var n := |tids| - 1;
      var d := Dropped(ByRecency(tids[..n]), tids[n]);
      RecencyFacts(tids[..n]);
      DroppedFacts(ByRecency(tids[..n]), tids[n]);
      DroppedDistinct(ByRecency(tids[..n]), tids[n]);
      assert forall x :: x in tids <==> x == tids[n] || x in tids[..n];
      hide Distinct, Dropped;
      DistinctCons(tids[n], d);
    }
  }

  lemma {:induction false} DroppedOne(tids: seq<int>, k: nat)
    requires k < |tids| && Distinct(tids)
    ensures Dropped(tids, tids[k]) == tids[..k] + tids[k + 1..]
    decreases k
  {
    DroppedFacts(tids[1..], tids[k]);
    DistinctCons(tids[0], tids[1..]);
    assert tids == [tids[0]] + tids[1..];
    if k == 0 {
    } else {
      assert tids[1..][k - 1] == tids[k] && tids[k] in tids[1..];
      DroppedOne(tids[1..], k - 1);
      assert tids[1..][..k - 1] == tids[1..k] && tids[1..][k..] == tids[k + 1..];
      assert [tids[0]] + tids[1..k] == tids[..k];
    }
  }

  /** Using an id, seen through the first cap ids of a list without repeats. */
  lemma FrontAfterUse(all: seq<int>, tid: int, cap: nat)
    requires Distinct(all)
    ensures tid in Take(all, cap) ==> [tid] + Dropped(Take(all, cap), tid) == Take([tid] + Dropped(all, tid), cap)
    ensures tid !in Take(all, cap) ==> Take([tid] + Take(all, cap), cap) == Take([tid] + Dropped(all, tid), cap)
  {
    hide Dropped;
    var front := Take(all, cap);
    var back := all[|front|..];
    assert all == front + back;
    DroppedSplit(front, back, tid);
    DroppedFacts(front, tid);
    DroppedFacts(back, tid);
    if tid in front {
      var k :| 0 <= k < |front| && front[k] == tid;
      assert tid !in back;
      DroppedOne(front, k);
    }
  }

  lemma WithoutTids(cache: seq<Entry>, tid: int)
    requires Distinct(CachedTids(cache))
    ensures CachedTids(Without(cache, tid)) == Dropped(CachedTids(cache), tid)
  {
    hide Dropped, CachedTids;
    var i := IndexOf(cache, tid);
    DroppedFacts(CachedTids(cache), tid);
    if i < |cache| {
      DroppedOne(CachedTids(cache), i);
    }
  }

  lemma IndexOfCached(cache: seq<Entry>, tid: int)
    ensures IndexOf(cache, tid) < |cache| <==> tid in CachedTids(cache)
  {
  }

  /** One lookup, seen on ids alone. */
  lemma ResolveTids(cache: seq<Entry>, tid: int, drawn: Uuid, cap: nat)
    requires Distinct(CachedTids(cache))
    ensures CachedTids(Resolve(cache, tid, drawn, cap).cache) ==
      if tid in CachedTids(cache) then [tid] + Dropped(CachedTids(cache), tid)
      else Take([tid] + CachedTids(cache), cap)
  {
    hide Dropped, CachedTids;
    IndexOfCached(cache, tid);
    WithoutTids(cache, tid);
  }

  /** The table holds exactly the cap most recently used ids, in order of last use. */
  lemma {:induction false} CacheIsMostRecent(touches: seq<Touch>, cap: nat)
    ensures CachedTids(After([], touches, cap)) == Take(ByRecency(TidsOf(touches)), cap)
    ensures Distinct(CachedTids(After([], touches, cap)))
    decreases |touches|
  {
    if touches == [] {
    } else {
      var n := |touches| - 1;
      var cache, tid := After([], touches[..n], cap), touches[n].tid;
      assert After([], touches, cap) == Resolve(cache, tid, touches[n].drawn, cap).cache;
      assert TidsOf(touches) == TidsOf(touches[..n]) + [tid];
      assert ByRecency(TidsOf(touches)) == [tid] + Dropped(ByRecency(TidsOf(touches[..n])), tid) by {
        assert TidsOf(touches)[..n] == TidsOf(touches[..n]);
      }
      CacheIsMostRecent(touches[..n], cap);
      hide After, Resolve, ByRecency, Dropped, TidsOf, CachedTids, Distinct;
      RecencyFacts(TidsOf(touches[..n]));
      FrontAfterUse(ByRecency(TidsOf(touches[..n])), tid, cap);
      ResolveTids(cache, tid, touches[n].drawn, cap);
      RecencyFacts(TidsOf(touches));
      TakeDistinct(ByRecency(TidsOf(touches)), cap);
    }
  }

  lemma TakeDistinct(tids: seq<int>, cap: nat)
    requires Distinct(tids)
    ensures Distinct(Take(tids, cap))
  {
  }

  lemma {:induction false} AfterSplit(cache: seq<Entry>, a: seq<Touch>, b: seq<Touch>, cap: nat)
    ensures After(cache, a + b, cap) == After(After(cache, a, cap), b, cap)
    decreases |b|
  {
    if b == [] {
      assert a + b == a;
    } else {
      assert (a + b)[..|a + b| - 1] == a + b[..|b| - 1];
      AfterSplit(cache, a, b[..|b| - 1], cap);
    }
  }

  lemma RecencyUnfolds(tids: seq<int>, y: int)
    ensures ByRecency(tids + [y]) == [y] + Dropped(ByRecency(tids), y)
  {
  }

  lemma DroppedThree(a: seq<int>, x: int, b: seq<int>, y: int)
    requires x != y
    ensures Dropped(a + [x] + b, y) == Dropped(a, y) + [x] + Dropped(b, y)
  {
    DroppedSplit(a + [x], b, y);
    DroppedSplit(a, [x], y);
  }

  lemma SplitOneMore(a: seq<int>, x: int, m: seq<int>, y: int, rest: seq<int>)
    requires x != y && ByRecency(a + [x] + m) == ByRecency(m) + [x] + rest
    ensures ByRecency(a + [x] + (m + [y])) == ByRecency(m + [y]) + [x] + Dropped(rest, y)
  {
    hide Dropped, ByRecency;
    var d := Dropped(ByRecency(m), y);
    assert a + [x] + (m + [y]) == (a + [x] + m) + [y];
    RecencyUnfolds(a + [x] + m, y);
    RecencyUnfolds(m, y);
    DroppedThree(ByRecency(m), x, rest, y);
    assert [y] + (d + [x] + Dropped(rest, y)) == ([y] + d) + [x] + Dropped(rest, y);
  }

  lemma {:induction false} RecencySplit(a: seq<int>, x: int, mid: seq<int>)
    requires x !in mid
    ensures exists rest :: ByRecency(a + [x] + mid) == ByRecency(mid) + [x] + rest
    decreases |mid|
  {
    assert ByRecency([]) == [];
    hide Dropped, ByRecency;
    if mid == [] {
      assert a + [x] + mid == a + [x];
      RecencyUnfolds(a, x);
      assert [x] + Dropped(ByRecency(a), x) == [] + [x] + Dropped(ByRecency(a), x);
    } else {
      var m, y := mid[..|mid| - 1], mid[|mid| - 1];
      RecencySplit(a, x, m);
      var rest :| ByRecency(a + [x] + m) == ByRecency(m) + [x] + rest;
      SplitOneMore(a, x, m, y, rest);
      assert mid == m + [y];
    }
  }

  /** What a lookup leaves in the table: entries that were there, and on a miss the new one. */
  lemma ResolvedEntries(cache: seq<Entry>, tid: int, drawn: Uuid, cap: nat)
    ensures
      var r := Resolve(cache, tid, drawn, cap);
      && (forall e | e in r.cache :: e in cache || e == Entry(tid, drawn))
      && (r.isNew ==> r.uuid == drawn)
      && (!r.isNew ==> Entry(tid, r.uuid) in cache && forall e | e in r.cache :: e in cache)
  {
    hide IndexOf;
    var i := IndexOf(cache, tid);
    if i < |cache| {
      assert cache[i] == Entry(tid, cache[i].uuid);
      assert forall e | e in cache[..i] + cache[i + 1..] :: e in cache;
    }
  }

  /** An entry stays as it is, or leaves, while other ids are used. */
  lemma {:induction false} EntryKept(cache: seq<Entry>, x: Entry, mid: seq<Touch>, cap: nat)
    requires forall e | e in cache && e.tid == x.tid :: e == x
    requires x.tid !in TidsOf(mid)
    ensures forall e | e in After(cache, mid, cap) && e.tid == x.tid :: e == x
    decreases |mid|
  {
    if mid == [] {
    } else {
      var init, last := mid[..|mid| - 1], mid[|mid| - 1];
      assert After(cache, mid, cap) == Resolve(After(cache, init, cap), last.tid, last.drawn, cap).cache;
      OthersOnly(mid, x.tid);
      hide *;
      EntryKept(cache, x, init, cap);
      OtherUsed(After(cache, init, cap), x, last, cap);
    }
  }

  lemma OthersOnly(mid: seq<Touch>, tid: int)
    requires mid != [] && tid !in TidsOf(mid)
    ensures tid !in TidsOf(mid[..|mid| - 1]) && mid[|mid| - 1].tid != tid
  {
    hide TidsOf;
    var n := |mid| - 1;
    assert TidsOf(mid)[..n] == TidsOf(mid[..n]);
    assert mid[n].tid == TidsOf(mid)[n] && TidsOf(mid)[n] in TidsOf(mid);
  }

  lemma OtherUsed(cache: seq<Entry>, x: Entry, other: Touch, cap: nat)
    requires other.tid != x.tid && forall e | e in cache && e.tid == x.tid :: e == x
    ensures forall e | e in Resolve(cache, other.tid, other.drawn, cap).cache && e.tid == x.tid :: e == x
  {
    ResolvedEntries(cache, other.tid, other.drawn, cap);
    hide Resolve;
  }

  function IdSet(tids: seq<int>): set<int> {
    set t | t in tids
  }

  lemma {:induction false} DistinctCount(s: seq<int>)
    requires Distinct(s)
    ensures |IdSet(s)| == |s|
    decreases |s|
  {
    if s == [] {
    } else {
      DistinctCount(s[1..]);
      assert IdSet(s) == {s[0]} + IdSet(s[1..]);
    }
  }

  lemma InFrontIff(front: seq<int>, x: int, back: seq<int>, cap: nat)
    requires Distinct(front + [x] + back)
    ensures x in Take(front + [x] + back, cap) <==> |front| < cap
  {
    var order := front + [x] + back;
    assert order[|front|] == x;
    if x in Take(order, cap) {
      var k :| 0 <= k < |Take(order, cap)| && Take(order, cap)[k] == x;
      assert order[k] == x;
    }
    if |front| < cap {
      assert Take(order, cap)[|front|] == x;
    }
  }

  lemma TidsOfThree(before: seq<Touch>, x: Touch, mid: seq<Touch>)
    ensures TidsOf(before + [x] + mid) == TidsOf(before) + [x.tid] + TidsOf(mid)
  {
  }

  lemma RecencyCount(tids: seq<int>)
    ensures |ByRecency(tids)| == |IdSet(tids)|
  {
    RecencyFacts(tids);
    DistinctCount(ByRecency(tids));
    SameIds(ByRecency(tids), tids);
  }

  lemma SameIds(a: seq<int>, b: seq<int>)
    requires forall x :: x in a <==> x in b
    ensures IdSet(a) == IdSet(b)
  {
    forall x
      ensures x in IdSet(a) <==> x in IdSet(b)
    {
      assert x in a <==> x in b;
    }
  }

  lemma CachedIffRecent(before: seq<Touch>, x: Touch, mid: seq<Touch>, cap: nat)
    requires x.tid !in TidsOf(mid)
    ensures x.tid in CachedTids(After([], before + [x] + mid, cap)) <==> |IdSet(TidsOf(mid))| < cap
  {
    hide *;
    var mids := ByRecency(TidsOf(mid));
    TidsOfThree(before, x, mid);
    CacheIsMostRecent(before + [x] + mid, cap);
    RecencySplit(TidsOf(before), x.tid, TidsOf(mid));
    var rest :| ByRecency(TidsOf(before) + [x.tid] + TidsOf(mid)) == mids + [x.tid] + rest;
    RecencyFacts(TidsOf(before) + [x.tid] + TidsOf(mid));
    RecencyCount(TidsOf(mid));
    InFrontIff(mids, x.tid, rest, cap);
  }

  lemma FoundEntry(cache: seq<Entry>, e: Entry)
    requires forall d | d in cache && d.tid == e.tid :: d == e
    requires e.tid in CachedTids(cache)
    ensures IndexOf(cache, e.tid) < |cache| && cache[IndexOf(cache, e.tid)] == e
  {
    IndexOfCached(cache, e.tid);
    assert cache[IndexOf(cache, e.tid)] in cache;
  }

  lemma OnlyEntryAfterUse(cache: seq<Entry>, x: Touch, cap: nat)
    requires Distinct(CachedTids(cache))
    ensures
      var r := Resolve(cache, x.tid, x.drawn, cap);
      forall d | d in r.cache && d.tid == x.tid :: d == Entry(x.tid, r.uuid)
  {
    hide CachedTids, IndexOf;
    IndexOfCached(cache, x.tid);
    var i := IndexOf(cache, x.tid);
    forall d | d in cache && d.tid == x.tid
      ensures i < |cache| && d == cache[i]
    {
      var k :| 0 <= k < |cache| && cache[k] == d;
      assert CachedTids(cache)[k] == CachedTids(cache)[i];
    }
    assert forall d | d in Without(cache, x.tid) :: d in cache;
    if i < |cache| {
      assert x.tid !in Dropped(CachedTids(cache), x.tid) by {
        DroppedFacts(CachedTids(cache), x.tid);
      }
      WithoutTids(cache, x.tid);
      forall d | d in Without(cache, x.tid)
        ensures d.tid != x.tid
      {
        var k :| 0 <= k < |Without(cache, x.tid)| && Without(cache, x.tid)[k] == d;
        assert CachedTids(Without(cache, x.tid))[k] == d.tid;
      }
    }
  }

  /** An id used again keeps its UUID exactly when fewer than cap other ids were used in between;
      otherwise it is given the UUID drawn for it. */
  lemma KeepsUuidIff(before: seq<Touch>, x: Touch, mid: seq<Touch>, again: Uuid, cap: nat)
    requires x.tid !in TidsOf(mid)
    ensures
      var first := Resolve(After([], before, cap), x.tid, x.drawn, cap);
      var second := Resolve(After([], before + [x] + mid, cap), x.tid, again, cap);
      && (!second.isNew <==> |IdSet(TidsOf(mid))| < cap)
      && second.uuid == if |IdSet(TidsOf(mid))| < cap then first.uuid else again
  {
    var c0 := After([], before, cap);
    var first := Resolve(c0, x.tid, x.drawn, cap);
    assert After([], before + [x], cap) == first.cache by {
      assert (before + [x])[..|before|] == before;
    }
    hide TidsOf, After, CachedTids, IdSet, Truncated, Without;
    AfterSplit([], before + [x], mid, cap);
    CacheIsMostRecent(before, cap);
    OnlyEntryAfterUse(c0, x, cap);
    var e := Entry(x.tid, first.uuid);
    EntryKept(first.cache, e, mid, cap);
    CachedIffRecent(before, x, mid, cap);
    var c1 := After([], before + [x] + mid, cap);
    IndexOfCached(c1, x.tid);
    if x.tid in CachedTids(c1) {
      FoundEntry(c1, e);
    }
  }
}
