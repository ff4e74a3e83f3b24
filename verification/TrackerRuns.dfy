/** What holds over every run of updates and settings changes. */
module TrackerRuns {
  import opened Options
  import opened Greedy
  import opened ClassMatch
  import opened TrackerSpec

  // One update keeps the identities in order.

  ghost predicate IdsIncrease(tracks: seq<Track>) {
    forall i, j | 0 <= i < j < |tracks| :: tracks[i].id < tracks[j].id
  }

  ghost predicate Known(tracks: seq<Track>, id: int) {
    exists t :: t in tracks && t.id == id
  }

  ghost predicate WellFormed(s: Tracker) {
    && IdsIncrease(s.tracks)
    && s.nextId >= 1
    && forall t | t in s.tracks :: 1 <= t.id < s.nextId && t.age >= 0 && t.hits >= 1
  }

  lemma {:induction false} SurvivorsInside(tracks: seq<Track>, maxAge: int)
    ensures forall t :: t in Survivors(tracks, maxAge) <==> t in tracks && t.age <= maxAge
    ensures IdsIncrease(tracks) ==> IdsIncrease(Survivors(tracks, maxAge))
  {
    if tracks == [] {
    } else {
      var init, last := tracks[..|tracks| - 1], tracks[|tracks| - 1];
      assert tracks == init + [last];
      SurvivorsInside(init, maxAge);
    }
  }

  lemma {:induction false} ExpiredInside(tracks: seq<Track>, maxAge: int)
    ensures forall t :: t in Expired(tracks, maxAge) <==> t in tracks && t.age > maxAge
    ensures IdsIncrease(tracks) ==> IdsIncrease(Expired(tracks, maxAge))
  {
    if tracks == [] {
    } else {
      var init, last := tracks[..|tracks| - 1], tracks[|tracks| - 1];
      assert tracks == init + [last];
      ExpiredInside(init, maxAge);
    }
  }

  lemma {:induction false} UnmatchedMonotone(picks: seq<Cell>, i: nat, j: nat)
    requires i < j
    ensures Unmatched(picks, i) <= Unmatched(picks, j) <= Unmatched(picks, i) + (j - i)
    ensures RowPartner(picks, i).None? ==> Unmatched(picks, i) < Unmatched(picks, j)
    decreases j
  {
    if i + 1 < j {
      UnmatchedMonotone(picks, i, j - 1);
    }
  }

  lemma {:induction false} BirthsInside(nextId: int, dets: seq<Detection>, picks: seq<Cell>, n: nat)
    requires n <= |dets|
    ensures
      var b := Births(nextId, dets, picks, n);
      && |b| == Unmatched(picks, n)
      && (forall t :: t in b <==> exists i: nat :: i < n && RowPartner(picks, i).None? && t == Newborn(nextId, dets, picks, i))
      && (forall k | 0 <= k < |b| :: b[k].id == nextId + k && b[k].age == 0 && b[k].hits == 1)
  {
    if n > 0 {
      BirthsInside(nextId, dets, picks, n - 1);
    }
  }

  lemma TickedWellFormed(s: Tracker, dets: seq<Detection>, picks: seq<Cell>)
    requires WellFormed(s) && OneToOne(picks, |dets|, |s.tracks|)
    ensures
      var ticked := TickAll(s.tracks, dets, picks);
      IdsIncrease(ticked) && forall t | t in ticked :: 1 <= t.id < s.nextId && t.age >= 0 && t.hits >= 1
  {
    hide TickAll, ColPartner;
  }

  lemma KeepsWellFormed(s: Tracker, dets: seq<Detection>, picks: seq<Cell>)
    requires WellFormed(s) && OneToOne(picks, |dets|, |s.tracks|)
    ensures WellFormed(UpdateWith(s, dets, picks).next)
  {
    hide TickAll, Survivors, Births, Unmatched, RowPartner, ColPartner, IdsIncrease;
    var ticked := TickAll(s.tracks, dets, picks);
    var kept, born := Survivors(ticked, s.maxAge), Births(s.nextId, dets, picks, |dets|);
    TickedWellFormed(s, dets, picks);
    SurvivorsInside(ticked, s.maxAge);
    BirthsInside(s.nextId, dets, picks, |dets|);
    forall t: Track | t in kept + born
      ensures 1 <= t.id < s.nextId + |born| && t.age >= 0 && t.hits >= 1
    {
      if t !in kept {
        var k :| 0 <= k < |born| && born[k] == t;
      }
    }
    OrderedConcat(kept, born, s.nextId);
  }

  lemma OrderedConcat(a: seq<Track>, b: seq<Track>, bound: int)
    requires IdsIncrease(a) && forall t | t in a :: t.id < bound
    requires forall k | 0 <= k < |b| :: b[k].id == bound + k
    ensures IdsIncrease(a + b)
  {
  }

  /** An update keeps ids strictly increasing and below the next id. */
  lemma UpdateKeepsWellFormed(s: Tracker, dets: seq<Detection>)
    requires WellFormed(s)
    ensures WellFormed(Update(s, dets).next)
  {
    MatchesOneToOne(s, dets);
    KeepsWellFormed(s, dets, Matches(s, dets));
  }

  lemma RowsDiffer(picks: seq<Cell>, rows: nat, cols: nat, i: nat, j: nat)
    requires OneToOne(picks, rows, cols) && i != j
    ensures RowPartner(picks, i).Some? && RowPartner(picks, j).Some? ==> RowPartner(picks, i) != RowPartner(picks, j)
  {
    PartnersInside(picks, i);
    PartnersInside(picks, j);
    if RowPartner(picks, i).Some? && RowPartner(picks, i) == RowPartner(picks, j) {
      var k := RowPartner(picks, i).value;
      var a :| 0 <= a < |picks| && picks[a] == Cell(i, k);
      var b :| 0 <= b < |picks| && picks[b] == Cell(j, k);
      assert if a < b then Clash(picks[a], picks[b]) else Clash(picks[b], picks[a]);
    }
  }

  /** Label i names the matched track, or counts up from the next id. */
  lemma LabelOf(s: Tracker, dets: seq<Detection>, picks: seq<Cell>, i: nat)
    requires WellFormed(s) && OneToOne(picks, |dets|, |s.tracks|) && i < |dets|
    ensures
      var o := UpdateWith(s, dets, picks);
      && |o.labels| == |dets|
      && 1 <= o.labels[i] < o.next.nextId
      && match RowPartner(picks, i)
         case Some(j) => j < |s.tracks| && s.tracks[j].id == o.labels[i] && o.labels[i] < s.nextId
         case None => o.labels[i] == s.nextId + Unmatched(picks, i)
  {
    PartnersInside(picks, i);
    UnmatchedMonotone(picks, i, |dets|);
    if RowPartner(picks, i).Some? {
      assert s.tracks[RowPartner(picks, i).value] in s.tracks;
    }
  }

  lemma LabelsDiffer(s: Tracker, dets: seq<Detection>, picks: seq<Cell>, i: nat, j: nat)
    requires WellFormed(s) && OneToOne(picks, |dets|, |s.tracks|) && i < j < |dets|
    ensures
      var o := UpdateWith(s, dets, picks);
      |o.labels| == |dets| && o.labels[i] != o.labels[j]
  {
    hide UpdateWith, OneToOne, RowPartner;
    LabelOf(s, dets, picks, i);
    LabelOf(s, dets, picks, j);
    UnmatchedMonotone(picks, i, j);
    RowsDiffer(picks, |dets|, |s.tracks|, i, j);
  }

  /** Every label is positive, below the new next id, and given to one detection only;
      it names either a live track or a track born now. */
  lemma LabelsAreDistinct(s: Tracker, dets: seq<Detection>)
    requires WellFormed(s)
    ensures
      var o := Update(s, dets);
      && |o.labels| == |dets|
      && (forall i | 0 <= i < |dets| :: 1 <= o.labels[i] < o.next.nextId)
      && (forall i | 0 <= i < |dets| :: o.labels[i] >= s.nextId || Known(s.tracks, o.labels[i]))
      && (forall i, j | 0 <= i < j < |dets| :: o.labels[i] != o.labels[j])
  {
    hide Matches, UpdateWith, RowPartner;
    LabelCount(s, dets);
    MatchesOneToOne(s, dets);
    var picks := Matches(s, dets);
    forall i: nat | i < |dets|
      ensures 1 <= Update(s, dets).labels[i] < Update(s, dets).next.nextId
      ensures Update(s, dets).labels[i] >= s.nextId || Known(s.tracks, Update(s, dets).labels[i])
    {
      LabelOf(s, dets, picks, i);
      if RowPartner(picks, i).Some? {
        assert s.tracks[RowPartner(picks, i).value] in s.tracks;
      }
    }
    forall i: nat, j: nat | i < j < |dets|
      ensures Update(s, dets).labels[i] != Update(s, dets).labels[j]
    {
      LabelsDiffer(s, dets, picks, i, j);
    }
  }

  // Counting.

  function CountAge(tracks: seq<Track>, age: int): nat {
    if tracks == [] then 0
    else CountAge(tracks[..|tracks| - 1], age) + if tracks[|tracks| - 1].age == age then 1 else 0
  }

  function HitSum(tracks: seq<Track>): int {
    if tracks == [] then 0 else HitSum(tracks[..|tracks| - 1]) + tracks[|tracks| - 1].hits
  }

  lemma {:induction false} CountsAdd(a: seq<Track>, b: seq<Track>, age: int)
    ensures CountAge(a + b, age) == CountAge(a, age) + CountAge(b, age)
    ensures HitSum(a + b) == HitSum(a) + HitSum(b)
  {
    if b == [] {
      assert a + b == a;
    } else {
      assert (a + b)[..|a + b| - 1] == a + b[..|b| - 1];
      CountsAdd(a, b[..|b| - 1], age);
    }
  }

  lemma {:induction false} CountPruned(tracks: seq<Track>, maxAge: int, age: int)
    ensures CountAge(Survivors(tracks, maxAge), age) == if age <= maxAge then CountAge(tracks, age) else 0
    ensures HitSum(Survivors(tracks, maxAge)) + HitSum(Expired(tracks, maxAge)) == HitSum(tracks)
    ensures |Survivors(tracks, maxAge)| + |Expired(tracks, maxAge)| == |tracks|
  {
    if tracks == [] {
    } else {
      var init, last := tracks[..|tracks| - 1], [tracks[|tracks| - 1]];
      CountPruned(init, maxAge, age);
      CountsAdd(Survivors(init, maxAge), if last[0].age <= maxAge then last else [], age);
      CountsAdd(Expired(init, maxAge), if last[0].age <= maxAge then [] else last, age);
    }
  }

  /** How many of the first n columns were matched. */
  function MatchedColumns(picks: seq<Cell>, n: nat): nat {
    if n == 0 then 0 else MatchedColumns(picks, n - 1) + if ColPartner(picks, n - 1).Some? then 1 else 0
  }

  lemma {:induction false} UnmatchedShift(picks: seq<Cell>, rest: seq<Cell>, n: nat)
    requires picks != [] && rest == picks[1..] && RowPartner(rest, picks[0].row).None?
    ensures Unmatched(picks, n) + (if picks[0].row < n then 1 else 0) == Unmatched(rest, n)
  {
    if n > 0 {
      UnmatchedShift(picks, rest, n - 1);
    }
  }

  lemma {:induction false} MatchedShift(picks: seq<Cell>, rest: seq<Cell>, n: nat)
    requires picks != [] && rest == picks[1..] && ColPartner(rest, picks[0].col).None?
    ensures MatchedColumns(picks, n) == MatchedColumns(rest, n) + if picks[0].col < n then 1 else 0
  {
    if n > 0 {
      MatchedShift(picks, rest, n - 1);
    }
  }

  lemma {:induction false} NothingPicked(n: nat)
    ensures Unmatched([], n) == n && MatchedColumns([], n) == 0
  {
    if n > 0 {
      NothingPicked(n - 1);
    }
  }

  /** As many columns as rows are matched. */
  lemma {:induction false} MatchedAgree(picks: seq<Cell>, rows: nat, cols: nat)
    requires OneToOne(picks, rows, cols)
    ensures MatchedColumns(picks, cols) + Unmatched(picks, rows) == rows
    decreases |picks|
  {
    if picks == [] {
      NothingPicked(rows);
      NothingPicked(cols);
    } else {
      var rest := picks[1..];
      assert OneToOne(rest, rows, cols);
      forall c | c in rest
        ensures !Clash(picks[0], c)
      {
        var k :| 0 <= k < |rest| && rest[k] == c;
        assert picks[k + 1] == c;
      }
      PartnersInside(rest, picks[0].row);
      PartnersInside(rest, picks[0].col);
      UnmatchedShift(picks, rest, rows);
      MatchedShift(picks, rest, cols);
      MatchedAgree(rest, rows, cols);
    }
  }

  lemma {:induction false} CountTicked(tracks: seq<Track>, dets: seq<Detection>, picks: seq<Cell>, age: int)
    requires forall c | c in picks :: c.row < |dets|
    requires forall t | t in tracks :: t.age >= 0
    ensures CountAge(TickAll(tracks, dets, picks), 0) == MatchedColumns(picks, |tracks|)
    ensures age >= 0 ==> CountAge(TickAll(tracks, dets, picks), age + 1) <= CountAge(tracks, age)
    ensures HitSum(TickAll(tracks, dets, picks)) == HitSum(tracks) + MatchedColumns(picks, |tracks|)
  {
    if tracks == [] {
    } else {
      var j := |tracks| - 1;
      var ticked := TickAll(tracks, dets, picks);
      assert ticked[..j] == TickAll(tracks[..j], dets, picks);
      CountTicked(tracks[..j], dets, picks, age);
      assert tracks[j] in tracks;
    }
  }

  lemma {:induction false} CountBirths(nextId: int, dets: seq<Detection>, picks: seq<Cell>, n: nat, age: int)
    requires n <= |dets|
    ensures CountAge(Births(nextId, dets, picks, n), age) == if age == 0 then Unmatched(picks, n) else 0
    ensures HitSum(Births(nextId, dets, picks, n)) == Unmatched(picks, n)
  {
    if n > 0 {
      CountBirths(nextId, dets, picks, n - 1, age);
      CountsAdd(Births(nextId, dets, picks, n - 1),
                if RowPartner(picks, n - 1).None? then [Newborn(nextId, dets, picks, n - 1)] else [], age);
    }
  }

  lemma AgesShiftWith(s: Tracker, dets: seq<Detection>, picks: seq<Cell>, age: int)
    requires WellFormed(s) && OneToOne(picks, |dets|, |s.tracks|)
    ensures
      var next := UpdateWith(s, dets, picks).next;
      && (age >= 0 ==> CountAge(next.tracks, age + 1) <= CountAge(s.tracks, age))
      && CountAge(next.tracks, 0) <= |dets|
      && (s.maxAge >= 0 ==> CountAge(next.tracks, 0) == |dets|)
  {
    hide CountAge, Survivors, Births, Unmatched, MatchedColumns, ColPartner;
    var ticked := TickAll(s.tracks, dets, picks);
    var kept, born := Survivors(ticked, s.maxAge), Births(s.nextId, dets, picks, |dets|);
    MatchedAgree(picks, |dets|, |s.tracks|);
    CountTicked(s.tracks, dets, picks, age);
    CountPruned(ticked, s.maxAge, 0);
    CountPruned(ticked, s.maxAge, age + 1);
    CountBirths(s.nextId, dets, picks, |dets|, 0);
    CountBirths(s.nextId, dets, picks, |dets|, age + 1);
    CountsAdd(kept, born, 0);
    CountsAdd(kept, born, age + 1);
  }

  /** Ages move up by one per update; the youngest are the detections of this update. */
  lemma AgesShift(s: Tracker, dets: seq<Detection>, age: int)
    requires WellFormed(s)
    ensures
      var next := Update(s, dets).next;
      && (age >= 0 ==> CountAge(next.tracks, age + 1) <= CountAge(s.tracks, age))
      && CountAge(next.tracks, 0) <= |dets|
      && (s.maxAge >= 0 ==> CountAge(next.tracks, 0) == |dets|)
  {
    hide Matches, CountAge, UpdateWith;
    MatchesOneToOne(s, dets);
    AgesShiftWith(s, dets, Matches(s, dets), age);
  }

  lemma ConservesWith(s: Tracker, dets: seq<Detection>, picks: seq<Cell>)
    requires WellFormed(s) && OneToOne(picks, |dets|, |s.tracks|)
    ensures
      var o := UpdateWith(s, dets, picks);
      && HitSum(o.next.tracks) + HitSum(o.retired) == HitSum(s.tracks) + |dets|
      && |o.next.tracks| + |o.retired| - |s.tracks| == o.next.nextId - s.nextId
  {
    hide HitSum, Survivors, Expired, Births, Unmatched, MatchedColumns, ColPartner;
    var ticked := TickAll(s.tracks, dets, picks);
    var kept, born := Survivors(ticked, s.maxAge), Births(s.nextId, dets, picks, |dets|);
    MatchedAgree(picks, |dets|, |s.tracks|);
    CountTicked(s.tracks, dets, picks, 0);
    CountPruned(ticked, s.maxAge, 0);
    CountBirths(s.nextId, dets, picks, |dets|, 0);
    BirthsInside(s.nextId, dets, picks, |dets|);
    CountsAdd(kept, born, 0);
  }

  /** No hit and no track is lost: what leaves the live list is what retires. */
  lemma UpdateConserves(s: Tracker, dets: seq<Detection>)
    requires WellFormed(s)
    ensures
      var o := Update(s, dets);
      && HitSum(o.next.tracks) + HitSum(o.retired) == HitSum(s.tracks) + |dets|
      && |o.next.tracks| + |o.retired| - |s.tracks| == o.next.nextId - s.nextId
  {
    hide Matches, HitSum, UpdateWith;
    MatchesOneToOne(s, dets);
    ConservesWith(s, dets, Matches(s, dets));
  }

  // Runs.

  datatype Event =
    | Frame(dets: seq<Detection>)
    | Settings(threshold: Option<real>, maxAge: Option<int>, mode: Option<Mode>)

  /** The tracker with what it has left behind: retired tracks, the labels given, and the
      number of boxes per update, newest first. */
  datatype History = History(now: Tracker, retired: seq<Track>, boxes: seq<nat>, labels: seq<seq<int>>)

  ghost function Start(threshold: real, maxAge: int, mode: Mode): History {
    History(Fresh(threshold, maxAge, mode), [], [], [])
  }

  ghost function Advance(h: History, e: Event): History {
    match e
    case Frame(dets) =>
      var o := Update(h.now, dets);
      History(o.next, h.retired + o.retired, [|dets|] + h.boxes, h.labels + [o.labels])
    case Settings(threshold, maxAge, mode) =>
      h.(now := SetParams(h.now, threshold, maxAge, mode))
  }

  ghost function Run(h: History, events: seq<Event>): History
    decreases |events|
  {
    if events == [] then h else Run(Advance(h, events[0]), events[1..])
  }

  function Sum(counts: seq<nat>): nat {
    if counts == [] then 0 else counts[0] + Sum(counts[1..])
  }

  function BoxesAgo(counts: seq<nat>, k: nat): nat {
    if k < |counts| then counts[k] else 0
  }

  /** Ids are either live or retired, never both, and every box is one hit. */
  ghost predicate Accounted(h: History) {
    && WellFormed(h.now)
    && (forall id :: 1 <= id < h.now.nextId <==> Known(h.now.tracks, id) || Known(h.retired, id))
    && (forall id :: !(Known(h.now.tracks, id) && Known(h.retired, id)))
    && |h.now.tracks| + |h.retired| == h.now.nextId - 1
    && HitSum(h.now.tracks) + HitSum(h.retired) == Sum(h.boxes)
    && (forall k: nat :: CountAge(h.now.tracks, k) <= BoxesAgo(h.boxes, k))
  }

  lemma KnownTicked(tracks: seq<Track>, dets: seq<Detection>, picks: seq<Cell>, id: int)
    requires forall c | c in picks :: c.row < |dets|
    ensures Known(TickAll(tracks, dets, picks), id) <==> Known(tracks, id)
  {
  }

  lemma KnownSplit(tracks: seq<Track>, maxAge: int, id: int)
    requires IdsIncrease(tracks)
    ensures Known(tracks, id) <==> Known(Survivors(tracks, maxAge), id) || Known(Expired(tracks, maxAge), id)
    ensures !(Known(Survivors(tracks, maxAge), id) && Known(Expired(tracks, maxAge), id))
  {
    hide Survivors, Expired;
    SurvivorsInside(tracks, maxAge);
    ExpiredInside(tracks, maxAge);
    if t :| t in tracks && t.id == id {
      assert t in Survivors(tracks, maxAge) || t in Expired(tracks, maxAge);
    }
  }

  lemma KnownBirths(nextId: int, dets: seq<Detection>, picks: seq<Cell>, n: nat, id: int)
    requires n <= |dets|
    ensures Known(Births(nextId, dets, picks, n), id) <==> nextId <= id < nextId + Unmatched(picks, n)
  {
  }

  lemma KnownConcat(a: seq<Track>, b: seq<Track>, id: int)
    ensures Known(a + b, id) <==> Known(a, id) || Known(b, id)
  {
  }

  lemma KnownAfterUpdate(s: Tracker, dets: seq<Detection>, id: int)
    requires WellFormed(s)
    ensures
      var o := Update(s, dets);
      && (Known(s.tracks, id) || s.nextId <= id < o.next.nextId <==> Known(o.next.tracks, id) || Known(o.retired, id))
      && !(Known(o.next.tracks, id) && Known(o.retired, id))
      && (Known(o.retired, id) ==> Known(s.tracks, id))
  {
    MatchesOneToOne(s, dets);
    var picks := Matches(s, dets);
    hide Matches, Survivors, Expired, Births, Unmatched;
    var ticked := TickAll(s.tracks, dets, picks);
    assert IdsIncrease(ticked);
    assert Known(s.tracks, id) ==> id < s.nextId;
    hide TickAll, Known;
    KnownTicked(s.tracks, dets, picks, id);
    KnownSplit(ticked, s.maxAge, id);
    KnownBirths(s.nextId, dets, picks, |dets|, id);
    KnownConcat(Survivors(ticked, s.maxAge), Births(s.nextId, dets, picks, |dets|), id);
  }

  lemma FrameKeepsAccounted(h: History, dets: seq<Detection>)
    requires Accounted(h)
    ensures Accounted(Advance(h, Frame(dets)))
  {
    hide Update, Known, WellFormed;
    var h' := Advance(h, Frame(dets));
    var o := Update(h.now, dets);
    UpdateKeepsWellFormed(h.now, dets);
    UpdateConserves(h.now, dets);
    CountsAdd(h.retired, o.retired, 0);
    forall id
      ensures 1 <= id < h'.now.nextId <==> Known(h'.now.tracks, id) || Known(h'.retired, id)
      ensures !(Known(h'.now.tracks, id) && Known(h'.retired, id))
    {
      KnownAfterUpdate(h.now, dets, id);
      KnownConcat(h.retired, o.retired, id);
      NextIdGrows(h.now, dets);
    }
    forall k: nat
      ensures CountAge(h'.now.tracks, k) <= BoxesAgo(h'.boxes, k)
    {
      AgesShift(h.now, dets, k - 1);
      if k > 0 {
        assert BoxesAgo(h'.boxes, k) == BoxesAgo(h.boxes, k - 1);
      }
    }
    assert h'.boxes[1..] == h.boxes;
  }

  lemma NextIdGrows(s: Tracker, dets: seq<Detection>)
    requires WellFormed(s)
    ensures 1 <= s.nextId <= Update(s, dets).next.nextId
  {
  }

  lemma {:induction false} RunKeepsAccounted(h: History, events: seq<Event>)
    requires Accounted(h)
    ensures Accounted(Run(h, events))
    decreases |events|
  {
    if events == [] {
    } else {
      if events[0].Frame? {
        FrameKeepsAccounted(h, events[0].dets);
      }
      RunKeepsAccounted(Advance(h, events[0]), events[1..]);
    }
  }

  /** Over every run: next id - 1 ids were given, each live or retired; hits add up to boxes;
      at most as many tracks have age k as boxes were seen k updates ago. */
  lemma EveryRunIsAccounted(threshold: real, maxAge: int, mode: Mode, events: seq<Event>)
    ensures Accounted(Run(Start(threshold, maxAge, mode), events))
  {
    RunKeepsAccounted(Start(threshold, maxAge, mode), events);
  }

  // A pruned id is gone.

  lemma RetiredFrame(h: History, dets: seq<Detection>, id: int)
    requires Accounted(h) && Known(h.retired, id)
    ensures
      var next := Advance(h, Frame(dets));
      && Accounted(next) && Known(next.retired, id)
      && |next.labels| == |h.labels| + 1 && id !in next.labels[|h.labels|]
  {
    FrameKeepsAccounted(h, dets);
    LabelsAreDistinct(h.now, dets);
    assert id < h.now.nextId && !Known(h.now.tracks, id);
    hide Update, WellFormed;
  }

  lemma RetiredStep(h: History, e: Event, id: int)
    requires Accounted(h) && Known(h.retired, id)
    ensures !Known(h.now.tracks, id)
    ensures
      var next := Advance(h, e);
      && Accounted(next) && Known(next.retired, id)
      && |h.labels| <= |next.labels|
      && (forall k | |h.labels| <= k < |next.labels| :: id !in next.labels[k])
  {
    if e.Frame? {
      RetiredFrame(h, e.dets, id);
    }
    hide Update;
  }

  lemma {:induction false} RetiredStays(h: History, events: seq<Event>, id: int)
    requires Accounted(h) && Known(h.retired, id)
    ensures !Known(Run(h, events).now.tracks, id)
    ensures |h.labels| <= |Run(h, events).labels|
    ensures forall k | |h.labels| <= k < |Run(h, events).labels| :: id !in Run(h, events).labels[k]
    decreases |events|
  {
    hide Accounted, Known, Advance;
    if events == [] {
      RetiredStep(h, Frame([]), id);
    } else {
      var next := Advance(h, events[0]);
      RetiredStep(h, events[0], id);
      RetiredStays(next, events[1..], id);
      LabelsGrow(next, events[1..]);
    }
  }

  lemma {:induction false} LabelsGrow(h: History, events: seq<Event>)
    ensures h.labels <= Run(h, events).labels
    decreases |events|
  {
    if events == [] {
    } else {
      LabelsGrow(Advance(h, events[0]), events[1..]);
    }
  }

  /** A pruned id is never live again and labels no later box. */
  lemma PrunedIdNeverReturns(threshold: real, maxAge: int, mode: Mode, before: seq<Event>, after: seq<Event>, id: int)
    requires Known(Run(Start(threshold, maxAge, mode), before).retired, id)
    ensures
      var h := Run(Start(threshold, maxAge, mode), before);
      var h' := Run(h, after);
      && !Known(h'.now.tracks, id)
      && |h.labels| <= |h'.labels|
      && (forall k | |h.labels| <= k < |h'.labels| :: id !in h'.labels[k])
  {
    EveryRunIsAccounted(threshold, maxAge, mode, before);
    RetiredStays(Run(Start(threshold, maxAge, mode), before), after, id);
  }

  // The live count.

  function CountUpTo(tracks: seq<Track>, age: int): nat
    decreases age + 1
  {
    if age < 0 then 0 else CountUpTo(tracks, age - 1) + CountAge(tracks, age)
  }

  lemma {:induction false} CountUpToExtend(tracks: seq<Track>, t: Track, age: int)
    requires t.age >= 0
    ensures CountUpTo(tracks + [t], age) == CountUpTo(tracks, age) + if t.age <= age then 1 else 0
    decreases age + 1
  {
    if age >= 0 {
      assert (tracks + [t])[..|tracks|] == tracks;
      CountUpToExtend(tracks, t, age - 1);
    }
  }

  lemma {:induction false} CountUpToNothing(age: int)
    ensures CountUpTo([], age) == 0
    decreases age + 1
  {
    if age >= 0 {
      CountUpToNothing(age - 1);
    }
  }

  lemma {:induction false} CountUpToAll(tracks: seq<Track>, age: int)
    requires forall t | t in tracks :: 0 <= t.age <= age
    ensures CountUpTo(tracks, age) == |tracks|
    decreases |tracks|
  {
    if tracks == [] {
      CountUpToNothing(age);
    } else {
      var init, last := tracks[..|tracks| - 1], tracks[|tracks| - 1];
      assert tracks == init + [last];
      CountUpToExtend(init, last, age);
      CountUpToAll(init, age);
    }
  }

  /** Boxes seen in the last n updates. */
  function Recent(counts: seq<nat>, n: nat): nat {
    if n == 0 then 0 else Recent(counts, n - 1) + BoxesAgo(counts, n - 1)
  }

  lemma {:induction false} CountUpToBounded(tracks: seq<Track>, counts: seq<nat>, age: int)
    requires forall k: nat :: CountAge(tracks, k) <= BoxesAgo(counts, k)
    requires age >= -1
    ensures CountUpTo(tracks, age) <= Recent(counts, age + 1)
    decreases age + 1
  {
    if age >= 0 {
      CountUpToBounded(tracks, counts, age - 1);
    }
  }

  lemma AgesWithinMax(s: Tracker, dets: seq<Detection>)
    requires WellFormed(s) && s.maxAge >= 0
    ensures forall t | t in Update(s, dets).next.tracks :: 0 <= t.age <= s.maxAge
  {
    UpdateKeepsWellFormed(s, dets);
    MatchesOneToOne(s, dets);
    var picks := Matches(s, dets);
    hide Matches, Survivors, Births;
    var kept, born := Survivors(TickAll(s.tracks, dets, picks), s.maxAge), Births(s.nextId, dets, picks, |dets|);
    SurvivorsInside(TickAll(s.tracks, dets, picks), s.maxAge);
    BirthsInside(s.nextId, dets, picks, |dets|);
    forall t: Track | t in kept + born
      ensures t.age <= s.maxAge
    {
      if t !in kept {
        var k :| 0 <= k < |born| && born[k] == t;
      }
    }
  }

  /** Right after an update the live count is at most the boxes of the last maxAge + 1 updates,
      and the tracks of age 0 are exactly the boxes of this one. */
  lemma LiveCountBounded(threshold: real, maxAge: int, mode: Mode, events: seq<Event>, dets: seq<Detection>)
    requires Run(Start(threshold, maxAge, mode), events).now.maxAge >= 0
    ensures
      var h := Run(Start(threshold, maxAge, mode), events);
      var h' := Advance(h, Frame(dets));
      && |h'.now.tracks| <= Recent(h'.boxes, h.now.maxAge + 1)
      && CountAge(h'.now.tracks, 0) == |dets|
  {
    hide Run, Update, CountAge, CountUpTo, Recent;
    var h := Run(Start(threshold, maxAge, mode), events);
    var h' := Advance(h, Frame(dets));
    EveryRunIsAccounted(threshold, maxAge, mode, events);
    FrameKeepsAccounted(h, dets);
    AgesShift(h.now, dets, 0);
    AgesWithinMax(h.now, dets);
    CountUpToAll(h'.now.tracks, h.now.maxAge);
    CountUpToBounded(h'.now.tracks, h'.boxes, h.now.maxAge);
  }
}
