/** A session in which few tracks are alive, and yet one changes its UUID. */
module CrowdedSession {
  import opened Options
  import opened Messages
  import opened Detections
  import opened ServeSpec
  import opened SessionRuns
  import opened EndToEnd
  import opened UuidCache
  import opened UuidRuns
  import opened LiveCount
  import C = ClassMatch
  import I = TrackIdentity
  import R = TrackerRuns
  import T = TrackerSpec

  /** At no moment of the session the tracker holds more than cap tracks. */
  ghost predicate NeverMoreThan(inside: InsideTest, table: map<string, nat>, events: seq<Event>, cap: nat) {
    forall n: nat | n <= |events| ::
      var t := Serve(inside, table, events[..n]).state.tracker;
      t.Some? ==> |t.value.tracks| <= cap
  }

  lemma {:induction false} WithinAtEnd(h: R.History, es: seq<R.Event>, cap: nat)
    requires LiveWithin(h.now, es, cap)
    ensures |R.Run(h, es).now.tracks| <= cap
    decreases |es|
  {
    hide T.Update;
    if es == [] {
    } else {
      WithinAtEnd(R.Advance(h, es[0]), es[1..], cap);
    }
  }

  lemma {:induction false} WithinPrefix(s: T.Tracker, es: seq<R.Event>, n: nat, cap: nat)
    requires LiveWithin(s, es, cap) && n <= |es|
    ensures LiveWithin(s, es[..n], cap)
    decreases n
  {
    hide T.Update;
    if n == 0 {
    } else {
      assert es[..n][1..] == es[1..][..n - 1];
      match es[0] {
        case Frame(dets) => WithinPrefix(T.Update(s, dets).next, es[1..], n - 1, cap);
        case Settings(threshold, maxAge, mode) => WithinPrefix(T.SetParams(s, threshold, maxAge, mode), es[1..], n - 1, cap);
      }
    }
  }

  /** The session is made event by event. */
  lemma {:induction false} EventsForPrefix(maxAge: int, mode: C.Mode, es: seq<R.Event>, n: nat)
    requires n <= |es|
    ensures EventsFor(maxAge, mode, es)[..n + 1] == EventsFor(maxAge, mode, es[..n])
    decreases |es|
  {
    if n == |es| {
      assert es[..n] == es;
    } else {
      EventsForPrefix(maxAge, mode, es[..|es| - 1], n);
      assert es[..|es| - 1][..n] == es[..n];
    }
  }

  lemma PartStaysWithin(inside: InsideTest, table: map<string, nat>, maxAge: int, mode: C.Mode, es: seq<R.Event>, n: nat, cap: nat)
    requires n <= |es| && forall e | e in es :: Tellable(e)
    requires LiveWithin(T.Fresh(TRACKER_IOU, maxAge, mode), es, cap)
    ensures
      var t := Serve(inside, table, EventsFor(maxAge, mode, es)[..n + 1]).state.tracker;
      t.Some? ==> |t.value.tracks| <= cap
  {
    hide *;
    var events, part := EventsFor(maxAge, mode, es)[..n + 1], es[..n];
    assert forall e | e in part :: e in es;
    EventsForPrefix(maxAge, mode, es, n);
    RunIsServed(inside, table, maxAge, mode, part);
    BornFrom(events, maxAge, mode);
    TrackerRunsInside(inside, table, events);
    WithinPrefix(T.Fresh(TRACKER_IOU, maxAge, mode), es, n, cap);
    StartsAt(maxAge, mode);
    WithinAtEnd(R.Start(TRACKER_IOU, maxAge, mode), part, cap);
  }

  lemma StartsAt(maxAge: int, mode: C.Mode)
    ensures R.Start(TRACKER_IOU, maxAge, mode).now == T.Fresh(TRACKER_IOU, maxAge, mode)
  {
  }

  lemma SessionStaysWithin(inside: InsideTest, table: map<string, nat>, maxAge: int, mode: C.Mode, es: seq<R.Event>, cap: nat)
    requires forall e | e in es :: Tellable(e)
    requires LiveWithin(T.Fresh(TRACKER_IOU, maxAge, mode), es, cap)
    ensures NeverMoreThan(inside, table, EventsFor(maxAge, mode, es), cap)
  {
    var events := EventsFor(maxAge, mode, es);
    hide EventsFor, Tellable, LiveWithin, Serve;
    forall n: nat | n <= |events|
      ensures
        var t := Serve(inside, table, events[..n]).state.tracker;
        t.Some? ==> |t.value.tracks| <= cap
    {
      if n == 0 {
        NotYet(inside, table, events);
      } else {
        PartStaysWithin(inside, table, maxAge, mode, es, n - 1, cap);
      }
    }
  }

  lemma NotYet(inside: InsideTest, table: map<string, nat>, events: seq<Event>)
    ensures Serve(inside, table, events[..0]).state.tracker.None?
  {
  }

  lemma CrowdIsTellable(es: seq<R.Event>)
    requires AllProper(es)
    ensures forall e | e in es :: Tellable(e)
  {
  }

  lemma CrowdChanges(inside: InsideTest, table: map<string, nat>, gen: nat -> Uuid, cap: nat, maxAge: int, es: seq<R.Event>, events: seq<Event>)
    requires Born(events) == R.Start(TRACKER_IOU, maxAge, C.VehicleGroup) && TrackerEvents(inside, table, events) == es
    requires Changed(I.RunLink(gen, cap, I.Connect(0.3, maxAge, C.VehicleGroup), es).log)
    ensures
      var replies := Serve(inside, table, events).replies;
      !SameObjects(replies, Camera(gen, cap, replies).packets)
  {
    hide *;
    var replies := Serve(inside, table, events).replies;
    CameraFollows(inside, table, gen, cap, events);
    LinkFrom(gen, cap, maxAge, events, es);
    RepliesAreTagged(inside, table, events);
    CameraResolves(gen, cap, replies);
    LogMeansObjects(replies, Camera(gen, cap, replies).packets, Resolved(gen, cap, replies).log);
    SameLog(Resolved(gen, cap, replies), LinkOf(gen, cap, events, es));
    NotOneToOne(Resolved(gen, cap, replies).log);
  }

  lemma SameLog(a: I.Link, b: I.Link)
    requires SameView(a, b)
    ensures a.log == b.log
  {
  }

  lemma NotOneToOne(log: seq<Entry>)
    requires Changed(log)
    ensures !OneToOneLog(log)
  {
  }

  lemma LinkFrom(gen: nat -> Uuid, cap: nat, maxAge: int, events: seq<Event>, es: seq<R.Event>)
    requires Born(events) == R.Start(TRACKER_IOU, maxAge, C.VehicleGroup)
    ensures LinkOf(gen, cap, events, es) == I.RunLink(gen, cap, I.Connect(0.3, maxAge, C.VehicleGroup), es)
  {
    hide Born, I.RunLink;
  }

  /** Whatever the cap and the grace period, there is a session whose tracker never holds more than cap tracks, and
      in which objects do not keep their UUIDs. */
  lemma LiveCountDoesNotBound(inside: InsideTest, table: map<string, nat>, gen: nat -> Uuid, cap: nat, maxAge: int)
    requires I.Injective(gen) && cap >= 2 && maxAge >= 0
    ensures exists events: seq<Event> ::
      && NeverMoreThan(inside, table, events, cap) && Born(events) == R.Start(TRACKER_IOU, maxAge, C.VehicleGroup)
      && var replies := Serve(inside, table, events).replies;
         !SameObjects(replies, Camera(gen, cap, replies).packets)
  {
    assert TRACKER_IOU == 0.3;
    hide *;
    var es := CrowdedRun(gen, cap, maxAge);
    var events := EventsFor(maxAge, C.VehicleGroup, es);
    CrowdIsTellable(es);
    SessionStaysWithin(inside, table, maxAge, C.VehicleGroup, es, cap);
    RunIsServed(inside, table, maxAge, C.VehicleGroup, es);
    BornFrom(events, maxAge, C.VehicleGroup);
    CrowdChanges(inside, table, gen, cap, maxAge, es, events);
  }
}
