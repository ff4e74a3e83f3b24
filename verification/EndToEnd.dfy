/** Worker and camera over one connection: from detections to the UUIDs shown. */
module EndToEnd {
  import opened Options
  import opened Messages
  import opened Framing
  import opened Detections
  import opened ServeSpec
  import opened UuidCache
  import opened UuidRuns
  import opened DeviceAgent
  import I = TrackIdentity
  import R = TrackerRuns
  import T = TrackerSpec

  /** The table, draws and log after the track ids of every reply, in order, from an empty table. */
  ghost function Resolved(gen: nat -> Uuid, cap: nat, replies: seq<FrameReply>): I.Link {
    if replies == [] then I.Link(Born([]).now, [], 0, [])
    else I.UseAll(gen, cap, Resolved(gen, cap, replies[..|replies| - 1]), replies[|replies| - 1].trackIds)
  }

  /** Event n fits: a frame's live tracks and births fit the table, a config's grace period is not negative. */
  ghost predicate FitsAt(inside: InsideTest, table: map<string, nat>, events: seq<Event>, n: nat, cap: nat)
    requires n < |events|
  {
    match events[n]
    case ConfigEvent(m, o) => m.trackMaxAge.Some? ==> m.trackMaxAge.value >= 0
    case FrameEvent(id, w, h, stride, inference) =>
      var s := Serve(inside, table, events[..n]).state;
      s.tracker.Some? ==>
        I.Fits(s.tracker.value, ToTracker(AfterFrame(inside, s, id, w, h, stride, inference).reply.dets), cap)
    case OtherEvent => true
  }

  ghost predicate SessionFits(inside: InsideTest, table: map<string, nat>, events: seq<Event>, cap: nat) {
    forall n: nat | n < |events| :: FitsAt(inside, table, events, n, cap)
  }

  lemma FitsPrefix(inside: InsideTest, table: map<string, nat>, events: seq<Event>, cap: nat)
    requires events != [] && SessionFits(inside, table, events, cap)
    ensures SessionFits(inside, table, events[..|events| - 1], cap)
    ensures FitsAt(inside, table, events, |events| - 1, cap)
  {
    var init := events[..|events| - 1];
    forall n: nat | n < |init|
      ensures FitsAt(inside, table, init, n, cap)
    {
      assert FitsAt(inside, table, events, n, cap);
      assert init[..n] == events[..n];
    }
  }

  /** The link of the tracker's own run, from the tracker the first config makes. */
  ghost function LinkOf(gen: nat -> Uuid, cap: nat, events: seq<Event>, told: seq<R.Event>): I.Link {
    I.RunLink(gen, cap, I.Link(Born(events).now, [], 0, []), told)
  }

  lemma {:induction false} RunLinkAppend(gen: nat -> Uuid, cap: nat, l: I.Link, es: seq<R.Event>, e: R.Event)
    ensures I.RunLink(gen, cap, l, es + [e]) == I.Step(gen, cap, I.RunLink(gen, cap, l, es), e)
    decreases |es|
  {
    hide I.Step;
    if es == [] {
      assert es + [e] == [e];
      assert [e][1..] == [];
    } else {
      assert (es + [e])[1..] == es[1..] + [e];
      RunLinkAppend(gen, cap, I.Step(gen, cap, l, es[0]), es[1..], e);
    }
  }

  lemma {:induction false} LinkTracker(gen: nat -> Uuid, cap: nat, l: I.Link, h: R.History, es: seq<R.Event>)
    requires l.tracker == h.now
    ensures I.RunLink(gen, cap, l, es).tracker == R.Run(h, es).now
    decreases |es|
  {
    hide T.Update;
    if es == [] {
    } else {
      LinkTracker(gen, cap, I.Step(gen, cap, l, es[0]), R.Advance(h, es[0]), es[1..]);
    }
  }

  lemma {:induction false} UseIgnoresTracker(gen: nat -> Uuid, cap: nat, l: I.Link, t: T.Tracker, ids: seq<int>)
    ensures I.UseAll(gen, cap, l.(tracker := t), ids) == I.UseAll(gen, cap, l, ids).(tracker := t)
    decreases |ids|
  {
    hide Resolve;
    if ids == [] {
    } else {
      UseIgnoresTracker(gen, cap, I.Use(gen, cap, l, ids[0]), t, ids[1..]);
    }
  }

  /** Same table, draws and log, whatever the trackers. */
  ghost predicate SameView(a: I.Link, b: I.Link) {
    a.cache == b.cache && a.draws == b.draws && a.log == b.log
  }

  lemma UseSame(gen: nat -> Uuid, cap: nat, a: I.Link, b: I.Link, ids: seq<int>)
    requires SameView(a, b)
    ensures SameView(I.UseAll(gen, cap, a, ids), I.UseAll(gen, cap, b, ids))
  {
    hide I.UseAll;
    UseIgnoresTracker(gen, cap, b, a.tracker, ids);
    assert b.(tracker := a.tracker) == a;
  }

  lemma ToldSame(inside: InsideTest, gen: nat -> Uuid, cap: nat, s: State, e: Event, camera: I.Link, link: I.Link)
    requires SameView(camera, link) && s.tracker == Some(link.tracker)
    ensures e.FrameEvent? ==>
      Told(inside, s, e).Some? &&
      SameView(I.UseAll(gen, cap, camera, AfterFrame(inside, s, e.id, e.w, e.h, e.stride, e.inference).reply.trackIds),
               I.Step(gen, cap, link, Told(inside, s, e).value))
    ensures !e.FrameEvent? && Told(inside, s, e).Some? ==> SameView(camera, I.Step(gen, cap, link, Told(inside, s, e).value))
  {
    hide Sighted, T.Update, I.UseAll;
    if e.FrameEvent? {
      var f := AfterFrame(inside, s, e.id, e.w, e.h, e.stride, e.inference);
      var next := T.Update(link.tracker, ToTracker(f.reply.dets)).next;
      UseSame(gen, cap, camera, link.(tracker := next), f.reply.trackIds);
    }
  }

  lemma EmptySession(inside: InsideTest, table: map<string, nat>, cap: nat)
    ensures TrackerEvents(inside, table, []) == [] && Serve(inside, table, []).replies == []
    ensures I.RunFits(Born([]).now, [], cap) && Born([]).now.maxAge >= 0
  {
  }

  /** The camera's table, draws and log along the replies are those of the linked run of tracker and table. */
  lemma {:induction false} CameraFollows(inside: InsideTest, table: map<string, nat>, gen: nat -> Uuid, cap: nat, events: seq<Event>)
    ensures SameView(Resolved(gen, cap, Serve(inside, table, events).replies),
                     LinkOf(gen, cap, events, TrackerEvents(inside, table, events)))
    decreases |events|
  {
    hide *;
    if events == [] {
      EmptySession(inside, table, cap);
      NoRun(gen, cap, Born([]));
      NoReplies(gen, cap);
    } else {
      var init, e := events[..|events| - 1], events[|events| - 1];
      assert events == init + [e];
      var before := Serve(inside, table, init);
      var es, told := TrackerEvents(inside, table, init), Told(inside, before.state, e);
      var camera, link := Resolved(gen, cap, before.replies), LinkOf(gen, cap, init, es);
      CameraFollows(inside, table, gen, cap, init);
      TrackerRunsInside(inside, table, init);
      TrackerEventsStep(inside, table, init, e);
      ServeStep(inside, table, init, e);
      ReplyOf(inside, table, gen, cap, before, e);
      if before.state.tracker.Some? {
        BornStays(init, e);
        LinkFollows(gen, cap, init, events, es);
        ToldSame(inside, gen, cap, before.state, e, camera, link);
        if told.Some? {
          LinkAppend(gen, cap, init, events, es, told.value);
        } else {
          assert es + [] == es;
        }
      } else {
        NothingTold(inside, gen, cap, before.state, e);
        assert es + [] == [];
        LinkEmpty(gen, cap, init, events);
      }
    }
  }

  lemma NoReplies(gen: nat -> Uuid, cap: nat)
    ensures SameView(Resolved(gen, cap, []), LinkOf(gen, cap, [], []))
  {
  }

  lemma LinkFollows(gen: nat -> Uuid, cap: nat, init: seq<Event>, events: seq<Event>, es: seq<R.Event>)
    requires Born(events) == Born(init)
    ensures LinkOf(gen, cap, init, es).tracker == R.Run(Born(init), es).now
    ensures LinkOf(gen, cap, events, es) == LinkOf(gen, cap, init, es)
  {
    hide Born, I.RunLink, R.Run;
    LinkTracker(gen, cap, I.Link(Born(init).now, [], 0, []), Born(init), es);
  }

  lemma LinkAppend(gen: nat -> Uuid, cap: nat, init: seq<Event>, events: seq<Event>, es: seq<R.Event>, e: R.Event)
    requires Born(events) == Born(init)
    ensures LinkOf(gen, cap, events, es + [e]) == I.Step(gen, cap, LinkOf(gen, cap, init, es), e)
  {
    hide Born, I.RunLink, I.Step;
    RunLinkAppend(gen, cap, I.Link(Born(init).now, [], 0, []), es, e);
  }

  lemma LinkEmpty(gen: nat -> Uuid, cap: nat, init: seq<Event>, events: seq<Event>)
    ensures SameView(LinkOf(gen, cap, init, []), LinkOf(gen, cap, events, []))
    ensures forall l :: SameView(l, LinkOf(gen, cap, init, [])) ==> SameView(l, LinkOf(gen, cap, events, []))
  {
  }

  lemma NoRun(gen: nat -> Uuid, cap: nat, h: R.History)
    ensures I.RunLink(gen, cap, I.Link(h.now, [], 0, []), []) == I.Link(h.now, [], 0, [])
    ensures I.RunFits(h.now, [], cap)
  {
  }

  lemma NothingTold(inside: InsideTest, gen: nat -> Uuid, cap: nat, s: State, e: Event)
    requires s.tracker.None?
    ensures Told(inside, s, e).None?
    ensures e.FrameEvent? ==> AfterFrame(inside, s, e.id, e.w, e.h, e.stride, e.inference).reply.trackIds == []
    ensures forall l :: I.UseAll(gen, cap, l, []) == l
  {
  }

  /** The camera after one more event of the session. */
  lemma ReplyOf(inside: InsideTest, table: map<string, nat>, gen: nat -> Uuid, cap: nat, r: Session, e: Event)
    ensures Resolved(gen, cap, Handle(inside, table, r, e).replies) ==
      if e.FrameEvent?
      then I.UseAll(gen, cap, Resolved(gen, cap, r.replies), AfterFrame(inside, r.state, e.id, e.w, e.h, e.stride, e.inference).reply.trackIds)
      else Resolved(gen, cap, r.replies)
  {
    hide I.UseAll, AfterFrame, AfterConfig;
    if e.FrameEvent? {
      var reply := AfterFrame(inside, r.state, e.id, e.w, e.h, e.stride, e.inference).reply;
      assert (r.replies + [reply])[..|r.replies|] == r.replies;
    }
  }

  /** One more event of the tracker's run fits. */
  ghost predicate FitsNext(s: T.Tracker, e: R.Event, cap: nat) {
    match e
    case Frame(dets) => I.Fits(s, dets, cap)
    case Settings(_, maxAge, _) => maxAge.Some? ==> maxAge.value >= 0
  }

  lemma {:induction false} RunFitsAppend(h: R.History, es: seq<R.Event>, e: R.Event, cap: nat)
    requires I.RunFits(h.now, es, cap) && FitsNext(R.Run(h, es).now, e, cap)
    ensures I.RunFits(h.now, es + [e], cap)
    decreases |es|
  {
    hide T.Update, I.Fits;
    if es == [] {
      assert es + [e] == [e];
      assert [e][1..] == [];
    } else {
      assert (es + [e])[1..] == es[1..] + [e];
      RunFitsAppend(R.Advance(h, es[0]), es[1..], e, cap);
    }
  }

  lemma ToldFits(inside: InsideTest, table: map<string, nat>, events: seq<Event>, init: seq<Event>, e: Event, cap: nat)
    requires events == init + [e] && FitsAt(inside, table, events, |init|, cap)
    ensures
      var s := Serve(inside, table, init).state;
      Told(inside, s, e).Some? ==> FitsNext(s.tracker.value, Told(inside, s, e).value, cap)
    ensures e.ConfigEvent? && e.config.trackMaxAge.Some? ==> e.config.trackMaxAge.value >= 0
  {
    hide Serve, AfterFrame, I.Fits;
    assert events[..|init|] == init;
  }

  lemma BornAged(init: seq<Event>, e: Event)
    requires e.ConfigEvent? && e.config.trackMaxAge.Some? ==> e.config.trackMaxAge.value >= 0
    requires Born(init).now.maxAge >= 0
    ensures Born(init + [e]).now.maxAge >= 0
  {
    FirstConfigAppend(init, e);
    hide FirstConfig;
  }

  lemma {:induction false} SessionRunFits(inside: InsideTest, table: map<string, nat>, events: seq<Event>, cap: nat)
    requires SessionFits(inside, table, events, cap)
    ensures I.RunFits(Born(events).now, TrackerEvents(inside, table, events), cap)
    ensures Born(events).now.maxAge >= 0
    decreases |events|
  {
    hide *;
    if events == [] {
      EmptySession(inside, table, cap);
    } else {
      var init, e := events[..|events| - 1], events[|events| - 1];
      assert events == init + [e];
      var s := Serve(inside, table, init).state;
      var es, told := TrackerEvents(inside, table, init), Told(inside, s, e);
      FitsPrefix(inside, table, events, cap);
      SessionRunFits(inside, table, init, cap);
      TrackerRunsInside(inside, table, init);
      TrackerEventsStep(inside, table, init, e);
      ToldFits(inside, table, events, init, e, cap);
      BornAged(init, e);
      if s.tracker.Some? {
        BornStays(init, e);
        if told.Some? {
          RunFitsAppend(Born(init), es, told.value, cap);
        } else {
          assert es + [] == es;
        }
      } else {
        NothingToldYet(inside, s, e);
        NoRun(_ => Uuid(0), cap, Born(events));
        assert es + [] == [];
      }
    }
  }

  lemma NothingToldYet(inside: InsideTest, s: State, e: Event)
    requires s.tracker.None?
    ensures Told(inside, s, e).None?
  {
  }

  // The objects shown.

  /** The boxes of a reply as the camera's parser hands them over. */
  function BoxesOf(r: FrameReply): (boxes: seq<ReplyBox>)
    ensures |boxes| == |r.dets|
  {
    seq(|r.dets|, i requires 0 <= i < |r.dets| =>
      var b := r.dets[i].xyxy;
      ReplyBox([b.x1, b.y1, b.x2, b.y2], if i < |r.trackIds| then Some(r.trackIds[i]) else None, Some(r.dets[i].cls)))
  }

  /** The camera's table and draws, and the packets it has shown, one per reply. */
  datatype Shown = Shown(cache: seq<Entry>, draws: nat, packets: seq<seq<ObjectMetadata>>)

  /** The camera takes the replies in order, from an empty table. */
  ghost function Camera(gen: nat -> Uuid, cap: nat, replies: seq<FrameReply>): (c: Shown)
    ensures |c.packets| == |replies|
  {
    if replies == [] then Shown([], 0, [])
    else
      var c, r := Camera(gen, cap, replies[..|replies| - 1]), replies[|replies| - 1];
      var e := EmitAll(gen, cap, Emission(c.cache, c.draws, []), BoxesOf(r));
      Shown(e.cache, e.draws, c.packets + [e.objects])
  }

  /** One positive id per box. */
  ghost predicate Tagged(r: FrameReply) {
    |r.trackIds| == |r.dets| && forall i | 0 <= i < |r.trackIds| :: r.trackIds[i] > 0
  }

  ghost predicate AllTagged(replies: seq<FrameReply>) {
    forall r | r in replies :: Tagged(r)
  }

  /** Each packet has one object per box of its reply. */
  ghost predicate InShape(replies: seq<FrameReply>, packets: seq<seq<ObjectMetadata>>) {
    |packets| == |replies| && forall n | 0 <= n < |replies| :: |packets[n]| == |replies[n].trackIds|
  }

  /** Object i of packet n, as an id with its UUID. */
  ghost predicate IsShown(replies: seq<FrameReply>, packets: seq<seq<ObjectMetadata>>, e: Entry, n: nat, i: nat)
    requires InShape(replies, packets)
  {
    n < |replies| && i < |packets[n]| && e == Entry(replies[n].trackIds[i], packets[n][i].uuid)
  }

  /** The objects shown are exactly the log. */
  ghost predicate ShowsLog(replies: seq<FrameReply>, packets: seq<seq<ObjectMetadata>>, log: seq<Entry>) {
    && InShape(replies, packets)
    && (forall e: Entry, n: nat, i: nat | IsShown(replies, packets, e, n, i) :: e in log)
    && (forall e | e in log :: exists n: nat, i: nat :: IsShown(replies, packets, e, n, i))
  }

  /** The track ids shown, in the order of the boxes of the replies. */
  function ShownIds(replies: seq<FrameReply>): seq<int> {
    if replies == [] then [] else ShownIds(replies[..|replies| - 1]) + replies[|replies| - 1].trackIds
  }

  lemma {:induction false} LogOfUses(gen: nat -> Uuid, cap: nat, l: I.Link, ids: seq<int>)
    ensures LogTids(I.UseAll(gen, cap, l, ids).log) == LogTids(l.log) + ids
    decreases |ids|
  {
    hide LogTids, Resolve;
    if ids == [] {
      assert LogTids(l.log) + [] == LogTids(l.log);
    } else {
      var l1 := I.Use(gen, cap, l, ids[0]);
      assert LogTids(l1.log) == LogTids(l.log) + [ids[0]];
      LogOfUses(gen, cap, l1, ids[1..]);
      assert (LogTids(l.log) + [ids[0]]) + ids[1..] == LogTids(l.log) + ids;
    }
  }

  lemma {:induction false} LogOfReplies(gen: nat -> Uuid, cap: nat, replies: seq<FrameReply>)
    ensures LogTids(Resolved(gen, cap, replies).log) == ShownIds(replies)
    decreases |replies|
  {
    hide I.UseAll, LogTids;
    if replies == [] {
      assert |LogTids([])| == 0;
    } else {
      var init, r := replies[..|replies| - 1], replies[|replies| - 1];
      LogOfReplies(gen, cap, init);
      LogOfUses(gen, cap, Resolved(gen, cap, init), r.trackIds);
    }
  }

  /** One more packet. */
  lemma PacketShows(replies: seq<FrameReply>, packets: seq<seq<ObjectMetadata>>, l: I.Link, r: FrameReply, e: Emission, l': I.Link)
    requires ShowsLog(replies, packets, l.log) && InStride(l, e, l', r.trackIds)
    ensures ShowsLog(replies + [r], packets + [e.objects], l'.log)
  {
    var replies', packets' := replies + [r], packets + [e.objects];
    forall x: Entry, n: nat, i: nat | IsShown(replies', packets', x, n, i)
      ensures x in l'.log
    {
      if n < |replies| {
        assert IsShown(replies, packets, x, n, i);
      } else {
        assert x == l'.log[|l.log| + i];
      }
    }
    forall x | x in l'.log
      ensures exists n: nat, i: nat :: IsShown(replies', packets', x, n, i)
    {
      var k :| 0 <= k < |l'.log| && l'.log[k] == x;
      if k < |l.log| {
        assert l.log[k] in l.log;
        var n: nat, i: nat :| IsShown(replies, packets, x, n, i);
        assert IsShown(replies', packets', x, n, i);
      } else {
        assert IsShown(replies', packets', x, |replies|, k - |l.log|);
      }
    }
  }

  /** Replies with one positive id per box drive the camera's table exactly as their ids do, and the objects shown are
      exactly the log. */
  lemma {:induction false} CameraResolves(gen: nat -> Uuid, cap: nat, replies: seq<FrameReply>)
    requires AllTagged(replies)
    ensures
      var c, l := Camera(gen, cap, replies), Resolved(gen, cap, replies);
      c.cache == l.cache && c.draws == l.draws && ShowsLog(replies, c.packets, l.log)
    decreases |replies|
  {
    if replies == [] {
    } else {
      var init, r := replies[..|replies| - 1], replies[|replies| - 1];
      assert r in replies && forall x | x in init :: x in replies;
      assert replies == init + [r];
      hide *;
      CameraResolves(gen, cap, init);
      OneMoreReply(gen, cap, init, r);
    }
  }

  lemma BoxesCarry(r: FrameReply)
    requires Tagged(r)
    ensures Carries(BoxesOf(r), r.trackIds)
  {
  }

  lemma OneMoreReply(gen: nat -> Uuid, cap: nat, init: seq<FrameReply>, r: FrameReply)
    requires Tagged(r)
    requires
      var c, l := Camera(gen, cap, init), Resolved(gen, cap, init);
      c.cache == l.cache && c.draws == l.draws && ShowsLog(init, c.packets, l.log)
    ensures
      var c, l := Camera(gen, cap, init + [r]), Resolved(gen, cap, init + [r]);
      c.cache == l.cache && c.draws == l.draws && ShowsLog(init + [r], c.packets, l.log)
  {
    assert (init + [r])[..|init|] == init;
    hide EmitAll, I.UseAll, InStride, ShowsLog, BoxesOf, Tagged, Carries;
    var c, l := Camera(gen, cap, init), Resolved(gen, cap, init);
    var e, l' := EmitAll(gen, cap, Emission(l.cache, l.draws, []), BoxesOf(r)), I.UseAll(gen, cap, l, r.trackIds);
    assert Camera(gen, cap, init + [r]) == Shown(e.cache, e.draws, c.packets + [e.objects]);
    assert Resolved(gen, cap, init + [r]) == l';
    hide *;
    BoxesCarry(r);
    PacketFollowsIds(gen, cap, l, BoxesOf(r), r.trackIds);
    PacketShows(init, c.packets, l, r, e, l');
    StrideAgrees(l, e, l', r.trackIds);
  }

  lemma StrideAgrees(l: I.Link, e: Emission, l': I.Link, ids: seq<int>)
    requires InStride(l, e, l', ids)
    ensures e.cache == l'.cache && e.draws == l'.draws
  {
  }

  /** The object has the corners and the class of the detection. */
  predicate Frames(o: ObjectMetadata, d: Det) {
    && o.x == d.xyxy.x1 && o.y == d.xyxy.y1 && o.x + o.width == d.xyxy.x2 && o.y + o.height == d.xyxy.y2
    && o.cls == d.cls
  }

  ghost predicate FramesAll(objects: seq<ObjectMetadata>, dets: seq<Det>) {
    |objects| == |dets| && forall i | 0 <= i < |dets| :: Frames(objects[i], dets[i])
  }

  lemma ReplyIsFramed(gen: nat -> Uuid, cap: nat, cache: seq<Entry>, draws: nat, r: FrameReply)
    ensures FramesAll(EmitAll(gen, cap, Emission(cache, draws, []), BoxesOf(r)).objects, r.dets)
  {
    WholePacket(gen, cap, cache, draws, BoxesOf(r));
    hide EmitAll;
  }

  /** Whatever the replies, packet n shows the detections of reply n: as many, in their order, with their corners and
      classes. */
  lemma {:induction false} ObjectsFrameDetections(gen: nat -> Uuid, cap: nat, replies: seq<FrameReply>, n: nat)
    requires n < |replies|
    ensures FramesAll(Camera(gen, cap, replies).packets[n], replies[n].dets)
    decreases |replies|
  {
    hide EmitAll, BoxesOf, FramesAll;
    var init, r := replies[..|replies| - 1], replies[|replies| - 1];
    var c := Camera(gen, cap, init);
    if n < |init| {
      ObjectsFrameDetections(gen, cap, init, n);
    } else {
      ReplyIsFramed(gen, cap, c.cache, c.draws, r);
    }
  }

  /** Two objects, in whatever packets, carry one UUID exactly when the worker gave them one track id. */
  ghost predicate SameObjects(replies: seq<FrameReply>, packets: seq<seq<ObjectMetadata>>) {
    && InShape(replies, packets)
    && forall a: Entry, b: Entry, n: nat, i: nat, m: nat, j: nat |
         IsShown(replies, packets, a, n, i) && IsShown(replies, packets, b, m, j) :: a.tid == b.tid <==> a.uuid == b.uuid
  }

  lemma LogMeansObjects(replies: seq<FrameReply>, packets: seq<seq<ObjectMetadata>>, log: seq<Entry>)
    requires ShowsLog(replies, packets, log)
    ensures OneToOneLog(log) <==> SameObjects(replies, packets)
  {
    hide InShape, IsShown;
    if SameObjects(replies, packets) {
      forall a, b | a in log && b in log
        ensures a.tid == b.tid <==> a.uuid == b.uuid
      {
        var n: nat, i: nat :| IsShown(replies, packets, a, n, i);
        var m: nat, j: nat :| IsShown(replies, packets, b, m, j);
      }
    }
  }

  /** Whatever the replies: the objects keep their identity if and only if fewer than cap other ids are shown between any
      two consecutive shows of an id. */
  lemma IdentityOfObjectsIff(gen: nat -> Uuid, cap: nat, replies: seq<FrameReply>)
    requires I.Injective(gen) && AllTagged(replies)
    ensures SameObjects(replies, Camera(gen, cap, replies).packets) <==> RevisitsFit(ShownIds(replies), cap)
  {
    hide Camera, Resolved, ShowsLog, OneToOneLog, SameObjects, RevisitsFit, LogTids, ShownIds, AllTagged, Traced;
    CameraResolves(gen, cap, replies);
    LogOfReplies(gen, cap, replies);
    LogMeansObjects(replies, Camera(gen, cap, replies).packets, Resolved(gen, cap, replies).log);
    var t := RepliesTraced(gen, cap, replies);
    TracedIff(gen, cap, Resolved(gen, cap, replies), t);
  }

  lemma {:induction false} RepliesTraced(gen: nat -> Uuid, cap: nat, replies: seq<FrameReply>) returns (t: Trace)
    ensures Traced(gen, cap, Resolved(gen, cap, replies), t)
    decreases |replies|
  {
    if replies == [] {
      t := Trace([], [], [], []);
    } else {
      hide Traced, I.UseAll;
      var init, r := replies[..|replies| - 1], replies[|replies| - 1];
      var t0 := RepliesTraced(gen, cap, init);
      t := UseAllTraced(gen, cap, Resolved(gen, cap, init), t0, r.trackIds);
    }
  }

  /** Every reply of a session has one positive id per box. */
  lemma {:induction false} RepliesAreTagged(inside: InsideTest, table: map<string, nat>, events: seq<Event>)
    ensures AllTagged(Serve(inside, table, events).replies)
    decreases |events|
  {
    if events == [] {
    } else {
      var init, e := events[..|events| - 1], events[|events| - 1];
      assert events == init + [e];
      RepliesAreTagged(inside, table, init);
      ServeStep(inside, table, init, e);
      hide Serve, AfterFrame, AfterConfig;
      if e.FrameEvent? {
        ReplyIdsAreDistinct(inside, table, init, e.id, e.w, e.h, e.stride, e.inference);
      }
    }
  }

  lemma SessionLogIsOneToOne(inside: InsideTest, table: map<string, nat>, gen: nat -> Uuid, cap: nat, events: seq<Event>)
    requires I.Injective(gen) && SessionFits(inside, table, events, cap)
    ensures OneToOneLog(Resolved(gen, cap, Serve(inside, table, events).replies).log)
  {
    hide Serve, TrackerEvents, Resolved, I.RunLink, I.RunFits, SessionFits;
    var es := TrackerEvents(inside, table, events);
    var t := Born(events).now;
    SessionRunFits(inside, table, events, cap);
    CameraFollows(inside, table, gen, cap, events);
    assert t == T.Fresh(t.threshold, t.maxAge, t.mode);
    I.IdentityIsStable(gen, cap, t.threshold, t.maxAge, t.mode, es);
  }

  /** Over every session whose frames fit the table, two objects shown in any packets carry the same UUID exactly when
      the worker gave them the same track id. */
  lemma ObjectsKeepTheirUuid(inside: InsideTest, table: map<string, nat>, gen: nat -> Uuid, cap: nat, events: seq<Event>)
    requires I.Injective(gen) && SessionFits(inside, table, events, cap)
    ensures
      var replies := Serve(inside, table, events).replies;
      SameObjects(replies, Camera(gen, cap, replies).packets)
  {
    hide *;
    var replies := Serve(inside, table, events).replies;
    SessionLogIsOneToOne(inside, table, gen, cap, events);
    RepliesAreTagged(inside, table, events);
    CameraResolves(gen, cap, replies);
    LogMeansObjects(replies, Camera(gen, cap, replies).packets, Resolved(gen, cap, replies).log);
  }

  /** Over every session, fitting or not, they do so if and only if fewer than cap other ids are shown between any two
      consecutive shows of an id. */
  lemma ObjectsKeepTheirUuidIff(inside: InsideTest, table: map<string, nat>, gen: nat -> Uuid, cap: nat, events: seq<Event>)
    requires I.Injective(gen)
    ensures
      var replies := Serve(inside, table, events).replies;
      SameObjects(replies, Camera(gen, cap, replies).packets) <==> RevisitsFit(ShownIds(replies), cap)
  {
    hide *;
    RepliesAreTagged(inside, table, events);
    IdentityOfObjectsIff(gen, cap, Serve(inside, table, events).replies);
  }

  // From the bytes sent to the replies.

  /** A message as an event of the session, with what the foreign code does about it. */
  function EventOf(m: Message, outcome: ConfigOutcome, inference: Inference): Event {
    match m.control
    case Config(c) => ConfigEvent(c, outcome)
    case FrameHeader(id, w, h, stride) => FrameEvent(id, w, h, stride, inference)
    case _ => OtherEvent
  }

  function EventsOf(ms: seq<Message>, outcomes: nat -> ConfigOutcome, inferences: nat -> Inference): (r: seq<Event>)
    ensures |r| == |ms|
  {
    if ms == [] then []
    else
      var n := |ms| - 1;
      EventsOf(ms[..n], outcomes, inferences) + [EventOf(ms[n], outcomes(n), inferences(n))]
  }

  /** The frame ids of a list of messages, in order. */
  function SentIds(ms: seq<Message>): seq<int> {
    if ms == [] then []
    else
      var last := ms[|ms| - 1].control;
      SentIds(ms[..|ms| - 1]) + if last.FrameHeader? then [last.id] else []
  }

  lemma {:induction false} EventIds(ms: seq<Message>, outcomes: nat -> ConfigOutcome, inferences: nat -> Inference)
    ensures FrameIds(EventsOf(ms, outcomes, inferences)) == SentIds(ms)
    decreases |ms|
  {
    if ms == [] {
    } else {
      var n := |ms| - 1;
      EventIds(ms[..n], outcomes, inferences);
      var events := EventsOf(ms, outcomes, inferences);
      assert events[..n] == EventsOf(ms[..n], outcomes, inferences);
    }
  }

  lemma {:induction false} DeliveredIds(codec: Codec<Control>, ms: seq<Message>)
    requires Faithful(codec)
    ensures SentIds(DeliveredAll(codec, ms)) == SentIds(ms)
    decreases |ms|
  {
    if ms == [] {
    } else {
      var n := |ms| - 1;
      DeliveredIds(codec, ms[..n]);
      assert DeliveredAll(codec, ms)[..n] == DeliveredAll(codec, ms[..n]);
      assert SameControl(ms[n].control, codec.Back(ms[n].control));
    }
  }

  /** However the stream is cut, the worker answers exactly the frames that lie whole before the cut, in the order sent
      and with their ids. */
  lemma RepliesAnswerTheStream(codec: Codec<Control>, inside: InsideTest, table: map<string, nat>,
                               outcomes: nat -> ConfigOutcome, inferences: nat -> Inference,
                               ms: seq<Message>, part: seq<Byte>)
    requires Faithful(codec) && NoEarlyDetach(ms)
    requires forall m | m in ms :: Accepted(codec, m)
    requires part <= EncodedAll(codec, ms)
    ensures
      var replies := Serve(inside, table, EventsOf(ReadAll(codec, part), outcomes, inferences)).replies;
      ReplyIds(replies) == SentIds(ms[..WholeIn(codec, ms, |part|)])
  {
    hide *;
    var got := ReadAll(codec, part);
    CutStream(codec, ms, part);
    DeliveredIds(codec, ms[..WholeIn(codec, ms, |part|)]);
    EventIds(got, outcomes, inferences);
    OneReplyPerFrame(inside, table, EventsOf(got, outcomes, inferences));
  }
}
