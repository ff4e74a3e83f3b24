/** The worker's session behind the byte channels: what the camera takes off a connection. */
module Channel {
  import opened Options
  import opened Messages
  import opened Framing
  import opened Detections
  import opened ServeSpec
  import opened Lockstep
  import E = EndToEnd
  import I = TrackIdentity
  import U = UuidCache
  import opened UuidRuns

  /** The net, the events the worker has handled for the open connection, and the replies the camera has taken from it.
      What a worker does after its camera has hung up is not recorded. */
  datatype System = System(net: Net, events: seq<Event>, taken: seq<FrameReply>)

  /** A step of the net, or the worker receiving, with what the foreign code does if that completes a message. */
  datatype Move =
    | Act(action: Action)
    | Serves(k: nat, outcome: ConfigOutcome, inference: Inference)

  /** The message that receiving k more bytes completes. */
  function Completed(c: Codecs, s: Net, k: nat): Option<Message> {
    if !s.phase.Down? && s.worker.Receiving? && 0 < k <= |s.up| && Read(c.control, s.worker.buf).More? && k <= Wanted(c.control, s.worker.buf) then
      match Read(c.control, s.worker.buf + s.up[..k])
      case Complete(m) => Some(m)
      case _ => None
    else None
  }

  ghost function AnswerTo(inside: InsideTest, table: map<string, nat>, events: seq<Event>, e: Event): FrameReply {
    if e.FrameEvent? then
      AfterFrame(inside, Serve(inside, table, events).state, e.id, e.w, e.h, e.stride, e.inference).reply
    else FrameReply(0, [], [])
  }

  ghost function Next(c: Codecs, inside: InsideTest, table: map<string, nat>, s: System, move: Move): System {
    match move
    case Act(a) =>
      if a.WorkerReceives? then s
      else
        var net := Step(c, s.net, a);
        if a.Connect? && s.net.phase.Down? then System(net, [], [])
        else System(net, s.events, if |net.log| > |s.net.log| then s.taken + [net.log[|net.log| - 1].1] else s.taken)
    case Serves(k, outcome, inference) =>
      var m := Completed(c, s.net, k);
      if m.None? then s.(net := Step(c, s.net, WorkerReceives(k, [], [])))
      else
        var e := E.EventOf(m.value, outcome, inference);
        var r := AnswerTo(inside, table, s.events, e);
        System(Step(c, s.net, WorkerReceives(k, r.dets, r.trackIds)), s.events + [e], s.taken)
  }

  ghost function RunSystem(c: Codecs, inside: InsideTest, table: map<string, nat>, moves: seq<Move>): System {
    if moves == [] then System(START, [], [])
    else Next(c, inside, table, RunSystem(c, inside, table, moves[..|moves| - 1]), moves[|moves| - 1])
  }

  /** e is the handling of what arrives of m. */
  ghost predicate Handles(c: Codecs, e: Event, m: Message) {
    match c.control.Back(m.control)
    case Config(config) => e.ConfigEvent? && e.config == config
    case FrameHeader(id, w, h, stride) => e.FrameEvent? && e.id == id && e.w == w && e.h == h && e.stride == stride
    case _ => e.OtherEvent?
  }

  /** The handled messages and the unfinished ones are the ones issued. */
  ghost predicate HandledInOrder(c: Codecs, s: System) {
    && |s.events| + |s.net.queue| == |s.net.issued|
    && s.net.queue == s.net.issued[|s.events|..]
    && forall i | 0 <= i < |s.events| :: Handles(c, s.events[i], s.net.issued[i])
  }

  /** The reply the session gave last is still on its way. */
  ghost predicate Pending(s: Net) {
    || s.worker.Replying?
    || (s.phase.Awaiting? && (Arrived(s) != [] || (s.worker.Receiving? && s.queue == [])))
  }

  /** What arrives of replies. */
  function Arrivals(c: Codecs, replies: seq<FrameReply>): (r: seq<FrameReply>)
    ensures |r| == |replies| && forall i | 0 <= i < |replies| :: r[i] == c.reply.Back(replies[i])
  {
    seq(|replies|, i requires 0 <= i < |replies| => c.reply.Back(replies[i]))
  }

  /** What was taken is what arrives of the session's replies, but for a reply still on its way. */
  ghost predicate TakenInOrder(c: Codecs, inside: InsideTest, table: map<string, nat>, s: System) {
    var replies := Arrivals(c, Serve(inside, table, s.events).replies);
    && s.taken <= replies
    && (!s.net.phase.Down? ==>
          && (Pending(s.net) ==> s.net.answer.Some? && replies == s.taken + [c.reply.Back(s.net.answer.value)])
          && (s.net.worker.Receiving? && !Pending(s.net) ==> replies == s.taken))
  }

  ghost predicate Sound(c: Codecs, inside: InsideTest, table: map<string, nat>, s: System) {
    && Inv(c, s.net)
    && (!s.net.phase.Down? ==> HandledInOrder(c, s))
    && |s.events| <= |s.net.issued| && (forall i | 0 <= i < |s.events| :: Handles(c, s.events[i], s.net.issued[i]))
    && TakenInOrder(c, inside, table, s)
  }

  // Each step keeps it.

  lemma CallPart(c: Codecs, s: Net, m: Message)
    requires Inv(c, s)
    ensures
      var s' := CallStep(c, s, m);
      && s'.log == s.log && s'.phase.Down? == s.phase.Down? && s'.worker == s.worker && s'.answer == s.answer
      && Pending(s') == Pending(s)
      && ((s'.issued == s.issued && s'.queue == s.queue) || (s'.issued == s.issued + [m] && s'.queue == s.queue + [m]))
  {
    hide Formed, Upstream, WritesInOrder;
  }

  lemma SendPart(c: Codecs, s: Net, k: nat)
    requires Inv(c, s)
    ensures
      var s' := SendStep(s, k);
      && s'.log == s.log && s'.worker == s.worker && s'.answer == s.answer && s'.issued == s.issued && s'.queue == s.queue
      && (s.phase.Down? ==> s'.phase.Down?) && (!s'.phase.Down? ==> Pending(s') == Pending(s))
  {
    hide Upstream, WritesInOrder;
  }

  /** The bytes received are those of the pending reply, and once whole it is taken. */
  lemma ReceivePart(c: Codecs, s: Net, k: nat)
    requires c.Faithful() && Inv(c, s)
    ensures
      var s' := ReceiveStep(c, s, k);
      && s'.worker == s.worker && s'.answer == s.answer && s'.issued == s.issued && s'.queue == s.queue
      && (s.phase.Down? ==> s' == s)
      && (s' != s ==> Pending(s) && s.answer.Some?)
      && (s' != s && !s'.phase.Down? ==>
            || (s'.log == s.log && Pending(s'))
            || (s'.phase.Idle? && !Pending(s') && s'.log == s.log + [(s.phase.id, c.reply.Back(s.answer.value))]))
      && (s'.phase.Down? ==> s'.log == s.log)
  {
    hide Inv, Codecs.Faithful, ReceiveStep, ReadReply, Arrived;
    if ReceiveStep(c, s, k) != s {
      ReceiveTakes(c, s, k);
      ReceiveShape(c, s, k);
    }
  }

  /** What a step of receiving can change. */
  lemma ReceiveShape(c: Codecs, s: Net, k: nat)
    requires ReceiveStep(c, s, k) != s
    ensures s.phase.Awaiting? && k <= |s.down|
    ensures
      var s', p := ReceiveStep(c, s, k), ReadReply(s.phase.got + s.down[..k]);
      && s'.worker == s.worker && s'.answer == s.answer && s'.issued == s.issued && s'.queue == s.queue
      && (if p.NeedMore? then s'.phase.Awaiting? && Arrived(s') == Arrived(s) else if p.Whole? then s'.phase.Idle? else s'.phase.Down?)
  {
    hide ReadReply;
    assert (s.phase.got + s.down[..k]) + s.down[k..] == s.phase.got + s.down;
  }

  lemma SendsPart(c: Codecs, s: Net, k: nat)
    requires Inv(c, s)
    ensures
      var s' := WorkerSendsStep(s, k);
      && s'.log == s.log && s'.phase == s.phase && s'.answer == s.answer && s'.issued == s.issued && s'.queue == s.queue
      && (!s.phase.Down? ==> Pending(s') == Pending(s) && (s'.worker.Receiving? && !Pending(s') ==> s.worker.Receiving?))
  {
    hide Upstream, WritesInOrder;
    var s' := WorkerSendsStep(s, k);
    if s' != s && !s.phase.Down? {
      assert s'.down != [];
    }
  }

  /** Bytes received that complete nothing. */
  lemma PartialPart(c: Codecs, s: Net, k: nat, dets: seq<Det>, trackIds: seq<int>)
    requires Completed(c, s, k).None?
    ensures
      var s' := WorkerReceivesStep(c, s, k, dets, trackIds);
      && s'.log == s.log && s'.phase == s.phase && s'.issued == s.issued
      && (!s.phase.Down? ==>
            && s'.answer == s.answer && s'.queue == s.queue
            && (Pending(s') ==> Pending(s)) && (s'.worker.Receiving? ==> s.worker.Receiving? && Pending(s') == Pending(s)))
  {
    hide Read, Wanted;
  }

  /** A message completed is the first one unfinished, and no reply is pending while one is. */
  lemma CompletedPart(c: Codecs, s: Net, k: nat, dets: seq<Det>, trackIds: seq<int>)
    requires c.Faithful() && Inv(c, s) && Completed(c, s, k).Some?
    ensures s.worker.Receiving? && s.queue != [] && Completed(c, s, k).value == Delivered(c.control, s.queue[0]) && !Pending(s)
    ensures
      var s', m := Step(c, s, WorkerReceives(k, dets, trackIds)), s.queue[0];
      && s'.log == s.log && s'.phase == s.phase && s'.issued == s.issued && s'.queue == s.queue[1..]
      && (m.control.FrameHeader? ==> s'.worker.Gone? || s'.answer == Some(FrameReply(m.control.id, dets, trackIds)))
      && (Pending(s') ==> m.control.FrameHeader? && s'.worker.Replying?)
      && (s'.worker.Receiving? ==> !m.control.FrameHeader?)
  {
    var buf := s.worker.buf + s.up[..k];
    ReadsQueueHead(c, s, k, buf);
    MessageEnds(c, s, k, buf);
    NonePending(c, s);
    DeliveredKind(c.control, s.queue[0]);
    hide Inv, Read, Wanted, Encoded, Framing.Faithful, Codecs.Faithful, Delivered, Arrived;
    var s1 := s.(up := s.up[k..]);
    assert Step(c, s, WorkerReceives(k, dets, trackIds)) == Finish(c, s1, buf, dets, trackIds);
    assert Arrived(s1) == Arrived(s) by {
      ArrivedSame(s, s1);
    }
    hide Step, Completed, Pending;
    FinishPart(c, s1, buf, dets, trackIds);
  }

  lemma ArrivedSame(s: Net, s': Net)
    requires s'.phase == s.phase && s'.down == s.down
    ensures Arrived(s') == Arrived(s)
  {
  }

  lemma FinishPart(c: Codecs, s: Net, buf: seq<Byte>, dets: seq<Det>, trackIds: seq<int>)
    requires Read(c.control, buf).Complete? && s.worker.Receiving? && s.queue != []
    requires
      var d, m := Read(c.control, buf).message, s.queue[0];
      d.control.FrameHeader? == m.control.FrameHeader? && (m.control.FrameHeader? ==> d.control == m.control)
    requires s.phase.Awaiting? ==> Arrived(s) == [] && (s.queue[0].control.FrameHeader? || |s.queue| > 1)
    ensures
      var s', m := Finish(c, s, buf, dets, trackIds), s.queue[0];
      && s'.log == s.log && s'.phase == s.phase && s'.issued == s.issued && s'.queue == s.queue[1..]
      && (m.control.FrameHeader? ==> s'.worker.Gone? || s'.answer == Some(FrameReply(m.control.id, dets, trackIds)))
      && (Pending(s') ==> m.control.FrameHeader? && s'.worker.Replying?)
      && (s'.worker.Receiving? ==> !m.control.FrameHeader?)
  {
    hide Read, Arrived, Framed;
    var s' := Finish(c, s, buf, dets, trackIds);
    ArrivedSame(s, s');
  }

  lemma DeliveredKind(codec: Codec<Control>, m: Message)
    requires Framing.Faithful(codec)
    ensures Delivered(codec, m).control.FrameHeader? == m.control.FrameHeader?
    ensures m.control.FrameHeader? ==> Delivered(codec, m).control == m.control
  {
    assert SameControl(m.control, codec.Back(m.control));
  }

  /** While a message is unfinished, no reply is on its way. */
  lemma NonePending(c: Codecs, s: Net)
    requires Inv(c, s) && !s.phase.Down? && s.worker.Receiving? && s.queue != []
    ensures !Pending(s)
    ensures s.phase.Awaiting? ==> Arrived(s) == [] && (s.queue[0].control.FrameHeader? || |s.queue| > 1)
  {
    hide Upstream, WritesInOrder, RightReplies, NoFrames, ReadReply, Answers;
  }

  /** Only a whole message completes. */
  lemma MessageEnds(c: Codecs, s: Net, k: nat, buf: seq<Byte>)
    requires c.Faithful() && Inv(c, s) && Completed(c, s, k).Some? && buf == s.worker.buf + s.up[..k]
    ensures s.queue != [] && buf == Encoded(c.control, s.queue[0])
  {
    ReadsQueueHead(c, s, k, buf);
    hide Read, Wanted, Encoded;
  }

  /** A step of the net that neither completes a message nor takes a reply. */
  ghost predicate Quiet(s: Net, s': Net) {
    && s'.log == s.log && (s.phase.Down? ==> s'.phase.Down?)
    && ((s'.issued == s.issued && (s'.phase.Down? || s'.queue == s.queue))
        || exists m :: s'.issued == s.issued + [m] && s'.queue == s.queue + [m])
    && (!s'.phase.Down? ==>
          && s'.answer == s.answer && (Pending(s') ==> Pending(s))
          && (s'.worker.Receiving? && !Pending(s') ==> s.worker.Receiving? && !Pending(s)))
  }

  lemma QuietKeeps(c: Codecs, inside: InsideTest, table: map<string, nat>, s: System, net: Net)
    requires Sound(c, inside, table, s) && Inv(c, net) && Quiet(s.net, net)
    ensures Sound(c, inside, table, s.(net := net))
  {
    hide Inv, Serve, Pending, Handles;
    var s' := s.(net := net);
    if net.issued != s.net.issued {
      var m :| net.issued == s.net.issued + [m] && net.queue == s.net.queue + [m];
      assert !s.net.phase.Down? ==> net.issued[|s.events|..] == s.net.issued[|s.events|..] + [m];
    }
    assert TakenInOrder(c, inside, table, s');
  }

  /** The reply just taken was the pending one. */
  lemma TakeKeeps(c: Codecs, inside: InsideTest, table: map<string, nat>, s: System, k: nat)
    requires c.Faithful() && Sound(c, inside, table, s)
    ensures
      var net := ReceiveStep(c, s.net, k);
      |net.log| > |s.net.log| ==> Sound(c, inside, table, System(net, s.events, s.taken + [net.log[|net.log| - 1].1]))
    ensures |ReceiveStep(c, s.net, k).log| <= |s.net.log| ==> Quiet(s.net, ReceiveStep(c, s.net, k))
  {
    hide *;
    var net := ReceiveStep(c, s.net, k);
    SoundParts(c, inside, table, s);
    ReceivePart(c, s.net, k);
    ReceiveKeeps(c, s.net, k);
    if |net.log| > |s.net.log| {
      var r := net.log[|net.log| - 1].1;
      TakenNow(c, inside, table, s, net, r);
      SameQueue(c, s, net, r);
      SoundParts(c, inside, table, System(net, s.events, s.taken + [r]));
    } else {
      ReceiveQuiet(c, s.net, k);
    }
  }

  lemma TakenNow(c: Codecs, inside: InsideTest, table: map<string, nat>, s: System, net: Net, r: FrameReply)
    requires TakenInOrder(c, inside, table, s) && !s.net.phase.Down? && Pending(s.net) && s.net.answer.Some? && c.reply.Back(s.net.answer.value) == r && !Pending(net)
    ensures TakenInOrder(c, inside, table, System(net, s.events, s.taken + [r]))
  {
    hide Serve, Pending;
  }

  lemma SameQueue(c: Codecs, s: System, net: Net, r: FrameReply)
    requires HandledInOrder(c, s) && net.issued == s.net.issued && net.queue == s.net.queue
    ensures HandledInOrder(c, System(net, s.events, s.taken + [r]))
  {
    hide Handles;
  }

  lemma ReceiveQuiet(c: Codecs, s: Net, k: nat)
    requires c.Faithful() && Inv(c, s) && |ReceiveStep(c, s, k).log| <= |s.log|
    ensures Quiet(s, ReceiveStep(c, s, k))
  {
    ReceivePart(c, s, k);
    hide Inv, Pending, ReceiveStep;
  }

  lemma ActQuiet(c: Codecs, s: Net, a: Action)
    requires Inv(c, s) && !a.WorkerReceives? && !a.Connect? && !a.Receive?
    ensures Quiet(s, Step(c, s, a))
  {
    hide Inv, Pending, CallStep, SendStep, WorkerSendsStep;
    match a
    case Call(m) => CallPart(c, s, m);
    case Send(k) => SendPart(c, s, k);
    case SendFails =>
    case ReceiveFails =>
    case WorkerSends(k) => SendsPart(c, s, k);
    case WorkerStops => StopPart(s);
  }

  lemma ActKeeps(c: Codecs, inside: InsideTest, table: map<string, nat>, s: System, a: Action)
    requires c.Faithful() && Sound(c, inside, table, s) && !a.WorkerReceives? && !a.Connect?
    ensures Sound(c, inside, table, Next(c, inside, table, s, Act(a)))
  {
    hide *;
    var net := Step(c, s.net, a);
    SoundParts(c, inside, table, s);
    StepKeeps(c, s.net, a);
    NextActs(c, inside, table, s, a);
    if a.Receive? {
      TakeKeeps(c, inside, table, s, a.k);
    } else {
      ActQuiet(c, s.net, a);
    }
    if Quiet(s.net, net) {
      QuietKeeps(c, inside, table, s, net);
    }
  }

  lemma NextActs(c: Codecs, inside: InsideTest, table: map<string, nat>, s: System, a: Action)
    requires !a.WorkerReceives? && !a.Connect?
    ensures
      var net := Step(c, s.net, a);
      Next(c, inside, table, s, Act(a)) ==
      if |net.log| > |s.net.log| then System(net, s.events, s.taken + [net.log[|net.log| - 1].1]) else s.(net := net)
    ensures Quiet(s.net, Step(c, s.net, a)) ==> Step(c, s.net, a).log == s.net.log
    ensures a.Receive? ==> Step(c, s.net, a) == ReceiveStep(c, s.net, a.k)
  {
    hide CallStep, SendStep, ReceiveStep, WorkerSendsStep, Pending;
  }

  lemma StopPart(s: Net)
    ensures Pending(s.(worker := Gone)) ==> Pending(s)
  {
  }

  lemma PartialKeeps(c: Codecs, inside: InsideTest, table: map<string, nat>, s: System, k: nat, outcome: ConfigOutcome, inference: Inference)
    requires c.Faithful() && Sound(c, inside, table, s) && Completed(c, s.net, k).None?
    ensures Sound(c, inside, table, Next(c, inside, table, s, Serves(k, outcome, inference)))
  {
    var net := Step(c, s.net, WorkerReceives(k, [], []));
    StepKeeps(c, s.net, WorkerReceives(k, [], []));
    PartialPart(c, s.net, k, [], []);
    assert Quiet(s.net, net) by {
      hide Pending, WorkerReceivesStep, Completed;
    }
    hide Inv, Sound, Quiet, Step, Completed;
    QuietKeeps(c, inside, table, s, net);
  }

  /** One more event of the session and what it replies. */
  lemma HandledReplies(inside: InsideTest, table: map<string, nat>, events: seq<Event>, m: Message, outcome: ConfigOutcome, inference: Inference)
    ensures
      var e := E.EventOf(m, outcome, inference);
      var r := AnswerTo(inside, table, events, e);
      && Serve(inside, table, events + [e]).replies ==
         Serve(inside, table, events).replies + (if m.control.FrameHeader? then [r] else [])
      && (m.control.FrameHeader? ==> r.id == m.control.id)
  {
    ServeStep(inside, table, events, E.EventOf(m, outcome, inference));
    hide Serve, Sighted, AfterConfig;
  }

  lemma HandlesDelivered(c: Codecs, m: Message, outcome: ConfigOutcome, inference: Inference)
    requires c.Faithful()
    ensures Handles(c, E.EventOf(Delivered(c.control, m), outcome, inference), m)
    ensures Delivered(c.control, m).control.FrameHeader? == m.control.FrameHeader?
    ensures m.control.FrameHeader? ==> Delivered(c.control, m).control.id == m.control.id
  {
    assert SameControl(m.control, c.control.Back(m.control));
  }

  /** The first unfinished message becomes the last handled one. */
  lemma HandledStep(c: Codecs, s: System, e: Event, net: Net)
    requires HandledInOrder(c, s) && s.net.queue != [] && Handles(c, e, s.net.queue[0])
    requires net.issued == s.net.issued && net.queue == s.net.queue[1..]
    ensures HandledInOrder(c, System(net, s.events + [e], s.taken))
  {
    hide Handles;
    assert s.net.queue[0] == s.net.issued[|s.events|];
  }

  /** A reply joins those of the session when its frame is handled; nothing was pending. */
  lemma TakenStep(c: Codecs, inside: InsideTest, table: map<string, nat>, s: System, e: Event, m: Message, r: FrameReply, net: Net)
    requires TakenInOrder(c, inside, table, s) && !s.net.phase.Down? && s.net.worker.Receiving? && !Pending(s.net)
    requires Serve(inside, table, s.events + [e]).replies ==
      Serve(inside, table, s.events).replies + (if m.control.FrameHeader? then [r] else [])
    requires m.control.FrameHeader? ==> net.worker.Gone? || net.answer == Some(r)
    requires Pending(net) ==> m.control.FrameHeader? && net.worker.Replying?
    requires net.worker.Receiving? ==> !m.control.FrameHeader?
    ensures TakenInOrder(c, inside, table, System(net, s.events + [e], s.taken))
  {
    hide Serve, Pending;
  }

  lemma SoundParts(c: Codecs, inside: InsideTest, table: map<string, nat>, s: System)
    ensures Sound(c, inside, table, s) ==>
      Inv(c, s.net) && (!s.net.phase.Down? ==> HandledInOrder(c, s)) && TakenInOrder(c, inside, table, s)
    ensures Inv(c, s.net) && HandledInOrder(c, s) && TakenInOrder(c, inside, table, s) ==> Sound(c, inside, table, s)
  {
    hide Inv, TakenInOrder, Handles;
  }

  lemma CompletedKeeps(c: Codecs, inside: InsideTest, table: map<string, nat>, s: System, k: nat, outcome: ConfigOutcome, inference: Inference)
    requires c.Faithful() && Sound(c, inside, table, s) && Completed(c, s.net, k).Some?
    ensures Sound(c, inside, table, Next(c, inside, table, s, Serves(k, outcome, inference)))
  {
    hide *;
    var m := Completed(c, s.net, k).value;
    var e := E.EventOf(m, outcome, inference);
    var r := AnswerTo(inside, table, s.events, e);
    var net := Step(c, s.net, WorkerReceives(k, r.dets, r.trackIds));
    NextCompleted(c, inside, table, s, k, outcome, inference);
    SoundParts(c, inside, table, s);
    HandledReplies(inside, table, s.events, m, outcome, inference);
    StepKeeps(c, s.net, WorkerReceives(k, r.dets, r.trackIds));
    CompletedPart(c, s.net, k, r.dets, r.trackIds);
    HandlesDelivered(c, s.net.queue[0], outcome, inference);
    HandledStep(c, s, e, net);
    TakenStep(c, inside, table, s, e, m, r, net);
    SoundParts(c, inside, table, System(net, s.events + [e], s.taken));
  }

  lemma NextCompleted(c: Codecs, inside: InsideTest, table: map<string, nat>, s: System, k: nat, outcome: ConfigOutcome, inference: Inference)
    requires Completed(c, s.net, k).Some?
    ensures !s.net.phase.Down?
    ensures
      var e := E.EventOf(Completed(c, s.net, k).value, outcome, inference);
      var r := AnswerTo(inside, table, s.events, e);
      Next(c, inside, table, s, Serves(k, outcome, inference)) ==
      System(Step(c, s.net, WorkerReceives(k, r.dets, r.trackIds)), s.events + [e], s.taken)
  {
    hide Read, Wanted, Step, AnswerTo, E.EventOf;
  }

  lemma NextKeeps(c: Codecs, inside: InsideTest, table: map<string, nat>, s: System, move: Move)
    requires c.Faithful() && Sound(c, inside, table, s)
    ensures Sound(c, inside, table, Next(c, inside, table, s, move))
  {
    match move
    case Act(a) =>
      if a.Connect? {
        StepKeeps(c, s.net, a);
        NothingServed(inside, table);
        hide Inv, Serve;
      } else if !a.WorkerReceives? {
        ActKeeps(c, inside, table, s, a);
      }
    case Serves(k, outcome, inference) =>
      hide Sound, Next, Completed;
      if Completed(c, s.net, k).Some? {
        CompletedKeeps(c, inside, table, s, k, outcome, inference);
      } else {
        PartialKeeps(c, inside, table, s, k, outcome, inference);
      }
  }

  lemma NothingServed(inside: InsideTest, table: map<string, nat>)
    ensures Serve(inside, table, []).replies == []
  {
  }

  lemma {:induction false} SystemIsSound(c: Codecs, inside: InsideTest, table: map<string, nat>, moves: seq<Move>)
    requires c.Faithful()
    ensures Sound(c, inside, table, RunSystem(c, inside, table, moves))
    decreases |moves|
  {
    if moves == [] {
      RunKeeps(c, []);
      NothingServed(inside, table);
      hide Inv, Serve;
    } else {
      var n := |moves| - 1;
      SystemIsSound(c, inside, table, moves[..n]);
      NextKeeps(c, inside, table, RunSystem(c, inside, table, moves[..n]), moves[n]);
      hide Sound, Next;
    }
  }

  /** In every run over the byte channels, with short sends and receives, failures and reconnects: what the camera has
      taken from its connection is the first part of what arrives of the worker's replies to the messages issued on it;
      between calls, while the worker is up, it is all of it. */
  lemma TakenIsServed(c: Codecs, inside: InsideTest, table: map<string, nat>, moves: seq<Move>)
    requires c.Faithful()
    ensures
      var s := RunSystem(c, inside, table, moves);
      var replies := Arrivals(c, Serve(inside, table, s.events).replies);
      && s.taken <= replies
      && (s.net.phase.Idle? && s.net.worker.Receiving? ==> s.taken == replies)
      && |s.events| <= |s.net.issued|
      && (!s.net.phase.Down? ==> |s.events| + |s.net.queue| == |s.net.issued|)
      && forall i | 0 <= i < |s.events| :: Handles(c, s.events[i], s.net.issued[i])
  {
    SystemIsSound(c, inside, table, moves);
    hide Inv, Serve, Handles;
  }

  // Objects over the channels.

  lemma {:induction false} ResolvedPrefix(gen: nat -> U.Uuid, cap: nat, part: seq<FrameReply>, replies: seq<FrameReply>)
    requires part <= replies
    ensures E.Resolved(gen, cap, part).log <= E.Resolved(gen, cap, replies).log
    decreases |replies|
  {
    if |part| == |replies| {
      assert part == replies;
    } else {
      var init, r := replies[..|replies| - 1], replies[|replies| - 1];
      ResolvedPrefix(gen, cap, part, init);
      UsesGrow(gen, cap, E.Resolved(gen, cap, init), r.trackIds);
    }
  }

  lemma {:induction false} UsesGrow(gen: nat -> U.Uuid, cap: nat, l: I.Link, ids: seq<int>)
    ensures l.log <= I.UseAll(gen, cap, l, ids).log
    decreases |ids|
  {
    hide U.Resolve;
    if ids == [] {
    } else {
      UsesGrow(gen, cap, I.Use(gen, cap, l, ids[0]), ids[1..]);
    }
  }

  /** Only the ids count for the table. */
  lemma {:induction false} ResolvedArrivals(c: Codecs, gen: nat -> U.Uuid, cap: nat, replies: seq<FrameReply>)
    requires c.Faithful()
    ensures E.Resolved(gen, cap, Arrivals(c, replies)) == E.Resolved(gen, cap, replies)
    decreases |replies|
  {
    hide I.UseAll;
    if replies == [] {
    } else {
      var n := |replies| - 1;
      ResolvedArrivals(c, gen, cap, replies[..n]);
      assert Arrivals(c, replies)[..n] == Arrivals(c, replies[..n]);
      assert SameReply(replies[n], c.reply.Back(replies[n]));
    }
  }

  lemma TakenAreTagged(c: Codecs, replies: seq<FrameReply>, taken: seq<FrameReply>)
    requires c.Faithful() && E.AllTagged(replies) && taken <= Arrivals(c, replies)
    ensures E.AllTagged(taken)
  {
    forall r | r in taken
      ensures E.Tagged(r)
    {
      var i :| 0 <= i < |taken| && taken[i] == r;
      assert replies[i] in replies && E.Tagged(replies[i]) && SameReply(replies[i], c.reply.Back(replies[i]));
    }
  }

  /** In every such run in which the frames the worker handled fit the table: two objects the camera has shown from the
      replies it took, the table being empty at the start of the connection, carry one UUID exactly when the worker gave
      them one track id. */
  lemma ObjectsOverTheChannel(c: Codecs, inside: InsideTest, table: map<string, nat>, moves: seq<Move>, gen: nat -> U.Uuid, cap: nat)
    requires c.Faithful() && I.Injective(gen)
    requires E.SessionFits(inside, table, RunSystem(c, inside, table, moves).events, cap)
    ensures
      var s := RunSystem(c, inside, table, moves);
      E.SameObjects(s.taken, E.Camera(gen, cap, s.taken).packets)
  {
    hide *;
    var s := RunSystem(c, inside, table, moves);
    var replies := Serve(inside, table, s.events).replies;
    TakenIsServed(c, inside, table, moves);
    E.SessionLogIsOneToOne(inside, table, gen, cap, s.events);
    E.RepliesAreTagged(inside, table, s.events);
    ResolvedArrivals(c, gen, cap, replies);
    ResolvedPrefix(gen, cap, s.taken, Arrivals(c, replies));
    OneToOnePrefix(E.Resolved(gen, cap, s.taken).log, E.Resolved(gen, cap, replies).log);
    TakenAreTagged(c, replies, s.taken);
    E.CameraResolves(gen, cap, s.taken);
    E.LogMeansObjects(s.taken, E.Camera(gen, cap, s.taken).packets, E.Resolved(gen, cap, s.taken).log);
  }

  lemma OneToOnePrefix(part: seq<U.Entry>, log: seq<U.Entry>)
    requires part <= log && OneToOneLog(log)
    ensures OneToOneLog(part)
  {
    assert forall e | e in part :: e in log;
  }
}
