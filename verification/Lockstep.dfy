/** One client and one worker over two byte channels: every interleaving of short sends, short
    receives, failures and reconnects. */
module Lockstep {
  import opened Options
  import opened Messages
  import opened Framing

  datatype Codecs = Codecs(control: Codec<Control>, reply: Codec<FrameReply>) {
    ghost predicate Faithful() {
      Framing.Faithful(control) && FaithfulReply(reply)
    }
  }

  /** What the client does once its message is written. */
  datatype Then = Return | Await(id: int) | Close

  datatype Phase =
    | Down
    | Idle
    | Writing(rest: seq<Byte>, then_: Then)
    | Awaiting(id: int, got: seq<Byte>)

  datatype Worker =
    | Receiving(buf: seq<Byte>)
    | Replying(out: seq<Byte>)
    | Gone

  /** The current connection. `issued`, `sent`, `queue`, `answer` and `log` record what happened and steer nothing:
      messages begun, bytes accepted, messages the worker has not finished, the reply it is giving or gave last,
      and over all connections the pairs (frame id asked, reply taken for it). */
  datatype Net = Net(
    phase: Phase,
    up: seq<Byte>,
    worker: Worker,
    down: seq<Byte>,
    issued: seq<Message>,
    sent: seq<Byte>,
    queue: seq<Message>,
    answer: Option<FrameReply>,
    log: seq<(int, FrameReply)>)

  datatype Action =
    | Connect
    | Call(m: Message)
    | Send(k: nat)
    | SendFails
    | Receive(k: nat)
    | ReceiveFails
    | WorkerReceives(k: nat, dets: seq<Det>, trackIds: seq<int>)
    | WorkerSends(k: nat)
    | WorkerStops

  function Rest(s: Net): seq<Byte> {
    if s.phase.Writing? then s.phase.rest else []
  }

  function ThenOf(c: Control): Then {
    match c
    case FrameHeader(id, _, _, _) => Await(id)
    case Detach => Close
    case _ => Return
  }

  /** The client's reader over the bytes of one reply. */
  datatype ReplyProgress = NeedMore(k: nat) | BadLength | Whole(payload: seq<Byte>)

  function ReadReply(got: seq<Byte>): (p: ReplyProgress)
    ensures p.NeedMore? ==> p.k > 0
  {
    if |got| < 4 then NeedMore(4 - |got|)
    else
      var n := FromBigEndian(got[..4]);
      if n == 0 || n > MAX_JSON_BYTES then BadLength
      else if |got| < 4 + n then NeedMore(4 + n - |got|)
      else Whole(got[4..4 + n])
  }

  ghost function CallStep(c: Codecs, s: Net, m: Message): Net {
    if s.phase.Idle? && Formed(c.control, m) then
      s.(phase := Writing(Encoded(c.control, m), ThenOf(m.control)), issued := s.issued + [m], queue := s.queue + [m])
    else s
  }

  function SendStep(s: Net, k: nat): Net {
    if s.phase.Writing? && 0 < k <= |s.phase.rest| then
      var rest := s.phase.rest[k..];
      var next :=
        if rest != [] then Writing(rest, s.phase.then_)
        else match s.phase.then_ {
          case Return => Idle
          case Await(id) => Awaiting(id, [])
          case Close => Down
        };
      s.(phase := next, up := s.up + s.phase.rest[..k], sent := s.sent + s.phase.rest[..k])
    else s
  }

  function ReceiveStep(c: Codecs, s: Net, k: nat): Net {
    if s.phase.Awaiting? && 0 < k <= |s.down| && ReadReply(s.phase.got).NeedMore? && k <= ReadReply(s.phase.got).k then
      var got := s.phase.got + s.down[..k];
      var s' := s.(down := s.down[k..]);
      match ReadReply(got)
      case NeedMore(_) => s'.(phase := Awaiting(s.phase.id, got))
      case BadLength => s'.(phase := Down)
      case Whole(payload) =>
        var r := c.reply.decode(payload);
        s'.(phase := Idle, log := if r.Some? then s.log + [(s.phase.id, r.value)] else s.log)
    else s
  }

  function WorkerReceivesStep(c: Codecs, s: Net, k: nat, dets: seq<Det>, trackIds: seq<int>): Net {
    if s.worker.Receiving? && 0 < k <= |s.up| && Read(c.control, s.worker.buf).More? && k <= Wanted(c.control, s.worker.buf) then
      var buf := s.worker.buf + s.up[..k];
      Finish(c, s.(up := s.up[k..]), buf, dets, trackIds)
    else s
  }

  function Finish(c: Codecs, s: Net, buf: seq<Byte>, dets: seq<Det>, trackIds: seq<int>): Net {
    match Read(c.control, buf)
    case More => s.(worker := Receiving(buf))
    case Refused => s.(worker := Gone)
    case Skipped => s.(worker := Receiving([]))
    case Complete(m) =>
      var queue := if s.queue == [] then [] else s.queue[1..];
      match m.control {
        case Detach => s.(worker := Gone, queue := queue)
        case FrameHeader(id, _, _, _) =>
          var r := FrameReply(id, dets, trackIds);
          if |c.reply.encode(r)| >= LENGTH_LIMIT then s.(worker := Gone, queue := queue)
          else s.(worker := Replying(Framed(c.reply.encode(r))), queue := queue, answer := Some(r))
        case _ => s.(worker := Receiving([]), queue := queue)
      }
  }

  function WorkerSendsStep(s: Net, k: nat): Net {
    if s.worker.Replying? && 0 < k <= |s.worker.out| then
      var out := s.worker.out[k..];
      s.(down := s.down + s.worker.out[..k], worker := if out == [] then Receiving([]) else Replying(out))
    else s
  }

  /** An action that is not possible changes nothing. */
  ghost function Step(c: Codecs, s: Net, a: Action): Net {
    match a
    case Connect => if s.phase.Down? then Net(Idle, [], Receiving([]), [], [], [], [], None, s.log) else s
    case Call(m) => CallStep(c, s, m)
    case Send(k) => SendStep(s, k)
    case SendFails => if s.phase.Writing? then s.(phase := Down) else s
    case Receive(k) => ReceiveStep(c, s, k)
    case ReceiveFails => if s.phase.Awaiting? then s.(phase := Down) else s
    case WorkerReceives(k, dets, trackIds) => WorkerReceivesStep(c, s, k, dets, trackIds)
    case WorkerSends(k) => WorkerSendsStep(s, k)
    case WorkerStops => s.(worker := Gone)
  }

  ghost function Run(c: Codecs, s: Net, actions: seq<Action>): Net {
    if actions == [] then s else Step(c, Run(c, s, actions[..|actions| - 1]), actions[|actions| - 1])
  }

  const START := Net(Down, [], Gone, [], [], [], [], None, [])

  // The invariant.

  ghost predicate AllFormed(c: Codecs, ms: seq<Message>) {
    forall m | m in ms :: Formed(c.control, m)
  }

  ghost predicate NoFrames(ms: seq<Message>) {
    forall m | m in ms :: !m.control.FrameHeader?
  }

  ghost predicate FrameLast(ms: seq<Message>, id: int) {
    && ms != []
    && ms[|ms| - 1].control.FrameHeader? && ms[|ms| - 1].control.id == id
    && NoFrames(ms[..|ms| - 1])
  }

  /** What was written is what was asked for, up to the part still to write. */
  ghost predicate WritesInOrder(c: Codecs, s: Net) {
    && AllFormed(c, s.issued)
    && if s.phase.Down? then s.sent <= EncodedAll(c.control, s.issued)
       else s.sent + Rest(s) == EncodedAll(c.control, s.issued)
  }

  /** What the worker holds, what is on its way and what is still to write are the unfinished messages. */
  ghost predicate Upstream(c: Codecs, s: Net) {
    match s.worker
    case Gone => true
    case Replying(_) => s.up == [] && Rest(s) == [] && s.queue == []
    case Receiving(buf) =>
      && AllFormed(c, s.queue)
      && buf + s.up + Rest(s) == EncodedAll(c.control, s.queue)
      && if s.queue == [] then buf == [] else |buf| < |Encoded(c.control, s.queue[0])|
  }

  /** The bytes taken for, and on their way in, the current reply. */
  function Arrived(s: Net): seq<Byte> {
    (if s.phase.Awaiting? then s.phase.got else []) + s.down
  }

  ghost predicate Answers(c: Codecs, s: Net, id: int) {
    s.answer.Some? && s.answer.value.id == id && |c.reply.encode(s.answer.value)| < LENGTH_LIMIT
  }

  function AnswerBytes(c: Codecs, s: Net): seq<Byte> {
    if s.answer.Some? then Framed(c.reply.encode(s.answer.value)) else []
  }

  /** Reply bytes exist only while a frame is awaited, and they are the reply to that frame. */
  ghost predicate Downstream(c: Codecs, s: Net) {
    match s.phase
    case Down => true
    case Idle => s.down == [] && !s.worker.Replying? && NoFrames(s.queue)
    case Writing(rest, then_) =>
      && rest != [] && s.down == [] && !s.worker.Replying?
      && if then_.Await? then FrameLast(s.queue, then_.id) else NoFrames(s.queue)
    case Awaiting(id, got) =>
      && ReadReply(got).NeedMore?
      && match s.worker
         case Receiving(_) =>
           || (FrameLast(s.queue, id) && Arrived(s) == [])
           || (s.queue == [] && Answers(c, s, id) && Arrived(s) == AnswerBytes(c, s))
         case Replying(out) => out != [] && Answers(c, s, id) && Arrived(s) + out == AnswerBytes(c, s)
         case Gone =>
           || (Arrived(s) == [] && (FrameLast(s.queue, id) || NoFrames(s.queue)))
           || (s.queue == [] && Answers(c, s, id) && Arrived(s) <= AnswerBytes(c, s))
  }

  ghost predicate RightReplies(s: Net) {
    forall i | 0 <= i < |s.log| :: s.log[i].1.id == s.log[i].0
  }

  ghost predicate Inv(c: Codecs, s: Net) {
    && WritesInOrder(c, s)
    && (!s.phase.Down? ==> Upstream(c, s) && Downstream(c, s))
    && RightReplies(s)
  }

  lemma QueueAppend(c: Codecs, queue: seq<Message>, m: Message)
    requires NoFrames(queue)
    ensures if m.control.FrameHeader? then FrameLast(queue + [m], m.control.id) else NoFrames(queue + [m])
  {
  }

  lemma FormedAppend(c: Codecs, ms: seq<Message>, m: Message)
    requires AllFormed(c, ms) && Formed(c.control, m)
    ensures AllFormed(c, ms + [m])
  {
  }

  lemma CallKeeps(c: Codecs, s: Net, m: Message)
    requires Inv(c, s)
    ensures Inv(c, CallStep(c, s, m))
  {
    if s.phase.Idle? && Formed(c.control, m) {
      var s' := CallStep(c, s, m);
      EncodedAllAppend(c.control, s.issued, m);
      FormedAppend(c, s.issued, m);
      QueueAppend(c, s.queue, m);
      if s.worker.Receiving? {
        EncodedAllAppend(c.control, s.queue, m);
        FormedAppend(c, s.queue, m);
        hide Formed, Encoded, EncodedAll, AllFormed, NoFrames, FrameLast;
        assert s.worker.buf + s.up + [] == s.worker.buf + s.up;
        assert s.queue != [] ==> s'.queue[0] == s.queue[0];
      }
    }
  }

  /** A chunk moves from the part still to write into the channel. */
  lemma SendMoves(s: Net, k: nat)
    requires s.phase.Writing? && 0 < k <= |s.phase.rest|
    ensures
      var s' := SendStep(s, k);
      && s'.up + Rest(s') == s.up + Rest(s)
      && (!s'.phase.Down? ==> s'.sent + Rest(s') == s.sent + Rest(s))
      && s'.sent <= s.sent + Rest(s)
  {
    var front, rest := s.phase.rest[..k], s.phase.rest[k..];
    assert s.phase.rest == front + rest;
    assert (s.sent + front) + rest == s.sent + s.phase.rest;
    assert (s.up + front) + rest == s.up + s.phase.rest;
  }

  lemma SendKeepsUpstream(c: Codecs, s: Net, k: nat)
    requires s.phase.Writing? && 0 < k <= |s.phase.rest| && Upstream(c, s) && !s.worker.Replying?
    ensures Upstream(c, SendStep(s, k))
  {
    hide Encoded, EncodedAll, AllFormed;
    SendMoves(s, k);
    if s.worker.Receiving? {
      var s' := SendStep(s, k);
      assert s.worker.buf + (s'.up + Rest(s')) == s.worker.buf + s'.up + Rest(s');
      assert s.worker.buf + (s.up + Rest(s)) == s.worker.buf + s.up + Rest(s);
    }
  }

  lemma SendKeepsDownstream(c: Codecs, s: Net, k: nat)
    requires s.phase.Writing? && 0 < k <= |s.phase.rest| && Downstream(c, s)
    ensures Downstream(c, SendStep(s, k))
  {
    hide NoFrames, FrameLast, AnswerBytes, Answers;
    assert ReadReply([]).NeedMore?;
  }

  lemma SendKeeps(c: Codecs, s: Net, k: nat)
    requires Inv(c, s)
    ensures Inv(c, SendStep(s, k))
  {
    if s.phase.Writing? && 0 < k <= |s.phase.rest| {
      assert !s.worker.Replying?;
      SendMoves(s, k);
      SendKeepsUpstream(c, s, k);
      SendKeepsDownstream(c, s, k);
      hide Upstream, Downstream, AllFormed, EncodedAll, Rest;
      assert s.phase.Writing? ==> !s.phase.Down?;
    }
  }

  lemma ReplyPrefix(payload: seq<Byte>, got: seq<Byte>)
    requires 0 < |payload| < LENGTH_LIMIT && got <= Framed(payload)
    ensures |got| < |Framed(payload)| && ReadReply(got).NeedMore? ==> |got| + ReadReply(got).k <= |Framed(payload)|
    ensures |got| == |Framed(payload)| ==> !ReadReply(got).NeedMore?
    ensures ReadReply(got).Whole? ==> got == Framed(payload) && ReadReply(got).payload == payload
  {
    if |got| >= 4 {
      assert Framed(payload) + [] == Framed(payload);
      FramedPrefix(payload, got, []);
    }
  }

  /** Bytes that have arrived are the first part of the answer, which is whole once the worker has sent it. */
  lemma ArrivedIsAnswer(c: Codecs, s: Net)
    requires s.phase.Awaiting? && Downstream(c, s) && s.down != []
    ensures Answers(c, s, s.phase.id) && Arrived(s) <= AnswerBytes(c, s)
    ensures s.worker.Replying? ==> |Arrived(s)| < |AnswerBytes(c, s)|
    ensures s.worker.Receiving? ==> s.queue == [] && Arrived(s) == AnswerBytes(c, s)
    ensures s.worker.Gone? ==> s.queue == []
  {
    hide ReadReply, FrameLast, NoFrames, Answers, AnswerBytes;
    assert Arrived(s) != [];
  }

  /** A part of the answer that is a whole reply is all of it. */
  lemma WholeIsAnswer(c: Codecs, r: FrameReply, got: seq<Byte>, tail: seq<Byte>)
    requires c.Faithful() && |c.reply.encode(r)| < LENGTH_LIMIT && got + tail <= Framed(c.reply.encode(r))
    requires ReadReply(got).Whole?
    ensures tail == [] && got == Framed(c.reply.encode(r))
    ensures c.reply.decode(ReadReply(got).payload) == Some(c.reply.Back(r)) && c.reply.Back(r).id == r.id
  {
    var payload := c.reply.encode(r);
    assert c.reply.decode(payload) == Some(c.reply.Back(r)) && payload != [];
    assert SameReply(r, c.reply.Back(r));
    hide Framed, ReadReply;
    assert got <= got + tail;
    ReplyPrefix(payload, got);
  }

  /** The bytes received are those of the reply being given; once it is whole, it is taken. */
  lemma ReceiveTakes(c: Codecs, s: Net, k: nat)
    requires c.Faithful() && Inv(c, s) && ReceiveStep(c, s, k) != s
    ensures s.phase.Awaiting? && Arrived(s) != [] && s.down != [] && Answers(c, s, s.phase.id) && k <= |s.down|
    ensures
      var s', got := ReceiveStep(c, s, k), s.phase.got + s.down[..k];
      match ReadReply(got)
      case Whole(_) => s'.log == s.log + [(s.phase.id, c.reply.Back(s.answer.value))] && s.down[k..] == [] && !s.worker.Replying?
      case _ => s'.log == s.log
    ensures c.reply.Back(s.answer.value).id == s.phase.id
  {
    var got, tail := s.phase.got + s.down[..k], s.down[k..];
    assert Arrived(s) == got + tail && s.down != [];
    ArrivedIsAnswer(c, s);
    var r := s.answer.value;
    assert SameReply(r, c.reply.Back(r));
    hide WritesInOrder, Upstream, Downstream, RightReplies, ReadReply, Framed, Codecs.Faithful;
    if ReadReply(got).Whole? {
      WholeIsAnswer(c, r, got, tail);
    }
  }

  lemma ReceiveKeepsUp(c: Codecs, s: Net, k: nat)
    requires WritesInOrder(c, s) && Upstream(c, s) && s.phase.Awaiting?
    ensures WritesInOrder(c, ReceiveStep(c, s, k)) && Upstream(c, ReceiveStep(c, s, k))
  {
    hide ReadReply, EncodedAll, Encoded, AllFormed;
    assert s.sent + [] == s.sent;
  }

  lemma ReceiveKeepsDown(c: Codecs, s: Net, k: nat)
    requires Downstream(c, s) && s.phase.Awaiting? && ReceiveStep(c, s, k) != s
    requires ReadReply(s.phase.got + s.down[..k]).Whole? ==> s.down[k..] == [] && !s.worker.Replying?
    ensures !ReceiveStep(c, s, k).phase.Down? ==> Downstream(c, ReceiveStep(c, s, k))
  {
    var got, tail := s.phase.got + s.down[..k], s.down[k..];
    assert s.down != [] && s.down == s.down[..k] + tail;
    assert s.phase.got + s.down == got + tail;
    ArrivedIsAnswer(c, s);
    hide ReadReply, FrameLast, Answers, AnswerBytes;
  }

  lemma ReceiveKeeps(c: Codecs, s: Net, k: nat)
    requires c.Faithful() && Inv(c, s)
    ensures Inv(c, ReceiveStep(c, s, k))
  {
    if ReceiveStep(c, s, k) != s {
      ReceiveTakes(c, s, k);
      hide WritesInOrder, Upstream, Downstream, ReadReply, Codecs.Faithful, Arrived;
      ReceiveKeepsUp(c, s, k);
      ReceiveKeepsDown(c, s, k);
    }
  }

  /** The worker's reader against the first unfinished message. */
  lemma ReadsQueueHead(c: Codecs, s: Net, k: nat, buf: seq<Byte>)
    requires c.Faithful() && s.worker.Receiving? && Upstream(c, s) && 0 < k <= |s.up|
    requires Read(c.control, s.worker.buf).More? && k <= Wanted(c.control, s.worker.buf)
    requires buf == s.worker.buf + s.up[..k]
    ensures s.queue != [] && buf <= Encoded(c.control, s.queue[0])
    ensures |buf| < |Encoded(c.control, s.queue[0])| ==> Read(c.control, buf).More? || Read(c.control, buf).Refused?
    ensures |buf| == |Encoded(c.control, s.queue[0])| ==> Read(c.control, buf) == Complete(Delivered(c.control, s.queue[0])) || Read(c.control, buf).Refused?
  {
    var m := s.queue[0];
    var e := Encoded(c.control, m);
    var all := EncodedAll(c.control, s.queue);
    assert all == e + EncodedAll(c.control, s.queue[1..]);
    assert s.worker.buf <= all && buf <= all;
    assert s.worker.buf <= e;
    if |m.body| > MAX_BODY_BYTES {
      ReadOversized(c.control, m, s.worker.buf);
      assert buf <= e;
      ReadOversized(c.control, m, buf);
    } else {
      ReadPrefix(c.control, m, s.worker.buf);
      assert buf <= e;
      ReadPrefix(c.control, m, buf);
    }
  }

  lemma QueueTail(c: Codecs, queue: seq<Message>, id: int)
    requires queue != []
    ensures AllFormed(c, queue) ==> AllFormed(c, queue[1..])
    ensures NoFrames(queue) ==> NoFrames(queue[1..]) && !queue[0].control.FrameHeader?
    ensures FrameLast(queue, id) && |queue| > 1 ==> FrameLast(queue[1..], id) && !queue[0].control.FrameHeader?
  {
  }

  /** The id the client is waiting for, or about to wait for. */
  function WaitingFor(s: Net): int {
    match s.phase
    case Awaiting(id, _) => id
    case Writing(_, Await(id)) => id
    case _ => 0
  }

  /** Partial message: only the place of some bytes changes. */
  lemma MoreKeeps(c: Codecs, s: Net, k: nat)
    requires Inv(c, s) && !s.phase.Down? && s.worker.Receiving? && 0 < k <= |s.up| && s.queue != []
    requires k + |s.worker.buf| < |Encoded(c.control, s.queue[0])|
    ensures Inv(c, s.(up := s.up[k..], worker := Receiving(s.worker.buf + s.up[..k])))
  {
    assert (s.worker.buf + s.up[..k]) + s.up[k..] + Rest(s) == s.worker.buf + s.up + Rest(s);
  }

  lemma RefusedKeeps(c: Codecs, s: Net, k: nat)
    requires Inv(c, s) && k <= |s.up| && s.worker.Receiving?
    ensures Inv(c, s.(up := s.up[k..], worker := Gone))
  {
  }

  lemma HeadDone(c: Codecs, s: Net, k: nat)
    requires !s.phase.Down? && s.worker.Receiving? && Upstream(c, s) && 0 < k <= |s.up| && s.queue != []
    requires s.worker.buf + s.up[..k] == Encoded(c.control, s.queue[0])
    ensures s.up[k..] + Rest(s) == EncodedAll(c.control, s.queue[1..])
  {
    var e := Encoded(c.control, s.queue[0]);
    assert e + (s.up[k..] + Rest(s)) == s.worker.buf + s.up + Rest(s);
    assert e + (s.up[k..] + Rest(s)) == e + EncodedAll(c.control, s.queue[1..]);
    assert (e + (s.up[k..] + Rest(s)))[|e|..] == s.up[k..] + Rest(s);
    assert (e + EncodedAll(c.control, s.queue[1..]))[|e|..] == EncodedAll(c.control, s.queue[1..]);
  }

  /** A whole control message: no answer. */
  lemma ControlKeeps(c: Codecs, s: Net, k: nat)
    requires Inv(c, s) && !s.phase.Down? && s.worker.Receiving? && 0 < k <= |s.up| && s.queue != []
    requires s.worker.buf + s.up[..k] == Encoded(c.control, s.queue[0])
    requires !s.queue[0].control.FrameHeader?
    ensures Inv(c, s.(up := s.up[k..], worker := Receiving([]), queue := s.queue[1..]))
  {
    HeadDone(c, s, k);
    QueueTail(c, s.queue, WaitingFor(s));
    hide EncodedAll, Encoded, Formed, ReadReply;
    assert [] + s.up[k..] + Rest(s) == s.up[k..] + Rest(s);
  }

  /** A whole frame: it is the one the client awaits, nothing follows it, and its answer carries its id. */
  lemma FrameKeeps(c: Codecs, s: Net, k: nat, dets: seq<Det>, trackIds: seq<int>)
    requires Inv(c, s) && !s.phase.Down? && s.worker.Receiving? && 0 < k <= |s.up| && s.queue != []
    requires s.worker.buf + s.up[..k] == Encoded(c.control, s.queue[0])
    requires s.queue[0].control.FrameHeader?
    ensures
      var r := FrameReply(s.queue[0].control.id, dets, trackIds);
      |c.reply.encode(r)| < LENGTH_LIMIT ==>
        Inv(c, s.(up := s.up[k..], worker := Replying(Framed(c.reply.encode(r))), queue := s.queue[1..], answer := Some(r)))
  {
    HeadDone(c, s, k);
    QueueTail(c, s.queue, WaitingFor(s));
    assert EncodedAll(c.control, []) == [];
    assert s.phase.Awaiting? && s.queue[1..] == [] && FrameLast(s.queue, s.phase.id);
    assert s.up[k..] == [];
  }

  /** A message was the last thing the worker did. */
  lemma GoneKeeps(c: Codecs, s: Net, k: nat)
    requires Inv(c, s) && !s.phase.Down? && s.worker.Receiving? && 0 < k <= |s.up| && s.queue != []
    requires s.worker.buf + s.up[..k] == Encoded(c.control, s.queue[0])
    ensures Inv(c, s.(up := s.up[k..], worker := Gone, queue := s.queue[1..]))
  {
    HeadDone(c, s, k);
    QueueTail(c, s.queue, WaitingFor(s));
    hide Encoded, Formed, ReadReply;
    assert EncodedAll(c.control, []) == [];
  }

  lemma WorkerReceivesKeeps(c: Codecs, s: Net, k: nat, dets: seq<Det>, trackIds: seq<int>)
    requires c.Faithful() && Inv(c, s)
    ensures Inv(c, WorkerReceivesStep(c, s, k, dets, trackIds))
  {
    var s' := WorkerReceivesStep(c, s, k, dets, trackIds);
    if s' != s && !s.phase.Down? {
      var buf := s.worker.buf + s.up[..k];
      ReadsQueueHead(c, s, k, buf);
      var m := s.queue[0];
      assert SameControl(m.control, c.control.Back(m.control));
      assert s' == Finish(c, s.(up := s.up[k..]), buf, dets, trackIds);
      hide Inv, Upstream, Downstream, WritesInOrder, Read, Wanted, WorkerReceivesStep;
      match Read(c.control, buf) {
        case More => MoreKeeps(c, s, k);
        case Refused => RefusedKeeps(c, s, k);
        case Complete(_) =>
          if m.control.FrameHeader? {
            FrameKeeps(c, s, k, dets, trackIds);
          } else {
            ControlKeeps(c, s, k);
          }
          GoneKeeps(c, s, k);
      }
    }
  }

  lemma WorkerSendsKeeps(c: Codecs, s: Net, k: nat)
    requires Inv(c, s)
    ensures Inv(c, WorkerSendsStep(s, k))
  {
    if WorkerSendsStep(s, k) != s && !s.phase.Down? {
      SendsKeepsUp(c, s, k);
      SendsKeepsDown(c, s, k);
      hide WritesInOrder, Upstream, Downstream;
    }
  }

  lemma SendsKeepsUp(c: Codecs, s: Net, k: nat)
    requires WritesInOrder(c, s) && Upstream(c, s)
    ensures WritesInOrder(c, WorkerSendsStep(s, k)) && Upstream(c, WorkerSendsStep(s, k))
  {
    hide Encoded, Formed;
    var s' := WorkerSendsStep(s, k);
    assert EncodedAll(c.control, []) == [];
    if s'.worker.Receiving? && s.worker.Replying? {
      assert s'.worker.buf + s'.up + Rest(s') == [];
      assert AllFormed(c, s'.queue);
    }
  }

  lemma SendsKeepsDown(c: Codecs, s: Net, k: nat)
    requires Downstream(c, s) && Upstream(c, s) && !s.phase.Down? && WorkerSendsStep(s, k) != s
    ensures Downstream(c, WorkerSendsStep(s, k))
  {
    hide EncodedAll, Encoded, AllFormed, FrameLast, NoFrames, ReadReply, Framed;
    var s', out := WorkerSendsStep(s, k), s.worker.out;
    assert s.phase.Awaiting? && AnswerBytes(c, s') == AnswerBytes(c, s) == Arrived(s) + out;
    assert out == out[..k] + out[k..];
    assert Arrived(s') == Arrived(s) + out[..k];
    assert Arrived(s') + out[k..] == Arrived(s) + out;
  }

  lemma StopKeeps(c: Codecs, s: Net)
    requires Inv(c, s)
    ensures Inv(c, s.(worker := Gone))
  {
  }

  lemma StepKeeps(c: Codecs, s: Net, a: Action)
    requires c.Faithful() && Inv(c, s)
    ensures Inv(c, Step(c, s, a))
  {
    match a
    case Connect =>
      assert EncodedAll(c.control, []) == [];
    case Call(m) => CallKeeps(c, s, m);
    case Send(k) => SendKeeps(c, s, k);
    case SendFails =>
    case Receive(k) => ReceiveKeeps(c, s, k);
    case ReceiveFails =>
    case WorkerReceives(k, dets, trackIds) => WorkerReceivesKeeps(c, s, k, dets, trackIds);
    case WorkerSends(k) => WorkerSendsKeeps(c, s, k);
    case WorkerStops => StopKeeps(c, s);
  }

  lemma {:induction false} RunKeeps(c: Codecs, actions: seq<Action>)
    requires c.Faithful()
    ensures Inv(c, Run(c, START, actions))
    decreases |actions|
  {
    if actions == [] {
      assert EncodedAll(c.control, []) == [];
    } else {
      RunKeeps(c, actions[..|actions| - 1]);
      StepKeeps(c, Run(c, START, actions[..|actions| - 1]), actions[|actions| - 1]);
    }
  }

  /** In every run each reply taken carries the id of the frame just sent. */
  lemma EveryReplyMatchesItsFrame(c: Codecs, actions: seq<Action>)
    requires c.Faithful()
    ensures
      var log := Run(c, START, actions).log;
      forall i | 0 <= i < |log| :: log[i].1.id == log[i].0
  {
    RunKeeps(c, actions);
  }

  lemma {:induction false} NoFramesCount(ms: seq<Message>)
    requires NoFrames(ms)
    ensures FrameCount(ms) == 0
    decreases |ms|
  {
    if ms == [] {
    } else {
      NoFramesCount(ms[..|ms| - 1]);
      assert ms[|ms| - 1] in ms;
    }
  }

  /** In every run, whatever has become of the worker, at most one frame of an open connection is unanswered, and
      reply bytes exist only while the client awaits one: attach, config and detach are never answered. */
  lemma OneFrameOutstanding(c: Codecs, actions: seq<Action>)
    requires c.Faithful()
    ensures
      var s := Run(c, START, actions);
      && (!s.phase.Down? ==>
            FrameCount(s.queue) + (if s.worker.Replying? || s.down != [] then 1 else 0) <= 1)
      && (!s.phase.Down? && (s.worker.Replying? || s.down != []) ==> s.phase.Awaiting?)
  {
    RunKeeps(c, actions);
    var s := Run(c, START, actions);
    if !s.phase.Down? {
      if NoFrames(s.queue) {
        NoFramesCount(s.queue);
      } else {
        NoFramesCount(s.queue[..|s.queue| - 1]);
      }
    }
  }

  /** In every run, what a connection has been given is a prefix of whole messages, one after the other:
      a message cut short by a failure is the last thing ever written on it. */
  lemma WritesAreWholeMessages(c: Codecs, actions: seq<Action>)
    requires c.Faithful()
    ensures
      var s := Run(c, START, actions);
      && AllFormed(c, s.issued)
      && s.sent <= EncodedAll(c.control, s.issued)
      && (s.phase.Idle? || s.phase.Awaiting? ==> s.sent == EncodedAll(c.control, s.issued))
  {
    RunKeeps(c, actions);
  }

  lemma {:induction false} GoneStaysGone(c: Codecs, s: Net, actions: seq<Action>)
    requires s.worker.Gone? && forall a | a in actions :: !a.Connect?
    ensures Run(c, s, actions).worker.Gone?
    decreases |actions|
  {
    hide Finish, ReadReply;
    if actions == [] {
    } else {
      var n := |actions| - 1;
      assert actions[n] in actions && forall a | a in actions[..n] :: a in actions;
      GoneStaysGone(c, s, actions[..n]);
    }
  }

  /** A worker that has received the goodbye in full does nothing more on this connection, whatever follows it. */
  lemma GoodbyeIsTheEnd(c: Codecs, s: Net, k: nat, dets: seq<Det>, trackIds: seq<int>, actions: seq<Action>)
    requires c.Faithful() && s.worker.Receiving? && 0 < k <= |s.up|
    requires Read(c.control, s.worker.buf).More? && k <= Wanted(c.control, s.worker.buf)
    requires s.worker.buf + s.up[..k] == Encoded(c.control, Message(Detach, [])) && Accepted(c.control, Message(Detach, []))
    requires forall a | a in actions :: !a.Connect?
    ensures Run(c, Step(c, s, WorkerReceives(k, dets, trackIds)), actions).worker.Gone?
  {
    var m := Message(Detach, []);
    ReadPrefix(c.control, m, s.worker.buf + s.up[..k]);
    assert SameControl(Detach, c.control.Back(Detach));
    var s' := Step(c, s, WorkerReceives(k, dets, trackIds));
    assert s'.worker.Gone? by {
      hide Read, Wanted, Encoded, Accepted;
    }
    hide *;
    GoneStaysGone(c, s', actions);
  }
}
