/** Each call of the camera's client, as its contract describes it, is a run of the client of the two-sided model. */
module ClientRuns {
  import opened Options
  import opened Messages
  import opened Framing
  import opened Lockstep

  lemma RunOne(c: Codecs, s: Net, actions: seq<Action>, a: Action)
    ensures Run(c, s, actions + [a]) == Step(c, Run(c, s, actions), a)
  {
    assert (actions + [a])[..|actions|] == actions;
    hide Step;
  }

  lemma RunTwo(c: Codecs, s: Net, a: Action, b: Action)
    ensures Run(c, s, [a, b]) == Step(c, Step(c, s, a), b)
  {
    RunOne(c, s, [], a);
    RunOne(c, s, [a], b);
    assert [] + [a] == [a] && [a] + [b] == [a, b];
    hide Step;
  }

  /** The client awaits the reply to a frame, hangs up after a goodbye, and is idle after anything else. */
  function Afterwards(c: Control): Phase {
    match c
    case FrameHeader(id, _, _, _) => Awaiting(id, [])
    case Detach => Down
    case _ => Idle
  }

  /** A message written in full: the client has issued it, and waits, returns or hangs up as its kind asks. */
  lemma WriteIsARun(c: Codecs, s: Net, m: Message)
    requires s.phase.Idle? && Formed(c.control, m)
    ensures
      var e := Encoded(c.control, m);
      Run(c, s, [Call(m), Send(|e|)]) ==
      s.(phase := Afterwards(m.control), issued := s.issued + [m], queue := s.queue + [m], sent := s.sent + e, up := s.up + e)
  {
    var e := Encoded(c.control, m);
    RunTwo(c, s, Call(m), Send(|e|));
    assert e[..|e|] == e;
    hide Run, Formed, Encoded;
  }

  /** A message cut by a failure: the connection is gone after a first part of it. */
  lemma CutIsARun(c: Codecs, s: Net, m: Message, n: nat)
    requires s.phase.Idle? && Formed(c.control, m) && n < |Encoded(c.control, m)|
    ensures
      var part := Encoded(c.control, m)[..n];
      Run(c, s, (if n == 0 then [Call(m)] else [Call(m), Send(n)]) + [SendFails]) ==
      s.(phase := Down, issued := s.issued + [m], queue := s.queue + [m], sent := s.sent + part, up := s.up + part)
  {
    var e := Encoded(c.control, m);
    var actions := if n == 0 then [Call(m)] else [Call(m), Send(n)];
    RunOne(c, s, actions, SendFails);
    RunOne(c, s, [], Call(m));
    assert [] + [Call(m)] == [Call(m)];
    RunTwo(c, s, Call(m), Send(n));
    assert s.sent + [] == s.sent && s.up + [] == s.up;
    hide Run, Formed, Encoded;
  }

  lemma HeaderFirst(payload: seq<Byte>)
    requires 0 < |payload| <= 67_108_864
    ensures ReadReply([]) == NeedMore(4) && ReadReply(Framed(payload)[..4]) == NeedMore(|payload|)
    ensures ReadReply(Framed(payload)) == Whole(payload)
  {
    var f := Framed(payload);
    assert f + [] == f;
    FramedPrefix(payload, f[..4], []);
    FramedPrefix(payload, f, []);
    assert f[..4][..4] == f[..4];
  }

  /** A reply read in full is taken, if it is one, and the bytes behind it stay where they are. */
  lemma ReadIsARun(c: Codecs, s: Net, id: int, payload: seq<Byte>, rest: seq<Byte>)
    requires s.phase == Awaiting(id, []) && 0 < |payload| <= 67_108_864 && s.down == Framed(payload) + rest
    ensures
      var r := c.reply.decode(payload);
      Run(c, s, [Receive(4), Receive(|payload|)]) ==
      s.(phase := Idle, down := rest, log := if r.Some? then s.log + [(id, r.value)] else s.log)
  {
    var f := Framed(payload);
    RunTwo(c, s, Receive(4), Receive(|payload|));
    HeaderFirst(payload);
    assert [] + s.down[..4] == f[..4];
    var s1 := s.(phase := Awaiting(id, f[..4]), down := s.down[4..]);
    assert Step(c, s, Receive(4)) == s1;
    assert f[..4] + s1.down[..|payload|] == f && s1.down[|payload|..] == rest;
    hide Run, ReadReply, Framed;
  }

  /** A reply that does not come, or not in full, costs the connection. */
  lemma LostReplyIsARun(c: Codecs, s: Net, id: int, payload: seq<Byte>, n: nat)
    requires s.phase == Awaiting(id, []) && 0 < |payload| <= 67_108_864
    requires 0 < n <= 4 && s.down == Framed(payload)[..n]
    ensures Run(c, s, [Receive(n), ReceiveFails]) == s.(phase := Down, down := [])
  {
    RunTwo(c, s, Receive(n), ReceiveFails);
    HeaderFirst(payload);
    assert s.down[n..] == [] && [] + s.down[..n] == s.down;
    if n == 4 {
      assert s.down == Framed(payload)[..4];
    }
    hide Run, Framed;
  }

  /** So does a reply announced as empty or as longer than 64 MiB. */
  lemma BadReplyIsARun(c: Codecs, s: Net, id: int)
    requires s.phase == Awaiting(id, []) && |s.down| >= 4
    requires FromBigEndian(s.down[..4]) == 0 || FromBigEndian(s.down[..4]) > 67_108_864
    ensures Run(c, s, [Receive(4)]) == s.(phase := Down, down := s.down[4..])
  {
    RunOne(c, s, [], Receive(4));
    assert [] + [Receive(4)] == [Receive(4)] && [] + s.down[..4] == s.down[..4];
    assert s.down[..4][..4] == s.down[..4];
  }
}
