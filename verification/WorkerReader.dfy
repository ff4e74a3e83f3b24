/** The worker's receiving side: exact reads over a socket that hands out chunks as it likes. */
module WorkerReader {
  import opened Options
  import opened Messages
  import opened Framing

  /** `pending` is everything the peer will have sent before it closes. */
  class Socket {
    var pending: seq<Byte>

    constructor (stream: seq<Byte>)
      ensures pending == stream
    {
      pending := stream;
    }

    /** At least one byte and at most n, how many is not ours to say; none once the peer has closed. */
    method Recv(n: nat) returns (chunk: seq<Byte>)
      requires n > 0
      modifies this
      ensures |chunk| <= n && chunk + pending == old(pending)
      ensures chunk == [] <==> old(pending) == []
    {
      if pending == [] {
        return [];
      }
      var k: nat :| 1 <= k <= n && k <= |pending|;
      chunk := pending[..k];
      pending := pending[k..];
    }
  }

  /** All n bytes, or nothing when the stream ends first. */
  method RecvExact(sock: Socket, n: nat) returns (data: seq<Byte>)
    modifies sock
    ensures n <= |old(sock.pending)| ==> data == old(sock.pending)[..n] && sock.pending == old(sock.pending)[n..]
    ensures n > |old(sock.pending)| ==> data == []
  {
    var remaining := n;
    data := [];
    while remaining > 0
      invariant remaining == n - |data| && |data| <= n
      invariant data + sock.pending == old(sock.pending)
    {
      var chunk := sock.Recv(remaining);
      if chunk == [] {
        return [];
      }
      assert data + (chunk + sock.pending) == (data + chunk) + sock.pending;
      data := data + chunk;
      remaining := remaining - |chunk|;
    }
  }

  /** The reader has read exactly when the first k bytes say so and no fewer do. */
  lemma {:induction false} ReadLengthIs(codec: Codec<Control>, s: seq<Byte>, from: nat, n: nat)
    requires from <= n <= |s|
    requires forall k | from <= k < n :: Read(codec, s[..k]).More?
    requires n == |s| || !Read(codec, s[..n]).More?
    ensures ReadLength(codec, s, from) == n
    decreases n - from
  {
    if from < n {
      ReadLengthIs(codec, s, from + 1, n);
    }
  }

  /** One round of the reading loop; the end of the stream counts as a refusal. */
  function NextOf(codec: Codec<Control>, s: seq<Byte>): Progress {
    var p := Read(codec, s[..ReadLength(codec, s, 0)]);
    if p.More? then Refused else p
  }

  /** The same round as the code takes it: header, payload, body; with the number of bytes used up. */
  function Round(codec: Codec<Control>, s: seq<Byte>): (r: (Progress, nat))
    ensures r.1 <= |s|
    ensures r.0.Complete? || r.0.Skipped? ==> r.1 > 0
    ensures !r.0.More?
  {
    if |s| < 4 then (Refused, |s|)
    else
      var n := FromBigEndian(s[..4]);
      if n == 0 || n > MAX_JSON_BYTES then (Refused, 4)
      else if |s| < 4 + n then (Refused, |s|)
      else
        match codec.decode(s[4..4 + n])
        case None => (Skipped, 4 + n)
        case Some(FrameHeader(id, w, h, stride)) =>
          var size := h * stride;
          if size <= 0 || size > MAX_BODY_BYTES then (Refused, 4 + n)
          else if |s| < 4 + n + size then (Refused, |s|)
          else (Complete(Message(FrameHeader(id, w, h, stride), s[4 + n..4 + n + size])), 4 + n + size)
        case Some(c) => (Complete(Message(c, [])), 4 + n)
  }

  lemma RoundAtPrefix(codec: Codec<Control>, s: seq<Byte>, k: nat)
    requires k <= |s|
    ensures k < Round(codec, s).1 ==> Read(codec, s[..k]).More?
    ensures k == Round(codec, s).1 ==>
      Read(codec, s[..k]) == Round(codec, s).0 || (k == |s| && Round(codec, s).0.Refused? && Read(codec, s[..k]).More?)
  {
    hide FromBigEndian;
    if k >= 4 {
      assert s[..k][..4] == s[..4];
      var n := FromBigEndian(s[..4]);
      if k >= 4 + n && 0 < n <= MAX_JSON_BYTES {
        assert s[..k][4..4 + n] == s[4..4 + n];
        var c := codec.decode(s[4..4 + n]);
        if c.Some? && c.value.FrameHeader? {
          BodyAtPrefix(s, k, 4 + n, c.value.h * c.value.stride);
        }
      }
    }
  }

  lemma BodyAtPrefix(s: seq<Byte>, k: nat, start: nat, size: int)
    requires start <= k <= |s|
    ensures 0 < size && start + size <= k ==> s[..k][start..start + size] == s[start..start + size]
  {
  }

  /** Reading header, payload and body in turn stops where the reader first has enough. */
  lemma RoundIsNext(codec: Codec<Control>, s: seq<Byte>)
    ensures ReadLength(codec, s, 0) == Round(codec, s).1
    ensures NextOf(codec, s) == Round(codec, s).0
  {
    hide Read, Round;
    var n := Round(codec, s).1;
    forall k: nat | k <= |s|
      ensures k < n ==> Read(codec, s[..k]).More?
    {
      RoundAtPrefix(codec, s, k);
    }
    RoundAtPrefix(codec, s, n);
    ReadLengthIs(codec, s, 0, n);
  }

  /** A message ends, for the reader, where the client ended it: on every continuation if and only if the client sent as
      many pixels as it announced. */
  lemma BodySizeMatters(codec: Codec<Control>, m: Message)
    requires Faithful(codec) && Written(codec, m) && m.control.FrameHeader?
    requires 0 < m.control.h * m.control.stride <= MAX_BODY_BYTES
    ensures (forall rest :: ReadLength(codec, Encoded(codec, m) + rest, 0) == |Encoded(codec, m)|)
            <==> |m.body| == m.control.h * m.control.stride
  {
    var e, size := Encoded(codec, m), m.control.h * m.control.stride;
    if |m.body| == size {
      forall rest
        ensures ReadLength(codec, e + rest, 0) == |e|
      {
        ReadLengthOf(codec, m, rest, 0);
      }
    } else {
      var rest := seq(size, _ => 0 as Byte);
      ReadsAnnounced(codec, m, rest);
    }
  }

  /** The reader takes as many pixels as are announced, if there are that many bytes. */
  lemma ReadsAnnounced(codec: Codec<Control>, m: Message, rest: seq<Byte>)
    requires Faithful(codec) && Written(codec, m) && m.control.FrameHeader?
    requires 0 < m.control.h * m.control.stride <= MAX_BODY_BYTES && |rest| >= m.control.h * m.control.stride
    ensures ReadLength(codec, Encoded(codec, m) + rest, 0) == 4 + |codec.encode(m.control)| + m.control.h * m.control.stride
  {
    var payload := codec.encode(m.control);
    var s := Encoded(codec, m) + rest;
    assert codec.decode(payload) == Some(codec.Back(m.control)) && payload != [];
    assert SameControl(m.control, codec.Back(m.control));
    assert |payload| <= MAX_JSON_BYTES;
    hide *;
    EncodedThen(codec, m, rest);
    FramedPrefix(payload, s, m.body + rest);
    RoundTakes(codec, s, m.control, |payload|);
    RoundIsNext(codec, s);
  }

  lemma EncodedThen(codec: Codec<Control>, m: Message, rest: seq<Byte>)
    ensures Encoded(codec, m) + rest == Framed(codec.encode(m.control)) + (m.body + rest)
  {
    hide Framed;
  }

  lemma RoundTakes(codec: Codec<Control>, s: seq<Byte>, c: Control, n: nat)
    requires c.FrameHeader? && 0 < c.h * c.stride <= MAX_BODY_BYTES
    requires 0 < n <= MAX_JSON_BYTES && |s| >= 4 + n + c.h * c.stride
    requires FromBigEndian(s[..4]) == n && codec.decode(s[4..4 + n]) == Some(c)
    ensures Round(codec, s).1 == 4 + n + c.h * c.stride
  {
    hide FromBigEndian;
  }

  method ReadNext(sock: Socket, codec: Codec<Control>) returns (p: Progress)
    modifies sock
    ensures p == NextOf(codec, old(sock.pending))
    ensures p.Complete? || p.Skipped? ==>
      sock.pending == old(sock.pending)[ReadLength(codec, old(sock.pending), 0)..]
      && |sock.pending| < |old(sock.pending)|
  {
    hide NextOf, ReadLength;
    RoundIsNext(codec, sock.pending);
    p := ReadRound(sock, codec);
  }

  method ReadRound(sock: Socket, codec: Codec<Control>) returns (p: Progress)
    modifies sock
    ensures p == Round(codec, old(sock.pending)).0
    ensures p.Complete? || p.Skipped? ==> sock.pending == old(sock.pending)[Round(codec, old(sock.pending)).1..]
  {
    ghost var s := sock.pending;
    var hdr := RecvExact(sock, 4);
    if |hdr| < 4 {
      return Refused;
    }
    var length := FromBigEndian(hdr);
    if length == 0 || length > MAX_JSON_BYTES {
      return Refused;
    }
    var payload := RecvExact(sock, length);
    if |payload| < length {
      return Refused;
    }
    assert payload == s[4..4 + length] && sock.pending == s[4 + length..];
    var c := codec.decode(payload);
    if c.None? {
      return Skipped;
    }
    if !c.value.FrameHeader? {
      return Complete(Message(c.value, []));
    }
    var bodySize := c.value.h * c.value.stride;
    if bodySize <= 0 || bodySize > MAX_BODY_BYTES {
      return Refused;
    }
    var body := RecvExact(sock, bodySize);
    if |body| < bodySize {
      return Refused;
    }
    assert body == s[4 + length..4 + length + bodySize] && sock.pending == s[4 + length + bodySize..];
    return Complete(Message(c.value, body));
  }

  lemma ReadAllUnfolds(codec: Codec<Control>, s: seq<Byte>)
    ensures ReadAll(codec, s) ==
      match NextOf(codec, s)
      case Complete(m) => [m] + (if m.control.Detach? then [] else ReadAll(codec, s[ReadLength(codec, s, 0)..]))
      case Skipped => ReadAll(codec, s[ReadLength(codec, s, 0)..])
      case _ => []
  {
  }

  /** The reading loop of one connection: the messages handled, in order, whatever the chunks were. */
  method ReadMessages(sock: Socket, codec: Codec<Control>) returns (ms: seq<Message>)
    modifies sock
    ensures ms == ReadAll(codec, old(sock.pending))
  {
    hide NextOf, ReadLength, ReadAll;
    ms := [];
    ghost var all := ReadAll(codec, sock.pending);
    while true
      invariant all == ms + ReadAll(codec, sock.pending)
      decreases |sock.pending|
    {
      ReadAllUnfolds(codec, sock.pending);
      ghost var before := ms;
      var p := ReadNext(sock, codec);
      match p {
        case Complete(m) =>
          ms := ms + [m];
          if m.control.Detach? {
            return;
          }
          assert before + ([m] + ReadAll(codec, sock.pending)) == ms + ReadAll(codec, sock.pending);
        case Skipped =>
        case _ =>
          return;
      }
    }
  }
}
