/** Length-prefixed JSON with unframed frame bodies, as bytes. */
module Framing {
  import opened Options
  import opened Messages

  const MAX_JSON_BYTES: nat := 64 * 1024 * 1024
  const MAX_BODY_BYTES: nat := 128 * 1024 * 1024
  const LENGTH_LIMIT: nat := 0x1_0000_0000

  /** JSON text, as far as the wire is concerned. */
  datatype Codec<!T(!new)> = Codec(encode: T -> seq<Byte>, decode: seq<Byte> -> Option<T>) {
    /** What comes of t at the other end. */
    function Back(t: T): T {
      match decode(encode(t))
      case Some(u) => u
      case None => t
    }

    /** The text of every value can be read, and it is not empty. */
    ghost predicate Readable() {
      forall t :: encode(t) != [] && decode(encode(t)).Some?
    }
  }

  /** Text brings a message back up to its real numbers, of which it keeps as many digits as it likes. */
  ghost predicate Faithful(codec: Codec<Control>) {
    codec.Readable() && forall c :: SameControl(c, codec.Back(c))
  }

  ghost predicate FaithfulReply(codec: Codec<FrameReply>) {
    codec.Readable() && forall r :: SameReply(r, codec.Back(r))
  }

  /** What arrives of a message. */
  function Delivered(codec: Codec<Control>, m: Message): Message {
    Message(codec.Back(m.control), m.body)
  }

  function DeliveredAll(codec: Codec<Control>, ms: seq<Message>): (r: seq<Message>)
    ensures |r| == |ms| && forall i | 0 <= i < |ms| :: r[i] == Delivered(codec, ms[i])
  {
    seq(|ms|, i requires 0 <= i < |ms| => Delivered(codec, ms[i]))
  }

  // Four bytes, most significant first.

  /** The low 32 bits of n. */
  function BigEndian(n: nat): (r: seq<Byte>)
    ensures |r| == 4
  {
    [n / 0x100_0000 % 0x100, n / 0x1_0000 % 0x100, n / 0x100 % 0x100, n % 0x100]
  }

  function FromBigEndian(b: seq<Byte>): (n: nat)
    requires |b| == 4
    ensures n < LENGTH_LIMIT
  {
    var b0: int, b1: int, b2: int, b3: int := b[0], b[1], b[2], b[3];
    ((b0 * 0x100 + b1) * 0x100 + b2) * 0x100 + b3
  }

  lemma BigEndianInverse(n: nat)
    requires n < 4_294_967_296
    ensures FromBigEndian(BigEndian(n)) == n
  {
    var n1 := n / 0x100;
    var n2 := n1 / 0x100;
    assert n / 0x1_0000 == n2 && n / 0x100_0000 == n2 / 0x100;
    assert n == n1 * 0x100 + n % 0x100;
  }

  lemma MostSignificantFirst(b: seq<Byte>)
    requires |b| == 4
    ensures FromBigEndian(b) == b[0] as int * 16_777_216 + b[1] as int * 65_536 + b[2] as int * 256 + b[3] as int
  {
  }

  function Framed(payload: seq<Byte>): (r: seq<Byte>)
    ensures |r| == 4 + |payload|
  {
    BigEndian(|payload|) + payload
  }

  /** What the client writes as one message: a control part that is not too long, and pixels after a frame header only. */
  ghost predicate Written(codec: Codec<Control>, m: Message) {
    |codec.encode(m.control)| <= 67_108_864 && (m.control.FrameHeader? || m.body == [])
  }

  /** And the pixels are as many as the header announces. */
  ghost predicate Formed(codec: Codec<Control>, m: Message) {
    Written(codec, m) && (m.control.FrameHeader? ==> |m.body| == m.control.h * m.control.stride && m.body != [])
  }

  /** And what the worker does not refuse for its size. */
  ghost predicate Accepted(codec: Codec<Control>, m: Message) {
    Formed(codec, m) && |m.body| <= 134_217_728
  }

  function Encoded(codec: Codec<Control>, m: Message): (r: seq<Byte>)
    ensures |r| >= 4
  {
    Framed(codec.encode(m.control)) + m.body
  }

  function EncodedAll(codec: Codec<Control>, ms: seq<Message>): seq<Byte> {
    if ms == [] then [] else Encoded(codec, ms[0]) + EncodedAll(codec, ms[1..])
  }

  lemma {:induction false} EncodedAllAppend(codec: Codec<Control>, ms: seq<Message>, m: Message)
    ensures EncodedAll(codec, ms + [m]) == EncodedAll(codec, ms) + Encoded(codec, m)
    decreases |ms|
  {
    if ms == [] {
      assert ms + [m] == [m];
      assert EncodedAll(codec, [m]) == Encoded(codec, m) + EncodedAll(codec, []);
    } else {
      assert (ms + [m])[1..] == ms[1..] + [m];
      EncodedAllAppend(codec, ms[1..], m);
    }
  }

  function FrameCount(ms: seq<Message>): nat {
    if ms == [] then 0 else FrameCount(ms[..|ms| - 1]) + if ms[|ms| - 1].control.FrameHeader? then 1 else 0
  }

  // The worker's reader, over the bytes at hand.

  /** The state of the reading loop after some bytes of one message. */
  datatype Progress =
    | More                              // keep receiving
    | Refused                           // drop the client
    | Skipped                           // not JSON: go on with the next message
    | Complete(message: Message)

  function Read(codec: Codec<Control>, buf: seq<Byte>): Progress {
    if |buf| < 4 then More
    else
      var n := FromBigEndian(buf[..4]);
      if n == 0 || n > MAX_JSON_BYTES then Refused
      else if |buf| < 4 + n then More
      else
        match codec.decode(buf[4..4 + n])
        case None => Skipped
        case Some(FrameHeader(id, w, h, stride)) =>
          var size := h * stride;
          if size <= 0 || size > MAX_BODY_BYTES then Refused
          else if |buf| < 4 + n + size then More
          else Complete(Message(FrameHeader(id, w, h, stride), buf[4 + n..4 + n + size]))
        case Some(c) => Complete(Message(c, []))
  }

  /** How many bytes the reader asks for next. */
  function Wanted(codec: Codec<Control>, buf: seq<Byte>): (k: int)
    requires Read(codec, buf).More?
    ensures k >= 1
  {
    if |buf| < 4 then 4 - |buf|
    else
      var n := FromBigEndian(buf[..4]);
      if |buf| < 4 + n then 4 + n - |buf|
      else
        var c := codec.decode(buf[4..4 + n]).value;
        4 + n + c.h * c.stride - |buf|
  }

  lemma FramedPrefix(payload: seq<Byte>, buf: seq<Byte>, tail: seq<Byte>)
    requires |payload| < LENGTH_LIMIT && |buf| >= 4
    requires buf <= Framed(payload) + tail
    ensures FromBigEndian(buf[..4]) == |payload|
    ensures |buf| >= 4 + |payload| ==> buf[4..4 + |payload|] == payload
    ensures buf == Framed(payload) + tail ==> buf[4 + |payload|..] == tail
  {
    var full := Framed(payload) + tail;
    assert buf[..4] == full[..4] == BigEndian(|payload|);
    BigEndianInverse(|payload|);
    assert full[4..4 + |payload|] == payload;
    if |buf| >= 4 + |payload| {
      assert buf[4..4 + |payload|] == full[4..4 + |payload|];
    }
  }

  /** Part of an accepted message: the reader wants more of it and not a byte beyond; the whole: it has what arrives of it. */
  lemma ReadPrefix(codec: Codec<Control>, m: Message, buf: seq<Byte>)
    requires Faithful(codec) && Accepted(codec, m)
    requires buf <= Encoded(codec, m)
    ensures |buf| < |Encoded(codec, m)| ==> Read(codec, buf).More? && |buf| + Wanted(codec, buf) <= |Encoded(codec, m)|
    ensures |buf| == |Encoded(codec, m)| ==> Read(codec, buf) == Complete(Delivered(codec, m))
  {
    var payload := codec.encode(m.control);
    assert codec.decode(payload) == Some(codec.Back(m.control)) && payload != [];
    assert SameControl(m.control, codec.Back(m.control));
    if |buf| >= 4 {
      FramedPrefix(payload, buf, m.body);
      if |buf| == |Encoded(codec, m)| {
        assert buf == Encoded(codec, m);
        assert buf[4 + |payload|..] == buf[4 + |payload|..|buf|];
      }
    }
  }

  /** A body too large for the worker: it drops the client once it has the header. */
  lemma ReadOversized(codec: Codec<Control>, m: Message, buf: seq<Byte>)
    requires Faithful(codec) && Formed(codec, m) && |m.body| > 134_217_728
    requires buf <= Encoded(codec, m)
    ensures Read(codec, buf).Refused? ||
      (Read(codec, buf).More? && |buf| < |Encoded(codec, m)| && |buf| + Wanted(codec, buf) <= |Encoded(codec, m)|)
  {
    var payload := codec.encode(m.control);
    assert codec.decode(payload) == Some(codec.Back(m.control)) && payload != [];
    assert SameControl(m.control, codec.Back(m.control));
    if |buf| >= 4 {
      FramedPrefix(payload, buf, m.body);
    }
  }

  // What the reader refuses and what it skips.

  /** No length but 1 to 64 MiB is read. */
  lemma BadLengthRefused(codec: Codec<Control>, buf: seq<Byte>)
    requires |buf| >= 4 && (FromBigEndian(buf[..4]) == 0 || FromBigEndian(buf[..4]) > 67_108_864)
    ensures Read(codec, buf).Refused?
  {
  }

  /** A frame header whose pixels would be none or more than 128 MiB ends the connection. */
  lemma BadSizeRefused(codec: Codec<Control>, payload: seq<Byte>, rest: seq<Byte>, c: Control)
    requires 0 < |payload| <= 67_108_864 && codec.decode(payload) == Some(c) && c.FrameHeader?
    requires c.h * c.stride <= 0 || c.h * c.stride > 134_217_728
    ensures Read(codec, Framed(payload) + rest).Refused?
  {
    FramedPrefix(payload, Framed(payload) + rest, rest);
  }

  /** What is not JSON is skipped, whole and alone: the reader goes on with the next message. */
  lemma NotJsonSkipped(codec: Codec<Control>, payload: seq<Byte>, rest: seq<Byte>)
    requires 0 < |payload| <= 67_108_864 && codec.decode(payload).None?
    ensures ReadAll(codec, Framed(payload) + rest) == ReadAll(codec, rest)
  {
    var f := Framed(payload);
    WaitsForPayload(codec, payload, rest, 0);
    FramedPrefix(payload, f, []);
    assert f + [] == f && (f + rest)[..|f|] == f && (f + rest)[|f|..] == rest;
  }

  lemma {:induction false} WaitsForPayload(codec: Codec<Control>, payload: seq<Byte>, rest: seq<Byte>, k: nat)
    requires 0 < |payload| <= 67_108_864 && codec.decode(payload).None? && k <= |Framed(payload)|
    ensures ReadLength(codec, Framed(payload) + rest, k) == |Framed(payload)|
    decreases |Framed(payload)| - k
  {
    var f := Framed(payload);
    assert (f + rest)[..k] == f[..k] && f + [] == f;
    if k >= 4 {
      FramedPrefix(payload, f[..k], []);
    }
    if k < |f| {
      WaitsForPayload(codec, payload, rest, k + 1);
    } else {
      assert f[..k] == f;
    }
  }

  // Whole streams.

  /** Where a message ends: the first position at which the reader stops wanting more. */
  function ReadLength(codec: Codec<Control>, s: seq<Byte>, k: nat): (n: nat)
    requires k <= |s|
    ensures k <= n <= |s|
    ensures n < |s| ==> !Read(codec, s[..n]).More?
    decreases |s| - k
  {
    if k == |s| || !Read(codec, s[..k]).More? then k else ReadLength(codec, s, k + 1)
  }

  /** The messages the worker handles on a stream, in order, up to the end, a refusal or a detach. */
  function ReadAll(codec: Codec<Control>, s: seq<Byte>): seq<Message>
    decreases |s|
  {
    var n := ReadLength(codec, s, 0);
    match Read(codec, s[..n])
    case Complete(m) =>
      assert n >= 4;
      [m] + if m.control.Detach? then [] else ReadAll(codec, s[n..])
    case Skipped =>
      assert n >= 4;
      ReadAll(codec, s[n..])
    case _ => []
  }

  lemma {:induction false} ReadLengthOf(codec: Codec<Control>, m: Message, rest: seq<Byte>, k: nat)
    requires Faithful(codec) && Accepted(codec, m) && k <= |Encoded(codec, m)|
    ensures ReadLength(codec, Encoded(codec, m) + rest, k) == |Encoded(codec, m)|
    decreases |Encoded(codec, m)| - k
  {
    var e := Encoded(codec, m);
    var s := e + rest;
    assert s[..k] == e[..k];
    ReadPrefix(codec, m, e[..k]);
    if k < |e| {
      ReadLengthOf(codec, m, rest, k + 1);
    }
  }

  lemma ReadFirst(codec: Codec<Control>, m: Message, rest: seq<Byte>)
    requires Faithful(codec) && Accepted(codec, m)
    ensures ReadAll(codec, Encoded(codec, m) + rest) == [Delivered(codec, m)] + if m.control.Detach? then [] else ReadAll(codec, rest)
  {
    var e := Encoded(codec, m);
    ReadLengthOf(codec, m, rest, 0);
    assert (e + rest)[..|e|] == e && (e + rest)[|e|..] == rest;
    ReadPrefix(codec, m, e);
  }

  lemma {:induction false} ReadPart(codec: Codec<Control>, m: Message, part: seq<Byte>, k: nat)
    requires Faithful(codec) && Accepted(codec, m)
    requires part <= Encoded(codec, m) && |part| < |Encoded(codec, m)| && k <= |part|
    ensures ReadLength(codec, part, k) == |part|
    ensures k == 0 ==> ReadAll(codec, part) == []
    decreases |part| - k
  {
    ReadPrefix(codec, m, part[..k]);
    if k < |part| {
      ReadPart(codec, m, part, k + 1);
    }
    assert part[..|part|] == part;
    ReadPrefix(codec, m, part);
  }

  /** Only the last message may say goodbye. */
  ghost predicate NoEarlyDetach(ms: seq<Message>) {
    forall i | 0 <= i < |ms| - 1 :: !ms[i].control.Detach?
  }

  lemma NothingSent(codec: Codec<Control>)
    ensures EncodedAll(codec, []) == [] && ReadAll(codec, []) == []
  {
    assert ReadLength(codec, [], 0) == 0;
  }

  lemma SentUnfolds(codec: Codec<Control>, ms: seq<Message>)
    requires ms != []
    ensures EncodedAll(codec, ms) == Encoded(codec, ms[0]) + EncodedAll(codec, ms[1..])
  {
  }

  /** The worker recovers exactly the messages sent, as their text delivers them, whatever bytes the bodies hold. */
  lemma {:induction false} StreamIsUnambiguous(codec: Codec<Control>, ms: seq<Message>)
    requires Faithful(codec) && NoEarlyDetach(ms)
    requires forall m | m in ms :: Accepted(codec, m)
    ensures ReadAll(codec, EncodedAll(codec, ms)) == DeliveredAll(codec, ms)
    decreases |ms|
  {
    hide *;
    if ms == [] {
      NothingSent(codec);
      assert DeliveredAll(codec, []) == [];
    } else {
      SentUnfolds(codec, ms);
      DetachIsLast(ms);
      ReadFirst(codec, ms[0], EncodedAll(codec, ms[1..]));
      StreamIsUnambiguous(codec, ms[1..]);
      assert DeliveredAll(codec, ms) == [Delivered(codec, ms[0])] + DeliveredAll(codec, ms[1..]);
    }
  }

  /** How many of the messages lie whole in the first n bytes: as many as end there, and the next one does not. */
  function WholeIn(codec: Codec<Control>, ms: seq<Message>, n: nat): (k: nat)
    ensures k <= |ms|
    ensures |EncodedAll(codec, ms[..k])| <= n
    ensures k < |ms| ==> n < |EncodedAll(codec, ms[..k + 1])|
    decreases |ms|
  {
    if ms == [] || n < |Encoded(codec, ms[0])| then
      assert ms != [] ==> ms[..1][1..] == [];
      0
    else
      var k := WholeIn(codec, ms[1..], n - |Encoded(codec, ms[0])|);
      assert ms[..k + 1][1..] == ms[1..][..k];
      assert k + 1 < |ms| ==> ms[..k + 2][1..] == ms[1..][..k + 1];
      k + 1
  }

  /** A stream cut anywhere yields exactly the messages that lie whole before the cut, as their text delivers them. */
  lemma {:induction false} CutStream(codec: Codec<Control>, ms: seq<Message>, part: seq<Byte>)
    requires Faithful(codec) && NoEarlyDetach(ms)
    requires forall m | m in ms :: Accepted(codec, m)
    requires part <= EncodedAll(codec, ms)
    ensures ReadAll(codec, part) == DeliveredAll(codec, ms[..WholeIn(codec, ms, |part|)])
    decreases |ms|
  {
    hide *;
    if ms == [] {
      NothingSent(codec);
      assert DeliveredAll(codec, []) == [];
    } else {
      var e := Encoded(codec, ms[0]);
      WholeUnfolds(codec, ms, |part|);
      if |part| < |e| {
        CutFirst(codec, ms, part);
      } else {
        var tail := part[|e|..];
        CutTail(codec, ms, part);
        DetachIsLast(ms);
        ReadFirst(codec, ms[0], tail);
        CutStream(codec, ms[1..], tail);
        var k := WholeIn(codec, ms[1..], |tail|);
        assert DeliveredAll(codec, ms[..k + 1]) == [Delivered(codec, ms[0])] + DeliveredAll(codec, ms[1..][..k]);
      }
    }
  }

  lemma CutFirst(codec: Codec<Control>, ms: seq<Message>, part: seq<Byte>)
    requires Faithful(codec) && ms != [] && Accepted(codec, ms[0])
    requires part <= EncodedAll(codec, ms) && |part| < |Encoded(codec, ms[0])|
    ensures ReadAll(codec, part) == []
  {
    hide Encoded;
    assert EncodedAll(codec, ms) == Encoded(codec, ms[0]) + EncodedAll(codec, ms[1..]);
    assert part <= Encoded(codec, ms[0]);
    ReadPart(codec, ms[0], part, 0);
  }

  lemma WholeUnfolds(codec: Codec<Control>, ms: seq<Message>, n: nat)
    requires ms != []
    ensures n < |Encoded(codec, ms[0])| ==> WholeIn(codec, ms, n) == 0
    ensures n >= |Encoded(codec, ms[0])| ==> WholeIn(codec, ms, n) == 1 + WholeIn(codec, ms[1..], n - |Encoded(codec, ms[0])|)
  {
  }

  lemma DetachIsLast(ms: seq<Message>)
    requires ms != [] && NoEarlyDetach(ms)
    ensures NoEarlyDetach(ms[1..])
    ensures ms[0].control.Detach? ==> ms[1..] == []
  {
  }

  lemma CutTail(codec: Codec<Control>, ms: seq<Message>, part: seq<Byte>)
    requires ms != [] && part <= EncodedAll(codec, ms) && |part| >= |Encoded(codec, ms[0])|
    ensures
      var e := Encoded(codec, ms[0]);
      part == e + part[|e|..] && part[|e|..] <= EncodedAll(codec, ms[1..])
  {
    hide Encoded;
    var e := Encoded(codec, ms[0]);
    assert EncodedAll(codec, ms) == e + EncodedAll(codec, ms[1..]);
  }

  /** What arrives as the same was the same up to real numbers. */
  lemma DeliveredAlike(codec: Codec<Control>, m: Message, n: Message)
    requires Faithful(codec) && Delivered(codec, m) == Delivered(codec, n)
    ensures SameControl(m.control, n.control) && m.body == n.body
  {
    assert SameControl(m.control, codec.Back(m.control)) && SameControl(n.control, codec.Back(n.control));
    hide Faithful;
  }

  /** Lists that differ in anything but real numbers are never the same bytes. */
  lemma EncodingIsInjective(codec: Codec<Control>, a: seq<Message>, b: seq<Message>)
    requires Faithful(codec) && NoEarlyDetach(a) && NoEarlyDetach(b)
    requires forall m | m in a :: Accepted(codec, m)
    requires forall m | m in b :: Accepted(codec, m)
    requires EncodedAll(codec, a) == EncodedAll(codec, b)
    ensures |a| == |b| && forall i | 0 <= i < |a| :: SameControl(a[i].control, b[i].control) && a[i].body == b[i].body
  {
    hide *;
    StreamIsUnambiguous(codec, a);
    StreamIsUnambiguous(codec, b);
    assert |DeliveredAll(codec, a)| == |a| && |DeliveredAll(codec, b)| == |b|;
    forall i | 0 <= i < |a|
      ensures SameControl(a[i].control, b[i].control) && a[i].body == b[i].body
    {
      assert DeliveredAll(codec, a)[i] == Delivered(codec, a[i]) && DeliveredAll(codec, b)[i] == Delivered(codec, b[i]);
      DeliveredAlike(codec, a[i], b[i]);
    }
  }
}
