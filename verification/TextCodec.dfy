/** One way to write the messages down: every field as decimal numbers, real numbers rounded to a millionth. */
module TextCodec {
  import opened Options
  import opened Messages
  import opened Framing
  import opened Lockstep

  // Numbers as bytes.

  /** Decimal digits, the last one first, and a comma. */
  function Digits(n: nat): (r: seq<Byte>)
    ensures 0 < |r| <= n + 1
  {
    if n == 0 then [44] else [48 + n % 10] + Digits(n / 10)
  }

  lemma {:induction false} DigitsEnd(a: nat, b: nat, s: seq<Byte>, t: seq<Byte>)
    requires Digits(a) + s == Digits(b) + t
    ensures a == b && s == t
    decreases a
  {
    var x, y := Digits(a) + s, Digits(b) + t;
    assert x[0] == Digits(a)[0] && y[0] == Digits(b)[0];
    assert (a == 0) == (b == 0);
    assert x[1..] == Digits(a)[1..] + s && y[1..] == Digits(b)[1..] + t;
    if a != 0 {
      DigitsEnd(a / 10, b / 10, s, t);
    } else {
      assert x[1..] == s && y[1..] == t;
    }
  }

  function Text(ns: seq<nat>): seq<Byte> {
    if ns == [] then [] else Digits(ns[0]) + Text(ns[1..])
  }

  lemma {:induction false} TextTells(a: seq<nat>, b: seq<nat>)
    requires Text(a) == Text(b)
    ensures a == b
    decreases |a|
  {
    if a != [] && b != [] {
      DigitsEnd(a[0], b[0], Text(a[1..]), Text(b[1..]));
      TextTells(a[1..], b[1..]);
      assert a == [a[0]] + a[1..] && b == [b[0]] + b[1..];
    }
  }

  function Signed(i: int): nat {
    if i >= 0 then 2 * i else -2 * i - 1
  }

  function Rounded(x: real): nat {
    Signed((x * 1000000.0).Floor)
  }

  // Fields.

  /** Every field after its length. */
  function Pack(fields: seq<seq<nat>>): seq<nat> {
    if fields == [] then [] else [|fields[0]|] + fields[0] + Pack(fields[1..])
  }

  lemma {:induction false} PackTells(a: seq<seq<nat>>, b: seq<seq<nat>>)
    requires Pack(a) == Pack(b)
    ensures a == b
    decreases |a|
  {
    if a != [] && b != [] {
      var x, y := Pack(a), Pack(b);
      assert x[0] == |a[0]| && y[0] == |b[0]|;
      assert x[1..1 + |a[0]|] == a[0] && y[1..1 + |b[0]|] == b[0];
      assert x[1 + |a[0]|..] == Pack(a[1..]) && y[1 + |b[0]|..] == Pack(b[1..]);
      PackTells(a[1..], b[1..]);
      assert a == [a[0]] + a[1..] && b == [b[0]] + b[1..];
    }
  }

  function Each<T>(xs: seq<T>, f: T -> nat): (r: seq<nat>)
    ensures |r| == |xs| && forall i | 0 <= i < |xs| :: r[i] == f(xs[i])
  {
    seq(|xs|, i requires 0 <= i < |xs| => f(xs[i]))
  }

  function Chars(s: string): seq<nat> {
    Each(s, (c: char) => c as int)
  }

  lemma CharsTell(a: string, b: string)
    requires Chars(a) == Chars(b)
    ensures a == b
  {
    forall i | 0 <= i < |a|
      ensures a[i] == b[i]
    {
      assert Chars(a)[i] == a[i] as int && Chars(b)[i] == b[i] as int;
    }
  }

  function Ints(xs: seq<int>): seq<nat> {
    Each(xs, Signed)
  }

  lemma IntsTell(a: seq<int>, b: seq<int>)
    requires Ints(a) == Ints(b)
    ensures a == b
  {
    forall i | 0 <= i < |a|
      ensures a[i] == b[i]
    {
      assert Ints(a)[i] == Signed(a[i]) && Ints(b)[i] == Signed(b[i]);
    }
  }

  function Names(names: seq<string>): (r: seq<seq<nat>>)
    ensures |r| == |names| && forall i | 0 <= i < |names| :: r[i] == Chars(names[i])
  {
    seq(|names|, i requires 0 <= i < |names| => Chars(names[i]))
  }

  lemma NamesTell(a: seq<string>, b: seq<string>)
    requires Names(a) == Names(b)
    ensures a == b
  {
    forall i | 0 <= i < |a|
      ensures a[i] == b[i]
    {
      assert Names(a)[i] == Names(b)[i];
      CharsTell(a[i], b[i]);
    }
  }

  /** Nothing, or a mark and the value. */
  function Maybe<T>(x: Option<T>, f: T -> seq<nat>): seq<nat> {
    if x.None? then [] else [1] + f(x.value)
  }

  lemma MaybeTells<T>(a: Option<T>, b: Option<T>, f: T -> seq<nat>)
    requires Maybe(a, f) == Maybe(b, f)
    ensures a.Some? == b.Some? && (a.Some? ==> f(a.value) == f(b.value))
  {
    if a.Some? {
      assert Maybe(a, f)[1..] == f(a.value) && Maybe(b, f)[1..] == f(b.value);
    }
  }

  function Points(points: seq<Point>): seq<nat> {
    Each(points, (p: Point) => Rounded(p.x)) + Each(points, (p: Point) => Rounded(p.y))
  }

  const OneText := (s: string) => Chars(s)
  const OneInt := (i: int) => [Signed(i)]
  const OneReal := (x: real) => [Rounded(x)]
  const SomePoints := (ps: seq<Point>) => Points(ps)
  const SomeNames := (ns: seq<string>) => Pack(Names(ns))

  function ConfigFields(m: ConfigMessage): seq<seq<nat>> {
    [[2], Chars(m.runtime), Chars(m.device), Chars(m.modelPath), Maybe(m.conf, OneReal), Maybe(m.classes, SomeNames),
     Maybe(m.roi, SomePoints), Maybe(m.inclusive, SomePoints), Maybe(m.exclusive, SomePoints),
     Maybe(m.trackMaxAge, OneInt), Maybe(m.trackClassMatch, OneText)]
  }

  lemma PointsTell(a: Option<seq<Point>>, b: Option<seq<Point>>)
    requires Maybe(a, SomePoints) == Maybe(b, SomePoints)
    ensures SamePoints(a, b)
  {
    MaybeTells(a, b, SomePoints);
    if a.Some? {
      assert |Points(a.value)| == 2 * |a.value| && |Points(b.value)| == 2 * |b.value|;
    }
  }

  lemma NamesFieldTells(a: Option<seq<string>>, b: Option<seq<string>>)
    requires Maybe(a, SomeNames) == Maybe(b, SomeNames)
    ensures a == b
  {
    MaybeTells(a, b, SomeNames);
    if a.Some? {
      PackTells(Names(a.value), Names(b.value));
      NamesTell(a.value, b.value);
    }
  }

  lemma SmallFieldsTell(a: ConfigMessage, b: ConfigMessage)
    requires Maybe(a.conf, OneReal) == Maybe(b.conf, OneReal)
    requires Maybe(a.trackMaxAge, OneInt) == Maybe(b.trackMaxAge, OneInt)
    requires Maybe(a.trackClassMatch, OneText) == Maybe(b.trackClassMatch, OneText)
    ensures a.conf.Some? == b.conf.Some? && a.trackMaxAge == b.trackMaxAge && a.trackClassMatch == b.trackClassMatch
  {
    MaybeTells(a.conf, b.conf, OneReal);
    MaybeTells(a.trackMaxAge, b.trackMaxAge, OneInt);
    MaybeTells(a.trackClassMatch, b.trackClassMatch, OneText);
    if a.trackMaxAge.Some? {
      assert OneInt(a.trackMaxAge.value)[0] == OneInt(b.trackMaxAge.value)[0];
    }
    if a.trackClassMatch.Some? {
      CharsTell(a.trackClassMatch.value, b.trackClassMatch.value);
    }
  }

  lemma ConfigTells(a: ConfigMessage, b: ConfigMessage)
    requires ConfigFields(a) == ConfigFields(b)
    ensures SameConfig(a, b)
  {
    var x, y := ConfigFields(a), ConfigFields(b);
    assert forall i | 0 <= i < 11 :: x[i] == y[i];
    hide Chars, Maybe;
    CharsTell(a.runtime, b.runtime);
    CharsTell(a.device, b.device);
    CharsTell(a.modelPath, b.modelPath);
    SmallFieldsTell(a, b);
    NamesFieldTells(a.classes, b.classes);
    PointsTell(a.roi, b.roi);
    PointsTell(a.inclusive, b.inclusive);
    PointsTell(a.exclusive, b.exclusive);
  }

  function ControlFields(c: Control): seq<seq<nat>> {
    match c
    case Attach => [[0]]
    case Detach => [[1]]
    case Config(m) => ConfigFields(m)
    case FrameHeader(id, w, h, stride) => [[3], Ints([id, w, h, stride])]
    case Unknown(kind) => [[4], Chars(kind)]
  }

  lemma ControlTells(a: Control, b: Control)
    requires ControlFields(a) == ControlFields(b)
    ensures SameControl(a, b)
  {
    hide Ints, Chars, Maybe;
    var x, y := ControlFields(a), ControlFields(b);
    assert x[0][0] == y[0][0];
    match a
    case Attach =>
    case Detach =>
    case Config(m) => ConfigTells(m, b.config);
    case FrameHeader(id, w, h, stride) =>
      assert x[1] == y[1];
      var p, q := [id, w, h, stride], [b.id, b.w, b.h, b.stride];
      IntsTell(p, q);
      assert p[0] == q[0] && p[1] == q[1] && p[2] == q[2] && p[3] == q[3];
    case Unknown(kind) =>
      assert x[1] == y[1];
      CharsTell(kind, b.kind);
  }

  function Corners(b: Det): (r: seq<nat>) {
    [Rounded(b.xyxy.x1), Rounded(b.xyxy.y1), Rounded(b.xyxy.x2), Rounded(b.xyxy.y2), Rounded(b.score)]
  }

  function ReplyFields(r: FrameReply): seq<seq<nat>> {
    [[Signed(r.id)], Ints(r.trackIds), Each(r.dets, (d: Det) => Signed(d.cls))] +
    seq(|r.dets|, i requires 0 <= i < |r.dets| => Corners(r.dets[i]))
  }

  lemma ReplyTells(a: FrameReply, b: FrameReply)
    requires ReplyFields(a) == ReplyFields(b)
    ensures SameReply(a, b)
  {
    var x, y := ReplyFields(a), ReplyFields(b);
    assert x[0] == [Signed(a.id)] && y[0] == [Signed(b.id)] && x[0][0] == y[0][0];
    assert x[1] == Ints(a.trackIds) && y[1] == Ints(b.trackIds);
    IntsTell(a.trackIds, b.trackIds);
    assert |x| == 3 + |a.dets| && |y| == 3 + |b.dets|;
    forall i | 0 <= i < |a.dets|
      ensures a.dets[i].cls == b.dets[i].cls
    {
      assert x[2][i] == Signed(a.dets[i].cls) && y[2][i] == Signed(b.dets[i].cls);
    }
  }

  // The codecs.

  function ControlText(c: Control): (r: seq<Byte>)
    ensures r != []
  {
    Text(Pack(ControlFields(c)))
  }

  function ReplyText(r: FrameReply): (t: seq<Byte>)
    ensures t != []
  {
    Text(Pack(ReplyFields(r)))
  }

  /** A message with that text, if there is one. */
  ghost function ReadControl(b: seq<Byte>): Option<Control> {
    if c :| ControlText(c) == b then Some(c) else None
  }

  ghost function ReadReplyText(b: seq<Byte>): Option<FrameReply> {
    if r :| ReplyText(r) == b then Some(r) else None
  }

  ghost function Plain(): Codecs {
    Codecs(Codec(ControlText, b => ReadControl(b)), Codec(ReplyText, b => ReadReplyText(b)))
  }

  lemma ControlComesBack(c: Control)
    ensures ReadControl(ControlText(c)).Some? && SameControl(c, ReadControl(ControlText(c)).value)
  {
    hide ControlFields;
    var d := ReadControl(ControlText(c)).value;
    TextTells(Pack(ControlFields(c)), Pack(ControlFields(d)));
    PackTells(ControlFields(c), ControlFields(d));
    ControlTells(c, d);
  }

  lemma ReplyComesBack(r: FrameReply)
    ensures ReadReplyText(ReplyText(r)).Some? && SameReply(r, ReadReplyText(ReplyText(r)).value)
  {
    hide ReplyFields;
    var t := ReadReplyText(ReplyText(r)).value;
    TextTells(Pack(ReplyFields(r)), Pack(ReplyFields(t)));
    PackTells(ReplyFields(r), ReplyFields(t));
    ReplyTells(r, t);
  }

  lemma {:induction false} TextLength(ns: seq<nat>, most: nat)
    requires forall i | 0 <= i < |ns| :: ns[i] <= most
    ensures |Text(ns)| <= |ns| * (most + 1)
    decreases |ns|
  {
    if ns == [] {
    } else {
      TextLength(ns[1..], most);
      assert |Text(ns)| == |Digits(ns[0])| + |Text(ns[1..])|;
      assert |ns| * (most + 1) == (|ns| - 1) * (most + 1) + (most + 1);
    }
  }

  /** The numbers of a frame that some camera could send. */
  predicate Usual(id: int, w: int, h: int, stride: int) {
    0 <= id <= 1_000_000 && 0 < w <= 1_000_000 && 0 < h <= 1_000_000 && 0 < stride <= 1_000_000
  }

  lemma HeaderFits(id: int, w: int, h: int, stride: int)
    requires Usual(id, w, h, stride)
    ensures |ControlText(FrameHeader(id, w, h, stride))| <= MAX_JSON_BYTES
  {
    var fields := ControlFields(FrameHeader(id, w, h, stride));
    assert Pack([]) == [];
    assert Pack(fields[2..]) == [];
    assert Pack(fields[1..]) == [4] + fields[1] + [];
    assert Pack(fields) == [1] + [3] + Pack(fields[1..]);
    TextLength(Pack(fields), 2_000_000);
  }

  /** Such a way of writing exists: it keeps every config, frame header and reply up to its real numbers, and the headers
      of all frames the worker may be sent are short enough for it. */
  lemma PlainIsFaithful()
    ensures Plain().Faithful()
    ensures forall id: int, w: int, h: int, stride: int | Usual(id, w, h, stride) ::
      |Plain().control.encode(FrameHeader(id, w, h, stride))| <= MAX_JSON_BYTES
  {
    var p := Plain();
    hide ControlText, ReplyText, ReadControl, ReadReplyText;
    forall c
      ensures p.control.encode(c) != [] && p.control.decode(p.control.encode(c)).Some? && SameControl(c, p.control.Back(c))
    {
      ControlComesBack(c);
    }
    forall r
      ensures p.reply.encode(r) != [] && p.reply.decode(p.reply.encode(r)).Some? && SameReply(r, p.reply.Back(r))
    {
      ReplyComesBack(r);
    }
    forall id: int, w: int, h: int, stride: int | Usual(id, w, h, stride)
      ensures |p.control.encode(FrameHeader(id, w, h, stride))| <= MAX_JSON_BYTES
    {
      HeaderFits(id, w, h, stride);
    }
  }
}
