/** The camera's end of the connection: blocking calls, any I/O error closes the descriptor. */
module Ipc {
  import opened Options
  import opened Messages
  import opened Framing

  /** A stream socket: sends and receives move some bytes or fail, as the peer and the kernel like. */
  class Connection {
    var sent: seq<Byte>
    var received: seq<Byte>
    ghost var failed: bool                // a call has moved nothing

    constructor ()
      ensures sent == [] && received == [] && !failed
    {
      sent, received, failed := [], [], false;
    }

    /** Takes the first k bytes, or fails and takes none. */
    method Send(p: seq<Byte>) returns (k: int)
      requires p != []
      modifies this`sent, this`failed
      ensures k <= |p| && failed == (old(failed) || k <= 0)
      ensures sent == old(sent) + if k > 0 then p[..k] else []
    {
      k :| k <= |p|;
      if k > 0 {
        sent := sent + p[..k];
      } else {
        failed := true;
      }
    }

    /** Gives at most n bytes; none when the peer closed or the call failed. */
    method Recv(n: nat) returns (chunk: seq<Byte>)
      requires n > 0
      modifies this`received, this`failed
      ensures |chunk| <= n && received == old(received) + chunk && failed == (old(failed) || chunk == [])
    {
      chunk :| |chunk| <= n;
      received := received + chunk;
      failed := failed || chunk == [];
    }

    /** The last four bytes received announce a reply that is empty or too long. */
    ghost predicate BadLength()
      reads this`received
    {
      && |received| >= 4
      && var n := FromBigEndian(received[|received| - 4..]); n == 0 || n > 67_108_864
    }
  }

  function FramedAll(payloads: seq<seq<Byte>>): seq<Byte> {
    if payloads == [] then [] else FramedAll(payloads[..|payloads| - 1]) + Framed(payloads[|payloads| - 1])
  }

  /** Whole messages, one after the other, the last one possibly cut. */
  ghost predicate WholeMessages(codec: Codec<Control>, bytes: seq<Byte>) {
    exists ms: seq<Message> :: (forall m | m in ms :: Written(codec, m)) && bytes <= EncodedAll(codec, ms)
  }

  class IpcClient {
    const codec: Codec<Control>
    var conn: Connection?
    ghost var issued: seq<Message>        // written in full on this connection
    ghost var taken: seq<seq<Byte>>       // replies read in full from it
    ghost var past: seq<seq<Byte>>        // what each closed connection was given

    /** On the open connection: exactly the messages issued, and one reply read per frame but for n frames. */
    ghost predicate Owing(n: nat)
      requires conn != null
      reads this, conn
    {
      && (forall m | m in issued :: Written(codec, m))
      && conn.sent == EncodedAll(codec, issued)
      && conn.received == FramedAll(taken)
      && |taken| + n == FrameCount(issued)
      && !conn.failed
    }

    ghost predicate Valid()
      reads this, conn
    {
      && (conn != null ==> Owing(0))
      && forall p | p in past :: WholeMessages(codec, p)
    }

    constructor (codec: Codec<Control>)
      ensures Valid() && conn == null && this.codec == codec && past == []
    {
      this.codec := codec;
      conn := null;
      issued, taken, past := [], [], [];
    }

    /** Connects if there is no connection; whether that succeeds is not ours to say. */
    method EnsureConnected(reachable: bool) returns (ok: bool)
      requires Valid()
      modifies this`conn, this`issued, this`taken
      ensures Valid() && ok == (conn != null) && ok == (old(conn) != null || reachable)
      ensures old(conn) != null ==> conn == old(conn) && issued == old(issued) && taken == old(taken)
      ensures old(conn) == null && ok ==> fresh(conn) && issued == [] && taken == []
    {
      if conn != null {
        return true;
      }
      if !reachable {
        return false;
      }
      conn := new Connection();
      issued, taken := [], [];
      return true;
    }

    method Disconnect()
      modifies this`conn, this`past
      ensures conn == null
      ensures past == old(past) + if old(conn) == null then [] else [old(conn.sent)]
    {
      if conn != null {
        past := past + [conn.sent];
        conn := null;
      }
    }

    /** Sends all of buf, or closes the connection after some first part of it. */
    method WriteRaw(buf: seq<Byte>) returns (ok: bool)
      requires conn != null && !conn.failed
      modifies this`conn, this`past, conn`sent, conn`failed
      ensures old(conn).failed == !ok
      ensures ok ==> conn == old(conn) && past == old(past) && conn.sent == old(conn.sent) + buf
      ensures !ok ==> conn == null && exists n: nat :: n <= |buf| && past == old(past) + [old(conn.sent) + buf[..n]]
    {
      var c := conn;
      var done: nat := 0;
      assert buf[..0] == [];
      while done < |buf|
        invariant done <= |buf| && conn == c && past == old(past) && !c.failed
        invariant c.sent == old(conn.sent) + buf[..done]
      {
        var k := c.Send(buf[done..]);
        if k <= 0 {
          assert c.sent == old(conn.sent) + buf[..done];
          Disconnect();
          return false;
        }
        assert buf[..done] + buf[done..][..k] == buf[..done + k];
        done := done + k;
      }
      assert buf[..done] == buf;
      return true;
    }

    /** Length, then payload; an oversized payload is refused before anything is written. */
    method WriteFramed(payload: seq<Byte>) returns (ok: bool)
      requires conn != null && !conn.failed
      modifies this`conn, this`past, conn`sent, conn`failed
      ensures ok == (!old(conn).failed && |payload| <= MAX_JSON_BYTES)
      ensures ok ==> conn == old(conn) && past == old(past) && conn.sent == old(conn.sent) + Framed(payload)
      ensures ok ==> |payload| <= MAX_JSON_BYTES
      ensures !ok && |payload| > MAX_JSON_BYTES ==> conn == old(conn) && past == old(past) && conn.sent == old(conn.sent) && !conn.failed
      ensures !ok && |payload| <= MAX_JSON_BYTES ==>
        conn == null && exists n: nat :: n <= |Framed(payload)| && past == old(past) + [old(conn.sent) + Framed(payload)[..n]]
    {
      if |payload| > MAX_JSON_BYTES {
        return false;
      }
      ghost var sent := conn.sent;
      var header := BigEndian(|payload|);
      ok := WriteRaw(header);
      if !ok {
        ghost var n: nat :| n <= |header| && past == old(past) + [sent + header[..n]];
        assert Framed(payload)[..n] == header[..n];
        return;
      }
      if |payload| > 0 {
        ok := WriteRaw(payload);
        if !ok {
          ghost var n: nat :| n <= |payload| && past == old(past) + [sent + header + payload[..n]];
          assert sent + Framed(payload)[..4 + n] == sent + header + payload[..n];
          return;
        }
      }
      assert sent + header + payload == sent + Framed(payload);
    }

    /** One message written in full, or the connection closed within it. */
    method WriteMessage(m: Message) returns (ok: bool)
      requires Valid() && conn != null
      requires !m.control.FrameHeader? ==> m.body == []
      modifies this`conn, this`past, this`issued, conn`sent, conn`failed
      ensures ok == (!old(conn).failed && |codec.encode(m.control)| <= MAX_JSON_BYTES)
      ensures old(past) <= past && forall p | p in past :: WholeMessages(codec, p)
      ensures ok ==> conn == old(conn) && past == old(past) && issued == old(issued) + [m] && Written(codec, m)
      ensures ok ==> conn.sent == EncodedAll(codec, issued)
      ensures !ok ==> (conn == null || (conn == old(conn) && conn.sent == old(conn.sent) && !conn.failed)) && issued == old(issued)
      ensures !ok && conn != null ==> past == old(past)
      ensures !ok && conn == null ==>
        exists n: nat :: n <= |Encoded(codec, m)| && past == old(past) + [old(conn.sent) + Encoded(codec, m)[..n]]
    {
      ghost var sent := conn.sent;
      var payload := codec.encode(m.control);
      ok := WriteFramed(payload);
      if !ok {
        if conn == null {
          ghost var n: nat :| n <= |Framed(payload)| && past == old(past) + [sent + Framed(payload)[..n]];
          assert Encoded(codec, m)[..n] == Framed(payload)[..n];
          CutMessage(codec, old(issued), m, n);
        }
        return;
      }
      if m.control.FrameHeader? && m.body != [] {
        ok := WriteRaw(m.body);
        if !ok {
          ghost var n: nat :| n <= |m.body| && past == old(past) + [sent + Framed(payload) + m.body[..n]];
          assert sent + Encoded(codec, m)[..|Framed(payload)| + n] == sent + Framed(payload) + m.body[..n];
          CutMessage(codec, old(issued), m, |Framed(payload)| + n);
          return;
        }
      }
      assert conn.sent == sent + Encoded(codec, m);
      EncodedAllAppend(codec, issued, m);
      issued := issued + [m];
    }

    /** One reply read in full, or the connection closed. */
    method ReadFramed() returns (reply: Option<seq<Byte>>)
      requires conn != null && !conn.failed
      modifies this`conn, this`past, conn`received, conn`failed
      ensures reply.Some? ==> !old(conn).failed && 0 < |reply.value| <= 67_108_864
      ensures reply.None? ==> old(conn).failed || old(conn).BadLength()
      ensures reply.Some? ==> conn == old(conn) && past == old(past) && conn.received == old(conn.received) + Framed(reply.value)
      ensures reply.None? ==> conn == null && past == old(past) + [old(conn.sent)]
    {
      var c := conn;
      var hdr := [];
      while |hdr| < 4
        invariant |hdr| <= 4 && conn == c && past == old(past) && !c.failed
        invariant c.received == old(conn.received) + hdr
        decreases 4 - |hdr|
      {
        var chunk := c.Recv(4 - |hdr|);
        if chunk == [] {
          Disconnect();
          return None;
        }
        hdr := hdr + chunk;
      }
      var length := FromBigEndian(hdr);
      if length == 0 || length > MAX_JSON_BYTES {
        assert c.received[|c.received| - 4..] == hdr;
        Disconnect();
        return None;
      }
      var out := [];
      while |out| < length
        invariant |out| <= length && conn == c && past == old(past) && !c.failed
        invariant c.received == old(conn.received) + hdr + out
        decreases length - |out|
      {
        var chunk := c.Recv(length - |out|);
        if chunk == [] {
          Disconnect();
          return None;
        }
        out := out + chunk;
      }
      HeaderOf(hdr);
      assert old(conn.received) + hdr + out == old(conn.received) + Framed(out);
      return Some(out);
    }

    /** attach and config: no reply is read. It works out exactly when there is a connection, the message is not too long
        and every send moves something. */
    method SendNoReply(control: Control, reachable: bool) returns (ok: bool, ghost used: Connection?)
      requires Valid() && !control.FrameHeader?
      modifies this, conn
      ensures used != null <==> old(conn) != null || reachable
      ensures ok <==> used != null && !used.failed && |codec.encode(control)| <= MAX_JSON_BYTES
      ensures Valid() && old(past) <= past
      ensures ok ==> conn != null && issued == (if old(conn) == null then [] else old(issued)) + [Message(control, [])]
      ensures ok ==> taken == if old(conn) == null then [] else old(taken)
    {
      ok := EnsureConnected(reachable);
      used := conn;
      if !ok {
        return;
      }
      ok := WriteMessage(Message(control, []));
      if ok {
        CountAppend(issued[..|issued| - 1], Message(control, []));
      }
    }

    /** An open connection is given the goodbye, or a first part of it, and closed. */
    method SendDetach()
      requires Valid()
      modifies this, conn
      ensures Valid() && conn == null
      ensures old(conn) == null ==> past == old(past)
      ensures old(conn) != null ==>
        var e := Encoded(codec, Message(Detach, []));
        exists n: nat :: n <= |e| && past == old(past) + [old(conn.sent) + e[..n]]
    {
      if conn != null {
        ghost var m := Message(Detach, []);
        ghost var before, sent := past, conn.sent;
        var ok := WriteMessage(Message(Detach, []));
        if conn != null {
          WholeSoFar(codec, issued, conn.sent);
          EncodedAllAppend(codec, old(issued), m);
          ghost var n := if ok then |Encoded(codec, m)| else 0;
          assert conn.sent == sent + Encoded(codec, m)[..n];
        }
      }
      Disconnect();
    }

    /** A frame and its reply: the bytes returned are the one reply read after this frame was written. There is none only
        without a connection, with a header too long, or when a call moved nothing or a reply of a bad length was announced. */
    method SendFrameAndRecv(id: int, w: int, h: int, stride: int, body: seq<Byte>, reachable: bool)
      returns (reply: Option<seq<Byte>>, ghost used: Connection?)
      requires Valid()
      modifies this, conn
      ensures used != null <==> old(conn) != null || reachable
      ensures reply.Some? ==> used != null && !used.failed
      ensures reply.None? ==>
        used == null || |codec.encode(FrameHeader(id, w, h, stride))| > MAX_JSON_BYTES || used.failed || used.BadLength()
      ensures Valid() && old(past) <= past
      ensures reply.Some? ==>
        && conn != null
        && issued == (if old(conn) == null then [] else old(issued)) + [Message(FrameHeader(id, w, h, stride), body)]
        && taken == (if old(conn) == null then [] else old(taken)) + [reply.value]
    {
      reply := None;
      var ok := EnsureConnected(reachable);
      used := conn;
      if !ok {
        return;
      }
      var m := Message(FrameHeader(id, w, h, stride), body);
      ghost var before := issued;
      ok := WriteMessage(m);
      if !ok {
        return;
      }
      CountAppend(before, m);
      reply := TakeReply();
    }

    /** Reads the reply to the frame just written. */
    method TakeReply() returns (reply: Option<seq<Byte>>)
      requires conn != null && Owing(1) && forall p | p in past :: WholeMessages(codec, p)
      modifies this`conn, this`past, this`taken, conn`received, conn`failed
      ensures Valid() && old(past) <= past
      ensures if reply.Some? then !old(conn).failed else old(conn).failed || old(conn).BadLength()
      ensures reply.Some? ==> conn == old(conn) && taken == old(taken) + [reply.value]
    {
      WholeSoFar(codec, issued, conn.sent);
      hide WholeMessages;
      reply := ReadFramed();
      if reply.Some? {
        FramedAllAppend(taken, reply.value);
        taken := taken + [reply.value];
      }
    }
  }

  lemma CutMessage(codec: Codec<Control>, issued: seq<Message>, m: Message, n: nat)
    requires forall x | x in issued :: Written(codec, x)
    requires Written(codec, m) && n <= |Encoded(codec, m)|
    ensures WholeMessages(codec, EncodedAll(codec, issued) + Encoded(codec, m)[..n])
  {
    EncodedAllAppend(codec, issued, m);
    var ms := issued + [m];
    assert EncodedAll(codec, issued) + Encoded(codec, m)[..n] <= EncodedAll(codec, ms);
    assert forall x | x in ms :: Written(codec, x);
  }

  lemma WholeSoFar(codec: Codec<Control>, issued: seq<Message>, sent: seq<Byte>)
    requires forall m | m in issued :: Written(codec, m)
    requires sent == EncodedAll(codec, issued)
    ensures WholeMessages(codec, sent)
  {
  }

  lemma CountAppend(ms: seq<Message>, m: Message)
    ensures FrameCount(ms + [m]) == FrameCount(ms) + if m.control.FrameHeader? then 1 else 0
  {
  }

  lemma FramedAllAppend(payloads: seq<seq<Byte>>, p: seq<Byte>)
    ensures FramedAll(payloads + [p]) == FramedAll(payloads) + Framed(p)
  {
  }

  lemma LowByte(q: int, r: int)
    requires 0 <= r < 0x100
    ensures (q * 0x100 + r) / 0x100 == q && (q * 0x100 + r) % 0x100 == r
  {
  }

  lemma HeaderOf(hdr: seq<Byte>)
    requires |hdr| == 4
    ensures BigEndian(FromBigEndian(hdr)) == hdr
  {
    var a: int, b: int, c: int, d: int := hdr[0], hdr[1], hdr[2], hdr[3];
    var n := FromBigEndian(hdr);
    var q := (a * 0x100 + b) * 0x100 + c;
    assert n == q * 0x100 + d;
    hide FromBigEndian;
    LowByte(q, d);
    LowByte(a * 0x100 + b, c);
    LowByte(a, b);
    assert n / 0x1_0000 == q / 0x100 && n / 0x100_0000 == q / 0x1_0000;
    assert q / 0x1_0000 == (a * 0x100 + b) / 0x100;
    assert BigEndian(n) == [a, b, c, d];
  }
}
