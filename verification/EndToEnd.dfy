/**
 The contexts of two stacks joined by a serial line: the calls an application makes to send
 one message and receive it on the other side.
 */
module EndToEnd {
  import opened Bytes
  import opened Serial
  import opened Coap
  import CoapLayer
  import CoapPrinter
  import CoapRuns
  import Ip6
  import Ip6Layer
  import Udp
  import RoundTrip
  import SerialFraming
  import WireFormat

  /**
   A context just after preparing to send `len` bytes that its peer can find: the message is
   readable, and the cached size is that of the printed head. With a payload neither can be
   spared, by RoundTrip.ParseRoundTrip and CoapTruncation.RightSizeIff.
   */
  ghost predicate Sendable(t: CoapState, len: nat) {
    && RoundTrip.Readable(t, len > 0)
    && RoundTrip.Fits(t, len)
    && t.hdrsize == |Head(t, len)| + (if len > 0 then 0 else 1)
  }

  /** A coherent context without long options has that size. */
  lemma CoherentIsSendable(s: CoapState, len: nat)
    requires CoapRuns.Coherent(s)
    requires var t := AfterSend(s);
             RoundTrip.Readable(t, len > 0) && RoundTrip.Fits(t, len) && CoapPrinter.LongOptions(t.Options()) == 0
    ensures Sendable(AfterSend(s), len)
  {
    assert FreshSize(AfterSend(s)) == FreshSize(s);
    RoundTrip.PrintedHeadSize(AfterSend(s), len);
  }

  /** The frame that goes out for a payload. */
  function SentFrame(t: CoapState, c: Udp.UdpCfg, payload: seq<byte>): seq<byte> {
    Udp.Frame(c, Head(t, |payload|) + payload)
  }

  lemma CachedBeforeSend(s: CoapState)
    ensures AfterSend(s).hdrsize == Cached(s).hdrsize && AfterSend(Cached(s)) == AfterSend(s)
  {
    assert FreshSize(AfterSend(s)) == FreshSize(s) == FreshSize(Cached(s));
    assert FreshSize(s.(lastMessageId := (s.lastMessageId + 1) % 0x1_0000, responseCode := 0)) == FreshSize(s);
  }

  lemma SentSize(t: CoapState, n: nat)
    requires Sendable(t, n)
    ensures SentLength(t, n) == |Head(t, n)| + n
  {
    RoundTrip.SentLengthOf(t, n, |Head(t, n)|);
  }

  /** Printing the message moves no byte of the payload and leaves nothing between. */
  lemma SentMessage(t: CoapState, buffer: seq<byte>, payload: seq<byte>)
    requires Sendable(t, |payload|)
    requires var pos := AT + t.hdrsize;
             pos + |payload| <= |buffer| && buffer[pos..pos + |payload|] == payload
    ensures AT + |Head(t, |payload|)| <= |buffer| && AT + SentLength(t, |payload|) <= |buffer|
    ensures Message(t, buffer, |payload|) == Head(t, |payload|) + payload
  {
    var head := Head(t, |payload|);
    SentSize(t, |payload|);
    SliceFromSplice(buffer, AT, head, AT + |head| + |payload|);
  }

  method Copy(buffer: array<byte>, at: nat, data: seq<byte>)
    requires at + |data| <= buffer.Length
    modifies buffer
    ensures buffer[at..at + |data|] == data
  {
    forall i | 0 <= i < |data| {
      buffer[at + i] := data[i];
    }
  }

  /** Send a payload that is in its place in the buffer of a context with a filled cache. */
  method SendPlaced(a: CoapLayer.NetCoap, buffer: array<byte>, buflen: u16, pos: u16, ghost payload: seq<byte>,
                    len: u16, ghost t: CoapState)
    returns (errno: int)
    requires t == AfterSend(a.State())
    requires len == |payload| && Sendable(t, len)
    requires pos == AT + t.hdrsize && pos + len <= buffer.Length
    requires buffer[pos..pos + len] == payload
    modifies a, buffer, a.Serial()`output
    ensures a.State() == t && errno == NET_STATUS_OK
    ensures a.Serial().output == old(a.Serial().output) + Line(SentFrame(t, a.lower.Cfg(), payload))
  {
    SentSize(t, len);
    SentMessage(t, buffer[..], payload);
    errno := a.Send(buffer, buflen, pos, len);
  }

  /** pload_pos, copy the payload, send; `t` is the state of the context after the send. */
  method SendPayload(a: CoapLayer.NetCoap, buffer: array<byte>, buflen: u16, payload: seq<byte>,
                     ghost t: CoapState)
    returns (pos: u16, errno: int)
    requires t == AfterSend(a.State())
    requires |payload| < 0x1_0000 && Sendable(t, |payload|)
    requires AT + t.hdrsize + |payload| <= buffer.Length && AT + t.hdrsize < 0x1_0000
    modifies a, buffer, a.Serial()`output
    ensures a.State() == t && pos == AT + t.hdrsize
    ensures errno == NET_STATUS_OK
    ensures a.Serial().output == old(a.Serial().output) + Line(SentFrame(t, a.lower.Cfg(), payload))
  {
    pos := PlacePayload(a, buffer, payload, t);
    errno := SendPlaced(a, buffer, buflen, pos, payload, |payload|, t);
  }

  method PlacePayload(a: CoapLayer.NetCoap, buffer: array<byte>, payload: seq<byte>, ghost t: CoapState)
    returns (pos: u16)
    requires t == AfterSend(a.State())
    requires AT + t.hdrsize + |payload| <= buffer.Length && AT + t.hdrsize < 0x1_0000
    modifies a, buffer
    ensures t == AfterSend(a.State()) && pos == AT + t.hdrsize
    ensures buffer[pos..pos + |payload|] == payload
  {
    CachedBeforeSend(a.State());
    pos := a.PloadPos();
    Copy(buffer, pos, payload);
  }

  /** net_coap_recv on a line that decodes to a frame the UDP layer accepts. */
  method ReceiveFrame(b: CoapLayer.NetCoap, buffer: array<byte>, buflen: u16, ghost frame: seq<byte>,
                      ghost more: string)
    returns (errno: int, dataoffset: nat, datalen: nat)
    requires buflen <= buffer.Length
    requires ReadCall(b.Serial().input, buflen) == ReadResult(frame, false, more)
    requires Udp.Receive(b.lower.Cfg(), frame).status >= 0
    modifies b`responseCode, buffer, b.Serial()`input, b.Serial()`output
    ensures Window(errno, dataoffset, datalen) == Receive(old(b.State()), b.lower.Cfg(), frame)
    ensures b.State() == AfterReceive(old(b.State()), b.lower.Cfg(), frame)
    ensures b.Serial().input == more && b.Serial().output == old(b.Serial().output)
    ensures |frame| <= buffer.Length && buffer[..|frame|] == frame
  {
    Udp.SuccessLeavesFrame(b.lower.Cfg(), frame);
    errno, dataoffset, datalen := b.Recv(buffer, buflen);
  }

  /** The same when the frame is known to open a window on its last bytes. */
  method ReceiveWindow(b: CoapLayer.NetCoap, buffer: array<byte>, buflen: u16, ghost frame: seq<byte>,
                       ghost more: string, ghost window: Window, ghost after: CoapState, ghost payload: seq<byte>)
    returns (errno: int, dataoffset: nat, datalen: nat)
    requires buflen <= buffer.Length
    requires ReadCall(b.Serial().input, buflen) == ReadResult(frame, false, more)
    requires Udp.Receive(b.lower.Cfg(), frame).status >= 0
    requires Receive(b.State(), b.lower.Cfg(), frame) == window
    requires AfterReceive(b.State(), b.lower.Cfg(), frame) == after
    requires |frame| == window.offset + |payload| && frame[window.offset..] == payload
    modifies b`responseCode, buffer, b.Serial()`input, b.Serial()`output
    ensures Window(errno, dataoffset, datalen) == window && b.State() == after
    ensures b.Serial().input == more && b.Serial().output == old(b.Serial().output)
    ensures dataoffset + |payload| <= buffer.Length && buffer[dataoffset..dataoffset + |payload|] == payload
  {
    errno, dataoffset, datalen := ReceiveFrame(b, buffer, buflen, frame, more);
    SuffixOfPart(buffer[..], 0, frame, dataoffset);
  }

  /** Receive a line that holds what a mirrored context in state `t` has sent. */
  method ReceivePayload(b: CoapLayer.NetCoap, buffer: array<byte>, buflen: u16,
                        ghost t: CoapState, ghost c: Udp.UdpCfg, ghost payload: seq<byte>, ghost more: string,
                        ghost at: nat)
    returns (errno: int, dataoffset: nat, datalen: nat)
    requires Sendable(t, |payload|) && b.token == t.token
    requires RoundTrip.Mirrored(c, b.lower.Cfg()) && c.ip6.nh != Ip6.NH_ICMPV6
    requires b.Serial().input == Line(SentFrame(t, c, payload)) + more
    requires at == AT + |Head(t, |payload|)| && at + |payload| <= buflen <= buffer.Length
    modifies b`responseCode, buffer, b.Serial()`input, b.Serial()`output
    ensures errno == NET_STATUS_OK
    ensures b.State() == old(b.State()).(responseCode := t.requestMethod)
    ensures b.Serial().input == (if at + |payload| < buflen then more else "\n" + more)
    ensures b.Serial().output == old(b.Serial().output)
    ensures dataoffset == at && dataoffset + |payload| <= buffer.Length
    ensures datalen == if payload == [] then 0 else |payload| + 1
    ensures buffer[dataoffset..dataoffset + |payload|] == payload
  {
    ghost var frame, s, cb := SentFrame(t, c, payload), b.State(), b.lower.Cfg();
    ghost var rest := SentFrameArrives(t, s, c, cb, payload, more, buflen);
    ghost var window := Window(NET_STATUS_OK, at, if payload == [] then 0 else |payload| + 1);
    ghost var after := s.(responseCode := t.requestMethod);
    errno, dataoffset, datalen := ReceiveWindow(b, buffer, buflen, frame, rest, window, after, payload);
  }

  /** RoundTrip.CoapRoundTrip for a sendable state, in terms of one read call. */
  lemma SentFrameArrives(t: CoapState, s: CoapState, c: Udp.UdpCfg, cb: Udp.UdpCfg,
                                            payload: seq<byte>, more: string, buflen: nat)
    returns (rest: string)
    requires Sendable(t, |payload|) && s.token == t.token
    requires RoundTrip.Mirrored(c, cb) && c.ip6.nh != Ip6.NH_ICMPV6
    requires AT + |Head(t, |payload|)| + |payload| <= buflen
    ensures var frame, at := SentFrame(t, c, payload), AT + |Head(t, |payload|)|;
            && ReadCall(Line(frame) + more, buflen) == ReadResult(frame, false, rest)
            && Udp.Receive(cb, frame).status >= 0
            && Receive(s, cb, frame) == Window(NET_STATUS_OK, at, if payload == [] then 0 else |payload| + 1)
            && AfterReceive(s, cb, frame) == s.(responseCode := t.requestMethod)
            && |frame| == at + |payload| && frame[at..] == payload
            && rest == if |frame| < buflen then more else "\n" + more
  {
    var frame, message := SentFrame(t, c, payload), Head(t, |payload|) + payload;
    RoundTrip.CoapRoundTrip(t, s, c, cb, payload, more, buflen);
    RoundTrip.FrameLayout(c, message);
    RoundTrip.UdpRoundTrip(c, cb, message, []);
    assert frame + [] == frame;
    RestOfLine(frame, more, buflen);
    rest := ReadCall(Line(frame) + more, buflen).rest;
    assert frame != [];
  }

  lemma RestOfLine(frame: seq<byte>, more: string, buflen: nat)
    requires 0 < |frame| <= buflen
    ensures ReadCall(Line(frame) + more, buflen)
            == ReadResult(frame, false, if |frame| < buflen then more else "\n" + more)
  {
    SerialFraming.ReadInvertsWrite(frame, more, buflen);
    if |frame| == buflen {
      assert frame[..buflen] == frame && frame[buflen..] == [];
      assert Hex(frame[buflen..]) + "\n" + more == "\n" + more;
    }
  }

  /**
   One message across the line. The peer reports success and the method of the request, and
   finds the payload; if there is one, at the sender's payload position. Nothing else
   changes in either context, so that exchanges can follow each other.
   */
  method Exchange(a: CoapLayer.NetCoap, b: CoapLayer.NetCoap, sendBuffer: array<byte>, recvBuffer: array<byte>,
                  buflen: u16, payload: seq<byte>)
    returns (pos: u16, sent: int, received: int, dataoffset: nat, datalen: nat)
    requires a != b && a.Serial() != b.Serial() && sendBuffer != recvBuffer
    requires |payload| < 0x1_0000
    requires Sendable(AfterSend(a.State()), |payload|) && b.token == a.token
    requires RoundTrip.Mirrored(a.lower.Cfg(), b.lower.Cfg()) && a.lower.lower.nh != Ip6.NH_ICMPV6
    requires AT + AfterSend(a.State()).hdrsize + |payload| <= buflen
    requires buflen <= sendBuffer.Length && buflen <= recvBuffer.Length
    modifies a, b`responseCode, sendBuffer, recvBuffer, a.Serial()`output, b.Serial()`input, b.Serial()`output
    ensures sent == NET_STATUS_OK && received == NET_STATUS_OK
    ensures a.State() == AfterSend(old(a.State()))
    ensures b.State() == old(b.State()).(responseCode := a.requestMethod)
    ensures a.Serial().output == old(a.Serial().output) + Line(SentFrame(a.State(), a.lower.Cfg(), payload))
    ensures b.Serial().input <= "\n" && b.Serial().output == old(b.Serial().output)
    ensures payload != [] ==> dataoffset == pos && datalen == |payload| + 1
    ensures payload == [] ==> dataoffset == pos - 1 && datalen == 0
    ensures dataoffset + |payload| <= recvBuffer.Length
    ensures recvBuffer[dataoffset..dataoffset + |payload|] == payload
  {
    var alreadyOut := |a.Serial().output|;
    ghost var t := AfterSend(a.State());
    pos, sent := SendPayload(a, sendBuffer, buflen, payload, t);
    ghost var line := Line(SentFrame(t, a.lower.Cfg(), payload));
    assert a.Serial().output[alreadyOut..] == line == line + "";
    b.Serial().input := a.Serial().output[alreadyOut..];
    SentSize(t, |payload|);
    received, dataoffset, datalen :=
      ReceivePayload(b, recvBuffer, buflen, t, a.lower.Cfg(), payload, "",
                     AT + |Head(t, |payload|)|);
  }

  /** The payload an application takes out of the window of net_coap_recv. */
  method TakePayload(buffer: array<byte>, dataoffset: nat, datalen: nat) returns (payload: seq<byte>)
    requires dataoffset + datalen <= buffer.Length + 1 && dataoffset <= buffer.Length
    ensures var n := if datalen == 0 then 0 else datalen - 1;
            payload == buffer[dataoffset..dataoffset + n]
  {
    payload := buffer[dataoffset..dataoffset + if datalen == 0 then 0 else datalen - 1];
  }

  /** An exchange with what the receiving application does after it. */
  method Deliver(a: CoapLayer.NetCoap, b: CoapLayer.NetCoap, sendBuffer: array<byte>, recvBuffer: array<byte>,
                 buflen: u16, payload: seq<byte>)
    returns (code: byte, taken: seq<byte>)
    requires a != b && a.Serial() != b.Serial() && sendBuffer != recvBuffer
    requires |payload| < 0x1_0000
    requires Sendable(AfterSend(a.State()), |payload|) && b.token == a.token
    requires RoundTrip.Mirrored(a.lower.Cfg(), b.lower.Cfg()) && a.lower.lower.nh != Ip6.NH_ICMPV6
    requires AT + AfterSend(a.State()).hdrsize + |payload| <= buflen
    requires buflen <= sendBuffer.Length && buflen <= recvBuffer.Length
    modifies a, b`responseCode, sendBuffer, recvBuffer, a.Serial()`output, b.Serial()`input, b.Serial()`output
    ensures code == a.requestMethod && taken == payload
    ensures a.State() == AfterSend(old(a.State()))
    ensures b.State() == old(b.State()).(responseCode := a.requestMethod)
  {
    var pos, sent, received, dataoffset, datalen := Exchange(a, b, sendBuffer, recvBuffer, buflen, payload);
    code := b.GetResponseCode();
    taken := TakePayload(recvBuffer, dataoffset, datalen);
  }

  /**
   A request and its response: each side is told the method or code of the other and gets
   its payload, and both contexts are left as after a send.
   */
  method Conversation(a: CoapLayer.NetCoap, b: CoapLayer.NetCoap, bufferA: array<byte>, bufferB: array<byte>,
                      buflen: u16, request: seq<byte>, response: seq<byte>)
    returns (asked: byte, taken: seq<byte>, answered: byte, reply: seq<byte>)
    requires a != b && a.Serial() != b.Serial() && bufferA != bufferB
    requires b.token == a.token
    requires |request| < 0x1_0000 && |response| < 0x1_0000
    requires Sendable(AfterSend(a.State()), |request|) && Sendable(AfterSend(b.State()), |response|)
    requires RoundTrip.Mirrored(a.lower.Cfg(), b.lower.Cfg()) && RoundTrip.Mirrored(b.lower.Cfg(), a.lower.Cfg())
    requires a.lower.lower.nh != Ip6.NH_ICMPV6
    requires AT + AfterSend(a.State()).hdrsize + |request| <= buflen
    requires AT + AfterSend(b.State()).hdrsize + |response| <= buflen
    requires buflen <= bufferA.Length && buflen <= bufferB.Length
    modifies a, b, bufferA, bufferB, a.Serial(), b.Serial()
    ensures asked == old(a.requestMethod) && taken == request
    ensures answered == old(b.requestMethod) && reply == response
    ensures a.State() == AfterSend(old(a.State())).(responseCode := old(b.requestMethod))
    ensures b.State() == AfterSend(old(b.State()))
  {
    ghost var before := b.State();
    asked, taken := Deliver(a, b, bufferA, bufferB, buflen, request);
    RespondsAlike(before, b.State());
    answered, reply := Deliver(b, a, bufferB, bufferA, buflen, response);
  }

  /**
   A line with a solicitation for us: one advertisement goes out, which is left in the
   buffer, unless the buffer has less than 82 bytes; the caller gets an error and an empty
   window.
   */
  method AnswerSolicitation(ip6: Ip6Layer.NetIp6, buffer: array<byte>, buflen: u16, ghost frame: seq<byte>)
    returns (errno: int, dataoffset: nat, datalen: nat)
    requires Ip6Layer.IsSolicitation(ip6.Cfg(), frame) && |frame| < buflen
    requires buflen <= buffer.Length && (82 <= buflen ==> 86 <= buffer.Length)
    requires ip6.lower.lower.input == Line(frame)
    modifies buffer, ip6.lower.lower`input, ip6.lower.lower`output
    ensures errno == -1 && dataoffset == 0 && datalen == 0
    ensures ip6.lower.lower.input == ""
    ensures 82 <= buflen ==>
              && ip6.lower.lower.output == old(ip6.lower.lower.output) + Line(Ip6Layer.Reply(ip6.Cfg(), frame))
              && buffer[..86] == Ip6Layer.Reply(ip6.Cfg(), frame)
    ensures buflen < 82 ==>
              && ip6.lower.lower.output == old(ip6.lower.lower.output)
              && buffer[..] == frame + old(buffer[|frame|..])
  {
    hide ReadCall, Line;
    SerialFraming.ReadInvertsWrite(frame, "", buflen);
    assert Line(frame) + "" == Line(frame);
    SolicitationGivesRetry(ip6.Cfg(), frame);
    errno, dataoffset, datalen := ip6.Recv(buffer, buflen);
  }

  /** Any other line: nothing goes out, and the frame stays in the buffer. */
  method ReceiveOther(ip6: Ip6Layer.NetIp6, buffer: array<byte>, buflen: u16, ghost frame: seq<byte>)
    returns (errno: int, dataoffset: nat, datalen: nat)
    requires !Ip6Layer.IsSolicitation(ip6.Cfg(), frame) && |frame| < buflen <= buffer.Length
    requires ip6.lower.lower.input == Line(frame)
    modifies buffer, ip6.lower.lower`input, ip6.lower.lower`output
    ensures Window(errno, dataoffset, datalen) == Ip6Layer.Receive(ip6.Cfg(), frame)
    ensures ip6.lower.lower.input == "" && ip6.lower.lower.output == old(ip6.lower.lower.output)
    ensures buffer[..] == frame + old(buffer[|frame|..])
  {
    hide ReadCall, Line;
    SerialFraming.ReadInvertsWrite(frame, "", buflen);
    assert Line(frame) + "" == Line(frame);
    errno, dataoffset, datalen := ip6.Recv(buffer, buflen);
  }

  lemma SolicitationGivesRetry(c: Ip6.Ip6Cfg, frame: seq<byte>)
    requires Ip6Layer.IsSolicitation(c, frame)
    ensures Ip6Layer.Receive(c, frame) == Window(-1, 0, 0)
  {
    WireFormat.SolicitationIff(c, frame);
    WireFormat.IcmpStatus(c, frame);
  }

  /** What is sent next does not depend on the response code. */
  lemma RespondsAlike(s: CoapState, t: CoapState)
    requires t == s.(responseCode := t.responseCode)
    ensures AfterSend(t) == AfterSend(s)
  {
    assert t.(lastMessageId := (t.lastMessageId + 1) % 0x1_0000, responseCode := 0)
        == s.(lastMessageId := (s.lastMessageId + 1) % 0x1_0000, responseCode := 0);
  }
}
