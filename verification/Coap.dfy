/**
 CoAP messages of proto_coap.c: the state of a context, what a send prints, and what a
 receive makes of a datagram.
 */
module Coap {
  import opened Bytes
  import opened CoapOptions
  import opened CoapPrinter
  import Udp

  const BASE_HDRSIZE: nat := 4
  const AT: nat := Udp.PLOAD

  const STATUS_ACK := 1
  const STATUS_RST := 2

  const VERSION: byte := 1
  const NONCONFIRMABLE: byte := 1
  const ACKNOWLEDGE: byte := 2
  const RESET: byte := 3
  const EMPTY: byte := 0

  type Token = s: seq<byte> | |s| < 0x100
  /** The strings behind a pointer and its 8-bit count; none for a null pointer. */
  type Strings = s: seq<seq<byte>> | |s| < 0x100

  datatype CoapState = CoapState(
    hdrsize: u16,
    kind: byte,
    requestMethod: byte,
    responseCode: byte,
    token: Token,
    lastMessageId: u16,
    contentType: byte,
    uriPath: Strings,
    uriQuery: Strings)
  {
    /** The options to print. */
    function Options(): seq<Item> {
      Items(uriPath, contentType, uriQuery)
    }
  }

  // ---------------------------------------------------------------- header size

  /** The formula over strings whose length is first truncated to 16 bits. */
  function StringsSize(values: seq<seq<byte>>): nat {
    if values == [] then 0
    else StringsSize(values[..|values| - 1]) + OptLen(|values[|values| - 1]| % 0x1_0000)
  }

  /** What _net_coap_compute_hdrsize computes. */
  function FreshSize(s: CoapState): u16 {
    (BASE_HDRSIZE + |s.token| + StringsSize(s.uriPath) + StringsSize(s.uriQuery)
     + (if s.contentType != 0 then OptLen(1) else 0) + 1) % 0x1_0000
  }

  /** `hdrsize` filled in if it is not cached. */
  function Cached(s: CoapState): CoapState {
    if s.hdrsize == 0 then s.(hdrsize := FreshSize(s)) else s
  }

  /** net_coap_set_contenttype: the cache survives while the option neither comes nor goes. */
  function SetContent(s: CoapState, value: byte): CoapState {
    s.(hdrsize := if (value == 0) != (s.contentType == 0) then 0 else s.hdrsize, contentType := value)
  }

  // ---------------------------------------------------------------- send

  function AfterSend(s: CoapState): CoapState {
    Cached(s.(lastMessageId := (s.lastMessageId + 1) % 0x1_0000, responseCode := 0))
  }

  function FixedHeader(s: CoapState): (r: seq<byte>)
    ensures |r| == BASE_HDRSIZE
  {
    [VERSION * 64 + s.kind % 4 * 16 + |s.token| % 16, s.requestMethod] + Be16(s.lastMessageId)
  }

  /** Header, token and options. */
  function HeadWithoutMarker(s: CoapState): seq<byte> {
    FixedHeader(s) + s.token + Print(0, s.Options())
  }

  /** All that net_coap_send prints. */
  function Head(s: CoapState, datalen: nat): seq<byte> {
    HeadWithoutMarker(s) + if datalen > 0 then [0xFF] else []
  }

  lemma HeadParts(s: CoapState, datalen: nat)
    ensures |Head(s, datalen)| == BASE_HDRSIZE + |s.token| + |Print(0, s.Options())| + if datalen > 0 then 1 else 0
  {
  }

  /** The length passed to the lower layer, in 16 bits. */
  function SentLength(s: CoapState, datalen: nat): u16 {
    (s.hdrsize - (if datalen > 0 then 0 else 1) + datalen) % 0x1_0000
  }

  /** A buffer after printing, before the lower layers add their headers. */
  function Printed(s: CoapState, buffer: seq<byte>, datalen: nat): (r: seq<byte>)
    requires AT + |Head(s, datalen)| <= |buffer|
    ensures |r| == |buffer|
  {
    Splice(buffer, AT, Head(s, datalen))
  }

  /** The message handed to the lower layer. */
  function Message(s: CoapState, buffer: seq<byte>, datalen: nat): seq<byte>
    requires AT + |Head(s, datalen)| <= |buffer|
    requires AT + SentLength(s, datalen) <= |buffer|
  {
    Printed(s, buffer, datalen)[AT..AT + SentLength(s, datalen)]
  }

  // ---------------------------------------------------------------- receive

  /** The result of parsing a message: status, response code kept, bytes consumed, bytes left. */
  datatype Outcome = Outcome(status: int, responseCode: byte, consumed: nat, left: nat)

  /** An acknowledgement or a reset. */
  function ParseAck(s: CoapState, kind: byte, code: byte, messageid: u16): Outcome {
    if messageid == s.lastMessageId && code == EMPTY then
      if kind == ACKNOWLEDGE then Outcome(STATUS_ACK, code, 0, 0)
      else Outcome(STATUS_RST, s.responseCode, 0, 0)
    else Outcome(NET_EAGAIN, s.responseCode, 0, 0)
  }

  /** The outcome after the option loop, which started `size` bytes into the message. */
  function AfterOptions(s: CoapState, w: WalkResult, code: byte, size: nat): Outcome {
    match w
    case Fail(e) => Outcome(e, s.responseCode, 0, 0)
    case End(c, l) => Outcome(NET_STATUS_OK, code, size + c, l)
  }

  /** A non-confirmable message: token, then options. */
  function ParseNon(s: CoapState, m: seq<byte>, code: byte, tokenlen: nat): (r: Outcome)
    requires |m| >= BASE_HDRSIZE
    ensures r.status == NET_STATUS_OK ==> r.consumed <= |m|
  {
    if |m| < BASE_HDRSIZE + tokenlen then Outcome(NET_EOVERFLOW, s.responseCode, 0, 0)
    else if m[BASE_HDRSIZE..BASE_HDRSIZE + tokenlen] != s.token then
      Outcome(NET_EAGAIN, s.responseCode, 0, 0)
    else
      AfterOptions(s, Walk(m[BASE_HDRSIZE + tokenlen..]), code, BASE_HDRSIZE + tokenlen)
  }

  lemma ParseNonOf(s: CoapState, m: seq<byte>, code: byte, tokenlen: nat)
    requires |m| >= BASE_HDRSIZE + tokenlen
    ensures var n := BASE_HDRSIZE + tokenlen;
            ParseNon(s, m, code, tokenlen)
            == if m[BASE_HDRSIZE..n] == s.token then AfterOptions(s, Walk(m[n..]), code, n)
               else Outcome(NET_EAGAIN, s.responseCode, 0, 0)
  {
  }

  function Parse(s: CoapState, m: seq<byte>): (r: Outcome)
    ensures r.status == NET_STATUS_OK ==> r.consumed <= |m|
  {
    if |m| < BASE_HDRSIZE then Outcome(NET_EOVERFLOW, s.responseCode, 0, 0)
    else if m[0] / 64 != VERSION then Outcome(NET_EPROTO, s.responseCode, 0, 0)
    else
      var kind, tokenlen, code := m[0] / 16 % 4, m[0] % 16, m[1];
      if kind >= 2 then ParseAck(s, kind, code, GetBe16(m, 2))
      else if kind == NONCONFIRMABLE then ParseNon(s, m, code, tokenlen)
      else Outcome(NET_EINVAL, s.responseCode, 0, 0)
  }

  /** The window after parsing the message that starts at `at`. */
  function Narrow(o: Outcome, at: nat): Window {
    if o.status == NET_STATUS_OK then Window(NET_STATUS_OK, at + o.consumed, o.left)
    else Window(o.status, 0, 0)
  }

  lemma NarrowOf(s: CoapState, w: WalkResult, code: byte, size: nat, at: nat)
    ensures var o := AfterOptions(s, w, code, size);
            match w
            case Fail(e) => (e < 0 ==> Narrow(o, at) == Window(e, 0, 0)) && o.responseCode == s.responseCode
            case End(c, l) => Narrow(o, at) == Window(NET_STATUS_OK, at + size + c, l) && o.responseCode == code
  {
  }

  /** The window net_coap_recv opens on a frame. */
  function Receive(s: CoapState, c: Udp.UdpCfg, frame: seq<byte>): Window {
    var w := Udp.Receive(c, frame);
    if w.status < 0 then Window(w.status, 0, 0)
    else Narrow(Parse(s, Datagram(c, frame)), w.offset)
  }

  function AfterReceive(s: CoapState, c: Udp.UdpCfg, frame: seq<byte>): CoapState {
    if Udp.Receive(c, frame).status < 0 then s
    else s.(responseCode := Parse(s, Datagram(c, frame)).responseCode)
  }

  /** The bytes in the window of the lower layer. */
  function Datagram(c: Udp.UdpCfg, frame: seq<byte>): seq<byte>
    requires Udp.Receive(c, frame).status >= 0
  {
    var w := Udp.Receive(c, frame);
    frame[w.offset..w.offset + w.len]
  }

  // ---------------------------------------------------------------- operations

  datatype Op =
    | SetMethod(kind: byte, requestMethod: byte)
    | SetToken(token: Token)
    | SetUriPath(values: Strings)
    | SetUriQuery(values: Strings)
    | SetContentType(value: byte)
    | PloadPos
    | Send
    | Recv(cfg: Udp.UdpCfg, frame: seq<byte>)

  /** The context after an operation. */
  function Apply(s: CoapState, op: Op): CoapState {
    match op
    case SetMethod(k, m) => s.(kind := k, requestMethod := m)
    case SetToken(t) => s.(token := t)
    case SetUriPath(v) => s.(hdrsize := 0, uriPath := v)
    case SetUriQuery(v) => s.(hdrsize := 0, uriQuery := v)
    case SetContentType(v) => SetContent(s, v)
    case PloadPos => Cached(s)
    case Send => AfterSend(s)
    case Recv(c, frame) => AfterReceive(s, c, frame)
  }
}
