/**
 The context of proto_coap.c with its methods.
 */
module CoapLayer {
  import opened Bytes
  import opened Serial
  import opened CoapOptions
  import opened CoapPrinter
  import opened Coap
  import Udp
  import Ip6Layer

  /** The switch over the option type: skips the first byte and the extended type. */
  method SkipType(opttypelen: byte, at: nat, len: nat) returns (errno: int, cursor: nat, datalen: nat)
    requires 0 < len
    ensures var e := ExtensionSize(opttypelen / 16);
            if opttypelen / 16 == 15 then errno == NET_EPROTO
            else if e > 0 && len <= e then errno == NET_EOVERFLOW
            else errno == NET_STATUS_OK && cursor == at + 1 + e && datalen == len - 1 - e
  {
    errno, cursor, datalen := NET_STATUS_OK, at + 1, len;
    match opttypelen / 16 {
      case 13 =>
        if datalen <= 1 {
          return NET_EOVERFLOW, cursor, datalen;
        }
        cursor, datalen := cursor + 1, datalen - 2;
      case 14 =>
        if datalen <= 2 {
          return NET_EOVERFLOW, cursor, datalen;
        }
        cursor, datalen := cursor + 2, datalen - 3;
      case 15 =>
        return NET_EPROTO, cursor, datalen;
      case _ =>
        datalen := datalen - 1;
    }
  }

  /** The switch over the option length: reads the extended length in 16 bits. */
  method ReadLength(buffer: array<byte>, nibble: byte, at: nat, len: nat, ghost s: seq<byte>, ghost i: nat)
    returns (errno: int, optlen: nat, cursor: nat, datalen: nat)
    requires nibble < 16 && at + len <= buffer.Length
    requires i + len == |s| && i <= at && buffer[at - i..at + len] == s
    ensures var f := ExtensionSize(nibble);
            if nibble == 15 then errno == NET_EPROTO
            else if f > 0 && len <= f then errno == NET_EOVERFLOW
            else
              && errno == NET_STATUS_OK && cursor == at + f && datalen == len - f
              && optlen == ExtendedValue(nibble, s, i) % 0x1_0000
  {
    errno, optlen, cursor, datalen := NET_STATUS_OK, nibble, at, len;
    match nibble {
      case 13 =>
        if datalen <= 1 {
          return NET_EOVERFLOW, optlen, cursor, datalen;
        }
        ByteOfPart(buffer[..], at - i, s, i);
        optlen := buffer[cursor] as int + 13;
        cursor, datalen := cursor + 1, datalen - 1;
      case 14 =>
        if datalen <= 2 {
          return NET_EOVERFLOW, optlen, cursor, datalen;
        }
        ByteOfPart(buffer[..], at - i, s, i);
        ByteOfPart(buffer[..], at - i, s, i + 1);
        optlen := (Word(buffer[cursor], buffer[cursor + 1]) as int + 269) % 0x1_0000;
        cursor, datalen := cursor + 2, datalen - 2;
      case 15 =>
        return NET_EPROTO, optlen, cursor, datalen;
      case _ =>
    }
  }

  /** The loop of net_coap_recv on one option: `cursor` and `datalen` move past it. */
  method SkipOption(buffer: array<byte>, at: nat, len: nat, ghost s: seq<byte>)
    returns (errno: int, cursor: nat, datalen: nat)
    requires 0 < len && at + len <= buffer.Length && buffer[at..at + len] == s
    ensures match OptionStep(s)
            case Bad(e) => errno == e
            case Skip(n) => errno == NET_STATUS_OK && cursor == at + n && datalen == len - n
  {
    ByteOfPart(buffer[..], at, s, 0);
    var opttypelen, optlen := buffer[at], 0;
    errno, cursor, datalen := SkipType(opttypelen, at, len);
    if errno < 0 {
      return;
    }
    errno, optlen, cursor, datalen := ReadLength(buffer, opttypelen % 16, cursor, datalen, s, cursor - at);
    if errno < 0 {
      return;
    }
    if datalen < optlen {
      return NET_EOVERFLOW, cursor, datalen;
    }
    cursor, datalen := cursor + optlen, datalen - optlen;
  }

  /** The body of the loop on an option: `s` is what is left before, `rest` what is left after. */
  method Turn(buffer: array<byte>, at: nat, len: nat, ghost s: seq<byte>)
    returns (errno: int, cursor: nat, datalen: nat, ghost rest: seq<byte>)
    requires at + len <= buffer.Length && buffer[at..at + len] == s
    requires s != [] && s[0] != 0xFF
    ensures errno < 0 ==> Walk(s) == Fail(errno)
    ensures errno >= 0 ==>
              && errno == NET_STATUS_OK
              && at < cursor && cursor + datalen == at + len
              && buffer[cursor..cursor + datalen] == rest
              && Walk(s) == Walk(rest).After(cursor - at)
  {
    errno, cursor, datalen := SkipOption(buffer, at, len, s);
    if errno >= 0 {
      rest := s[cursor - at..];
      SuffixOfPart(buffer[..], at, s, cursor - at);
    } else {
      rest := [];
    }
    WalkTurn(s, rest);
  }

  /** The loop: consumed bytes and `datalen` always add up, and `datalen` decreases. */
  method SkipOptions(buffer: array<byte>, start: nat, len: nat, ghost options: seq<byte>)
    returns (errno: int, cursor: nat, datalen: nat)
    requires start + len <= buffer.Length && buffer[start..start + len] == options
    ensures match Walk(options)
            case Fail(e) => errno == e
            case End(c, l) => errno == NET_STATUS_OK && cursor == start + c && datalen == l
  {
    cursor, datalen := start, len;
    ghost var rest := options;
    while datalen > 0
      invariant start <= cursor && cursor + datalen == start + len
      invariant rest == buffer[cursor..cursor + datalen]
      invariant Walk(options) == Walk(rest).After(cursor - start)
      decreases datalen
    {
      assert rest[0] == buffer[cursor];
      if buffer[cursor] == 0xFF {
        if datalen == 1 {
          return NET_EOVERFLOW, cursor, datalen;
        }
        return NET_STATUS_OK, cursor + 1, datalen;
      }
      ghost var before, left := cursor, rest;
      errno, cursor, datalen, rest := Turn(buffer, cursor, datalen, rest);
      if errno < 0 {
        return;
      }
      AfterTwice(Walk(rest), before - start, cursor - before);
    }
    errno := NET_STATUS_OK;
  }

  /** The macro NET_COAP_PUT_OPTION; `delta` is options_delta. */
  method PutOption(buffer: array<byte>, cursor: nat, delta: byte, number: byte, value: seq<byte>,
                   ghost trail: Trail)
    returns (next: nat, newDelta: byte, ghost printed: Trail)
    requires cursor == trail.Next() && trail.Leaves(buffer[..])
    requires cursor + |PrintOption(Opt(NextDelta(delta, number), value))| <= buffer.Length
    modifies buffer
    ensures newDelta == NextDelta(delta, number)
    ensures printed == trail.(done := trail.done + PrintOption(Opt(newDelta, value)))
    ensures next == printed.Next() && printed.Leaves(buffer[..])
  {
    newDelta := (number - delta) % 0x100;
    next, printed := PutOptionHead(buffer, cursor, newDelta, |value|, trail);
    next, printed := PutData(buffer, next, value, printed);
    assert printed.done == trail.done + (PrintHead(newDelta, |value|) + value);
  }

  method PutOptionHead(buffer: array<byte>, cursor: nat, delta: byte, len: nat, ghost trail: Trail)
    returns (next: nat, ghost printed: Trail)
    requires cursor == trail.Next() && trail.Leaves(buffer[..])
    requires cursor + |PrintHead(delta, len)| <= buffer.Length
    modifies buffer
    ensures printed == trail.(done := trail.done + PrintHead(delta, len))
    ensures next == printed.Next() && printed.Leaves(buffer[..])
  {
    var nibble := delta % 16 * 16;
    if len < 13 {
      next, printed := PutByte(buffer, cursor, nibble + len, trail);
    } else if len < 269 {
      next, printed := PutByte(buffer, cursor, nibble + 13, trail);
      next, printed := PutByte(buffer, next, len - 13, printed);
    } else {
      next, printed := PutByte(buffer, cursor, nibble + 14, trail);
      next, printed := PutShort(buffer, next, len - 269, printed);
    }
    assert printed.done == trail.done + PrintHead(delta, len);
  }

  /** After a successful receive of the lower layer, its window holds the datagram. */
  lemma DatagramInBuffer(c: Udp.UdpCfg, r: ReadResult, buflen: u16, before: seq<byte>,
                                            after: seq<byte>, x: string, y: string)
    requires |r.stored| <= |before| && Udp.Receive(c, r.Frame()).status >= 0
    requires Ip6Layer.Answered(c.ip6, r.Frame(), buflen, Splice(before, 0, r.stored), after, x, y)
    ensures var w := Udp.Receive(c, r.Frame());
            w.offset + w.len <= |after| && after[w.offset..w.offset + w.len] == Datagram(c, r.Frame())
  {
    hide Udp.Receive, Ip6Layer.IsSolicitation, Ip6Layer.Reply;
    var frame := r.Frame();
    Udp.SuccessLeavesFrame(c, frame);
    assert after[..|frame|] == frame;
    var w := Udp.Receive(c, frame);
    SliceOfPart(after, 0, frame, w.offset, w.offset + w.len);
  }

  class NetCoap {
    var hdrsize: u16
    var kind: byte
    var requestMethod: byte
    var responseCode: byte
    var token: Token
    var lastMessageId: u16
    var contentType: byte
    var uriPath: Strings
    var uriQuery: Strings
    const lower: Udp.NetUdp

    constructor (lower: Udp.NetUdp)
      ensures this.lower == lower
      ensures State() == CoapState(0, 0, 0, 0, [], 0, 0, [], [])
    {
      this.lower := lower;
      hdrsize, kind, requestMethod, responseCode := 0, 0, 0, 0;
      token, lastMessageId, contentType, uriPath, uriQuery := [], 0, 0, [], [];
    }

    function State(): CoapState
      reads this
    {
      CoapState(hdrsize, kind, requestMethod, responseCode, token, lastMessageId, contentType, uriPath, uriQuery)
    }

    function Serial(): HwSerial {
      lower.lower.lower.lower
    }

    method SetMethod(newKind: byte, newMethod: byte)
      modifies this
      ensures State() == Apply(old(State()), Op.SetMethod(newKind, newMethod))
    {
      kind := newKind;
      requestMethod := newMethod;
    }

    method SetToken(newToken: Token)
      modifies this
      ensures State() == Apply(old(State()), Op.SetToken(newToken))
    {
      token := newToken;
    }

    method SetUriPath(values: Strings)
      modifies this
      ensures State() == Apply(old(State()), Op.SetUriPath(values))
    {
      hdrsize := 0;
      uriPath := values;
    }

    method SetUriQuery(values: Strings)
      modifies this
      ensures State() == Apply(old(State()), Op.SetUriQuery(values))
    {
      hdrsize := 0;
      uriQuery := values;
    }

    method SetContentType(value: byte)
      modifies this
      ensures State() == Apply(old(State()), Op.SetContentType(value))
    {
      if (value == 0) != (contentType == 0) {
        hdrsize := 0;
      }
      contentType := value;
    }

    function GetResponseCode(): byte
      reads this
    {
      responseCode
    }

    /** _net_coap_compute_hdrsize, every addition in 16 bits. */
    method ComputeHdrSize() returns (size: u16)
      ensures size == FreshSize(State())
    {
      size := BASE_HDRSIZE + |token|;
      ghost var sum: nat := size;
      size, sum := AddStrings(size, uriPath, sum);
      size, sum := AddStrings(size, uriQuery, sum);
      if contentType != 0 {
        WrapAdd(sum, OptLen(1));
        size, sum := (size + OptLen(1)) % 0x1_0000, sum + OptLen(1);
      }
      WrapAdd(sum, 1);
      size := (size + 1) % 0x1_0000;
    }

    static method AddStrings(init: u16, values: Strings, ghost before: nat) returns (size: u16, ghost sum: nat)
      requires init == before % 0x1_0000
      ensures sum == before + StringsSize(values) && size == sum % 0x1_0000
    {
      size, sum := init, before;
      for n := 0 to |values|
        invariant sum == before + StringsSize(values[..n]) && size == sum % 0x1_0000
      {
        var datalen := |values[n]| % 0x1_0000;
        assert values[..n + 1][..n] == values[..n];
        WrapAdd(sum, OptLen(datalen));
        size, sum := (size + OptLen(datalen)) % 0x1_0000, sum + OptLen(datalen);
      }
      assert values[..|values|] == values;
    }

    method PloadPos() returns (pos: u16)
      modifies this
      ensures State() == Apply(old(State()), Op.PloadPos)
      ensures pos == (AT + hdrsize) % 0x1_0000
    {
      if hdrsize == 0 {
        hdrsize := ComputeHdrSize();
      }
      pos := (lower.PloadPos() + hdrsize) % 0x1_0000;
    }

    method Send(buffer: array<byte>, buflen: u16, dataoffset: u16, datalen: u16) returns (errno: int)
      requires var s := AfterSend(State());
               && AT + |Head(s, datalen)| <= buffer.Length
               && AT + SentLength(s, datalen) <= buffer.Length
               && AT + SentLength(s, datalen) < 0x1_0000
      modifies this, buffer, Serial()`output
      ensures State() == AfterSend(old(State()))
      ensures var message := Message(State(), old(buffer[..]), datalen);
              && errno == NET_STATUS_OK
              && buffer[..] == Splice(Printed(State(), old(buffer[..]), datalen), 0,
                                      Udp.Headers(lower.Cfg(), message))
              && Serial().output == old(Serial().output) + Line(Udp.Frame(lower.Cfg(), message))
    {
      PrepareSend();
      ghost var s, before := State(), buffer[..];
      var header_pos := lower.PloadPos();
      var actual := hdrsize - (if datalen > 0 then 0 else 1);
      PrintMessageHead(buffer, header_pos, datalen);
      assert buffer[..] == Printed(s, before, datalen);
      errno := PassDown(buffer, buflen, header_pos, (actual + datalen) % 0x1_0000, Message(s, before, datalen));
    }

    /** The call of the lower layer, whose payload starts at our header. */
    method PassDown(buffer: array<byte>, buflen: u16, header_pos: u16, len: u16, ghost message: seq<byte>)
      returns (errno: int)
      requires header_pos == AT && AT + len <= buffer.Length && AT + len < 0x1_0000
      requires buffer[AT..AT + len] == message
      modifies buffer, Serial()`output
      ensures errno == NET_STATUS_OK
      ensures buffer[..] == Splice(old(buffer[..]), 0, Udp.Headers(lower.Cfg(), message))
      ensures Serial().output == old(Serial().output) + Line(Udp.Frame(lower.Cfg(), message))
    {
      errno := lower.Send(buffer, buflen, header_pos, len);
    }

    /** The updates net_coap_send makes to the context. */
    method PrepareSend()
      modifies this
      ensures State() == AfterSend(old(State()))
    {
      lastMessageId := (lastMessageId + 1) % 0x1_0000;
      responseCode := 0;
      if hdrsize == 0 {
        hdrsize := ComputeHdrSize();
      }
    }

    /** The printing part of net_coap_send. */
    method PrintMessageHead(buffer: array<byte>, at: nat, datalen: nat)
      requires at + |Head(State(), datalen)| <= buffer.Length
      modifies buffer
      ensures buffer[..] == Splice(old(buffer[..]), at, Head(State(), datalen))
    {
      ghost var s := State();
      HeadParts(s, datalen);
      ghost var trail := Trail(buffer[..], at, []);
      var cursor := at;
      cursor, trail := PutFixedHeader(buffer, cursor, trail);
      cursor, trail := PutData(buffer, cursor, token, trail);
      assert trail.done == FixedHeader(s) + s.token;
      cursor, trail := PrintOptions(buffer, cursor, trail);
      assert trail.done == HeadWithoutMarker(s);
      if datalen > 0 {
        cursor, trail := PutByte(buffer, cursor, 0xFF, trail);
      } else {
        assert HeadWithoutMarker(s) + [] == HeadWithoutMarker(s);
      }
    }

    method PutFixedHeader(buffer: array<byte>, cursor: nat, ghost trail: Trail)
      returns (next: nat, ghost printed: Trail)
      requires cursor == trail.Next() && trail.Leaves(buffer[..])
      requires cursor + BASE_HDRSIZE <= buffer.Length
      modifies buffer
      ensures printed == trail.(done := trail.done + FixedHeader(State()))
      ensures next == printed.Next() && printed.Leaves(buffer[..])
    {
      next, printed := PutByte(buffer, cursor, VERSION * 64 + kind % 4 * 16 + |token| % 16, trail);
      next, printed := PutByte(buffer, next, requestMethod, printed);
      next, printed := PutShort(buffer, next, lastMessageId, printed);
      assert printed.done == trail.done + FixedHeader(State());
    }

    method PrintOptions(buffer: array<byte>, cursor: nat, ghost trail: Trail)
      returns (next: nat, ghost printed: Trail)
      requires cursor == trail.Next() && trail.Leaves(buffer[..])
      requires cursor + |Print(0, State().Options())| <= buffer.Length
      modifies buffer
      ensures printed == trail.(done := trail.done + Print(0, State().Options()))
      ensures next == printed.Next() && printed.Leaves(buffer[..])
    {
      ghost var d, e := PrintedParts(uriPath, contentType, uriQuery);
      ghost var paths := Print(0, Numbered(URIPATH, uriPath));
      ghost var content := Print(d, ContentItem(contentType));
      ghost var queries := Print(e, Numbered(URIQUERY, uriQuery));
      next, printed := PrintParts(buffer, cursor, d, e, paths, content, queries, trail);
    }

    /** The statements that print the options, against the bytes of each part. */
    method PrintParts(buffer: array<byte>, cursor: nat, ghost d: byte, ghost e: byte,
                      ghost paths: seq<byte>, ghost content: seq<byte>, ghost queries: seq<byte>,
                      ghost trail: Trail)
      returns (next: nat, ghost printed: Trail)
      requires d == LastDelta(0, Numbered(URIPATH, uriPath)) && e == LastDelta(d, ContentItem(contentType))
      requires paths == Print(0, Numbered(URIPATH, uriPath))
      requires content == Print(d, ContentItem(contentType))
      requires queries == Print(e, Numbered(URIQUERY, uriQuery))
      requires cursor == trail.Next() && trail.Leaves(buffer[..])
      requires cursor + |paths| + |content| + |queries| <= buffer.Length
      modifies buffer
      ensures printed == trail.(done := trail.done + (paths + content + queries))
      ensures next == printed.Next() && printed.Leaves(buffer[..])
    {
      hide Print, LastDelta, Numbered, ContentItem;
      var delta: byte := 0;
      next, delta, printed := PrintStrings(buffer, cursor, delta, URIPATH, uriPath, trail);
      next, delta, printed := PrintContent(buffer, next, delta, contentType, printed);
      next, delta, printed := PrintStrings(buffer, next, delta, URIQUERY, uriQuery, printed);
      assert trail.done + paths + content + queries == trail.done + (paths + content + queries);
    }

    static method PrintContent(buffer: array<byte>, cursor: nat, delta: byte, contenttype: byte, ghost trail: Trail)
      returns (next: nat, newDelta: byte, ghost printed: Trail)
      requires cursor == trail.Next() && trail.Leaves(buffer[..])
      requires cursor + |Print(delta, ContentItem(contenttype))| <= buffer.Length
      modifies buffer
      ensures printed == trail.(done := trail.done + Print(delta, ContentItem(contenttype)))
      ensures newDelta == LastDelta(delta, ContentItem(contenttype))
      ensures next == printed.Next() && printed.Leaves(buffer[..])
    {
      if contenttype != 0 {
        PrintNext(delta, [], Item(CONTENTFORMAT, [contenttype]));
        assert [] + ContentItem(contenttype) == ContentItem(contenttype);
        next, newDelta, printed := PutOption(buffer, cursor, delta, CONTENTFORMAT, [contenttype], trail);
      } else {
        next, newDelta, printed := cursor, delta, trail;
        assert trail.done + [] == trail.done;
      }
    }

    /** The loop over one list of strings. */
    static method PrintStrings(buffer: array<byte>, cursor: nat, delta: byte, number: byte, values: Strings,
                               ghost trail: Trail)
      returns (next: nat, newDelta: byte, ghost printed: Trail)
      requires cursor == trail.Next() && trail.Leaves(buffer[..])
      requires cursor + |Print(delta, Numbered(number, values))| <= buffer.Length
      modifies buffer
      ensures printed == trail.(done := trail.done + Print(delta, Numbered(number, values)))
      ensures newDelta == LastDelta(delta, Numbered(number, values))
      ensures next == printed.Next() && printed.Leaves(buffer[..])
    {
      next, newDelta, printed := cursor, delta, trail;
      assert trail.done + [] == trail.done;
      for n := 0 to |values|
        invariant printed == trail.(done := trail.done + Print(delta, Numbered(number, values[..n])))
        invariant newDelta == LastDelta(delta, Numbered(number, values[..n]))
        invariant next == printed.Next() && printed.Leaves(buffer[..])
      {
        ghost var before, x := Numbered(number, values[..n]), Item(number, values[n]);
        NumberedSplit(number, values, n);
        PrintNext(delta, before, x);
        PrintPrefix(delta, before + [x], Numbered(number, values[n + 1..]));
        next, newDelta, printed := PutOption(buffer, next, newDelta, number, values[n], printed);
      }
      assert values[..|values|] == values;
    }

    method Recv(buffer: array<byte>, buflen: u16) returns (errno: int, dataoffset: nat, datalen: nat)
      requires buflen <= buffer.Length
      requires Ip6Layer.AnswerHasRoom(lower.lower.Cfg(), ReadCall(Serial().input, buflen).Frame(), buflen,
                                      buffer.Length)
      modifies `responseCode, buffer, Serial()`input, Serial()`output
      ensures var r := ReadCall(old(Serial().input), buflen);
              && Window(errno, dataoffset, datalen) == Receive(old(State()), lower.Cfg(), r.Frame())
              && State() == AfterReceive(old(State()), lower.Cfg(), r.Frame())
              && Serial().input == r.rest
              && Ip6Layer.Answered(lower.lower.Cfg(), r.Frame(), buflen, Splice(old(buffer[..]), 0, r.stored),
                                   buffer[..], old(Serial().output), Serial().output)
    {
      ghost var r := ReadCall(Serial().input, buflen);
      ghost var frame, before, sent := r.Frame(), buffer[..], Serial().output;
      errno, dataoffset, datalen := lower.Recv(buffer, buflen);
      if errno < 0 {
        dataoffset, datalen := 0, 0;
        return;
      }
      DatagramInBuffer(lower.Cfg(), r, buflen, before, buffer[..], sent, Serial().output);
      errno, dataoffset, datalen := Process(buffer, dataoffset, datalen, lower.Cfg(), frame);
    }

    method Process(buffer: array<byte>, udpoffset: nat, udplen: nat, ghost c: Udp.UdpCfg, ghost frame: seq<byte>)
      returns (errno: int, dataoffset: nat, datalen: nat)
      requires var w := Udp.Receive(c, frame);
               w.status >= 0 && w.offset == udpoffset && w.len == udplen
      requires udpoffset + udplen <= buffer.Length
      requires buffer[udpoffset..udpoffset + udplen] == Datagram(c, frame)
      modifies `responseCode
      ensures Window(errno, dataoffset, datalen) == Receive(old(State()), c, frame)
      ensures State() == AfterReceive(old(State()), c, frame)
    {
      errno, dataoffset, datalen := ParseMessage(buffer, udpoffset, udplen);
    }

    /** net_coap_recv from where the lower layer has opened its window. */
    method ParseMessage(buffer: array<byte>, at: nat, len: nat)
      returns (errno: int, dataoffset: nat, datalen: nat)
      requires at + len <= buffer.Length
      modifies `responseCode
      ensures var o := Parse(old(State()), old(buffer[at..at + len]));
              && Window(errno, dataoffset, datalen) == Narrow(o, at)
              && State() == old(State()).(responseCode := o.responseCode)
    {
      ghost var m := buffer[at..at + len];
      dataoffset, datalen := 0, 0;
      if len < BASE_HDRSIZE {
        return NET_EOVERFLOW, 0, 0;
      }
      var vtt, code := buffer[at], buffer[at + 1];
      var messageid := Word(buffer[at + 2], buffer[at + 3]);
      assert vtt == m[0] && code == m[1] && messageid == GetBe16(m, 2);
      if vtt / 64 != VERSION {
        return NET_EPROTO, 0, 0;
      }
      var msgKind, tokenlen := vtt / 16 % 4, vtt % 16;
      if msgKind >= 2 {
        errno := AcceptAck(msgKind, code, messageid);
      } else if msgKind == NONCONFIRMABLE {
        errno, dataoffset, datalen := AcceptNon(buffer, at, len, code, tokenlen);
      } else {
        errno := NET_EINVAL;
      }
    }

    method AcceptAck(msgKind: byte, code: byte, messageid: u16) returns (errno: int)
      modifies `responseCode
      ensures var o := ParseAck(old(State()), msgKind, code, messageid);
              && Window(errno, 0, 0) == Narrow(o, 0)
              && errno != NET_STATUS_OK
              && State() == old(State()).(responseCode := o.responseCode)
    {
      if messageid == lastMessageId && code == EMPTY {
        if msgKind == ACKNOWLEDGE {
          responseCode := code;
          errno := STATUS_ACK;
        } else {
          errno := STATUS_RST;
        }
      } else {
        errno := NET_EAGAIN;
      }
    }

    method AcceptNon(buffer: array<byte>, at: nat, len: nat, code: byte, tokenlen: byte)
      returns (errno: int, dataoffset: nat, datalen: nat)
      requires at + len <= buffer.Length && BASE_HDRSIZE <= len
      modifies `responseCode
      ensures var o := ParseNon(old(State()), old(buffer[at..at + len]), code, tokenlen);
              && Window(errno, dataoffset, datalen) == Narrow(o, at)
              && State() == old(State()).(responseCode := o.responseCode)
    {
      ghost var o;
      errno, dataoffset, datalen, o := ReadNon(buffer, at, len, tokenlen, code);
      if errno == NET_STATUS_OK {
        responseCode := code;
      }
    }

    method ReadNon(buffer: array<byte>, at: nat, len: nat, tokenlen: byte, ghost code: byte)
      returns (errno: int, dataoffset: nat, datalen: nat, ghost o: Outcome)
      requires at + len <= buffer.Length && BASE_HDRSIZE <= len
      ensures o == ParseNon(State(), buffer[at..at + len], code, tokenlen)
      ensures Window(errno, dataoffset, datalen) == Narrow(o, at)
      ensures o.responseCode == if errno == NET_STATUS_OK then code else responseCode
    {
      ghost var m := buffer[at..at + len];
      o := ParseNon(State(), m, code, tokenlen);
      if len < BASE_HDRSIZE + tokenlen {
        return NET_EOVERFLOW, 0, 0, o;
      }
      ParseNonOf(State(), m, code, tokenlen);
      var cursor := at + BASE_HDRSIZE;
      SliceOfPart(buffer[..], at, m, BASE_HDRSIZE, BASE_HDRSIZE + tokenlen);
      var same := SameToken(buffer, cursor, tokenlen);
      if !same {
        return NET_EAGAIN, 0, 0, o;
      }
      ghost var options := m[BASE_HDRSIZE + tokenlen..];
      SuffixOfPart(buffer[..], at, m, BASE_HDRSIZE + tokenlen);
      errno, cursor, datalen := SkipOptions(buffer, cursor + tokenlen, len - BASE_HDRSIZE - tokenlen, options);
      NarrowOf(State(), Walk(options), code, BASE_HDRSIZE + tokenlen, at);
      dataoffset := cursor;
      if errno < 0 {
        dataoffset, datalen := 0, 0;
      }
    }

    /** The two token tests: the length, then the bytes. */
    method SameToken(buffer: array<byte>, at: nat, tokenlen: byte) returns (same: bool)
      requires at + tokenlen <= buffer.Length
      ensures same <==> buffer[at..at + tokenlen] == token
    {
      if tokenlen != |token| {
        return false;
      }
      same := buffer[at..at + tokenlen] == token;
    }
  }
}
