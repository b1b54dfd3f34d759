/**
 What one context sends, its mirrored peer receives: layer by layer, then from the serial
 line up through the whole stack.
 */
module RoundTrip {
  import opened Bytes
  import opened Serial
  import SerialFraming
  import Mac
  import Ip6
  import Ip6Layer
  import Udp
  import opened CoapOptions
  import opened CoapPrinter
  import opened CoapDelimiting
  import opened Coap

  // ---------------------------------------------------------------- layout of a frame

  /** The frame is the headers of all layers and the payload, with no gap. */
  lemma FrameLayout(c: Udp.UdpCfg, payload: seq<byte>)
    ensures var frame, len := Udp.Frame(c, payload), Udp.HDRSIZE + |payload|;
            && |frame| == Udp.PLOAD + |payload|
            && frame[..Ip6.AT] == Mac.Header(c.ip6.mac)
            && frame[Ip6.AT..Ip6.PLOAD] == Ip6.Header(c.ip6, len)
            && frame[Udp.AT..Udp.PLOAD] == Udp.Header(c, len, Udp.Field(c, payload))
            && frame[Udp.PLOAD..] == payload
  {
  }

  /** Every field of the frame at its place, and each length field the bytes behind it. */
  lemma FrameFields(c: Udp.UdpCfg, payload: seq<byte>)
    requires Udp.HDRSIZE + |payload| < 0x1_0000
    ensures var frame := Udp.Frame(c, payload);
            && |frame| == 62 + |payload|
            && frame[0..6] == c.ip6.mac.dst && frame[6..12] == c.ip6.mac.src && frame[12..14] == c.ip6.mac.ethertype
            && frame[14..18] == [0x60, 0, 0, 0] && GetBe16(frame, 18) == |frame[54..]|
            && frame[20] == c.ip6.nh && frame[21] == 255
            && frame[22..38] == c.ip6.src && frame[38..54] == c.ip6.dst
            && GetBe16(frame, 54) == c.sport && GetBe16(frame, 56) == c.dport
            && GetBe16(frame, 58) == |frame[54..]| && GetBe16(frame, 60) == Udp.Field(c, payload)
            && frame[62..] == payload
  {
    var frame, len := Udp.Frame(c, payload), Udp.HDRSIZE + |payload|;
    FrameLayout(c, payload);
    var mac, ip6, udp := Mac.Header(c.ip6.mac), Ip6.Header(c.ip6, len), Udp.Header(c, len, Udp.Field(c, payload));
    ThreeParts(c.ip6.mac.dst, c.ip6.mac.src, c.ip6.mac.ethertype);
    SliceOfPart(frame, 0, mac, 0, 6);
    SliceOfPart(frame, 0, mac, 6, 12);
    SliceOfPart(frame, 0, mac, 12, 14);
    Ip6Fields(frame, c.ip6, len);
    assert udp[0..2] == Be16(c.sport) && udp[2..4] == Be16(c.dport) && udp[4..6] == Be16(len);
    assert udp[6..8] == Be16(Udp.Field(c, payload));
    WordOfPart(frame, Udp.AT, udp, 0, c.sport);
    WordOfPart(frame, Udp.AT, udp, 2, c.dport);
    WordOfPart(frame, Udp.AT, udp, 4, len);
    WordOfPart(frame, Udp.AT, udp, 6, Udp.Field(c, payload));
  }

  /** The fields of an IPv6 header in a frame. */
  lemma Ip6Fields(frame: seq<byte>, c: Ip6.Ip6Cfg, len: u16)
    requires |frame| >= Ip6.PLOAD && frame[Ip6.AT..Ip6.PLOAD] == Ip6.Header(c, len)
    ensures frame[14..18] == [0x60, 0, 0, 0] && GetBe16(frame, 18) == len
    ensures frame[20] == c.nh && frame[21] == 255
    ensures frame[22..38] == c.src && frame[38..54] == c.dst
  {
    var header := Ip6.Header(c, len);
    ThreeParts(Ip6.HeaderCommon(len, c.nh), c.src, c.dst);
    assert header[0..4] == [0x60, 0, 0, 0] && header[4..6] == Be16(len);
    SliceOfPart(frame, Ip6.AT, header, 0, 4);
    WordOfPart(frame, Ip6.AT, header, 4, len);
    ByteOfPart(frame, Ip6.AT, header, 6);
    ByteOfPart(frame, Ip6.AT, header, 7);
    SliceOfPart(frame, Ip6.AT, header, 8, 24);
    SliceOfPart(frame, Ip6.AT, header, 24, 40);
  }

  // ---------------------------------------------------------------- UDP

  /** `b` expects what `a` sends. */
  predicate Mirrored(a: Udp.UdpCfg, b: Udp.UdpCfg) {
    && b.sport == a.dport && b.dport == a.sport
    && b.ip6.src == a.ip6.dst && b.ip6.dst == a.ip6.src && b.ip6.nh == a.ip6.nh
    && b.ip6.mac.ethertype == a.ip6.mac.ethertype && Mac.Admits(b.ip6.mac, a.ip6.mac.dst)
  }

  /** The IPv6 layer of the peer, with link-layer padding behind the packet. */
  lemma Ip6RoundTrip(a: Ip6.Ip6Cfg, b: Ip6.Ip6Cfg, payload: seq<byte>, padding: seq<byte>)
    requires b.src == a.dst && b.dst == a.src && b.nh == a.nh
    requires b.mac.ethertype == a.mac.ethertype && Mac.Admits(b.mac, a.mac.dst)
    requires |payload| < 0x1_0000
    ensures var w := Ip6Layer.Receive(b, Ip6.Frame(a, payload) + padding);
            if a.nh == Ip6.NH_ICMPV6 then w.status < 0
            else w == Window(NET_STATUS_OK, Ip6.PLOAD, |payload|)
  {
    var frame, header := Ip6.Frame(a, payload) + padding, Ip6.Header(a, |payload|);
    assert frame == Mac.Header(a.mac) + (header + (payload + padding));
    assert frame[..6] == a.mac.dst && frame[12..14] == a.mac.ethertype;
    assert frame[Ip6.AT..Ip6.PLOAD] == header;
    Ip6Fields(frame, a, |payload|);
    assert frame[Ip6.AT] == frame[14..18][0];
  }

  /**
   The mirrored peer gets the sender's offset, length and payload back, whatever padding the
   link adds. The one next header for which it never does is ICMPv6.
   */
  lemma UdpRoundTrip(a: Udp.UdpCfg, b: Udp.UdpCfg, payload: seq<byte>, padding: seq<byte>)
    requires Mirrored(a, b)
    requires Udp.HDRSIZE + |payload| < 0x1_0000
    ensures var frame := Udp.Frame(a, payload) + padding;
            && (Udp.Receive(b, frame) == Window(NET_STATUS_OK, Udp.PLOAD, |payload|) <==> a.ip6.nh != Ip6.NH_ICMPV6)
            && frame[Udp.PLOAD..Udp.PLOAD + |payload|] == payload
  {
    var frame, header := Udp.Frame(a, payload) + padding, Udp.Header(a, Udp.HDRSIZE + |payload|, Udp.Field(a, payload));
    Ip6RoundTrip(a.ip6, b.ip6, Udp.Datagram(a, payload), padding);
    assert frame[Udp.AT..Udp.PLOAD] == header;
    assert header[0..2] == Be16(a.sport) && header[2..4] == Be16(a.dport);
    assert header[4..6] == Be16(Udp.HDRSIZE + |payload|);
    WordOfPart(frame, Udp.AT, header, 0, a.sport);
    WordOfPart(frame, Udp.AT, header, 2, a.dport);
    WordOfPart(frame, Udp.AT, header, 4, Udp.HDRSIZE + |payload|);
  }

  // ---------------------------------------------------------------- windows

  /** A successful receive opens a window inside the one of the layer below. */
  lemma WindowsNest(s: CoapState, c: Udp.UdpCfg, frame: seq<byte>)
    ensures var w := Mac.Receive(c.ip6.mac, frame);
            w.status >= 0 ==> w.offset + w.len == |frame|
    ensures var v, w := Mac.Receive(c.ip6.mac, frame), Ip6Layer.Receive(c.ip6, frame);
            w.status >= 0 ==> v.status >= 0 && v.offset < w.offset && w.offset + w.len <= v.offset + v.len
    ensures var v, w := Ip6Layer.Receive(c.ip6, frame), Udp.Receive(c, frame);
            w.status >= 0 ==> v.status >= 0 && v.offset < w.offset && w.offset + w.len == v.offset + v.len
    ensures var v, w := Udp.Receive(c, frame), Receive(s, c, frame);
            w.status == NET_STATUS_OK ==>
              && v.status >= 0 && v.offset < w.offset
              && w.len != 1
              && w.offset + (if w.len == 0 then 0 else w.len - 1) == v.offset + v.len
    ensures var w := Receive(s, c, frame); w.status != NET_STATUS_OK ==> w.offset == 0 && w.len == 0
  {
    if Receive(s, c, frame).status == NET_STATUS_OK {
      ParsedWindow(s, Datagram(c, frame));
    }
  }

  lemma ParsedWindow(s: CoapState, m: seq<byte>)
    requires Parse(s, m).status == NET_STATUS_OK
    ensures var o := Parse(s, m);
            && BASE_HDRSIZE <= o.consumed && o.left != 1
            && o.consumed + (if o.left == 0 then 0 else o.left - 1) == |m|
  {
  }

  /** The UDP error that leaves its window open: a datagram for us that claims too many bytes. */
  lemma OpenWindowOnError(c: Udp.UdpCfg, frame: seq<byte>)
    ensures var v, w := Ip6Layer.Receive(c.ip6, frame), Udp.Receive(c, frame);
            w.status != NET_STATUS_OK && w.len > 0 <==>
              && v.status >= 0 && v.len >= Udp.HDRSIZE
              && GetBe16(frame, Udp.AT) == c.dport && GetBe16(frame, Udp.AT + 2) == c.sport
              && GetBe16(frame, Udp.AT + 4) > v.len
  {
    if Ip6Layer.Receive(c.ip6, frame).status >= 0 {
      Ip6Layer.SuccessLeavesFrame(c.ip6, frame);
    }
  }

  /**
   The window of net_udp_recv has the length of the IPv6 packet. It is that of the datagram
   exactly when both length fields agree.
   */
  lemma WindowIsDatagramIff(c: Udp.UdpCfg, frame: seq<byte>)
    requires Udp.Receive(c, frame).status >= 0
    ensures Ip6.HasHeader(frame) && |frame| >= Udp.PLOAD
    ensures var w, len := Udp.Receive(c, frame), GetBe16(frame, Udp.AT + 4);
            && Udp.HDRSIZE + w.len == Ip6.PayloadLength(frame) >= len
            && (Udp.HDRSIZE + w.len == len <==> Ip6.PayloadLength(frame) == len)
  {
    Ip6Layer.SuccessLeavesFrame(c.ip6, frame);
  }

  /** A datagram of a mirrored context with any length field: too large a one is an error, a small one ignored. */
  lemma UdpLengthField(a: Udp.UdpCfg, b: Udp.UdpCfg, len: u16, field: u16, payload: seq<byte>)
    requires Mirrored(a, b) && a.ip6.nh != Ip6.NH_ICMPV6
    requires Udp.HDRSIZE + |payload| < 0x1_0000
    ensures Udp.Receive(b, Ip6.Frame(a.ip6, Udp.Header(a, len, field) + payload))
            == if len > Udp.HDRSIZE + |payload| then Window(NET_EOVERFLOW, Udp.AT, Udp.HDRSIZE + |payload|)
               else Window(NET_STATUS_OK, Udp.PLOAD, |payload|)
  {
    var header := Udp.Header(a, len, field);
    var datagram := header + payload;
    var frame := Ip6.Frame(a.ip6, datagram) + [];
    Ip6RoundTrip(a.ip6, b.ip6, datagram, []);
    assert frame == Ip6.Frame(a.ip6, datagram);
    assert frame[Udp.AT..Udp.AT + |datagram|] == datagram;
    UdpHeaderFields(frame, a, len, field, payload);
  }

  lemma UdpHeaderFields(frame: seq<byte>, c: Udp.UdpCfg, len: u16, field: u16, payload: seq<byte>)
    requires var datagram := Udp.Header(c, len, field) + payload;
             Udp.AT + |datagram| <= |frame| && frame[Udp.AT..Udp.AT + |datagram|] == datagram
    ensures GetBe16(frame, Udp.AT) == c.sport && GetBe16(frame, Udp.AT + 2) == c.dport
    ensures GetBe16(frame, Udp.AT + 4) == len
  {
    var datagram := Udp.Header(c, len, field) + payload;
    assert datagram[0..2] == Be16(c.sport) && datagram[2..4] == Be16(c.dport) && datagram[4..6] == Be16(len);
    WordOfPart(frame, Udp.AT, datagram, 0, c.sport);
    WordOfPart(frame, Udp.AT, datagram, 2, c.dport);
    WordOfPart(frame, Udp.AT, datagram, 4, len);
  }

  /** An empty datagram with a surplus byte behind it, and one that claims a byte it has not. */
  lemma WrongUdpLengths(a: Udp.UdpCfg, b: Udp.UdpCfg)
    requires Mirrored(a, b) && a.ip6.nh != Ip6.NH_ICMPV6
    ensures Udp.Receive(b, Ip6.Frame(a.ip6, Udp.Header(a, 8, 0) + [7])) == Window(NET_STATUS_OK, 62, 1)
    ensures Udp.Receive(b, Ip6.Frame(a.ip6, Udp.Header(a, 9, 0) + [])) == Window(NET_EOVERFLOW, 54, 8)
  {
    UdpLengthField(a, b, 8, 0, [7]);
    UdpLengthField(a, b, 9, 0, []);
  }

  // ---------------------------------------------------------------- CoAP

  /** A context in the middle of a send whose header fits: nothing is truncated to 16 bits. */
  predicate Fits(s: CoapState, datalen: nat) {
    AT + |Head(s, datalen)| + datalen < 0x1_0000
  }

  lemma {:induction false} StringsSizeIsFormula(number: byte, values: seq<seq<byte>>)
    requires AllShort(0xFFFF, Numbered(number, values))
    ensures StringsSize(values) == FormulaSize(Numbered(number, values))
    decreases |values|
  {
    if values != [] {
      var n := |values| - 1;
      var init := values[..n];
      assert Numbered(number, values) == Numbered(number, init) + [Item(number, values[n])];
      assert |Numbered(number, values)[n].value| <= 0xFFFF;
      assert forall i :: 0 <= i < n ==> Numbered(number, init)[i] == Numbered(number, values)[i];
      StringsSizeIsFormula(number, init);
      FormulaConcat(Numbered(number, init), [Item(number, values[n])]);
      assert FormulaSize([Item(number, values[n])]) == OptLen(|values[n]|) + FormulaSize([]);
    }
  }

  lemma FormulaOfParts(s: CoapState)
    requires AllShort(0xFFFF, s.Options())
    ensures FormulaSize(s.Options()) == StringsSize(s.uriPath) + StringsSize(s.uriQuery)
                                        + if s.contentType != 0 then OptLen(1) else 0
  {
    var p, c, q := Numbered(URIPATH, s.uriPath), ContentItem(s.contentType), Numbered(URIQUERY, s.uriQuery);
    FormulaConcat(p + c, q);
    FormulaConcat(p, c);
    assert s.Options() == p + c + q;
    assert forall i :: 0 <= i < |p| ==> p[i] == s.Options()[i];
    assert forall i :: 0 <= i < |q| ==> q[i] == s.Options()[|p| + |c| + i];
    StringsSizeIsFormula(URIPATH, s.uriPath);
    StringsSizeIsFormula(URIQUERY, s.uriQuery);
    if s.contentType != 0 {
      assert FormulaSize(c) == OptLen(1) + FormulaSize([]);
    }
  }

  lemma {:induction false} PrintedValuesAreShort(delta: byte, items: seq<Item>, bound: nat)
    requires |Print(delta, items)| <= bound
    ensures AllShort(bound, items)
    decreases |items|
  {
    if items != [] {
      var d := NextDelta(delta, items[0].number);
      assert Steps(delta, items)[1..] == Steps(d, items[1..]);
      PrintedValuesAreShort(d, items[1..], bound);
      assert forall i :: 1 <= i < |items| ==> items[i] == items[1..][i - 1];
    }
  }

  lemma FreshSizeIsFormula(s: CoapState)
    requires AllShort(0xFFFF, s.Options())
    requires BASE_HDRSIZE + |s.token| + FormulaSize(s.Options()) + 1 < 0x1_0000
    ensures FreshSize(s) == BASE_HDRSIZE + |s.token| + FormulaSize(s.Options()) + 1
  {
    FormulaOfParts(s);
  }

  /**
   The printed head is as long as the computed header size, less the marker when there is
   no payload, plus one byte for every option of 269 bytes or more.
   */
  lemma PrintedHeadSize(s: CoapState, datalen: nat)
    requires Fits(s, datalen)
    ensures |Head(s, datalen)| + (if datalen > 0 then 0 else 1) == FreshSize(s) + LongOptions(s.Options())
    ensures FreshSize(s) > 0
  {
    HeadParts(s, datalen);
    PrintedValuesAreShort(0, s.Options(), 0xFFFF);
    PrintedSize(0, s.Options());
    FreshSizeIsFormula(s);
  }

  /**
   The message handed down, in a coherent context: the head, then the payload the caller
   put behind `net_coap_pload_pos`. Each option of 269 bytes or more costs the payload its
   first byte, which the head has overwritten; when there are more such options than
   payload bytes, the rest is missing at the end of the head.
   */
  lemma MessageIsHeadAndPayload(s: CoapState, buffer: seq<byte>, datalen: nat)
    requires Fits(s, datalen) && s.hdrsize == FreshSize(s)
    requires AT + |Head(s, datalen)| <= |buffer|
    requires AT + SentLength(s, datalen) <= |buffer|
    ensures datalen > 0 ==> Head(s, datalen)[|Head(s, datalen)| - 1] == 0xFF
    ensures var k, pos := LongOptions(s.Options()), AT + s.hdrsize - (if datalen > 0 then 0 else 1);
            && pos + datalen <= |buffer|
            && k <= |Head(s, datalen)| && AT + |Head(s, datalen)| == pos + k
            && Message(s, buffer, datalen)
               == if k <= datalen then Head(s, datalen) + buffer[pos + k..pos + datalen]
                  else Head(s, datalen)[..|Head(s, datalen)| - (k - datalen)]
  {
    var head, n := Head(s, datalen), SentLength(s, datalen);
    PrintedHeadSize(s, datalen);
    HeadEndsInMarker(s, datalen);
    SentLengthOf(s, datalen, |head| - LongOptions(s.Options()));
    if |head| <= n {
      SliceFromSplice(buffer, AT, head, AT + n);
    } else {
      SliceInSplice(buffer, AT, head, 0, n);
    }
  }

  /** Head and payload are sent as they are exactly when no option is too long for the formula. */
  lemma MessageIsWholeIff(s: CoapState, buffer: seq<byte>, datalen: nat)
    requires Fits(s, datalen) && s.hdrsize == FreshSize(s)
    requires AT + |Head(s, datalen)| <= |buffer|
    requires AT + SentLength(s, datalen) <= |buffer|
    ensures var pos := AT + s.hdrsize - (if datalen > 0 then 0 else 1);
            && pos + datalen <= |buffer|
            && (Message(s, buffer, datalen) == Head(s, datalen) + buffer[pos..pos + datalen]
                <==> LongOptions(s.Options()) == 0)
  {
    MessageIsHeadAndPayload(s, buffer, datalen);
  }

  lemma SentLengthOf(s: CoapState, datalen: nat, size: nat)
    requires size == s.hdrsize - (if datalen > 0 then 0 else 1) && size + datalen < 0x1_0000
    ensures SentLength(s, datalen) == size + datalen
  {
  }

  lemma HeadEndsInMarker(s: CoapState, datalen: nat)
    ensures datalen > 0 ==> var head := Head(s, datalen); |head| > 0 && head[|head| - 1] == 0xFF
  {
    if datalen > 0 {
      LastOfAppend(HeadWithoutMarker(s), 0xFF);
    }
  }

  lemma LastOfAppend(a: seq<byte>, x: byte)
    ensures (a + [x])[|a + [x]| - 1] == x
  {
  }

  /** A message the peer can delimit; `more` tells whether it has a payload. */
  predicate Readable(s: CoapState, more: bool) {
    && s.kind % 4 == NONCONFIRMABLE
    && |s.token| < 16
    && Delimited(s.uriPath, s.contentType, s.uriQuery, more)
  }

  /** The three fields packed into the first byte. */
  lemma FirstByte(kind: byte, tokenlen: byte)
    ensures var vtt := VERSION * 64 + kind % 4 * 16 + tokenlen % 16;
            vtt / 64 == VERSION && vtt / 16 % 4 == kind % 4 && vtt % 16 == tokenlen % 16
  {
  }

  /** The fixed header and the token, field by field. */
  lemma HeadFields(s: CoapState, datalen: nat)
    ensures var head, n := Head(s, datalen), BASE_HDRSIZE + |s.token|;
            && |head| >= n
            && head[0] / 64 == VERSION && head[0] / 16 % 4 == s.kind % 4 && head[0] % 16 == |s.token| % 16
            && head[1] == s.requestMethod
            && GetBe16(head, 2) == s.lastMessageId
            && head[BASE_HDRSIZE..n] == s.token
            && head[n..] == Print(0, s.Options()) + if datalen > 0 then [0xFF] else []
  {
    var fixed := FixedHeader(s);
    var rest := Print(0, s.Options()) + if datalen > 0 then [0xFF] else [];
    Regroup(fixed, s.token, Print(0, s.Options()), if datalen > 0 then [0xFF] else [], []);
    assert Head(s, datalen) == fixed + (s.token + rest);
    TokenAndRest(fixed, s.token, rest);
    FirstByte(s.kind, |s.token|);
    assert Head(s, datalen)[0] == Head(s, datalen)[..BASE_HDRSIZE][0] == fixed[0];
    assert Head(s, datalen)[1] == Head(s, datalen)[..BASE_HDRSIZE][1] == fixed[1];
    assert fixed[2..4] == Be16(s.lastMessageId);
    WordOfPart(Head(s, datalen), 0, fixed, 2, s.lastMessageId);
  }

  lemma Regroup(fixed: seq<byte>, token: seq<byte>, options: seq<byte>, marker: seq<byte>,
                                   payload: seq<byte>)
    ensures fixed + token + options + marker + payload == fixed + (token + (options + (marker + payload)))
  {
  }

  lemma HeadAndPayload(s: CoapState, payload: seq<byte>)
    ensures Head(s, |payload|) + payload == FixedHeader(s) + (s.token + (Print(0, s.Options()) + Marked(payload)))
  {
    var marker := if payload == [] then [] else [0xFF];
    Regroup(FixedHeader(s), s.token, Print(0, s.Options()), marker, payload);
    assert Marked(payload) == marker + payload;
  }

  lemma TokenAndRest(fixed: seq<byte>, token: seq<byte>, rest: seq<byte>)
    ensures var m, n := fixed + (token + rest), |fixed|;
            m[..n] == fixed && m[n..n + |token|] == token && m[n + |token|..] == rest
  {
  }

  /** How a message with fixed header and token of `a` is parsed by a context with its token. */
  lemma {:induction false} ParseOfSent(a: CoapState, b: CoapState, rest: seq<byte>)
    requires a.kind % 4 == NONCONFIRMABLE && b.token == a.token
    ensures Parse(b, FixedHeader(a) + (a.token + rest))
            == if |a.token| < 16 then AfterOptions(b, Walk(rest), a.requestMethod, BASE_HDRSIZE + |a.token|)
               else Outcome(NET_EAGAIN, b.responseCode, 0, 0)
  {
    TokenAndRest(FixedHeader(a), a.token, rest);
    ParseOfParts(a, b, FixedHeader(a) + (a.token + rest), rest);
  }

  lemma {:induction false} ParseOfParts(a: CoapState, b: CoapState, m: seq<byte>, rest: seq<byte>)
    requires a.kind % 4 == NONCONFIRMABLE && b.token == a.token
    requires |m| == BASE_HDRSIZE + |a.token| + |rest| && m[..BASE_HDRSIZE] == FixedHeader(a)
    requires m[BASE_HDRSIZE..BASE_HDRSIZE + |a.token|] == a.token && m[BASE_HDRSIZE + |a.token|..] == rest
    ensures Parse(b, m)
            == if |a.token| < 16 then AfterOptions(b, Walk(rest), a.requestMethod, BASE_HDRSIZE + |a.token|)
               else Outcome(NET_EAGAIN, b.responseCode, 0, 0)
  {
    hide Walk;
    assert m[0] == m[..BASE_HDRSIZE][0] && m[1] == m[..BASE_HDRSIZE][1];
    ParseOfFixed(a, b, m);
    ParseNonOf(b, m, a.requestMethod, |a.token| % 16);
  }

  lemma ParseOfFixed(a: CoapState, b: CoapState, m: seq<byte>)
    requires a.kind % 4 == NONCONFIRMABLE && |m| >= BASE_HDRSIZE
    requires m[0] == FixedHeader(a)[0] && m[1] == FixedHeader(a)[1]
    ensures Parse(b, m) == ParseNon(b, m, a.requestMethod, |a.token| % 16)
  {
    FirstByte(a.kind, |a.token|);
  }

  lemma ParseOfNon(s: CoapState, m: seq<byte>, tokenlen: nat)
    requires BASE_HDRSIZE <= |m| && m[0] / 64 == VERSION && m[0] / 16 % 4 == NONCONFIRMABLE
    requires tokenlen == m[0] % 16 && BASE_HDRSIZE + tokenlen <= |m|
    requires m[BASE_HDRSIZE..BASE_HDRSIZE + tokenlen] == s.token
    ensures Parse(s, m) == AfterOptions(s, Walk(m[BASE_HDRSIZE + tokenlen..]), m[1], BASE_HDRSIZE + tokenlen)
  {
    assert Parse(s, m) == ParseNon(s, m, m[1], tokenlen);
    ParseNonOf(s, m, m[1], tokenlen);
  }

  /**
   A non-confirmable message with our token is accepted exactly when what follows the token
   is a list of options of the format, with or without a payload, as long as no 16-bit
   extended length wraps. The window then starts at the payload.
   */
  lemma AcceptedIffWellFormed(s: CoapState, m: seq<byte>)
    requires BASE_HDRSIZE <= |m| < 0x1_0000 && m[0] / 64 == VERSION && m[0] / 16 % 4 == NONCONFIRMABLE
    requires BASE_HDRSIZE + m[0] % 16 <= |m| && m[BASE_HDRSIZE..BASE_HDRSIZE + m[0] % 16] == s.token
    ensures var body := m[BASE_HDRSIZE + m[0] % 16..];
            && (Parse(s, m).status == NET_STATUS_OK && !MeetsWrap(body) <==> WellFormed(body))
            && (WellFormed(body) ==>
                  forall b: Body :: b.Encodable() && EncodeBody(b) == body ==>
                    && |b.payload| <= |m|
                    && Parse(s, m) == Outcome(NET_STATUS_OK, m[1], |m| - |b.payload|,
                                              if b.payload == [] then 0 else |b.payload| + 1))
  {
    hide Walk, Decode, MeetsWrap, EncodeBody;
    var tokenlen := m[0] % 16;
    var body := m[BASE_HDRSIZE + tokenlen..];
    ParseOfNon(s, m, tokenlen);
    WellFormedIffDecodes(body);
    WalkDecidesFormat(body);
    forall b: Body | b.Encodable() && EncodeBody(b) == body
      ensures Decode(body) == Some(b)
    {
      DecodeIsTheFormat(body, b);
    }
  }

  lemma SentOptions(a: CoapState, datalen: nat)
    requires Fits(a, datalen)
    ensures |Head(a, datalen)| == BASE_HDRSIZE + |a.token| + |Print(0, a.Options())| + if datalen > 0 then 1 else 0
    ensures |Print(0, a.Options())| < 0xFFFE && AllShort(MAX_EXTENDED, a.Options())
    ensures forall more :: Skippable(Print(0, a.Options()), more)
                           <==> Delimited(a.uriPath, a.contentType, a.uriQuery, more)
  {
    HeadParts(a, datalen);
    PrintedValuesAreShort(0, a.Options(), MAX_EXTENDED);
    SkippableIffDelimited(a.uriPath, a.contentType, a.uriQuery, true);
    SkippableIffDelimited(a.uriPath, a.contentType, a.uriQuery, false);
  }

  /**
   A reader of the format finds the sender's payload exactly when the option loop does and
   meets no wrapping length. When all deltas fit, it finds the printed steps as well.
   */
  lemma SentBodyIsReadIff(s: CoapState, payload: seq<byte>)
    requires Fits(s, |payload|)
    ensures var body := Print(0, s.Options()) + Marked(payload);
            && (Decode(body).Some? && Decode(body).value.payload == payload
                <==> Delimited(s.uriPath, s.contentType, s.uriQuery, payload != []) && !MeetsWrap(body))
            && (DeltasFit(s.uriPath, s.contentType, s.uriQuery) ==>
                  Decode(body) == Some(Body(Steps(0, s.Options()), payload)))
  {
    hide Walk, Decode, MeetsWrap, Skippable, Delimited, Print, Steps;
    SentOptions(s, |payload|);
    StopsIffSkippable(Print(0, s.Options()), payload);
    WalkDecidesFormat(Print(0, s.Options()) + Marked(payload));
    if DeltasFit(s.uriPath, s.contentType, s.uriQuery) {
      SentBodyDecodes(s, payload);
    }
  }

  lemma SentBodyDecodes(s: CoapState, payload: seq<byte>)
    requires DeltasFit(s.uriPath, s.contentType, s.uriQuery)
    requires AllShort(MAX_EXTENDED, s.Options())
    ensures Decode(Print(0, s.Options()) + Marked(payload)) == Some(Body(Steps(0, s.Options()), payload))
  {
    var steps := Steps(0, s.Options());
    DeltaRecurrence(s.uriPath, s.contentType, s.uriQuery);
    StepsAreEncodable(0, s.Options());
    PrintIsFormat(steps);
    DecodeIsTheFormat(Print(0, s.Options()) + Marked(payload), Body(steps, payload));
  }

  lemma OtherKindIsRejected(a: CoapState, b: CoapState, rest: seq<byte>)
    requires a.kind % 4 != NONCONFIRMABLE
    ensures Parse(b, FixedHeader(a) + rest).status != NET_STATUS_OK
  {
    var m := FixedHeader(a) + rest;
    FirstByte(a.kind, |a.token|);
    assert m[0] == FixedHeader(a)[0];
  }

  /**
   A message sent by `a` is accepted by a peer with the same token, which finds the method
   as response code and the payload right behind the head, exactly when it is readable: it
   is non-confirmable, the length of the token fits its field, and the option loop finds
   the end of the options.
   */
  lemma ParseRoundTrip(a: CoapState, b: CoapState, payload: seq<byte>)
    requires b.token == a.token
    requires Fits(a, |payload|)
    ensures Parse(b, Head(a, |payload|) + payload)
            == Outcome(NET_STATUS_OK, a.requestMethod, |Head(a, |payload|)|,
                       if payload == [] then 0 else |payload| + 1)
            <==> Readable(a, payload != [])
  {
    var options := Print(0, a.Options());
    HeadAndPayload(a, payload);
    if a.kind % 4 == NONCONFIRMABLE {
      ParseOfSent(a, b, options + Marked(payload));
      SentOptions(a, |payload|);
      StopsIffSkippable(options, payload);
    } else {
      OtherKindIsRejected(a, b, a.token + (options + Marked(payload)));
    }
  }

  /** A peer with another token ignores the message, if the length of ours fits its field. */
  lemma OtherTokenIsIgnored(a: CoapState, b: CoapState, payload: seq<byte>)
    requires a.kind % 4 == NONCONFIRMABLE && |a.token| < 16 && b.token != a.token
    ensures Parse(b, Head(a, |payload|) + payload) == Outcome(NET_EAGAIN, b.responseCode, 0, 0)
  {
    var rest := Print(0, a.Options()) + Marked(payload);
    HeadAndPayload(a, payload);
    TokenAndRest(FixedHeader(a), a.token, rest);
    ParseOfOtherToken(a, b, FixedHeader(a) + (a.token + rest));
  }

  lemma ParseOfOtherToken(a: CoapState, b: CoapState, m: seq<byte>)
    requires a.kind % 4 == NONCONFIRMABLE && |a.token| < 16 && b.token != a.token
    requires |m| >= BASE_HDRSIZE + |a.token| && m[..BASE_HDRSIZE] == FixedHeader(a)
    requires m[BASE_HDRSIZE..BASE_HDRSIZE + |a.token|] == a.token
    ensures Parse(b, m) == Outcome(NET_EAGAIN, b.responseCode, 0, 0)
  {
    assert m[0] == m[..BASE_HDRSIZE][0] && m[1] == m[..BASE_HDRSIZE][1];
    ParseOfFixed(a, b, m);
    ParseNonOf(b, m, a.requestMethod, |a.token|);
  }

  /** A token of 16 bytes or more is printed, but its length does not fit: no peer with it accepts. */
  lemma LongTokenIsRejected(a: CoapState, b: CoapState, payload: seq<byte>)
    requires a.kind % 4 == NONCONFIRMABLE && b.token == a.token && |a.token| >= 16
    ensures Parse(b, Head(a, |payload|) + payload).status == NET_EAGAIN
  {
    HeadAndPayload(a, payload);
    ParseOfSent(a, b, Print(0, a.Options()) + Marked(payload));
  }

  lemma WalkOfRejected(a: CoapState, payload: seq<byte>)
    requires a.contentType == 0 && !DeltasFit(a.uriPath, a.contentType, a.uriQuery)
    requires Fits(a, |payload|)
    ensures Walk(Print(0, a.Options()) + Marked(payload)) == Fail(NET_EPROTO)
  {
    SentOptions(a, |payload|);
    var front, misfit, rest := MisfitSteps(a.uriPath, a.contentType, a.uriQuery);
    FrontIsShort(a.uriPath, a.contentType, a.uriQuery, MAX_EXTENDED);
    StepsAreEncodable(0, Numbered(URIPATH, a.uriPath) + ContentItem(a.contentType));
    WalkFailsAfter(front, [misfit] + rest, Marked(payload));
  }

  /**
   When the guard fails without a content type, the first Uri-Query is printed with the
   reserved nibble, and every peer with the token answers with a protocol error.
   */
  lemma QueryIsRejected(a: CoapState, b: CoapState, payload: seq<byte>)
    requires a.kind % 4 == NONCONFIRMABLE && b.token == a.token && |a.token| < 16
    requires a.contentType == 0 && !DeltasFit(a.uriPath, a.contentType, a.uriQuery)
    requires Fits(a, |payload|)
    ensures Parse(b, Head(a, |payload|) + payload).status == NET_EPROTO
  {
    WalkOfRejected(a, payload);
    HeadAndPayload(a, payload);
    ParseOfSent(a, b, Print(0, a.Options()) + Marked(payload));
  }

  /**
   A single query of less than 13 bytes with delta 14 takes the marker and the first byte of
   the payload with it. The peer reports an error, or a window behind the sender's.
   */
  lemma ShortQueryIsMisread(a: CoapState, b: CoapState, payload: seq<byte>)
    requires a.kind % 4 == NONCONFIRMABLE && b.token == a.token && |a.token| < 16
    requires a.contentType != 0 && !DeltasFit(a.uriPath, a.contentType, a.uriQuery)
    requires |a.uriQuery| == 1 && |a.uriQuery[0]| < 13
    requires Fits(a, |payload|)
    ensures var o := Parse(b, Head(a, |payload|) + payload);
            if payload == [] then o.status == NET_EOVERFLOW
            else match Walk(payload[1..])
                 case Fail(e) => o.status == e
                 case End(c, l) => o == Outcome(NET_STATUS_OK, a.requestMethod, |Head(a, |payload|)| + 1 + c, l)
  {
    HeadAndPayload(a, payload);
    ParseOfSent(a, b, Print(0, a.Options()) + Marked(payload));
    SentOptions(a, |payload|);
    assert a.uriQuery == [a.uriQuery[0]];
    ShortQueryWalk(a.uriPath, a.contentType, a.uriQuery[0], payload);
  }

  // ---------------------------------------------------------------- the whole stack

  /**
   From the characters on the serial line to the window of net_coap_recv: a message of `a`
   is received by the mirrored `b` with its method, its payload and the payload position,
   exactly when it is readable.
   */
  lemma CoapRoundTrip(a: CoapState, b: CoapState, ca: Udp.UdpCfg, cb: Udp.UdpCfg,
                                         payload: seq<byte>, more: string, buflen: nat)
    requires b.token == a.token
    requires Mirrored(ca, cb) && ca.ip6.nh != Ip6.NH_ICMPV6
    requires Fits(a, |payload|)
    requires AT + |Head(a, |payload|)| + |payload| <= buflen
    ensures var head, frame := Head(a, |payload|), Udp.Frame(ca, Head(a, |payload|) + payload);
            var r := ReadCall(Line(frame) + more, buflen);
            && r.Frame() == r.stored == frame
            && (Receive(b, cb, frame)
                == Window(NET_STATUS_OK, AT + |head|, if payload == [] then 0 else |payload| + 1)
                && AfterReceive(b, cb, frame) == b.(responseCode := a.requestMethod)
                <==> Readable(a, payload != []))
            && frame[AT + |head|..] == payload
  {
    var message := Head(a, |payload|) + payload;
    var frame := Udp.Frame(ca, message);
    FrameSize(ca, message);
    LineRoundTrip(frame, more, buflen);
    FrameRoundTrip(a, b, ca, cb, payload);
    SuffixOfPart(frame, AT, message, |Head(a, |payload|)|);
  }

  lemma FrameRoundTrip(a: CoapState, b: CoapState, ca: Udp.UdpCfg, cb: Udp.UdpCfg,
                                          payload: seq<byte>)
    requires b.token == a.token
    requires Mirrored(ca, cb) && ca.ip6.nh != Ip6.NH_ICMPV6
    requires Fits(a, |payload|)
    ensures var head, frame := Head(a, |payload|), Udp.Frame(ca, Head(a, |payload|) + payload);
            Receive(b, cb, frame)
            == Window(NET_STATUS_OK, AT + |head|, if payload == [] then 0 else |payload| + 1)
            && AfterReceive(b, cb, frame) == b.(responseCode := a.requestMethod)
            <==> Readable(a, payload != [])
  {
    var n, message := |Head(a, |payload|)|, Head(a, |payload|) + payload;
    UdpWithoutPadding(ca, cb, message);
    ParseRoundTrip(a, b, payload);
    DeliveredIff(b, cb, Udp.Frame(ca, message), message, a.requestMethod, n,
                 if payload == [] then 0 else |payload| + 1);
  }

  /** A successful outcome of the parse, and what the caller of net_coap_recv sees of it. */
  lemma DeliveredIff(b: CoapState, c: Udp.UdpCfg, frame: seq<byte>, message: seq<byte>, code: byte,
                                        consumed: nat, left: nat)
    requires Udp.Receive(c, frame) == Window(NET_STATUS_OK, AT, |message|) && Datagram(c, frame) == message
    ensures Receive(b, c, frame) == Window(NET_STATUS_OK, AT + consumed, left)
            && AfterReceive(b, c, frame) == b.(responseCode := code)
            <==> Parse(b, message) == Outcome(NET_STATUS_OK, code, consumed, left)
  {
  }

  lemma FrameSize(c: Udp.UdpCfg, message: seq<byte>)
    ensures var frame := Udp.Frame(c, message);
            |frame| == AT + |message| && frame[AT..AT + |message|] == message
  {
    Udp.FrameIsHeadersAndPayload(c, message);
  }

  lemma LineRoundTrip(frame: seq<byte>, more: string, buflen: nat)
    requires 0 < |frame| <= buflen
    ensures var r := ReadCall(Line(frame) + more, buflen); r.Frame() == r.stored == frame
  {
    SerialFraming.ReadInvertsWrite(frame, more, buflen);
    assert |frame| == buflen ==> frame[..buflen] == frame;
  }

  lemma UdpWithoutPadding(a: Udp.UdpCfg, b: Udp.UdpCfg, message: seq<byte>)
    requires Mirrored(a, b) && a.ip6.nh != Ip6.NH_ICMPV6
    requires Udp.HDRSIZE + |message| < 0x1_0000
    ensures var frame := Udp.Frame(a, message);
            Udp.Receive(b, frame) == Window(NET_STATUS_OK, AT, |message|) && Datagram(b, frame) == message
  {
    UdpRoundTrip(a, b, message, []);
    assert Udp.Frame(a, message) + [] == Udp.Frame(a, message);
  }
}
