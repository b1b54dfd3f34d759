/**
 CoAP messages byte for byte, in the numbers of RFC 7252 and of proto_coap.h: what is
 accepted, what is printed, and what a reader finds in it. Nothing here is stated through a
 constant of another module.
 */
module CoapFormat {
  import opened Bytes
  import opened CoapOptions
  import opened CoapPrinter
  import opened Coap
  import CoapRuns
  import RoundTrip
  import Udp
  import WireFormat

  // ---------------------------------------------------------------- options

  /** One option of section 3.1 of RFC 7252. */
  lemma OptionBytes(o: Opt)
    requires o.delta <= 65804 && |o.value| <= 65804
    ensures o.Encodable()
    ensures var d, l := o.delta, |o.value|;
            EncodeOpt(o)
            == [(if d < 13 then d else if d < 269 then 13 else 14) * 16
                + if l < 13 then l else if l < 269 then 13 else 14]
               + (if d < 13 then [] else if d < 269 then [d - 13] else [(d - 269) / 256, (d - 269) % 256])
               + (if l < 13 then [] else if l < 269 then [l - 13] else [(l - 269) / 256, (l - 269) % 256])
               + o.value
  {
    ExtensionBytes(o.delta);
    ExtensionBytes(|o.value|);
  }

  lemma ExtensionBytes(v: nat)
    requires v <= 65804
    ensures v <= MAX_EXTENDED
    ensures Nibble(v) == if v < 13 then v else if v < 269 then 13 else 14
    ensures Extension(v)
            == if v < 13 then [] else if v < 269 then [v - 13] else [(v - 269) / 256, (v - 269) % 256]
  {
    if v >= 269 {
      assert (v - 269) / 0x100 % 0x100 == (v - 269) / 256;
    }
  }

  /** One option as it is printed: a delta of four bits without extension. */
  lemma PrintedOptionBytes(o: Opt)
    requires o.delta < 16 && |o.value| <= 65804
    ensures var d, l := o.delta, |o.value|;
            PrintOption(o)
            == [d * 16 + if l < 13 then l else if l < 269 then 13 else 14]
               + (if l < 13 then [] else if l < 269 then [l - 13] else [(l - 269) / 256, (l - 269) % 256])
               + o.value
  {
    ExtensionBytes(|o.value|);
    assert o.delta % 16 == o.delta;
  }

  /** The bytes of extension that a delta nibble announces. */
  function DeltaBytes(s: seq<byte>): nat
    requires s != []
  {
    if s[0] / 16 == 13 then 1 else if s[0] / 16 == 14 then 2 else 0
  }

  /** One turn of the option loop when neither nibble has an extension for the length. */
  lemma StepOnShortLength(s: seq<byte>)
    requires s != [] && s[0] % 16 < 13
    ensures var e, n := DeltaBytes(s), 1 + DeltaBytes(s) + s[0] % 16;
            OptionStep(s) == if s[0] / 16 == 15 then Bad(-5)
                             else if |s| < n then Bad(-3)
                             else Skip(n)
  {
  }

  /** The same with one or two bytes of extension; two are added to 269 in 16 bits. */
  lemma StepOnExtendedLength(s: seq<byte>)
    requires s != [] && (s[0] % 16 == 13 || s[0] % 16 == 14)
    ensures var e, f := DeltaBytes(s), s[0] % 16 - 12;
            if s[0] / 16 == 15 then OptionStep(s) == Bad(-5)
            else if |s| <= 1 + e + f then OptionStep(s) == Bad(-3)
            else
              var len := if f == 1 then s[1 + e] as int + 13 else (s[1 + e] as int * 256 + s[2 + e] + 269) % 65536;
              OptionStep(s) == if |s| < 1 + e + f + len then Bad(-3) else Skip(1 + e + f + len)
  {
  }

  /** The reserved length nibble. */
  lemma StepOnReservedLength(s: seq<byte>)
    requires s != [] && s[0] % 16 == 15
    ensures OptionStep(s) == if s[0] / 16 != 15 && DeltaBytes(s) > 0 && |s| <= DeltaBytes(s) then Bad(-3) else Bad(-5)
  {
  }

  /** Where the loop stops: at the end, at a marker, or at the first error. */
  lemma WalkStops(s: seq<byte>)
    ensures s == [] ==> Walk(s) == End(0, 0)
    ensures s != [] && s[0] == 0xFF ==> Walk(s) == if |s| == 1 then Fail(-3) else End(1, |s|)
    ensures s != [] && s[0] != 0xFF && OptionStep(s).Bad? ==> Walk(s) == Fail(OptionStep(s).error)
  {
  }

  // ---------------------------------------------------------------- received messages

  /** A message of version 1 and type non-confirmable (1) that carries our token. */
  predicate IsOurs(s: CoapState, m: seq<byte>) {
    && |m| >= 4
    && m[0] / 64 == 1 && m[0] / 16 % 4 == 1
    && 4 + m[0] % 16 <= |m| && m[4..4 + m[0] % 16] == s.token
  }

  /** A message is handed up exactly when it is ours and its options end; with the code in its second byte. */
  lemma ParseAcceptsIff(s: CoapState, m: seq<byte>)
    ensures Parse(s, m).status == 0 <==> IsOurs(s, m) && Walk(m[4 + m[0] % 16..]).End?
    ensures IsOurs(s, m) ==>
              var n := 4 + m[0] % 16;
              match Walk(m[n..])
              case Fail(e) => Parse(s, m) == Outcome(e, s.responseCode, 0, 0)
              case End(c, l) => Parse(s, m) == Outcome(0, m[1], n + c, l)
  {
    hide Walk;
  }

  /** What every other message gives; the response code is kept but for an acknowledgement. */
  lemma ParseErrors(s: CoapState, m: seq<byte>)
    ensures |m| < 4 ==> Parse(s, m) == Outcome(-3, s.responseCode, 0, 0)
    ensures |m| >= 4 && m[0] / 64 != 1 ==> Parse(s, m) == Outcome(-5, s.responseCode, 0, 0)
    ensures |m| >= 4 && m[0] / 64 == 1 && m[0] / 16 % 4 == 0 ==> Parse(s, m) == Outcome(-4, s.responseCode, 0, 0)
    ensures |m| >= 4 && m[0] / 64 == 1 && m[0] / 16 % 4 == 1 && !IsOurs(s, m) ==>
              Parse(s, m) == Outcome(if |m| < 4 + m[0] % 16 then -3 else -1, s.responseCode, 0, 0)
    ensures |m| >= 4 && m[0] / 64 == 1 && m[0] / 16 % 4 >= 2 ==>
              Parse(s, m) == if m[1] != 0 || m[2] as int * 256 + m[3] != s.lastMessageId
                             then Outcome(-1, s.responseCode, 0, 0)
                             else if m[0] / 16 % 4 == 2 then Outcome(1, 0, 0, 0)
                             else Outcome(2, s.responseCode, 0, 0)
  {
    hide Walk;
  }

  /** The window and the context after a receive, from the parse of the UDP payload at byte 62. */
  lemma ReceivedMessage(s: CoapState, c: Udp.UdpCfg, frame: seq<byte>)
    ensures var v := Udp.Receive(c, frame);
            && (v.status != 0 ==> Receive(s, c, frame) == Window(v.status, 0, 0) && AfterReceive(s, c, frame) == s)
            && (v.status == 0 ==>
                  && v.offset == 62 && 62 + v.len <= |frame|
                  && var o := Parse(s, frame[62..62 + v.len]);
                     && Receive(s, c, frame)
                        == (if o.status == 0 then Window(0, 62 + o.consumed, o.left) else Window(o.status, 0, 0))
                     && AfterReceive(s, c, frame) == s.(responseCode := o.responseCode))
  {
    hide Parse;
    WireFormat.UdpAcceptsIff(c, frame);
    if Udp.Receive(c, frame).status == 0 {
      Udp.SuccessLeavesFrame(c, frame);
    } else {
      WireFormat.Ip6Status(c.ip6, frame);
    }
  }

  /** A 2.05 response with our token 7: accepted when non-confirmable, refused when confirmable. */
  lemma ResponseExample(s: CoapState)
    requires s.token == [7]
    ensures Parse(s, [0x51, 0x45, 0x00, 0x01, 0x07]) == Outcome(0, 0x45, 5, 0)
    ensures Parse(s, [0x41, 0x45, 0x00, 0x01, 0x07]) == Outcome(-4, s.responseCode, 0, 0)
  {
    var m := [0x51, 0x45, 0x00, 0x01, 0x07];
    assert m[4..5] == [7] && m[5..] == [];
    ParseAcceptsIff(s, m);
    ParseErrors(s, [0x41, 0x45, 0x00, 0x01, 0x07]);
    WalkStops([]);
  }

  // ---------------------------------------------------------------- sent messages

  /** The fixed header of section 3 of RFC 7252. */
  lemma FixedHeaderBytes(s: CoapState)
    requires |s.token| < 16
    ensures FixedHeader(s)
            == [0x40 + s.kind % 4 * 16 + |s.token|, s.requestMethod, s.lastMessageId / 256, s.lastMessageId % 256]
  {
  }

  /** The value of `options_delta` when the queries begin. */
  function QueryStart(paths: nat, contenttype: byte): byte {
    if contenttype == 0 then if paths % 2 == 0 then 0 else 11
    else if paths % 2 == 0 then 12 else 1
  }

  /** All deltas and values that are printed, in closed form. */
  lemma PrintedSteps(s: CoapState)
    ensures var n, c, q := |s.uriPath|, (if s.contentType == 0 then 0 else 1), |s.uriQuery|;
            var steps, d := Steps(0, s.Options()), QueryStart(|s.uriPath|, s.contentType);
            && |steps| == n + c + q
            && (forall i :: 0 <= i < n ==> steps[i] == Opt(if i % 2 == 0 then 11 else 0, s.uriPath[i]))
            && (s.contentType != 0 ==> steps[n] == Opt(if n % 2 == 0 then 12 else 1, [s.contentType]))
            && (forall i :: 0 <= i < q ==> steps[n + c + i] == Opt(if i % 2 == 0 then 15 - d else d, s.uriQuery[i]))
  {
    hide NextDelta, Numbered;
    var p, t, q := StepParts(s);
    AlternatingSteps(0, 11, s.uriPath);
    ContentStep(if |s.uriPath| % 2 == 0 then 0 else 11, s.contentType);
    AlternatingSteps(QueryStart(|s.uriPath|, s.contentType), 15, s.uriQuery);
  }

  /** The steps of paths, content type and queries, one after the other. */
  lemma StepParts(s: CoapState) returns (p: seq<Opt>, t: seq<Opt>, q: seq<Opt>)
    ensures Steps(0, s.Options()) == p + t + q
    ensures p == Steps(0, Numbered(11, s.uriPath))
    ensures t == Steps(if |s.uriPath| % 2 == 0 then 0 else 11, ContentItem(s.contentType))
    ensures q == Steps(QueryStart(|s.uriPath|, s.contentType), Numbered(15, s.uriQuery))
  {
    var paths, content := Numbered(11, s.uriPath), ContentItem(s.contentType);
    var d := LastDelta(0, paths);
    AlternatingSteps(0, 11, s.uriPath);
    ContentStep(d, s.contentType);
    StepsConcat(0, paths, content);
    LastDeltaConcat(0, paths, content);
    StepsConcat(0, paths + content, Numbered(15, s.uriQuery));
    p, t := Steps(0, paths), Steps(d, content);
    q := Steps(LastDelta(d, content), Numbered(15, s.uriQuery));
  }

  lemma ContentStep(d: byte, contenttype: byte)
    requires d <= 12
    ensures contenttype != 0 ==> Steps(d, ContentItem(contenttype)) == [Opt(12 - d, [contenttype])]
    ensures LastDelta(d, ContentItem(contenttype)) == if contenttype == 0 then d else 12 - d
  {
    if contenttype != 0 {
      assert ContentItem(contenttype)[1..] == [];
      assert NextDelta(d, 12) == 12 - d;
    }
  }

  /** Options with one number alternate between two deltas. */
  lemma {:induction false} AlternatingSteps(d: byte, number: byte, values: seq<seq<byte>>)
    requires d <= number < 0x100
    ensures var steps := Steps(d, Numbered(number, values));
            && |steps| == |values|
            && (forall i :: 0 <= i < |values| ==> steps[i] == Opt(if i % 2 == 0 then number - d else d, values[i]))
            && LastDelta(d, Numbered(number, values)) == if |values| % 2 == 0 then d else number - d
    decreases |values|
  {
    if values != [] {
      var items, others := Numbered(number, values), values[1..];
      assert items[1..] == Numbered(number, others);
      assert NextDelta(d, number) == number - d;
      AlternatingSteps(number - d, number, others);
      StepsFirst(d, items);
      AlternationGoesOn(d, number, values, Steps(d, items));
    }
  }

  lemma AlternationGoesOn(d: byte, number: byte, values: seq<seq<byte>>, steps: seq<Opt>)
    requires d <= number && |steps| == |values| > 0 && steps[0] == Opt(number - d, values[0])
    requires var others, later := values[1..], steps[1..];
             forall i :: 0 <= i < |others| ==> later[i] == Opt(if i % 2 == 0 then d else number - d, others[i])
    ensures forall i :: 0 <= i < |values| ==> steps[i] == Opt(if i % 2 == 0 then number - d else d, values[i])
  {
    forall i | 0 < i < |values|
      ensures steps[i] == Opt(if i % 2 == 0 then number - d else d, values[i])
    {
      assert steps[i] == steps[1..][i - 1] && values[i] == values[1..][i - 1];
    }
  }

  /** What is behind the token in a sent message. */
  function SentBody(s: CoapState, payload: seq<byte>): seq<byte> {
    var m := Head(s, |payload|) + payload;
    RoundTrip.HeadFields(s, |payload|);
    m[4 + |s.token|..]
  }

  /**
   A reader of RFC 7252 finds in a sent message the payload and, as the values of the
   options, the paths, the content type if it is not zero, and the queries, in this order.
   */
  lemma SentValues(s: CoapState, payload: seq<byte>)
    requires RoundTrip.Fits(s, |payload|) && DeltasFit(s.uriPath, s.contentType, s.uriQuery)
    ensures Decode(SentBody(s, payload)).Some?
    ensures var b := Decode(SentBody(s, payload)).value;
            var n, c, q := |s.uriPath|, (if s.contentType == 0 then 0 else 1), |s.uriQuery|;
            && b.payload == payload
            && |b.options| == n + c + q
            && (forall i :: 0 <= i < n ==> b.options[i].value == s.uriPath[i])
            && (s.contentType != 0 ==> b.options[n].value == [s.contentType])
            && (forall i :: 0 <= i < q ==> b.options[n + c + i].value == s.uriQuery[i])
  {
    SentBodyDecodes(s, payload);
    PrintedSteps(s);
  }

  lemma SentBodyDecodes(s: CoapState, payload: seq<byte>)
    requires RoundTrip.Fits(s, |payload|) && DeltasFit(s.uriPath, s.contentType, s.uriQuery)
    ensures Decode(SentBody(s, payload)) == Some(Body(Steps(0, s.Options()), payload))
  {
    RoundTrip.HeadAndPayload(s, payload);
    RoundTrip.TokenAndRest(FixedHeader(s), s.token, Print(0, s.Options()) + Marked(payload));
    RoundTrip.SentBodyIsReadIff(s, payload);
  }

  /** The number of an option of the format: the sum of the deltas up to it. */
  function Number(os: seq<Opt>, i: nat): nat
    requires i < |os|
  {
    os[i].delta + if i == 0 then 0 else Number(os, i - 1)
  }

  /**
   In a message of at most two options, the first not a query, they are read as Uri-Path (11),
   Content-Format (12) and Uri-Query (15).
   */
  lemma SentNumbers(s: CoapState, payload: seq<byte>)
    requires RoundTrip.Fits(s, |payload|)
    requires |s.uriPath| + (if s.contentType == 0 then 0 else 1) + |s.uriQuery| <= 2
    requires s.uriQuery != [] ==> s.uriPath != [] || s.contentType != 0
    ensures Decode(SentBody(s, payload)).Some?
    ensures var os := Decode(SentBody(s, payload)).value.options;
            var n, c := |s.uriPath|, (if s.contentType == 0 then 0 else 1);
            && |os| == n + c + |s.uriQuery|
            && forall i :: 0 <= i < |os| ==> Number(os, i) == if i < n then 11 else if i < n + c then 12 else 15
  {
    assert DeltasFit(s.uriPath, s.contentType, s.uriQuery);
    SentBodyDecodes(s, payload);
    PrintedSteps(s);
  }

  /** Content type 50 and nothing else. */
  lemma ContentTypeExample(s: CoapState)
    requires s.uriPath == [] && s.uriQuery == [] && s.contentType == 50
    ensures Print(0, s.Options()) == [0xC1, 0x32]
  {
    PrintedSteps(s);
    var step := Opt(12, [50]);
    assert Steps(0, s.Options()) == [step];
    PrintedOptionBytes(step);
    assert [step][1..] == [];
    assert FlatMap(PrintOption, [step]) == PrintOption(step) + [];
  }

  // ---------------------------------------------------------------- settings

  /** Each setter changes its own setting, and no other operation does. */
  lemma SetterEffect(s: CoapState, op: Op)
    ensures var t := Apply(s, op);
            && t.kind == (if op.SetMethod? then op.kind else s.kind)
            && t.requestMethod == (if op.SetMethod? then op.requestMethod else s.requestMethod)
            && t.token == (if op.SetToken? then op.token else s.token)
            && t.uriPath == (if op.SetUriPath? then op.values else s.uriPath)
            && t.uriQuery == (if op.SetUriQuery? then op.values else s.uriQuery)
            && t.contentType == (if op.SetContentType? then op.value else s.contentType)
  {
  }

  /**
   What becomes of the cached size: paths and queries drop it, a content type only when the
   option comes or goes, and pload_pos and send fill it; nothing else touches it.
   */
  lemma CacheEffect(s: CoapState, op: Op)
    ensures Apply(s, op).hdrsize
            == match op
               case SetUriPath(_) => 0
               case SetUriQuery(_) => 0
               case SetContentType(v) => if (v == 0) != (s.contentType == 0) then 0 else s.hdrsize
               case PloadPos => if s.hdrsize == 0 then FreshSize(s) else s.hdrsize
               case Send => if s.hdrsize == 0 then FreshSize(s) else s.hdrsize
               case _ => s.hdrsize
  {
    hide Receive, Parse;
    assert FreshSize(s.(lastMessageId := (s.lastMessageId + 1) % 0x1_0000, responseCode := 0)) == FreshSize(s);
  }

  lemma {:induction false} RunConcat(s: CoapState, a: seq<Op>, b: seq<Op>)
    ensures CoapRuns.Run(s, a + b) == CoapRuns.Run(CoapRuns.Run(s, a), b)
    decreases |b|
  {
    if b == [] {
      assert a + b == a;
    } else {
      var n := |b| - 1;
      RunConcat(s, a, b[..n]);
      assert (a + b)[..|a + b| - 1] == a + b[..n] && (a + b)[|a + b| - 1] == b[n];
    }
  }

  /** A setting stays as it is while its setter is not called. */
  lemma {:induction false} SettingsStay(s: CoapState, ops: seq<Op>)
    ensures var t := CoapRuns.Run(s, ops);
            && ((forall op :: op in ops ==> !op.SetMethod?) ==> t.kind == s.kind && t.requestMethod == s.requestMethod)
            && ((forall op :: op in ops ==> !op.SetToken?) ==> t.token == s.token)
            && ((forall op :: op in ops ==> !op.SetUriPath?) ==> t.uriPath == s.uriPath)
            && ((forall op :: op in ops ==> !op.SetUriQuery?) ==> t.uriQuery == s.uriQuery)
            && ((forall op :: op in ops ==> !op.SetContentType?) ==> t.contentType == s.contentType)
    decreases |ops|
  {
    if ops != [] {
      hide Apply;
      var n := |ops| - 1;
      SettingsStay(s, ops[..n]);
      SetterEffect(CoapRuns.Run(s, ops[..n]), ops[n]);
      assert ops[n] in ops && forall op :: op in ops[..n] ==> op in ops;
    }
  }

  /** Whatever else is done, the setting in force is the one set last. */
  lemma LastSetterCounts(s: CoapState, before: seq<Op>, op: Op, later: seq<Op>)
    ensures var t := CoapRuns.Run(s, before + [op] + later);
            && (op.SetMethod? && (forall o :: o in later ==> !o.SetMethod?) ==>
                  t.kind == op.kind && t.requestMethod == op.requestMethod)
            && (op.SetToken? && (forall o :: o in later ==> !o.SetToken?) ==> t.token == op.token)
            && (op.SetUriPath? && (forall o :: o in later ==> !o.SetUriPath?) ==> t.uriPath == op.values)
            && (op.SetUriQuery? && (forall o :: o in later ==> !o.SetUriQuery?) ==> t.uriQuery == op.values)
            && (op.SetContentType? && (forall o :: o in later ==> !o.SetContentType?) ==> t.contentType == op.value)
  {
    var u := CoapRuns.Run(s, before);
    RunConcat(s, before + [op], later);
    RunConcat(s, before, [op]);
    assert [op][..0] == [];
    SetterEffect(u, op);
    SettingsStay(Apply(u, op), later);
  }
}
