/**
 The option part of a CoAP message: the format of section 3.1 of RFC 7252, and the loop
 of net_coap_recv that skips it.

 `Opt`, `EncodeBody` and `WellFormed` state the format as a grammar. `Walk` is what the
 loop computes; it wraps the 16-bit option length, which the format does not.
 */
module CoapOptions {
  import opened Bytes

  // ---------------------------------------------------------------- the format

  /** The largest delta or length that two extension bytes can carry. */
  const MAX_EXTENDED: nat := 269 + 0xFFFF

  datatype Opt = Opt(delta: nat, value: seq<byte>) {
    predicate Encodable() {
      delta <= MAX_EXTENDED && |value| <= MAX_EXTENDED
    }
  }

  function Nibble(v: nat): byte {
    if v < 13 then v else if v < 269 then 13 else 14
  }

  function Extension(v: nat): (r: seq<byte>)
    requires v <= MAX_EXTENDED
    ensures |r| == ExtensionSize(Nibble(v))
  {
    if v < 13 then [] else if v < 269 then [v - 13] else Be16(v - 269)
  }

  function EncodeHead(o: Opt): (r: seq<byte>)
    requires o.Encodable()
    ensures 1 <= |r| <= 5 && r[0] < 0xF0
  {
    [Nibble(o.delta) * 16 + Nibble(|o.value|)] + Extension(o.delta) + Extension(|o.value|)
  }

  function EncodeOpt(o: Opt): (r: seq<byte>)
    requires o.Encodable()
    ensures |r| > 0 && r[0] < 0xF0
  {
    EncodeHead(o) + o.value
  }

  predicate AllEncodable(os: seq<Opt>) {
    forall o :: o in os ==> o.Encodable()
  }

  function EncodeOpts(os: seq<Opt>): seq<byte>
    requires AllEncodable(os)
  {
    if os == [] then [] else EncodeOpt(os[0]) + EncodeOpts(os[1..])
  }

  /** The payload with its marker; neither is there when the payload is empty. */
  function Marked(payload: seq<byte>): seq<byte> {
    if payload == [] then [] else [0xFF] + payload
  }

  /** What follows the token in a message. */
  datatype Body = Body(options: seq<Opt>, payload: seq<byte>) {
    predicate Encodable() {
      AllEncodable(options)
    }
  }

  function EncodeBody(b: Body): seq<byte>
    requires b.Encodable()
  {
    EncodeOpts(b.options) + Marked(b.payload)
  }

  ghost predicate WellFormed(s: seq<byte>) {
    exists b: Body :: b.Encodable() && EncodeBody(b) == s
  }

  // ---------------------------------------------------------------- a parser for the format

  function ExtensionSize(nibble: byte): nat {
    if nibble == 13 then 1 else if nibble == 14 then 2 else 0
  }

  function ExtendedValue(nibble: byte, s: seq<byte>, at: nat): (v: nat)
    requires nibble < 15 && at + ExtensionSize(nibble) <= |s|
    ensures v <= MAX_EXTENDED
  {
    if nibble < 13 then nibble
    else if nibble == 13 then s[at] as int + 13
    else GetBe16(s, at) as int + 269
  }

  /** The value read is printed back as it stands. */
  lemma ExtendedValueIsPrinted(nibble: byte, s: seq<byte>, at: nat)
    requires nibble < 15 && at + ExtensionSize(nibble) <= |s|
    ensures var v := ExtendedValue(nibble, s, at);
            Nibble(v) == nibble && Extension(v) == s[at..at + ExtensionSize(nibble)]
  {
    if nibble == 13 {
      assert s[at..at + 1] == [s[at]];
    } else if nibble == 14 {
      PutGetBe16(s, at);
      ExtensionOfWord(GetBe16(s, at));
    }
  }

  lemma ExtensionOfWord(w: u16)
    ensures Nibble(w + 269) == 14 && Extension(w + 269) == Be16(w)
  {
    assert w + 269 - 269 == w;
  }

  function HeadSize(s: seq<byte>): nat
    requires |s| > 0
  {
    1 + ExtensionSize(s[0] / 16) + ExtensionSize(s[0] % 16)
  }

  /** A complete option head without reserved nibbles. */
  predicate HasHead(s: seq<byte>)
    requires |s| > 0
  {
    s[0] / 16 != 15 && s[0] % 16 != 15 && HeadSize(s) <= |s|
  }

  function HeadDelta(s: seq<byte>): nat
    requires |s| > 0 && HasHead(s)
  {
    ExtendedValue(s[0] / 16, s, 1)
  }

  function HeadLen(s: seq<byte>): nat
    requires |s| > 0 && HasHead(s)
  {
    ExtendedValue(s[0] % 16, s, 1 + ExtensionSize(s[0] / 16))
  }

  lemma HeadIsEncoded(s: seq<byte>, o: Opt)
    requires |s| > 0 && HasHead(s) && o.Encodable()
    requires HeadDelta(s) == o.delta && HeadLen(s) == |o.value|
    ensures HeadSize(s) == |EncodeHead(o)| && s[..HeadSize(s)] == EncodeHead(o)
  {
    var e, n := ExtensionSize(s[0] / 16), HeadSize(s);
    ExtendedValueIsPrinted(s[0] / 16, s, 1);
    ExtendedValueIsPrinted(s[0] % 16, s, 1 + e);
    PrefixOfParts(s, 1, 1 + e, n);
  }

  lemma PrefixOfParts(s: seq<byte>, i: nat, j: nat, n: nat)
    requires i <= j <= n <= |s|
    ensures s[..n] == s[..i] + s[i..j] + s[j..n]
  {
  }

  /** The bytes the option at the front asks for. */
  function FrontSize(s: seq<byte>): (n: nat)
    requires |s| > 0 && HasHead(s)
    ensures n > 0
  {
    HeadSize(s) + HeadLen(s)
  }

  /** The option at the front, if one is complete there. */
  function FrontOption(s: seq<byte>): (r: Option<Opt>)
    requires |s| > 0
    ensures r.Some? ==> HasHead(s) && FrontSize(s) <= |s|
  {
    if !HasHead(s) || |s| < FrontSize(s) then None
    else Some(Opt(HeadDelta(s), s[HeadSize(s)..FrontSize(s)]))
  }

  lemma FrontIsEncoded(s: seq<byte>)
    requires |s| > 0 && FrontOption(s).Some?
    ensures var o := FrontOption(s).value;
            o.Encodable() && FrontSize(s) == |EncodeOpt(o)| && s[..FrontSize(s)] == EncodeOpt(o)
  {
    var o, n, m := FrontOption(s).value, HeadSize(s), FrontSize(s);
    HeadIsEncoded(s, o);
    PrefixOfParts(s, 0, n, m);
  }

  function Decode(s: seq<byte>): Option<Body>
    decreases |s|
  {
    if s == [] then Some(Body([], []))
    else if s[0] == 0xFF then if |s| == 1 then None else Some(Body([], s[1..]))
    else
      match FrontOption(s)
      case None => None
      case Some(o) =>
        match Decode(s[FrontSize(s)..])
        case None => None
        case Some(b) => Some(Body([o] + b.options, b.payload))
  }

  lemma HeadOfEncoded(o: Opt, s: seq<byte>)
    requires o.Encodable() && EncodeHead(o) <= s
    ensures HasHead(s) && HeadSize(s) == |EncodeHead(o)|
    ensures HeadDelta(s) == o.delta && HeadLen(s) == |o.value|
  {
    var d, l := Nibble(o.delta), Nibble(|o.value|);
    var e, f := ExtensionSize(d), ExtensionSize(l);
    PrefixParts([d * 16 + l], Extension(o.delta), Extension(|o.value|), s);
    HighAndLow(d, l);
    ExtendedValueIsPrinted(d, s, 1);
    ExtendedValueIsPrinted(l, s, 1 + e);
    ExtensionIsInjective(o.delta, HeadDelta(s));
    ExtensionIsInjective(|o.value|, HeadLen(s));
  }

  lemma HighAndLow(d: byte, l: byte)
    requires d < 15 && l < 15
    ensures (d * 16 + l) / 16 == d && (d * 16 + l) % 16 == l
  {
  }

  lemma PrefixParts(a: seq<byte>, b: seq<byte>, c: seq<byte>, s: seq<byte>)
    requires a + b + c <= s && |a| == 1
    ensures s[0] == a[0] && s[1..1 + |b|] == b && s[1 + |b|..1 + |b| + |c|] == c
  {
    ThreeParts(a, b, c);
    assert s[..1 + |b| + |c|] == a + b + c;
    SliceOfPart(s, 0, a + b + c, 1, 1 + |b|);
    SliceOfPart(s, 0, a + b + c, 1 + |b|, 1 + |b| + |c|);
  }

  lemma FrontOfEncoded(o: Opt, rest: seq<byte>)
    requires o.Encodable()
    ensures var s := EncodeOpt(o) + rest;
            FrontOption(s) == Some(o) && FrontSize(s) == |EncodeOpt(o)|
  {
    var s, n := EncodeOpt(o) + rest, |EncodeHead(o)|;
    assert s[..n] == EncodeHead(o);
    HeadOfEncoded(o, s);
    assert s[n..n + |o.value|] == o.value;
  }

  lemma ExtensionIsInjective(v: nat, w: nat)
    requires v <= MAX_EXTENDED && w <= MAX_EXTENDED
    requires Nibble(v) == Nibble(w) && Extension(v) == Extension(w)
    ensures v == w
  {
    assert v >= 269 ==> Extension(v)[0] == Extension(w)[0] && Extension(v)[1] == Extension(w)[1];
    assert 13 <= v < 269 ==> Extension(v)[0] == Extension(w)[0];
  }

  /** Reading one option off the front. */
  lemma {:induction false} DecodeFirst(o: Opt, rest: seq<byte>)
    requires o.Encodable()
    ensures Decode(EncodeOpt(o) + rest) ==
            match Decode(rest)
            case None => None
            case Some(b) => Some(Body([o] + b.options, b.payload))
  {
    var s := EncodeOpt(o) + rest;
    FrontOfEncoded(o, rest);
    assert s[|EncodeOpt(o)|..] == rest;
  }

  lemma EncodeFirst(o: Opt, b: Body)
    requires o.Encodable() && b.Encodable()
    ensures EncodeBody(Body([o] + b.options, b.payload)) == EncodeOpt(o) + EncodeBody(b)
  {
    assert ([o] + b.options)[1..] == b.options;
  }

  lemma {:induction false} DecodeOfEncoded(b: Body)
    requires b.Encodable()
    ensures Decode(EncodeBody(b)) == Some(b)
    decreases |b.options|
  {
    if b.options == [] {
      assert EncodeBody(b) == Marked(b.payload);
    } else {
      var o, rest := b.options[0], Body(b.options[1..], b.payload);
      assert [o] + rest.options == b.options;
      EncodeFirst(o, rest);
      DecodeFirst(o, EncodeBody(rest));
      DecodeOfEncoded(rest);
    }
  }

  lemma {:induction false} EncodeOfDecoded(s: seq<byte>)
    requires Decode(s).Some?
    ensures Decode(s).value.Encodable() && EncodeBody(Decode(s).value) == s
    decreases |s|
  {
    if s != [] && s[0] != 0xFF {
      var o, tail := FrontOption(s).value, s[FrontSize(s)..];
      FrontIsEncoded(s);
      EncodeOfDecoded(tail);
      EncodeFirst(o, Decode(tail).value);
    }
  }

  /** Every body has at most one reading, and `Decode` finds it. */
  lemma {:induction false} DecodeIsTheFormat(s: seq<byte>, b: Body)
    ensures Decode(s) == Some(b) <==> b.Encodable() && EncodeBody(b) == s
  {
    if Decode(s) == Some(b) {
      EncodeOfDecoded(s);
    }
    if b.Encodable() && EncodeBody(b) == s {
      DecodeOfEncoded(b);
    }
  }

  lemma {:induction false} WellFormedIffDecodes(s: seq<byte>)
    ensures WellFormed(s) <==> Decode(s).Some?
  {
    if Decode(s).Some? {
      DecodeIsTheFormat(s, Decode(s).value);
    }
    if WellFormed(s) {
      var b: Body :| b.Encodable() && EncodeBody(b) == s;
      DecodeIsTheFormat(s, b);
    }
  }

  // ---------------------------------------------------------------- the loop

  datatype Step = Bad(error: int) | Skip(size: nat)

  /** One turn of the loop of net_coap_recv on an option: the bytes to skip, or the error. */
  function OptionStep(s: seq<byte>): (r: Step)
    requires |s| > 0
    ensures r.Skip? ==> 1 <= r.size <= |s|
    ensures r.Bad? ==> r.error < 0
  {
    var e, f := ExtensionSize(s[0] / 16), ExtensionSize(s[0] % 16);
    if s[0] / 16 == 15 then Bad(NET_EPROTO)
    else if e > 0 && |s| <= e then Bad(NET_EOVERFLOW)
    else if s[0] % 16 == 15 then Bad(NET_EPROTO)
    else if f > 0 && |s| - 1 - e <= f then Bad(NET_EOVERFLOW)
    else
      var optlen := HeadLen(s) % 0x1_0000;
      if |s| - 1 - e - f < optlen then Bad(NET_EOVERFLOW) else Skip(1 + e + f + optlen)
  }

  /** Where the loop stops: bytes consumed, marker included, and the `datalen` left. */
  datatype WalkResult = Fail(error: int) | End(consumed: nat, left: nat) {
    function After(n: nat): WalkResult {
      match this
      case Fail(e) => Fail(e)
      case End(c, l) => End(n + c, l)
    }
  }

  function Walk(s: seq<byte>): (r: WalkResult)
    ensures r.End? ==> r.consumed <= |s| && (r.left == 0 || r.left >= 2)
    ensures r.End? ==> r.consumed + r.left == if r.left == 0 then |s| else |s| + 1
    ensures r.Fail? ==> r.error < 0
    decreases |s|
  {
    if s == [] then End(0, 0)
    else if s[0] == 0xFF then if |s| == 1 then Fail(NET_EOVERFLOW) else End(1, |s|)
    else
      match OptionStep(s)
      case Bad(e) => Fail(e)
      case Skip(n) => Walk(s[n..]).After(n)
  }

  /** One turn of the loop, in terms of the rest. */
  lemma {:induction false} WalkTurn(s: seq<byte>, rest: seq<byte>)
    requires s != [] && s[0] != 0xFF
    requires OptionStep(s).Skip? ==> rest == s[OptionStep(s).size..]
    ensures match OptionStep(s)
            case Bad(e) => Walk(s) == Fail(e)
            case Skip(n) => Walk(s) == Walk(rest).After(n)
  {
  }

  lemma AfterTwice(w: WalkResult, a: nat, b: nat)
    ensures w.After(b).After(a) == w.After(a + b)
  {
  }

  /** The option at the front has an extended length whose 16-bit value wraps. */
  predicate LengthWraps(s: seq<byte>)
    requires |s| > 0
  {
    HasHead(s) && HeadLen(s) >= 0x1_0000
  }

  /** The loop meets such an option. */
  predicate MeetsWrap(s: seq<byte>)
    decreases |s|
  {
    && s != [] && s[0] != 0xFF
    && (LengthWraps(s)
        || (OptionStep(s).Skip? && MeetsWrap(s[OptionStep(s).size..])))
  }

  lemma StepFollowsFormat(s: seq<byte>)
    requires 0 < |s| < 0x1_0000
    ensures LengthWraps(s) ==> FrontOption(s).None?
    ensures FrontOption(s).Some? ==> OptionStep(s) == Skip(FrontSize(s))
    ensures FrontOption(s).None? && OptionStep(s).Skip? ==> LengthWraps(s)
  {
    StepOnHead(s);
    if HasHead(s) && HeadLen(s) < 0x1_0000 {
      assert HeadLen(s) % 0x1_0000 == HeadLen(s);
    }
  }

  /** The bytes the loop skips for the option at the front, its length taken in 16 bits. */
  function SkipSize(s: seq<byte>): (n: nat)
    requires |s| > 0 && HasHead(s)
    ensures n > 0
  {
    HeadSize(s) + HeadLen(s) % 0x1_0000
  }

  /**
   The checks of the loop leave complete options. After an extended length they insist on
   one more byte, even when the length has wrapped to zero.
   */
  lemma StepOnHead(s: seq<byte>)
    requires |s| > 0
    ensures OptionStep(s).Skip? <==>
              HasHead(s) && SkipSize(s) <= |s| && (s[0] % 16 < 13 || HeadSize(s) < |s|)
    ensures OptionStep(s).Skip? ==> OptionStep(s).size == SkipSize(s)
  {
  }

  /** A complete head is read in the same way when more bytes follow. */
  lemma HeadOfPrefix(s: seq<byte>, tail: seq<byte>)
    requires |s| > 0 && HasHead(s)
    ensures HasHead(s + tail) && HeadSize(s + tail) == HeadSize(s)
    ensures HeadLen(s + tail) == HeadLen(s) && SkipSize(s + tail) == SkipSize(s)
  {
  }

  /**
   The loop accepts exactly the bodies of the format, as long as it meets no extended
   length field of 65267 or more. It then stops where the payload starts.
   */
  lemma {:induction false} WalkDecidesFormat(s: seq<byte>)
    requires |s| < 0x1_0000
    ensures Decode(s).Some? <==> Walk(s).End? && !MeetsWrap(s)
    ensures Decode(s).Some? ==>
              var payload := Decode(s).value.payload;
              && |payload| <= |s|
              && Walk(s) == End(|s| - |payload|, if payload == [] then 0 else |payload| + 1)
              && s[Walk(s).consumed..] == payload
    decreases |s|
  {
    if s != [] && s[0] != 0xFF {
      StepFollowsFormat(s);
      if OptionStep(s).Skip? {
        var n := OptionStep(s).size;
        WalkDecidesFormat(s[n..]);
      }
    }
  }

  /** The condition is needed: a length of 65267 + 269 wraps to zero and is accepted. */
  lemma WrapIsAccepted()
    ensures var s := [0x0E, 0xFE, 0xF3, 0x00];
            Walk(s) == End(4, 0) && !WellFormed(s)
  {
    var s := [0x0E, 0xFE, 0xF3, 0x00];
    assert OptionStep(s) == Skip(3);
    assert s[3..] == [0x00] && OptionStep([0x00]) == Skip(1);
    assert [0x00][1..] == [];
    StepFollowsFormat(s);
    WellFormedIffDecodes(s);
  }
}
