/**
 What the peer makes of a message whose cached header size is not that of the printed head.
 The cache may be stale; and the size formula misses one byte of each option of 269 bytes or
 more, so that such a message is handed down too short: the payload loses its first bytes to
 the head, or the head itself is cut.
 */
module CoapTruncation {
  import opened Bytes
  import opened CoapOptions
  import opened CoapPrinter
  import opened CoapDelimiting
  import opened Coap
  import opened RoundTrip

  // ---------------------------------------------------------------- any cached size

  /** What is in memory behind the token after printing, to the end of the buffer. */
  function Behind(s: CoapState, buffer: seq<byte>, datalen: nat): (r: seq<byte>)
    requires AT + |Head(s, datalen)| <= |buffer|
    ensures AT + BASE_HDRSIZE + |s.token| + |r| == |buffer|
  {
    HeadParts(s, datalen);
    Print(0, s.Options()) + (if datalen > 0 then [0xFF] else []) + buffer[AT + |Head(s, datalen)|..]
  }

  lemma MessageInMemory(s: CoapState, buffer: seq<byte>, datalen: nat)
    requires AT + |Head(s, datalen)| <= |buffer| && AT + SentLength(s, datalen) <= |buffer|
    ensures SentLength(s, datalen) <= BASE_HDRSIZE + |s.token| + |Behind(s, buffer, datalen)|
    ensures Message(s, buffer, datalen)
            == (FixedHeader(s) + (s.token + Behind(s, buffer, datalen)))[..SentLength(s, datalen)]
  {
    var head, n := Head(s, datalen), SentLength(s, datalen);
    var rest, marker := buffer[AT + |head|..], if datalen > 0 then [0xFF] else [];
    SliceFromSplice(buffer, AT, head, |buffer|);
    Associates(Print(0, s.Options()), marker, rest);
    Regroup(FixedHeader(s), s.token, Print(0, s.Options()), marker, rest);
    TakeSlice(Printed(s, buffer, datalen), AT, n);
  }

  lemma TakeSlice(b: seq<byte>, at: nat, n: nat)
    requires at + n <= |b|
    ensures b[at..at + n] == b[at..|b|][..n]
  {
  }

  /** A message that ends inside the fixed header or the token. */
  lemma CutTokenIsRejected(s: CoapState, b: CoapState, m: seq<byte>)
    requires b.token == s.token && |m| < BASE_HDRSIZE + |s.token|
    requires |m| >= BASE_HDRSIZE ==> m[..BASE_HDRSIZE] == FixedHeader(s)
    ensures Parse(b, m).status != NET_STATUS_OK
  {
    if |m| >= BASE_HDRSIZE {
      assert m[0] == m[..BASE_HDRSIZE][0] && m[1] == m[..BASE_HDRSIZE][1];
      if s.kind % 4 == NONCONFIRMABLE {
        ParseOfFixed(s, b, m);
      } else {
        assert m == FixedHeader(s) + m[BASE_HDRSIZE..];
        OtherKindIsRejected(s, b, m[BASE_HDRSIZE..]);
      }
    }
  }

  lemma PrefixParts(fixed: seq<byte>, token: seq<byte>, body: seq<byte>, n: nat)
    requires n <= |fixed| + |token| + |body|
    ensures var m := (fixed + (token + body))[..n];
            && (n >= |fixed| ==> m[..|fixed|] == fixed)
            && (n >= |fixed| + |token| ==> m == fixed + (token + body[..n - |fixed| - |token|]))
  {
  }

  /** The outcome when the peer sees the first `n` bytes of what follows fixed header and token. */
  function PrefixOutcome(s: CoapState, b: CoapState, body: seq<byte>, n: nat): Outcome
    requires n <= |body|
  {
    AfterOptions(b, Walk(body[..n]), s.requestMethod, BASE_HDRSIZE + |s.token|)
  }

  /** What a peer with our token makes of the first `n` bytes of a message with that body. */
  predicate IsOutcome(s: CoapState, b: CoapState, body: seq<byte>, n: nat, o: Outcome)
    requires n <= BASE_HDRSIZE + |s.token| + |body|
  {
    var size := BASE_HDRSIZE + |s.token|;
    if s.kind % 4 == NONCONFIRMABLE && |s.token| < 16 && size <= n
    then o == PrefixOutcome(s, b, body, n - size)
    else o.status != NET_STATUS_OK
  }

  lemma ParseOfPrefix(s: CoapState, b: CoapState, body: seq<byte>, n: nat)
    requires b.token == s.token && n <= BASE_HDRSIZE + |s.token| + |body|
    ensures IsOutcome(s, b, body, n, Parse(b, (FixedHeader(s) + (s.token + body))[..n]))
  {
    var size, m := BASE_HDRSIZE + |s.token|, (FixedHeader(s) + (s.token + body))[..n];
    PrefixParts(FixedHeader(s), s.token, body, n);
    if n < size {
      CutTokenIsRejected(s, b, m);
    } else if s.kind % 4 == NONCONFIRMABLE {
      ParseOfSent(s, b, body[..n - size]);
    } else {
      OtherKindIsRejected(s, b, s.token + body[..n - size]);
    }
  }

  lemma ParseOfMessage(s: CoapState, b: CoapState, buffer: seq<byte>, datalen: nat)
    requires b.token == s.token
    requires AT + |Head(s, datalen)| <= |buffer| && AT + SentLength(s, datalen) <= |buffer|
    ensures SentLength(s, datalen) <= BASE_HDRSIZE + |s.token| + |Behind(s, buffer, datalen)|
    ensures IsOutcome(s, b, Behind(s, buffer, datalen), SentLength(s, datalen), Parse(b, Message(s, buffer, datalen)))
  {
    MessageInMemory(s, buffer, datalen);
    ParseOfPrefix(s, b, Behind(s, buffer, datalen), SentLength(s, datalen));
  }

  /** The loop, started at `body`, skips up to a marker that ends `n` bytes into it. */
  predicate MarkerAt(body: seq<byte>, n: int) {
    1 <= n <= |body| && body[n - 1] == 0xFF && Skippable(body[..n - 1], true)
  }

  /** It does so from the end of the token to the cached size. */
  predicate LandsOnMarker(s: CoapState, body: seq<byte>, datalen: nat) {
    s.hdrsize + datalen < 0x1_0000 && MarkerAt(body, s.hdrsize - BASE_HDRSIZE - |s.token|)
  }

  /**
   The peer finds the window of the sender, from its payload position on, exactly when the
   loop comes to a marker there, be it the printed one or not.
   */
  lemma SenderWindowIff(s: CoapState, b: CoapState, buffer: seq<byte>, datalen: nat)
    requires b.token == s.token && 0 < datalen < 0x1_0000
    requires AT + |Head(s, datalen)| <= |buffer| && AT + SentLength(s, datalen) <= |buffer|
    ensures Parse(b, Message(s, buffer, datalen)) == Outcome(NET_STATUS_OK, s.requestMethod, s.hdrsize, datalen + 1)
            <==> s.kind % 4 == NONCONFIRMABLE && |s.token| < 16
                 && LandsOnMarker(s, Behind(s, buffer, datalen), datalen)
  {
    ParseOfMessage(s, b, buffer, datalen);
    OutcomeIff(s, b, Behind(s, buffer, datalen), datalen, Parse(b, Message(s, buffer, datalen)));
  }

  lemma OutcomeIff(s: CoapState, b: CoapState, body: seq<byte>, datalen: nat, o: Outcome)
    requires 0 < datalen < 0x1_0000 && SentLength(s, datalen) <= BASE_HDRSIZE + |s.token| + |body|
    requires IsOutcome(s, b, body, SentLength(s, datalen), o)
    ensures o == Outcome(NET_STATUS_OK, s.requestMethod, s.hdrsize, datalen + 1)
            <==> s.kind % 4 == NONCONFIRMABLE && |s.token| < 16 && LandsOnMarker(s, body, datalen)
  {
    var sent, size := SentLength(s, datalen), BASE_HDRSIZE + |s.token|;
    if s.hdrsize + datalen < 0x1_0000 {
      SentLengthOf(s, datalen, s.hdrsize);
      if size <= sent {
        WindowOfPrefix(s, b, body, s.hdrsize - size, datalen);
      }
    } else {
      WrappedLength(s.hdrsize, datalen);
    }
  }

  lemma WrappedLength(size: u16, datalen: u16)
    requires size + datalen >= 0x1_0000
    ensures (size + datalen) % 0x1_0000 < size
  {
  }

  lemma WindowOfPrefix(s: CoapState, b: CoapState, body: seq<byte>, n: int, datalen: nat)
    requires 0 < datalen && 0 <= n + datalen <= |body|
    ensures var size, o := BASE_HDRSIZE + |s.token|, PrefixOutcome(s, b, body, n + datalen);
            o.status == NET_STATUS_OK && o.responseCode == s.requestMethod && o.consumed == size + n
            && o.left == datalen + 1
            <==> MarkerAt(body, n)
  {
    var rest := body[..n + datalen];
    if n >= 1 {
      FindsPayloadIff(rest, n, datalen + 1);
      DropTake(body, n + datalen, n - 1);
      assert rest[..n - 1] == body[..n - 1];
    } else if Walk(rest).End? && Walk(rest).left > 0 {
      MarkerBeforePayload(rest);
    }
  }

  /** From the end of the token, the loop skips `n` bytes, and the message ends there. */
  predicate EndsAt(body: seq<byte>, n: int) {
    0 <= n <= |body| && Skippable(body[..n], false)
  }

  /** The same without a payload: the loop skips up to the cached size, less the marker. */
  lemma EmptyWindowIff(s: CoapState, b: CoapState, buffer: seq<byte>)
    requires b.token == s.token && s.hdrsize > 0
    requires AT + |Head(s, 0)| <= |buffer| && AT + SentLength(s, 0) <= |buffer|
    ensures Parse(b, Message(s, buffer, 0)) == Outcome(NET_STATUS_OK, s.requestMethod, s.hdrsize - 1, 0)
            <==> s.kind % 4 == NONCONFIRMABLE && |s.token| < 16
                 && EndsAt(Behind(s, buffer, 0), s.hdrsize - 1 - BASE_HDRSIZE - |s.token|)
  {
    ParseOfMessage(s, b, buffer, 0);
    EmptyOutcomeIff(s, b, Behind(s, buffer, 0), Parse(b, Message(s, buffer, 0)));
  }

  lemma EmptyOutcomeIff(s: CoapState, b: CoapState, body: seq<byte>, o: Outcome)
    requires s.hdrsize > 0 && SentLength(s, 0) <= BASE_HDRSIZE + |s.token| + |body|
    requires IsOutcome(s, b, body, SentLength(s, 0), o)
    ensures o == Outcome(NET_STATUS_OK, s.requestMethod, s.hdrsize - 1, 0)
            <==> s.kind % 4 == NONCONFIRMABLE && |s.token| < 16
                 && EndsAt(body, s.hdrsize - 1 - BASE_HDRSIZE - |s.token|)
  {
    var n := s.hdrsize - 1 - BASE_HDRSIZE - |s.token|;
    SentLengthOf(s, 0, s.hdrsize - 1);
    if n >= 0 {
      EndOfPrefix(s, b, body, n);
    }
  }

  lemma EndOfPrefix(s: CoapState, b: CoapState, body: seq<byte>, n: nat)
    requires n <= |body|
    ensures PrefixOutcome(s, b, body, n) == Outcome(NET_STATUS_OK, s.requestMethod, BASE_HDRSIZE + |s.token| + n, 0)
            <==> Skippable(body[..n], false)
  {
    assert body[..n] + [] == body[..n];
    StopsIffSkippable(body[..n], []);
  }

  lemma BodyParts(options: seq<byte>, rest: seq<byte>, n: nat)
    requires n < |options + [0xFF] + rest|
    ensures var body := options + [0xFF] + rest;
            && body[|options|] == 0xFF && body[..|options|] == options
            && (n < |options| ==> body[n] == options[n] && body[..n] == options[..n])
            && (n > |options| ==> body[..n][|options|] == 0xFF && body[..n][..|options|] == options)
  {
  }

  /** With options the loop can skip, the one place to land is the printed marker. */
  lemma OneMarker(options: seq<byte>, rest: seq<byte>, n: int)
    requires Skippable(options, true)
    ensures MarkerAt(options + [0xFF] + rest, n) <==> n == |options| + 1
  {
    hide Skippable;
    var body := options + [0xFF] + rest;
    if 1 <= n <= |body| {
      BodyParts(options, rest, n - 1);
      if n <= |options| {
        MarkerIsNotInside(options, n - 1);
      } else if n > |options| + 1 {
        MarkerIsNotPassed(body[..n - 1], |options|);
      }
    }
  }

  lemma MarkerIsNotInside(t: seq<byte>, n: nat)
    requires n < |t| && Skippable(t, true)
    ensures !(t[n] == 0xFF && Skippable(t[..n], true))
  {
    if Skippable(t[..n], true) {
      StopIsUnique(t, n);
    }
  }

  lemma MarkerIsNotPassed(t: seq<byte>, n: nat)
    requires n < |t| && t[n] == 0xFF && Skippable(t[..n], true)
    ensures !Skippable(t, true)
  {
    if Skippable(t, true) {
      StopIsUnique(t, n);
    }
  }

  lemma LandsIfRightSize(s: CoapState, buffer: seq<byte>, datalen: nat)
    requires Delimited(s.uriPath, s.contentType, s.uriQuery, true)
    requires 0 < datalen && Fits(s, datalen) && AT + |Head(s, datalen)| <= |buffer|
    ensures LandsOnMarker(s, Behind(s, buffer, datalen), datalen) <==> s.hdrsize == |Head(s, datalen)|
  {
    hide Skippable, Delimited;
    var rest := BehindMarker(s, buffer, datalen);
    SentOptions(s, datalen);
    OneMarker(Print(0, s.Options()), rest, s.hdrsize - BASE_HDRSIZE - |s.token|);
    LandsBehind(s, Behind(s, buffer, datalen), |Print(0, s.Options())|, datalen);
  }

  lemma BehindMarker(s: CoapState, buffer: seq<byte>, datalen: nat) returns (rest: seq<byte>)
    requires 0 < datalen && AT + |Head(s, datalen)| <= |buffer|
    ensures Behind(s, buffer, datalen) == Print(0, s.Options()) + [0xFF] + rest
  {
    rest := buffer[AT + |Head(s, datalen)|..];
  }

  lemma LandsBehind(s: CoapState, body: seq<byte>, size: nat, datalen: nat)
    requires var n := s.hdrsize - BASE_HDRSIZE - |s.token|; MarkerAt(body, n) <==> n == size + 1
    requires BASE_HDRSIZE + |s.token| + size + 1 + datalen < 0x1_0000
    ensures LandsOnMarker(s, body, datalen) <==> s.hdrsize == BASE_HDRSIZE + |s.token| + size + 1
  {
  }

  /** A readable message gives the peer the sender's window exactly when the cached size is right. */
  lemma RightSizeIff(s: CoapState, b: CoapState, buffer: seq<byte>, datalen: nat)
    requires Readable(s, true) && b.token == s.token
    requires 0 < datalen && Fits(s, datalen)
    requires AT + |Head(s, datalen)| <= |buffer| && AT + SentLength(s, datalen) <= |buffer|
    ensures Parse(b, Message(s, buffer, datalen)) == Outcome(NET_STATUS_OK, s.requestMethod, s.hdrsize, datalen + 1)
            <==> s.hdrsize == |Head(s, datalen)|
  {
    LandsIfRightSize(s, buffer, datalen);
    SenderWindowIff(s, b, buffer, datalen);
  }

  // ---------------------------------------------------------------- a fresh size

  /** Where the cached size is in the printed options when `k` of them are long. */
  predicate LandsInOptions(options: seq<byte>, k: nat)
    requires k <= |options|
  {
    Skippable(options[..|options| - k], true) && (options + [0xFF])[|options| - k] == 0xFF
  }

  lemma LandsIfInOptions(s: CoapState, buffer: seq<byte>, datalen: nat)
    requires 0 < datalen && Fits(s, datalen) && s.hdrsize == FreshSize(s)
    requires AT + |Head(s, datalen)| <= |buffer|
    ensures var options, k := Print(0, s.Options()), LongOptions(s.Options());
            k <= |options|
            && (LandsOnMarker(s, Behind(s, buffer, datalen), datalen) <==> LandsInOptions(options, k))
  {
    var k := LongOptions(s.Options());
    var rest := BehindMarker(s, buffer, datalen);
    FreshSizes(s, datalen);
    MarkerInOptions(Print(0, s.Options()), rest, |Print(0, s.Options())| - k);
  }

  lemma FreshSizes(s: CoapState, datalen: nat)
    requires 0 < datalen && Fits(s, datalen) && s.hdrsize == FreshSize(s)
    ensures var size, k := |Print(0, s.Options())|, LongOptions(s.Options());
            k <= size && s.hdrsize == BASE_HDRSIZE + |s.token| + size + 1 - k && s.hdrsize + datalen < 0x1_0000
  {
    PrintedHeadSize(s, datalen);
    HeadParts(s, datalen);
    PrintedSize(0, s.Options());
  }

  /**
   In a coherent context the peer finds the sender's window exactly when the loop comes to a
   marker as many bytes before the end of the options as there are long ones.
   */
  lemma FreshWindowIff(s: CoapState, b: CoapState, buffer: seq<byte>, datalen: nat)
    requires b.token == s.token && 0 < datalen
    requires Fits(s, datalen) && s.hdrsize == FreshSize(s)
    requires AT + |Head(s, datalen)| <= |buffer| && AT + SentLength(s, datalen) <= |buffer|
    ensures LongOptions(s.Options()) <= |Print(0, s.Options())|
    ensures Parse(b, Message(s, buffer, datalen)) == Outcome(NET_STATUS_OK, s.requestMethod, s.hdrsize, datalen + 1)
            <==> s.kind % 4 == NONCONFIRMABLE && |s.token| < 16
                 && LandsInOptions(Print(0, s.Options()), LongOptions(s.Options()))
  {
    LandsIfInOptions(s, buffer, datalen);
    SenderWindowIff(s, b, buffer, datalen);
  }

  lemma MarkerInOptions(options: seq<byte>, rest: seq<byte>, n: nat)
    requires n <= |options|
    ensures MarkerAt(options + [0xFF] + rest, n + 1)
            <==> Skippable(options[..n], true) && (options + [0xFF])[n] == 0xFF
  {
    assert (options + [0xFF] + rest)[..n] == options[..n];
  }

  /**
   A context the peer cannot read, which delivers the sender's window nevertheless: the loop
   stops at the last byte of the query, and the printed marker takes the place of the first
   byte of the payload.
   */
  lemma FalseMarkerIsFound(s: CoapState, b: CoapState, buffer: seq<byte>, datalen: nat, filler: seq<byte>)
    requires |filler| == 526 && s.uriPath == [[0x61]] && s.contentType == 50 && s.uriQuery == [FalseMarker(filler)]
    requires s.kind % 4 == NONCONFIRMABLE && |s.token| < 16 && b.token == s.token
    requires 0 < datalen && Fits(s, datalen) && s.hdrsize == FreshSize(s)
    requires AT + |Head(s, datalen)| <= |buffer| && AT + SentLength(s, datalen) <= |buffer|
    ensures !Readable(s, true) && LongOptions(s.Options()) == 1
    ensures Parse(b, Message(s, buffer, datalen)) == Outcome(NET_STATUS_OK, s.requestMethod, s.hdrsize, datalen + 1)
  {
    FalseMarkerOptions(s, filler);
    FreshWindowIff(s, b, buffer, datalen);
  }

  lemma FalseMarkerOptions(s: CoapState, filler: seq<byte>)
    requires |filler| == 526 && s.uriPath == [[0x61]] && s.contentType == 50 && s.uriQuery == [FalseMarker(filler)]
    requires |Print(0, s.Options())| < 0xFFFE
    ensures !Delimited(s.uriPath, s.contentType, s.uriQuery, true)
    ensures LongOptions(s.Options()) == 1 <= |Print(0, s.Options())| && LandsInOptions(Print(0, s.Options()), 1)
  {
    LandsOnFalseMarker(filler);
    OneLongQuery(FalseMarker(filler));
    var front := SingleQueryParts(s.uriPath, s.contentType, FalseMarker(filler));
    LandsInLast(front, PrintOption(Opt(14, FalseMarker(filler))));
  }

  lemma OneLongQuery(value: seq<byte>)
    requires 269 <= |value| <= MAX_EXTENDED
    ensures LongOptions(Items([[0x61]], 50, [value])) == 1
    ensures AllShort(MAX_EXTENDED, Items([[0x61]], 50, [value])) && !DeltasFit([[0x61]], 50, [value])
  {
    var path, content, query := Item(URIPATH, [0x61]), Item(CONTENTFORMAT, [50]), Item(URIQUERY, value);
    assert Items([[0x61]], 50, [value]) == [path] + ([content] + ([query] + []));
    SizeOfFirst(path, [content] + ([query] + []));
    SizeOfFirst(content, [query] + []);
    SizeOfFirst(query, []);
  }

  lemma LandsInLast(front: seq<Opt>, last: seq<byte>)
    requires AllBelow(13, front) && AllEncodable(front) && |FlatMap(PrintOption, front) + last| < 0xFFFE
    requires last != [] && last[|last| - 1] == 0xFF && Skippable(last[..|last| - 1], true)
    ensures LandsInOptions(FlatMap(PrintOption, front) + last, 1)
  {
    SkippableBehind(front, last[..|last| - 1], true);
    LastOfTwo(FlatMap(PrintOption, front), last);
  }

  lemma LastOfTwo(a: seq<byte>, t: seq<byte>)
    requires t != []
    ensures var n := |a + t| - 1;
            (a + t)[..n] == a + t[..|t| - 1] && (a + t + [0xFF])[n] == t[|t| - 1]
  {
  }

  /**
   The bytes from the sender's payload position on are its payload exactly when this starts
   with the bytes of the head that were printed over it.
   */
  lemma PayloadIsKeptIff(s: CoapState, buffer: seq<byte>, datalen: nat)
    requires 0 < datalen && Fits(s, datalen) && s.hdrsize == FreshSize(s) && LongOptions(s.Options()) <= datalen
    requires AT + |Head(s, datalen)| <= |buffer| && AT + SentLength(s, datalen) <= |buffer|
    ensures var m, head := Message(s, buffer, datalen), Head(s, datalen);
            var pos, k := AT + s.hdrsize, LongOptions(s.Options());
            && |m| == s.hdrsize + datalen && pos + datalen <= |buffer| && s.hdrsize + k == |head|
            && (m[s.hdrsize..] == buffer[pos..pos + datalen] <==> head[s.hdrsize..] == buffer[pos..pos + k])
  {
    hide Head, FreshSize, Fits, LongOptions;
    var head, pos, k := Head(s, datalen), AT + s.hdrsize, LongOptions(s.Options());
    MessageIsHeadAndPayload(s, buffer, datalen);
    SuffixIsKeptIff(head, buffer, s.hdrsize, pos, pos + k, pos + datalen);
  }

  lemma SuffixIsKeptIff(head: seq<byte>, buffer: seq<byte>, n: nat, at: nat, mid: nat, end: nat)
    requires n <= |head| && at <= mid <= end <= |buffer| && mid - at == |head| - n
    ensures (head + buffer[mid..end])[n..] == buffer[at..end] <==> head[n..] == buffer[at..mid]
  {
    assert (head + buffer[mid..end])[n..] == head[n..] + buffer[mid..end];
    assert buffer[at..end] == buffer[at..mid] + buffer[mid..end];
    assert (head[n..] + buffer[mid..end])[..mid - at] == head[n..];
    assert buffer[at..end][..mid - at] == buffer[at..mid];
  }

  /** With one long option that byte is the marker. */
  lemma OneByteIsMarker(s: CoapState, buffer: seq<byte>, datalen: nat)
    requires 0 < datalen && Fits(s, datalen) && s.hdrsize == FreshSize(s) && LongOptions(s.Options()) == 1
    requires AT + |Head(s, datalen)| <= |buffer| && AT + SentLength(s, datalen) <= |buffer|
    ensures var m, pos := Message(s, buffer, datalen), AT + s.hdrsize;
            && |m| == s.hdrsize + datalen && pos + datalen <= |buffer|
            && (m[s.hdrsize..] == buffer[pos..pos + datalen] <==> buffer[pos] == 0xFF)
  {
    hide FreshSize, Fits, LongOptions;
    var head, pos := Head(s, datalen), AT + s.hdrsize;
    PayloadIsKeptIff(s, buffer, datalen);
    HeadEndsInMarker(s, datalen);
    assert head[s.hdrsize..] == [0xFF] && buffer[pos..pos + 1] == [buffer[pos]];
  }

  lemma CutParts(fixed: seq<byte>, token: seq<byte>, options: seq<byte>, marker: seq<byte>, n: nat)
    requires n <= |options|
    ensures |fixed| + |token| + n <= |fixed + token + options + marker|
    ensures (fixed + token + options + marker)[..|fixed| + |token| + n] == fixed + (token + options[..n])
  {
  }

  /** A head of which only the first `n` bytes of the options are sent. */
  lemma CutHead(s: CoapState, datalen: nat, n: nat)
    requires n <= |Print(0, s.Options())|
    ensures BASE_HDRSIZE + |s.token| + n <= |Head(s, datalen)|
    ensures Head(s, datalen)[..BASE_HDRSIZE + |s.token| + n]
            == FixedHeader(s) + (s.token + Print(0, s.Options())[..n])
  {
    var marker := if datalen > 0 then [0xFF] else [];
    CutParts(FixedHeader(s), s.token, Print(0, s.Options()), marker, n);
  }

  /** A head with nothing behind its marker. */
  lemma ParseOfBareMarker(s: CoapState, b: CoapState, datalen: nat)
    requires Readable(s, true) && b.token == s.token
    requires datalen > 0 && Fits(s, datalen)
    ensures Parse(b, Head(s, datalen)) == Outcome(NET_EOVERFLOW, b.responseCode, 0, 0)
  {
    var options := Print(0, s.Options());
    Regroup(FixedHeader(s), s.token, options, [0xFF], []);
    assert Head(s, datalen) == FixedHeader(s) + (s.token + (options + [0xFF]));
    ParseOfSent(s, b, options + [0xFF]);
    SentOptions(s, datalen);
    BareMarkerFails(options);
  }

  /** Where a message is cut that has fewer payload bytes than long options, or none of either. */
  lemma CutMessage(s: CoapState, buffer: seq<byte>, datalen: nat) returns (n: nat)
    requires Fits(s, datalen) && s.hdrsize == FreshSize(s)
    requires AT + |Head(s, datalen)| <= |buffer| && AT + SentLength(s, datalen) <= |buffer|
    requires LongOptions(s.Options()) > datalen || LongOptions(s.Options()) == datalen == 0
    ensures n == Kept(s, datalen) <= |Print(0, s.Options())|
    ensures Message(s, buffer, datalen) == FixedHeader(s) + (s.token + Print(0, s.Options())[..n])
  {
    var head, k := Head(s, datalen), LongOptions(s.Options());
    MessageIsHeadAndPayload(s, buffer, datalen);
    HeadParts(s, datalen);
    PrintedSize(0, s.Options());
    n := Kept(s, datalen);
    assert k == 0 ==> head[..|head|] == head && Message(s, buffer, datalen) == head;
    CutHead(s, datalen, n);
  }

  /** How many bytes of the options are then left: the marker is the first to go. */
  function Kept(s: CoapState, datalen: nat): int {
    |Print(0, s.Options())| + datalen + (if datalen > 0 then 1 else 0) - LongOptions(s.Options())
  }

  /** The message when the payload is longer than the number of long options. */
  lemma ShortenedPayload(s: CoapState, buffer: seq<byte>, datalen: nat)
    returns (payload: seq<byte>)
    requires Fits(s, datalen) && s.hdrsize == FreshSize(s)
    requires AT + |Head(s, datalen)| <= |buffer| && AT + SentLength(s, datalen) <= |buffer|
    requires LongOptions(s.Options()) < datalen
    ensures |payload| == datalen - LongOptions(s.Options())
    ensures Message(s, buffer, datalen) == Head(s, |payload|) + payload
    ensures |Head(s, |payload|)| == s.hdrsize + LongOptions(s.Options()) && Fits(s, |payload|)
  {
    var k, pos := LongOptions(s.Options()), AT + s.hdrsize;
    MessageIsHeadAndPayload(s, buffer, datalen);
    payload := buffer[pos + k..pos + datalen];
    assert Head(s, |payload|) == Head(s, datalen);
  }

  lemma PayloadLosesStart(s: CoapState, b: CoapState, buffer: seq<byte>, datalen: nat)
    requires Readable(s, true) && b.token == s.token
    requires Fits(s, datalen) && s.hdrsize == FreshSize(s)
    requires AT + |Head(s, datalen)| <= |buffer| && AT + SentLength(s, datalen) <= |buffer|
    requires LongOptions(s.Options()) < datalen
    ensures var k := LongOptions(s.Options());
            Parse(b, Message(s, buffer, datalen))
            == Outcome(NET_STATUS_OK, s.requestMethod, s.hdrsize + k, datalen - k + 1)
  {
    var payload := ShortenedPayload(s, buffer, datalen);
    ParseRoundTrip(s, b, payload);
  }

  /**
   A readable message with a payload, in a coherent context, gives the peer the sender's
   window exactly when no option has 269 bytes or more.
   */
  lemma PayloadArrivesIff(s: CoapState, b: CoapState, buffer: seq<byte>, datalen: nat)
    requires Readable(s, true) && b.token == s.token
    requires 0 < datalen && Fits(s, datalen) && s.hdrsize == FreshSize(s)
    requires AT + |Head(s, datalen)| <= |buffer| && AT + SentLength(s, datalen) <= |buffer|
    ensures Parse(b, Message(s, buffer, datalen)) == Outcome(NET_STATUS_OK, s.requestMethod, s.hdrsize, datalen + 1)
            <==> LongOptions(s.Options()) == 0
  {
    RightSizeIff(s, b, buffer, datalen);
    PrintedHeadSize(s, datalen);
  }

  lemma BareMarkerIsSent(s: CoapState, b: CoapState, buffer: seq<byte>, datalen: nat)
    requires Readable(s, true) && b.token == s.token
    requires Fits(s, datalen) && s.hdrsize == FreshSize(s)
    requires AT + |Head(s, datalen)| <= |buffer| && AT + SentLength(s, datalen) <= |buffer|
    requires LongOptions(s.Options()) == datalen > 0
    ensures Parse(b, Message(s, buffer, datalen)) == Outcome(NET_EOVERFLOW, b.responseCode, 0, 0)
  {
    MessageIsHeadAndPayload(s, buffer, datalen);
    assert Message(s, buffer, datalen) == Head(s, datalen);
    ParseOfBareMarker(s, b, datalen);
  }

  /**
   The exact outcome of a readable message when `k` options have 269 bytes or more. With
   more than `k` bytes of payload the first `k` are lost; with exactly `k` the peer reports
   an error; with fewer, or with no payload, the peer accepts exactly when what is left of
   the options can be skipped, and never sees the others.
   */
  lemma LongOptionsOutcome(s: CoapState, b: CoapState, buffer: seq<byte>, datalen: nat)
    requires Readable(s, datalen > 0) && b.token == s.token
    requires Fits(s, datalen) && s.hdrsize == FreshSize(s)
    requires AT + |Head(s, datalen)| <= |buffer| && AT + SentLength(s, datalen) <= |buffer|
    ensures var k, o := LongOptions(s.Options()), Parse(b, Message(s, buffer, datalen));
            if k < datalen then
              o == Outcome(NET_STATUS_OK, s.requestMethod, s.hdrsize + k, datalen - k + 1)
            else if k == datalen > 0 then
              o == Outcome(NET_EOVERFLOW, b.responseCode, 0, 0)
            else
              && 0 <= Kept(s, datalen) <= |Print(0, s.Options())|
              && if Skippable(Print(0, s.Options())[..Kept(s, datalen)], false)
                 then o == Outcome(NET_STATUS_OK, s.requestMethod, |Message(s, buffer, datalen)|, 0)
                 else o.status < 0
  {
    var k := LongOptions(s.Options());
    if k < datalen {
      PayloadLosesStart(s, b, buffer, datalen);
    } else if k == datalen > 0 {
      BareMarkerIsSent(s, b, buffer, datalen);
    } else {
      var n := CutMessage(s, buffer, datalen);
      CutOutcome(s, b, datalen, n);
    }
  }

  lemma CutOutcome(s: CoapState, b: CoapState, datalen: nat, n: nat)
    requires Readable(s, datalen > 0) && b.token == s.token && Fits(s, datalen)
    requires n <= |Print(0, s.Options())|
    ensures var m := FixedHeader(s) + (s.token + Print(0, s.Options())[..n]);
            if Skippable(Print(0, s.Options())[..n], false)
            then Parse(b, m) == Outcome(NET_STATUS_OK, s.requestMethod, |m|, 0)
            else Parse(b, m).status < 0
  {
    var cut := Print(0, s.Options())[..n];
    ParseOfSent(s, b, cut);
    SentOptions(s, datalen);
    PrefixHasNoPayload(Print(0, s.Options()), datalen > 0, n);
    assert cut + [] == cut;
    StopsIffSkippable(cut, []);
  }

  /** When all deltas fit, that is when whole options are left. */
  lemma {:induction false} SkippableIffWhole(s: CoapState, datalen: nat, n: nat)
    requires DeltasFit(s.uriPath, s.contentType, s.uriQuery) && Fits(s, datalen)
    requires n <= |Print(0, s.Options())|
    ensures Skippable(Print(0, s.Options())[..n], false) <==> WholeOptions(Steps(0, s.Options()), n)
  {
    var cut := Print(0, s.Options())[..n];
    SentOptions(s, datalen);
    DeltaRecurrence(s.uriPath, s.contentType, s.uriQuery);
    StepsAreEncodable(0, s.Options());
    CutIsAcceptedIff(Steps(0, s.Options()), n);
    assert cut + [] == cut;
    StopsIffSkippable(cut, []);
  }

  /** One path of 269 bytes or more and no payload: the path is cut, and the peer reports an error. */
  lemma LongPathIsRejected(s: CoapState, b: CoapState, buffer: seq<byte>, path: seq<byte>)
    requires s.kind % 4 == NONCONFIRMABLE && |s.token| < 16 && b.token == s.token
    requires s.uriPath == [path] && |path| >= 269 && s.contentType == 0 && s.uriQuery == []
    requires Fits(s, 0) && s.hdrsize == FreshSize(s)
    requires AT + |Head(s, 0)| <= |buffer| && AT + SentLength(s, 0) <= |buffer|
    ensures Parse(b, Message(s, buffer, 0)).status < 0
  {
    var x := Item(URIPATH, path);
    assert s.Options() == [x] + [];
    SizeOfFirst(x, []);
    PrintFirst(0, x, []);
    CutIsNotWhole(Opt(URIPATH, path));
    LongOptionsOutcome(s, b, buffer, 0);
    SkippableIffWhole(s, 0, Kept(s, 0));
  }

  /** With an empty second path the cut takes just that, and the peer accepts a request for the first. */
  lemma EmptyPathIsLost(s: CoapState, b: CoapState, buffer: seq<byte>, path: seq<byte>)
    requires s.kind % 4 == NONCONFIRMABLE && |s.token| < 16 && b.token == s.token
    requires s.uriPath == [path, []] && |path| >= 269 && s.contentType == 0 && s.uriQuery == []
    requires Fits(s, 0) && s.hdrsize == FreshSize(s)
    requires AT + |Head(s, 0)| <= |buffer| && AT + SentLength(s, 0) <= |buffer|
    ensures Message(s, buffer, 0) == FixedHeader(s) + (s.token + PrintOption(Opt(URIPATH, path)))
    ensures Parse(b, Message(s, buffer, 0))
            == Outcome(NET_STATUS_OK, s.requestMethod, |Message(s, buffer, 0)|, 0)
  {
    var first := PrintOption(Opt(URIPATH, path));
    assert s.Options() == [Item(URIPATH, path), Item(URIPATH, [])];
    TwoPaths(path);
    LongOptionsOutcome(s, b, buffer, 0);
    SkippableIffWhole(s, 0, Kept(s, 0));
    var n := CutMessage(s, buffer, 0);
    assert n == |first| && (first + [0])[..n] == first;
  }

  lemma TwoPaths(path: seq<byte>)
    requires |path| >= 269
    ensures var items, first := [Item(URIPATH, path), Item(URIPATH, [])], PrintOption(Opt(URIPATH, path));
            && LongOptions(items) == 1
            && Print(0, items) == first + [0]
            && WholeOptions(Steps(0, items), |first|)
  {
    var x, y := Item(URIPATH, path), Item(URIPATH, []);
    var step, last := Opt(URIPATH, path), Opt(0, []);
    SizeOfFirst(x, [y]);
    SizeOfFirst(y, []);
    StepsOfTwoPaths(path);
    OneOptionIsLeft(step, last);
    assert [x] + [y] == [x, y] && [y] + [] == [y] && [step] + [last] == [step, last];
  }

  lemma StepsOfTwoPaths(path: seq<byte>)
    ensures Steps(0, [Item(URIPATH, path), Item(URIPATH, [])]) == [Opt(URIPATH, path), Opt(0, [])]
  {
    var x, y := Item(URIPATH, path), Item(URIPATH, []);
    StepsFirst(0, [x, y]);
    assert [x, y][1..] == [y];
    StepsFirst(URIPATH, [y]);
  }

  lemma CutIsNotWhole(step: Opt)
    requires |PrintOption(step)| > 1
    ensures !WholeOptions([step] + [], |PrintOption(step)| - 1)
  {
  }

  lemma OneOptionIsLeft(step: Opt, last: Opt)
    requires last == Opt(0, [])
    ensures FlatMap(PrintOption, [step] + [last]) == PrintOption(step) + [0]
    ensures WholeOptions([step] + [last], |PrintOption(step)|)
  {
    assert PrintOption(last) == [0];
    assert ([step] + [last])[1..] == [last] && [last][1..] == [];
    assert FlatMap(PrintOption, [last]) == PrintOption(last) + [] == [0];
  }
}
