/**
 When the option loop of net_coap_recv, run over printed options, stops exactly where they
 end. The loop reads a delta nibble of 14 as the announcement of two more bytes, which the
 printer never writes; it may still find its way back to the end of the options.
 */
module CoapDelimiting {
  import opened Bytes
  import opened CoapOptions
  import opened CoapPrinter

  /** Where the loop should stop after `n` bytes of options: at the payload, or at the end. */
  function Stop(n: nat, payload: seq<byte>): WalkResult {
    if payload == [] then End(n, 0) else End(n + 1, |payload| + 1)
  }

  function Marker(more: bool): seq<byte> {
    if more then [0xFF] else []
  }

  /** The loop skips options up to exactly the end of `t`; `more` tells whether a marker follows. */
  predicate Skippable(t: seq<byte>, more: bool)
    decreases |t|
  {
    t == []
    || (t[0] != 0xFF
        && var step := OptionStep(t + Marker(more));
           step.Skip? && step.size <= |t| && Skippable(t[step.size..], more))
  }

  /** One option, read with one tail or another behind `t`. */
  lemma StepInside(t: seq<byte>, tail: seq<byte>, other: seq<byte>)
    requires t != [] && (tail == [] <==> other == [])
    requires OptionStep(t + tail).Skip? && OptionStep(t + tail).size <= |t|
    ensures HasHead(t) && OptionStep(t + tail) == OptionStep(t + other) == Skip(SkipSize(t))
  {
    StepOnHead(t + tail);
    StepOnHead(t + other);
    HeadOfPrefix(t, tail);
    HeadOfPrefix(t, other);
  }

  lemma {:induction false} EndIsBehindStart(s: seq<byte>)
    requires s != [] && Walk(s).End?
    ensures Walk(s).consumed >= 1
  {
  }

  lemma TakeConcat(a: seq<byte>, b: seq<byte>, n: nat)
    requires n <= |a + b|
    ensures (a + b)[..n] == if n < |a| then a[..n] else a + b[..n - |a|]
  {
  }

  lemma DropTake(t: seq<byte>, n: nat, m: nat)
    requires m <= n <= |t|
    ensures t[..n][m..] == t[m..][..n - m] && t[..n] + t[n..] == t
  {
  }

  lemma DropConcat(t: seq<byte>, tail: seq<byte>, n: nat)
    requires n <= |t|
    ensures (t + tail)[n..] == t[n..] + tail
  {
  }

  /** The loop stops at the payload exactly when it skips its way to the end of the options. */
  lemma {:induction false} StopsIffSkippable(t: seq<byte>, payload: seq<byte>)
    ensures Walk(t + Marked(payload)) == Stop(|t|, payload) <==> Skippable(t, payload != [])
    decreases |t|
  {
    var tail, more := Marked(payload), payload != [];
    var s := t + tail;
    if t == [] {
      assert s == tail;
    } else if t[0] != 0xFF {
      if OptionStep(s).Skip? && OptionStep(s).size <= |t| {
        var n := OptionStep(s).size;
        StepInside(t, tail, Marker(more));
        DropConcat(t, tail, n);
        StopsIffSkippable(t[n..], payload);
      } else if Skippable(t, more) {
        StepInside(t, Marker(more), tail);
      } else if OptionStep(s).Skip? {
        OvershootIsNoStop(t, payload);
      }
    }
  }

  lemma {:induction false} OvershootIsNoStop(t: seq<byte>, payload: seq<byte>)
    requires t != [] && t[0] != 0xFF
    requires var step := OptionStep(t + Marked(payload)); step.Skip? && step.size > |t|
    ensures Walk(t + Marked(payload)) != Stop(|t|, payload)
  {
    var s := t + Marked(payload);
    var n := OptionStep(s).size;
    var rest := s[n..];
    WalkTurn(s, rest);
    if rest != [] && Walk(rest).End? {
      EndIsBehindStart(rest);
    }
  }

  /** Cut short, such options never make the loop find a payload. */
  lemma {:induction false} PrefixHasNoPayload(t: seq<byte>, more: bool, n: nat)
    requires Skippable(t, more) && n <= |t|
    ensures Walk(t[..n]).Fail? || Walk(t[..n]) == End(n, 0)
    decreases |t|
  {
    var s := t[..n];
    if n > 0 && OptionStep(s).Skip? {
      StepInside(t, Marker(more), Marker(more));
      StepOnHead(s);
      HeadOfPrefix(s, t[n..]);
      var m := SkipSize(s);
      DropTake(t, n, m);
      PrefixHasNoPayload(t[m..], more, n - m);
      WalkTurn(s, t[m..][..n - m]);
    }
  }

  /** A payload is always found right behind a marker. */
  lemma {:induction false} MarkerBeforePayload(s: seq<byte>)
    requires Walk(s).End? && Walk(s).left > 0
    ensures var w := Walk(s);
            1 <= w.consumed <= |s| && s[w.consumed - 1] == 0xFF && w.left == |s| - w.consumed + 1
    decreases |s|
  {
    if s[0] != 0xFF {
      var n := OptionStep(s).size;
      MarkerBeforePayload(s[n..]);
    }
  }

  /** Where the loop finds a payload: behind a marker up to which it can skip its way. */
  lemma FindsPayloadIff(s: seq<byte>, n: nat, left: nat)
    requires left > 0
    ensures Walk(s) == End(n, left) <==>
              1 <= n < |s| && left == |s| - n + 1 && s[n - 1] == 0xFF && Skippable(s[..n - 1], true)
  {
    hide Walk, Skippable;
    if Walk(s) == End(n, left) {
      MarkerBeforePayload(s);
    }
    if 1 <= n < |s| && s[n - 1] == 0xFF {
      var t, payload := s[..n - 1], s[n..];
      assert s == t + Marked(payload);
      StopsIffSkippable(t, payload);
    }
  }

  /** Behind options the loop can skip there is no marker that it could also stop at. */
  lemma {:induction false} StopIsUnique(t: seq<byte>, n: nat)
    requires n < |t| && Skippable(t, true) && Skippable(t[..n], true)
    ensures t[n] != 0xFF
    decreases |t|
  {
    if n > 0 {
      var s := t[..n];
      StepInside(t, [0xFF], [0xFF]);
      StepInside(s, [0xFF], [0xFF]);
      DropTake(t, n, SkipSize(s));
      HeadOfPrefix(s, t[n..]);
      StopIsUnique(t[SkipSize(t)..], n - SkipSize(s));
    }
  }

  /** With a bare marker behind them, the loop reports a payload without bytes. */
  lemma {:induction false} BareMarkerFails(t: seq<byte>)
    requires Skippable(t, true)
    ensures Walk(t + [0xFF]) == Fail(NET_EOVERFLOW)
    decreases |t|
  {
    if t == [] {
      assert t + [0xFF] == [0xFF];
    } else {
      var n := OptionStep(t + [0xFF]).size;
      DropConcat(t, [0xFF], n);
      BareMarkerFails(t[n..]);
    }
  }

  // ---------------------------------------------------------------- deltas that fit

  lemma {:induction false} WalkSkips(o: Opt, rest: seq<byte>)
    requires o.Encodable() && |o.value| < 0x1_0000 && |EncodeOpt(o) + rest| < 0x1_0000
    ensures Walk(EncodeOpt(o) + rest) == Walk(rest).After(|EncodeOpt(o)|)
  {
    var s := EncodeOpt(o) + rest;
    FrontOfEncoded(o, rest);
    StepFollowsFormat(s);
    assert s[0] == EncodeOpt(o)[0] && s[FrontSize(s)..] == rest;
  }

  lemma {:induction false} WalkSkipsAll(steps: seq<Opt>, rest: seq<byte>)
    requires AllBelow(13, steps) && AllEncodable(steps)
    requires |FlatMap(PrintOption, steps) + rest| < 0x1_0000
    ensures Walk(FlatMap(PrintOption, steps) + rest) == Walk(rest).After(|FlatMap(PrintOption, steps)|)
    decreases |steps|
  {
    if steps == [] {
      assert FlatMap(PrintOption, steps) + rest == rest;
    } else {
      FlatMapFirst(steps, rest);
      PrintOptionIsFormat(steps[0]);
      WalkSkips(steps[0], FlatMap(PrintOption, steps[1..]) + rest);
      WalkSkipsAll(steps[1..], rest);
    }
  }

  /** Options with deltas below 13 do not matter for what follows them. */
  lemma {:induction false} SkippableBehind(steps: seq<Opt>, rest: seq<byte>, more: bool)
    requires AllBelow(13, steps) && AllEncodable(steps)
    requires |FlatMap(PrintOption, steps) + rest| < 0xFFFE
    ensures Skippable(FlatMap(PrintOption, steps) + rest, more) <==> Skippable(rest, more)
  {
    var payload: seq<byte> := if more then [0] else [];
    var front := FlatMap(PrintOption, steps);
    assert front + (rest + Marked(payload)) == (front + rest) + Marked(payload);
    WalkSkipsAll(steps, rest + Marked(payload));
    StopsIffSkippable(front + rest, payload);
    StopsIffSkippable(rest, payload);
  }

  /** The first `n` bytes are a number of whole printed options. */
  predicate WholeOptions(steps: seq<Opt>, n: nat) {
    n == 0
    || (steps != [] && |PrintOption(steps[0])| <= n && WholeOptions(steps[1..], n - |PrintOption(steps[0])|))
  }

  /** An option cut short is an error. */
  lemma CutOptionFails(o: Opt, n: nat)
    requires o.Encodable() && |EncodeOpt(o)| < 0x1_0000 && 0 < n < |EncodeOpt(o)|
    ensures Walk(EncodeOpt(o)[..n]).Fail?
  {
    assert EncodeOpt(o) + [] == EncodeOpt(o);
    FrontOfEncoded(o, []);
    CutFrontFails(EncodeOpt(o), n);
  }

  lemma CutFrontFails(all: seq<byte>, n: nat)
    requires 0 < n < |all| < 0x1_0000 && all[0] != 0xFF
    requires HasHead(all) && FrontSize(all) == |all|
    ensures Walk(all[..n]).Fail?
  {
    var s := all[..n];
    StepOnHead(s);
    if HasHead(s) {
      assert s + all[n..] == all;
      HeadOfPrefix(s, all[n..]);
    }
  }

  /** Printed options that are cut short are accepted exactly when whole options are left. */
  lemma {:induction false} CutIsAcceptedIff(steps: seq<Opt>, n: nat)
    requires AllBelow(13, steps) && AllEncodable(steps)
    requires n <= |FlatMap(PrintOption, steps)| < 0x1_0000
    ensures var w := Walk(FlatMap(PrintOption, steps)[..n]);
            if WholeOptions(steps, n) then w == End(n, 0) else w.Fail?
    decreases |steps|
  {
    if n > 0 {
      var first, rest := PrintOption(steps[0]), FlatMap(PrintOption, steps[1..]);
      PrintOptionIsFormat(steps[0]);
      TakeConcat(first, rest, n);
      if n < |first| {
        CutOptionFails(steps[0], n);
      } else {
        CutIsAcceptedIff(steps[1..], n - |first|);
        WalkSkips(steps[0], rest[..n - |first|]);
      }
    }
  }

  // ---------------------------------------------------------------- deltas that do not fit

  /** A reserved nibble 15 in front, which no option printed from the format has. */
  lemma {:induction false} ReservedNibbleFails(o: Opt, rest: seq<byte>)
    requires o.delta == 15
    ensures Walk(PrintOption(o) + rest) == Fail(NET_EPROTO)
    ensures OptionStep(PrintOption(o) + rest).Bad?
  {
    PrintedNibble(o, rest);
  }

  /** Encodable options, then one with the reserved nibble. */
  lemma {:induction false} WalkFailsAfter(front: seq<Opt>, steps: seq<Opt>, tail: seq<byte>)
    requires AllBelow(13, front) && AllEncodable(front)
    requires steps != [] && steps[0].delta == 15
    requires |FlatMap(PrintOption, front + steps) + tail| < 0x1_0000
    ensures Walk(FlatMap(PrintOption, front + steps) + tail) == Fail(NET_EPROTO)
  {
    var rest := FlatMap(PrintOption, steps) + tail;
    FlatMapConcat(PrintOption, front, steps);
    assert FlatMap(PrintOption, front + steps) + tail == FlatMap(PrintOption, front) + rest;
    WalkSkipsAll(front, rest);
    FlatMapFirst(steps, tail);
    ReservedNibbleFails(steps[0], FlatMap(PrintOption, steps[1..]) + tail);
  }


  /**
   Where the loop comes out after an option printed with delta 14, counted from the start
   of its value: it takes for the extended delta the two bytes behind the option header.
   */
  function Landing(value: seq<byte>): nat {
    if |value| < 13 then |value| + 2
    else if |value| < 269 then 15 + value[1]
    else 2 + (Word(value[0], value[1]) + 269) % 0x1_0000
  }

  /** The head the loop sees at such an option: a short one. */
  lemma ShortHead14(value: seq<byte>, rest: seq<byte>)
    requires |value| < 13
    ensures var t := PrintOption(Opt(14, value)) + rest;
            && t[0] == 0xE0 + |value| && t[1..] == value + rest
            && (HasHead(t) <==> 3 <= |t|)
            && (HasHead(t) ==> SkipSize(t) == 1 + Landing(value) && HeadSize(t) == 3)
  {
  }

  lemma MediumHead14(value: seq<byte>, rest: seq<byte>)
    requires 13 <= |value| < 269
    ensures var t := PrintOption(Opt(14, value)) + rest;
            && t[0] == 0xED && t[2..] == value + rest && HasHead(t)
            && SkipSize(t) == 2 + Landing(value) && HeadSize(t) == 4
  {
    var t := PrintOption(Opt(14, value)) + rest;
    assert t == [0xED, |value| - 13] + (value + rest);
    assert t[3] == value[1];
  }

  lemma LongHead14(value: seq<byte>, rest: seq<byte>)
    requires 269 <= |value| <= MAX_EXTENDED
    ensures var t := PrintOption(Opt(14, value)) + rest;
            && t[0] == 0xEE && t[3..] == value + rest && HasHead(t)
            && SkipSize(t) == 3 + Landing(value) && HeadSize(t) == 5
  {
    var t := PrintOption(Opt(14, value)) + rest;
    assert t == [0xEE] + Be16(|value| - 269) + (value + rest);
    assert t[3] == value[0] && t[4] == value[1];
    assert HeadLen(t) == Word(value[0], value[1]) + 269;
  }

  /** Past an option with delta 14 the loop goes on from the landing point. */
  lemma {:induction false} SkippableFrom14(value: seq<byte>, rest: seq<byte>, more: bool)
    requires |value| <= MAX_EXTENDED
    ensures Skippable(PrintOption(Opt(14, value)) + rest, more) <==>
              Landing(value) <= |value + rest| && Skippable((value + rest)[Landing(value)..], more)
  {
    var t, n := PrintOption(Opt(14, value)) + rest, |PrintHead(14, |value|)|;
    if |value| < 13 {
      ShortHead14(value, rest);
    } else if |value| < 269 {
      MediumHead14(value, rest);
    } else {
      LongHead14(value, rest);
    }
    StepOnHead(t + Marker(more));
    if HasHead(t) {
      HeadOfPrefix(t, Marker(more));
      if Landing(value) <= |value + rest| {
        assert t[n..] == value + rest;
        assert t[SkipSize(t)..] == (value + rest)[Landing(value)..];
      }
    }
  }

  // ---------------------------------------------------------------- all options of a message

  /** What is printed from the value of a first query on, when that has delta 14. */
  function FromValue(queries: seq<seq<byte>>): seq<byte>
    requires queries != []
  {
    queries[0] + Print(14, Numbered(URIQUERY, queries[1..]))
  }

  /** The loop lands inside what is printed, where it can go on to the end. */
  predicate Lands(queries: seq<seq<byte>>, more: bool)
    requires queries != []
  {
    var printed := FromValue(queries);
    Landing(queries[0]) <= |printed| && Skippable(printed[Landing(queries[0])..], more)
  }

  /**
   The options a peer can delimit: all deltas fit, or the first query has delta 14 and its
   value leads the loop back.
   */
  predicate Delimited(paths: seq<seq<byte>>, contenttype: byte, queries: seq<seq<byte>>, more: bool) {
    DeltasFit(paths, contenttype, queries) || (contenttype != 0 && Lands(queries, more))
  }

  /** When the guard fails, the first query has delta 15 or 14 behind options that fit. */
  lemma MisfitSteps(paths: seq<seq<byte>>, contenttype: byte, queries: seq<seq<byte>>)
    returns (front: seq<Opt>, misfit: Opt, rest: seq<Opt>)
    requires !DeltasFit(paths, contenttype, queries)
    ensures front == Steps(0, Numbered(URIPATH, paths) + ContentItem(contenttype)) && AllBelow(13, front)
    ensures misfit == Opt(if contenttype == 0 then 15 else 14, queries[0])
    ensures contenttype != 0 ==> rest == Steps(14, Numbered(URIQUERY, queries[1..]))
    ensures Steps(0, Items(paths, contenttype, queries)) == front + ([misfit] + rest)
  {
    var a, q := Numbered(URIPATH, paths) + ContentItem(contenttype), Numbered(URIQUERY, queries);
    FrontDeltas(paths, contenttype);
    StepsConcat(0, a, q);
    var start := LastDelta(0, a);
    StepsFirst(start, q);
    front, rest := Steps(0, a), Steps(start, q)[1..];
    misfit := Steps(start, q)[0];
    StartParity(|paths|, |ContentItem(contenttype)|, start);
    assert q[1..] == Numbered(URIQUERY, queries[1..]);
  }

  lemma FrontIsShort(paths: seq<seq<byte>>, contenttype: byte, queries: seq<seq<byte>>, bound: nat)
    requires AllShort(bound, Items(paths, contenttype, queries))
    ensures AllShort(bound, Numbered(URIPATH, paths) + ContentItem(contenttype))
    ensures queries != [] ==> |queries[0]| <= bound
  {
    var a, items := Numbered(URIPATH, paths) + ContentItem(contenttype), Items(paths, contenttype, queries);
    assert forall i :: 0 <= i < |a| ==> a[i] == items[i];
    assert queries != [] ==> items[|a|].value == queries[0];
  }

  lemma {:induction false} PrintOfParts(front: seq<Opt>, misfit: Opt, rest: seq<Opt>)
    ensures FlatMap(PrintOption, front + ([misfit] + rest))
            == FlatMap(PrintOption, front) + (PrintOption(misfit) + FlatMap(PrintOption, rest))
  {
    FlatMapConcat(PrintOption, front, [misfit] + rest);
    assert ([misfit] + rest)[1..] == rest;
  }

  /** The loop skips its way through the printed options exactly when they are delimited. */
  lemma {:induction false} SkippableIffDelimited(paths: seq<seq<byte>>, contenttype: byte, queries: seq<seq<byte>>,
                                                 more: bool)
    requires AllShort(MAX_EXTENDED, Items(paths, contenttype, queries))
    requires |Print(0, Items(paths, contenttype, queries))| < 0xFFFE
    ensures Skippable(Print(0, Items(paths, contenttype, queries)), more)
            <==> Delimited(paths, contenttype, queries, more)
  {
    var items := Items(paths, contenttype, queries);
    if DeltasFit(paths, contenttype, queries) {
      DeltaRecurrence(paths, contenttype, queries);
      StepsAreEncodable(0, items);
      assert FlatMap(PrintOption, Steps(0, items)) + [] == Print(0, items);
      SkippableBehind(Steps(0, items), [], more);
    } else {
      var front, misfit, rest := MisfitSteps(paths, contenttype, queries);
      FrontIsShort(paths, contenttype, queries, MAX_EXTENDED);
      StepsAreEncodable(0, Numbered(URIPATH, paths) + ContentItem(contenttype));
      PrintOfParts(front, misfit, rest);
      SkippableBehind(front, PrintOption(misfit) + FlatMap(PrintOption, rest), more);
      if contenttype == 0 {
        ReservedNibbleFails(misfit, FlatMap(PrintOption, rest) + Marker(more));
        assert PrintOption(misfit) + FlatMap(PrintOption, rest) + Marker(more)
            == PrintOption(misfit) + (FlatMap(PrintOption, rest) + Marker(more));
      } else {
        SkippableFrom14(queries[0], FlatMap(PrintOption, rest), more);
      }
    }
  }

  // ---------------------------------------------------------------- a single query

  /**
   A single query, by the length of its value: below 15 bytes it is never delimited;
   otherwise its second byte, or its first two from 269 bytes on, must lead to its end or to
   bytes in it that are options again.
   */
  lemma {:induction false} SingleQueryLands(value: seq<byte>, more: bool)
    ensures |value| < 15 ==> !Lands([value], more)
    ensures 15 <= |value| < 269 ==>
              (Lands([value], more) <==>
               value[1] <= |value| - 15 && Skippable(value[15 + value[1]..], more))
    ensures 15 <= |value| < 269 && value[1] == |value| - 15 ==> Lands([value], more)
    ensures |value| >= 269 ==>
              var n := (Word(value[0], value[1]) + 269) % 0x1_0000;
              && (Lands([value], more) <==> n <= |value| - 2 && Skippable(value[2 + n..], more))
              && (n == |value| - 2 ==> Lands([value], more))
  {
    assert [value][1..] == [] && FromValue([value]) == value;
  }

  /** A value below 13 bytes takes the marker and the first byte of the payload with it. */
  lemma ShortQueryEatsPayload(value: seq<byte>, payload: seq<byte>)
    requires |value| < 13
    ensures Walk(PrintOption(Opt(14, value)) + Marked(payload))
            == if payload == [] then Fail(NET_EOVERFLOW) else Walk(payload[1..]).After(3 + |value|)
  {
    var s, n := PrintOption(Opt(14, value)) + Marked(payload), 3 + |value|;
    ShortHead14(value, Marked(payload));
    StepOnHead(s);
    if payload != [] {
      assert s[n..] == s[1..][n - 1..] == payload[1..];
      WalkTurn(s, payload[1..]);
    }
  }

  /** What is printed when a single query has delta 14. */
  lemma SingleQueryParts(paths: seq<seq<byte>>, contenttype: byte, query: seq<byte>) returns (front: seq<Opt>)
    requires contenttype != 0 && !DeltasFit(paths, contenttype, [query])
    requires AllShort(MAX_EXTENDED, Items(paths, contenttype, [query]))
    ensures AllBelow(13, front) && AllEncodable(front)
    ensures Print(0, Items(paths, contenttype, [query]))
            == FlatMap(PrintOption, front) + PrintOption(Opt(14, query))
  {
    var misfit, rest;
    front, misfit, rest := MisfitSteps(paths, contenttype, [query]);
    assert rest == [];
    FrontIsShort(paths, contenttype, [query], MAX_EXTENDED);
    StepsAreEncodable(0, Numbered(URIPATH, paths) + ContentItem(contenttype));
    PrintOfParts(front, misfit, rest);
    assert PrintOption(misfit) + [] == PrintOption(misfit);
  }

  /** The same behind other options: a short single query with delta 14. */
  lemma ShortQueryWalk(paths: seq<seq<byte>>, contenttype: byte, query: seq<byte>, payload: seq<byte>)
    requires contenttype != 0 && !DeltasFit(paths, contenttype, [query]) && |query| < 13
    requires AllShort(MAX_EXTENDED, Items(paths, contenttype, [query]))
    requires |Print(0, Items(paths, contenttype, [query])) + Marked(payload)| < 0x1_0000
    ensures var printed := Print(0, Items(paths, contenttype, [query]));
            Walk(printed + Marked(payload))
            == if payload == [] then Fail(NET_EOVERFLOW) else Walk(payload[1..]).After(|printed| + 2)
  {
    var front := SingleQueryParts(paths, contenttype, query);
    BehindFront(front, query, payload);
  }

  lemma {:induction false} BehindFront(front: seq<Opt>, query: seq<byte>, payload: seq<byte>)
    requires AllBelow(13, front) && AllEncodable(front) && |query| < 13
    requires |FlatMap(PrintOption, front) + PrintOption(Opt(14, query)) + Marked(payload)| < 0x1_0000
    ensures var printed := FlatMap(PrintOption, front) + PrintOption(Opt(14, query));
            Walk(printed + Marked(payload))
            == if payload == [] then Fail(NET_EOVERFLOW) else Walk(payload[1..]).After(|printed| + 2)
  {
    hide Walk;
    var a, b, c := FlatMap(PrintOption, front), PrintOption(Opt(14, query)), Marked(payload);
    Associates(a, b, c);
    WalkSkipsAll(front, b + c);
    ShortQueryEatsPayload(query, payload);
    assert |b| == 1 + |query|;
    if payload != [] {
      AfterTwice(Walk(payload[1..]), |a|, |b| + 2);
    }
  }

  /**
   The path "a", content type 50 and the query "b=c": without a payload the peer reports an
   error, and with the payload [7] it reports a message without any.
   */
  lemma QueryWithDelta14()
    ensures var printed := Print(0, Items([[0x61]], 50, [[0x62, 0x3D, 0x63]]));
            && Walk(printed + Marked([])) == Fail(NET_EOVERFLOW)
            && Walk(printed + Marked([7])) == End(10, 0)
  {
    var query := [0x62, 0x3D, 0x63];
    var items := Items([[0x61]], 50, [query]);
    var path, content, last := Item(URIPATH, [0x61]), Item(CONTENTFORMAT, [50]), Item(URIQUERY, query);
    assert items == [path] + ([content] + [last]);
    PrintedSize(0, items);
    SizeOfFirst(path, [content] + [last]);
    SizeOfFirst(content, [last]);
    SizeOfFirst(last, []);
    assert [last] + [] == [last];
    ShortQueryWalk([[0x61]], 50, query, []);
    ShortQueryWalk([[0x61]], 50, query, [7]);
    assert [7][1..] == [];
  }

  /** A query of 529 bytes that ends in a byte the loop takes for the marker. */
  function FalseMarker(filler: seq<byte>): (value: seq<byte>)
    requires |filler| == 526
    ensures |value| == 529 && value[0] == value[1] == 1 && value[528] == 0xFF
  {
    [1, 1] + filler + [0xFF]
  }

  /** From an option printed with delta 14 for that query the loop skips to its last byte. */
  lemma LandsOnFalseMarker(filler: seq<byte>)
    requires |filler| == 526
    ensures var t := PrintOption(Opt(14, FalseMarker(filler)));
            |t| == 532 && t[531] == 0xFF && Skippable(t[..531], true)
    ensures !Lands([FalseMarker(filler)], true)
  {
    var value := FalseMarker(filler);
    var t := PrintOption(Opt(14, value)) + [];
    assert Word(value[0], value[1]) == 0x101;
    assert Landing(value) == 528;
    LongHead14(value, []);
    StepOnHead(t);
    assert t[..531] + [0xFF] == t && t[531] == t[3..][528] == value[528];
    assert t == PrintOption(Opt(14, value));
    SingleQueryLands(value, true);
    assert value[528..] == [0xFF];
  }

  // ---------------------------------------------------------------- in terms of the format

  /** A list of options of the format. */
  ghost predicate IsOptions(t: seq<byte>) {
    exists os: seq<Opt> :: AllEncodable(os) && EncodeOpts(os) == t
  }

  lemma {:induction false} IsOptionsIffDecodes(t: seq<byte>)
    ensures IsOptions(t) <==> Decode(t).Some? && Decode(t).value.payload == []
  {
    if Decode(t).Some? && Decode(t).value.payload == [] {
      var b := Decode(t).value;
      DecodeIsTheFormat(t, b);
      assert EncodeOpts(b.options) == t;
    }
    if IsOptions(t) {
      var os: seq<Opt> :| AllEncodable(os) && EncodeOpts(os) == t;
      assert EncodeBody(Body(os, [])) == t;
      DecodeIsTheFormat(t, Body(os, []));
    }
  }

  /** Short of a wrapping length, the loop skips through `t` when it is a list of options. */
  lemma {:induction false} SkippableIffOptions(t: seq<byte>, more: bool)
    requires |t| < 0xFFFF
    ensures Skippable(t, more) && !MeetsWrap(t) <==> IsOptions(t)
  {
    IsOptionsIffDecodes(t);
    SkippableIffDecodes(t, more);
  }

  lemma {:induction false} SkippableIffDecodes(t: seq<byte>, more: bool)
    requires |t| < 0xFFFF
    ensures Skippable(t, more) && !MeetsWrap(t) <==> Decode(t).Some? && Decode(t).value.payload == []
    decreases |t|
  {
    if t != [] && t[0] != 0xFF {
      StepFollowsFormat(t);
      StepOnHead(t);
      if FrontOption(t).Some? {
        var n := FrontSize(t);
        SkippableIffDecodes(t[n..], more);
        HeadOfPrefix(t, Marker(more));
        StepOnHead(t + Marker(more));
      } else if Skippable(t, more) {
        StepInside(t, Marker(more), Marker(more));
        assert LengthWraps(t);
      }
    }
  }
}
