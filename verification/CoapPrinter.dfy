/**
 The options net_coap_send prints, and how they relate to the format.

 NET_COAP_PUT_OPTION keeps the previous delta in `options_delta`, where the format wants
 the previous option number.
 */
module CoapPrinter {
  import opened Bytes
  import opened CoapOptions

  const URIPATH: byte := 11
  const CONTENTFORMAT: byte := 12
  const URIQUERY: byte := 15

  /** An option to print: its registered number and its value. */
  datatype Item = Item(number: byte, value: seq<byte>)

  function Numbered(number: byte, values: seq<seq<byte>>): (r: seq<Item>)
    ensures |r| == |values|
  {
    seq(|values|, i requires 0 <= i < |values| => Item(number, values[i]))
  }

  function ContentItem(contenttype: byte): seq<Item> {
    if contenttype == 0 then [] else [Item(CONTENTFORMAT, [contenttype])]
  }

  /** All options, in the order net_coap_send prints them. */
  function Items(paths: seq<seq<byte>>, contenttype: byte, queries: seq<seq<byte>>): seq<Item> {
    Numbered(URIPATH, paths) + ContentItem(contenttype) + Numbered(URIQUERY, queries)
  }

  // ---------------------------------------------------------------- the macro

  /** options_delta = option_number - options_delta, in eight bits. */
  function NextDelta(delta: byte, number: byte): byte {
    (number - delta) % 0x100
  }

  function PrintHead(delta: nat, len: nat): (r: seq<byte>)
    ensures |r| == if len < 13 then 1 else if len < 269 then 2 else 3
  {
    [delta % 16 * 16 + Nibble(len)] + if len < 13 then [] else if len < 269 then [len - 13] else Be16(len - 269)
  }

  /** What the macro prints for a delta and a value. */
  function PrintOption(o: Opt): (r: seq<byte>)
    ensures |r| >= 1
  {
    PrintHead(o.delta, |o.value|) + o.value
  }

  /** The deltas and values printed for `items` when the variable starts at `delta`. */
  function Steps(delta: byte, items: seq<Item>): (r: seq<Opt>)
    ensures |r| == |items|
    decreases |items|
  {
    if items == [] then []
    else
      var d := NextDelta(delta, items[0].number);
      [Opt(d, items[0].value)] + Steps(d, items[1..])
  }

  /** The value of the variable after `items`. */
  function LastDelta(delta: byte, items: seq<Item>): byte
    decreases |items|
  {
    if items == [] then delta else LastDelta(NextDelta(delta, items[0].number), items[1..])
  }

  function FlatMap<T>(f: T -> seq<byte>, xs: seq<T>): seq<byte> {
    if xs == [] then [] else f(xs[0]) + FlatMap(f, xs[1..])
  }

  function Print(delta: byte, items: seq<Item>): seq<byte> {
    FlatMap(PrintOption, Steps(delta, items))
  }

  lemma {:induction false} FlatMapConcat<T>(f: T -> seq<byte>, a: seq<T>, b: seq<T>)
    ensures FlatMap(f, a + b) == FlatMap(f, a) + FlatMap(f, b)
  {
    if a == [] {
      assert a + b == b;
    } else {
      FlatMapConcat(f, a[1..], b);
      assert (a + b)[1..] == a[1..] + b;
    }
  }

  lemma {:induction false} LastDeltaConcat(delta: byte, a: seq<Item>, b: seq<Item>)
    ensures LastDelta(delta, a + b) == LastDelta(LastDelta(delta, a), b)
    decreases |a|
  {
    if a == [] {
      assert a + b == b;
    } else {
      LastDeltaConcat(NextDelta(delta, a[0].number), a[1..], b);
      assert (a + b)[1..] == a[1..] + b;
    }
  }

  lemma {:induction false} StepsConcat(delta: byte, a: seq<Item>, b: seq<Item>)
    ensures Steps(delta, a + b) == Steps(delta, a) + Steps(LastDelta(delta, a), b)
    decreases |a|
  {
    if a == [] {
      assert a + b == b;
    } else {
      var d := NextDelta(delta, a[0].number);
      var first := Opt(d, a[0].value);
      StepsConcat(d, a[1..], b);
      assert (a + b)[1..] == a[1..] + b && (a + b)[0] == a[0];
      assert Steps(delta, a + b) == [first] + Steps(d, a[1..] + b);
      assert Steps(delta, a) == [first] + Steps(d, a[1..]);
    }
  }

  lemma {:induction false} PrintConcat(delta: byte, a: seq<Item>, b: seq<Item>)
    ensures Print(delta, a + b) == Print(delta, a) + Print(LastDelta(delta, a), b)
  {
    StepsConcat(delta, a, b);
    FlatMapConcat(PrintOption, Steps(delta, a), Steps(LastDelta(delta, a), b));
  }

  lemma {:induction false} PrintNext(delta: byte, items: seq<Item>, x: Item)
    ensures var d := NextDelta(LastDelta(delta, items), x.number);
            && Print(delta, items + [x]) == Print(delta, items) + PrintOption(Opt(d, x.value))
            && LastDelta(delta, items + [x]) == d
  {
    PrintConcat(delta, items, [x]);
    LastDeltaConcat(delta, items, [x]);
    var step := Opt(NextDelta(LastDelta(delta, items), x.number), x.value);
    assert Steps(LastDelta(delta, items), [x]) == [step];
    assert FlatMap(PrintOption, [step][1..]) == [];
  }

  lemma NumberedSplit(number: byte, values: seq<seq<byte>>, n: nat)
    requires n < |values|
    ensures Numbered(number, values[..n + 1]) == Numbered(number, values[..n]) + [Item(number, values[n])]
    ensures Numbered(number, values) == Numbered(number, values[..n + 1]) + Numbered(number, values[n + 1..])
  {
  }

  /** What is printed for a prefix is no longer than the whole. */
  lemma PrintPrefix(delta: byte, a: seq<Item>, b: seq<Item>)
    ensures |Print(delta, a)| <= |Print(delta, a + b)|
  {
    PrintConcat(delta, a, b);
  }

  /** The three parts net_coap_send prints. */
  lemma PrintedParts(paths: seq<seq<byte>>, contenttype: byte, queries: seq<seq<byte>>)
    returns (d: byte, e: byte)
    ensures d == LastDelta(0, Numbered(URIPATH, paths)) && e == LastDelta(d, ContentItem(contenttype))
    ensures Print(0, Items(paths, contenttype, queries))
            == Print(0, Numbered(URIPATH, paths)) + Print(d, ContentItem(contenttype))
               + Print(e, Numbered(URIQUERY, queries))
  {
    var p, c, q := Numbered(URIPATH, paths), ContentItem(contenttype), Numbered(URIQUERY, queries);
    d, e := LastDelta(0, p), LastDelta(LastDelta(0, p), c);
    PrintConcat(0, p, c);
    LastDeltaConcat(0, p, c);
    PrintConcat(0, p + c, q);
  }

  // ---------------------------------------------------------------- size

  /** NET_COAP_OPTLEN */
  function OptLen(len: nat): nat {
    1 + (if len >= 13 then 1 else 0) + len
  }

  function FormulaSize(items: seq<Item>): nat {
    if items == [] then 0 else OptLen(|items[0].value|) + FormulaSize(items[1..])
  }

  /** How many options are too long for the formula. */
  function LongOptions(items: seq<Item>): (n: nat)
    ensures n <= |items|
  {
    if items == [] then 0 else (if |items[0].value| >= 269 then 1 else 0) + LongOptions(items[1..])
  }

  lemma {:induction false} FormulaConcat(a: seq<Item>, b: seq<Item>)
    ensures FormulaSize(a + b) == FormulaSize(a) + FormulaSize(b)
  {
    if a == [] {
      assert a + b == b;
    } else {
      FormulaConcat(a[1..], b);
      assert (a + b)[1..] == a[1..] + b;
    }
  }

  lemma {:induction false} SizeOfFirst(x: Item, items: seq<Item>)
    ensures FormulaSize([x] + items) == OptLen(|x.value|) + FormulaSize(items)
    ensures LongOptions([x] + items) == (if |x.value| >= 269 then 1 else 0) + LongOptions(items)
  {
    assert ([x] + items)[1..] == items;
  }

  /** What is printed for a first option and the others. */
  lemma {:induction false} PrintFirst(delta: byte, x: Item, items: seq<Item>)
    ensures var step := Opt(NextDelta(delta, x.number), x.value);
            && Steps(delta, [x] + items) == [step] + Steps(step.delta, items)
            && Print(delta, [x] + items) == PrintOption(step) + Print(step.delta, items)
  {
    var step := Opt(NextDelta(delta, x.number), x.value);
    assert ([x] + items)[1..] == items;
    assert ([step] + Steps(step.delta, items))[1..] == Steps(step.delta, items);
  }

  /** The formula misses one byte per option of 269 bytes or more, and nothing else. */
  lemma {:induction false} PrintedSize(delta: byte, items: seq<Item>)
    ensures |Print(delta, items)| == FormulaSize(items) + LongOptions(items)
    decreases |items|
  {
    if items != [] {
      var d := NextDelta(delta, items[0].number);
      assert Steps(delta, items)[1..] == Steps(d, items[1..]);
      PrintedSize(d, items[1..]);
    }
  }

  // ---------------------------------------------------------------- the recurrence

  predicate AllBelow(bound: nat, steps: seq<Opt>) {
    forall o :: o in steps ==> o.delta < bound
  }

  /** Uri-Path deltas alternate between 11 and 0. */
  lemma {:induction false} PathDeltas(delta: byte, paths: seq<seq<byte>>)
    requires delta == 0 || delta == 11
    ensures AllBelow(13, Steps(delta, Numbered(URIPATH, paths)))
    ensures LastDelta(delta, Numbered(URIPATH, paths)) == if |paths| % 2 == 0 then delta else 11 - delta
    decreases |paths|
  {
    if paths != [] {
      PathDeltas(11 - delta, paths[1..]);
      assert Numbered(URIPATH, paths)[1..] == Numbered(URIPATH, paths[1..]);
      assert NextDelta(delta, URIPATH) == 11 - delta;
    }
  }

  /** Uri-Query deltas alternate between d and 15 - d: all are below 13 if the start is in 3..12. */
  lemma {:induction false} QueryDeltas(delta: byte, queries: seq<seq<byte>>)
    requires delta < 16
    ensures AllBelow(16, Steps(delta, Numbered(URIQUERY, queries)))
    ensures 3 <= delta <= 12 ==> AllBelow(13, Steps(delta, Numbered(URIQUERY, queries)))
    decreases |queries|
  {
    if queries != [] {
      QueryDeltas(15 - delta, queries[1..]);
      assert Numbered(URIQUERY, queries)[1..] == Numbered(URIQUERY, queries[1..]);
      assert NextDelta(delta, URIQUERY) == 15 - delta;
    }
  }

  /** The guard: no Uri-Query, or an odd number of options in front of the first one. */
  predicate DeltasFit(paths: seq<seq<byte>>, contenttype: byte, queries: seq<seq<byte>>) {
    queries == [] || (|paths| + |ContentItem(contenttype)|) % 2 == 1
  }

  /** The deltas in front of the queries, and the value the queries start from. */
  lemma FrontDeltas(paths: seq<seq<byte>>, contenttype: byte)
    ensures var front := Numbered(URIPATH, paths) + ContentItem(contenttype);
            && AllBelow(13, Steps(0, front))
            && LastDelta(0, front) == if |paths| % 2 == 0 then if contenttype == 0 then 0 else 12
                                      else if contenttype == 0 then 11 else 1
  {
    var p, c := Numbered(URIPATH, paths), ContentItem(contenttype);
    PathDeltas(0, paths);
    StepsConcat(0, p, c);
    LastDeltaConcat(0, p, c);
    var d := LastDelta(0, p);
    if contenttype == 0 {
      assert Steps(d, c) == [] && LastDelta(d, c) == d;
    } else {
      assert c[1..] == [];
      assert Steps(d, c) == [Opt(12 - d, [contenttype])] && LastDelta(d, c) == 12 - d;
    }
  }

  /**
   Every delta fits its nibble, and all can stand there without extension exactly when the
   guard holds.
   */
  lemma DeltaRecurrence(paths: seq<seq<byte>>, contenttype: byte, queries: seq<seq<byte>>)
    ensures var ds := Steps(0, Items(paths, contenttype, queries));
            AllBelow(16, ds) && (AllBelow(13, ds) <==> DeltasFit(paths, contenttype, queries))
  {
    var a, b, start := FrontAndQueries(paths, contenttype, queries);
    AllBelowConcat(13, a, b);
    AllBelowConcat(16, a, b);
    if queries != [] {
      assert b[0] in b && b[0].delta == 15 - start;
    }
  }

  lemma StartParity(paths: nat, contents: nat, start: byte)
    requires contents <= 1
    requires start == if paths % 2 == 0 then if contents == 0 then 0 else 12 else if contents == 0 then 11 else 1
    ensures start <= 1 || 11 <= start <= 12
    ensures start >= 11 <==> (paths + contents) % 2 == 1
  {
  }

  /** The steps in front of the queries, those of the queries, and the delta the latter start from. */
  lemma FrontAndQueries(paths: seq<seq<byte>>, contenttype: byte, queries: seq<seq<byte>>)
    returns (a: seq<Opt>, b: seq<Opt>, start: byte)
    ensures Steps(0, Items(paths, contenttype, queries)) == a + b
    ensures AllBelow(13, a) && AllBelow(16, b) && (3 <= start <= 12 ==> AllBelow(13, b))
    ensures start <= 1 || 11 <= start <= 12
    ensures start >= 11 <==> (|paths| + |ContentItem(contenttype)|) % 2 == 1
    ensures |b| == |queries| && (queries != [] ==> b[0].delta == 15 - start)
  {
    FrontDeltas(paths, contenttype);
    start := LastDelta(0, Numbered(URIPATH, paths) + ContentItem(contenttype));
    StartParity(|paths|, |ContentItem(contenttype)|, start);
    a := Steps(0, Numbered(URIPATH, paths) + ContentItem(contenttype));
    b := StepsOfQueries(start, queries);
    StepsConcat(0, Numbered(URIPATH, paths) + ContentItem(contenttype), Numbered(URIQUERY, queries));
  }

  lemma StepsOfQueries(start: byte, queries: seq<seq<byte>>) returns (b: seq<Opt>)
    requires start < 16
    ensures b == Steps(start, Numbered(URIQUERY, queries))
    ensures AllBelow(16, b) && (3 <= start <= 12 ==> AllBelow(13, b))
    ensures |b| == |queries| && (queries != [] ==> b[0].delta == 15 - start)
  {
    b := Steps(start, Numbered(URIQUERY, queries));
    QueryDeltas(start, queries);
    if queries != [] {
      StepsFirst(start, Numbered(URIQUERY, queries));
    }
  }

  lemma AllBelowConcat(bound: nat, a: seq<Opt>, b: seq<Opt>)
    ensures AllBelow(bound, a + b) <==> AllBelow(bound, a) && AllBelow(bound, b)
  {
    assert forall o :: o in a ==> o in a + b;
    assert forall o :: o in b ==> o in a + b;
  }

  // ---------------------------------------------------------------- what a reader makes of it

  /** No value longer than `bound`. */
  predicate AllShort(bound: nat, items: seq<Item>) {
    forall i :: 0 <= i < |items| ==> |items[i].value| <= bound
  }

  lemma PrintOptionIsFormat(o: Opt)
    requires o.delta < 13 && |o.value| <= MAX_EXTENDED
    ensures PrintOption(o) == EncodeOpt(o)
  {
  }

  /** While no delta needs an extension, the printed bytes are those of the format. */
  lemma {:induction false} PrintIsFormat(steps: seq<Opt>)
    requires AllBelow(13, steps) && AllEncodable(steps)
    ensures FlatMap(PrintOption, steps) == EncodeOpts(steps)
  {
    if steps != [] {
      PrintOptionIsFormat(steps[0]);
      PrintIsFormat(steps[1..]);
    }
  }

  /** The options `os`, read from number `base` on, are the items with their registered numbers. */
  predicate ReadAs(os: seq<Opt>, base: nat, items: seq<Item>)
    decreases |items|
  {
    && |os| == |items|
    && (items != [] ==>
          && base + os[0].delta == items[0].number
          && os[0].value == items[0].value
          && ReadAs(os[1..], items[0].number, items[1..]))
  }

  /** What is printed for `items` and a payload, read by the format, gives them back. */
  predicate ReadsBack(items: seq<Item>, payload: seq<byte>) {
    match Decode(Print(0, items) + Marked(payload))
    case None => false
    case Some(b) => b.payload == payload && ReadAs(b.options, 0, items)
  }

  /** The nibble at the front is that of the first delta that is read. */
  lemma {:induction false} FrontNibble(s: seq<byte>)
    requires |s| > 0 && s[0] != 0xFF && Decode(s).Some?
    ensures var os := Decode(s).value.options; os != [] && Nibble(os[0].delta) == s[0] / 16
  {
    var o := FrontOption(s).value;
    FrontIsEncoded(s);
    assert s[0] == EncodeOpt(o)[0] == Nibble(o.delta) * 16 + Nibble(|o.value|);
  }

  /** The nibble at the front is that of the first delta that was printed. */
  lemma PrintedNibble(o: Opt, rest: seq<byte>)
    requires o.delta < 16
    ensures var s := PrintOption(o) + rest; s[0] / 16 == o.delta && s[0] != 0xFF
  {
    assert (PrintOption(o) + rest)[0] == PrintHead(o.delta, |o.value|)[0];
  }

  /** Peeling off an option that is printed as the format prints it. */
  lemma {:induction false} DecodeAfter(o: Opt, rest: seq<byte>)
    requires o.delta < 13 && |o.value| <= MAX_EXTENDED
    requires Decode(PrintOption(o) + rest).Some?
    ensures Decode(rest).Some?
    ensures var b := Decode(PrintOption(o) + rest).value;
            b.options != [] && b.options[0] == o && b.options[1..] == Decode(rest).value.options
  {
    PrintOptionIsFormat(o);
    DecodeFirst(o, rest);
  }

  lemma {:induction false} FlatMapFirst(steps: seq<Opt>, tail: seq<byte>)
    requires steps != []
    ensures FlatMap(PrintOption, steps) + tail == PrintOption(steps[0]) + (FlatMap(PrintOption, steps[1..]) + tail)
  {
  }

  /** If the first options read are right, the delta nibble that follows is the printed one. */
  lemma {:induction false} NibbleOfFirst(steps: seq<Opt>, tail: seq<byte>)
    requires steps != [] && steps[0].delta < 16
    requires Decode(FlatMap(PrintOption, steps) + tail).Some?
    ensures var b := Decode(FlatMap(PrintOption, steps) + tail).value;
            b.options != [] && Nibble(b.options[0].delta) == steps[0].delta
  {
    FlatMapFirst(steps, tail);
    PrintedNibble(steps[0], FlatMap(PrintOption, steps[1..]) + tail);
    FrontNibble(FlatMap(PrintOption, steps) + tail);
  }

  lemma NumbersInOrder(paths: seq<seq<byte>>, contenttype: byte, queries: seq<seq<byte>>)
    ensures var items := Items(paths, contenttype, queries);
            && (forall i :: 0 <= i < |items| ==>
                  items[i].number == 11 || items[i].number == 12 || items[i].number == 15)
            && (forall i, j :: 0 <= i <= j < |items| ==> items[i].number <= items[j].number)
  {
  }

  lemma {:induction false} FirstThreeSteps(items: seq<Item>)
    requires |items| >= 3
    requires 11 <= items[0].number <= items[1].number <= items[2].number <= 15
    ensures var steps := Steps(0, items);
            && steps[0] == Opt(items[0].number, items[0].value)
            && steps[1] == Opt(items[1].number - items[0].number, items[1].value)
            && steps[2].delta == items[2].number - items[1].number + items[0].number
  {
    ThreeDeltas(items[0].number, items[1].number, items[2].number);
    StepsFirst(0, items);
    SecondStep(0, items);
    SecondStep(items[0].number, items[1..]);
    assert Steps(0, items)[2] == Steps(0, items)[1..][1];
  }

  lemma ThreeDeltas(n0: byte, n1: byte, n2: byte)
    requires 11 <= n0 <= n1 <= n2 <= 15
    ensures NextDelta(0, n0) == n0
    ensures NextDelta(n0, n1) == n1 - n0
    ensures NextDelta(NextDelta(n0, n1), n2) == n2 - n1 + n0
  {
  }

  lemma {:induction false} StepsFirst(delta: byte, items: seq<Item>)
    requires items != []
    ensures var d := NextDelta(delta, items[0].number);
            Steps(delta, items)[0] == Opt(d, items[0].value) && Steps(delta, items)[1..] == Steps(d, items[1..])
  {
  }

  lemma {:induction false} SecondStep(delta: byte, items: seq<Item>)
    requires |items| >= 2
    ensures Steps(delta, items)[1] == Opt(NextDelta(NextDelta(delta, items[0].number), items[1].number), items[1].value)
  {
    StepsFirst(delta, items);
    StepsFirst(NextDelta(delta, items[0].number), items[1..]);
    assert Steps(delta, items)[1] == Steps(delta, items)[1..][0];
  }

  lemma {:induction false} ThirdDelta(os: seq<Opt>, items: seq<Item>)
    requires |items| >= 3 && ReadAs(os, 0, items)
    ensures |os| == |items| && os[2].delta == items[2].number - items[1].number
  {
    var os1, items1 := os[1..], items[1..];
    assert ReadAs(os1, items[0].number, items1);
    assert ReadAs(os1[1..], items1[0].number, items1[1..]);
    assert os1[1..][0] == os[2] && items1[1..][0] == items[2];
  }

  /** With three options or more, the third is never read with its number. */
  lemma ThirdIsMisread(items: seq<Item>, payload: seq<byte>)
    requires |items| >= 3 && AllShort(MAX_EXTENDED, items)
    requires 11 <= items[0].number <= items[1].number <= items[2].number <= 15
    requires items[0].number <= 12
    ensures !ReadsBack(items, payload)
  {
    var steps, tail := Steps(0, items), Marked(payload);
    FirstThreeSteps(items);
    if ReadsBack(items, payload) {
      var os := Decode(Print(0, items) + tail).value.options;
      ThirdDelta(os, items);
      FlatMapFirst(steps, tail);
      DecodeAfter(steps[0], FlatMap(PrintOption, steps[1..]) + tail);
      FlatMapFirst(steps[1..], tail);
      DecodeAfter(steps[1], FlatMap(PrintOption, steps[1..][1..]) + tail);
      assert os[1..][1..][0] == os[2] && steps[1..][1..][0] == steps[2];
      NibbleOfFirst(steps[1..][1..], tail);
    }
  }

  /** A Uri-Query in front is printed with the reserved nibble 15. */
  lemma QueryFirstIsMisread(items: seq<Item>, payload: seq<byte>)
    requires items != [] && items[0].number == URIQUERY
    ensures !ReadsBack(items, payload)
  {
    var steps := Steps(0, items);
    assert steps[0].delta == 15;
    if ReadsBack(items, payload) {
      NibbleOfFirst(steps, Marked(payload));
    }
  }

  /** At most two options, the first of them not Uri-Query. */
  predicate FewItems(items: seq<Item>) {
    |items| <= 2 && (items != [] ==> items[0].number != URIQUERY)
  }

  lemma {:induction false} FewStepsAreRead(items: seq<Item>)
    requires FewItems(items)
    requires forall i, j :: 0 <= i <= j < |items| ==> items[i].number <= items[j].number
    ensures ReadAs(Steps(0, items), 0, items)
  {
    var steps := Steps(0, items);
    if |items| >= 1 {
      var d, rest := items[0].number, items[1..];
      assert steps[1..] == Steps(d, rest);
      if |items| == 2 {
        var e := NextDelta(d, rest[0].number);
        assert e == rest[0].number - d;
        assert Steps(d, rest)[1..] == Steps(e, rest[1..]) == [];
        assert ReadAs([], rest[0].number, rest[1..]);
        assert ReadAs(Steps(d, rest), d, rest);
      }
    }
  }

  lemma FewAreRead(paths: seq<seq<byte>>, contenttype: byte, queries: seq<seq<byte>>,
                                      payload: seq<byte>)
    requires AllShort(MAX_EXTENDED, Items(paths, contenttype, queries))
    requires FewItems(Items(paths, contenttype, queries))
    ensures ReadsBack(Items(paths, contenttype, queries), payload)
  {
    var items := Items(paths, contenttype, queries);
    var steps := Steps(0, items);
    NumbersInOrder(paths, contenttype, queries);
    FewFit(paths, contenttype, queries);
    DeltaRecurrence(paths, contenttype, queries);
    StepsAreEncodable(0, items);
    PrintIsFormat(steps);
    DecodeIsTheFormat(Print(0, items) + Marked(payload), Body(steps, payload));
    FewStepsAreRead(items);
  }

  lemma FewFit(paths: seq<seq<byte>>, contenttype: byte, queries: seq<seq<byte>>)
    requires FewItems(Items(paths, contenttype, queries))
    ensures DeltasFit(paths, contenttype, queries)
  {
    if queries != [] {
      var items, n := Items(paths, contenttype, queries), |paths| + |ContentItem(contenttype)|;
      assert items[n].number == URIQUERY;
      assert n == 1;
    }
  }

  /**
   A message is read back with its registered option numbers exactly when it has at most
   two options and the first is not Uri-Query.
   */
  lemma ReadsBackIff(paths: seq<seq<byte>>, contenttype: byte, queries: seq<seq<byte>>,
                                        payload: seq<byte>)
    requires AllShort(MAX_EXTENDED, Items(paths, contenttype, queries))
    ensures var items := Items(paths, contenttype, queries);
            ReadsBack(items, payload) <==> FewItems(items)
  {
    var items := Items(paths, contenttype, queries);
    if FewItems(items) {
      FewAreRead(paths, contenttype, queries, payload);
    } else if items[0].number == URIQUERY {
      QueryFirstIsMisread(items, payload);
    } else {
      NumbersInOrder(paths, contenttype, queries);
      ThirdIsMisread(items, payload);
    }
  }

  lemma {:induction false} StepsAreEncodable(delta: byte, items: seq<Item>)
    requires AllShort(MAX_EXTENDED, items)
    ensures AllEncodable(Steps(delta, items))
    decreases |items|
  {
    if items != [] {
      StepsAreEncodable(NextDelta(delta, items[0].number), items[1..]);
    }
  }
}
