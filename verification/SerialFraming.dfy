/**
 What the serial reader makes of the lines the writer prints, and of streams of lines.
 */
module SerialFraming {
  import opened Bytes
  import opened Serial

  lemma {:induction false} SkipsToNewline(d: Decoder, text: string, more: string, room: nat)
    requires room > 0 && '\n' !in text
    requires 5 <= d.state
    ensures ReadFrom(d, text + "\n" + more, room) == ReadResult([], false, more)
  {
    var input := text + "\n" + more;
    if text == [] {
      assert input[0] == '\n' && input[1..] == more;
    } else {
      assert input[0] == text[0] && input[1..] == text[1..] + "\n" + more;
      SkipsToNewline(d, text[1..], more, room);
    }
  }

  /** A line that is not a packet line is consumed and announces nothing. */
  lemma OtherLineIsSkipped(text: string, more: string, buflen: nat)
    requires buflen > 0 && '\n' !in text && !("P:" <= text)
    ensures ReadCall(text + "\n" + more, buflen) == ReadResult([], false, more)
  {
    var input := text + "\n" + more;
    if text == [] {
      assert input[0] == '\n' && input[1..] == more;
    } else {
      assert input[0] == text[0] && input[1..] == text[1..] + "\n" + more;
      if text[0] != 'P' {
        SkipsToNewline(Decoder(255, 0), text[1..], more, buflen);
      } else if |text| == 1 {
        var after := input[1..];
        assert after[0] == '\n' && after[1..] == more;
        assert ReadFrom(Decoder(1, 0), after, buflen) == ReadResult([], false, more);
      } else {
        assert text[1] == ':' ==> text[..2] == "P:";
        var after := input[1..];
        assert after[0] == text[1] && after[1..] == text[2..] + "\n" + more;
        assert ReadFrom(Decoder(1, 0), after, buflen) == ReadFrom(Decoder(255, 0), after[1..], buflen);
        SkipsToNewline(Decoder(255, 0), text[2..], more, buflen);
      }
    }
  }

  function AfterSpaces(t: string): (r: string)
    ensures |r| <= |t| && forall c :: c in r ==> c in t
  {
    if t != "" && t[0] == ' ' then AfterSpaces(t[1..]) else t
  }

  /** The bytes of the pairs of digits at the front, up to the first character that breaks one. */
  function Pairs(t: string): (r: seq<byte>)
    ensures 2 * |r| <= |t|
  {
    if |t| >= 2 && IsHexDigit(t[0]) && IsHexDigit(t[1])
    then [HexValue(t[0]) * 16 + HexValue(t[1])] + Pairs(t[2..])
    else []
  }

  /** What a line is taken for, well formed or not. */
  function Announced(text: string): seq<byte> {
    if "P:" <= text then Pairs(AfterSpaces(text[2..])) else []
  }

  /** What is left of a line when its first `buflen` bytes have filled the buffer. */
  function Leftover(text: string, buflen: nat): (r: string)
    requires 0 < buflen <= |Announced(text)|
    ensures |r| < |text|
  {
    AfterSpaces(text[2..])[2 * buflen..]
  }

  lemma FirstOfLine(text: string, more: string)
    requires text != []
    ensures (text + "\n" + more)[0] == text[0]
    ensures (text + "\n" + more)[1..] == text[1..] + "\n" + more
  {
  }

  lemma {:induction false} BareNewline(d: Decoder, more: string, room: nat)
    requires room > 0
    ensures ReadFrom(d, "" + "\n" + more, room) == ReadResult([], false, more)
  {
    assert ("" + "\n" + more)[1..] == more;
  }

  /** A character that breaks the line: nothing more is stored. */
  lemma {:induction false} BrokenLine(d: Decoder, text: string, more: string, room: nat)
    requires room > 0 && '\n' !in text && text != []
    requires Advance(d, text[0]).state == 255 && !Stores(d, text[0])
    ensures ReadFrom(d, text + "\n" + more, room) == ReadResult([], false, more)
  {
    FirstOfLine(text, more);
    assert text[0] in text;
    SkipsToNewline(Advance(d, text[0]), text[1..], more, room);
  }

  /** The digits of a line from where they start: all of them, or as many as there is room for. */
  lemma {:induction false} PairsAreRead(d: Decoder, t: string, more: string, room: nat)
    requires '\n' !in t && room > 0
    requires d.state == 4 || (d.state == 2 && (t == "" || t[0] != ' '))
    ensures ReadFrom(d, t + "\n" + more, room)
            == if |Pairs(t)| < room then ReadResult(Pairs(t), false, more)
               else ReadResult(Pairs(t)[..room], false, t[2 * room..] + "\n" + more)
    decreases |t|
  {
    if t == "" {
      BareNewline(d, more, room);
    } else if !IsHexDigit(t[0]) {
      BrokenLine(d, t, more, room);
    } else {
      FirstOfLine(t, more);
      AfterFirstDigit(Advance(d, t[0]), t[1..], more, room);
      if |t| >= 2 && IsHexDigit(t[1]) {
        PairIsRead(t, more, room);
      }
    }
  }

  /** What the first pair and the rest of the digits give together. */
  lemma {:induction false} PairIsRead(t: string, more: string, room: nat)
    requires '\n' !in t && room > 0 && |t| >= 2 && IsHexDigit(t[0]) && IsHexDigit(t[1])
    ensures var x := HexValue(t[0]) * 16 + HexValue(t[1]);
            ReadFrom(Decoder(4, x), t[1..][1..] + "\n" + more, room - 1).Prepend([x])
            == if |Pairs(t)| < room then ReadResult(Pairs(t), false, more)
               else ReadResult(Pairs(t)[..room], false, t[2 * room..] + "\n" + more)
    decreases |t|, 0
  {
    var x, rest := HexValue(t[0]) * 16 + HexValue(t[1]), t[2..];
    assert t[1..][1..] == rest && Pairs(t) == [x] + Pairs(rest);
    if room == 1 {
      assert Pairs(t)[..1] == [x];
    } else {
      PairsAreRead(Decoder(4, x), rest, more, room - 1);
      if |Pairs(rest)| >= room - 1 {
        assert rest[2 * (room - 1)..] == t[2 * room..];
        assert [x] + Pairs(rest)[..room - 1] == Pairs(t)[..room];
      }
    }
  }

  /** The line behind the first digit of a pair. */
  lemma AfterFirstDigit(d: Decoder, t: string, more: string, room: nat)
    requires room > 0 && '\n' !in t && d.state == 3 && d.current % 16 == 0
    ensures ReadFrom(d, t + "\n" + more, room)
            == if t != "" && IsHexDigit(t[0]) then
                 var x := d.current + HexValue(t[0]);
                 ReadFrom(Decoder(4, x), t[1..] + "\n" + more, room - 1).Prepend([x])
               else ReadResult([], false, more)
  {
    if t == "" {
      BareNewline(d, more, room);
    } else if !IsHexDigit(t[0]) {
      BrokenLine(d, t, more, room);
    } else {
      FirstOfLine(t, more);
      assert Advance(d, t[0]) == Decoder(4, d.current + HexValue(t[0]));
    }
  }

  lemma {:induction false} SpacesAreRead(t: string, more: string, room: nat)
    requires '\n' !in t && room > 0
    ensures var digits := AfterSpaces(t);
            ReadFrom(Decoder(2, 0), t + "\n" + more, room)
            == if |Pairs(digits)| < room then ReadResult(Pairs(digits), false, more)
               else ReadResult(Pairs(digits)[..room], false, digits[2 * room..] + "\n" + more)
  {
    if t != "" && t[0] == ' ' {
      FirstOfLine(t, more);
      SpacesAreRead(t[1..], more, room);
    } else {
      PairsAreRead(Decoder(2, 0), t, more, room);
    }
  }

  /**
   Any line is taken for the pairs up to its first flaw. If they fit, it is consumed whole;
   otherwise the buffer is filled and the rest of the line stays.
   */
  lemma LineIsRead(text: string, more: string, buflen: nat)
    requires '\n' !in text && buflen > 0
    ensures ReadCall(text + "\n" + more, buflen)
            == if |Announced(text)| < buflen then ReadResult(Announced(text), false, more)
               else ReadResult(Announced(text)[..buflen], false, Leftover(text, buflen) + "\n" + more)
  {
    if "P:" <= text {
      var behind := text[1..];
      FirstOfLine(text, more);
      FirstOfLine(behind, more);
      assert text[0] == "P:"[0] && text[1] == "P:"[1] && behind[0] == text[1] && behind[1..] == text[2..];
      assert ReadFrom(START, text + "\n" + more, buflen) == ReadFrom(Decoder(1, 0), behind + "\n" + more, buflen);
      SpacesAreRead(text[2..], more, buflen);
    } else {
      OtherLineIsSkipped(text, more, buflen);
    }
  }

  // ---------------------------------------------------------------- what the writer prints

  lemma {:induction false} HexIsPairs(b: seq<byte>)
    ensures Pairs(Hex(b)) == b
  {
    if b != [] {
      HexIsPairs(b[1..]);
      assert Hex(b)[2..] == Hex(b[1..]);
    }
  }

  lemma {:induction false} HexSplit(b: seq<byte>, n: nat)
    requires n <= |b|
    ensures Hex(b)[2 * n..] == Hex(b[n..])
  {
    if n > 0 {
      HexSplit(b[1..], n - 1);
      assert Hex(b)[2..] == Hex(b[1..]) && Hex(b)[2..][2 * (n - 1)..] == Hex(b)[2 * n..];
      assert b[1..][n - 1..] == b[n..];
    }
  }

  /** A line of the writer, without its newline, as the reader takes it. */
  function LineText(b: seq<byte>): string {
    "P: " + Hex(b)
  }

  lemma LineTextIsRead(b: seq<byte>)
    ensures '\n' !in LineText(b) && Announced(LineText(b)) == b
    ensures forall n :: 0 < n <= |b| ==> Leftover(LineText(b), n) == Hex(b[n..])
  {
    var digits := " " + Hex(b);
    HexIsPairs(b);
    HexHasOnlyDigits(b);
    assert LineText(b)[2..] == digits && digits[1..] == Hex(b);
    assert AfterSpaces(digits) == AfterSpaces(Hex(b)) == Hex(b);
    forall n | 0 < n <= |b|
      ensures Leftover(LineText(b), n) == Hex(b[n..])
    {
      HexSplit(b, n);
    }
  }

  /**
   serial_read inverts serial_write: a fitting line is consumed whole, a line of exactly
   `buflen` bytes leaves its newline, a longer one leaves the digits it had no room for.
   */
  lemma ReadInvertsWrite(b: seq<byte>, more: string, buflen: nat)
    requires buflen > 0
    ensures ReadCall(Line(b) + more, buflen) ==
            if |b| < buflen then ReadResult(b, false, more)
            else ReadResult(b[..buflen], false, Hex(b[buflen..]) + "\n" + more)
  {
    hide ReadCall, Announced, Leftover;
    LineTextIsRead(b);
    LineIsRead(LineText(b), more, buflen);
    assert Line(b) + more == LineText(b) + "\n" + more;
  }

  /** After an oversized frame, the next call drops what was left of its line. */
  lemma {:induction false} LeftoverIsSkipped(b: seq<byte>, more: string, buflen: nat)
    requires buflen > 0
    ensures ReadCall(Hex(b) + "\n" + more, buflen) == ReadResult([], false, more)
  {
    HexHasOnlyDigits(b);
    if b != [] {
      assert Hex(b)[0] in Hex(b);
    }
    OtherLineIsSkipped(Hex(b), more, buflen);
  }

  lemma {:induction false} HexHasOnlyDigits(b: seq<byte>)
    ensures forall c :: c in Hex(b) ==> IsHexDigit(c)
  {
    if b != [] {
      HexHasOnlyDigits(b[1..]);
    }
  }

  // ---------------------------------------------------------------- streams of lines

  /**
   What the calls that consume a line announce. What is left when the buffer is full is read
   like a line of its own.
   */
  function Frames(text: string, buflen: nat): (r: seq<seq<byte>>)
    requires buflen > 0
    ensures |Announced(text)| < buflen ==> |r| == 1
    decreases |text|
  {
    if |Announced(text)| < buflen then [Announced(text)]
    else [Announced(text)[..buflen]] + Frames(Leftover(text, buflen), buflen)
  }

  /** A frame of any size, or any other line. */
  datatype Item = Packet(frame: seq<byte>) | Text(text: string) {
    predicate IsLine() {
      Text? ==> '\n' !in text
    }

    /** It does not fill the buffer. */
    predicate Fits(buflen: nat) {
      match this
      case Packet(f) => |f| < buflen
      case Text(t) => |Announced(t)| < buflen
    }

    function Chars(): string {
      match this
      case Packet(f) => Line(f)
      case Text(t) => t + "\n"
    }

    /** What the calls that consume the line announce: two calls if a frame fills the buffer. */
    function Delivers(buflen: nat): (r: seq<seq<byte>>)
      requires buflen > 0
      ensures Fits(buflen) ==> |r| == 1
    {
      match this
      case Packet(f) => if |f| < buflen then [f] else [f[..buflen], []]
      case Text(t) => Frames(t, buflen)
    }
  }

  function Stream(items: seq<Item>): string {
    if items == [] then "" else items[0].Chars() + Stream(items[1..])
  }

  function Deliveries(items: seq<Item>, buflen: nat): seq<seq<byte>>
    requires buflen > 0
  {
    if items == [] then [] else items[0].Delivers(buflen) + Deliveries(items[1..], buflen)
  }

  /** The frames announced by `calls` calls in a row, and the characters left after them. */
  function Calls(input: string, buflen: nat, calls: nat): (seq<seq<byte>>, string)
    decreases calls
  {
    if calls == 0 then ([], input)
    else
      var r := ReadCall(input, buflen);
      var (frames, rest) := Calls(r.rest, buflen, calls - 1);
      ([r.Frame()] + frames, rest)
  }

  lemma CallsFirst(input: string, buflen: nat, calls: nat, first: seq<byte>, rest: string,
                   frames: seq<seq<byte>>, left: string)
    requires ReadCall(input, buflen) == ReadResult(first, false, rest)
    requires Calls(rest, buflen, calls) == (frames, left)
    ensures Calls(input, buflen, 1 + calls) == ([first] + frames, left)
  {
  }

  lemma LeftoverIsLine(text: string, buflen: nat)
    requires '\n' !in text && 0 < buflen <= |Announced(text)|
    ensures '\n' !in Leftover(text, buflen)
  {
    assert forall c :: c in Leftover(text, buflen) ==> c in AfterSpaces(text[2..]);
    assert forall c :: c in text[2..] ==> c in text;
  }

  lemma {:induction false} TextIsRead(text: string, rest: string, buflen: nat, calls: nat)
    requires buflen > 0 && '\n' !in text
    ensures var (frames, left) := Calls(rest, buflen, calls);
            Calls(text + "\n" + rest, buflen, |Frames(text, buflen)| + calls) == (Frames(text, buflen) + frames, left)
    decreases |text|
  {
    hide ReadCall, Announced, Leftover;
    var input, announced := text + "\n" + rest, Announced(text);
    var (frames, left) := Calls(rest, buflen, calls);
    LineIsRead(text, rest, buflen);
    if |announced| < buflen {
      CallsFirst(input, buflen, calls, announced, rest, frames, left);
    } else {
      var others := Leftover(text, buflen);
      var later := Frames(others, buflen);
      LeftoverIsLine(text, buflen);
      TextIsRead(others, rest, buflen, calls);
      CallsFirst(input, buflen, |later| + calls, announced[..buflen], others + "\n" + rest, later + frames, left);
      Regroup([announced[..buflen]], later, frames);
    }
  }

  lemma Regroup(a: seq<seq<byte>>, b: seq<seq<byte>>, c: seq<seq<byte>>)
    ensures a + (b + c) == a + b + c
  {
  }

  lemma ItemIsRead(item: Item, rest: string, buflen: nat, calls: nat)
    requires buflen > 0 && item.IsLine()
    ensures var (frames, left) := Calls(rest, buflen, calls);
            Calls(item.Chars() + rest, buflen, |item.Delivers(buflen)| + calls)
            == (item.Delivers(buflen) + frames, left)
  {
    hide ReadCall;
    var (frames, left) := Calls(rest, buflen, calls);
    match item {
      case Packet(f) =>
        ReadInvertsWrite(f, rest, buflen);
        if |f| >= buflen {
          var digits := Hex(f[buflen..]) + "\n" + rest;
          LeftoverIsSkipped(f[buflen..], rest, buflen);
          assert Calls(digits, buflen, 1 + calls) == ([[]] + frames, left);
          assert [f[..buflen]] + ([[]] + frames) == [f[..buflen], []] + frames;
        }
      case Text(t) =>
        assert t + "\n" + rest == item.Chars() + rest;
        TextIsRead(t, rest, buflen, calls);
    }
  }

  /**
   A stream of lines of any kind is decoded in order: one call for a line, and one more for
   every time it fills the buffer.
   */
  lemma {:induction false} StreamIsDecoded(items: seq<Item>, more: string, buflen: nat)
    requires buflen > 0
    requires forall i :: 0 <= i < |items| ==> items[i].IsLine()
    ensures Calls(Stream(items) + more, buflen, |Deliveries(items, buflen)|) == (Deliveries(items, buflen), more)
  {
    hide ReadCall, Line, Frames;
    if items == [] {
      assert Stream(items) + more == more;
    } else {
      var first, others := items[0], items[1..];
      Appended(first.Chars(), Stream(others), more);
      StreamIsDecoded(others, more, buflen);
      ItemIsRead(first, Stream(others) + more, buflen, |Deliveries(others, buflen)|);
    }
  }

  lemma Appended(a: string, b: string, c: string)
    ensures a + b + c == a + (b + c)
  {
  }

  /** A line of two pairs of digits and something else. */
  lemma TwoPairs(a: string, b: string, rest: string)
    requires |a| == |b| == 2
    requires IsHexDigit(a[0]) && IsHexDigit(a[1]) && IsHexDigit(b[0]) && IsHexDigit(b[1])
    requires rest == "" || !IsHexDigit(rest[0])
    ensures var text := "P: " + (a + (b + rest));
            && Announced(text) == [HexValue(a[0]) * 16 + HexValue(a[1]), HexValue(b[0]) * 16 + HexValue(b[1])]
            && Leftover(text, 2) == rest
  {
    var digits := a + (b + rest);
    var text := "P: " + digits;
    assert text[2..] == " " + digits && (" " + digits)[1..] == digits;
    assert AfterSpaces(digits) == digits;
    assert digits[2..] == b + rest && (b + rest)[2..] == rest && digits[4..] == rest;
    assert Pairs(rest) == [];
    assert Pairs(b + rest) == [HexValue(b[0]) * 16 + HexValue(b[1])] + [];
  }

  lemma FramesOfFull(text: string, left: string)
    requires |Announced(text)| == 2 && Leftover(text, 2) == left
    ensures Frames(text, 2) == [Announced(text)] + Frames(left, 2)
  {
    assert Announced(text)[..2] == Announced(text);
  }

  lemma LastTwoBytes()
    ensures Announced("P: 0304") == [3, 4] && Leftover("P: 0304", 2) == ""
  {
    TwoPairs("03", "04", "");
    assert "P: 0304" == "P: " + ("03" + ("04" + ""));
  }

  lemma FirstTwoBytes()
    ensures Announced("P: 0102P: 0304") == [1, 2] && Leftover("P: 0102P: 0304", 2) == "P: 0304"
  {
    TwoPairs("01", "02", "P: 0304");
    assert "P: 0102P: 0304" == "P: " + ("01" + ("02" + "P: 0304"));
  }

  /** One line can deliver two frames: for two bytes, `P: 0102P: 0304` does. */
  lemma TwoFramesInOneLine()
    ensures Frames("P: 0102P: 0304", 2) == [[1, 2], [3, 4], []]
  {
    FirstTwoBytes();
    LastTwoBytes();
    FramesOfFull("P: 0102P: 0304", "P: 0304");
    FramesOfFull("P: 0304", "");
    assert Frames("", 2) == [[]];
  }

  /** With room to spare for every frame, that is one line per call. */
  lemma {:induction false} OneLinePerCall(items: seq<Item>, more: string, buflen: nat)
    requires buflen > 0
    requires forall i :: 0 <= i < |items| ==> items[i].IsLine() && items[i].Fits(buflen)
    ensures Calls(Stream(items) + more, buflen, |items|) == (Deliveries(items, buflen), more)
  {
    StreamIsDecoded(items, more, buflen);
    OneEach(items, buflen);
  }

  lemma {:induction false} OneEach(items: seq<Item>, buflen: nat)
    requires buflen > 0 && forall i :: 0 <= i < |items| ==> items[i].Fits(buflen)
    ensures |Deliveries(items, buflen)| == |items|
  {
    if items != [] {
      OneEach(items[1..], buflen);
    }
  }
}
