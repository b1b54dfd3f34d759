/**
 The serial framing of platform.cpp: a frame travels as one line `P: <hex>\n`.

 The port is modelled by the characters that can still be read and the characters written
 so far. All input is available at once, so running out of characters stands for the
 packet timeout.
 */
module Serial {
  import opened Bytes

  predicate IsHexDigit(c: char) {
    '0' <= c <= '9' || 'A' <= c <= 'F'
  }

  function HexValue(c: char): (r: byte)
    requires IsHexDigit(c)
    ensures r < 16
  {
    if '0' <= c <= '9' then c as int - '0' as int else c as int - 'A' as int + 10
  }

  function HexDigit(v: int): (c: char)
    requires 0 <= v < 16
    ensures IsHexDigit(c) && HexValue(c) == v
  {
    if v < 10 then (v + '0' as int) as char else (v - 10 + 'A' as int) as char
  }

  /** The two digits of every byte, high nibble first. */
  function Hex(b: seq<byte>): (r: string)
    ensures |r| == 2 * |b|
  {
    if b == [] then [] else [HexDigit(b[0] / 16), HexDigit(b[0] % 16)] + Hex(b[1..])
  }

  function Line(b: seq<byte>): string {
    "P: " + Hex(b) + "\n"
  }

  lemma {:induction false} HexAppend(a: seq<byte>, x: byte)
    ensures Hex(a + [x]) == Hex(a) + [HexDigit(x / 16), HexDigit(x % 16)]
  {
    if a == [] {
      assert a + [x] == [x] && Hex([x][1..]) == [];
    } else {
      HexAppend(a[1..], x);
      assert (a + [x])[1..] == a[1..] + [x];
    }
  }

  // ---------------------------------------------------------------- reader

  /** Reader state: where in the line it is, and the byte under construction. */
  datatype Decoder = Decoder(state: byte, current: byte)

  const START := Decoder(0, 0)

  /** The transition of serial_read on one character other than newline. */
  function Advance(d: Decoder, c: char): Decoder {
    match d.state
    case 0 => d.(state := if c == 'P' then 1 else 255)
    case 1 => d.(state := if c == ':' then 2 else 255)
    case 2 =>
      if c == ' ' then d
      else if IsHexDigit(c) then Decoder(3, HexValue(c) * 16)
      else d.(state := 255)
    case 3 =>
      if IsHexDigit(c) then Decoder(4, (d.current + HexValue(c)) % 0x100) else d.(state := 255)
    case 4 =>
      if IsHexDigit(c) then Decoder(3, HexValue(c) * 16) else d.(state := 255)
    case _ => d
  }

  /** Whether that transition stores a byte. */
  predicate Stores(d: Decoder, c: char) {
    d.state == 3 && IsHexDigit(c)
  }

  /** Bytes stored in the buffer, whether the call timed out, and the characters left. */
  datatype ReadResult = ReadResult(stored: seq<byte>, timeout: bool, rest: string) {
    /** The bytes the return value of serial_read announces. */
    function Frame(): seq<byte> {
      if timeout then [] else stored
    }

    function Prepend(b: seq<byte>): ReadResult {
      this.(stored := b + stored)
    }
  }

  lemma PrependTwice(r: ReadResult, a: seq<byte>, b: seq<byte>)
    ensures r.Prepend(a).Prepend(b) == r.Prepend(b + a)
  {
    assert b + (a + r.stored) == b + a + r.stored;
  }

  function ReadFrom(d: Decoder, input: string, room: nat): (r: ReadResult)
    ensures |r.stored| <= room
    decreases |input|
  {
    if room == 0 then ReadResult([], false, input)
    else if input == [] then ReadResult([], true, [])
    else if input[0] == '\n' then ReadResult([], false, input[1..])
    else if Stores(d, input[0]) then
      var d' := Advance(d, input[0]);
      ReadFrom(d', input[1..], room - 1).Prepend([d'.current])
    else ReadFrom(Advance(d, input[0]), input[1..], room)
  }

  /** One whole call of serial_read. */
  function ReadCall(input: string, buflen: nat): (r: ReadResult)
    ensures |r.stored| <= buflen
  {
    ReadFrom(START, input, buflen)
  }

  class HwSerial {
    var input: string
    var output: string

    method Read(buffer: array<byte>, buflen: u16) returns (n: u16)
      requires buflen <= buffer.Length
      modifies buffer, `input
      ensures var r := ReadCall(old(input), buflen);
              && n == |r.Frame()|
              && input == r.rest
              && buffer[..] == Splice(old(buffer[..]), 0, r.stored)
    {
      ghost var whole, done := ReadCall(input, buflen), [];
      var state: byte := 0;
      var current: byte := 0;
      var i := 0;
      while i < buflen
        invariant 0 <= i == |done| <= buflen
        invariant buffer[..i] == done && buffer[i..] == old(buffer[i..])
        invariant whole == ReadFrom(Decoder(state, current), input, buflen - i).Prepend(done)
        decreases |input|
      {
        if input == [] {
          n := 0;
          return;
        }
        var chr := input[0];
        input := input[1..];
        if chr == '\n' {
          break;
        }
        ghost var before := Decoder(state, current);
        match state {
          case 0 =>
            state := if chr == 'P' then 1 else 255;
          case 1 =>
            state := if chr == ':' then 2 else 255;
          case 2 =>
            if chr == ' ' {
              state := 2;
            } else if IsHexDigit(chr) {
              state, current := 3, HexValue(chr) * 16;
            } else {
              state := 255;
            }
          case 3 =>
            if IsHexDigit(chr) {
              state, current := 4, (current + HexValue(chr)) % 0x100;
              buffer[i] := current;
              i := i + 1;
            } else {
              state := 255;
            }
          case 4 =>
            if IsHexDigit(chr) {
              state, current := 3, HexValue(chr) * 16;
            } else {
              state := 255;
            }
          case _ =>
        }
        assert Decoder(state, current) == Advance(before, chr);
        if Stores(before, chr) {
          PrependTwice(ReadFrom(Decoder(state, current), input, buflen - i), [current], done);
          done := done + [current];
        }
      }
      n := i;
    }

    method Write(buffer: array<byte>, buflen: u16) returns (n: u16)
      requires buflen <= buffer.Length
      modifies `output
      ensures n == buflen
      ensures output == old(output) + Line(buffer[..buflen])
    {
      output := output + "P: ";
      var i := 0;
      while i < buflen
        invariant 0 <= i <= buflen
        invariant output == old(output) + "P: " + Hex(buffer[..i])
      {
        var high, low := buffer[i] / 16, buffer[i] % 16;
        output := output + [HexDigit(high)];
        output := output + [HexDigit(low)];
        HexAppend(buffer[..i], buffer[i]);
        assert buffer[..i + 1] == buffer[..i] + [buffer[i]];
        i := i + 1;
      }
      output := output + "\n";
      n := i;
    }
  }
}
