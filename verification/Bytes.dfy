/**
 Bytes, 16-bit words and the cursor macros of net_utils.h.

 A packet buffer is an `array<byte>`; a cursor is an index into it. What a run of
 NET_PUT_* macros leaves in the buffer is described by a `Trail`: the buffer as it
 was, the index where printing started, and the bytes printed since.
 */
module Bytes {

  type byte = x: int | 0 <= x < 0x100
  type u16 = x: int | 0 <= x < 0x1_0000

  const NET_STATUS_OK := 0
  const NET_EAGAIN := -1
  const NET_EOVERFLOW := -3
  const NET_EINVAL := -4
  const NET_EPROTO := -5
  const NET_ECONFIG := -6

  /** A pointer that may be null. */
  datatype Option<T> = None | Some(value: T)

  /** A status with the (dataoffset, datalen) window handed to the upper layer. */
  datatype Window = Window(status: int, offset: nat, len: nat)

  /** The two bytes NET_PUT_SHORT stores: big endian, truncated to 16 bits. */
  function Be16(v: int): (r: seq<byte>)
    ensures |r| == 2
  {
    [v / 0x100 % 0x100, v % 0x100]
  }

  /** The word made of a high and a low byte. */
  function Word(hi: byte, lo: byte): u16 {
    hi as int * 0x100 + lo as int
  }

  /** The word NET_GET_SHORT reads at `at`. */
  function GetBe16(s: seq<byte>, at: nat): (r: u16)
    requires at + 2 <= |s|
  {
    Word(s[at], s[at + 1])
  }

  lemma GetPutBe16(v: u16, s: seq<byte>, at: nat)
    requires at + 2 <= |s| && s[at..at + 2] == Be16(v)
    ensures GetBe16(s, at) == v
  {
    assert s[at] == s[at..at + 2][0] && s[at + 1] == s[at..at + 2][1];
  }

  lemma PutGetBe16(s: seq<byte>, at: nat)
    requires at + 2 <= |s|
    ensures Be16(GetBe16(s, at)) == s[at..at + 2]
  {
    BytesOfWord(s[at], s[at + 1]);
  }

  lemma BytesOfWord(hi: byte, lo: byte)
    ensures Be16(Word(hi, lo)) == [hi, lo]
  {
  }

  /** 16-bit additions may be done one after the other. */
  lemma WrapAdd(a: nat, b: nat)
    ensures (a % 0x1_0000 + b) % 0x1_0000 == (a + b) % 0x1_0000
  {
  }

  /** `b` with the bytes from `at` on overwritten by `d`. */
  function Splice(b: seq<byte>, at: nat, d: seq<byte>): (r: seq<byte>)
    requires at + |d| <= |b|
    ensures |r| == |b|
  {
    b[..at] + d + b[at + |d|..]
  }

  lemma SpliceAppend(b: seq<byte>, at: nat, d: seq<byte>, e: seq<byte>)
    requires at + |d| + |e| <= |b|
    ensures Splice(Splice(b, at, d), at + |d|, e) == Splice(b, at, d + e)
  {
  }

  lemma SplicePrepend(b: seq<byte>, at: nat, d: seq<byte>, e: seq<byte>)
    requires at + |d| + |e| <= |b|
    ensures Splice(Splice(b, at + |d|, e), at, d) == Splice(b, at, d + e)
  {
  }

  /** Reading from where the splice starts to some point behind it. */
  lemma SliceFromSplice(b: seq<byte>, at: nat, d: seq<byte>, hi: nat)
    requires at + |d| <= hi <= |b|
    ensures Splice(b, at, d)[at..hi] == d + b[at + |d|..hi]
  {
  }

  /** Rewriting a field inside what was spliced in. */
  lemma SpliceField(b: seq<byte>, at: nat, d: seq<byte>, was: seq<byte>, now: seq<byte>, e: seq<byte>)
    requires at + |d| + |was| + |e| <= |b| && |was| == |now|
    ensures Splice(Splice(b, at, d + was + e), at + |d|, now) == Splice(b, at, d + now + e)
  {
  }

  /** A slice of the bytes spliced in. */
  lemma SliceInSplice(b: seq<byte>, at: nat, d: seq<byte>, lo: nat, hi: nat)
    requires at + |d| <= |b| && lo <= hi <= |d|
    ensures Splice(b, at, d)[at + lo..at + hi] == d[lo..hi]
  {
  }

  lemma Associates(a: seq<byte>, b: seq<byte>, c: seq<byte>)
    ensures a + (b + c) == a + b + c
  {
  }

  /** The three parts of a concatenation. */
  lemma ThreeParts(a: seq<byte>, b: seq<byte>, c: seq<byte>)
    ensures var s, i, j := a + b + c, |a|, |a| + |b|;
            s[..i] == a && s[i..j] == b && s[j..] == c && s[j..j + |c|] == c
  {
  }

  /** A slice inside a part that is known. */
  lemma SliceOfPart(b: seq<byte>, at: nat, part: seq<byte>, lo: nat, hi: nat)
    requires at + |part| <= |b| && b[at..at + |part|] == part && lo <= hi <= |part|
    ensures b[at + lo..at + hi] == part[lo..hi]
  {
    assert forall i :: 0 <= i < |part| ==> part[i] == b[at..at + |part|][i] == b[at + i];
    assert forall i :: 0 <= i < hi - lo ==> b[at + lo..at + hi][i] == b[at + (lo + i)] == part[lo..hi][i];
  }

  lemma SuffixOfPart(b: seq<byte>, at: nat, part: seq<byte>, lo: nat)
    requires at + |part| <= |b| && b[at..at + |part|] == part && lo <= |part|
    ensures b[at + lo..at + |part|] == part[lo..]
  {
    SliceOfPart(b, at, part, lo, |part|);
    assert part[lo..|part|] == part[lo..];
  }

  lemma ByteOfPart(b: seq<byte>, at: nat, part: seq<byte>, i: nat)
    requires at + |part| <= |b| && b[at..at + |part|] == part && i < |part|
    ensures b[at + i] == part[i]
  {
    assert b[at + i] == b[at..at + |part|][i];
  }

  /** A word stored in such a part. */
  lemma WordOfPart(b: seq<byte>, at: nat, part: seq<byte>, i: nat, v: u16)
    requires at + |part| <= |b| && b[at..at + |part|] == part && i + 2 <= |part| && part[i..i + 2] == Be16(v)
    ensures GetBe16(b, at + i) == v
  {
    SliceOfPart(b, at, part, i, i + 2);
    GetPutBe16(v, b, at + i);
  }

  datatype Trail = Trail(before: seq<byte>, at: nat, done: seq<byte>) {
    /** Where the cursor stands. */
    function Next(): nat {
      at + |done|
    }

    ghost predicate Leaves(now: seq<byte>) {
      Next() <= |before| && now == Splice(before, at, done)
    }
  }

  method PutByte(buffer: array<byte>, cursor: nat, value: byte, ghost trail: Trail)
    returns (next: nat, ghost printed: Trail)
    requires cursor < buffer.Length && cursor == trail.Next() && trail.Leaves(buffer[..])
    modifies buffer
    ensures printed == trail.(done := trail.done + [value])
    ensures next == cursor + 1 == printed.Next() && printed.Leaves(buffer[..])
  {
    buffer[cursor] := value;
    next := cursor + 1;
    printed := trail.(done := trail.done + [value]);
    assert buffer[..] == Splice(old(buffer[..]), cursor, [value]);
    SpliceAppend(trail.before, trail.at, trail.done, [value]);
  }

  method PutShort(buffer: array<byte>, cursor: nat, value: int, ghost trail: Trail)
    returns (next: nat, ghost printed: Trail)
    requires cursor + 2 <= buffer.Length && cursor == trail.Next() && trail.Leaves(buffer[..])
    modifies buffer
    ensures printed == trail.(done := trail.done + Be16(value))
    ensures next == cursor + 2 == printed.Next() && printed.Leaves(buffer[..])
  {
    buffer[cursor] := value / 0x100 % 0x100;
    buffer[cursor + 1] := value % 0x100;
    next := cursor + 2;
    printed := trail.(done := trail.done + Be16(value));
    assert buffer[..] == Splice(old(buffer[..]), cursor, Be16(value));
    SpliceAppend(trail.before, trail.at, trail.done, Be16(value));
  }

  method PutData(buffer: array<byte>, cursor: nat, value: seq<byte>, ghost trail: Trail)
    returns (next: nat, ghost printed: Trail)
    requires cursor + |value| <= buffer.Length && cursor == trail.Next() && trail.Leaves(buffer[..])
    modifies buffer
    ensures printed == trail.(done := trail.done + value)
    ensures next == cursor + |value| == printed.Next() && printed.Leaves(buffer[..])
  {
    forall i | 0 <= i < |value| {
      buffer[cursor + i] := value[i];
    }
    next := cursor + |value|;
    printed := trail.(done := trail.done + value);
    assert buffer[..] == Splice(old(buffer[..]), cursor, value);
    SpliceAppend(trail.before, trail.at, trail.done, value);
  }
}
