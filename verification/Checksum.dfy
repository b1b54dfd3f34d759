/**
 The Internet checksum of net_utils.h, section 1 of RFC 1071.
 */
module Checksum {
  import opened Bytes

  /** Sum of the big-endian 16-bit words of `d`, an odd last byte padded with zero. */
  function WordSum(d: seq<byte>): nat {
    if |d| == 0 then 0
    else if |d| == 1 then Word(d[0], 0)
    else Word(d[0], d[1]) + WordSum(d[2..])
  }

  /** The ones'-complement value of an unbounded sum: zero only for zero. */
  function Fold(t: nat): u16 {
    if t == 0 then 0 else (t - 1) % 0xFFFF + 1
  }

  /** One addition with end-around carry, as written in the loop of _net_cksum_sum. */
  function AddFold(sum: u16, word: u16): u16 {
    var s := sum + word;
    if s >= 0x1_0000 then s % 0x1_0000 + 1 else s
  }

  lemma FoldStep(t: nat, word: u16)
    ensures AddFold(Fold(t), word) == Fold(t + word)
  {
    if t > 0 {
      var q, r := (t - 1) / 0xFFFF, (t - 1) % 0xFFFF;
      assert t + word - 1 == 0xFFFF * q + (r + word);
    }
  }

  lemma {:induction false} WordSumConcat(a: seq<byte>, b: seq<byte>)
    requires |a| % 2 == 0
    ensures WordSum(a + b) == WordSum(a) + WordSum(b)
  {
    if a == [] {
      assert a + b == b;
    } else {
      WordSumConcat(a[2..], b);
      assert (a + b)[2..] == a[2..] + b;
    }
  }

  /**
   _net_cksum_sum. `before` is the unbounded sum that `init` stands for, so that calls can
   be chained.
   */
  method CksumSum(init: u16, data: seq<byte>, ghost before: nat := init) returns (result: u16)
    requires 1 <= |data| < 0x1_0000
    requires init == Fold(before)
    ensures result == Fold(before + WordSum(data))
  {
    var sum: int := init;
    ghost var t: int := before;
    var i := 0;
    while i < |data| - 1
      invariant 0 <= i <= |data| && i % 2 == 0
      invariant t == before + WordSum(data[..i]) && sum == Fold(t)
    {
      ghost var word := Word(data[i], data[i + 1]);
      FoldStep(t, word);
      WordSumNext(data, i);
      t := t + word;
      sum := sum + Word(data[i], data[i + 1]);
      if sum >= 0x1_0000 {
        sum := sum % 0x1_0000 + 1;
      }
      i := i + 2;
    }
    if i == |data| - 1 {
      FoldStep(t, Word(data[i], 0));
      sum := sum + Word(data[i], 0);
      if sum >= 0x1_0000 {
        sum := sum % 0x1_0000 + 1;
      }
    }
    WordSumLast(data, i);
    result := sum;
  }

  lemma WordSumNext(d: seq<byte>, i: nat)
    requires i % 2 == 0 && i + 2 <= |d|
    ensures WordSum(d[..i + 2]) == WordSum(d[..i]) + Word(d[i], d[i + 1])
  {
    assert d[..i + 2] == d[..i] + [d[i], d[i + 1]];
    WordSumConcat(d[..i], [d[i], d[i + 1]]);
  }

  lemma {:induction false} WordSumLast(d: seq<byte>, i: nat)
    requires i % 2 == 0 && |d| - 1 <= i <= |d|
    ensures WordSum(d) == WordSum(d[..i]) + if i == |d| - 1 then Word(d[i], 0) else 0
  {
    assert d == d[..i] + d[i..];
    WordSumConcat(d[..i], d[i..]);
  }

  lemma {:induction false} WordSumOfWord(d: seq<byte>)
    requires |d| == 2
    ensures WordSum(d) == Word(d[0], d[1])
  {
    assert d[2..] == [];
  }

  /** A 16-bit field at an even offset adds its value to the sum. */
  lemma {:induction false} FieldSum(a: seq<byte>, field: u16, b: seq<byte>)
    requires |a| % 2 == 0
    ensures WordSum(a + Be16(field) + b) == WordSum(a) + field + WordSum(b)
  {
    WordSumConcat(a + Be16(field), b);
    WordSumConcat(a, Be16(field));
    WordSumOfWord(Be16(field));
  }

  /** A sum may be cut after any even number of bytes and continued from the folded part. */
  lemma {:induction false} ChainedSum(init: nat, a: seq<byte>, b: seq<byte>)
    requires |a| % 2 == 0
    ensures Fold(Fold(init + WordSum(a)) + WordSum(b)) == Fold(init + WordSum(a + b))
  {
    WordSumConcat(a, b);
    FoldOfFold(init + WordSum(a), WordSum(b));
  }

  lemma FoldOfFold(t: nat, u: nat)
    ensures Fold(Fold(t) + u) == Fold(t + u)
  {
    if t > 0 {
      var q, r := (t - 1) / 0xFFFF, (t - 1) % 0xFFFF;
      assert t + u - 1 == 0xFFFF * q + (r + u);
      assert Fold(t) + u - 1 == r + u;
    }
  }

  /** The big-endian 16-bit words of `d`, an odd last byte padded with zero. */
  function Words(d: seq<byte>): seq<u16> {
    if |d| == 0 then []
    else if |d| == 1 then [Word(d[0], 0)]
    else [Word(d[0], d[1])] + Words(d[2..])
  }

  function Total(ws: seq<u16>): nat {
    if ws == [] then 0 else ws[0] + Total(ws[1..])
  }

  lemma {:induction false} WordSumIsTotal(d: seq<byte>)
    ensures WordSum(d) == Total(Words(d))
  {
    if |d| >= 2 {
      WordSumIsTotal(d[2..]);
      assert Words(d)[1..] == Words(d[2..]);
    }
  }

  /** Section 4.1 of RFC 1071: an odd last byte counts as if a zero byte followed. */
  lemma {:induction false} OddTail(d: seq<byte>)
    requires |d| % 2 == 1
    ensures Words(d + [0]) == Words(d) && WordSum(d + [0]) == WordSum(d)
  {
    if |d| == 1 {
      assert (d + [0])[2..] == [];
    } else {
      OddTail(d[2..]);
      assert (d + [0])[2..] == d[2..] + [0];
    }
  }

  /** The same words, in any order. */
  ghost predicate SameWords(a: seq<u16>, b: seq<u16>) {
    multiset(a) == multiset(b)
  }

  function Without(ws: seq<u16>, i: nat): (r: seq<u16>)
    requires i < |ws|
    ensures multiset(ws) == multiset(r) + multiset{ws[i]}
  {
    assert ws == ws[..i] + ([ws[i]] + ws[i + 1..]);
    ws[..i] + ws[i + 1..]
  }

  lemma {:induction false} TotalWithout(ws: seq<u16>, i: nat)
    requires i < |ws|
    ensures Total(ws) == ws[i] + Total(Without(ws, i))
  {
    if i == 0 {
      assert Without(ws, 0) == ws[1..];
    } else {
      TotalWithout(ws[1..], i - 1);
      assert Without(ws, i)[1..] == Without(ws[1..], i - 1);
    }
  }

  lemma {:induction false} TotalOfPermutation(a: seq<u16>, b: seq<u16>)
    requires SameWords(a, b)
    ensures Total(a) == Total(b)
  {
    if a == [] {
      assert |multiset(b)| == 0;
    } else {
      assert a[0] in multiset(b);
      var i :| 0 <= i < |b| && b[i] == a[0];
      assert Without(a, 0) == a[1..];
      assert multiset(a[1..]) == multiset(a) - multiset{a[0]} == multiset(Without(b, i));
      TotalOfPermutation(a[1..], Without(b, i));
      TotalWithout(b, i);
    }
  }

  /** Section 2 (A) of RFC 1071: the order of the words does not matter. */
  lemma {:induction false} OrderIndependent(init: nat, a: seq<byte>, b: seq<byte>)
    requires SameWords(Words(a), Words(b))
    ensures Fold(init + WordSum(a)) == Fold(init + WordSum(b))
  {
    WordSumOfPermutation(a, b);
  }

  lemma {:induction false} WordSumOfPermutation(a: seq<byte>, b: seq<byte>)
    requires SameWords(Words(a), Words(b))
    ensures WordSum(a) == WordSum(b)
  {
    WordSumIsTotal(a);
    WordSumIsTotal(b);
    TotalOfPermutation(Words(a), Words(b));
  }

  /** _net_cksum_finalize: its loop never runs on a 16-bit argument. */
  function Finalize(sum: u16): u16 {
    0xFFFF - sum
  }

  /** What the two fix_cksum functions store for a sum `t` taken with the field at zero. */
  function CksumField(t: nat): u16 {
    if Finalize(Fold(t)) == 0 then 0xFFFF else Finalize(Fold(t))
  }

  /** A receiver accepts a total sum, checksum field included, when it folds to all ones. */
  predicate SumIsValid(t: nat) {
    Fold(t) == 0xFFFF
  }

  /**
   The stored field is never zero and makes a true sum `u` valid exactly when the sum `t`
   it was computed from is congruent to `u`.
   */
  lemma CksumFieldValidity(t: nat, u: nat)
    ensures CksumField(t) != 0
    ensures SumIsValid(u + CksumField(t)) <==> t % 0xFFFF == u % 0xFFFF
  {
    var q, r := u / 0xFFFF, u % 0xFFFF;
    var f := CksumField(t);
    assert u + f - 1 == 0xFFFF * q + (r + f - 1);
    assert (u + f - 1) % 0xFFFF == (r + f - 1) % 0xFFFF;
    if t > 0 {
      var p, v := (t - 1) / 0xFFFF, (t - 1) % 0xFFFF;
      assert t - 1 == 0xFFFF * p + v;
      assert t % 0xFFFF == if v == 0xFFFE then 0 else v + 1;
    }
  }
}
