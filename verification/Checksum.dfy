/** The Internet checksum of src/drivers/network.c (RFC 1071) and the packets built with it. */
module Checksum {
  import opened Bytes
  import opened Words

  const U16: nat := 0x1_0000

  /** Sum of the 16-bit big-endian words; an odd last byte counts as the high half of a word. */
  function WordSum(data: seq<byte>): nat {
    if |data| == 0 then 0
    else if |data| == 1 then Be16(data[0], 0)
    else Be16(data[0], data[1]) + WordSum(data[2..])
  }

  /** The ones' complement representative of a sum: congruent modulo 65535, and 0 only for 0. */
  function Fold(sum: nat): (r: nat)
    ensures r < U16 && (r == 0 <==> sum == 0)
  {
    if sum == 0 then 0 else 1 + (sum - 1) % 65535
  }

  lemma FoldCongruent(sum: nat)
    ensures Fold(sum) % 65535 == sum % 65535
  {
  }

  lemma FoldUnique(sum: nat, r: nat)
    requires r < U16 && r % 65535 == sum % 65535 && (r == 0 <==> sum == 0)
    ensures r == Fold(sum)
  {
    FoldCongruent(sum);
  }

  function Check(data: seq<byte>): nat {
    65535 - Fold(WordSum(data))
  }

  lemma {:induction false} WordSumBound(data: seq<byte>)
    ensures WordSum(data) <= 65535 * ((|data| + 1) / 2)
    decreases |data|
  {
    if |data| >= 2 { WordSumBound(data[2..]); }
  }

  /** The 32-bit sum of a message with a 16-bit length never wraps. */
  lemma SumFits(data: seq<byte>)
    requires |data| < U16
    ensures WordSum(data) < WORD
  {
    WordSumBound(data);
  }

  /** The sum from `i` on: nothing, the last byte alone, or one word and the rest. */
  lemma SumAt(data: seq<byte>, i: nat)
    requires i <= |data|
    ensures WordSum(data[i..]) == if i == |data| then 0
                                  else if i + 1 == |data| then Be16(data[i], 0)
                                  else Be16(data[i], data[i + 1]) + WordSum(data[i + 2..])
  {
    if i + 1 < |data| { assert data[i..][2..] == data[i + 2..]; }
  }

  /** Splitting at an even offset splits the sum. */
  lemma {:induction false} WordSumAppend(a: seq<byte>, b: seq<byte>)
    requires |a| % 2 == 0
    ensures WordSum(a + b) == WordSum(a) + WordSum(b)
    decreases |a|
  {
    if a == [] {
      assert a + b == b;
    } else {
      assert (a + b)[2..] == a[2..] + b;
      WordSumAppend(a[2..], b);
    }
  }

  /** checksum16 */
  method Checksum16(data: array<byte>, from: nat, len: nat) returns (c: nat)
    requires from + len <= data.Length && len < U16
    ensures c == Check(data[from..from + len])
  {
    hide WordSum, Fold;
    var sum: nat := 0;
    var i := 0;
    ghost var all := data[from..from + len];
    assert all[0..] == all;
    SumFits(all);
    while (i + 1) % U16 < len
      invariant i <= len && i % 2 == 0 && i < U16
      invariant sum + WordSum(all[i..]) == WordSum(all)
      decreases len - i
    {
      SumAt(all, i);
      sum := (sum + Be16(data[from + i], data[from + i + 1])) % WORD;
      i := (i + 2) % U16;
    }
    if i < len {
      SumAt(all, i);
      sum := (sum + Be16(data[from + i], 0)) % WORD;
    } else {
      SumAt(all, i);
    }
    assert sum == WordSum(all);
    while sum / U16 != 0
      invariant sum % 65535 == WordSum(all) % 65535 && (sum == 0 <==> WordSum(all) == 0)
      decreases sum
    {
      FoldStep(sum);
      sum := sum % U16 + sum / U16;
    }
    FoldUnique(WordSum(all), sum);
    return 65535 - sum;
  }

  lemma FoldStep(sum: nat)
    requires sum >= U16
    ensures (sum % U16 + sum / U16) % 65535 == sum % 65535
    ensures 0 < sum % U16 + sum / U16 < sum
  {
    var hi, lo := sum / U16, sum % U16;
    assert sum == 65535 * hi + (lo + hi);
  }

  /** RFC 1071 section 1: a message whose checksum field was filled with the checksum of the message with a zero
      field has checksum zero. */
  lemma FilledVerifies(data: seq<byte>, at: nat, hi: byte, lo: byte)
    requires at % 2 == 0 && at + 2 <= |data| && data[at] == 0 && data[at + 1] == 0
    requires Be16(hi, lo) == Check(data)
    ensures Check(data[at := hi][at + 1 := lo]) == 0
  {
    hide WordSum, Fold;
    var a, b := data[..at], data[at + 2..];
    Around(data, at, hi, lo);
    FieldSum(a, 0, 0, b);
    FieldSum(a, hi, lo, b);
    FilledSum(WordSum(data));
  }

  lemma Around(data: seq<byte>, at: nat, hi: byte, lo: byte)
    requires at + 2 <= |data|
    ensures data == data[..at] + ([data[at], data[at + 1]] + data[at + 2..])
    ensures data[at := hi][at + 1 := lo] == data[..at] + ([hi, lo] + data[at + 2..])
  {
  }

  /** A field at an even offset adds its word to the sum of the rest. */
  lemma FieldSum(a: seq<byte>, hi: byte, lo: byte, b: seq<byte>)
    requires |a| % 2 == 0
    ensures WordSum(a + ([hi, lo] + b)) == WordSum(a) + Be16(hi, lo) + WordSum(b)
  {
    var field := [hi, lo];
    WordSumAppend(a, field + b);
    assert (field + b)[2..] == b;
  }

  lemma FilledSum(sum: nat)
    ensures Fold(sum + (65535 - Fold(sum))) == 65535
  {
    FoldCongruent(sum);
    FoldUnique(sum + (65535 - Fold(sum)), 65535);
  }

  /** The bytes of a message as one number, the first byte highest, behind the digits that made `n`. */
  function NumberFrom(n: nat, data: seq<byte>): nat
    decreases |data|
  {
    if data == [] then n else NumberFrom(256 * n + data[0], data[1..])
  }

  /** A message of whole 16-bit words, read as one number, has the remainder of its sum. */
  lemma {:induction false} SumIsNumber(n: nat, data: seq<byte>)
    requires |data| % 2 == 0
    ensures NumberFrom(n, data) % 65535 == (n + WordSum(data)) % 65535
    decreases |data|
  {
    if data != [] {
      var m := 256 * (256 * n + data[0]) + data[1];
      assert data[1..][1..] == data[2..] && NumberFrom(n, data) == NumberFrom(m, data[2..]);
      SumIsNumber(m, data[2..]);
      assert m + WordSum(data[2..]) == 65535 * n + (n + WordSum(data));
    }
  }

  /** What the checksum is, with an odd message padded by a zero byte: checksum and message add up to a multiple of 65535,
      and only a message of zero bytes has the checksum 65535. */
  lemma CheckMeaning(data: seq<byte>)
    ensures var padded := if |data| % 2 == 0 then data else data + [0];
            && (Check(data) + NumberFrom(0, padded)) % 65535 == 0 && Check(data) <= 65535
            && (Check(data) == 65535 <==> forall i :: 0 <= i < |data| ==> data[i] == 0)
  {
    var padded := if |data| % 2 == 0 then data else data + [0];
    if |data| % 2 == 1 { PaddedSum(data); }
    SumIsNumber(0, padded);
    ZeroSum(data);
    FoldCongruent(WordSum(data));
    Complement(Fold(WordSum(data)), NumberFrom(0, padded));
  }

  lemma Complement(r: nat, n: nat)
    requires r <= 65535 && r % 65535 == n % 65535
    ensures (65535 - r + n) % 65535 == 0
  {
    assert n - r == 65535 * (n / 65535) - 65535 * (r / 65535);
    assert 65535 - r + n == 65535 * (1 + n / 65535 - r / 65535);
  }

  lemma {:induction false} PaddedSum(data: seq<byte>)
    requires |data| % 2 == 1
    ensures WordSum(data + [0]) == WordSum(data)
    decreases |data|
  {
    if |data| > 1 {
      assert (data + [0])[2..] == data[2..] + [0];
      PaddedSum(data[2..]);
    }
  }

  lemma {:induction false} ZeroSum(data: seq<byte>)
    ensures WordSum(data) == 0 <==> forall i :: 0 <= i < |data| ==> data[i] == 0
    decreases |data|
  {
    if |data| >= 2 {
      ZeroSum(data[2..]);
      assert forall i :: 2 <= i < |data| ==> data[i] == data[2..][i - 2];
    }
  }
}
