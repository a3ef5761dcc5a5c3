/** utoa of src/lib/string.c: numbers written in a base. */
module Digits {
  import opened Words

  function DigitChar(d: nat): (c: char)
    requires d < 36
    ensures c as int == (if d < 10 then 48 + d else 55 + d)
  {
    if d < 10 then '0' + d as char else 'A' + (d - 10) as char
  }

  /** The digits of a number, most significant first and without leading zeros. */
  function Numeral(n: nat, base: nat): (r: string)
    requires 2 <= base <= 36
    ensures r != "" && '\0' !in r
    decreases n
  {
    if n < base then [DigitChar(n)]
    else
      Quotient(n, base);
      Numeral(n / base, base) + [DigitChar(n % base)]
  }

  function DigitValue(c: char): int {
    if c <= '9' then c as int - '0' as int else c as int - 'A' as int + 10
  }

  function Read(s: string, base: nat): int {
    if s == "" then 0 else Read(s[..|s| - 1], base) * base + DigitValue(s[|s| - 1])
  }

  lemma ReadLast(s: string, d: nat, base: nat)
    requires d < 36
    ensures Read(s + [DigitChar(d)], base) == Read(s, base) * base + d
  {
    assert (s + [DigitChar(d)])[..|s|] == s;
  }

  /** Reading the digits gives the number back, so no two numbers are written alike. */
  lemma {:induction false} ReadNumeral(n: nat, base: nat)
    requires 2 <= base <= 36
    ensures Read(Numeral(n, base), base) == n
    decreases n
  {
    hide Read, DigitChar;
    if n < base {
      ReadOne(n, base);
    } else {
      ReadNumeral(n / base, base);
      ReadLast(Numeral(n / base, base), n % base, base);
    }
  }

  lemma ReadOne(d: nat, base: nat)
    requires d < 36
    ensures Read([DigitChar(d)], base) == d
  {
    assert "" + [DigitChar(d)] == [DigitChar(d)] && Read("", base) == 0;
    ReadLast("", d, base);
  }

  lemma {:induction false} NoLeadingZero(n: nat, base: nat)
    requires 2 <= base <= 36 && n > 0
    ensures Numeral(n, base)[0] != '0'
    decreases n
  {
    if n >= base {
      Quotient(n, base);
      NoLeadingZero(n / base, base);
    }
  }

  lemma Quotient(n: nat, base: nat)
    requires 2 <= base <= n
    ensures 1 <= n / base && 2 * (n / base) <= n
  {
    assert n == n / base * base + n % base;
    if n / base == 0 { assert false; }
  }

  function Pow(base: nat, k: nat): nat {
    if k == 0 then 1 else base * Pow(base, k - 1)
  }

  lemma {:induction false} DigitsFit(n: nat, base: nat, k: nat)
    requires 2 <= base <= 36 && 1 <= k && n < Pow(base, k)
    ensures |Numeral(n, base)| <= k
    decreases k
  {
    if n >= base {
      var p := Pow(base, k - 1);
      Divided(n, base, p);
      DigitsFit(n / base, base, k - 1);
    }
  }

  lemma Scaled(q: nat, p: nat, base: nat)
    ensures q >= p ==> q * base >= p * base
  {
  }

  lemma Divided(n: nat, base: nat, p: nat)
    requires 1 <= base && n < base * p
    ensures n / base < p
  {
    assert n == n / base * base + n % base;
    Scaled(n / base, p, base);
  }

  lemma {:induction false} PowGrows(base: nat, k: nat)
    requires 2 <= base
    ensures Pow(base, k) >= Pow(2, k)
    decreases k
  {
    if k > 0 {
      PowGrows(base, k - 1);
      Product(base, Pow(base, k - 1), Pow(2, k - 1));
    }
  }

  lemma Product(base: nat, a: nat, b: nat)
    requires 2 <= base && a >= b
    ensures base * a >= 2 * b
  {
    assert base * a >= base * b >= 2 * b;
  }

  /** A 32-bit number has at most 32 digits, and at most ten in decimal. */
  lemma WordFits(n: nat, base: nat)
    requires 2 <= base <= 36 && n < WORD
    ensures |Numeral(n, base)| <= 32 && (base == 10 ==> |Numeral(n, base)| <= 10)
  {
    assert Pow(2, 8) == 256;
    assert Pow(2, 16) == 65536;
    assert Pow(2, 24) == 0x100_0000;
    assert Pow(2, 32) == WORD;
    PowGrows(base, 32);
    DigitsFit(n, base, 32);
    if base == 10 {
      assert Pow(10, 5) == 100000;
      assert Pow(10, 10) == 10_000_000_000;
      DigitsFit(n, base, 10);
    }
  }

  predicate Backwards(tmp: seq<char>, s: string) {
    |tmp| == |s| && forall k :: 0 <= k < |s| ==> tmp[k] == s[|s| - 1 - k]
  }

  /** The digits collected from the least significant on. */
  method Collect(value: nat, base: nat, tmp: array<char>) returns (i: nat)
    requires 2 <= base <= 36 && |Numeral(value, base)| <= tmp.Length
    modifies tmp
    ensures i <= tmp.Length && Backwards(tmp[..i], Numeral(value, base))
  {
    hide Numeral, DigitChar;
    var v: nat := value;
    ghost var all, done := Numeral(value, base), "";
    assert Numeral(v, base) + done == all;
    Longer(v, base, done, all);
    tmp[0] := DigitChar(v % base);
    i := 1;
    done := [DigitChar(v % base)] + done;
    while v >= base
      invariant i == |done| <= tmp.Length && Backwards(tmp[..i], done)
      invariant if v < base then done == all else Numeral(v / base, base) + done == all
      decreases v
    {
      Quotient(v, base);
      v := v / base;
      Longer(v, base, done, all);
      Collected(tmp[..i], done, DigitChar(v % base));
      tmp[i] := DigitChar(v % base);
      done := [DigitChar(v % base)] + done;
      assert tmp[..i + 1] == tmp[..i] + [tmp[i]];
      i := i + 1;
    }
  }

  lemma Collected(tmp: seq<char>, s: string, c: char)
    requires Backwards(tmp, s)
    ensures Backwards(tmp + [c], [c] + s)
  {
  }

  lemma Longer(v: nat, base: nat, done: string, all: string)
    requires 2 <= base <= 36 && Numeral(v, base) + done == all
    ensures |done| < |all|
    ensures if v < base then [DigitChar(v % base)] + done == all
            else Numeral(v / base, base) + ([DigitChar(v % base)] + done) == all
  {
    if v >= base {
      assert Numeral(v / base, base) + ([DigitChar(v % base)] + done) == Numeral(v, base) + done;
    } else {
      Remainder(v, base);
    }
  }

  lemma Remainder(v: nat, base: nat)
    requires v < base
    ensures v % base == v
  {
  }

  /** utoa */
  method Utoa(value: nat, base: nat, buf: array<char>) returns (ghost end: nat)
    requires 2 <= base <= 36 && value < WORD && |Numeral(value, base)| < buf.Length
    modifies buf
    ensures end == |Numeral(value, base)| && buf[..end] == Numeral(value, base) && buf[end] == '\0'
  {
    var tmp := new char[34];
    WordFits(value, base);
    ghost var s := Numeral(value, base);
    var i := Collect(value, base, tmp);
    assert Backwards(tmp[..i], s);
    var j := 0;
    while i > 0
      invariant i <= tmp.Length && i + j == |s| && Backwards(tmp[..|s|], s)
      invariant buf[..j] == s[..j]
    {
      i := i - 1;
      assert tmp[i] == tmp[..|s|][i];
      buf[j] := tmp[i];
      j := j + 1;
    }
    buf[j] := '\0';
    end := j;
  }
}
