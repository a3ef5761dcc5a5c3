/** jvm_desc_args of src/commands/java.c and method descriptors as JVMS section 4.3.3 writes them. */
module Descriptor {
  import opened Bytes
  import opened Wrappers

  /** What a method returns: nothing, a reference, or anything else. */
  datatype Kind = V | A | I

  /** Field types (JVMS section 4.3.2). */
  datatype Type = Base(c: char) | Object(name: seq<byte>) | Array(of: Type)

  const BASES := ['B', 'C', 'D', 'F', 'I', 'J', 'S', 'Z']

  function Ch(c: char): byte {
    if c as int < 256 then c as int else 0
  }

  predicate IsBase(b: byte) {
    b == Ch('B') || b == Ch('C') || b == Ch('D') || b == Ch('F') || b == Ch('I') || b == Ch('J') || b == Ch('S')
    || b == Ch('Z')
  }

  function SkipBrackets(d: seq<byte>, i: nat): (r: nat)
    requires i <= |d|
    ensures i <= r <= |d|
    decreases |d| - i
  {
    if i < |d| && d[i] == Ch('[') then SkipBrackets(d, i + 1) else i
  }

  /** Where the next semicolon is, or the end. */
  function Semicolon(d: seq<byte>, i: nat): (r: nat)
    requires i <= |d|
    ensures i <= r <= |d|
    decreases |d| - i
  {
    if i < |d| && d[i] != Ch(';') then Semicolon(d, i + 1) else i
  }

  /** Where the parameter at `i` ends. */
  function SkipType(d: seq<byte>, i: nat): (r: Option<nat>)
    requires i < |d|
    ensures r.Some? ==> i < r.value <= |d|
  {
    var j := SkipBrackets(d, i);
    if j >= |d| then None
    else if d[j] == Ch('L') then
      var k := Semicolon(d, j + 1);
      if k >= |d| then None else Some(k + 1)
    else if IsBase(d[j]) then Some(j + 1)
    else None
  }

  /** Counts the parameters from `i` on, `n` before it. */
  function Count(d: seq<byte>, i: nat, n: nat): (r: Option<(nat, nat)>)
    requires i <= |d|
    ensures r.Some? ==> i <= r.value.1 < |d|
    decreases |d| - i
  {
    if i >= |d| then None
    else if d[i] == Ch(')') then Some((n, i))
    else
      match SkipType(d, i)
      case None => None
      case Some(end) => Count(d, end, n + 1)
  }

  function KindOf(b: byte): Kind {
    if b == Ch('V') then V else if b == Ch('L') || b == Ch('[') then A else I
  }

  /** The number of parameters of a method and what it returns. */
  function DescArgs(d: seq<byte>): Option<(nat, Kind)> {
    if |d| < 3 || d[0] != Ch('(') then None
    else
      match Count(d, 1, 0)
      case None => None
      case Some((n, i)) => if i + 1 >= |d| then None else Some((n, KindOf(d[i + 1])))
  }

  /** One parameter, or the end. */
  lemma CountStep(d: seq<byte>, i: nat, n: nat)
    requires i <= |d|
    ensures Count(d, i, n) == if i >= |d| then None
                              else if d[i] == Ch(')') then Some((n, i))
                              else if SkipType(d, i).None? then None
                              else Count(d, SkipType(d, i).value, n + 1)
  {
    hide SkipType;
  }

  /** jvm_desc_args */
  method CountArgs(d: seq<byte>) returns (r: Option<(nat, Kind)>)
    ensures r == DescArgs(d)
  {
    hide Count;
    if |d| < 3 || d[0] != Ch('(') { return None; }
    var i, args := 1, 0;
    while i < |d| && d[i] != Ch(')')
      invariant 1 <= i <= |d|
      invariant Count(d, 1, 0) == Count(d, i, args)
      decreases |d| - i
    {
      ghost var at := i;
      CountStep(d, at, args);
      while i < |d| && d[i] == Ch('[')
        invariant at <= i <= |d| && SkipBrackets(d, at) == SkipBrackets(d, i)
      {
        i := i + 1;
      }
      if i >= |d| { return None; }
      if d[i] == Ch('L') {
        i := i + 1;
        ghost var from := i;
        while i < |d| && d[i] != Ch(';')
          invariant from <= i <= |d| && Semicolon(d, from) == Semicolon(d, i)
        {
          i := i + 1;
        }
        if i >= |d| { return None; }
        i := i + 1;
        args := args + 1;
        continue;
      }
      if !IsBase(d[i]) { return None; }
      args := args + 1;
      i := i + 1;
    }
    CountStep(d, i, args);
    if i >= |d| { return None; }
    i := i + 1;
    if i >= |d| { return None; }
    return Some((args, KindOf(d[i])));
  }

  // ---------------------------------------------------------------- descriptors

  predicate GoodType(t: Type) {
    match t
    case Base(c) => c in BASES
    case Object(name) => Ch(';') !in name
    case Array(of) => GoodType(of)
  }

  predicate GoodTypes(ts: seq<Type>) {
    forall i :: 0 <= i < |ts| ==> GoodType(ts[i])
  }

  function Enc(t: Type): (r: seq<byte>)
    ensures |r| > 0
  {
    match t
    case Base(c) => [Ch(c)]
    case Object(name) => [Ch('L')] + name + [Ch(';')]
    case Array(of) => [Ch('[')] + Enc(of)
  }

  function EncAll(ts: seq<Type>): seq<byte> {
    if ts == [] then [] else Enc(ts[0]) + EncAll(ts[1..])
  }

  /** A method descriptor; no return type means void. */
  function EncMethod(ts: seq<Type>, ret: Option<Type>): seq<byte> {
    [Ch('(')] + EncAll(ts) + [Ch(')')] + if ret.None? then [Ch('V')] else Enc(ret.value)
  }

  function KindOfType(ret: Option<Type>): Kind {
    if ret.None? then V else if ret.value.Base? then I else A
  }

  lemma {:induction false} NameEnds(pre: seq<byte>, name: seq<byte>, post: seq<byte>)
    requires Ch(';') !in name
    ensures Semicolon(pre + name + [Ch(';')] + post, |pre|) == |pre| + |name|
    decreases |name|
  {
    var d := pre + name + [Ch(';')] + post;
    if name == [] {
      assert d[|pre|] == Ch(';');
    } else {
      assert d == (pre + [name[0]]) + name[1..] + [Ch(';')] + post && d[|pre|] == name[0];
      NameEnds(pre + [name[0]], name[1..], post);
    }
  }

  lemma {:induction false} TypeSkipped(pre: seq<byte>, t: Type, post: seq<byte>)
    requires GoodType(t)
    ensures SkipType(pre + Enc(t) + post, |pre|) == Some(|pre| + |Enc(t)|)
    decreases t
  {
    var d := pre + Enc(t) + post;
    assert d[|pre|] == Enc(t)[0];
    match t
    case Base(c) =>
    case Object(name) =>
      assert d == (pre + [Ch('L')]) + name + [Ch(';')] + post;
      NameEnds(pre + [Ch('L')], name, post);
    case Array(of) =>
      assert d == (pre + [Ch('[')]) + Enc(of) + post;
      TypeSkipped(pre + [Ch('[')], of, post);
  }

  lemma NotClosed(t: Type)
    requires GoodType(t)
    ensures Enc(t)[0] != Ch(')')
    ensures KindOf(Enc(t)[0]) == KindOfType(Some(t))
  {
  }

  lemma {:induction false} AllCounted(pre: seq<byte>, ts: seq<Type>, post: seq<byte>, n: nat)
    requires GoodTypes(ts)
    ensures Count(pre + EncAll(ts) + ([Ch(')')] + post), |pre|, n) == Some((n + |ts|, |pre| + |EncAll(ts)|))
    decreases |ts|
  {
    hide SkipType, GoodType;
    var d := pre + EncAll(ts) + ([Ch(')')] + post);
    if ts == [] {
      assert d[|pre|] == Ch(')');
    } else {
      var rest := EncAll(ts[1..]) + ([Ch(')')] + post);
      assert d == pre + Enc(ts[0]) + rest;
      assert d[|pre|] == Enc(ts[0])[0];
      NotClosed(ts[0]);
      TypeSkipped(pre, ts[0], rest);
      assert d == (pre + Enc(ts[0])) + EncAll(ts[1..]) + ([Ch(')')] + post);
      AllCounted(pre + Enc(ts[0]), ts[1..], post, n + 1);
    }
  }

  /**
    * Every well-formed descriptor is understood: the count is that of its parameters, a long or double counting once, and
    * the kind that of its return type.
    */
  lemma DescriptorReadsBack(ts: seq<Type>, ret: Option<Type>)
    requires GoodTypes(ts) && (ret.Some? ==> GoodType(ret.value))
    ensures DescArgs(EncMethod(ts, ret)) == Some((|ts|, KindOfType(ret)))
  {
    hide Count, GoodType, Enc;
    var d := EncMethod(ts, ret);
    var tail := if ret.None? then [Ch('V')] else Enc(ret.value);
    assert d == [Ch('(')] + EncAll(ts) + ([Ch(')')] + tail);
    AllCounted([Ch('(')], ts, tail, 0);
    assert d[|EncAll(ts)| + 2] == tail[0];
    if ret.Some? {
      NotClosed(ret.value);
    }
  }

  /** The letters of descriptors in ASCII. */
  lemma Letters(c: char, name: seq<byte>, of: Type, ts: seq<Type>, ret: Type)
    ensures GoodType(Base(c)) <==> c as int in {66, 67, 68, 70, 73, 74, 83, 90}
    ensures GoodType(Base(c)) ==> Enc(Base(c)) == [c as int]
    ensures Enc(Object(name)) == [76] + name + [59] && Enc(Array(of)) == [91] + Enc(of)
    ensures EncMethod(ts, None) == [40] + EncAll(ts) + [41] + [86]
    ensures EncMethod(ts, Some(ret)) == [40] + EncAll(ts) + [41] + Enc(ret)
  {
  }

  /** Anything else where a parameter should begin, or in front of the parameters, is refused. */
  lemma OtherLetters(open: byte, b: byte, rest: seq<byte>)
    requires open != 40 || b !in {41, 66, 67, 68, 70, 73, 74, 76, 83, 90, 91}
    ensures DescArgs([open, b] + rest) == None
  {
    var d := [open, b] + rest;
    assert d[0] == open && d[1] == b;
    if open == 40 && |d| > 2 {
      assert SkipType(d, 1) == None;
    }
  }
}
