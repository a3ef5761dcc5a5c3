/** The class file reader of src/commands/java.c, and class files as they are written (JVMS section 4.1). */
module ClassFile {
  import opened Bytes
  import opened Wrappers
  import opened Words

  const CP_MAX: nat := 256
  const METHOD_MAX: nat := 64

  // files up to which no sum of an offset in the file and a 16-bit count leaves an int
  const SIZE_MAX: nat := INT_MAX - 0x2_0000

  /** What reading a piece comes to; `Wild` is what C leaves undefined: a sum that is no int32, or reading in front of
      the file. */
  datatype Result<T> = Ok(value: T) | Reject | Wild

  /** jcp_entry_t */
  datatype Entry = Entry(tag: nat, a: nat, b: nat)

  /** jmethod_t; `code` is where the code starts. */
  datatype Method = Method(flags: nat, name: nat, desc: nat, maxStack: nat, maxLocals: nat, code: Option<nat>,
                           codeLen: nat)

  /** jclass_t without the bytes it points into. */
  datatype Parsed = Parsed(minor: nat, major: nat, cp: seq<Entry>, thisClass: nat, methods: seq<Method>)

  const EMPTY := Entry(0, 0, 0)

  function Be32(a: byte, b: byte, c: byte, d: byte): (v: nat)
    ensures v < 0x1_0000_0000
  {
    0x100_0000 * a + 0x1_0000 * b + 256 * c + d
  }

  function Rd16(d: seq<byte>, off: nat): (v: nat)
    requires off + 2 <= |d|
    ensures v < 0x1_0000
  {
    Be16(d[off], d[off + 1])
  }

  function Rd32(d: seq<byte>, off: nat): (v: nat)
    requires off + 4 <= |d|
    ensures v < 0x1_0000_0000
  {
    Be32(d[off], d[off + 1], d[off + 2], d[off + 3])
  }

  // ---------------------------------------------------------------- reading

  /** One constant at `off`: its entry, whether it takes two slots, and where it ends. */
  function ReadConstant(d: seq<byte>, off: nat): (r: Result<(Entry, bool, nat)>)
    ensures r.Ok? ==> off < r.value.2 <= |d|
  {
    if off >= |d| then Reject
    else
      var tag, at := d[off] as nat, off + 1;
      match tag
      case 1 =>
        if at + 2 > |d| then Reject
        else
          var len := Rd16(d, at);
          if at + 2 + len > |d| then Reject else Ok((Entry(tag, at + 2, len), false, at + 2 + len))
      case 3 | 4 => if at + 4 > |d| then Reject else Ok((Entry(tag, Rd32(d, at), 0), false, at + 4))
      case 5 | 6 => if at + 8 > |d| then Reject else Ok((Entry(tag, 0, 0), true, at + 8))
      case 7 | 8 | 16 => if at + 2 > |d| then Reject else Ok((Entry(tag, Rd16(d, at), 0), false, at + 2))
      case 9 | 10 | 11 | 12 | 18 =>
        if at + 4 > |d| then Reject else Ok((Entry(tag, Rd16(d, at), Rd16(d, at + 2)), false, at + 4))
      case 15 => if at + 3 > |d| then Reject else Ok((Entry(tag, d[at], Rd16(d, at + 1)), false, at + 3))
      case _ => Reject
  }

  /** The slots of the constant pool, `n` of them still to be read; a wide constant also takes the slot behind it. */
  function ReadPool(d: seq<byte>, off: nat, n: nat, cp: seq<Entry>): (r: Result<(seq<Entry>, nat)>)
    ensures r.Ok? ==> |r.value.0| == |cp| + n && off <= r.value.1 && (r.value.1 <= |d| || r.value.1 == off)
    decreases n
  {
    if n == 0 then Ok((cp, off))
    else
      match ReadConstant(d, off)
      case Reject => Reject
      case Wild => Wild
      case Ok((e, wide, end)) =>
        if !wide then ReadPool(d, end, n - 1, cp + [e])
        else if n == 1 then Ok((cp + [e], end))
        else ReadPool(d, end, n - 2, cp + [e, EMPTY])
  }

  /** A 32-bit length as a C int. */
  function ToInt(v: nat): (i: int)
    ensures v <= INT_MAX ==> i == v
  {
    if v > INT_MAX then v - 0x1_0000_0000 else v
  }

  /** Reading one slot or two, and the end of the pool. */
  lemma PoolStep(d: seq<byte>, off: nat, n: nat, cp: seq<Entry>)
    requires n > 0
    ensures match ReadConstant(d, off)
            case Reject => ReadPool(d, off, n, cp) == Reject
            case Wild => ReadPool(d, off, n, cp) == Wild
            case Ok((e, wide, end)) =>
              ReadPool(d, off, n, cp) ==
              if !wide then ReadPool(d, end, n - 1, cp + [e])
              else if n == 1 then ReadPool(d, end, 0, cp + [e])
              else ReadPool(d, end, n - 2, cp + [e, EMPTY])
  {
    hide ReadConstant;
  }

  lemma PoolEnd(d: seq<byte>, off: nat, cp: seq<Entry>)
    ensures ReadPool(d, off, 0, cp) == Ok((cp, off))
  {
  }

  /** Where the attribute at `off` has its contents and where it ends; a length of 2^31 or more leads back. */
  function ReadAttribute(d: seq<byte>, off: int): (r: Result<(nat, int)>)
    ensures r.Ok? ==> 0 <= off && r.value.0 == off + 6 <= |d| && r.value.1 <= |d|
  {
    if off < 0 then Wild
    else if off + 6 > |d| then Reject
    else
      var end := off + 6 + ToInt(Rd32(d, off + 2));
      if end > INT_MAX then Wild else if end > |d| then Reject else Ok((off + 6, end))
  }

  function SkipAttributes(d: seq<byte>, off: int, n: nat): (r: Result<int>)
    ensures r.Ok? ==> r.value <= |d| || r.value == off
    decreases n
  {
    if n == 0 then Ok(off)
    else
      match ReadAttribute(d, off)
      case Reject => Reject
      case Wild => Wild
      case Ok((_, end)) => SkipAttributes(d, end, n - 1)
  }

  function SkipMembers(d: seq<byte>, off: int, n: nat): (r: Result<int>)
    ensures r.Ok? ==> r.value <= |d| || r.value == off
    decreases n
  {
    if n == 0 then Ok(off)
    else if off < 0 then Wild
    else if off + 8 > |d| then Reject
    else
      match SkipAttributes(d, off + 8, Rd16(d, off + 6))
      case Reject => Reject
      case Wild => Wild
      case Ok(end) => SkipMembers(d, end, n - 1)
  }

  /** cp_utf8 */
  function Utf8At(d: seq<byte>, cp: seq<Entry>, idx: nat): Option<seq<byte>> {
    if idx == 0 || idx >= |cp| || cp[idx].tag != 1 || cp[idx].a + cp[idx].b > |d| then None
    else Some(d[cp[idx].a..cp[idx].a + cp[idx].b])
  }

  const CODE: seq<byte> := [67, 111, 100, 101]

  /** What an attribute that ends at `end` tells about its method's code.  The end that it claims for the code is a sum
      that may be no int32; `cut` is how compiled code goes on, with the sum cut to 32 bits. */
  function WithCode(d: seq<byte>, info: nat, end: int, m: Method, cut: bool := false): Result<Method>
    requires info <= |d|
  {
    if 0 <= end - info < 8 || info + 8 > |d| then Ok(m)
    else
      var len := Rd32(d, info + 4);
      if !cut && info + 8 + ToInt(len) > INT_MAX then Wild
      else if Wrapped(info + 8 + ToInt(len)) > end then Ok(m)
      else Ok(m.(maxStack := Rd16(d, info), maxLocals := Rd16(d, info + 2), code := Some(info + 8), codeLen := len))
  }

  function ReadAttributes(d: seq<byte>, off: int, n: nat, cp: seq<Entry>, m: Method, cut: bool := false)
    : (r: Result<(Method, int)>)
    ensures r.Ok? ==> r.value.1 <= |d| || r.value.1 == off
    decreases n
  {
    if n == 0 then Ok((m, off))
    else
      match ReadAttribute(d, off)
      case Reject => Reject
      case Wild => Wild
      case Ok((info, end)) =>
        match if Utf8At(d, cp, Rd16(d, off)) == Some(CODE) then WithCode(d, info, end, m, cut) else Ok(m)
        case Reject => Reject
        case Wild => Wild
        case Ok(next) => ReadAttributes(d, end, n - 1, cp, next, cut)
  }

  /** The head of a member, before its attributes. */
  function HeadOf(d: seq<byte>, off: nat): Method
    requires off + 8 <= |d|
  {
    Method(Rd16(d, off), Rd16(d, off + 2), Rd16(d, off + 4), 0, 0, None, 0)
  }

  function ReadMethods(d: seq<byte>, off: int, n: nat, cp: seq<Entry>, ms: seq<Method>, cut: bool := false)
    : (r: Result<(seq<Method>, int)>)
    ensures r.Ok? ==> r.value.1 <= |d| || r.value.1 == off
    decreases n
  {
    if n == 0 then Ok((ms, off))
    else if off < 0 then Wild
    else if off + 8 > |d| then Reject
    else
      match ReadAttributes(d, off + 8, Rd16(d, off + 6), cp, HeadOf(d, off), cut)
      case Reject => Reject
      case Wild => Wild
      case Ok((m, end)) => ReadMethods(d, end, n - 1, cp, if |ms| < METHOD_MAX then ms + [m] else ms, cut)
  }

  /** From the methods count on: the methods, then the attributes of the class. */
  function ReadTail(d: seq<byte>, off: int, cp: seq<Entry>, cut: bool := false): Result<seq<Method>> {
    if off < 0 then Wild
    else if off + 2 > |d| then Reject
    else
      match ReadMethods(d, off + 2, Rd16(d, off), cp, [], cut)
      case Reject => Reject
      case Wild => Wild
      case Ok((ms, end)) =>
        if end < 0 then Wild
        else if end + 2 > |d| then Reject
        else
          match SkipAttributes(d, end + 2, Rd16(d, end))
          case Reject => Reject
          case Wild => Wild
          case Ok(_) => Ok(ms)
  }

  /** From the access flags on: the rest of the class, with its constant pool read. */
  function ReadBody(d: seq<byte>, off: nat, cp: seq<Entry>, cut: bool := false): Result<(nat, seq<Method>)> {
    if off + 8 > |d| then Reject
    else
      var at := off + 8 + 2 * Rd16(d, off + 6);
      if at + 2 > |d| then Reject
      else
        match SkipMembers(d, at + 2, Rd16(d, at))
        case Reject => Reject
        case Wild => Wild
        case Ok(end) =>
          match ReadTail(d, end, cp, cut)
          case Reject => Reject
          case Wild => Wild
          case Ok(ms) => Ok((Rd16(d, off + 2), ms))
  }

  function ReadClass(d: seq<byte>, cut: bool := false): Result<Parsed> {
    if |d| < 10 || Rd32(d, 0) != 0xCAFE_BABE then Reject
    else
      var count := Rd16(d, 8);
      if count == 0 || count > CP_MAX then Reject
      else
        match ReadPool(d, 10, count - 1, [EMPTY])
        case Reject => Reject
        case Wild => Wild
        case Ok((cp, off)) =>
          match ReadBody(d, off, cp, cut)
          case Reject => Reject
          case Wild => Wild
          case Ok((thisClass, ms)) => Ok(Parsed(Rd16(d, 4), Rd16(d, 6), cp, thisClass, ms))
  }

  // ---------------------------------------------------------------- the reader

  /** The jclass_t that jvm_parse_class fills in. */
  class Loader {
    const bytes: seq<byte>
    const cp: array<Entry>
    const methods: array<Method>
    var minor: nat
    var major: nat
    var cpCount: nat
    var thisClass: nat
    var methodsCount: nat

    ghost predicate Valid()
      reads this
    {
      |bytes| <= SIZE_MAX && cp.Length == CP_MAX && methods.Length == METHOD_MAX && methodsCount <= METHOD_MAX
      && cpCount <= CP_MAX
    }

    ghost function Abs(): Parsed
      reads this, cp, methods
      requires Valid()
    {
      Parsed(minor, major, cp[..cpCount], thisClass, methods[..methodsCount])
    }

    constructor (data: seq<byte>)
      requires |data| <= SIZE_MAX
      ensures Valid() && bytes == data && fresh(cp) && fresh(methods)
      ensures cpCount == 0 && forall i :: 0 <= i < CP_MAX ==> cp[i] == EMPTY
    {
      bytes := data;
      cp := new Entry[CP_MAX](_ => EMPTY);
      methods := new Method[METHOD_MAX](_ => Method(0, 0, 0, 0, 0, None, 0));
      minor, major, cpCount, thisClass, methodsCount := 0, 0, 0, 0, 0;
    }

    /** One turn of the loop over the constants. */
    method LoadConstant(start: nat, i: nat) returns (r: Result<(bool, nat)>)
      requires Valid() && i < CP_MAX
      modifies cp
      ensures r.Ok? <==> ReadConstant(bytes, start).Ok?
      ensures r.Ok? ==> ReadConstant(bytes, start) == Ok((cp[i], r.value.0, r.value.1))
      ensures !r.Ok? ==> r.Reject? && ReadConstant(bytes, start).Reject?
      ensures forall j :: 0 <= j < CP_MAX && j != i ==> cp[j] == old(cp[j])
    {
      var off: nat := start;
      if off >= |bytes| { return Reject; }
      var tag: nat := bytes[off];
      off := off + 1;
      if tag == 1 {
        if off + 2 > |bytes| { return Reject; }
        var len := Rd16(bytes, off);
        off := off + 2;
        if off + len > |bytes| { return Reject; }
        cp[i] := Entry(tag, off, len);
        return Ok((false, off + len));
      } else if tag == 3 || tag == 4 {
        if off + 4 > |bytes| { return Reject; }
        cp[i] := Entry(tag, Rd32(bytes, off), 0);
        return Ok((false, off + 4));
      } else if tag == 5 || tag == 6 {
        if off + 8 > |bytes| { return Reject; }
        cp[i] := Entry(tag, 0, 0);
        return Ok((true, off + 8));
      } else if tag == 7 || tag == 8 || tag == 16 {
        if off + 2 > |bytes| { return Reject; }
        cp[i] := Entry(tag, Rd16(bytes, off), 0);
        return Ok((false, off + 2));
      } else if tag == 9 || tag == 10 || tag == 11 || tag == 12 || tag == 18 {
        if off + 4 > |bytes| { return Reject; }
        cp[i] := Entry(tag, Rd16(bytes, off), Rd16(bytes, off + 2));
        return Ok((false, off + 4));
      } else if tag == 15 {
        if off + 3 > |bytes| { return Reject; }
        cp[i] := Entry(tag, bytes[off], Rd16(bytes, off + 1));
        return Ok((false, off + 3));
      }
      return Reject;
    }

    /** The loop over the constants. */
    method LoadPool() returns (r: Result<nat>)
      requires Valid() && 1 <= cpCount && forall i :: 0 <= i < CP_MAX ==> cp[i] == EMPTY
      modifies cp
      ensures match ReadPool(bytes, 10, cpCount - 1, [EMPTY])
              case Ok((slots, end)) => r == Ok(end) && cp[..cpCount] == slots
              case Reject => r == Reject
              case Wild => r == Wild
    {
      hide ReadConstant, Rd16, Rd32, ReadPool;
      var off: nat, i: nat := 10, 1;
      assert cp[..1] == [EMPTY];
      while i < cpCount
        invariant 1 <= i <= cpCount + 1
        invariant forall j :: i <= j < CP_MAX ==> cp[j] == EMPTY
        invariant var k := if i < cpCount then i else cpCount;
                  ReadPool(bytes, 10, cpCount - 1, [EMPTY]) == ReadPool(bytes, off, cpCount - k, cp[..k])
      {
        ghost var before := cp[..i];
        PoolStep(bytes, off, cpCount - i, before);
        var c := LoadConstant(off, i);
        assert cp[..i] == before;
        if !c.Ok? { return Reject; }
        assert cp[..i + 1] == before + [cp[i]];
        off := c.value.1;
        if c.value.0 {
          i := i + 1;
          if i < cpCount {
            cp[i] := cp[i].(tag := 0);
            assert cp[..i + 1] == before + [cp[i - 1], EMPTY];
          }
        }
        i := i + 1;
      }
      PoolEnd(bytes, off, cp[..cpCount]);
      return Ok(off);
    }

    /** parse_member_info_skip's loop, and the loop over the attributes of the class. */
    method SkipAttributeList(start: int, count: nat) returns (r: Result<int>)
      ensures r == SkipAttributes(bytes, start, count)
    {
      var off := start;
      for i := 0 to count
        invariant SkipAttributes(bytes, start, count) == SkipAttributes(bytes, off, count - i)
      {
        if off < 0 { return Wild; }
        if off + 6 > |bytes| { return Reject; }
        var alen := ToInt(Rd32(bytes, off + 2));
        off := off + 6;
        if off + alen > INT_MAX { return Wild; }
        if off + alen > |bytes| { return Reject; }
        off := off + alen;
      }
      return Ok(off);
    }

    /** The loop over the fields. */
    method SkipFields(start: int, count: nat) returns (r: Result<int>)
      ensures r == SkipMembers(bytes, start, count)
    {
      hide SkipAttributes;
      var off := start;
      for i := 0 to count
        invariant SkipMembers(bytes, start, count) == SkipMembers(bytes, off, count - i)
      {
        if off < 0 { return Wild; }
        if off + 8 > |bytes| { return Reject; }
        var end := SkipAttributeList(off + 8, Rd16(bytes, off + 6));
        if !end.Ok? { return end; }
        off := end.value;
      }
      return Ok(off);
    }

    /** cp_utf8_eq with the name of the Code attribute */
    method IsCode(idx: nat) returns (r: bool)
      requires Valid()
      ensures r <==> Utf8At(bytes, cp[..cpCount], idx) == Some(CODE)
    {
      if idx == 0 || idx >= cpCount { return false; }
      var e := cp[idx];
      if e.tag != 1 || e.a + e.b > |bytes| { return false; }
      return e.b == 4 && bytes[e.a..e.a + e.b] == CODE;
    }

    /** What the loop over a method's attributes does with a Code attribute. */
    method LoadCode(info: nat, len: nat, m: Method) returns (r: Result<Method>)
      requires info <= |bytes| && len < 0x1_0000_0000
      ensures r == WithCode(bytes, info, info + ToInt(len), m) && !r.Reject?
    {
      hide Rd16, Rd32, Wrapped;
      if len >= 8 && info + 8 <= |bytes| {
        var codeLen := Rd32(bytes, info + 4);
        if info + 8 + ToInt(codeLen) > INT_MAX { return Wild; }
        if info + 8 + ToInt(codeLen) <= info + ToInt(len) {
          return Ok(m.(maxStack := Rd16(bytes, info), maxLocals := Rd16(bytes, info + 2), code := Some(info + 8),
                       codeLen := codeLen));
        }
      }
      return Ok(m);
    }

    /** The loop over a method's attributes. */
    method LoadAttributes(start: int, count: nat, head: Method) returns (r: Result<(Method, int)>)
      requires Valid()
      ensures r == ReadAttributes(bytes, start, count, cp[..cpCount], head)
    {
      hide Utf8At, Rd16, Rd32, WithCode;
      var off, m := start, head;
      for i := 0 to count
        invariant ReadAttributes(bytes, start, count, cp[..cpCount], head) ==
                  ReadAttributes(bytes, off, count - i, cp[..cpCount], m)
      {
        if off < 0 { return Wild; }
        if off + 6 > |bytes| { return Reject; }
        var nameIdx, len, info := Rd16(bytes, off), Rd32(bytes, off + 2), off + 6;
        off := off + 6;
        if off + ToInt(len) > INT_MAX { return Wild; }
        if off + ToInt(len) > |bytes| { return Reject; }
        var isCode := IsCode(nameIdx);
        if isCode {
          var next := LoadCode(info, len, m);
          if !next.Ok? { return Wild; }
          m := next.value;
        }
        off := off + ToInt(len);
      }
      return Ok((m, off));
    }

    /** The loop over the methods. */
    method LoadMethods(start: int, count: nat) returns (r: Result<int>)
      requires Valid()
      modifies methods, this`methodsCount
      ensures Valid()
      ensures match ReadMethods(bytes, start, count, cp[..cpCount], [])
              case Ok((ms, end)) => r == Ok(end) && methods[..methodsCount] == ms
              case Reject => r == Reject
              case Wild => r == Wild
    {
      hide ReadAttributes, Rd16;
      var off := start;
      methodsCount := 0;
      for i := 0 to count
        invariant Valid() && cp[..cpCount] == old(cp[..cpCount])
        invariant ReadMethods(bytes, start, count, cp[..cpCount], []) ==
                  ReadMethods(bytes, off, count - i, cp[..cpCount], methods[..methodsCount])
      {
        if off < 0 { return Wild; }
        if off + 8 > |bytes| { return Reject; }
        var m := HeadOf(bytes, off);
        var attrs := LoadAttributes(off + 8, Rd16(bytes, off + 6), m);
        if attrs.Wild? { return Wild; }
        if attrs.Reject? { return Reject; }
        off := attrs.value.1;
        if methodsCount < METHOD_MAX {
          ghost var before := methods[..methodsCount];
          methods[methodsCount] := attrs.value.0;
          methodsCount := methodsCount + 1;
          assert methods[..methodsCount] == before + [attrs.value.0];
        }
      }
      return Ok(off);
    }

    /** From the methods count on. */
    method LoadTail(start: int) returns (r: Result<()>)
      requires Valid()
      modifies methods, this`methodsCount
      ensures Valid()
      ensures match ReadTail(bytes, start, cp[..cpCount])
              case Ok(ms) => r == Ok(()) && methods[..methodsCount] == ms
              case Reject => r == Reject
              case Wild => r == Wild
    {
      hide ReadMethods, SkipAttributes, Rd16;
      if start < 0 { return Wild; }
      if start + 2 > |bytes| { return Reject; }
      var off := LoadMethods(start + 2, Rd16(bytes, start));
      if off.Wild? || (off.Ok? && off.value < 0) { return Wild; }
      if off.Reject? || off.value + 2 > |bytes| { return Reject; }
      var end := SkipAttributeList(off.value + 2, Rd16(bytes, off.value));
      if end.Wild? { return Wild; }
      return if end.Reject? then Reject else Ok(());
    }

    /** From the access flags on. */
    method LoadBody(start: nat) returns (r: Result<()>)
      requires Valid()
      modifies methods, this`methodsCount, this`thisClass
      ensures Valid()
      ensures match ReadBody(bytes, start, cp[..cpCount])
              case Ok((tc, ms)) => r == Ok(()) && thisClass == tc && methods[..methodsCount] == ms
              case Reject => r == Reject
              case Wild => r == Wild
    {
      hide ReadTail, SkipMembers, Rd16;
      var off: nat := start;
      if off + 8 > |bytes| { return Reject; }
      thisClass := Rd16(bytes, off + 2);
      var interfaces := Rd16(bytes, off + 6);
      off := off + 8;
      if off + interfaces * 2 > |bytes| { return Reject; }
      off := off + interfaces * 2;
      if off + 2 > |bytes| { return Reject; }
      var fields := SkipFields(off + 2, Rd16(bytes, off));
      if fields.Wild? { return Wild; }
      if fields.Reject? { return Reject; }
      r := LoadTail(fields.value);
    }

    /** jvm_parse_class */
    method Load() returns (r: Result<()>)
      requires Valid() && cpCount == 0 && forall i :: 0 <= i < CP_MAX ==> cp[i] == EMPTY
      modifies this, cp, methods
      ensures Valid()
      ensures match ReadClass(bytes)
              case Ok(p) => r == Ok(()) && Abs() == p
              case Reject => r == Reject
              case Wild => r == Wild
    {
      hide ReadPool, ReadBody, Rd16, Rd32;
      if |bytes| < 10 { return Reject; }
      if Rd32(bytes, 0) != 0xCAFE_BABE { return Reject; }
      minor, major := Rd16(bytes, 4), Rd16(bytes, 6);
      var count := Rd16(bytes, 8);
      if count == 0 || count > CP_MAX { return Reject; }
      cpCount := count;
      var pool := LoadPool();
      if pool.Wild? { return Wild; }
      if pool.Reject? { return Reject; }
      r := LoadBody(pool.value);
    }
  }
}
