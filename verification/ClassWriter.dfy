/** Class files as JVMS sections 4.1, 4.4, 4.6 and 4.7.3 lay them out, and that the reader recovers what was written. */
module ClassWriter {
  import opened Bytes
  import opened ClassFile
  import opened Wrappers
  import opened Words

  /** A constant of the pool; a wide one is a long or a double and takes two slots (JVMS section 4.4.5). */
  datatype Constant =
    | Utf8(text: seq<byte>)
    | Word(tag: nat, v: nat)
    | Wide(tag: nat, bits: seq<byte>)
    | Ref(tag: nat, a: nat)
    | Pair(tag: nat, a: nat, b: nat)
    | Handle(kind: nat, a: nat)

  datatype Attribute = Attribute(name: nat, info: seq<byte>)

  datatype Member = Member(flags: nat, name: nat, desc: nat, attrs: seq<Attribute>)

  datatype Class = Class(minor: nat, major: nat, constants: seq<Constant>, access: nat, thisClass: nat, super: nat,
                         interfaces: seq<nat>, fields: seq<Member>, methods: seq<Member>, attrs: seq<Attribute>)

  /** The contents of a Code attribute: its limits, the length it claims and the bytes that length covers as an int. */
  datatype Code = Code(maxStack: nat, maxLocals: nat, length: nat, code: seq<byte>)

  // ---------------------------------------------------------------- writing

  function U4(v: nat): (b: seq<byte>)
    requires v < 0x1_0000_0000
    ensures |b| == 4 && Be32(b[0], b[1], b[2], b[3]) == v
  {
    var high, low := v / 0x1_0000, v % 0x1_0000;
    [high / 256, high % 256, low / 256, low % 256]
  }

  predicate GoodConstant(k: Constant) {
    match k
    case Utf8(text) => |text| < 0x1_0000
    case Word(tag, v) => tag in [3, 4] && v < 0x1_0000_0000
    case Wide(tag, bits) => tag in [5, 6] && |bits| == 8
    case Ref(tag, a) => tag in [7, 8, 16] && a < 0x1_0000
    case Pair(tag, a, b) => tag in [9, 10, 11, 12, 18] && a < 0x1_0000 && b < 0x1_0000
    case Handle(kind, a) => kind < 256 && a < 0x1_0000
  }

  function EncConstant(k: Constant): (r: seq<byte>)
    requires GoodConstant(k)
    ensures |r| > 0
  {
    match k
    case Utf8(text) => [1] + Big16(|text|) + text
    case Word(tag, v) => [tag as byte] + U4(v)
    case Wide(tag, bits) => [tag as byte] + bits
    case Ref(tag, a) => [tag as byte] + Big16(a)
    case Pair(tag, a, b) => [tag as byte] + Big16(a) + Big16(b)
    case Handle(kind, a) => [15] + [kind as byte] + Big16(a)
  }

  predicate GoodPool(ks: seq<Constant>) {
    forall i :: 0 <= i < |ks| ==> GoodConstant(ks[i])
  }

  function EncPool(ks: seq<Constant>): seq<byte>
    requires GoodPool(ks)
  {
    if ks == [] then [] else EncConstant(ks[0]) + EncPool(ks[1..])
  }

  function Width(k: Constant): (w: nat)
    ensures 1 <= w <= 2
  {
    if k.Wide? then 2 else 1
  }

  function SlotCount(ks: seq<Constant>): (n: nat)
    ensures n >= |ks|
  {
    if ks == [] then 0 else Width(ks[0]) + SlotCount(ks[1..])
  }

  predicate GoodAttribute(a: Attribute) {
    a.name < 0x1_0000 && |a.info| <= INT_MAX
  }

  predicate GoodAttributes(attrs: seq<Attribute>) {
    |attrs| < 0x1_0000 && forall i :: 0 <= i < |attrs| ==> GoodAttribute(attrs[i])
  }

  function EncAttribute(a: Attribute): seq<byte>
    requires GoodAttribute(a)
  {
    Big16(a.name) + U4(|a.info|) + a.info
  }

  function EncAttributes(attrs: seq<Attribute>): seq<byte>
    requires GoodAttributes(attrs)
  {
    if attrs == [] then [] else EncAttribute(attrs[0]) + EncAttributes(attrs[1..])
  }

  /** 16-bit numbers one after the other. */
  function EncIndices(s: seq<nat>): (r: seq<byte>)
    requires forall i :: 0 <= i < |s| ==> s[i] < 0x1_0000
    ensures |r| == 2 * |s|
  {
    if s == [] then [] else Big16(s[0]) + EncIndices(s[1..])
  }

  predicate GoodMember(m: Member) {
    m.flags < 0x1_0000 && m.name < 0x1_0000 && m.desc < 0x1_0000 && GoodAttributes(m.attrs)
  }

  predicate GoodMembers(ms: seq<Member>) {
    |ms| < 0x1_0000 && forall i :: 0 <= i < |ms| ==> GoodMember(ms[i])
  }

  function EncHead(m: Member): (r: seq<byte>)
    requires GoodMember(m)
    ensures |r| == 8
  {
    EncIndices([m.flags, m.name, m.desc, |m.attrs|])
  }

  function EncMembers(ms: seq<Member>): seq<byte>
    requires GoodMembers(ms)
  {
    if ms == [] then [] else EncHead(ms[0]) + EncAttributes(ms[0].attrs) + EncMembers(ms[1..])
  }

  predicate GoodClass(c: Class) {
    && c.minor < 0x1_0000 && c.major < 0x1_0000 && c.access < 0x1_0000 && c.thisClass < 0x1_0000 && c.super < 0x1_0000
    && GoodPool(c.constants) && SlotCount(c.constants) < CP_MAX
    && |c.interfaces| < 0x1_0000 && (forall i :: 0 <= i < |c.interfaces| ==> c.interfaces[i] < 0x1_0000)
    && GoodMembers(c.fields) && GoodMembers(c.methods) && GoodAttributes(c.attrs)
  }

  const MAGIC: seq<byte> := [0xCA, 0xFE, 0xBA, 0xBE]

  function EncTail(c: Class): seq<byte>
    requires GoodClass(c)
  {
    Big16(|c.methods|) + EncMembers(c.methods) + (Big16(|c.attrs|) + EncAttributes(c.attrs))
  }

  function EncBody(c: Class): seq<byte>
    requires GoodClass(c)
  {
    (Big16(c.access) + Big16(c.thisClass) + Big16(c.super) + Big16(|c.interfaces|)) + EncIndices(c.interfaces)
    + (Big16(|c.fields|) + EncMembers(c.fields) + EncTail(c))
  }

  function EncClass(c: Class): seq<byte>
    requires GoodClass(c)
  {
    (MAGIC + Big16(c.minor) + Big16(c.major) + Big16(SlotCount(c.constants) + 1)) + EncPool(c.constants) + EncBody(c)
  }

  // ---------------------------------------------------------------- meaning

  /** The constant that slot `i` of a pool stands for; nothing for the second slot of a wide constant. */
  function ConstantFrom(ks: seq<Constant>, i: nat): Option<Constant> {
    if ks == [] then None
    else if i == 0 then Some(ks[0])
    else if i < Width(ks[0]) then None
    else ConstantFrom(ks[1..], i - Width(ks[0]))
  }

  /** The constant with an index, which starts at 1. */
  function ConstantAt(ks: seq<Constant>, idx: nat): Option<Constant> {
    if idx == 0 then None else ConstantFrom(ks, idx - 1)
  }

  predicate Means(d: seq<byte>, e: Entry, c: Option<Constant>) {
    match c
    case None => e == EMPTY
    case Some(Utf8(text)) => e.tag == 1 && e.b == |text| && At(d, e.a, text)
    case Some(Word(tag, v)) => e == Entry(tag, v, 0)
    case Some(Wide(tag, _)) => e == Entry(tag, 0, 0)
    case Some(Ref(tag, a)) => e == Entry(tag, a, 0)
    case Some(Pair(tag, a, b)) => e == Entry(tag, a, b)
    case Some(Handle(kind, a)) => e == Entry(15, kind, a)
  }

  /** What a Code attribute's contents say, if its code lies inside it. */
  function CodeIn(info: seq<byte>): Option<Code> {
    if |info| < 8 || 8 + ToInt(Rd32(info, 4)) > |info| then None
    else Some(Code(Rd16(info, 0), Rd16(info, 2), Rd32(info, 4), info[8..8 + Covered(Rd32(info, 4))]))
  }

  function Covered(length: nat): nat {
    if length > INT_MAX then 0 else length
  }

  /** The code an attribute gives its method. */
  function CodeOf(ks: seq<Constant>, a: Attribute): Option<Code> {
    if ConstantAt(ks, a.name) == Some(Utf8(CODE)) then CodeIn(a.info) else None
  }

  /** The end that contents at `at` claim for their code is an int: otherwise C's test of it overflows. */
  predicate ClaimFits(info: seq<byte>, at: nat) {
    |info| >= 8 ==> at + 8 + ToInt(Rd32(info, 4)) <= INT_MAX
  }

  /** The claims of a method's Code attributes, the first attribute standing at `off`, fit. */
  predicate AttributesFit(ks: seq<Constant>, attrs: seq<Attribute>, off: nat)
    requires GoodAttributes(attrs)
  {
    attrs == []
    || ((ConstantAt(ks, attrs[0].name) == Some(Utf8(CODE)) ==> ClaimFits(attrs[0].info, off + 6))
        && AttributesFit(ks, attrs[1..], off + |EncAttribute(attrs[0])|))
  }

  predicate MethodsFit(ks: seq<Constant>, ms: seq<Member>, off: nat)
    requires GoodMembers(ms)
  {
    ms == []
    || (AttributesFit(ks, ms[0].attrs, off + 8) && MethodsFit(ks, ms[1..], off + 8 + |EncAttributes(ms[0].attrs)|))
  }

  /** Where the methods of a class file start, behind their number. */
  function MethodsStart(c: Class): nat
    requires GoodClass(c)
  {
    10 + |EncPool(c.constants)| + 8 + 2 * |c.interfaces| + 2 + |EncMembers(c.fields)| + 2
  }

  /** No claim of code makes the reader's sums leave an int. */
  predicate ClaimsFit(c: Class)
    requires GoodClass(c)
  {
    MethodsFit(c.constants, c.methods, MethodsStart(c))
  }

  /** A method's code: that of the last attribute that has any. */
  function LastCode(ks: seq<Constant>, attrs: seq<Attribute>): Option<Code> {
    if attrs == [] then None
    else
      var c := CodeOf(ks, attrs[|attrs| - 1]);
      if c.Some? then c else LastCode(ks, attrs[..|attrs| - 1])
  }

  /** The part of a description that concerns the code. */
  predicate HasCode(d: seq<byte>, m: Method, c: Option<Code>) {
    match c
    case None => m.maxStack == m.maxLocals == m.codeLen == 0 && m.code == None
    case Some(c) =>
      m.maxStack == c.maxStack && m.maxLocals == c.maxLocals && m.codeLen == c.length
      && m.code.Some? && At(d, m.code.value, c.code)
  }

  /** A method read from a file is the member that was written. */
  predicate Describes(d: seq<byte>, m: Method, mem: Member, ks: seq<Constant>) {
    && m.flags == mem.flags && m.name == mem.name && m.desc == mem.desc
    && HasCode(d, m, LastCode(ks, mem.attrs))
  }

  /** The text stands at `off`. */
  predicate At(d: seq<byte>, off: nat, s: seq<byte>) {
    off + |s| <= |d| && d[off..off + |s|] == s
  }

  // ---------------------------------------------------------------- reading what stands somewhere

  lemma AtSplit(d: seq<byte>, off: nat, a: seq<byte>, b: seq<byte>)
    requires At(d, off, a + b)
    ensures At(d, off, a) && At(d, off + |a|, b) && off + |a| + |b| <= |d|
  {
    var w := d[off..off + |a + b|];
    assert w[..|a|] == a && w[|a|..] == b;
    assert d[off..off + |a|] == w[..|a|] && d[off + |a|..off + |a| + |b|] == w[|a|..];
  }

  lemma At1(d: seq<byte>, off: nat, v: byte)
    requires At(d, off, [v])
    ensures off < |d| && d[off] == v
  {
    assert d[off] == d[off..off + 1][0];
  }

  lemma At2(d: seq<byte>, off: nat, v: nat)
    requires v < 0x1_0000 && At(d, off, Big16(v))
    ensures off + 2 <= |d| && Rd16(d, off) == v
  {
    hide Be16, Big16;
    var w := d[off..off + 2];
    assert d[off] == w[0] && d[off + 1] == w[1];
  }

  lemma At4(d: seq<byte>, off: nat, v: nat)
    requires v < 0x1_0000_0000 && At(d, off, U4(v))
    ensures off + 4 <= |d| && Rd32(d, off) == v
  {
    hide Be32, U4;
    var w := d[off..off + 4];
    assert d[off] == w[0] && d[off + 1] == w[1] && d[off + 2] == w[2] && d[off + 3] == w[3];
  }

  /** Reading inside a piece is reading the file where the piece stands. */
  lemma AtRead(d: seq<byte>, off: nat, s: seq<byte>, i: nat)
    requires At(d, off, s)
    ensures i + 2 <= |s| ==> Rd16(d, off + i) == Rd16(s, i)
    ensures i + 4 <= |s| ==> Rd32(d, off + i) == Rd32(s, i)
  {
    hide Be16, Be32;
    assert forall j :: 0 <= j < |s| ==> s[j] == d[off + j];
  }

  lemma AtPart(d: seq<byte>, off: nat, s: seq<byte>, lo: nat, hi: nat)
    requires At(d, off, s) && lo <= hi <= |s|
    ensures At(d, off + lo, s[lo..hi])
  {
    var w := d[off..off + |s|];
    forall i | 0 <= i < hi - lo ensures d[off + lo..off + hi][i] == s[lo..hi][i] {
      assert d[off + lo..off + hi][i] == w[lo + i];
    }
  }

  lemma TagAt(d: seq<byte>, off: nat, tag: byte, a: seq<byte>, b: seq<byte>)
    requires At(d, off, [tag] + a + b)
    ensures off + 1 + |a| + |b| <= |d| && d[off] == tag && At(d, off + 1, a) && At(d, off + 1 + |a|, b)
  {
    AtSplit(d, off, [tag] + a, b);
    AtSplit(d, off, [tag], a);
    At1(d, off, tag);
  }

  /** The constant is read at `off` as an entry that means it, and to its end. */
  predicate ReadsAs(d: seq<byte>, off: nat, k: Constant)
    requires GoodConstant(k)
  {
    var r := ReadConstant(d, off);
    r.Ok? && r.value.1 == k.Wide? && r.value.2 == off + |EncConstant(k)| && Means(d, r.value.0, Some(k))
  }

  lemma Utf8ReadsBack(d: seq<byte>, off: nat, text: seq<byte>)
    requires |text| < 0x1_0000 && At(d, off, EncConstant(Utf8(text)))
    ensures ReadsAs(d, off, Utf8(text))
  {
    hide Rd16, Rd32, Big16, U4, At;
    TagAt(d, off, 1, Big16(|text|), text);
    At2(d, off + 1, |text|);
  }

  lemma WordReadsBack(d: seq<byte>, off: nat, tag: nat, v: nat)
    requires GoodConstant(Word(tag, v)) && At(d, off, EncConstant(Word(tag, v)))
    ensures ReadsAs(d, off, Word(tag, v))
  {
    hide Rd16, Rd32, Big16, U4, At;
    assert [tag as byte] + U4(v) + [] == [tag as byte] + U4(v);
    TagAt(d, off, tag, U4(v), []);
    At4(d, off + 1, v);
  }

  lemma WideReadsBack(d: seq<byte>, off: nat, tag: nat, bits: seq<byte>)
    requires GoodConstant(Wide(tag, bits)) && At(d, off, EncConstant(Wide(tag, bits)))
    ensures ReadsAs(d, off, Wide(tag, bits))
  {
    hide Rd16, Rd32, Big16, U4, At;
    assert [tag as byte] + bits + [] == [tag as byte] + bits;
    TagAt(d, off, tag, bits, []);
  }

  lemma RefReadsBack(d: seq<byte>, off: nat, tag: nat, a: nat)
    requires GoodConstant(Ref(tag, a)) && At(d, off, EncConstant(Ref(tag, a)))
    ensures ReadsAs(d, off, Ref(tag, a))
  {
    hide Rd16, Rd32, Big16, U4, At;
    assert [tag as byte] + Big16(a) + [] == [tag as byte] + Big16(a);
    TagAt(d, off, tag, Big16(a), []);
    At2(d, off + 1, a);
  }

  lemma PairReadsBack(d: seq<byte>, off: nat, tag: nat, a: nat, b: nat)
    requires GoodConstant(Pair(tag, a, b)) && At(d, off, EncConstant(Pair(tag, a, b)))
    ensures ReadsAs(d, off, Pair(tag, a, b))
  {
    hide Rd16, Rd32, Big16, U4, At;
    TagAt(d, off, tag, Big16(a), Big16(b));
    At2(d, off + 1, a);
    At2(d, off + 3, b);
  }

  lemma HandleReadsBack(d: seq<byte>, off: nat, kind: nat, a: nat)
    requires GoodConstant(Handle(kind, a)) && At(d, off, EncConstant(Handle(kind, a)))
    ensures ReadsAs(d, off, Handle(kind, a))
  {
    hide Rd16, Rd32, Big16, U4, At;
    TagAt(d, off, 15, [kind as byte], Big16(a));
    At1(d, off + 1, kind);
    At2(d, off + 2, a);
  }

  lemma ConstantReadsBack(d: seq<byte>, off: nat, k: Constant)
    requires GoodConstant(k) && At(d, off, EncConstant(k))
    ensures ReadsAs(d, off, k)
  {
    hide ReadsAs, At;
    match k
    case Utf8(text) => Utf8ReadsBack(d, off, text);
    case Word(tag, v) => WordReadsBack(d, off, tag, v);
    case Wide(tag, bits) => WideReadsBack(d, off, tag, bits);
    case Ref(tag, a) => RefReadsBack(d, off, tag, a);
    case Pair(tag, a, b) => PairReadsBack(d, off, tag, a, b);
    case Handle(kind, a) => HandleReadsBack(d, off, kind, a);
  }

  // ---------------------------------------------------------------- the parts of a class

  /** The entries are those of the constants. */
  predicate Slots(d: seq<byte>, s: seq<Entry>, ks: seq<Constant>) {
    |s| == SlotCount(ks) && forall i :: 0 <= i < |s| ==> Means(d, s[i], ConstantFrom(ks, i))
  }

  lemma {:induction false} PoolReadsBack(d: seq<byte>, off: nat, ks: seq<Constant>, cp: seq<Entry>)
    returns (s: seq<Entry>)
    requires GoodPool(ks) && At(d, off, EncPool(ks))
    ensures ReadPool(d, off, SlotCount(ks), cp) == Ok((cp + s, off + |EncPool(ks)|)) && Slots(d, s, ks)
    decreases |ks|
  {
    hide ReadConstant, EncConstant, Means, At, GoodConstant;
    if ks == [] {
      s := [];
      assert cp + s == cp;
    } else {
      var k, rest := ks[0], ks[1..];
      AtSplit(d, off, EncConstant(k), EncPool(rest));
      ConstantReadsBack(d, off, k);
      var e := ReadConstant(d, off).value.0;
      var first := if k.Wide? then [e, EMPTY] else [e];
      var more := PoolReadsBack(d, off + |EncConstant(k)|, rest, cp + first);
      s := first + more;
      assert cp + s == cp + first + more;
      SlotsFirst(d, e, more, ks);
      if k.Wide? && rest == [] {
        assert cp + first == cp + [e, EMPTY];
      }
    }
  }

  lemma SlotsFirst(d: seq<byte>, e: Entry, more: seq<Entry>, ks: seq<Constant>)
    requires ks != [] && Means(d, e, Some(ks[0])) && Slots(d, more, ks[1..])
    ensures Slots(d, (if ks[0].Wide? then [e, EMPTY] else [e]) + more, ks)
  {
    var s := (if ks[0].Wide? then [e, EMPTY] else [e]) + more;
    forall i | 0 <= i < |s| ensures Means(d, s[i], ConstantFrom(ks, i)) {
      if i >= Width(ks[0]) {
        assert s[i] == more[i - Width(ks[0])];
      }
    }
  }

  /** The names in a pool that was read are those of the constants. */
  lemma NamesReadBack(d: seq<byte>, s: seq<Entry>, ks: seq<Constant>, idx: nat)
    requires GoodPool(ks) && Slots(d, s, ks)
    ensures Utf8At(d, [EMPTY] + s, idx) ==
            match ConstantAt(ks, idx)
            case Some(Utf8(text)) => Some(text)
            case _ => None
  {
    if idx > |s| {
      BeyondPool(ks, idx - 1);
    } else if idx > 0 {
      assert ([EMPTY] + s)[idx] == s[idx - 1] && Means(d, s[idx - 1], ConstantFrom(ks, idx - 1));
      KindOf(ks, idx - 1);
    }
  }

  lemma {:induction false} BeyondPool(ks: seq<Constant>, i: nat)
    requires i >= SlotCount(ks)
    ensures ConstantFrom(ks, i) == None
    decreases |ks|
  {
    if ks != [] {
      BeyondPool(ks[1..], i - Width(ks[0]));
    }
  }

  lemma {:induction false} KindOf(ks: seq<Constant>, i: nat)
    requires GoodPool(ks)
    ensures ConstantFrom(ks, i).Some? ==> GoodConstant(ConstantFrom(ks, i).value)
    decreases |ks|
  {
    if ks != [] && i >= Width(ks[0]) {
      KindOf(ks[1..], i - Width(ks[0]));
    }
  }

  lemma AttributeReadsBack(d: seq<byte>, off: nat, a: Attribute)
    requires GoodAttribute(a) && At(d, off, EncAttribute(a)) && |d| <= INT_MAX
    ensures ReadAttribute(d, off) == Ok((off + 6, off + |EncAttribute(a)|))
    ensures At(d, off + 6, a.info) && off + 2 <= |d| && Rd16(d, off) == a.name
  {
    hide Rd16, Rd32, Big16, U4;
    AtSplit(d, off, Big16(a.name) + U4(|a.info|), a.info);
    AtSplit(d, off, Big16(a.name), U4(|a.info|));
    At2(d, off, a.name);
    At4(d, off + 2, |a.info|);
  }

  lemma {:induction false} AttributesAreSkipped(d: seq<byte>, off: nat, attrs: seq<Attribute>)
    requires GoodAttributes(attrs) && At(d, off, EncAttributes(attrs)) && |d| <= INT_MAX
    ensures SkipAttributes(d, off, |attrs|) == Ok(off + |EncAttributes(attrs)|)
    decreases |attrs|
  {
    hide ReadAttribute, EncAttribute, At, GoodAttribute;
    if attrs != [] {
      AtSplit(d, off, EncAttribute(attrs[0]), EncAttributes(attrs[1..]));
      AttributeReadsBack(d, off, attrs[0]);
      AttributesAreSkipped(d, off + |EncAttribute(attrs[0])|, attrs[1..]);
    }
  }

  lemma FourNumbers(a: nat, b: nat, c: nat, e: nat)
    requires a < 0x1_0000 && b < 0x1_0000 && c < 0x1_0000 && e < 0x1_0000
    ensures EncIndices([a, b, c, e]) == Big16(a) + Big16(b) + Big16(c) + Big16(e)
  {
    hide Big16;
    assert [a, b, c, e][1..] == [b, c, e] && [b, c, e][1..] == [c, e] && [c, e][1..] == [e];
    assert EncIndices([e]) == Big16(e) + [];
    assert EncIndices([c, e]) == Big16(c) + EncIndices([e]);
    assert EncIndices([b, c, e]) == Big16(b) + EncIndices([c, e]);
  }

  lemma HeadReadsBack(d: seq<byte>, off: nat, m: Member)
    requires GoodMember(m) && At(d, off, EncHead(m))
    ensures off + 8 <= |d| && Rd16(d, off + 6) == |m.attrs|
    ensures HeadOf(d, off) == Method(m.flags, m.name, m.desc, 0, 0, None, 0)
  {
    hide Rd16, Big16;
    FourNumbers(m.flags, m.name, m.desc, |m.attrs|);
    AtSplit(d, off, Big16(m.flags) + Big16(m.name) + Big16(m.desc), Big16(|m.attrs|));
    AtSplit(d, off, Big16(m.flags) + Big16(m.name), Big16(m.desc));
    AtSplit(d, off, Big16(m.flags), Big16(m.name));
    At2(d, off, m.flags);
    At2(d, off + 2, m.name);
    At2(d, off + 4, m.desc);
    At2(d, off + 6, |m.attrs|);
  }

  lemma {:induction false} MembersAreSkipped(d: seq<byte>, off: nat, ms: seq<Member>)
    requires GoodMembers(ms) && At(d, off, EncMembers(ms)) && |d| <= INT_MAX
    ensures SkipMembers(d, off, |ms|) == Ok(off + |EncMembers(ms)|)
    decreases |ms|
  {
    hide SkipAttributes, EncHead, EncAttributes, At, GoodMember, Rd16;
    if ms != [] {
      var m := ms[0];
      GoodParts(m);
      AtSplit(d, off, EncHead(m) + EncAttributes(m.attrs), EncMembers(ms[1..]));
      AtSplit(d, off, EncHead(m), EncAttributes(m.attrs));
      HeadReadsBack(d, off, m);
      AttributesAreSkipped(d, off + 8, m.attrs);
      MembersAreSkipped(d, off + 8 + |EncAttributes(m.attrs)|, ms[1..]);
    }
  }

  lemma GoodParts(m: Member)
    requires GoodMember(m)
    ensures GoodAttributes(m.attrs)
  {
  }

  // ---------------------------------------------------------------- methods

  predicate SameHead(m: Method, n: Method) {
    m.flags == n.flags && m.name == n.name && m.desc == n.desc
  }

  lemma CodeReadsBack(d: seq<byte>, off: nat, a: Attribute, m: Method, before: Option<Code>)
    requires GoodAttribute(a) && At(d, off, a.info) && HasCode(d, m, before)
    ensures off <= |d|
    ensures var r := WithCode(d, off, off + |a.info|, m);
            if ClaimFits(a.info, off) then
              r.Ok? && SameHead(m, r.value)
              && HasCode(d, r.value, if CodeIn(a.info).Some? then CodeIn(a.info) else before)
            else r == Wild
  {
    hide Rd16, Rd32, At;
    InFile(d, off, a.info);
    AtRead(d, off, a.info, 0);
    AtRead(d, off, a.info, 2);
    AtRead(d, off, a.info, 4);
    if CodeIn(a.info).Some? {
      AtPart(d, off, a.info, 8, 8 + Covered(Rd32(a.info, 4)));
    }
  }

  lemma InFile(d: seq<byte>, off: nat, s: seq<byte>)
    requires At(d, off, s)
    ensures off + |s| <= |d|
  {
  }

  lemma LastCodeGrows(ks: seq<Constant>, done: seq<Attribute>, a: Attribute)
    ensures LastCode(ks, done + [a]) == if CodeOf(ks, a).Some? then CodeOf(ks, a) else LastCode(ks, done)
  {
    assert (done + [a])[..|done|] == done;
  }

  lemma {:induction false} CodeAttributesReadBack(d: seq<byte>, off: nat, attrs: seq<Attribute>, s: seq<Entry>,
      ks: seq<Constant>, m: Method, done: seq<Attribute>)
    requires GoodAttributes(attrs) && At(d, off, EncAttributes(attrs)) && GoodPool(ks) && Slots(d, s, ks) && |d| <= INT_MAX
    requires HasCode(d, m, LastCode(ks, done))
    ensures var r := ReadAttributes(d, off, |attrs|, [EMPTY] + s, m);
            if AttributesFit(ks, attrs, off) then
              && r.Ok? && r.value.1 == off + |EncAttributes(attrs)|
              && SameHead(m, r.value.0) && HasCode(d, r.value.0, LastCode(ks, done + attrs))
            else r == Wild
    decreases |attrs|
  {
    hide ReadAttribute, EncAttribute, At, GoodAttribute, Slots, GoodPool, HasCode, WithCode, LastCode, Utf8At, Rd16, ConstantAt;
    hide CodeIn, ClaimFits;
    if attrs == [] {
      assert done + attrs == done;
    } else {
      var a, end := attrs[0], off + |EncAttribute(attrs[0])|;
      AtSplit(d, off, EncAttribute(a), EncAttributes(attrs[1..]));
      AttributeReadsBack(d, off, a);
      EndOf(a);
      NamesReadBack(d, s, ks, a.name);
      CodeReadsBack(d, off + 6, a, m, LastCode(ks, done));
      LastCodeGrows(ks, done, a);
      var next := if ConstantAt(ks, a.name) == Some(Utf8(CODE)) then WithCode(d, off + 6, end, m) else Ok(m);
      if next.Ok? {
        CodeAttributesReadBack(d, end, attrs[1..], s, ks, next.value, done + [a]);
        assert done + [a] + attrs[1..] == done + attrs;
      }
    }
  }

  lemma EndOf(a: Attribute)
    requires GoodAttribute(a)
    ensures |EncAttribute(a)| == 6 + |a.info|
  {
  }

  /** The methods kept are the first 64 written. */
  predicate Kept(d: seq<byte>, kept: seq<Method>, ms: seq<Member>, ks: seq<Constant>) {
    && |kept| == (if |ms| < METHOD_MAX then |ms| else METHOD_MAX)
    && forall i :: 0 <= i < |kept| ==> Describes(d, kept[i], ms[i], ks)
  }

  lemma KeptGrows(d: seq<byte>, kept: seq<Method>, ms: seq<Member>, ks: seq<Constant>, m: Method, mem: Member)
    requires Kept(d, kept, ms, ks) && Describes(d, m, mem, ks)
    ensures Kept(d, if |kept| < METHOD_MAX then kept + [m] else kept, ms + [mem], ks)
  {
  }

  lemma FirstMember(ks: seq<Constant>, ms: seq<Member>, off: nat)
    requires GoodMembers(ms)
    ensures ms == [] ==> EncMembers(ms) == [] && MethodsFit(ks, ms, off)
    ensures ms != [] ==>
              && GoodMember(ms[0]) && GoodAttributes(ms[0].attrs)
              && EncMembers(ms) == EncHead(ms[0]) + EncAttributes(ms[0].attrs) + EncMembers(ms[1..])
              && (MethodsFit(ks, ms, off) <==>
                  AttributesFit(ks, ms[0].attrs, off + 8) && MethodsFit(ks, ms[1..], off + 8 + |EncAttributes(ms[0].attrs)|))
  {
    hide AttributesFit, EncHead, EncAttributes;
  }

  /** One turn of the loop over the methods. */
  lemma MethodsTurn(d: seq<byte>, off: nat, n: nat, cp: seq<Entry>, kept: seq<Method>)
    ensures n == 0 ==> ReadMethods(d, off, n, cp, kept) == Ok((kept, off))
    ensures n > 0 && off + 8 <= |d| ==>
              ReadMethods(d, off, n, cp, kept) ==
              match ReadAttributes(d, off + 8, Rd16(d, off + 6), cp, HeadOf(d, off))
              case Reject => Reject
              case Wild => Wild
              case Ok((m, end)) => ReadMethods(d, end, n - 1, cp, if |kept| < METHOD_MAX then kept + [m] else kept)
  {
    hide ReadAttributes, Rd16, HeadOf;
  }

  lemma {:induction false} MethodsReadBack(d: seq<byte>, off: nat, ms: seq<Member>, s: seq<Entry>, ks: seq<Constant>,
      kept: seq<Method>, done: seq<Member>)
    requires GoodMembers(ms) && At(d, off, EncMembers(ms)) && GoodPool(ks) && Slots(d, s, ks) && |d| <= INT_MAX
    requires Kept(d, kept, done, ks)
    ensures var r := ReadMethods(d, off, |ms|, [EMPTY] + s, kept);
            if MethodsFit(ks, ms, off) then
              r.Ok? && r.value.1 == off + |EncMembers(ms)| && Kept(d, r.value.0, done + ms, ks)
            else r == Wild
    decreases |ms|
  {
    hide AttributesFit, ReadAttributes, EncHead, EncAttributes, At, GoodMember, GoodPool, Rd16, Kept, HeadOf, Slots;
    hide ReadMethods, MethodsFit, EncMembers;
    FirstMember(ks, ms, off);
    MethodsTurn(d, off, |ms|, [EMPTY] + s, kept);
    if ms == [] {
      assert done + ms == done;
    } else {
      var m := ms[0];
      GoodParts(m);
      AtSplit(d, off, EncHead(m) + EncAttributes(m.attrs), EncMembers(ms[1..]));
      AtSplit(d, off, EncHead(m), EncAttributes(m.attrs));
      HeadReadsBack(d, off, m);
      var end := off + 8 + |EncAttributes(m.attrs)|;
      MethodReadsBack(d, off, m, s, ks);
      if AttributesFit(ks, m.attrs, off + 8) {
        var read := ReadAttributes(d, off + 8, |m.attrs|, [EMPTY] + s, HeadOf(d, off)).value.0;
        KeptGrows(d, kept, done, ks, read, m);
        KeptBound(d, kept, done, ks);
        var next := if |kept| < METHOD_MAX then kept + [read] else kept;
        MethodsReadBack(d, end, ms[1..], s, ks, next, done + [m]);
        assert done + [m] + ms[1..] == done + ms;
      }
    }
  }

  lemma KeptBound(d: seq<byte>, kept: seq<Method>, ms: seq<Member>, ks: seq<Constant>)
    requires Kept(d, kept, ms, ks)
    ensures |kept| <= METHOD_MAX
  {
  }

  lemma MethodReadsBack(d: seq<byte>, off: nat, m: Member, s: seq<Entry>, ks: seq<Constant>)
    requires off + 8 <= |d| <= INT_MAX && GoodMember(m) && At(d, off + 8, EncAttributes(m.attrs))
    requires GoodPool(ks) && Slots(d, s, ks) && HeadOf(d, off) == Method(m.flags, m.name, m.desc, 0, 0, None, 0)
    ensures var r := ReadAttributes(d, off + 8, |m.attrs|, [EMPTY] + s, HeadOf(d, off));
            if AttributesFit(ks, m.attrs, off + 8) then
              r.Ok? && r.value.1 == off + 8 + |EncAttributes(m.attrs)| && Describes(d, r.value.0, m, ks)
            else r == Wild
  {
    hide ReadAttributes, EncAttributes, HeadOf, At, Slots, GoodPool, AttributesFit;
    CodeAttributesReadBack(d, off + 8, m.attrs, s, ks, HeadOf(d, off), []);
    assert [] + m.attrs == m.attrs;
  }

  // ---------------------------------------------------------------- the class as a whole

  lemma TailReadsBack(d: seq<byte>, off: nat, c: Class, s: seq<Entry>)
    requires GoodClass(c) && At(d, off, EncTail(c)) && Slots(d, s, c.constants) && |d| <= INT_MAX
    ensures var r := ReadTail(d, off, [EMPTY] + s);
            if MethodsFit(c.constants, c.methods, off + 2) then r.Ok? && Kept(d, r.value, c.methods, c.constants)
            else r == Wild
  {
    hide MethodsFit, EncMembers, EncAttributes, At, Slots, Kept, ReadMethods, SkipAttributes, Rd16, GoodPool, Big16;
    var methods, attrs := EncMembers(c.methods), EncAttributes(c.attrs);
    AtSplit(d, off, Big16(|c.methods|) + methods, Big16(|c.attrs|) + attrs);
    AtSplit(d, off, Big16(|c.methods|), methods);
    AtSplit(d, off + 2 + |methods|, Big16(|c.attrs|), attrs);
    At2(d, off, |c.methods|);
    At2(d, off + 2 + |methods|, |c.attrs|);
    KeptNone(d, c.constants);
    MethodsReadBack(d, off + 2, c.methods, s, c.constants, [], []);
    assert [] + c.methods == c.methods;
    AttributesAreSkipped(d, off + 2 + |methods| + 2, c.attrs);
  }

  lemma KeptNone(d: seq<byte>, ks: seq<Constant>)
    ensures Kept(d, [], [], ks)
  {
  }

  /** Reading the rest of a class comes to what reading its methods comes to. */
  lemma BodyReadsBack(d: seq<byte>, off: nat, c: Class, cp: seq<Entry>, cut: bool)
    requires GoodClass(c) && At(d, off, EncBody(c)) && |d| <= INT_MAX
    ensures var at := off + 8 + 2 * |c.interfaces| + 2 + |EncMembers(c.fields)|;
            && At(d, at, EncTail(c))
            && ReadBody(d, off, cp, cut) ==
               match ReadTail(d, at, cp, cut)
               case Reject => Reject
               case Wild => Wild
               case Ok(ms) => Ok((c.thisClass, ms))
  {
    hide EncMembers, EncTail, EncIndices, At, ReadTail, SkipMembers, Rd16, Big16;
    var head := Big16(c.access) + Big16(c.thisClass) + Big16(c.super) + Big16(|c.interfaces|);
    var fields, tail := EncMembers(c.fields), EncTail(c);
    AtSplit(d, off, head + EncIndices(c.interfaces), Big16(|c.fields|) + fields + tail);
    AtSplit(d, off, head, EncIndices(c.interfaces));
    AtSplit(d, off, Big16(c.access) + Big16(c.thisClass) + Big16(c.super), Big16(|c.interfaces|));
    AtSplit(d, off, Big16(c.access) + Big16(c.thisClass), Big16(c.super));
    AtSplit(d, off, Big16(c.access), Big16(c.thisClass));
    At2(d, off + 2, c.thisClass);
    At2(d, off + 6, |c.interfaces|);
    var at := off + 8 + 2 * |c.interfaces|;
    AtSplit(d, at, Big16(|c.fields|) + fields, tail);
    AtSplit(d, at, Big16(|c.fields|), fields);
    At2(d, at, |c.fields|);
    MembersAreSkipped(d, at + 2, c.fields);
  }

  /** A class that was read is the one written: versions, constant pool slot by slot, own index, and the first 64 methods
      with their code. */
  predicate SameClass(d: seq<byte>, p: Parsed, c: Class) {
    && p.minor == c.minor && p.major == c.major && p.thisClass == c.thisClass
    && |p.cp| == 1 + SlotCount(c.constants)
    && (forall i :: 0 < i < |p.cp| ==> Means(d, p.cp[i], ConstantAt(c.constants, i)))
    && Kept(d, p.methods, c.methods, c.constants)
  }

  /** Reading a class that was written comes to what reading its methods comes to; `s` are the slots of its pool. */
  lemma UpToMethods(d: seq<byte>, c: Class, cut: bool) returns (s: seq<Entry>)
    requires GoodClass(c) && EncClass(c) <= d && |d| <= SIZE_MAX
    ensures Slots(d, s, c.constants) && At(d, MethodsStart(c) - 2, EncTail(c))
    ensures ReadClass(d, cut) ==
            match ReadTail(d, MethodsStart(c) - 2, [EMPTY] + s, cut)
            case Reject => Reject
            case Wild => Wild
            case Ok(ms) => Ok(Parsed(c.minor, c.major, [EMPTY] + s, c.thisClass, ms))
  {
    hide EncPool, EncBody, EncTail, At, ReadPool, ReadBody, ReadTail, Rd16, Rd32, Big16, Slots, SlotCount;
    var head, pool := MAGIC + Big16(c.minor) + Big16(c.major) + Big16(SlotCount(c.constants) + 1), EncPool(c.constants);
    Starts(d, EncClass(c));
    AtSplit(d, 0, head + pool, EncBody(c));
    AtSplit(d, 0, head, pool);
    AtSplit(d, 0, MAGIC + Big16(c.minor) + Big16(c.major), Big16(SlotCount(c.constants) + 1));
    AtSplit(d, 0, MAGIC + Big16(c.minor), Big16(c.major));
    AtSplit(d, 0, MAGIC, Big16(c.minor));
    Magic(d);
    At2(d, 4, c.minor);
    At2(d, 6, c.major);
    At2(d, 8, SlotCount(c.constants) + 1);
    s := PoolReadsBack(d, 10, c.constants, [EMPTY]);
    BodyReadsBack(d, 10 + |pool|, c, [EMPTY] + s, cut);
  }

  /**
    * Reading inverts writing, whatever follows the class in the file, if the ends that Code attributes claim for their
    * code are ints.  If one is not, C's test of it overflows.
    */
  lemma ClassReadsBack(d: seq<byte>, c: Class)
    requires GoodClass(c) && EncClass(c) <= d && |d| <= SIZE_MAX
    ensures if ClaimsFit(c) then ReadClass(d).Ok? && SameClass(d, ReadClass(d).value, c) else ReadClass(d) == Wild
  {
    hide MethodsFit, EncClass, EncTail, At, ReadClass, ReadTail, Means, Kept, ConstantFrom, SlotCount;
    var s := UpToMethods(d, c, false);
    TailReadsBack(d, MethodsStart(c) - 2, c, s);
    assert forall i :: 0 < i < |[EMPTY] + s| ==> ([EMPTY] + s)[i] == s[i - 1];
  }

  /** Code that lies inside its attribute, as JVMS section 4.7.3 demands. */
  predicate Honest(ks: seq<Constant>, attrs: seq<Attribute>) {
    forall i :: 0 <= i < |attrs| && ConstantAt(ks, attrs[i].name) == Some(Utf8(CODE)) && |attrs[i].info| >= 8 ==>
      CodeIn(attrs[i].info).Some?
  }

  lemma {:induction false} HonestAttributesFit(ks: seq<Constant>, attrs: seq<Attribute>, off: nat)
    requires GoodAttributes(attrs) && Honest(ks, attrs) && off + |EncAttributes(attrs)| <= INT_MAX
    ensures AttributesFit(ks, attrs, off)
    decreases |attrs|
  {
    hide Rd32, ConstantAt;
    if attrs != [] {
      EndOf(attrs[0]);
      HonestAttributesFit(ks, attrs[1..], off + |EncAttribute(attrs[0])|);
    }
  }

  lemma {:induction false} HonestMethodsFit(ks: seq<Constant>, ms: seq<Member>, off: nat)
    requires GoodMembers(ms) && off + |EncMembers(ms)| <= INT_MAX && forall i :: 0 <= i < |ms| ==> Honest(ks, ms[i].attrs)
    ensures MethodsFit(ks, ms, off)
    decreases |ms|
  {
    hide Honest, AttributesFit, EncAttributes;
    if ms != [] {
      HonestAttributesFit(ks, ms[0].attrs, off + 8);
      HonestMethodsFit(ks, ms[1..], off + 8 + |EncAttributes(ms[0].attrs)|);
    }
  }

  /** Every class whose code lies inside its attributes is read back. */
  lemma HonestClaimsFit(c: Class)
    requires GoodClass(c) && |EncClass(c)| <= SIZE_MAX && forall i :: 0 <= i < |c.methods| ==> Honest(c.constants, c.methods[i].attrs)
    ensures ClaimsFit(c)
  {
    hide EncPool, EncMembers, EncAttributes, EncIndices, Honest, MethodsFit, GoodMembers, GoodAttributes, GoodPool, Big16;
    HonestMethodsFit(c.constants, c.methods, MethodsStart(c));
  }

  /** The test of a Code attribute's claim is undefined exactly for lengths that fit an int although the end they claim
      does not; and exactly there the sum, cut to 32 bits, lets code through that does not lie in the file. */
  lemma OverlongClaim(d: seq<byte>, info: nat, end: nat, m: Method)
    requires info + 8 <= end <= |d| <= INT_MAX
    ensures var len := Rd32(d, info + 4); var cut := WithCode(d, info, end, m, true);
            && (WithCode(d, info, end, m) == Wild <==> len <= INT_MAX && info + 8 + len > INT_MAX)
            && (WithCode(d, info, end, m) == Wild ==> cut == Ok(m.(maxStack := Rd16(d, info), maxLocals := Rd16(d, info + 2),
                                                                   code := Some(info + 8), codeLen := len)))
            && (WithCode(d, info, end, m).Ok? ==> cut == WithCode(d, info, end, m))
  {
    hide Rd32, Rd16;
  }

  /** A class with one method, which has one attribute. */
  function OneMethod(ks: seq<Constant>, thisClass: nat, name: nat, desc: nat, a: Attribute): Class {
    Class(0, 52, ks, 0, thisClass, 0, [], [], [Member(8, name, desc, [a])], [])
  }

  predicate Narrow(ks: seq<Constant>) {
    GoodPool(ks) && |ks| < CP_MAX && forall i :: 0 <= i < |ks| ==> !ks[i].Wide?
  }

  lemma ConstantSize(k: Constant)
    requires GoodConstant(k)
    ensures |EncConstant(k)| <= 0x1_0002
  {
    hide Big16, U4;
  }

  /** Without wide constants slots and constants are the same. */
  lemma {:induction false} NarrowSlots(ks: seq<Constant>, i: nat)
    requires GoodPool(ks) && forall k :: 0 <= k < |ks| ==> !ks[k].Wide?
    ensures SlotCount(ks) == |ks| && |EncPool(ks)| <= 0x1_0002 * |ks|
    ensures ConstantFrom(ks, i) == if i < |ks| then Some(ks[i]) else None
    decreases |ks|
  {
    hide EncConstant, GoodConstant;
    if ks != [] {
      ConstantSize(ks[0]);
      NarrowSlots(ks[1..], if i > 0 then i - 1 else 0);
    }
  }

  lemma OneMethodFacts(ks: seq<Constant>, thisClass: nat, name: nat, desc: nat, a: Attribute)
    requires Narrow(ks) && thisClass < 0x1_0000 && name < 0x1_0000 && desc < 0x1_0000 && GoodAttribute(a)
    requires |a.info| < 0x1_0000
    ensures var c := OneMethod(ks, thisClass, name, desc, a);
            && GoodClass(c) && |EncClass(c)| <= SIZE_MAX
            && (ClaimsFit(c) <==> (ConstantAt(ks, a.name) == Some(Utf8(CODE)) ==> ClaimFits(a.info, |EncPool(ks)| + 36)))
  {
    hide EncPool, EncIndices, SlotCount, ConstantAt, ConstantFrom, Big16, U4, GoodPool, Rd32;
    var c := OneMethod(ks, thisClass, name, desc, a);
    NarrowSlots(ks, 0);
    var m := c.methods[0];
    assert m.attrs[1..] == [] && c.methods[1..] == [];
    EndOf(a);
    assert |EncAttributes(m.attrs)| == 6 + |a.info|;
    assert |EncMembers(c.methods)| == 14 + |a.info|;
    OneMethodSize(c);
    OneAttributeFits(ks, c.methods, MethodsStart(c));
  }

  lemma OneAttributeFits(ks: seq<Constant>, ms: seq<Member>, off: nat)
    requires GoodMembers(ms) && |ms| == 1 && |ms[0].attrs| == 1
    ensures var a := ms[0].attrs[0];
            MethodsFit(ks, ms, off) <==> (ConstantAt(ks, a.name) == Some(Utf8(CODE)) ==> ClaimFits(a.info, off + 14))
  {
    hide ConstantAt, ClaimFits, EncAttributes, EncAttribute;
    var attrs := ms[0].attrs;
    assert attrs[1..] == [] && ms[1..] == [];
    assert AttributesFit(ks, attrs[1..], off + 8 + |EncAttribute(attrs[0])|);
    assert MethodsFit(ks, ms[1..], off + 8 + |EncAttributes(attrs)|);
  }

  lemma OneMethodSize(c: Class)
    requires GoodClass(c) && c.interfaces == [] && c.fields == [] && c.attrs == []
    ensures |EncClass(c)| == 10 + |EncPool(c.constants)| + 8 + 2 + (2 + |EncMembers(c.methods)| + 2)
    ensures MethodsStart(c) == |EncPool(c.constants)| + 22
  {
    hide EncPool, SlotCount, GoodPool, GoodMembers;
  }

  const OVERLONG: Attribute := Attribute(1, [0, 1, 0, 0, 0x7F, 0xFF, 0xFF, 0xFF])

  const OVERLONG_CLASS: Class := OneMethod([Utf8(CODE)], 0, 1, 1, OVERLONG)

  /** A class file whose only method claims 2^31 - 1 bytes of code.  What C makes of it is undefined; with the sum cut to
      32 bits the class is accepted, and the method has all that code. */
  lemma OverlongClassIsWild()
    ensures GoodClass(OVERLONG_CLASS) && ReadClass(EncClass(OVERLONG_CLASS)) == Wild
    ensures var r := ReadClass(EncClass(OVERLONG_CLASS), true);
            r.Ok? && |r.value.methods| == 1 && r.value.methods[0].code.Some? && r.value.methods[0].codeLen == INT_MAX
  {
    hide ReadClass, EncClass, EncTail, ClaimsFit, GoodClass, EncPool, Slots, At, ReadTail, EncMembers;
    var c := OVERLONG_CLASS;
    OneMethodFacts([Utf8(CODE)], 0, 1, 1, OVERLONG);
    NarrowSlots([Utf8(CODE)], 0);
    assert Rd32(OVERLONG.info, 4) == INT_MAX;
    ClassReadsBack(EncClass(c), c);
    var s := UpToMethods(EncClass(c), c, true);
    OverlongMethod(EncClass(c), MethodsStart(c) - 2, s);
  }

  lemma OverlongMethod(d: seq<byte>, off: nat, s: seq<Entry>)
    requires GoodClass(OVERLONG_CLASS) && At(d, off, EncTail(OVERLONG_CLASS)) && Slots(d, s, [Utf8(CODE)]) && |d| <= INT_MAX
    ensures var r := ReadTail(d, off, [EMPTY] + s, true);
            r.Ok? && |r.value| == 1 && r.value[0].code.Some? && r.value[0].codeLen == INT_MAX
  {
    hide At, Slots, Rd16, Rd32, Big16, U4, EncHead, EncAttribute, ReadAttribute, WithCode, GoodClass, HeadOf, Utf8At;
    var c := OVERLONG_CLASS;
    var m := c.methods[0];
    GoodOverlong();
    AtSplit(d, off, Big16(1) + EncMembers(c.methods), Big16(0) + EncAttributes([]));
    AtSplit(d, off, Big16(1), EncMembers(c.methods));
    AtSplit(d, off + 2 + |EncMembers(c.methods)|, Big16(0), EncAttributes([]));
    At2(d, off, 1);
    assert c.methods[1..] == [] && m.attrs[1..] == [];
    AtSplit(d, off + 2, EncHead(m) + EncAttributes(m.attrs), EncMembers([]));
    AtSplit(d, off + 2, EncHead(m), EncAttributes(m.attrs));
    HeadReadsBack(d, off + 2, m);
    AtSplit(d, off + 10, EncAttribute(OVERLONG), EncAttributes([]));
    AttributeReadsBack(d, off + 10, OVERLONG);
    EndOf(OVERLONG);
    NamesReadBack(d, s, [Utf8(CODE)], 1);
    AtRead(d, off + 16, OVERLONG.info, 4);
    InFile(d, off + 16, OVERLONG.info);
    OverlongClaim(d, off + 16, off + 24, HeadOf(d, off + 2));
    At2(d, off + 2 + |EncMembers(c.methods)|, 0);
  }

  lemma GoodOverlong()
    ensures GoodMember(OVERLONG_CLASS.methods[0]) && GoodMembers(OVERLONG_CLASS.methods) && GoodAttribute(OVERLONG)
    ensures Rd32(OVERLONG.info, 4) == INT_MAX
  {
  }

  lemma Starts(d: seq<byte>, s: seq<byte>)
    requires s <= d
    ensures At(d, 0, s)
  {
  }

  lemma Magic(d: seq<byte>)
    requires At(d, 0, MAGIC)
    ensures |d| >= 4 && Rd32(d, 0) == 0xCAFE_BABE
  {
    var w := d[0..4];
    assert d[0] == w[0] && d[1] == w[1] && d[2] == w[2] && d[3] == w[3];
  }

  /** A Code attribute laid out as in JVMS section 4.7.3, exception table and attributes behind the code. */
  function CodeInfo(maxStack: nat, maxLocals: nat, code: seq<byte>, rest: seq<byte>): (info: seq<byte>)
    requires maxStack < 0x1_0000 && maxLocals < 0x1_0000 && |code| <= INT_MAX
    ensures |info| == 8 + |code| + |rest|
  {
    Big16(maxStack) + Big16(maxLocals) + U4(|code|) + code + rest
  }

  lemma CodeInfoMeaning(maxStack: nat, maxLocals: nat, code: seq<byte>, rest: seq<byte>)
    requires maxStack < 0x1_0000 && maxLocals < 0x1_0000 && |code| <= INT_MAX
    ensures CodeIn(CodeInfo(maxStack, maxLocals, code, rest)) == Some(Code(maxStack, maxLocals, |code|, code))
  {
    hide Rd16, Rd32, Big16, U4;
    var info := CodeInfo(maxStack, maxLocals, code, rest);
    assert At(info, 0, info);
    AtSplit(info, 0, Big16(maxStack) + Big16(maxLocals) + U4(|code|) + code, rest);
    AtSplit(info, 0, Big16(maxStack) + Big16(maxLocals) + U4(|code|), code);
    AtSplit(info, 0, Big16(maxStack) + Big16(maxLocals), U4(|code|));
    AtSplit(info, 0, Big16(maxStack), Big16(maxLocals));
    At2(info, 0, maxStack);
    At2(info, 2, maxLocals);
    At4(info, 4, |code|);
  }
}
