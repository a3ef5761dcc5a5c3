/** A class file whose one method calls itself: written, read back, and run. */
module JvmExample {
  import opened Bytes
  import opened ClassFile
  import opened Jvm
  import opened JvmRun
  import opened Wrappers
  import opened Words
  import Descriptor
  import W = ClassWriter

  const NAME: seq<byte> := [102]
  const DESC: seq<byte> := [40, 41, 86]
  const SELF: seq<byte> := [65]

  // The names, then the class, the name with its descriptor, and the reference to the method itself.
  function Constants(): seq<W.Constant> {
    [W.Utf8([67, 111, 100, 101]), W.Utf8(NAME), W.Utf8(DESC), W.Utf8(SELF), W.Ref(7, 4), W.Pair(12, 2, 3), W.Pair(10, 5, 6)]
  }

  // invokestatic 7
  const CALL: seq<byte> := [0xB8, 0, 7]

  function Body(): W.Attribute {
    W.Attribute(1, W.CodeInfo(0, 0, CALL, []))
  }

  function Endless(): W.Class {
    W.OneMethod(Constants(), 5, 2, 3, Body())
  }

  lemma ConstantIs(i: nat)
    requires 1 <= i <= 7
    ensures W.Narrow(Constants()) && W.ConstantAt(Constants(), i) == Some(Constants()[i - 1])
  {
    hide W.EncPool, W.SlotCount, W.ConstantFrom, W.EncConstant;
    W.NarrowSlots(Constants(), i - 1);
  }

  lemma BodyMeaning()
    ensures W.GoodAttribute(Body()) && |Body().info| == 11 && Rd32(Body().info, 4) == 3
    ensures Body().name == 1 && W.CodeOf(Constants(), Body()) == Some(W.Code(0, 0, 3, CALL))
  {
    hide W.ConstantAt, W.CodeInfo, Rd32, Rd16;
    ConstantIs(1);
    W.CodeInfoMeaning(0, 0, CALL, []);
  }

  lemma EndlessReads()
    ensures W.GoodClass(Endless()) && |W.EncClass(Endless())| <= SIZE_MAX && ReadClass(W.EncClass(Endless())).Ok?
    ensures W.SameClass(W.EncClass(Endless()), ReadClass(W.EncClass(Endless())).value, Endless())
  {
    hide ReadClass, W.EncClass, W.GoodClass, W.ClaimsFit, W.SameClass, Body, Constants, W.EncPool, W.ConstantAt, W.CodeIn, Rd32;
    hide W.OneMethod;
    ConstantIs(1);
    BodyMeaning();
    W.OneMethodFacts(Constants(), 5, 2, 3, Body());
    W.NarrowSlots(Constants(), 0);
    W.ClassReadsBack(W.EncClass(Endless()), Endless());
  }

  /** What reading it gives: the names with their texts, the three references, and the method. */
  predicate IsRead(d: seq<byte>, p: Parsed) {
    && |p.cp| == 8 && p.cp[5] == Entry(7, 4, 0) && p.cp[6] == Entry(12, 2, 3) && p.cp[7] == Entry(10, 5, 6)
    && Utf8At(d, p.cp, 2) == Some(NAME) && Utf8At(d, p.cp, 3) == Some(DESC) && Utf8At(d, p.cp, 4) == Some(SELF)
    && p.thisClass == 5 && |p.methods| == 1 && MethodIs(d, p.methods[0])
  }

  predicate MethodIs(d: seq<byte>, m: Method) {
    m.flags == 8 && m.name == 2 && m.desc == 3 && m.codeLen == 3 && m.code.Some? && W.At(d, m.code.value, CALL)
  }

  lemma SlotRead(d: seq<byte>, p: Parsed, c: W.Class, i: nat, k: W.Constant)
    requires W.SameClass(d, p, c) && 0 < i < |p.cp| && W.ConstantAt(c.constants, i) == Some(k)
    ensures W.Means(d, p.cp[i], Some(k))
    ensures k.Utf8? ==> Utf8At(d, p.cp, i) == Some(k.text)
  {
    hide W.ConstantAt, W.Kept, W.SlotCount;
  }

  lemma PoolSize(d: seq<byte>, p: Parsed)
    requires W.SameClass(d, p, Endless())
    ensures |p.cp| == 8 && p.thisClass == 5 && W.Kept(d, p.methods, Endless().methods, Constants())
  {
    hide W.ConstantAt, W.Means, W.Kept, Body, W.EncPool, W.SlotCount, W.ConstantFrom;
    ConstantIs(1);
    W.NarrowSlots(Constants(), 0);
  }

  lemma Slot(d: seq<byte>, p: Parsed, i: nat, k: W.Constant)
    requires W.SameClass(d, p, Endless()) && 1 <= i <= 7 && k == Constants()[i - 1]
    ensures |p.cp| == 8 && (k.Utf8? ==> Utf8At(d, p.cp, i) == Some(k.text))
    ensures k.Ref? ==> p.cp[i] == Entry(k.tag, k.a, 0)
    ensures k.Pair? ==> p.cp[i] == Entry(k.tag, k.a, k.b)
  {
    hide W.SameClass, W.ConstantAt, Utf8At, W.Kept, W.Narrow, Body, Constants;
    PoolSize(d, p);
    ConstantIs(i);
    SlotRead(d, p, Endless(), i, k);
  }

  lemma PoolRead(d: seq<byte>, p: Parsed)
    requires W.SameClass(d, p, Endless())
    ensures |p.cp| == 8 && p.cp[5] == Entry(7, 4, 0) && p.cp[6] == Entry(12, 2, 3) && p.cp[7] == Entry(10, 5, 6)
    ensures Utf8At(d, p.cp, 2) == Some(NAME) && Utf8At(d, p.cp, 3) == Some(DESC) && Utf8At(d, p.cp, 4) == Some(SELF)
  {
    hide W.SameClass, Utf8At, Endless;
    Slot(d, p, 2, W.Utf8(NAME));
    Slot(d, p, 3, W.Utf8(DESC));
    Slot(d, p, 4, W.Utf8(SELF));
    Slot(d, p, 5, W.Ref(7, 4));
    Slot(d, p, 6, W.Pair(12, 2, 3));
    Slot(d, p, 7, W.Pair(10, 5, 6));
  }

  lemma MethodRead(d: seq<byte>, p: Parsed)
    requires W.Kept(d, p.methods, Endless().methods, Constants())
    ensures |p.methods| == 1 && MethodIs(d, p.methods[0])
  {
    hide W.Means, W.CodeOf, Body, Constants, W.HasCode, W.At, W.LastCode;
    assert W.Describes(d, p.methods[0], Endless().methods[0], Constants());
    BodyMeaning();
    OneCode(Constants(), Body());
    HasCodeOf(d, p.methods[0], W.Code(0, 0, 3, CALL));
  }

  lemma OneCode(ks: seq<W.Constant>, a: W.Attribute)
    ensures W.LastCode(ks, [a]) == W.CodeOf(ks, a)
  {
    assert [a][..0] == [];
  }

  lemma HasCodeOf(d: seq<byte>, m: Method, c: W.Code)
    requires W.HasCode(d, m, Some(c))
    ensures m.codeLen == c.length && m.code.Some? && W.At(d, m.code.value, c.code)
  {
  }

  // ---------------------------------------------------------------- the call

  /** The reference in slot 7 names the method itself. */
  lemma Named(c: Class)
    requires IsRead(c.bytes, c.p)
    ensures Resolve(c, 7, 10) == Some(Reference(SELF, NAME, DESC)) && ClassName(c, c.p.thisClass) == Some(SELF)
    ensures IsNamed(c, c.p.methods[0], NAME, DESC)
  {
    hide Utf8At, W.At;
  }

  lemma NoArguments()
    ensures Descriptor.DescArgs(DESC) == Some((0, Descriptor.V))
  {
  }

  lemma CallTarget(jar: Jar, c: Class, f: Frame)
    requires IsRead(c.bytes, c.p) && f.stack == []
    ensures TargetOf(jar, c, f, 7) == Some(Target(c, c.p.methods[0], [], f, Descriptor.V))
  {
    hide Utf8At, W.At, Resolve, ClassName, IsNamed, Descriptor.DescArgs, MethodIs, IsFirst;
    Named(c);
    NoArguments();
    assert f.stack[..0] == f.stack[0..] == [];
  }

  lemma FirstStep(c: Class, code: seq<byte>, f: Frame)
    requires code == CALL && f.pc == 0 && |f.locals| == LOCALS_MAX
    ensures StepOf(c, code, f) == Invoke(7, f.(pc := 3))
  {
  }

  lemma RunsEndlessly(jar: Jar, c: Class, limit: nat)
    requires GoodJar(jar) && GoodClass(c) && IsRead(c.bytes, c.p) && limit > 0
    ensures GoodMethod(c.bytes, c.p.methods[0])
    ensures RunMethod(jar, c, c.p.methods[0], [], 0, limit) == Outcome(Failed, [], 13)
  {
    hide TargetOf, StepOf, RunMethod, GoodJar, Utf8At;
    var m, f := c.p.methods[0], NewFrame([]);
    assert CodeBytes(c, m) == CALL;
    FreshLocals();
    FirstStep(c, CALL, f);
    CallTarget(jar, c, f.(pc := 3));
    EndlessRecursionFails(jar, c, m, 7, f.(pc := 3), 0, limit);
  }

  /** The class read from the file of the class above. */
  predicate IsEndless(c: Class) {
    W.GoodClass(Endless()) && c.bytes == W.EncClass(Endless()) && ReadClass(c.bytes) == Ok(c.p)
  }

  /** Running the only method of the class reaches all 13 frames and fails. */
  predicate FailsDeep(jar: Jar, c: Class, limit: nat) {
    && GoodJar(jar) && GoodClass(c) && |c.p.methods| == 1 && GoodMethod(c.bytes, c.p.methods[0])
    && RunMethod(jar, c, c.p.methods[0], [], 0, limit) == Outcome(Failed, [], 13)
  }

  /** The hypotheses of `EndlessRecursionFails` are met: this class file is accepted, and running its method reaches all
      13 frames and fails, whatever else the jar holds. */
  lemma EndlessRuns(jar: Jar, limit: nat) returns (c: Class)
    requires GoodJar(jar) && limit > 0
    ensures IsEndless(c) && FailsDeep(jar, c, limit)
  {
    hide Endless, ReadClass, W.EncClass, W.SameClass, W.GoodClass, RunMethod, GoodJar, GoodClass, Utf8At, W.Kept, MethodIs, GoodMethod;
    EndlessReads();
    var d := W.EncClass(Endless());
    AcceptedIsGood(d);
    var p := ReadClass(d).value;
    PoolSize(d, p);
    PoolRead(d, p);
    MethodRead(d, p);
    c := Class(d, p);
    RunsEndlessly(jar, c, limit);
  }
}
