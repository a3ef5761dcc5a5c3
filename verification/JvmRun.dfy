/** Whole runs of the interpreter of src/commands/java.c: the loop over a method's code and nested calls. */
module JvmRun {
  import opened Bytes
  import opened ClassFile
  import opened Jvm
  import Descriptor
  import opened Wrappers
  import opened Words

  /** How a run ends; `Running` is a run that a step limit has cut off. */
  datatype End = Finished(ret: Option<int32>) | Failed | Undefined | Running

  /** The end of a run, what it printed, and the greatest number of frames that were active at once. */
  datatype Outcome = Outcome(end: End, printed: seq<Event>, frames: nat)

  /** Code pointers stay inside the file. */
  predicate GoodClass(c: Class) {
    forall i :: 0 <= i < |c.p.methods| ==> GoodMethod(c.bytes, c.p.methods[i])
  }

  predicate GoodMethod(d: seq<byte>, m: Method) {
    m.code.Some? && m.codeLen <= INT_MAX ==> m.code.value + m.codeLen <= |d|
  }

  predicate GoodJar(jar: Jar) {
    forall name :: name in jar ==> GoodClass(jar[name])
  }

  /** The code a method runs: a length of 2^31 or more is a negative int, and no instruction is below it. */
  function CodeBytes(c: Class, m: Method): seq<byte>
    requires GoodMethod(c.bytes, m) && m.code.Some?
  {
    if m.codeLen > INT_MAX then [] else c.bytes[m.code.value..m.code.value + m.codeLen]
  }

  function Zeros(n: nat): (r: seq<int32>)
    ensures |r| == n && forall i :: 0 <= i < n ==> r[i] == 0
  {
    seq(n, _ => 0)
  }

  /** A new frame, its first local variables being the arguments. */
  function NewFrame(args: seq<int32>): Frame
    requires |args| <= LOCALS_MAX
  {
    Frame(0, [], args + Zeros(LOCALS_MAX - |args|))
  }

  function Max(a: nat, b: nat): nat {
    if a > b then a else b
  }

  /** A run that goes on as `o` does after it has printed something and nested calls. */
  function After(printed: seq<Event>, frames: nat, o: Outcome): Outcome {
    Outcome(o.end, printed + o.printed, Max(frames, o.frames))
  }

  /** The static method a call reaches: its class, the method, and its arguments and the frame left behind. */
  datatype Target = Target(cls: Class, m: Method, args: seq<int32>, rest: Frame, kind: Descriptor.Kind)

  function TargetOf(jar: Jar, c: Class, f: Frame, idx: nat): (r: Option<Target>)
    ensures r.Some? ==> |r.value.args| <= 8
    ensures r.Some? && |f.stack| <= STACK_MAX ==> |r.value.rest.stack| <= STACK_MAX
    ensures r.Some? ==> r.value.rest.locals == f.locals && r.value.rest.pc == f.pc
  {
    var ref := Resolve(c, idx, 10);
    match Arity(f, ref, 0)
    case None => None
    case Some((n, kind)) =>
      match TargetClass(jar, c, ref.value.cls)
      case None => None
      case Some(t) =>
        match FindStatic(t, 0, ref.value.name, ref.value.desc)
        case None => None
        case Some(m) =>
          var sp := |f.stack| - n;
          Some(Target(t, m, f.stack[sp..], f.(stack := f.stack[..sp]), kind))
  }

  lemma TargetIsGood(jar: Jar, c: Class, f: Frame, idx: nat)
    requires GoodJar(jar) && GoodClass(c)
    ensures var t := TargetOf(jar, c, f, idx);
            t.Some? ==> GoodClass(t.value.cls) && GoodMethod(t.value.cls.bytes, t.value.m)
  {
  }

  /** The frame after a call that returned, or nothing if a value is missing or has no room. */
  function Returned(t: Target, ret: Option<int32>): Option<Frame> {
    if t.kind == Descriptor.V then Some(t.rest)
    else if ret.None? || |t.rest.stack| >= STACK_MAX then None
    else Some(t.rest.(stack := t.rest.stack + [ret.value]))
  }

  /** The loop over the code, with at most `left` more steps here and `limit` steps in every nested call. */
  function RunLoop(jar: Jar, c: Class, code: seq<byte>, f: Frame, depth: nat, limit: nat, left: nat): Outcome
    requires GoodJar(jar) && GoodClass(c) && |f.locals| == LOCALS_MAX && depth <= DEPTH_MAX
    decreases DEPTH_MAX + 1 - depth, 1, left
  {
    if f.pc >= |code| then Outcome(Finished(None), [], 0)
    else if left == 0 then Outcome(Running, [], 0)
    else
      match StepOf(c, code, f)
      case Fault => Outcome(Failed, [], 0)
      case Overflow => Outcome(Undefined, [], 0)
      case Done(ret) => Outcome(Finished(ret), [], 0)
      case Next(g, printed) =>
        StepKeepsLocals(c, code, f);
        After(printed, 0, RunLoop(jar, c, code, g, depth, limit, left - 1))
      case Invoke(idx, g) =>
        StepKeepsLocals(c, code, f);
        var (o, back) := RunCall(jar, c, g, idx, depth, limit);
        if back.None? then o else After(o.printed, o.frames, RunLoop(jar, c, code, back.value, depth, limit, left - 1))
  }

  /** invokestatic: what the call comes to, and the frame it returns to if it does. */
  function RunCall(jar: Jar, c: Class, f: Frame, idx: nat, depth: nat, limit: nat): (r: (Outcome, Option<Frame>))
    requires GoodJar(jar) && GoodClass(c) && |f.locals| == LOCALS_MAX && depth <= DEPTH_MAX
    ensures r.1.Some? ==> |r.1.value.locals| == LOCALS_MAX
    decreases DEPTH_MAX + 1 - depth, 0
  {
    match TargetOf(jar, c, f, idx)
    case None => (Outcome(Failed, [], 0), None)
    case Some(t) =>
      TargetIsGood(jar, c, f, idx);
      var o := RunMethod(jar, t.cls, t.m, t.args, depth + 1, limit);
      if !o.end.Finished? then (o, None)
      else if Returned(t, o.end.ret).None? then (o.(end := Failed), None)
      else (o, Returned(t, o.end.ret))
  }

  /** jvm_exec_method, `depth` calls deep, with at most `limit` steps in every frame. */
  function RunMethod(jar: Jar, c: Class, m: Method, args: seq<int32>, depth: nat, limit: nat): Outcome
    requires GoodJar(jar) && GoodClass(c) && GoodMethod(c.bytes, m) && depth <= DEPTH_MAX + 1
    decreases DEPTH_MAX + 1 - depth, 2, limit
  {
    if m.code.None? || m.codeLen == 0 || depth > DEPTH_MAX || |args| > LOCALS_MAX then Outcome(Failed, [], 0)
    else
      var o := RunLoop(jar, c, CodeBytes(c, m), NewFrame(args), depth, limit, limit);
      o.(frames := o.frames + 1)
  }

  // ---------------------------------------------------------------- what every step keeps

  lemma StepKeepsLocals(c: Class, code: seq<byte>, f: Frame)
    requires f.pc < |code| && |f.locals| == LOCALS_MAX
    ensures match StepOf(c, code, f)
            case Next(g, _) => |g.locals| == LOCALS_MAX
            case Invoke(_, g) => |g.locals| == LOCALS_MAX
            case _ => true
  {
    hide Decode, Exact, Virtual, Special, Resolve, Lit, Ldc, Holds;
    hide IsPrintStreamField;
    VirtualFrame(c, f, 0);
    match Decode(code, f.pc)
    case None =>
    case Some((i, n)) =>
      var g := f.(pc := f.pc + n);
      if i.InvokeVirtual? || i.InvokeSpecial? {
        VirtualFrame(c, g, i.idx);
      }
  }

  /** The calls that do not nest only pop the stack. */
  lemma VirtualFrame(c: Class, f: Frame, idx: nat)
    ensures Virtual(c, f, idx).Next? || Virtual(c, f, idx).Fault?
    ensures Special(c, f, idx).Next? || Special(c, f, idx).Fault?
    ensures Virtual(c, f, idx).Next? ==>
              var g := Virtual(c, f, idx).f; g.locals == f.locals && g.pc == f.pc && |g.stack| <= |f.stack|
    ensures Special(c, f, idx).Next? ==>
              var g := Special(c, f, idx).f; g.locals == f.locals && g.pc == f.pc && |g.stack| <= |f.stack|
  {
    hide Lit, Resolve, Printed, HasFlag;
  }

  /** Every step keeps the stack at most 256 deep, 64 local variables, and the program counter in the code or at its end. */
  lemma StepKeepsGood(c: Class, code: seq<byte>, f: Frame)
    requires f.pc < |code| && GoodFrame(f, code)
    ensures match StepOf(c, code, f)
            case Next(g, _) => GoodFrame(g, code)
            case Invoke(_, g) => GoodFrame(g, code)
            case _ => true
  {
    hide Execute, Plain, Short, Long;
    match Decode(code, f.pc)
    case None =>
    case Some((i, n)) => ExecuteKeepsGood(c, code, i, f.(pc := f.pc + n), f.pc);
  }

  lemma ExecuteKeepsGood(c: Class, code: seq<byte>, i: Instr, f: Frame, at: nat)
    requires GoodFrame(f, code)
    ensures match Execute(c, code, i, f, at)
            case Next(g, _) => GoodFrame(g, code)
            case Invoke(_, g) => GoodFrame(g, code)
            case _ => true
  {
    hide Exact, Virtual, Special, Resolve, Lit, Ldc, Holds, IsPrintStreamField;
    if i.InvokeVirtual? || i.InvokeSpecial? {
      VirtualFrame(c, f, i.idx);
    }
  }

  /** Nested calls and their returns keep the caller's frame good. */
  lemma CallKeepsGood(jar: Jar, c: Class, code: seq<byte>, f: Frame, idx: nat, ret: Option<int32>)
    requires GoodFrame(f, code)
    ensures var t := TargetOf(jar, c, f, idx);
            t.Some? && Returned(t.value, ret).Some? ==> GoodFrame(Returned(t.value, ret).value, code)
    ensures forall args: seq<int32> :: |args| <= LOCALS_MAX ==> GoodFrame(NewFrame(args), code)
  {
  }

  /** The frame after an instruction that goes on. */
  function Then(c: Class, code: seq<byte>, i: Instr, f: Frame, at: nat): Option<Frame>
    requires |f.locals| == LOCALS_MAX
  {
    var s := Execute(c, code, i, f, at);
    if s.Next? then Some(s.f) else None
  }

  /** The part of Execute that moves values, in one place. */
  lemma Moves(c: Class, code: seq<byte>, f: Frame, at: nat, v: int32)
    requires GoodFrame(f, code)
    ensures Then(c, code, Pop, f, at) == if f.stack == [] then None else Some(f.(stack := f.stack[..|f.stack| - 1]))
    ensures |f.stack| < STACK_MAX ==> Then(c, code, Push(v), f, at) == Some(f.(stack := f.stack + [v]))
    ensures 1 <= |f.stack| < STACK_MAX ==> Then(c, code, Dup, f, at) == Some(f.(stack := f.stack + [f.stack[|f.stack| - 1]]))
    ensures |f.stack| >= 2 ==> Then(c, code, Swap, f, at) == Some(f.(stack := Swapped(f.stack)))
    ensures 2 <= |f.stack| < STACK_MAX ==>
              Then(c, code, DupX1, f, at) == Some(f.(stack := Swapped(f.stack) + [f.stack[|f.stack| - 1]]))
  {
    if |f.stack| >= 2 {
      var s, n := f.stack, |f.stack|;
      assert s[..n - 2] + [s[n - 1], s[n - 2], s[n - 1]] == Swapped(s) + [s[n - 1]];
    }
  }

  function Swapped(s: seq<int32>): (r: seq<int32>)
    requires |s| >= 2
    ensures |r| == |s|
  {
    s[..|s| - 2] + [s[|s| - 1], s[|s| - 2]]
  }

  lemma SwappedTwice(s: seq<int32>)
    requires |s| >= 2
    ensures Swapped(Swapped(s)) == s
  {
  }

  /** A pop undoes a dup and every push, a swap undoes itself, and dup_x1 with a pop makes a swap. */
  lemma StackLaws(c: Class, code: seq<byte>, f: Frame, at: nat, v: int32)
    requires GoodFrame(f, code) && 2 <= |f.stack| < STACK_MAX
    ensures AndThen(c, code, Dup, Pop, f, at) == AndThen(c, code, Push(v), Pop, f, at) == Some(f)
    ensures AndThen(c, code, Swap, Swap, f, at) == Some(f)
    ensures AndThen(c, code, DupX1, Pop, f, at) == Then(c, code, Swap, f, at)
  {
    hide Then, Swapped;
    var s, top := f.stack, f.stack[|f.stack| - 1];
    Moves(c, code, f, at, v);
    Moves(c, code, f.(stack := s + [top]), at, v);
    Moves(c, code, f.(stack := s + [v]), at, v);
    Moves(c, code, f.(stack := Swapped(s)), at, v);
    Moves(c, code, f.(stack := Swapped(s) + [top]), at, v);
    SwappedTwice(s);
    assert (s + [top])[..|s|] == s && (s + [v])[..|s|] == s && (Swapped(s) + [top])[..|s|] == Swapped(s);
  }

  /** Two instructions one after the other. */
  function AndThen(c: Class, code: seq<byte>, i: Instr, j: Instr, f: Frame, at: nat): Option<Frame>
    requires |f.locals| == LOCALS_MAX
  {
    var g := Then(c, code, i, f, at);
    if g.None? || |g.value.locals| != LOCALS_MAX then None else Then(c, code, j, g.value, at)
  }

  /** A stored value is the one loaded next. */
  lemma StoreThenLoad(c: Class, code: seq<byte>, f: Frame, at: nat, k: nat)
    requires GoodFrame(f, code) && 1 <= |f.stack| && k < LOCALS_MAX
    ensures AndThen(c, code, Store(k), Load(k), f, at) == Some(f.(locals := f.locals[k := f.stack[|f.stack| - 1]]))
  {
    var s := f.stack;
    assert s[..|s| - 1] + [s[|s| - 1]] == s;
  }

  // ---------------------------------------------------------------- how deep calls nest

  lemma {:induction false} LoopFrames(jar: Jar, c: Class, code: seq<byte>, f: Frame, depth: nat, limit: nat, left: nat)
    requires GoodJar(jar) && GoodClass(c) && |f.locals| == LOCALS_MAX && depth <= DEPTH_MAX
    ensures RunLoop(jar, c, code, f, depth, limit, left).frames <= DEPTH_MAX - depth
    decreases DEPTH_MAX + 1 - depth, 0, left
  {
    hide StepOf, TargetOf, GoodJar, GoodClass, GoodMethod, Returned;
    if f.pc < |code| && left > 0 {
      StepKeepsLocals(c, code, f);
      match StepOf(c, code, f)
      case Next(g, _) => LoopFrames(jar, c, code, g, depth, limit, left - 1);
      case Invoke(idx, g) =>
        if TargetOf(jar, c, g, idx).Some? {
          var t := TargetOf(jar, c, g, idx).value;
          TargetIsGood(jar, c, g, idx);
          FramesBound(jar, t.cls, t.m, t.args, depth + 1, limit);
        }
        var back := RunCall(jar, c, g, idx, depth, limit).1;
        if back.Some? {
          LoopFrames(jar, c, code, back.value, depth, limit, left - 1);
        }
      case _ =>
    }
  }

  /** However a program calls itself, at most 13 frames are ever active. */
  lemma {:induction false} FramesBound(jar: Jar, c: Class, m: Method, args: seq<int32>, depth: nat, limit: nat)
    requires GoodJar(jar) && GoodClass(c) && GoodMethod(c.bytes, m) && depth <= DEPTH_MAX + 1
    ensures RunMethod(jar, c, m, args, depth, limit).frames <= DEPTH_MAX + 1 - depth
    decreases DEPTH_MAX + 1 - depth, 1, limit
  {
    if !(m.code.None? || m.codeLen == 0 || depth > DEPTH_MAX || |args| > LOCALS_MAX) {
      LoopFrames(jar, c, CodeBytes(c, m), NewFrame(args), depth, limit, limit);
    }
  }

  /** A method that begins by calling itself reaches all 13 frames, and then the whole run fails. */
  lemma {:induction false} EndlessRecursionFails(jar: Jar, c: Class, m: Method, idx: nat, rest: Frame, depth: nat, limit: nat)
    requires GoodJar(jar) && GoodClass(c) && GoodMethod(c.bytes, m) && depth <= DEPTH_MAX + 1 && limit > 0
    requires m.code.Some? && m.codeLen > 0 && CodeBytes(c, m) != []
    requires StepOf(c, CodeBytes(c, m), NewFrame([])) == Invoke(idx, rest)
    requires var t := TargetOf(jar, c, rest, idx); t.Some? && t.value.cls == c && t.value.m == m && t.value.args == []
    ensures RunMethod(jar, c, m, [], depth, limit) == Outcome(Failed, [], DEPTH_MAX + 1 - depth)
    decreases DEPTH_MAX + 1 - depth
  {
    hide StepOf, TargetOf, GoodJar, GoodClass, GoodMethod, Returned, CodeBytes, NewFrame;
    if depth <= DEPTH_MAX {
      EndlessRecursionFails(jar, c, m, idx, rest, depth + 1, limit);
      FreshLocals();
      StepKeepsLocals(c, CodeBytes(c, m), NewFrame([]));
      assert RunCall(jar, c, rest, idx, depth, limit) == (Outcome(Failed, [], DEPTH_MAX - depth), None);
      assert RunLoop(jar, c, CodeBytes(c, m), NewFrame([]), depth, limit, limit) == Outcome(Failed, [], DEPTH_MAX - depth);
    }
  }

  lemma FreshLocals()
    ensures |NewFrame([]).locals| == LOCALS_MAX && NewFrame([]).pc == 0
  {
  }

  // ---------------------------------------------------------------- the step limit

  lemma {:induction false} LoopMoreSteps(jar: Jar, c: Class, code: seq<byte>, f: Frame, depth: nat, limit: nat, left: nat,
      limit2: nat, left2: nat)
    requires GoodJar(jar) && GoodClass(c) && |f.locals| == LOCALS_MAX && depth <= DEPTH_MAX
    requires limit <= limit2 && left <= left2
    requires RunLoop(jar, c, code, f, depth, limit, left).end != Running
    ensures RunLoop(jar, c, code, f, depth, limit2, left2) == RunLoop(jar, c, code, f, depth, limit, left)
    decreases DEPTH_MAX + 1 - depth, 0, left
  {
    hide StepOf, TargetOf, GoodJar, GoodClass, GoodMethod, Returned;
    if f.pc < |code| {
      StepKeepsLocals(c, code, f);
      match StepOf(c, code, f)
      case Next(g, _) => LoopMoreSteps(jar, c, code, g, depth, limit, left - 1, limit2, left2 - 1);
      case Invoke(idx, g) =>
        if TargetOf(jar, c, g, idx).Some? {
          var t := TargetOf(jar, c, g, idx).value;
          TargetIsGood(jar, c, g, idx);
          MoreSteps(jar, t.cls, t.m, t.args, depth + 1, limit, limit2);
        }
        var back := RunCall(jar, c, g, idx, depth, limit).1;
        if back.Some? {
          LoopMoreSteps(jar, c, code, back.value, depth, limit, left - 1, limit2, left2 - 1);
        }
      case _ =>
    }
  }

  /** The step limit only cuts runs off: a run that ends within one limit ends the same way within every greater one. */
  lemma {:induction false} MoreSteps(jar: Jar, c: Class, m: Method, args: seq<int32>, depth: nat, limit: nat, limit2: nat)
    requires GoodJar(jar) && GoodClass(c) && GoodMethod(c.bytes, m) && depth <= DEPTH_MAX + 1 && limit <= limit2
    requires RunMethod(jar, c, m, args, depth, limit).end != Running
    ensures RunMethod(jar, c, m, args, depth, limit2) == RunMethod(jar, c, m, args, depth, limit)
    decreases DEPTH_MAX + 1 - depth, 1, limit
  {
    if !(m.code.None? || m.codeLen == 0 || depth > DEPTH_MAX || |args| > LOCALS_MAX) {
      LoopMoreSteps(jar, c, CodeBytes(c, m), NewFrame(args), depth, limit, limit, limit2, limit2);
    }
  }

  // ---------------------------------------------------------------- classes that were read

  /** The end a method claims for its code is an int, or its length is a negative int. */
  predicate EndFits(m: Method) {
    m.code.Some? && m.codeLen <= INT_MAX ==> m.code.value + m.codeLen <= INT_MAX
  }

  /** A method's code lies in the file exactly if the end it claims fits. */
  predicate Judged(d: seq<byte>, m: Method) {
    GoodMethod(d, m) <==> EndFits(m)
  }

  lemma {:induction false} AttributesJudged(d: seq<byte>, off: int, n: nat, cp: seq<Entry>, m: Method, cut: bool)
    requires |d| <= INT_MAX && Judged(d, m) && ReadAttributes(d, off, n, cp, m, cut).Ok?
    ensures Judged(d, ReadAttributes(d, off, n, cp, m, cut).value.0)
    ensures !cut && GoodMethod(d, m) ==> GoodMethod(d, ReadAttributes(d, off, n, cp, m, cut).value.0)
    ensures !cut ==> ReadAttributes(d, off, n, cp, m, true) == ReadAttributes(d, off, n, cp, m, cut)
    decreases n
  {
    hide Utf8At, Rd16, Rd32;
    if n > 0 {
      var (info, end) := ReadAttribute(d, off).value;
      var next := if Utf8At(d, cp, Rd16(d, off)) == Some(CODE) then WithCode(d, info, end, m, cut) else Ok(m);
      AttributesJudged(d, end, n - 1, cp, next.value, cut);
    }
  }

  predicate AllJudged(d: seq<byte>, ms: seq<Method>) {
    forall i :: 0 <= i < |ms| ==> Judged(d, ms[i])
  }

  predicate GoodMethods(d: seq<byte>, ms: seq<Method>) {
    forall i :: 0 <= i < |ms| ==> GoodMethod(d, ms[i])
  }

  lemma {:induction false} MethodsJudged(d: seq<byte>, off: int, n: nat, cp: seq<Entry>, ms: seq<Method>, cut: bool)
    requires |d| <= INT_MAX && AllJudged(d, ms) && ReadMethods(d, off, n, cp, ms, cut).Ok?
    ensures AllJudged(d, ReadMethods(d, off, n, cp, ms, cut).value.0)
    ensures !cut && GoodMethods(d, ms) ==> GoodMethods(d, ReadMethods(d, off, n, cp, ms, cut).value.0)
    ensures !cut ==> ReadMethods(d, off, n, cp, ms, true) == ReadMethods(d, off, n, cp, ms, cut)
    decreases n
  {
    hide Rd16, ReadAttributes;
    if n > 0 {
      AttributesJudged(d, off + 8, Rd16(d, off + 6), cp, HeadOf(d, off), cut);
      var (m, end) := ReadAttributes(d, off + 8, Rd16(d, off + 6), cp, HeadOf(d, off), cut).value;
      MethodsJudged(d, end, n - 1, cp, if |ms| < METHOD_MAX then ms + [m] else ms, cut);
    }
  }

  /** Every class that the reader accepts without a sum that leaves an int, well-formed or not, has its code inside the
      file.  Of the classes that are accepted with such sums cut to 32 bits exactly those have their code inside the file
      whose methods claim an end for it that is an int, or a length that is a negative one. */
  lemma ReadClassIsGood(d: seq<byte>, cut: bool := false)
    requires |d| <= SIZE_MAX && ReadClass(d, cut).Ok?
    ensures var p := ReadClass(d, cut).value;
            && (GoodClass(Class(d, p)) <==> forall i :: 0 <= i < |p.methods| ==> EndFits(p.methods[i]))
            && (!cut ==> GoodClass(Class(d, p)) && ReadClass(d, true) == ReadClass(d))
  {
    hide Rd16, Rd32, ReadPool, SkipMembers, ReadMethods, SkipAttributes;
    var (cp, off) := ReadPool(d, 10, Rd16(d, 8) - 1, [EMPTY]).value;
    var at := off + 8 + 2 * Rd16(d, off + 6);
    var end := SkipMembers(d, at + 2, Rd16(d, at)).value;
    MethodsJudged(d, end + 2, Rd16(d, end), cp, [], cut);
  }

  lemma AcceptedIsGood(d: seq<byte>)
    requires |d| <= SIZE_MAX && ReadClass(d).Ok?
    ensures GoodClass(Class(d, ReadClass(d).value))
  {
    hide ReadClass, GoodClass;
    ReadClassIsGood(d);
  }
}
