/** jvm_exec_method of src/commands/java.c: the interpreter loop over arrays. */
module JvmMachine {
  import opened Bytes
  import opened ClassFile
  import opened Jvm
  import opened JvmRun
  import Descriptor
  import opened Wrappers
  import opened Words

  /** How one turn of the loop ends: going on, returning, failing, undefined arithmetic, or a nested call. */
  datatype Status = Go | Ret(v: Option<int32>) | Bad | Ovf | Call(idx: nat)

  /** The step a status stands for. */
  function ToStep(r: Status, f: Frame, printed: seq<Event>): Step {
    match r
    case Go => Next(f, printed)
    case Ret(v) => Done(v)
    case Bad => Fault
    case Ovf => Overflow
    case Call(idx) => Invoke(idx, f)
  }

  /** The local variables of jvm_exec_method. */
  class Activation {
    const cls: Class
    const code: seq<byte>
    const stack: array<int32>
    const locals: array<int32>
    var sp: nat
    var pc: nat

    ghost predicate Valid()
      reads this
    {
      stack.Length == STACK_MAX && locals.Length == LOCALS_MAX && sp <= STACK_MAX && pc <= |code| && stack != locals
    }

    ghost function Abs(): Frame
      reads this, stack, locals
      requires Valid()
    {
      Frame(pc, stack[..sp], locals[..])
    }

    constructor (c: Class, body: seq<byte>, args: seq<int32>)
      requires |args| <= LOCALS_MAX
      ensures Valid() && cls == c && code == body && Abs() == NewFrame(args)
      ensures fresh(stack) && fresh(locals)
    {
      cls, code, sp, pc := c, body, 0, 0;
      stack := new int32[STACK_MAX](_ => 0);
      locals := new int32[LOCALS_MAX](_ => 0);
      new;
      for i := 0 to |args|
        invariant Valid() && sp == 0 && pc == 0
        invariant forall k :: 0 <= k < LOCALS_MAX ==> locals[k] == if k < i then args[k] else 0
      {
        locals[i] := args[i];
      }
      assert locals[..] == NewFrame(args).locals;
    }

    method Push(v: int32)
      requires Valid() && sp < STACK_MAX
      modifies this`sp, stack
      ensures Valid() && Abs() == old(Abs()).(stack := old(Abs()).stack + [v]) && sp == old(sp) + 1
    {
      stack[sp] := v;
      sp := sp + 1;
    }

    method Pop() returns (v: int32)
      requires Valid() && sp > 0
      modifies this`sp
      ensures Valid() && sp == old(sp) - 1 && v == old(Abs()).stack[sp]
      ensures Abs() == old(Abs()).(stack := old(Abs()).stack[..sp])
    {
      sp := sp - 1;
      v := stack[sp];
    }

    /** One operand byte. */
    method Fetch() returns (b: byte)
      requires Valid() && pc < |code|
      modifies this`pc
      ensures Valid() && b == code[old(pc)] && pc == old(pc) + 1 && Abs() == old(Abs()).(pc := pc)
    {
      b := code[pc];
      pc := pc + 1;
    }

    /** rd_be16 at the program counter */
    method Fetch2() returns (v: nat)
      requires Valid() && pc + 2 <= |code|
      modifies this`pc
      ensures Valid() && v == Be16(code[old(pc)], code[old(pc) + 1]) && pc == old(pc) + 2
      ensures Abs() == old(Abs()).(pc := pc)
    {
      v := Be16(code[pc], code[pc + 1]);
      pc := pc + 2;
    }

    /** The frame a step started from. */
    ghost function At(at: nat): Frame
      reads this, stack, locals
      requires Valid()
    {
      Abs().(pc := at)
    }

    // -------------------------------------------------------------- instructions

    method DoPush(v: int32) returns (r: Status)
      requires Valid()
      modifies this`sp, stack
      ensures Valid() && forall at :: ToStep(r, Abs(), []) == Execute(cls, code, Instr.Push(v), old(Abs()), at)
    {
      if sp >= STACK_MAX { return Bad; }
      Push(v);
      return Go;
    }

    method DoLoad(idx: nat) returns (r: Status)
      requires Valid()
      modifies this`sp, stack
      ensures Valid() && forall at :: ToStep(r, Abs(), []) == Execute(cls, code, Load(idx), old(Abs()), at)
    {
      if sp >= STACK_MAX || idx >= LOCALS_MAX { return Bad; }
      Push(locals[idx]);
      return Go;
    }

    method DoStore(idx: nat) returns (r: Status)
      requires Valid()
      modifies this`sp, locals
      ensures Valid() && forall at :: ToStep(r, Abs(), []) == Execute(cls, code, Store(idx), old(Abs()), at)
    {
      if sp < 1 || idx >= LOCALS_MAX { return Bad; }
      var v := Pop();
      locals[idx] := v;
      return Go;
    }

    method DoPop() returns (r: Status)
      requires Valid()
      modifies this`sp
      ensures Valid() && forall at :: ToStep(r, Abs(), []) == Execute(cls, code, Instr.Pop, old(Abs()), at)
    {
      if sp < 1 { return Bad; }
      sp := sp - 1;
      return Go;
    }

    method DoDup() returns (r: Status)
      requires Valid()
      modifies this`sp, stack
      ensures Valid() && forall at :: ToStep(r, Abs(), []) == Execute(cls, code, Dup, old(Abs()), at)
    {
      if sp < 1 || sp >= STACK_MAX { return Bad; }
      stack[sp] := stack[sp - 1];
      sp := sp + 1;
      return Go;
    }

    method DoDupX1() returns (r: Status)
      requires Valid()
      modifies this`sp, stack
      ensures Valid() && forall at :: ToStep(r, Abs(), []) == Execute(cls, code, DupX1, old(Abs()), at)
    {
      if sp < 2 || sp >= STACK_MAX { return Bad; }
      ghost var s := stack[..sp];
      stack[sp] := stack[sp - 1];
      stack[sp - 1] := stack[sp - 2];
      stack[sp - 2] := stack[sp];
      assert stack[..sp - 2] == s[..sp - 2];
      sp := sp + 1;
      assert stack[..sp] == s[..|s| - 2] + [s[|s| - 1], s[|s| - 2], s[|s| - 1]];
      return Go;
    }

    method DoSwap() returns (r: Status)
      requires Valid()
      modifies this`sp, stack
      ensures Valid() && forall at :: ToStep(r, Abs(), []) == Execute(cls, code, Swap, old(Abs()), at)
    {
      if sp < 2 { return Bad; }
      ghost var s := stack[..sp];
      var b := Pop();
      var a := Pop();
      assert Abs().stack == s[..|s| - 2];
      Push(b);
      Push(a);
      assert s[..|s| - 2] + [b] + [a] == s[..|s| - 2] + [b, a];
      return Go;
    }

    method DoBinary(op: BinOp) returns (r: Status)
      requires Valid()
      modifies this`sp, stack
      ensures Valid() && forall at :: ToStep(r, Abs(), []) == Execute(cls, code, Binary(op), old(Abs()), at)
    {
      hide Exact;
      if sp < 2 { return Bad; }
      var b := Pop();
      var a := Pop();
      if (op.Div? || op.Rem?) && b == 0 { return Bad; }
      var v := Exact(op, a, b);
      if !Fits(v) { return Ovf; }
      Push(v);
      return Go;
    }

    method DoNegate() returns (r: Status)
      requires Valid()
      modifies this`sp, stack
      ensures Valid() && forall at :: ToStep(r, Abs(), []) == Execute(cls, code, Negate, old(Abs()), at)
    {
      if sp < 1 { return Bad; }
      var a := Pop();
      var v: int := Exact(Sub, 0, a);
      if !Fits(v) { return Ovf; }
      Push(v);
      return Go;
    }

    method DoIinc(idx: nat, c: int32) returns (r: Status)
      requires Valid()
      modifies locals
      ensures Valid() && forall at :: ToStep(r, Abs(), []) == Execute(cls, code, Iinc(idx, c), old(Abs()), at)
    {
      if idx >= LOCALS_MAX { return Bad; }
      var v: int := locals[idx] + c;
      if !Fits(v) { return Ovf; }
      locals[idx] := v;
      return Go;
    }

    /** The jump of a branch that is taken. */
    method Jump(at: nat, rel: int, take: bool) returns (r: Status)
      requires Valid()
      modifies this`pc
      ensures Valid() && ToStep(r, Abs(), []) == Branch(old(Abs()), at, rel, take, code)
    {
      if take {
        var dst := at + rel;
        if !Fits(dst) { return Ovf; }
        if dst < 0 || dst >= |code| { return Bad; }
        pc := dst;
      }
      return Go;
    }

    method DoIf(cond: Cond, at: nat, rel: int) returns (r: Status)
      requires Valid()
      modifies this`sp, this`pc
      ensures Valid() && ToStep(r, Abs(), []) == Execute(cls, code, If(cond, rel), old(Abs()), at)
    {
      if sp < 1 { return Bad; }
      var v := Pop();
      r := Jump(at, rel, Holds(cond, v, 0));
    }

    method DoIfCmp(cond: Cond, at: nat, rel: int) returns (r: Status)
      requires Valid()
      modifies this`sp, this`pc
      ensures Valid() && ToStep(r, Abs(), []) == Execute(cls, code, IfCmp(cond, rel), old(Abs()), at)
    {
      if sp < 2 { return Bad; }
      var b := Pop();
      var a := Pop();
      r := Jump(at, rel, Holds(cond, a, b));
    }

    method DoGoto(at: nat, rel: int) returns (r: Status)
      requires Valid()
      modifies this`pc
      ensures Valid() && ToStep(r, Abs(), []) == Execute(cls, code, Goto(rel), old(Abs()), at)
    {
      r := Jump(at, rel, true);
    }

    method DoReturn() returns (r: Status)
      requires Valid()
      modifies this`sp
      ensures Valid() && forall at :: ToStep(r, Abs(), []) == Execute(cls, code, ReturnValue, old(Abs()), at)
    {
      if sp < 1 { return Bad; }
      var v := Pop();
      return Ret(Some(v));
    }

    /** jvm_push_ldc */
    method DoLdc(idx: nat) returns (r: Status)
      requires Valid()
      modifies this`sp, stack
      ensures Valid() && forall at :: ToStep(r, Abs(), []) == Execute(cls, code, Constant(idx), old(Abs()), at)
    {
      if idx == 0 || idx >= |cls.p.cp| { return Bad; }
      if sp >= STACK_MAX { return Bad; }
      var e := cls.p.cp[idx];
      if e.tag == 3 {
        Push(Signed32(e.a % 0x1_0000_0000));
        return Go;
      }
      if e.tag == 8 {
        Push(STRING_FLAG + e.a % 0x1_0000);
        return Go;
      }
      return Bad;
    }

    method DoNew(idx: nat) returns (r: Status)
      requires Valid()
      modifies this`sp, stack
      ensures Valid() && forall at :: ToStep(r, Abs(), []) == Execute(cls, code, New(idx), old(Abs()), at)
    {
      if sp >= STACK_MAX { return Bad; }
      if idx == 0 || idx >= |cls.p.cp| || cls.p.cp[idx].tag != 7 { return Bad; }
      Push(OBJECT_FLAG + idx % 0x1_0000);
      return Go;
    }

    /** The arguments of a call, the last on top. */
    method PopArgs(argc: nat) returns (argv: seq<int32>)
      requires Valid() && argc <= 8 && argc <= sp
      modifies this`sp
      ensures Valid() && sp == old(sp) - argc && argv == old(Abs()).stack[sp..]
      ensures Abs() == old(Abs()).(stack := old(Abs()).stack[..sp])
    {
      ghost var s := stack[..sp];
      var a := new int32[8](_ => 0);
      for i := argc downto 0
        invariant Valid() && sp == old(sp) - (argc - i)
        invariant forall k :: i <= k < argc ==> a[k] == s[old(sp) - argc + k]
      {
        sp := sp - 1;
        a[i] := stack[sp];
      }
      argv := a[..argc];
    }

    method DoGetStatic(idx: nat) returns (r: Status)
      requires Valid()
      modifies this`sp, stack
      ensures Valid() && forall at :: ToStep(r, Abs(), []) == Execute(cls, code, GetStatic(idx), old(Abs()), at)
    {
      hide Resolve, Lit;
      if sp >= STACK_MAX { return Bad; }
      var ref := Resolve(cls, idx, 9);
      if ref.None? { return Bad; }
      if ref.value.cls == Lit("java/lang/System") && (ref.value.name == Lit("out") || ref.value.name == Lit("err"))
         && ref.value.desc == Lit("Ljava/io/PrintStream;") {
        Push(PRINTSTREAM);
        return Go;
      }
      return Bad;
    }

    /** The part that invokevirtual and invokespecial share: the reference, the arguments and the object are popped. */
    method PopCall(idx: nat) returns (ok: bool, ref: Reference, kind: Descriptor.Kind, argv: seq<int32>, obj: int32)
      requires Valid()
      modifies this`sp
      ensures Valid() && (ok <==> Arity(old(Abs()), Resolve(cls, idx, 10), 1).Some?)
      ensures ok ==> Resolve(cls, idx, 10) == Some(ref) && Arity(old(Abs()), Some(ref), 1) == Some((|argv|, kind))
      ensures ok ==> sp == old(sp) - |argv| - 1 && argv == old(Abs()).stack[sp + 1..] && obj == old(Abs()).stack[sp]
      ensures ok ==> Abs() == old(Abs()).(stack := old(Abs()).stack[..sp])
    {
      hide Resolve, Descriptor.DescArgs;
      ok, ref, kind, argv, obj := false, Reference([], [], []), Descriptor.V, [], 0;
      var res := Resolve(cls, idx, 10);
      if res.None? { return; }
      ref := res.value;
      var args := Descriptor.CountArgs(ref.desc);
      if args.None? { return; }
      var argc := args.value.0;
      kind := args.value.1;
      if argc > 8 || sp < argc + 1 { return; }
      argv := PopArgs(argc);
      obj := Pop();
      ok := true;
    }

    method DoVirtual(idx: nat) returns (r: Status, printed: seq<Event>)
      requires Valid()
      modifies this`sp
      ensures Valid() && ToStep(r, Abs(), printed) == Virtual(cls, old(Abs()), idx)
    {
      hide Resolve, Lit, Arity, HasFlag, StringOf;
      printed := [];
      SecondCharacters();
      var ok, ref, kind, argv, obj := PopCall(idx);
      if !ok { return Bad, []; }
      if ref.cls == Lit("java/io/PrintStream") && (ref.name == Lit("print") || ref.name == Lit("println"))
         && obj == PRINTSTREAM {
        var newline, item := ref.name == Lit("println"), Nothing;
        if ref.desc == Lit("()V") {
        } else if ref.desc == Lit("(I)V") || ref.desc == Lit("(S)V") || ref.desc == Lit("(B)V")
                  || ref.desc == Lit("(C)V") || ref.desc == Lit("(Z)V") {
          if |argv| != 1 { return Bad, []; }
          item := PrintNumber(cls, ref.desc, argv[0]);
          assert argv == [argv[0]];
        } else if ref.desc == Lit("(Ljava/lang/String;)V") {
          if |argv| != 1 { return Bad, []; }
          item := StringOf(cls, argv[0]);
        } else {
          return Bad, [];
        }
        return Go, [Event(item, newline)];
      }
      return Bad, [];
    }

    method DoSpecial(idx: nat) returns (r: Status)
      requires Valid()
      modifies this`sp
      ensures Valid() && ToStep(r, Abs(), []) == Special(cls, old(Abs()), idx)
    {
      hide Resolve, Lit, Arity, HasFlag;
      var ok, ref, kind, argv, obj := PopCall(idx);
      if !ok { return Bad; }
      if !HasFlag(obj, OBJECT_FLAG) { return Bad; }
      if ref.name == Lit("<init>") {
        if kind != Descriptor.V { return Bad; }
        return Go;
      }
      return Bad;
    }

    // -------------------------------------------------------------- dispatch

    ghost predicate Fetched(op: nat, at: nat)
      reads this
    {
      Valid() && at < |code| && pc == at + 1 && op == code[at]
    }

    /** nop, the constants, bipush, sipush, ldc and ldc_w */
    method Constants(op: nat, at: nat) returns (r: Status)
      requires Fetched(op, at) && op <= 0x13
      modifies this`sp, this`pc, stack
      ensures Valid() && ToStep(r, Abs(), []) == StepOf(cls, code, old(At(at)))
    {
      hide Execute, Be16;
      if op == 0x00 {
        NopDoesNothing(cls, code, Abs(), at);
        return Go;
      } else if op == 0x01 {
        r := DoPush(0);
      } else if 0x02 <= op <= 0x08 {
        r := DoPush(op - 0x03);
      } else if op == 0x10 {
        if pc >= |code| { return Bad; }
        var b := Fetch();
        r := DoPush(Signed8(b));
      } else if op == 0x11 {
        if pc + 2 > |code| { return Bad; }
        var v := Fetch2();
        r := DoPush(Signed16(v));
      } else if op == 0x12 {
        if pc >= |code| { return Bad; }
        var b := Fetch();
        r := DoLdc(b);
      } else if op == 0x13 {
        if pc + 2 > |code| { return Bad; }
        var v := Fetch2();
        r := DoLdc(v);
      } else {
        return Bad;
      }
    }

    /** Loading and storing local variables. */
    method Variables(op: nat, at: nat) returns (r: Status)
      requires Fetched(op, at) && 0x14 <= op <= 0x4e
      modifies this`sp, this`pc, stack, locals
      ensures Valid() && ToStep(r, Abs(), []) == StepOf(cls, code, old(At(at)))
    {
      hide Execute, Be16;
      if op == 0x15 || op == 0x19 {
        if pc >= |code| { return Bad; }
        var idx := Fetch();
        r := DoLoad(idx);
      } else if 0x1a <= op <= 0x1d {
        r := DoLoad(op - 0x1a);
      } else if 0x2a <= op <= 0x2d {
        r := DoLoad(op - 0x2a);
      } else if op == 0x36 || op == 0x3a {
        if pc >= |code| { return Bad; }
        var idx := Fetch();
        r := DoStore(idx);
      } else if 0x3b <= op <= 0x3e {
        r := DoStore(op - 0x3b);
      } else if 0x4b <= op <= 0x4e {
        r := DoStore(op - 0x4b);
      } else {
        return Bad;
      }
    }

    /** Stack manipulation, arithmetic and iinc. */
    method Arithmetic(op: nat, at: nat) returns (r: Status)
      requires Fetched(op, at) && 0x4f <= op <= 0x84
      modifies this`sp, this`pc, stack, locals
      ensures Valid() && ToStep(r, Abs(), []) == StepOf(cls, code, old(At(at)))
    {
      hide Execute, Be16;
      if op == 0x57 {
        r := DoPop();
      } else if op == 0x59 {
        r := DoDup();
      } else if op == 0x5a {
        r := DoDupX1();
      } else if op == 0x5f {
        r := DoSwap();
      } else if op == 0x74 {
        r := DoNegate();
      } else if op == 0x84 {
        if pc + 2 > |code| { return Bad; }
        var idx := Fetch();
        var c := Fetch();
        r := DoIinc(idx, Signed8(c));
      } else if OpOf(op).Some? {
        r := DoBinary(OpOf(op).value);
      } else {
        return Bad;
      }
    }

    /** Branches and returns. */
    method Control(op: nat, at: nat) returns (r: Status)
      requires Fetched(op, at) && 0x85 <= op <= 0xb1
      modifies this`sp, this`pc
      ensures Valid() && ToStep(r, Abs(), []) == StepOf(cls, code, old(At(at)))
    {
      hide Execute, Be16;
      if 0x99 <= op <= 0xa7 {
        if pc + 2 > |code| { return Bad; }
        var v := Fetch2();
        var rel := Signed16(v);
        if op <= 0x9e {
          r := DoIf(CondOf(op - 0x99), at, rel);
        } else if op <= 0xa4 {
          r := DoIfCmp(CondOf(op - 0x9f), at, rel);
        } else if op <= 0xa6 {
          r := DoIfCmp(CondOf(op - 0xa5), at, rel);
        } else {
          r := DoGoto(at, rel);
        }
      } else if op == 0xac || op == 0xb0 {
        r := DoReturn();
      } else if op == 0xb1 {
        VoidReturns(cls, code, Abs(), at);
        return Ret(None);
      } else {
        return Bad;
      }
    }

    /** References, calls, null tests and goto_w. */
    method References(op: nat, at: nat) returns (r: Status, printed: seq<Event>)
      requires Fetched(op, at) && 0xb2 <= op
      modifies this`sp, this`pc, stack
      ensures Valid() && ToStep(r, Abs(), printed) == StepOf(cls, code, old(At(at)))
    {
      hide Execute, Be16, Rd32, Be32, Virtual, Special;
      printed := [];
      if op == 0xc8 {
        if pc + 4 > |code| { return Bad, []; }
        var rel := Signed32(Rd32(code, pc));
        pc := pc + 4;
        r := DoGoto(at, rel);
        return;
      }
      if pc + 2 > |code| { return Bad, []; }
      var v := Fetch2();
      CallsStandAlone(cls, code, Abs(), v, at);
      if op == 0xb2 {
        r := DoGetStatic(v);
      } else if op == 0xb6 {
        r, printed := DoVirtual(v);
      } else if op == 0xb7 {
        r := DoSpecial(v);
      } else if op == 0xb8 {
        return Call(v), [];
      } else if op == 0xbb {
        r := DoNew(v);
      } else if op == 0xc6 || op == 0xc7 {
        r := DoIf(CondOf(op - 0xc6), at, Signed16(v));
      } else {
        return Bad, [];
      }
    }

    /** One turn of the loop of jvm_exec_method, up to a nested call. */
    method Step() returns (r: Status, printed: seq<Event>)
      requires Valid() && pc < |code|
      modifies this`sp, this`pc, stack, locals
      ensures Valid() && ToStep(r, Abs(), printed) == StepOf(cls, code, old(Abs()))
    {
      hide StepOf;
      var at, op := pc, code[pc] as nat;
      printed := [];
      pc := pc + 1;
      assert At(at) == old(Abs());
      if op <= 0x13 {
        r := Constants(op, at);
      } else if op <= 0x4e {
        r := Variables(op, at);
      } else if op <= 0x84 {
        r := Arithmetic(op, at);
      } else if op <= 0xb1 {
        r := Control(op, at);
      } else {
        r, printed := References(op, at);
      }
    }

    /** The part of invokestatic before the call: its method is found and its arguments popped. */
    method Enter(jar: Jar, idx: nat) returns (t: Option<Target>)
      requires Valid()
      modifies this`sp
      ensures Valid() && t == TargetOf(jar, cls, old(Abs()), idx)
      ensures t.Some? ==> Abs() == t.value.rest
    {
      hide Resolve, FindStatic, TargetClass, Descriptor.DescArgs;
      var ref := Resolve(cls, idx, 10);
      if ref.None? { return None; }
      var args := Descriptor.CountArgs(ref.value.desc);
      if args.None? { return None; }
      var argc := args.value.0;
      if argc > 8 || sp < argc { return None; }
      var argv := PopArgs(argc);
      var target := TargetClass(jar, cls, ref.value.cls);
      if target.None? { return None; }
      var m := FindMethod(target.value, ref.value.name, ref.value.desc);
      if m.None? { return None; }
      return Some(Target(target.value, m.value, argv, Frame(pc, stack[..sp], locals[..]), args.value.1));
    }

    /** The part of invokestatic after the call. */
    method Leave(ghost t: Target, kind: Descriptor.Kind, ret: Option<int32>) returns (ok: bool)
      requires Valid() && Abs() == t.rest && kind == t.kind
      modifies this`sp, stack
      ensures Valid() && (ok <==> Returned(t, ret).Some?)
      ensures ok ==> Abs() == Returned(t, ret).value
    {
      if kind != Descriptor.V {
        if ret.None? { return false; }
        if sp >= STACK_MAX { return false; }
        Push(ret.value);
      }
      return true;
    }
  }

  /** jvm_find_method_bytes */
  method FindMethod(c: Class, name: seq<byte>, desc: seq<byte>) returns (m: Option<Method>)
    ensures m == FindStatic(c, 0, name, desc)
  {
    hide IsNamed;
    for i := 0 to |c.p.methods|
      invariant FindStatic(c, 0, name, desc) == FindStatic(c, i, name, desc)
    {
      if IsNamed(c, c.p.methods[i], name, desc) { return Some(c.p.methods[i]); }
    }
    return None;
  }

  lemma AfterTwice(p: seq<Event>, n: nat, q: seq<Event>, k: nat, o: Outcome)
    ensures After(p, n, After(q, k, o)) == After(p + q, Max(n, k), o)
    ensures Max(n, 0) == n
  {
    assert p + (q + o.printed) == (p + q) + o.printed;
  }

  /** jvm_exec_method */
  method Exec(jar: Jar, c: Class, m: Method, args: seq<int32>, depth: nat, limit: nat) returns (o: Outcome)
    requires GoodJar(jar) && GoodClass(c) && GoodMethod(c.bytes, m) && depth <= DEPTH_MAX + 1
    ensures o == RunMethod(jar, c, m, args, depth, limit)
    decreases DEPTH_MAX + 1 - depth, 2
  {
    hide StepOf, TargetOf, Returned, GoodJar, GoodClass, GoodMethod, CodeBytes, NewFrame, After;
    if m.code.None? || m.codeLen == 0 { return Outcome(Failed, [], 0); }
    if depth > DEPTH_MAX { return Outcome(Failed, [], 0); }
    if |args| > LOCALS_MAX { return Outcome(Failed, [], 0); }
    var a := new Activation(c, CodeBytes(c, m), args);
    o := Loop(a, jar, depth, limit);
    o := o.(frames := o.frames + 1);
  }

  /** invokestatic */
  method CallStatic(a: Activation, jar: Jar, idx: nat, depth: nat, limit: nat) returns (o: Outcome, ok: bool)
    requires a.Valid() && GoodJar(jar) && GoodClass(a.cls) && depth <= DEPTH_MAX
    modifies a`sp, a.stack
    ensures a.Valid()
    ensures var (p, back) := RunCall(jar, a.cls, old(a.Abs()), idx, depth, limit);
            o == p && (ok <==> back.Some?) && (ok ==> a.Abs() == back.value)
    decreases DEPTH_MAX + 1 - depth, 0
  {
    hide TargetOf, Returned, GoodJar, GoodClass, GoodMethod, RunMethod;
    TargetIsGood(jar, a.cls, a.Abs(), idx);
    var t := a.Enter(jar, idx);
    if t.None? { return Outcome(Failed, [], 0), false; }
    o := Exec(jar, t.value.cls, t.value.m, t.value.args, depth + 1, limit);
    if !o.end.Finished? { return o, false; }
    ok := a.Leave(t.value, t.value.kind, o.end.ret);
    if !ok { o := o.(end := Failed); }
  }

  /** The loop of jvm_exec_method over a frame. */
  method Loop(a: Activation, jar: Jar, depth: nat, limit: nat) returns (o: Outcome)
    requires a.Valid() && GoodJar(jar) && GoodClass(a.cls) && depth <= DEPTH_MAX
    modifies a, a.stack, a.locals
    ensures o == RunLoop(jar, a.cls, a.code, old(a.Abs()), depth, limit, limit)
    decreases DEPTH_MAX + 1 - depth, 1
  {
    hide StepOf, RunCall, GoodJar, GoodClass, After, Max;
    var printed: seq<Event>, frames: nat, left := [], 0, limit;
    ghost var all := RunLoop(jar, a.cls, a.code, a.Abs(), depth, limit, limit);
    NothingYet(all);
    while a.pc < |a.code|
      invariant a.Valid()
      invariant all == After(printed, frames, RunLoop(jar, a.cls, a.code, a.Abs(), depth, limit, left))
      decreases left
    {
      AfterEnd(printed, frames);
      if left == 0 { return Outcome(Running, printed, frames); }
      left := left - 1;
      StepKeepsLocals(a.cls, a.code, a.Abs());
      var r, out := a.Step();
      match r
      case Go =>
        AfterTwice(printed, frames, out, 0, RunLoop(jar, a.cls, a.code, a.Abs(), depth, limit, left));
        printed := printed + out;
      case Bad => return Outcome(Failed, printed, frames);
      case Ovf => return Outcome(Undefined, printed, frames);
      case Ret(v) => return Outcome(Finished(v), printed, frames);
      case Call(idx) =>
        var child, ok := CallStatic(a, jar, idx, depth, limit);
        if !ok { return After(printed, frames, child); }
        AfterTwice(printed, frames, child.printed, child.frames,
                   RunLoop(jar, a.cls, a.code, a.Abs(), depth, limit, left));
        printed, frames := printed + child.printed, Max(frames, child.frames);
    }
    AfterEnd(printed, frames);
    return Outcome(Finished(None), printed, frames);
  }

  lemma NothingYet(o: Outcome)
    ensures After([], 0, o) == o
  {
  }

  /** A run that ends here prints no more and nests no deeper. */
  lemma AfterEnd(p: seq<Event>, n: nat)
    ensures forall end: End :: After(p, n, Outcome(end, [], 0)) == Outcome(end, p, n)
  {
  }

  lemma NopDoesNothing(c: Class, code: seq<byte>, f: Frame, at: nat)
    requires |f.locals| == LOCALS_MAX
    ensures Execute(c, code, Nop, f, at) == Next(f, [])
  {
  }

  lemma VoidReturns(c: Class, code: seq<byte>, f: Frame, at: nat)
    requires |f.locals| == LOCALS_MAX
    ensures Execute(c, code, ReturnVoid, f, at) == Done(None)
  {
  }

  lemma CallsStandAlone(c: Class, code: seq<byte>, f: Frame, idx: nat, at: nat)
    requires |f.locals| == LOCALS_MAX
    ensures Execute(c, code, InvokeVirtual(idx), f, at) == Virtual(c, f, idx)
    ensures Execute(c, code, InvokeSpecial(idx), f, at) == Special(c, f, idx)
    ensures Execute(c, code, InvokeStatic(idx), f, at) == Invoke(idx, f)
  {
    hide Virtual, Special, Exact, Branch, Pushed, Ldc, Resolve, Tag;
  }

  lemma {:induction false} LitAt(s: string, i: nat)
    requires i < |s|
    ensures |Lit(s)| == |s| && Lit(s)[i] == Descriptor.Ch(s[i])
    decreases |s|
  {
    if |s| > 1 {
      LitAt(s[1..], if i == 0 then 0 else i - 1);
    }
  }

  predicate IsNumeric(desc: seq<byte>) {
    desc == Lit("(I)V") || desc == Lit("(S)V") || desc == Lit("(B)V") || desc == Lit("(C)V") || desc == Lit("(Z)V")
  }

  /** The descriptors are told apart by their second character. */
  lemma SecondCharacters()
    ensures !IsNumeric(Lit("()V")) && !IsNumeric(Lit("(Ljava/lang/String;)V")) && Lit("()V") != Lit("(Ljava/lang/String;)V")
    ensures Lit("(Z)V") != Lit("(I)V") && Lit("(Z)V") != Lit("(S)V") && Lit("(Z)V") != Lit("(B)V")
    ensures Lit("(C)V") != Lit("(I)V") && Lit("(C)V") != Lit("(S)V") && Lit("(C)V") != Lit("(B)V")
    ensures Lit("(Z)V") != Lit("(C)V")
  {
    hide Lit;
    LitAt("()V", 1);
    LitAt("(I)V", 1);
    LitAt("(S)V", 1);
    LitAt("(B)V", 1);
    LitAt("(C)V", 1);
    LitAt("(Z)V", 1);
    LitAt("(Ljava/lang/String;)V", 1);
  }

  /** What is printed for a number, by descriptor. */
  method PrintNumber(ghost c: Class, desc: seq<byte>, v: int32) returns (item: Item)
    requires IsNumeric(desc)
    ensures Printed(c, desc, [v]) == Some(item)
  {
    hide Lit;
    SecondCharacters();
    if desc == Lit("(Z)V") { return Truth(v != 0); }
    if desc == Lit("(C)V") { return Character(v); }
    return Number(v);
  }

  // ---------------------------------------------------------------- a program

  /** The entry point of a class and the arguments it gets. */
  function MainOf(c: Class): Option<(Method, seq<int32>)> {
    hide Lit, IsFirst, IsNamed;
    var m := FindStatic(c, 0, Lit("main"), Lit("([Ljava/lang/String;)V"));
    if m.Some? then Some((m.value, [0]))
    else
      var n := FindStatic(c, 0, Lit("main"), Lit("()V"));
      if n.Some? then Some((n.value, [])) else None
  }

  /** What running a class file comes to; `Wild` as for reading it. */
  function RunClass(data: seq<byte>, jar: Jar, limit: nat): Result<Outcome>
    requires |data| <= SIZE_MAX && GoodJar(jar)
  {
    hide ReadClass;
    match ReadClass(data)
    case Reject => Reject
    case Wild => Wild
    case Ok(p) =>
      AcceptedIsGood(data);
      match MainOf(Class(data, p))
      case None => Reject
      case Some((m, args)) => Ok(RunMethod(jar, Class(data, p), m, args, 0, limit))
  }

  /** jvm_execute_class_with_rt */
  method ExecuteClass(data: seq<byte>, jar: Jar, limit: nat) returns (r: Result<Outcome>)
    requires |data| <= SIZE_MAX && GoodJar(jar)
    ensures r == RunClass(data, jar, limit)
    ensures r.Ok? ==> r.value.frames <= DEPTH_MAX + 1
  {
    hide RunMethod, ReadClass, FindStatic, Lit, GoodJar;
    var loader := new Loader(data);
    var loaded := loader.Load();
    if loaded.Wild? { return Wild; }
    if loaded.Reject? { return Reject; }
    var c := Class(data, Parsed(loader.minor, loader.major, loader.cp[..loader.cpCount], loader.thisClass,
                                loader.methods[..loader.methodsCount]));
    AcceptedIsGood(data);
    var args: seq<int32> := [0];
    var m := FindMethod(c, Lit("main"), Lit("([Ljava/lang/String;)V"));
    if m.None? {
      m := FindMethod(c, Lit("main"), Lit("()V"));
      args := [];
    }
    if m.None? { return Reject; }
    FramesBound(jar, c, m.value, args, 0, limit);
    var o := Exec(jar, c, m.value, args, 0, limit);
    return Ok(o);
  }
}
