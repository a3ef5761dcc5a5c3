/** What the interpreter of src/commands/java.c does: frames with a stack of values, instruction by instruction. */
module Jvm {
  import opened Bytes
  import opened ClassFile
  import Descriptor
  import opened Wrappers
  import opened Words

  const STACK_MAX: nat := 256
  const LOCALS_MAX: nat := 64
  const DEPTH_MAX: nat := 12

  type int32 = x: int | -0x8000_0000 <= x < 0x8000_0000

  const PRINTSTREAM: int32 := 0x7F00_0001
  const STRING_FLAG: int32 := 0x4000_0000
  const OBJECT_FLAG: int32 := 0x2000_0000

  /** A class that was read, with the file it points into. */
  datatype Class = Class(bytes: seq<byte>, p: Parsed)

  /** The classes of the jar by name. */
  type Jar = map<seq<byte>, Class>

  datatype Cond = Eq | Ne | Lt | Ge | Gt | Le

  datatype BinOp = Add | Sub | Mul | Div | Rem | Shl | Shr | Ushr | And | Or | Xor

  datatype Instr =
    | Nop
    | Push(v: int32)
    | Constant(idx: nat)
    | Load(i: nat)
    | Store(i: nat)
    | Pop
    | Dup
    | DupX1
    | Swap
    | Binary(op: BinOp)
    | Negate
    | Iinc(i: nat, c: int32)
    | If(cond: Cond, rel: int)
    | IfCmp(cond: Cond, rel: int)
    | Goto(rel: int)
    | ReturnValue
    | ReturnVoid
    | GetStatic(idx: nat)
    | InvokeVirtual(idx: nat)
    | InvokeSpecial(idx: nat)
    | InvokeStatic(idx: nat)
    | New(idx: nat)

  // ---------------------------------------------------------------- decoding

  function Signed8(b: byte): int32 {
    if b < 128 then b else b - 256
  }

  function Signed16(v: nat): int32
    requires v < 0x1_0000
  {
    if v < 0x8000 then v else v - 0x1_0000
  }

  function Signed32(v: nat): int32
    requires v < 0x1_0000_0000
  {
    if v < 0x8000_0000 then v else v - 0x1_0000_0000
  }

  function CondOf(k: nat): Cond {
    if k == 0 then Eq else if k == 1 then Ne else if k == 2 then Lt else if k == 3 then Ge else if k == 4 then Gt else Le
  }

  /** Instructions without operands. */
  function Plain(op: nat): Option<Instr> {
    if op == 0x00 then Some(Nop)
    else if op == 0x01 then Some(Push(0))
    else if 0x02 <= op <= 0x08 then Some(Push(op - 3))
    else if 0x1a <= op <= 0x1d then Some(Load(op - 0x1a))
    else if 0x2a <= op <= 0x2d then Some(Load(op - 0x2a))
    else if 0x3b <= op <= 0x3e then Some(Store(op - 0x3b))
    else if 0x4b <= op <= 0x4e then Some(Store(op - 0x4b))
    else if op == 0x57 then Some(Pop)
    else if op == 0x59 then Some(Dup)
    else if op == 0x5a then Some(DupX1)
    else if op == 0x5f then Some(Swap)
    else if op == 0x74 then Some(Negate)
    else if op == 0xac || op == 0xb0 then Some(ReturnValue)
    else if op == 0xb1 then Some(ReturnVoid)
    else if OpOf(op).Some? then Some(Binary(OpOf(op).value))
    else None
  }

  function OpOf(op: nat): Option<BinOp> {
    match op
    case 0x60 => Some(Add)
    case 0x64 => Some(Sub)
    case 0x68 => Some(Mul)
    case 0x6c => Some(Div)
    case 0x70 => Some(Rem)
    case 0x78 => Some(Shl)
    case 0x7a => Some(Shr)
    case 0x7c => Some(Ushr)
    case 0x7e => Some(And)
    case 0x80 => Some(Or)
    case 0x82 => Some(Xor)
    case _ => None
  }

  /** Instructions with one operand byte. */
  function Short(op: nat, b: byte): Option<Instr> {
    match op
    case 0x10 => Some(Push(Signed8(b)))
    case 0x12 => Some(Constant(b))
    case 0x15 | 0x19 => Some(Load(b))
    case 0x36 | 0x3a => Some(Store(b))
    case _ => None
  }

  /** Instructions with two operand bytes. */
  function Long(op: nat, b: byte, c: byte): Option<Instr> {
    var v := Be16(b, c);
    if op == 0x11 then Some(Push(Signed16(v)))
    else if op == 0x13 then Some(Constant(v))
    else if op == 0x84 then Some(Iinc(b, Signed8(c)))
    else if 0x99 <= op <= 0x9e then Some(If(CondOf(op - 0x99), Signed16(v)))
    else if 0x9f <= op <= 0xa4 then Some(IfCmp(CondOf(op - 0x9f), Signed16(v)))
    else if 0xa5 <= op <= 0xa6 then Some(IfCmp(CondOf(op - 0xa5), Signed16(v)))
    else if op == 0xa7 then Some(Goto(Signed16(v)))
    else if 0xc6 <= op <= 0xc7 then Some(If(CondOf(op - 0xc6), Signed16(v)))
    else if op == 0xb2 then Some(GetStatic(v))
    else if op == 0xb6 then Some(InvokeVirtual(v))
    else if op == 0xb7 then Some(InvokeSpecial(v))
    else if op == 0xb8 then Some(InvokeStatic(v))
    else if op == 0xbb then Some(New(v))
    else None
  }

  /** The instruction at `pc` and its length; nothing if it is unknown or cut off. */
  function Decode(code: seq<byte>, pc: nat): (r: Option<(Instr, nat)>)
    requires pc < |code|
    ensures r.Some? ==> 1 <= r.value.1 && pc + r.value.1 <= |code|
  {
    var op: nat := code[pc];
    if Plain(op).Some? then Some((Plain(op).value, 1))
    else if pc + 2 > |code| then None
    else if Short(op, code[pc + 1]).Some? then Some((Short(op, code[pc + 1]).value, 2))
    else if pc + 3 > |code| then None
    else if Long(op, code[pc + 1], code[pc + 2]).Some? then Some((Long(op, code[pc + 1], code[pc + 2]).value, 3))
    else if op == 0xc8 && pc + 5 <= |code| then Some((Goto(Signed32(Rd32(code, pc + 1))), 5))
    else None
  }

  // ---------------------------------------------------------------- arithmetic

  predicate Fits(v: int) {
    -0x8000_0000 <= v < 0x8000_0000
  }

  /** The bits of an int32 as an unsigned word. */
  function Word(v: int32): (w: nat)
    ensures w < 0x1_0000_0000
  {
    if v >= 0 then v else v + 0x1_0000_0000
  }

  function Pow2(n: nat): (p: nat)
    ensures p > 0
  {
    if n == 0 then 1 else 2 * Pow2(n - 1)
  }

  function Bit(op: BinOp, a: nat, b: nat): (r: nat)
    ensures r <= 1
  {
    var x, y := a % 2, b % 2;
    match op
    case And => if x == 1 && y == 1 then 1 else 0
    case Or => if x == 1 || y == 1 then 1 else 0
    case _ => if x != y then 1 else 0
  }

  /** A bitwise operation on the low n bits. */
  function Bitwise(op: BinOp, a: nat, b: nat, n: nat): (r: nat)
    ensures r < Pow2(n)
  {
    if n == 0 then 0 else 2 * Bitwise(op, a / 2, b / 2, n - 1) + Bit(op, a, b)
  }

  /** The exact result, which C defines only if it is an int32. */
  function Exact(op: BinOp, a: int32, b: int32): int
    requires (op.Div? || op.Rem?) ==> b != 0
  {
    match op
    case Add => a + b
    case Sub => a - b
    case Mul => a * b
    case Div => TruncDiv(a, b)
    case Rem => var q := TruncDiv(a, b); if Fits(q) then a - q * b else q
    case _ => BitResult(op, a, b, Word(b) % 32)
  }

  /** Shifts and bitwise operations; shifting a negative number to the left is never defined. */
  function BitResult(op: BinOp, a: int32, b: int32, n: nat): int {
    match op
    case Shl => if a < 0 then 0x8000_0000 else a * Pow2(n)
    case Shr => a / Pow2(n)
    case Ushr => FromWord(Word(a) / Pow2(n))
    case _ => FromWord(Bitwise(op, Word(a), Word(b), 32))
  }

  function FromWord(w: int): int {
    if w < 0x8000_0000 then w else w - 0x1_0000_0000
  }

  // ---------------------------------------------------------------- constants

  function Lit(s: string): seq<byte> {
    if s == "" then [] else [Descriptor.Ch(s[0])] + Lit(s[1..])
  }

  function Utf8(c: Class, idx: nat): Option<seq<byte>> {
    Utf8At(c.bytes, c.p.cp, idx)
  }

  function Tag(c: Class, idx: nat): nat {
    if idx == 0 || idx >= |c.p.cp| then 0 else c.p.cp[idx].tag
  }

  /** cp_class_name */
  function ClassName(c: Class, idx: nat): Option<seq<byte>> {
    if Tag(c, idx) != 7 then None else Utf8(c, c.p.cp[idx].a % 0x1_0000)
  }

  /** What a field or method reference names: the class, the member and its descriptor. */
  datatype Reference = Reference(cls: seq<byte>, name: seq<byte>, desc: seq<byte>)

  /** cp_resolve_ref with cp_name_type */
  function Resolve(c: Class, idx: nat, tag: nat): Option<Reference>
    requires tag != 0
  {
    if Tag(c, idx) != tag then None
    else
      var e := c.p.cp[idx];
      var nt := e.b % 0x1_0000;
      if Tag(c, nt) != 12 then None
      else
        match (ClassName(c, e.a % 0x1_0000), Utf8(c, c.p.cp[nt].a % 0x1_0000), Utf8(c, c.p.cp[nt].b % 0x1_0000))
        case (Some(cls), Some(name), Some(desc)) => Some(Reference(cls, name, desc))
        case _ => None
  }

  predicate IsStatic(m: Method) {
    m.flags / 8 % 2 == 1
  }

  predicate IsNamed(c: Class, m: Method, name: seq<byte>, desc: seq<byte>) {
    IsStatic(m) && Utf8(c, m.name) == Some(name) && Utf8(c, m.desc) == Some(desc)
  }

  predicate IsFirst(c: Class, i: nat, k: nat, name: seq<byte>, desc: seq<byte>)
    requires k < |c.p.methods|
  {
    IsNamed(c, c.p.methods[k], name, desc) && forall j :: i <= j < k ==> !IsNamed(c, c.p.methods[j], name, desc)
  }

  /** The first static method with a name and a descriptor, from the i-th on. */
  function FindStatic(c: Class, i: nat, name: seq<byte>, desc: seq<byte>): (r: Option<Method>)
    ensures match r
            case None => forall k :: i <= k < |c.p.methods| ==> !IsNamed(c, c.p.methods[k], name, desc)
            case Some(m) => exists k :: i <= k < |c.p.methods| && IsFirst(c, i, k, name, desc) && m == c.p.methods[k]
    decreases |c.p.methods| - i
  {
    if i >= |c.p.methods| then None
    else if IsNamed(c, c.p.methods[i], name, desc) then Some(c.p.methods[i])
    else FindStatic(c, i + 1, name, desc)
  }

  /** The class a call goes to: the caller's own, or one from the jar whose entry name fits its buffer. */
  function TargetClass(jar: Jar, c: Class, name: seq<byte>): Option<Class> {
    if ClassName(c, c.p.thisClass) == Some(name) then Some(c)
    else if 0 < |name| && |name| + 7 < 160 && name in jar then Some(jar[name])
    else None
  }

  // ---------------------------------------------------------------- frames

  /** The program counter, the operand stack with its top last, and the local variables. */
  datatype Frame = Frame(pc: nat, stack: seq<int32>, locals: seq<int32>)

  predicate GoodFrame(f: Frame, code: seq<byte>) {
    f.pc <= |code| && |f.stack| <= STACK_MAX && |f.locals| == LOCALS_MAX
  }

  /** What is printed: nothing, a number, a character, a truth value, a string, or a reference that is none. */
  datatype Item = Nothing | Number(v: int32) | Character(v: int32) | Truth(b: bool) | Text(s: seq<byte>)
    | Null | NoString | BadString

  datatype Event = Event(item: Item, newline: bool)

  /** What a step comes to; `Overflow` is arithmetic that C leaves undefined. */
  datatype Step = Next(f: Frame, printed: seq<Event>) | Done(ret: Option<int32>) | Fault | Overflow
    | Invoke(idx: nat, f: Frame)

  predicate Holds(cond: Cond, a: int, b: int) {
    match cond
    case Eq => a == b
    case Ne => a != b
    case Lt => a < b
    case Ge => a >= b
    case Gt => a > b
    case Le => a <= b
  }

  /** The stack after pushing v, unless it is full. */
  function Pushed(f: Frame, v: int32): Step {
    if |f.stack| >= STACK_MAX then Fault else Next(f.(stack := f.stack + [v]), [])
  }

  /** Branching from `at`, if the condition holds; the target is an int and must lie in the code. */
  function Branch(f: Frame, at: nat, rel: int, taken: bool, code: seq<byte>): Step {
    if !taken then Next(f, [])
    else if !Fits(at + rel) then Overflow
    else if at + rel < 0 || at + rel >= |code| then Fault
    else Next(f.(pc := at + rel), [])
  }

  function Ldc(c: Class, idx: nat): Option<int32> {
    if Tag(c, idx) == 3 then Some(Signed32(c.p.cp[idx].a % 0x1_0000_0000))
    else if Tag(c, idx) == 8 then Some(STRING_FLAG + c.p.cp[idx].a % 0x1_0000)
    else None
  }

  predicate HasFlag(v: int32, flag: nat)
    requires flag > 0
  {
    Word(v) / flag % 2 == 1
  }

  /** jvm_print_string_ref */
  function StringOf(c: Class, ref: int32): Item {
    if ref == 0 then Null
    else if !HasFlag(ref, STRING_FLAG) then NoString
    else
      match Utf8(c, Word(ref) % 0x1_0000)
      case None => BadString
      case Some(s) => Text(s)
  }

  /** What a print method of a descriptor prints of its argument. */
  function Printed(c: Class, desc: seq<byte>, args: seq<int32>): Option<Item> {
    if desc == Lit("()V") then Some(Nothing)
    else if |args| != 1 then None
    else if desc == Lit("(I)V") || desc == Lit("(S)V") || desc == Lit("(B)V") then Some(Number(args[0]))
    else if desc == Lit("(C)V") then Some(Character(args[0]))
    else if desc == Lit("(Z)V") then Some(Truth(args[0] != 0))
    else if desc == Lit("(Ljava/lang/String;)V") then Some(StringOf(c, args[0]))
    else None
  }

  /** The argument count of a call that the stack can serve: at most 8, and `extra` more for the object. */
  function Arity(f: Frame, ref: Option<Reference>, extra: nat): (r: Option<(nat, Descriptor.Kind)>)
    ensures r.Some? ==> ref.Some? && r.value.0 <= 8 && r.value.0 + extra <= |f.stack|
  {
    if ref.None? then None
    else
      match Descriptor.DescArgs(ref.value.desc)
      case None => None
      case Some((n, kind)) => if n > 8 || |f.stack| < n + extra then None else Some((n, kind))
  }

  function Virtual(c: Class, f: Frame, idx: nat): Step {
    var ref := Resolve(c, idx, 10);
    match Arity(f, ref, 1)
    case None => Fault
    case Some((n, _)) =>
      var sp := |f.stack| - n - 1;
      var args, obj, name := f.stack[sp + 1..], f.stack[sp], ref.value.name;
      if ref.value.cls == Lit("java/io/PrintStream") && (name == Lit("print") || name == Lit("println"))
         && obj == PRINTSTREAM
      then
        match Printed(c, ref.value.desc, args)
        case None => Fault
        case Some(item) => Next(f.(stack := f.stack[..sp]), [Event(item, name == Lit("println"))])
      else Fault
  }

  function Special(c: Class, f: Frame, idx: nat): Step {
    var ref := Resolve(c, idx, 10);
    match Arity(f, ref, 1)
    case None => Fault
    case Some((n, kind)) =>
      var sp := |f.stack| - n - 1;
      if HasFlag(f.stack[sp], OBJECT_FLAG) && ref.value.name == Lit("<init>") && kind == Descriptor.V
      then Next(f.(stack := f.stack[..sp]), [])
      else Fault
  }

  predicate IsPrintStreamField(ref: Option<Reference>) {
    && ref.Some? && ref.value.cls == Lit("java/lang/System") && (ref.value.name == Lit("out") || ref.value.name == Lit("err"))
    && ref.value.desc == Lit("Ljava/io/PrintStream;")
  }

  /** An instruction at `at`, on a frame whose pc is already behind it (JVMS section 6.5). */
  function Execute(c: Class, code: seq<byte>, i: Instr, f: Frame, at: nat): Step
    requires |f.locals| == LOCALS_MAX
  {
    var s := f.stack;
    var sp := |s|;
    match i
    case Nop => Next(f, [])
    case Push(v) => Pushed(f, v)
    case Constant(idx) => if Ldc(c, idx).None? then Fault else Pushed(f, Ldc(c, idx).value)
    case Load(k) => if k >= LOCALS_MAX then Fault else Pushed(f, f.locals[k])
    case Store(k) =>
      if sp < 1 || k >= LOCALS_MAX then Fault
      else Next(f.(stack := s[..sp - 1], locals := f.locals[k := s[sp - 1]]), [])
    case Pop => if sp < 1 then Fault else Next(f.(stack := s[..sp - 1]), [])
    case Dup => if sp < 1 then Fault else Pushed(f, s[sp - 1])
    case DupX1 =>
      if sp < 2 || sp >= STACK_MAX then Fault
      else Next(f.(stack := s[..sp - 2] + [s[sp - 1], s[sp - 2], s[sp - 1]]), [])
    case Swap => if sp < 2 then Fault else Next(f.(stack := s[..sp - 2] + [s[sp - 1], s[sp - 2]]), [])
    case Binary(op) =>
      if sp < 2 || ((op.Div? || op.Rem?) && s[sp - 1] == 0) then Fault
      else
        var v := Exact(op, s[sp - 2], s[sp - 1]);
        if Fits(v) then Next(f.(stack := s[..sp - 2] + [v]), []) else Overflow
    case Negate =>
      if sp < 1 then Fault
      else if Fits(Exact(Sub, 0, s[sp - 1])) then Next(f.(stack := s[..sp - 1] + [Exact(Sub, 0, s[sp - 1])]), [])
      else Overflow
    case Iinc(k, n) =>
      if k >= LOCALS_MAX then Fault
      else if Fits(f.locals[k] + n) then Next(f.(locals := f.locals[k := f.locals[k] + n]), [])
      else Overflow
    case If(cond, rel) =>
      if sp < 1 then Fault else Branch(f.(stack := s[..sp - 1]), at, rel, Holds(cond, s[sp - 1], 0), code)
    case IfCmp(cond, rel) =>
      if sp < 2 then Fault else Branch(f.(stack := s[..sp - 2]), at, rel, Holds(cond, s[sp - 2], s[sp - 1]), code)
    case Goto(rel) => Branch(f, at, rel, true, code)
    case ReturnValue => if sp < 1 then Fault else Done(Some(s[sp - 1]))
    case ReturnVoid => Done(None)
    case GetStatic(idx) => if IsPrintStreamField(Resolve(c, idx, 9)) then Pushed(f, PRINTSTREAM) else Fault
    case InvokeVirtual(idx) => Virtual(c, f, idx)
    case InvokeSpecial(idx) => Special(c, f, idx)
    case InvokeStatic(idx) => Invoke(idx, f)
    case New(idx) => if Tag(c, idx) == 7 then Pushed(f, OBJECT_FLAG + idx % 0x1_0000) else Fault
  }

  function StepOf(c: Class, code: seq<byte>, f: Frame): Step
    requires f.pc < |code| && |f.locals| == LOCALS_MAX
  {
    match Decode(code, f.pc)
    case None => Fault
    case Some((i, n)) => Execute(c, code, i, f.(pc := f.pc + n), f.pc)
  }
}
