/** What the interpreter of src/commands/java.c does with each opcode, stated on the bytes of the code and in plain
    arithmetic, without the tables and functions that Jvm is written with (JVMS section 6.5). */
module JvmLaws {
  import opened Bytes
  import opened ClassFile
  import opened Jvm
  import opened JvmRun
  import opened Wrappers
  import opened Words
  import Descriptor
  import JvmMachine

  /** An operand byte, and two of them, as signed numbers. */
  function S8(a: byte): int {
    if a >= 128 then a - 256 else a
  }

  function S16(a: byte, b: byte): int {
    256 * S8(a) + b
  }

  /** `n` bytes of code are left from the program counter on, and the stack has `k` entries. */
  predicate Ready(code: seq<byte>, f: Frame, n: nat, k: nat) {
    GoodFrame(f, code) && |code| <= INT_MAX && f.pc + n <= |code| && |f.stack| >= k
  }

  /** Instructions of one byte, and those of three. */
  lemma OneByte(code: seq<byte>, pc: nat)
    requires pc < |code| && Plain(code[pc]).Some?
    ensures Decode(code, pc) == Some((Plain(code[pc]).value, 1))
  {
  }

  lemma ThreeBytes(code: seq<byte>, pc: nat)
    requires pc + 3 <= |code| && (code[pc] in {0x11, 0x13, 0x84} || 0x99 <= code[pc] <= 0xa7 || code[pc] >= 0xb2)
    ensures Decode(code, pc) == if Long(code[pc], code[pc + 1], code[pc + 2]).Some?
                                then Some((Long(code[pc], code[pc + 1], code[pc + 2]).value, 3))
                                else if code[pc] == 0xc8 && pc + 5 <= |code| then Some((Goto(Signed32(Rd32(code, pc + 1))), 5))
                                else None
  {
    hide Long, Signed32, Rd32;
  }

  // ---------------------------------------------------------------- branches

  /** The frame after a branch that pops `k` entries: behind the instruction, or at the target if that lies in the code. */
  function Branched(code: seq<byte>, f: Frame, k: nat, taken: bool): Step
    requires Ready(code, f, 3, k)
  {
    var to, rest := f.pc + S16(code[f.pc + 1], code[f.pc + 2]), f.stack[..|f.stack| - k];
    if !taken then Next(Frame(f.pc + 3, rest, f.locals), [])
    else if 0 <= to < |code| then Next(Frame(to, rest, f.locals), [])
    else if to > INT_MAX then Overflow
    else Fault
  }

  /** ifeq, ifne, iflt, ifge, ifgt, ifle, ifnull and ifnonnull */
  lemma ComparesWithZero(c: Class, code: seq<byte>, f: Frame)
    requires Ready(code, f, 3, 1)
    ensures var op, v := code[f.pc], f.stack[|f.stack| - 1];
            && (op == 0x99 || op == 0xc6 ==> StepOf(c, code, f) == Branched(code, f, 1, v == 0))
            && (op == 0x9a || op == 0xc7 ==> StepOf(c, code, f) == Branched(code, f, 1, v != 0))
            && (op == 0x9b ==> StepOf(c, code, f) == Branched(code, f, 1, v < 0))
            && (op == 0x9c ==> StepOf(c, code, f) == Branched(code, f, 1, v >= 0))
            && (op == 0x9d ==> StepOf(c, code, f) == Branched(code, f, 1, v > 0))
            && (op == 0x9e ==> StepOf(c, code, f) == Branched(code, f, 1, v <= 0))
  {
    hide Decode, Plain, Short;
    if 0x99 <= code[f.pc] <= 0xa7 || code[f.pc] >= 0xb2 { ThreeBytes(code, f.pc); }
  }

  /** if_icmpeq, if_icmpne, if_icmplt, if_icmpge, if_icmpgt, if_icmple, if_acmpeq and if_acmpne */
  lemma ComparesTwo(c: Class, code: seq<byte>, f: Frame)
    requires Ready(code, f, 3, 2)
    ensures var op, a, b := code[f.pc], f.stack[|f.stack| - 2], f.stack[|f.stack| - 1];
            && (op == 0x9f || op == 0xa5 ==> StepOf(c, code, f) == Branched(code, f, 2, a == b))
            && (op == 0xa0 || op == 0xa6 ==> StepOf(c, code, f) == Branched(code, f, 2, a != b))
            && (op == 0xa1 ==> StepOf(c, code, f) == Branched(code, f, 2, a < b))
            && (op == 0xa2 ==> StepOf(c, code, f) == Branched(code, f, 2, a >= b))
            && (op == 0xa3 ==> StepOf(c, code, f) == Branched(code, f, 2, a > b))
            && (op == 0xa4 ==> StepOf(c, code, f) == Branched(code, f, 2, a <= b))
  {
    hide Decode, Plain, Short;
    if 0x99 <= code[f.pc] <= 0xa7 || code[f.pc] >= 0xb2 { ThreeBytes(code, f.pc); }
  }

  /** goto */
  lemma Jumps(c: Class, code: seq<byte>, f: Frame)
    requires Ready(code, f, 3, 0) && code[f.pc] == 0xa7
    ensures StepOf(c, code, f) == Branched(code, f, 0, true)
  {
    hide Plain, Short;
    assert f.stack[..|f.stack|] == f.stack;
    ThreeBytes(code, f.pc);
  }

  /** goto_w, with its 32-bit offset */
  lemma JumpsFar(c: Class, code: seq<byte>, f: Frame)
    requires Ready(code, f, 5, 0) && code[f.pc] == 0xc8
    ensures var high, low := S16(code[f.pc + 1], code[f.pc + 2]), 256 * code[f.pc + 3] as int + code[f.pc + 4] as int;
            var to := f.pc + 0x1_0000 * high + low;
            StepOf(c, code, f) ==
            if to > INT_MAX then Overflow else if 0 <= to < |code| then Next(f.(pc := to), []) else Fault
  {
    hide Plain, Short;
    ThreeBytes(code, f.pc);
  }

  // ---------------------------------------------------------------- arithmetic

  /** The frame after an instruction of one byte that replaces the top two values by one, if that is an int32. */
  function Result(f: Frame, v: int): Step
    requires |f.stack| >= 2
  {
    if -0x8000_0000 <= v < 0x8000_0000 then Next(Frame(f.pc + 1, f.stack[..|f.stack| - 2] + [v], f.locals), []) else Overflow
  }

  /** iadd, isub and imul */
  lemma AddsAndMultiplies(c: Class, code: seq<byte>, f: Frame)
    requires Ready(code, f, 1, 2)
    ensures var op: nat, a: int, b: int := code[f.pc], f.stack[|f.stack| - 2], f.stack[|f.stack| - 1];
            && (op == 0x60 ==> StepOf(c, code, f) == Result(f, a + b))
            && (op == 0x64 ==> StepOf(c, code, f) == Result(f, a - b))
            && (op == 0x68 ==> StepOf(c, code, f) == Result(f, a * b))
  {
  }

  /** idiv and irem: quotient and remainder of the division that truncates towards zero */
  lemma Divides(c: Class, code: seq<byte>, f: Frame) returns (q: int, r: int)
    requires Ready(code, f, 1, 2) && (code[f.pc] == 0x6c || code[f.pc] == 0x70)
    ensures var op, a, b := code[f.pc], f.stack[|f.stack| - 2], f.stack[|f.stack| - 1];
            if b == 0 then StepOf(c, code, f) == Fault
            else
              && a == q * b + r && Abs(r) < Abs(b) && (r == 0 || (r < 0 <==> a < 0))
              && (op == 0x6c ==> StepOf(c, code, f) == Result(f, q))
              && (op == 0x70 ==> StepOf(c, code, f) == if q == 0x8000_0000 then Overflow else Result(f, r))
  {
    hide TruncDiv;
    var a, b := f.stack[|f.stack| - 2], f.stack[|f.stack| - 1];
    q, r := 0, 0;
    if b != 0 {
      TruncDivMeaning(a, b);
      q := TruncDiv(a, b);
      r := a - q * b;
      QuotientRange(a, b, q, r);
    }
  }

  /** The quotient is an int32 but for one pair of operands. */
  lemma QuotientRange(a: int32, b: int32, q: int, r: int)
    requires b != 0 && a == q * b + r && Abs(r) < Abs(b) && (r == 0 || (r < 0 <==> a < 0))
    ensures -0x8000_0000 <= q <= 0x8000_0000 && -0x8000_0000 <= r < 0x8000_0000
  {
    if q > 0 {
      assert Abs(a) >= 0;
    }
  }

  function TwoTo(n: nat): (p: nat)
    ensures p > 0
  {
    if n == 0 then 1 else TwoTo(n - 1) + TwoTo(n - 1)
  }

  lemma {:induction false} TwoToIsPow2(n: nat)
    ensures TwoTo(n) == Pow2(n)
    decreases n
  {
    if n > 0 { TwoToIsPow2(n - 1); }
  }

  /** Bit `k` of a number in two's complement. */
  function BitOf(v: int, k: nat): (b: nat)
    ensures b <= 1
    decreases k
  {
    if k == 0 then v % 2 else BitOf(v / 2, k - 1)
  }

  /** ishl, ishr and iushr, by the low five bits of the second operand; C defines no shift of a negative number to the left */
  lemma Shifts(c: Class, code: seq<byte>, f: Frame)
    requires Ready(code, f, 1, 2)
    ensures var op, a: int, n := code[f.pc], f.stack[|f.stack| - 2], f.stack[|f.stack| - 1] % 32;
            && (op == 0x78 ==> StepOf(c, code, f) == if a < 0 then Overflow else Result(f, a * TwoTo(n)))
            && (op == 0x7a ==> StepOf(c, code, f) == Result(f, a / TwoTo(n)))
            && (op == 0x7c ==>
                  StepOf(c, code, f) == Result(f, if a >= 0 then a / TwoTo(n) else if n == 0 then a else (a + WORD) / TwoTo(n)))
  {
    hide TwoTo, Decode, Exact;
    var a, b := f.stack[|f.stack| - 2], f.stack[|f.stack| - 1];
    ExactShifts(a, b);
    if code[f.pc] in {0x78, 0x7a, 0x7c} { OneByte(code, f.pc); }
  }

  lemma ExactShifts(a: int32, b: int32)
    ensures var n := b % 32;
            && Exact(Shl, a, b) == (if a < 0 then 0x8000_0000 else a * TwoTo(n))
            && Exact(Shr, a, b) == a / TwoTo(n) && Fits(a / TwoTo(n))
            && Exact(Ushr, a, b) == if a >= 0 then a / TwoTo(n) else if n == 0 then a else (a + WORD) / TwoTo(n)
  {
    hide Pow2, TwoTo;
    var n := b % 32;
    TwoToIsPow2(n);
    LowFive(b);
    TwoToStart(n);
    ShiftRange(a, TwoTo(n));
  }

  lemma LowFive(b: int32)
    ensures Word(b) % 32 == b % 32
  {
  }

  lemma TwoToStart(n: nat)
    ensures if n == 0 then TwoTo(n) == 1 else TwoTo(n) >= 2
  {
  }

  lemma ShiftRange(a: int32, d: nat)
    requires d > 0
    ensures -0x8000_0000 <= a / d < 0x8000_0000
    ensures d >= 2 ==> 0 <= Word(a) / d < 0x8000_0000
  {
    DivAbove(a, d);
    if d >= 2 {
      DivAbove(Word(a), d);
      DivBelow(Word(a), d);
    }
  }

  lemma DivAbove(a: int, d: nat)
    requires d > 0
    ensures a < 0 ==> a <= a / d < 0
    ensures a >= 0 ==> 0 <= a / d <= a
  {
    assert a == (a / d) * d + a % d;
    if a < 0 { QuotientOfNegative(a, a / d, a % d, d); } else { QuotientOfNatural(a, a / d, a % d, d); }
  }

  lemma QuotientOfNegative(a: int, q: int, r: int, d: nat)
    requires a == q * d + r && 0 <= r < d && a < 0
    ensures a <= q < 0
  {
    if q >= 0 {
      TimesGrows(0, q, d);
      assert false;
    }
    if q < a {
      TimesGrows(q, a - 1, d);
      TimesGrows(a, 0, d - 1);
      assert false;
    }
  }

  lemma QuotientOfNatural(a: int, q: int, r: int, d: nat)
    requires a == q * d + r && 0 <= r < d && a >= 0
    ensures 0 <= q <= a
  {
    if q < 0 {
      TimesGrows(q, -1, d);
      assert false;
    }
    TimesGrows(0, q, d - 1);
  }

  lemma {:induction false} TimesGrows(x: int, y: int, d: nat)
    requires x <= y
    ensures x * d <= y * d && x * (d + 1) == x * d + x
    decreases d
  {
    if d > 0 { TimesGrows(x, y, d - 1); }
  }

  lemma DivBelow(w: nat, d: nat)
    requires w < WORD && d >= 2
    ensures w / d < 0x8000_0000
  {
    var q, r := w / d, w % d;
    assert w == q * d + r;
    if q >= 0x8000_0000 {
      TimesGrows(0x8000_0000, q, d);
      assert false;
    }
  }

  /** iand, ior and ixor, bit by bit */
  lemma Bits(c: Class, code: seq<byte>, f: Frame, k: nat) returns (v: int32)
    requires Ready(code, f, 1, 2) && code[f.pc] in {0x7e, 0x80, 0x82} && k < 32
    ensures StepOf(c, code, f) == Result(f, v)
    ensures var op, x, y := code[f.pc], BitOf(f.stack[|f.stack| - 2], k), BitOf(f.stack[|f.stack| - 1], k);
            && (op == 0x7e ==> BitOf(v, k) == if x == 1 && y == 1 then 1 else 0)
            && (op == 0x80 ==> BitOf(v, k) == if x == 0 && y == 0 then 0 else 1)
            && (op == 0x82 ==> BitOf(v, k) == if x == y then 0 else 1)
  {
    hide Bitwise, TwoTo, Pow2, BitOf, Decode;
    OneByte(code, f.pc);
    var a, b := f.stack[|f.stack| - 2], f.stack[|f.stack| - 1];
    var op := if code[f.pc] == 0x7e then And else if code[f.pc] == 0x80 then Or else Xor;
    var w := Bitwise(op, Word(a), Word(b), 32);
    TwoToIsPow2(32);
    ThirtyTwo();
    v := FromWord(w);
    BitwiseBit(op, Word(a), Word(b), 32, k);
    WordBit(a, k);
    WordBit(b, k);
    WordBit(v, k);
  }

  lemma ThirtyTwo()
    ensures TwoTo(32) == WORD
  {
    assert TwoTo(8) == 256;
    assert TwoTo(16) == 0x1_0000;
    assert TwoTo(24) == 0x100_0000;
  }

  /** The bits of a negative number are those of the word that stands for it. */
  lemma WordBit(a: int32, k: nat)
    requires k < 32
    ensures BitOf(Word(a), k) == BitOf(a, k)
  {
    ThirtyTwo();
    HighBit(a, 32, k);
  }

  lemma {:induction false} HighBit(v: int, m: nat, k: nat)
    requires k < m
    ensures BitOf(v + TwoTo(m), k) == BitOf(v, k)
    decreases k
  {
    assert (v + TwoTo(m)) / 2 == v / 2 + TwoTo(m - 1);
    if k > 0 { HighBit(v / 2, m - 1, k - 1); }
  }

  lemma {:induction false} BitwiseBit(op: BinOp, a: nat, b: nat, n: nat, k: nat)
    requires k < n
    ensures BitOf(Bitwise(op, a, b, n), k) == Bit(op, BitOf(a, k), BitOf(b, k))
    decreases n
  {
    if k > 0 {
      assert Bitwise(op, a, b, n) / 2 == Bitwise(op, a / 2, b / 2, n - 1);
      BitwiseBit(op, a / 2, b / 2, n - 1, k - 1);
    }
  }

  /** ineg, and iinc, which wraps nothing either */
  lemma NegatesAndIncrements(c: Class, code: seq<byte>, f: Frame)
    requires Ready(code, f, 1, 0)
    ensures code[f.pc] == 0x74 && |f.stack| >= 1 ==>
              var v := 0 - f.stack[|f.stack| - 1] as int;
              StepOf(c, code, f) == if v == 0x8000_0000 then Overflow
                                    else Next(Frame(f.pc + 1, f.stack[..|f.stack| - 1] + [v], f.locals), [])
    ensures code[f.pc] == 0x84 && f.pc + 3 <= |code| && code[f.pc + 1] < 64 ==>
              var k := code[f.pc + 1]; var v := f.locals[k] + S8(code[f.pc + 2]);
              StepOf(c, code, f) == if -0x8000_0000 <= v < 0x8000_0000
                                    then Next(Frame(f.pc + 3, f.stack, f.locals[k := v]), []) else Overflow
    ensures code[f.pc] == 0x84 && f.pc + 3 <= |code| && code[f.pc + 1] >= 64 ==> StepOf(c, code, f) == Fault
  {
    hide Short;
    if code[f.pc] == 0x84 && f.pc + 3 <= |code| { ThreeBytes(code, f.pc); }
  }

  // ---------------------------------------------------------------- constants, variables and the stack

  /** The frame after an instruction of `n` bytes that pushes one value. */
  function Pushes(f: Frame, n: nat, v: int32): Step {
    if |f.stack| == 256 then Fault else Next(Frame(f.pc + n, f.stack + [v], f.locals), [])
  }

  /** nop, aconst_null, iconst_m1 to iconst_5, bipush and sipush */
  lemma PushesConstants(c: Class, code: seq<byte>, f: Frame)
    requires Ready(code, f, 1, 0)
    ensures code[f.pc] == 0x00 ==> StepOf(c, code, f) == Next(f.(pc := f.pc + 1), [])
    ensures code[f.pc] == 0x01 ==> StepOf(c, code, f) == Pushes(f, 1, 0)
    ensures code[f.pc] == 0x02 ==> StepOf(c, code, f) == Pushes(f, 1, -1)
    ensures code[f.pc] == 0x03 ==> StepOf(c, code, f) == Pushes(f, 1, 0)
    ensures code[f.pc] == 0x04 ==> StepOf(c, code, f) == Pushes(f, 1, 1)
    ensures code[f.pc] == 0x05 ==> StepOf(c, code, f) == Pushes(f, 1, 2)
    ensures code[f.pc] == 0x06 ==> StepOf(c, code, f) == Pushes(f, 1, 3)
    ensures code[f.pc] == 0x07 ==> StepOf(c, code, f) == Pushes(f, 1, 4)
    ensures code[f.pc] == 0x08 ==> StepOf(c, code, f) == Pushes(f, 1, 5)
    ensures code[f.pc] == 0x10 && f.pc + 2 <= |code| ==> StepOf(c, code, f) == Pushes(f, 2, S8(code[f.pc + 1]))
    ensures code[f.pc] == 0x11 && f.pc + 3 <= |code| ==>
              StepOf(c, code, f) == Pushes(f, 3, S16(code[f.pc + 1], code[f.pc + 2]))
  {
  }

  /** A load or a store of variable `k` by an instruction of `n` bytes. */
  function Loads(f: Frame, n: nat, k: nat): Step
    requires |f.locals| == LOCALS_MAX
  {
    if k >= 64 then Fault else Pushes(f, n, f.locals[k])
  }

  function Stores(f: Frame, n: nat, k: nat): Step
    requires |f.locals| == LOCALS_MAX && f.stack != []
  {
    if k >= 64 then Fault
    else Next(Frame(f.pc + n, f.stack[..|f.stack| - 1], f.locals[k := f.stack[|f.stack| - 1]]), [])
  }

  /** iload, aload and their short forms for variables 0 to 3 */
  lemma LoadsVariables(c: Class, code: seq<byte>, f: Frame)
    requires Ready(code, f, 1, 0)
    ensures code[f.pc] in {0x15, 0x19} && f.pc + 2 <= |code| ==> StepOf(c, code, f) == Loads(f, 2, code[f.pc + 1])
    ensures code[f.pc] in {0x1a, 0x2a} ==> StepOf(c, code, f) == Loads(f, 1, 0)
    ensures code[f.pc] in {0x1b, 0x2b} ==> StepOf(c, code, f) == Loads(f, 1, 1)
    ensures code[f.pc] in {0x1c, 0x2c} ==> StepOf(c, code, f) == Loads(f, 1, 2)
    ensures code[f.pc] in {0x1d, 0x2d} ==> StepOf(c, code, f) == Loads(f, 1, 3)
  {
  }

  /** istore, astore and their short forms */
  lemma StoresVariables(c: Class, code: seq<byte>, f: Frame)
    requires Ready(code, f, 1, 1)
    ensures code[f.pc] in {0x36, 0x3a} && f.pc + 2 <= |code| ==> StepOf(c, code, f) == Stores(f, 2, code[f.pc + 1])
    ensures code[f.pc] in {0x3b, 0x4b} ==> StepOf(c, code, f) == Stores(f, 1, 0)
    ensures code[f.pc] in {0x3c, 0x4c} ==> StepOf(c, code, f) == Stores(f, 1, 1)
    ensures code[f.pc] in {0x3d, 0x4d} ==> StepOf(c, code, f) == Stores(f, 1, 2)
    ensures code[f.pc] in {0x3e, 0x4e} ==> StepOf(c, code, f) == Stores(f, 1, 3)
  {
  }

  /** pop, dup, dup_x1 and swap, on the two topmost of a stack with room for one more */
  lemma MovesValues(c: Class, code: seq<byte>, f: Frame, under: seq<int32>, a: int32, b: int32)
    requires Ready(code, f, 1, 2) && f.stack == under + [a, b] && |f.stack| < 256
    ensures code[f.pc] == 0x57 ==> StepOf(c, code, f) == Next(Frame(f.pc + 1, under + [a], f.locals), [])
    ensures code[f.pc] == 0x59 ==> StepOf(c, code, f) == Next(Frame(f.pc + 1, under + [a, b, b], f.locals), [])
    ensures code[f.pc] == 0x5a ==> StepOf(c, code, f) == Next(Frame(f.pc + 1, under + [b, a, b], f.locals), [])
    ensures code[f.pc] == 0x5f ==> StepOf(c, code, f) == Next(Frame(f.pc + 1, under + [b, a], f.locals), [])
  {
    var s := f.stack;
    assert s[..|s| - 2] == under && s[..|s| - 1] == under + [a] && s + [b] == under + [a, b, b];
    assert s[|s| - 1] == b && s[|s| - 2] == a;
  }

  /** ireturn, areturn and return */
  lemma Returns(c: Class, code: seq<byte>, f: Frame)
    requires Ready(code, f, 1, 0)
    ensures code[f.pc] in {0xac, 0xb0} && f.stack != [] ==> StepOf(c, code, f) == Done(Some(f.stack[|f.stack| - 1]))
    ensures code[f.pc] == 0xb1 ==> StepOf(c, code, f) == Done(None)
  {
  }

  /** Instructions that find too little on the stack fail, and so does every other opcode, whatever follows it. */
  lemma FailsOtherwise(c: Class, code: seq<byte>, f: Frame)
    requires Ready(code, f, 1, 0)
    ensures f.stack == [] && (code[f.pc] in {0x36, 0x3a, 0x57, 0x59, 0x5a, 0x5f, 0x74, 0xac, 0xb0, 0xc6, 0xc7}
                              || 0x3b <= code[f.pc] <= 0x3e || 0x4b <= code[f.pc] <= 0x4e || 0x99 <= code[f.pc] <= 0x9e) ==>
              StepOf(c, code, f) == Fault
    ensures |f.stack| < 2 && (code[f.pc] in {0x5a, 0x5f, 0x60, 0x64, 0x68, 0x6c, 0x70, 0x78, 0x7a, 0x7c, 0x7e, 0x80, 0x82}
                              || 0x9f <= code[f.pc] <= 0xa6) ==>
              StepOf(c, code, f) == Fault
    ensures code[f.pc] !in {0x10, 0x11, 0x12, 0x13, 0x15, 0x19, 0x36, 0x3a, 0x57, 0x59, 0x5a, 0x5f, 0x60, 0x64, 0x68, 0x6c,
                            0x70, 0x74, 0x78, 0x7a, 0x7c, 0x7e, 0x80, 0x82, 0x84, 0xac, 0xb0, 0xb1, 0xb2, 0xb6, 0xb7, 0xb8,
                            0xbb, 0xc6, 0xc7, 0xc8}
            && !(code[f.pc] <= 0x08 || 0x1a <= code[f.pc] <= 0x1d || 0x2a <= code[f.pc] <= 0x2d || 0x3b <= code[f.pc] <= 0x3e
                 || 0x4b <= code[f.pc] <= 0x4e || 0x99 <= code[f.pc] <= 0xa7) ==>
              StepOf(c, code, f) == Fault
  {
    hide Exact;
  }

  // ---------------------------------------------------------------- the constant pool

  /** The ASCII bytes of a text. */
  function Ascii(s: string): (r: seq<byte>)
    ensures |r| == |s|
  {
    seq(|s|, i requires 0 <= i < |s| => if s[i] as int < 128 then s[i] as int else 63)
  }

  lemma {:induction false} LitIsAscii(s: string)
    requires forall i :: 0 <= i < |s| ==> s[i] as int < 128
    ensures Lit(s) == Ascii(s)
    decreases |s|
  {
    if s != "" {
      LitIsAscii(s[1..]);
      assert Ascii(s) == [s[0] as int] + Ascii(s[1..]);
    }
  }

  predicate IsText(c: Class, i: nat, text: seq<byte>) {
    0 < i < |c.p.cp| && c.p.cp[i].tag == 1 && c.p.cp[i].a + c.p.cp[i].b <= |c.bytes|
    && c.bytes[c.p.cp[i].a..c.p.cp[i].a + c.p.cp[i].b] == text
  }

  predicate IsClass(c: Class, i: nat, name: seq<byte>) {
    0 < i < |c.p.cp| && c.p.cp[i].tag == 7 && IsText(c, c.p.cp[i].a, name)
  }

  predicate IsNameAndType(c: Class, i: nat, name: seq<byte>, desc: seq<byte>) {
    0 < i < |c.p.cp| && c.p.cp[i].tag == 12 && IsText(c, c.p.cp[i].a, name) && IsText(c, c.p.cp[i].b, desc)
  }

  /** Slot `i` refers to the member of a class: a field if its tag is 9, a method if it is 10. */
  predicate IsMember(c: Class, i: nat, tag: nat, cls: seq<byte>, name: seq<byte>, desc: seq<byte>) {
    |c.p.cp| <= CP_MAX && 0 < i < |c.p.cp| && c.p.cp[i].tag == tag
    && IsClass(c, c.p.cp[i].a, cls) && IsNameAndType(c, c.p.cp[i].b, name, desc)
  }

  lemma MemberResolves(c: Class, i: nat, tag: nat, cls: seq<byte>, name: seq<byte>, desc: seq<byte>)
    requires IsMember(c, i, tag, cls, name, desc) && tag > 0
    ensures Resolve(c, i, tag) == Some(Reference(cls, name, desc))
  {
    hide Utf8, IsText, ClassName;
    var e := c.p.cp[i];
    var nt := c.p.cp[e.b];
    ClassIs(c, e.a, cls);
    TextIs(c, nt.a, name);
    TextIs(c, nt.b, desc);
  }

  lemma TextIs(c: Class, i: nat, text: seq<byte>)
    requires |c.p.cp| <= CP_MAX && IsText(c, i, text)
    ensures i % 0x1_0000 == i < |c.p.cp| && Utf8(c, i) == Some(text)
  {
  }

  lemma ClassIs(c: Class, i: nat, name: seq<byte>)
    requires |c.p.cp| <= CP_MAX && IsClass(c, i, name)
    ensures i % 0x1_0000 == i < |c.p.cp| && ClassName(c, i) == Some(name)
  {
  }

  /** ldc and ldc_w of an Integer or a String */
  lemma PushesFromPool(c: Class, code: seq<byte>, f: Frame)
    requires Ready(code, f, 3, 0) && |c.p.cp| <= CP_MAX && |f.stack| < 256 && code[f.pc] in {0x12, 0x13}
    ensures var i := if code[f.pc] == 0x12 then code[f.pc + 1] as int else 256 * code[f.pc + 1] as int + code[f.pc + 2] as int;
            0 < i < |c.p.cp| && c.p.cp[i].a < WORD ==>
              var e, n := c.p.cp[i], if code[f.pc] == 0x12 then 2 else 3;
              && (e.tag == 3 ==>
                    StepOf(c, code, f) == Pushes(f, n, if e.a < 0x8000_0000 then e.a else e.a - WORD))
              && (e.tag == 8 && e.a < 0x1_0000 ==> StepOf(c, code, f) == Pushes(f, n, 0x4000_0000 + e.a))
              && (e.tag != 3 && e.tag != 8 ==> StepOf(c, code, f) == Fault)
  {
    hide Ldc, Signed32;
    if code[f.pc] == 0x13 { ThreeBytes(code, f.pc); }
    var i := if code[f.pc] == 0x12 then code[f.pc + 1] as int else 256 * code[f.pc + 1] as int + code[f.pc + 2] as int;
    LdcMeaning(c, i);
  }

  lemma LdcMeaning(c: Class, i: nat)
    ensures 0 < i < |c.p.cp| && c.p.cp[i].a < WORD ==>
              var e := c.p.cp[i];
              && (e.tag == 3 ==> Ldc(c, i) == Some(if e.a < 0x8000_0000 then e.a else e.a - WORD))
              && (e.tag == 8 && e.a < 0x1_0000 ==> Ldc(c, i) == Some(0x4000_0000 + e.a))
              && (e.tag != 3 && e.tag != 8 ==> Ldc(c, i) == None)
  {
  }

  /** new */
  lemma CreatesObject(c: Class, code: seq<byte>, f: Frame)
    requires Ready(code, f, 3, 0) && |f.stack| < 256 && code[f.pc] == 0xbb
    ensures var i := 256 * code[f.pc + 1] as int + code[f.pc + 2] as int;
            StepOf(c, code, f) == if 0 < i < |c.p.cp| && c.p.cp[i].tag == 7 then Pushes(f, 3, 0x2000_0000 + i) else Fault
  {
    hide Plain, Short;
    ThreeBytes(code, f.pc);
  }

  /** getstatic of System.out and System.err */
  lemma GetsPrintStream(c: Class, code: seq<byte>, f: Frame, name: string)
    requires Ready(code, f, 3, 0) && |f.stack| < 256 && code[f.pc] == 0xb2 && name in ["out", "err"]
    requires IsMember(c, 256 * code[f.pc + 1] as int + code[f.pc + 2] as int, 9, Ascii("java/lang/System"), Ascii(name),
                      Ascii("Ljava/io/PrintStream;"))
    ensures StepOf(c, code, f) == Pushes(f, 3, 0x7F00_0001)
  {
    hide Resolve, Lit, Ascii, Plain, Short, IsMember;
    ThreeBytes(code, f.pc);
    MemberResolves(c, 256 * code[f.pc + 1] as int + code[f.pc + 2] as int, 9, Ascii("java/lang/System"), Ascii(name),
                   Ascii("Ljava/io/PrintStream;"));
    LitIsAscii("java/lang/System");
    LitIsAscii(name);
    LitIsAscii("Ljava/io/PrintStream;");
  }

  function StreamName(): seq<byte> {
    Ascii("java/io/PrintStream")
  }

  lemma StreamLit()
    ensures Lit("java/io/PrintStream") == StreamName()
  {
    LitIsAscii("java/io/PrintStream");
  }

  /** What print and println show of an argument. */
  predicate Shows(c: Class, desc: string, v: int32, item: Item) {
    || (desc in ["(I)V", "(S)V", "(B)V"] && item == Number(v))
    || (desc == "(C)V" && item == Character(v))
    || (desc == "(Z)V" && item == Truth(v != 0))
    || (desc == "(Ljava/lang/String;)V" && v == 0 && item == Null)
    || (desc == "(Ljava/lang/String;)V" && 1 <= v < 0x4000_0000 && item == NoString)
    || (desc == "(Ljava/lang/String;)V" && 0x4000_0000 <= v < 0x4000_0000 + |c.p.cp| && |c.p.cp| <= CP_MAX && item.Text?
        && IsText(c, v - 0x4000_0000, item.s))
  }

  lemma ShortLit(s: string)
    requires |s| == 4 && forall i :: 0 <= i < |s| ==> s[i] as int < 128
    ensures Lit(s) == [s[0] as int, s[1] as int, s[2] as int, s[3] as int] == Ascii(s)
  {
    LitIsAscii(s);
  }

  lemma ShownIsPrinted(c: Class, desc: string, v: int32, item: Item)
    requires Shows(c, desc, v, item)
    ensures Printed(c, Ascii(desc), [v]) == Some(item)
  {
    hide Lit, StringOf, Ascii;
    LitIsAscii("()V");
    ShortLit("(I)V");
    ShortLit("(S)V");
    ShortLit("(B)V");
    ShortLit("(C)V");
    ShortLit("(Z)V");
    LitIsAscii("(Ljava/lang/String;)V");
    if desc == "(Ljava/lang/String;)V" {
      TextIsShown(c, v, item);
    } else {
      assert |desc| == 4;
      ShortLit(desc);
    }
  }

  lemma TextIsShown(c: Class, v: int32, item: Item)
    requires Shows(c, "(Ljava/lang/String;)V", v, item)
    ensures StringOf(c, v) == item
  {
    assert "(Ljava/lang/String;)V"[1] == 'L';
  }

  /** One parameter, and void. */
  lemma OneArgument(desc: string)
    requires desc in ["(I)V", "(S)V", "(B)V", "(C)V", "(Z)V", "(Ljava/lang/String;)V"]
    ensures Descriptor.DescArgs(Ascii(desc)) == Some((1, Descriptor.V))
  {
    var d := Ascii(desc);
    assert d[0] == 40 && d[1] == desc[1] as int;
    if desc == "(Ljava/lang/String;)V" {
      assert desc[18] == ';' && desc[19] == ')' && desc[20] == 'V';
      assert forall i :: 2 <= i < 18 ==> desc[i] != ';';
      SemicolonAt(d, 2, 18);
      assert Descriptor.SkipType(d, 1) == Some(19) && Descriptor.Count(d, 19, 1) == Some((1, 19));
    } else {
      assert desc[2] == ')' && desc[3] == 'V';
      assert Descriptor.SkipType(d, 1) == Some(2) && Descriptor.Count(d, 2, 1) == Some((1, 2));
    }
  }

  lemma {:induction false} SemicolonAt(d: seq<byte>, i: nat, k: nat)
    requires i <= k < |d| && d[k] == 59 && forall j :: i <= j < k ==> d[j] != 59
    ensures Descriptor.Semicolon(d, i) == k
    decreases k - i
  {
    if i < k { SemicolonAt(d, i + 1, k); }
  }

  function PrintName(newline: bool): seq<byte> {
    if newline then Ascii("println") else Ascii("print")
  }

  lemma PrintNames()
    ensures Lit("println") == PrintName(true) && Lit("print") == PrintName(false) && PrintName(true) != PrintName(false)
  {
    LitIsAscii("print");
    LitIsAscii("println");
    assert |Ascii("print")| != |Ascii("println")|;
  }

  /** invokevirtual of print and println with one argument on the print stream */
  lemma Prints(c: Class, code: seq<byte>, f: Frame, newline: bool, desc: string, v: int32, item: Item)
    requires Ready(code, f, 3, 2) && code[f.pc] == 0xb6
    requires f.stack[|f.stack| - 2] == 0x7F00_0001 && f.stack[|f.stack| - 1] == v && Shows(c, desc, v, item)
    requires IsMember(c, 256 * code[f.pc + 1] as int + code[f.pc + 2] as int, 10, StreamName(), PrintName(newline),
                      Ascii(desc))
    ensures StepOf(c, code, f) == Next(Frame(f.pc + 3, f.stack[..|f.stack| - 2], f.locals), [Event(item, newline)])
  {
    hide Resolve, Lit, Ascii, StreamName, PrintName, Plain, Short, IsMember, Descriptor.DescArgs, Printed, Virtual;
    var i := 256 * code[f.pc + 1] as int + code[f.pc + 2] as int;
    ThreeBytes(code, f.pc);
    MemberResolves(c, i, 10, StreamName(), PrintName(newline), Ascii(desc));
    VirtualPrints(c, f.(pc := f.pc + 3), i, newline, desc, v, item);
  }

  lemma VirtualPrints(c: Class, f: Frame, i: nat, newline: bool, desc: string, v: int32, item: Item)
    requires |f.stack| >= 2 && Shows(c, desc, v, item)
    requires f.stack[|f.stack| - 2] == 0x7F00_0001 && f.stack[|f.stack| - 1] == v
    requires Resolve(c, i, 10) == Some(Reference(StreamName(), PrintName(newline), Ascii(desc)))
    ensures Virtual(c, f, i) == Next(f.(stack := f.stack[..|f.stack| - 2]), [Event(item, newline)])
  {
    hide Resolve, Lit, Ascii, StreamName, PrintName, Descriptor.DescArgs, Printed, Shows;
    StreamLit();
    PrintNames();
    DescOf(c, desc, v, item);
    ShownIsPrinted(c, desc, v, item);
    assert f.stack[|f.stack| - 1..] == [v];
  }

  lemma DescOf(c: Class, desc: string, v: int32, item: Item)
    requires Shows(c, desc, v, item)
    ensures Descriptor.DescArgs(Ascii(desc)) == Some((1, Descriptor.V))
  {
    hide Descriptor.DescArgs, Ascii;
    OneArgument(desc);
  }

  // ---------------------------------------------------------------- calls

  /** print and println without an argument */
  lemma PrintsNothing(c: Class, code: seq<byte>, f: Frame, newline: bool)
    requires Ready(code, f, 3, 1) && code[f.pc] == 0xb6
    requires f.stack[|f.stack| - 1] == 0x7F00_0001
    requires IsMember(c, 256 * code[f.pc + 1] as int + code[f.pc + 2] as int, 10, StreamName(), PrintName(newline),
                      Ascii("()V"))
    ensures StepOf(c, code, f) == Next(Frame(f.pc + 3, f.stack[..|f.stack| - 1], f.locals), [Event(Nothing, newline)])
  {
    hide Resolve, Lit, Ascii, StreamName, PrintName, Plain, Short, IsMember, Descriptor.DescArgs;
    var i := 256 * code[f.pc + 1] as int + code[f.pc + 2] as int;
    ThreeBytes(code, f.pc);
    MemberResolves(c, i, 10, StreamName(), PrintName(newline), Ascii("()V"));
    StreamLit();
    PrintNames();
    LitIsAscii("()V");
    NoArgument();
  }

  lemma NoArgument()
    ensures Descriptor.DescArgs(Ascii("()V")) == Some((0, Descriptor.V))
  {
    var d := Ascii("()V");
    assert d[0] == 40 && d[1] == 41 && d[2] == 86;
    assert Descriptor.Count(d, 1, 0) == Some((0, 1));
  }

  /** invokespecial of a constructor of any class, with `n` arguments, on a reference that new has pushed: object and
      arguments are dropped. */
  lemma CallsConstructor(c: Class, code: seq<byte>, f: Frame, cls: seq<byte>, desc: seq<byte>, n: nat)
    requires n <= 8 && Ready(code, f, 3, n + 1) && code[f.pc] == 0xb7
    requires IsMember(c, 256 * code[f.pc + 1] as int + code[f.pc + 2] as int, 10, cls, Ascii("<init>"), desc)
    requires Descriptor.DescArgs(desc) == Some((n, Descriptor.V))
    requires 0x2000_0000 <= f.stack[|f.stack| - n - 1] < 0x2000_0000 + 0x1_0000
    ensures StepOf(c, code, f) == Next(Frame(f.pc + 3, f.stack[..|f.stack| - n - 1], f.locals), [])
  {
    hide Resolve, Lit, Ascii, Plain, Short, IsMember, Descriptor.DescArgs;
    var i := 256 * code[f.pc + 1] as int + code[f.pc + 2] as int;
    ThreeBytes(code, f.pc);
    MemberResolves(c, i, 10, cls, Ascii("<init>"), desc);
    LitIsAscii("<init>");
  }

  /** The k-th method is the first static one (flag 8) of a name and a descriptor. */
  predicate IsTarget(c: Class, k: nat, name: seq<byte>, desc: seq<byte>) {
    && k < |c.p.methods|
    && (forall j :: 0 <= j <= k ==> 0 < c.p.methods[j].name < |c.p.cp| && 0 < c.p.methods[j].desc < |c.p.cp|)
    && IsText(c, c.p.methods[k].name, name) && IsText(c, c.p.methods[k].desc, desc) && c.p.methods[k].flags / 8 % 2 == 1
    && forall j :: 0 <= j < k ==>
         c.p.methods[j].flags / 8 % 2 == 0 || !IsText(c, c.p.methods[j].name, name) || !IsText(c, c.p.methods[j].desc, desc)
  }

  lemma {:induction false} TargetFound(c: Class, i: nat, k: nat, name: seq<byte>, desc: seq<byte>)
    requires IsTarget(c, k, name, desc) && i <= k
    ensures k < |c.p.methods| && FindStatic(c, i, name, desc) == Some(c.p.methods[k])
    decreases k - i
  {
    if i < k {
      assert !IsNamed(c, c.p.methods[i], name, desc);
      TargetFound(c, i + 1, k, name, desc);
    }
  }

  /** The class a call goes to: the caller's own if it has the name, or one from the jar whose name is at most 152 long. */
  predicate IsCallee(jar: Jar, c: Class, cls: seq<byte>, t: Class) {
    || (t == c && IsClass(c, c.p.thisClass, cls))
    || (cls in jar && t == jar[cls] && 1 <= |cls| <= 152 && !IsClass(c, c.p.thisClass, cls)
        && 0 < c.p.thisClass < |c.p.cp| && 0 < c.p.cp[c.p.thisClass].a < |c.p.cp|)
  }

  lemma CalleeFound(jar: Jar, c: Class, cls: seq<byte>, t: Class)
    requires |c.p.cp| <= CP_MAX && IsCallee(jar, c, cls, t)
    ensures TargetClass(jar, c, cls) == Some(t)
  {
  }

  /** invokestatic of a method with `n` parameters: it runs on the top n values in the order they were pushed, and what it
      returns takes their place. */
  lemma CallsStatic(jar: Jar, c: Class, f: Frame, i: nat, t: Class, k: nat, cls: seq<byte>, name: seq<byte>, desc: seq<byte>,
      n: nat, kind: Descriptor.Kind, depth: nat, limit: nat)
    requires GoodJar(jar) && GoodClass(c) && |f.locals| == 64 && depth <= 12 && n <= 8 && n <= |f.stack| <= 256
    requires IsMember(c, i, 10, cls, name, desc) && IsCallee(jar, c, cls, t) && IsTarget(t, k, name, desc)
    requires Descriptor.DescArgs(desc) == Some((n, kind))
    ensures GoodClass(t)
    ensures var sp := |f.stack| - n;
            var o := RunMethod(jar, t, t.p.methods[k], f.stack[sp..], depth + 1, limit);
            RunCall(jar, c, f, i, depth, limit) ==
            if !o.end.Finished? then (o, None)
            else if kind == Descriptor.V then (o, Some(Frame(f.pc, f.stack[..sp], f.locals)))
            else if o.end.ret.None? || sp == 256 then (Outcome(Failed, o.printed, o.frames), None)
            else (o, Some(Frame(f.pc, f.stack[..sp] + [o.end.ret.value], f.locals)))
  {
    hide Resolve, IsMember, Descriptor.DescArgs, RunMethod, FindStatic, IsTarget, IsClass, ClassName, GoodMethod,
      TargetClass;
    MemberResolves(c, i, 10, cls, name, desc);
    TargetFound(t, 0, k, name, desc);
    PoolFits(c, i, cls, name, desc);
    CalleeFound(jar, c, cls, t);
    assert TargetOf(jar, c, f, i) ==
           Some(Target(t, t.p.methods[k], f.stack[|f.stack| - n..], f.(stack := f.stack[..|f.stack| - n]), kind));
  }

  lemma PoolFits(c: Class, i: nat, cls: seq<byte>, name: seq<byte>, desc: seq<byte>)
    requires IsMember(c, i, 10, cls, name, desc)
    ensures |c.p.cp| <= CP_MAX
  {
  }

  /** The arguments are the first local variables, in order, and the other variables are 0. */
  lemma ArgumentsFirst(args: seq<int32>, k: nat)
    requires |args| <= 64 && k < 64
    ensures var f := NewFrame(args);
            f.pc == 0 && f.stack == [] && |f.locals| == 64 && f.locals[k] == if k < |args| then args[k] else 0
  {
  }

  /** No static method has the name and the descriptor. */
  predicate HasNone(c: Class, name: seq<byte>, desc: seq<byte>) {
    forall j :: 0 <= j < |c.p.methods| ==>
      var m := c.p.methods[j];
      && 0 < m.name < |c.p.cp| && 0 < m.desc < |c.p.cp|
      && (m.flags / 8 % 2 == 0 || !IsText(c, m.name, name) || !IsText(c, m.desc, desc))
  }

  lemma {:induction false} NoneFound(c: Class, i: nat, name: seq<byte>, desc: seq<byte>)
    requires HasNone(c, name, desc) && i <= |c.p.methods|
    ensures FindStatic(c, i, name, desc) == None
    decreases |c.p.methods| - i
  {
    if i < |c.p.methods| { NoneFound(c, i + 1, name, desc); }
  }

  function MainName(): seq<byte> {
    Ascii("main")
  }

  function TakesStrings(): seq<byte> {
    Ascii("([Ljava/lang/String;)V")
  }

  function TakesNothing(): seq<byte> {
    Ascii("()V")
  }

  lemma MainLits()
    ensures Lit("main") == MainName() && Lit("([Ljava/lang/String;)V") == TakesStrings() && Lit("()V") == TakesNothing()
  {
    LitIsAscii("main");
    LitIsAscii("()V");
    LitIsAscii("([Ljava/lang/String;)V");
  }

  /** A program starts with the first `static void main(String[])`, on null. */
  lemma RunsMain(data: seq<byte>, jar: Jar, limit: nat, p: Parsed, k: nat)
    requires |data| <= SIZE_MAX && GoodJar(jar) && ReadClass(data) == Ok(p)
    requires IsTarget(Class(data, p), k, MainName(), TakesStrings())
    ensures GoodClass(Class(data, p))
    ensures JvmMachine.RunClass(data, jar, limit) == Ok(RunMethod(jar, Class(data, p), p.methods[k], [0], 0, limit))
  {
    hide ReadClass, FindStatic, Lit, MainName, TakesStrings, TakesNothing, RunMethod, GoodJar;
    AcceptedIsGood(data);
    MainLits();
    TargetFound(Class(data, p), 0, k, MainName(), TakesStrings());
  }

  /** Without one it starts with the first `static void main()`, or not at all. */
  lemma RunsPlainMain(data: seq<byte>, jar: Jar, limit: nat, p: Parsed, k: nat)
    requires |data| <= SIZE_MAX && GoodJar(jar) && ReadClass(data) == Ok(p)
    requires HasNone(Class(data, p), MainName(), TakesStrings())
    requires IsTarget(Class(data, p), k, MainName(), TakesNothing())
    ensures GoodClass(Class(data, p))
    ensures JvmMachine.RunClass(data, jar, limit) == Ok(RunMethod(jar, Class(data, p), p.methods[k], [], 0, limit))
  {
    hide ReadClass, FindStatic, Lit, MainName, TakesStrings, TakesNothing, RunMethod, GoodJar;
    AcceptedIsGood(data);
    MainLits();
    NoneFound(Class(data, p), 0, MainName(), TakesStrings());
    TargetFound(Class(data, p), 0, k, MainName(), TakesNothing());
  }

  lemma NeedsMain(data: seq<byte>, jar: Jar, limit: nat, p: Parsed)
    requires |data| <= SIZE_MAX && GoodJar(jar) && ReadClass(data) == Ok(p)
    requires HasNone(Class(data, p), MainName(), TakesStrings()) && HasNone(Class(data, p), MainName(), TakesNothing())
    ensures JvmMachine.RunClass(data, jar, limit) == Reject
  {
    hide ReadClass, FindStatic, Lit, MainName, TakesStrings, TakesNothing, RunMethod, GoodJar;
    MainLits();
    NoneFound(Class(data, p), 0, MainName(), TakesStrings());
    NoneFound(Class(data, p), 0, MainName(), TakesNothing());
  }

  // ---------------------------------------------------------------- writing instructions

  /** A signed number in two bytes of two's complement. */
  function Two(v: int): seq<byte>
    requires -0x8000 <= v < 0x8000
  {
    var u := if v < 0 then v + 0x1_0000 else v;
    [u / 256, u % 256]
  }

  /** The numbers of the binary operators. */
  function BinaryCode(op: BinOp): byte {
    match op
    case Add => 96
    case Sub => 100
    case Mul => 104
    case Div => 108
    case Rem => 112
    case Shl => 120
    case Shr => 122
    case Ushr => 124
    case And => 126
    case Or => 128
    case Xor => 130
  }

  function CondCode(cond: Cond): nat {
    match cond
    case Eq => 0
    case Ne => 1
    case Lt => 2
    case Ge => 3
    case Gt => 4
    case Le => 5
  }

  /** Instructions whose operands have a place in the code. */
  predicate Writable(i: Instr) {
    match i
    case Push(v) => -0x8000 <= v < 0x8000
    case Load(k) => k < 256
    case Store(k) => k < 256
    case Iinc(k, c) => k < 256 && -128 <= c < 128
    case If(_, rel) => -0x8000 <= rel < 0x8000
    case IfCmp(_, rel) => -0x8000 <= rel < 0x8000
    case Goto(rel) => -0x8000_0000 <= rel < 0x8000_0000
    case Constant(idx) => idx < 0x1_0000
    case GetStatic(idx) => idx < 0x1_0000
    case InvokeVirtual(idx) => idx < 0x1_0000
    case InvokeSpecial(idx) => idx < 0x1_0000
    case InvokeStatic(idx) => idx < 0x1_0000
    case New(idx) => idx < 0x1_0000
    case _ => true
  }

  /** An instruction in the code, as a compiler would write it. */
  function Encode(i: Instr): seq<byte>
    requires Writable(i)
  {
    match i
    case Nop => [0]
    case Push(v) =>
      if -1 <= v <= 5 then [3 + v]
      else if -128 <= v < 128 then [16, if v < 0 then v + 256 else v]
      else [17] + Two(v)
    case Constant(idx) => if idx < 256 then [18, idx] else [19, idx / 256, idx % 256]
    case Load(k) => if k < 4 then [26 + k] else [21, k]
    case Store(k) => if k < 4 then [59 + k] else [54, k]
    case Pop => [87]
    case Dup => [89]
    case DupX1 => [90]
    case Swap => [95]
    case Binary(op) => [BinaryCode(op)]
    case Negate => [116]
    case Iinc(k, c) => [132, k, if c < 0 then c + 256 else c]
    case If(cond, rel) => [153 + CondCode(cond)] + Two(rel)
    case IfCmp(cond, rel) => [159 + CondCode(cond)] + Two(rel)
    case Goto(rel) =>
      if -0x8000 <= rel < 0x8000 then [167] + Two(rel)
      else
        var u := if rel < 0 then rel + 0x1_0000_0000 else rel;
        var high, low := u / 0x1_0000, u % 0x1_0000;
        [200, high / 256, high % 256, low / 256, low % 256]
    case ReturnValue => [172]
    case ReturnVoid => [177]
    case GetStatic(idx) => [178, idx / 256, idx % 256]
    case InvokeVirtual(idx) => [182, idx / 256, idx % 256]
    case InvokeSpecial(idx) => [183, idx / 256, idx % 256]
    case InvokeStatic(idx) => [184, idx / 256, idx % 256]
    case New(idx) => [187, idx / 256, idx % 256]
  }

  /** Decoding depends on the bytes of the instruction alone. */
  lemma DecodeAt(pre: seq<byte>, x: seq<byte>, post: seq<byte>, i: Instr)
    requires x != [] && Decode(x, 0) == Some((i, |x|))
    ensures Decode(pre + x + post, |pre|) == Some((i, |x|))
  {
    hide Plain, Short, Long, Signed32;
    var code := pre + x + post;
    assert forall k :: 0 <= k < |x| ==> code[|pre| + k] == x[k];
  }

  /** Every instruction that is written is the one decoded, wherever it stands. */
  lemma EncodedDecodes(pre: seq<byte>, i: Instr, post: seq<byte>)
    requires Writable(i)
    ensures Decode(pre + Encode(i) + post, |pre|) == Some((i, |Encode(i)|))
  {
    hide Decode, Encode;
    EncodedAlone(i);
    DecodeAt(pre, Encode(i), post, i);
  }

  lemma EncodedAlone(i: Instr)
    requires Writable(i)
    ensures Encode(i) != [] && Decode(Encode(i), 0) == Some((i, |Encode(i)|))
  {
    hide Plain, Short, Long, Encode, Writable, Signed32, Rd32;
    var x := Encode(i);
    Lengths(i);
    if |x| == 1 { PlainCode(i); }
    else if |x| == 2 { ShortCode(i); }
    else if |x| == 3 {
      if i.If? || i.IfCmp? { BranchCode(i); } else { LongCode(i); }
    }
    else { WideCode(i); }
  }

  lemma Lengths(i: Instr)
    requires Writable(i)
    ensures |Encode(i)| in {1, 2, 3, 5}
  {
  }

  lemma PlainCode(i: Instr)
    requires Writable(i) && |Encode(i)| == 1
    ensures Plain(Encode(i)[0]) == Some(i)
  {
  }

  lemma ShortCode(i: Instr)
    requires Writable(i) && |Encode(i)| == 2
    ensures Plain(Encode(i)[0]) == None && Short(Encode(i)[0], Encode(i)[1]) == Some(i)
  {
  }

  lemma BranchCode(i: Instr)
    requires Writable(i) && (i.If? || i.IfCmp?)
    ensures var x := Encode(i); |x| == 3 && Plain(x[0]) == None && Short(x[0], x[1]) == None && Long(x[0], x[1], x[2]) == Some(i)
  {
  }

  lemma LongCode(i: Instr)
    requires Writable(i) && |Encode(i)| == 3 && !i.If? && !i.IfCmp?
    ensures var x := Encode(i); Plain(x[0]) == None && Short(x[0], x[1]) == None && Long(x[0], x[1], x[2]) == Some(i)
  {
  }

  lemma WideCode(i: Instr)
    requires Writable(i) && |Encode(i)| == 5
    ensures var x := Encode(i);
            && x[0] == 0xc8 && Plain(200) == None && Short(200, x[1]) == None && Long(200, x[1], x[2]) == None
            && i == Goto(Signed32(Rd32(x, 1)))
  {
  }
}
