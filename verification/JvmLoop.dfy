/** A loop as a compiler writes it, run to its end: the interpreter of src/commands/java.c on the body of
    `static int sum(int n) { int s = 0; for (int i = 0; i < n; i++) s += i; return s; }`. */
module JvmLoop {
  import opened Bytes
  import opened ClassFile
  import opened Jvm
  import opened JvmLaws
  import opened JvmRun
  import opened Wrappers
  import opened Words

  /** iconst_0 istore_1 iconst_0 istore_2; at 4: iload_2 iload_0 if_icmpge 19; iload_1 iload_2 iadd istore_1; iinc 2 1;
      goto 4; at 19: iload_1 ireturn. */
  function SumCode(): (code: seq<byte>)
    ensures |code| == 21
  {
    [0x03, 0x3c, 0x03, 0x3d, 0x1c, 0x1a, 0xa2, 0x00, 0x0d, 0x1b, 0x1c, 0x60, 0x3c, 0x84, 0x02, 0x01, 0xa7, 0xff, 0xf4,
     0x1b, 0xac]
  }

  /** The variables n, s and i. */
  function Vars(n: int32, s: int32, i: int32): (r: seq<int32>)
    ensures |r| == 64 && r[0] == n && r[1] == s && r[2] == i
  {
    [n, s, i] + Zeros(61)
  }

  lemma VarsStore(n: int32, s: int32, i: int32, v: int32)
    ensures Vars(n, s, i)[1 := v] == Vars(n, v, i) && Vars(n, s, i)[2 := v] == Vars(n, s, v)
    ensures NewFrame([n]) == Frame(0, [], Vars(n, 0, 0))
  {
  }

  /** One step of a run that goes on in `g`. */
  lemma Goes(jar: Jar, c: Class, f: Frame, g: Frame, depth: nat, limit: nat, left: nat)
    requires GoodJar(jar) && GoodClass(c) && |f.locals| == |g.locals| == 64 && depth <= 12 && left > 0
    requires f.pc < 21 && StepOf(c, SumCode(), f) == Next(g, [])
    ensures RunLoop(jar, c, SumCode(), f, depth, limit, left) == RunLoop(jar, c, SumCode(), g, depth, limit, left - 1)
  {
    hide StepOf, SumCode, GoodJar, GoodClass;
    var o := RunLoop(jar, c, SumCode(), g, depth, limit, left - 1);
    assert [] + o.printed == o.printed;
  }

  /** The steps of the loop. */
  lemma LoadStep(c: Class, n: int32, s: int32, i: int32, stack: seq<int32>)
    requires |stack| < 2
    ensures StepOf(c, SumCode(), Frame(4, stack, Vars(n, s, i))) == Next(Frame(5, stack + [i], Vars(n, s, i)), [])
    ensures StepOf(c, SumCode(), Frame(5, stack, Vars(n, s, i))) == Next(Frame(6, stack + [n], Vars(n, s, i)), [])
    ensures StepOf(c, SumCode(), Frame(9, stack, Vars(n, s, i))) == Next(Frame(10, stack + [s], Vars(n, s, i)), [])
    ensures StepOf(c, SumCode(), Frame(10, stack, Vars(n, s, i))) == Next(Frame(11, stack + [i], Vars(n, s, i)), [])
    ensures StepOf(c, SumCode(), Frame(19, stack, Vars(n, s, i))) == Next(Frame(20, stack + [s], Vars(n, s, i)), [])
  {
    hide StepOf, Vars;
    LoadsVariables(c, SumCode(), Frame(4, stack, Vars(n, s, i)));
    LoadsVariables(c, SumCode(), Frame(5, stack, Vars(n, s, i)));
    LoadsVariables(c, SumCode(), Frame(9, stack, Vars(n, s, i)));
    LoadsVariables(c, SumCode(), Frame(10, stack, Vars(n, s, i)));
    LoadsVariables(c, SumCode(), Frame(19, stack, Vars(n, s, i)));
  }

  lemma TestStep(c: Class, n: int32, s: int32, i: int32)
    ensures StepOf(c, SumCode(), Frame(6, [i, n], Vars(n, s, i))) ==
            Next(Frame(if i >= n then 19 else 9, [], Vars(n, s, i)), [])
  {
    hide StepOf, Vars;
    ComparesTwo(c, SumCode(), Frame(6, [i, n], Vars(n, s, i)));
    assert [i, n][..0] == [];
  }

  lemma AddStep(c: Class, n: int32, s: int32, i: int32)
    ensures StepOf(c, SumCode(), Frame(11, [s, i], Vars(n, s, i))) ==
            if -0x8000_0000 <= s + i < 0x8000_0000 then Next(Frame(12, [s + i], Vars(n, s, i)), []) else Overflow
  {
    hide StepOf, Vars;
    AddsAndMultiplies(c, SumCode(), Frame(11, [s, i], Vars(n, s, i)));
  }

  lemma StoreSteps(c: Class, n: int32, s: int32, i: int32, v: int32)
    ensures StepOf(c, SumCode(), Frame(12, [v], Vars(n, s, i))) == Next(Frame(13, [], Vars(n, v, i)), [])
    ensures StepOf(c, SumCode(), Frame(1, [0], Vars(n, s, i))) == Next(Frame(2, [], Vars(n, 0, i)), [])
    ensures StepOf(c, SumCode(), Frame(3, [0], Vars(n, s, i))) == Next(Frame(4, [], Vars(n, s, 0)), [])
  {
    hide StepOf, Vars;
    StoresVariables(c, SumCode(), Frame(12, [v], Vars(n, s, i)));
    StoresVariables(c, SumCode(), Frame(1, [0], Vars(n, s, i)));
    StoresVariables(c, SumCode(), Frame(3, [0], Vars(n, s, i)));
    VarsStore(n, s, i, v);
    VarsStore(n, s, i, 0);
  }

  lemma ZeroSteps(c: Class, n: int32, s: int32, i: int32)
    ensures StepOf(c, SumCode(), Frame(0, [], Vars(n, s, i))) == Next(Frame(1, [0], Vars(n, s, i)), [])
    ensures StepOf(c, SumCode(), Frame(2, [], Vars(n, s, i))) == Next(Frame(3, [0], Vars(n, s, i)), [])
  {
    hide StepOf, Vars;
    PushesConstants(c, SumCode(), Frame(0, [], Vars(n, s, i)));
    PushesConstants(c, SumCode(), Frame(2, [], Vars(n, s, i)));
  }

  lemma BackSteps(c: Class, n: int32, s: int32, i: int32)
    ensures i < 0x7FFF_FFFF ==>
              StepOf(c, SumCode(), Frame(13, [], Vars(n, s, i))) == Next(Frame(16, [], Vars(n, s, i + 1)), [])
    ensures StepOf(c, SumCode(), Frame(16, [], Vars(n, s, i))) == Next(Frame(4, [], Vars(n, s, i)), [])
    ensures StepOf(c, SumCode(), Frame(20, [s], Vars(n, s, i))) == Done(Some(s))
  {
    hide StepOf, Vars;
    NegatesAndIncrements(c, SumCode(), Frame(13, [], Vars(n, s, i)));
    Jumps(c, SumCode(), Frame(16, [], Vars(n, s, i)));
    Returns(c, SumCode(), Frame(20, [s], Vars(n, s, i)));
    if i < 0x7FFF_FFFF { VarsStore(n, s, i, i + 1); }
  }

  /** The run from the head of the loop. */
  function FromHead(jar: Jar, c: Class, n: int32, s: int32, i: int32, depth: nat, limit: nat, left: nat): Outcome
    requires GoodJar(jar) && GoodClass(c) && depth <= 12
  {
    RunLoop(jar, c, SumCode(), Frame(4, [], Vars(n, s, i)), depth, limit, left)
  }

  /** The test at the head of the loop. */
  lemma Head(jar: Jar, c: Class, n: int32, s: int32, i: int32, depth: nat, limit: nat, left: nat)
    requires GoodJar(jar) && GoodClass(c) && depth <= 12 && left >= 3
    ensures FromHead(jar, c, n, s, i, depth, limit, left) ==
            RunLoop(jar, c, SumCode(), Frame(if i >= n then 19 else 9, [], Vars(n, s, i)), depth, limit, left - 3)
  {
    hide StepOf, Vars, SumCode, RunLoop, GoodJar, GoodClass;
    var v := Vars(n, s, i);
    LoadStep(c, n, s, i, []);
    LoadStep(c, n, s, i, [i]);
    TestStep(c, n, s, i);
    assert [] + [i] == [i] && [i] + [n] == [i, n];
    Goes(jar, c, Frame(4, [], v), Frame(5, [i], v), depth, limit, left);
    Goes(jar, c, Frame(5, [i], v), Frame(6, [i, n], v), depth, limit, left - 1);
    Goes(jar, c, Frame(6, [i, n], v), Frame(if i >= n then 19 else 9, [], v), depth, limit, left - 2);
  }

  /** Leaving the loop. */
  lemma Exit(jar: Jar, c: Class, n: int32, s: int32, i: int32, depth: nat, limit: nat, left: nat)
    requires GoodJar(jar) && GoodClass(c) && depth <= 12 && left >= 5 && i >= n
    ensures FromHead(jar, c, n, s, i, depth, limit, left) == Outcome(Finished(Some(s)), [], 0)
  {
    hide StepOf, Vars, SumCode, GoodJar, GoodClass;
    var v := Vars(n, s, i);
    Head(jar, c, n, s, i, depth, limit, left);
    LoadStep(c, n, s, i, []);
    BackSteps(c, n, s, i);
    assert [] + [s] == [s];
    Goes(jar, c, Frame(19, [], v), Frame(20, [s], v), depth, limit, left - 3);
  }

  /** Once round the loop. */
  lemma Round(jar: Jar, c: Class, n: int32, s: int32, i: int32, depth: nat, limit: nat, left: nat)
    requires GoodJar(jar) && GoodClass(c) && depth <= 12 && left >= 9 && i < n && 0 <= s && 0 <= i
    ensures FromHead(jar, c, n, s, i, depth, limit, left) ==
            if s + i < 0x8000_0000 then FromHead(jar, c, n, s + i, i + 1, depth, limit, left - 9)
            else Outcome(Undefined, [], 0)
  {
    hide StepOf, Vars, SumCode, GoodJar, GoodClass;
    var v := Vars(n, s, i);
    Head(jar, c, n, s, i, depth, limit, left);
    LoadStep(c, n, s, i, []);
    LoadStep(c, n, s, i, [s]);
    assert [] + [s] == [s] && [s] + [i] == [s, i];
    Goes(jar, c, Frame(9, [], v), Frame(10, [s], v), depth, limit, left - 3);
    Goes(jar, c, Frame(10, [s], v), Frame(11, [s, i], v), depth, limit, left - 4);
    AddStep(c, n, s, i);
    if s + i < 0x8000_0000 { Rest(jar, c, n, s, i, depth, limit, left); }
  }

  lemma Rest(jar: Jar, c: Class, n: int32, s: int32, i: int32, depth: nat, limit: nat, left: nat)
    requires GoodJar(jar) && GoodClass(c) && depth <= 12 && left >= 9 && i < n && 0 <= s && 0 <= i && s + i < 0x8000_0000
    ensures RunLoop(jar, c, SumCode(), Frame(11, [s, i], Vars(n, s, i)), depth, limit, left - 5) ==
            FromHead(jar, c, n, s + i, i + 1, depth, limit, left - 9)
  {
    hide StepOf, Vars, SumCode, RunLoop, GoodJar, GoodClass;
    var t: int32 := s + i;
    AddStep(c, n, s, i);
    StoreSteps(c, n, s, i, t);
    BackSteps(c, n, t, i);
    BackSteps(c, n, t, i + 1);
    Goes(jar, c, Frame(11, [s, i], Vars(n, s, i)), Frame(12, [t], Vars(n, s, i)), depth, limit, left - 5);
    Goes(jar, c, Frame(12, [t], Vars(n, s, i)), Frame(13, [], Vars(n, t, i)), depth, limit, left - 6);
    Goes(jar, c, Frame(13, [], Vars(n, t, i)), Frame(16, [], Vars(n, t, i + 1)), depth, limit, left - 7);
    Goes(jar, c, Frame(16, [], Vars(n, t, i + 1)), Frame(4, [], Vars(n, t, i + 1)), depth, limit, left - 8);
  }

  /** 0 + 1 + ... + (n - 1) */
  function Triangle(n: nat): (r: nat)
    ensures 2 * r == n * (n - 1)
  {
    if n == 0 then 0 else Triangle(n - 1) + (n - 1)
  }

  lemma {:induction false} TriangleGrows(i: nat, n: nat)
    requires i <= n
    ensures Triangle(i) <= Triangle(n)
    decreases n
  {
    if i < n { TriangleGrows(i, n - 1); }
  }

  /** From any round on. */
  lemma {:induction false} Rounds(jar: Jar, c: Class, n: int32, i: int32, depth: nat, limit: nat, left: nat)
    requires GoodJar(jar) && GoodClass(c) && depth <= 12 && 0 <= i <= n
    requires Triangle(i) < 0x8000_0000 && left >= 9 * (n - i) + 5
    ensures FromHead(jar, c, n, Triangle(i), i, depth, limit, left) ==
            if Triangle(n) < 0x8000_0000 then Outcome(Finished(Some(Triangle(n))), [], 0) else Outcome(Undefined, [], 0)
    decreases n - i
  {
    hide FromHead, GoodJar, GoodClass;
    if i == n {
      Exit(jar, c, n, Triangle(i), i, depth, limit, left);
    } else {
      Round(jar, c, n, Triangle(i), i, depth, limit, left);
      assert Triangle(i + 1) == Triangle(i) + i;
      if Triangle(i + 1) < 0x8000_0000 {
        Rounds(jar, c, n, i + 1, depth, limit, left - 9);
      } else {
        TriangleGrows(i + 1, n);
      }
    }
  }

  lemma FirstOverflow(n: nat)
    ensures Triangle(n) < 0x8000_0000 <==> n <= 65536
  {
    assert Triangle(65536) == 2147450880 by { assert 65536 * 65535 == 4294901760; }
    assert Triangle(65537) == 2147516416 by { assert 65537 * 65536 == 4295032832; }
    if n <= 65536 { TriangleGrows(n, 65536); } else { TriangleGrows(65537, n); }
  }

  /** The loop computes the sum it says, for every argument: 0 + 1 + ... + (n - 1), or nothing for a negative n, and it
      comes to an addition that is no int32 exactly if n is more than 65536. */
  lemma SumIsComputed(jar: Jar, c: Class, m: Method, n: int32, depth: nat, limit: nat)
    requires GoodJar(jar) && GoodClass(c) && GoodMethod(c.bytes, m) && depth <= 12
    requires m.code.Some? && m.codeLen == 21 && CodeBytes(c, m) == SumCode() && limit >= (if n > 0 then 9 * n else 0) + 9
    ensures RunMethod(jar, c, m, [n], depth, limit) ==
            Outcome(if n > 65536 then Undefined else Finished(Some(if n > 0 then n * (n - 1) / 2 else 0)), [], 1)
  {
    hide StepOf, Vars, SumCode, GoodJar, GoodClass, FromHead;
    Enter(jar, c, n, depth, limit);
    if n < 0 {
      Exit(jar, c, n, 0, 0, depth, limit, limit - 4);
    } else {
      FirstOverflow(n);
      Rounds(jar, c, n, 0, depth, limit, limit - 4);
    }
    VarsStore(n, 0, 0, 0);
  }

  lemma Enter(jar: Jar, c: Class, n: int32, depth: nat, limit: nat)
    requires GoodJar(jar) && GoodClass(c) && depth <= 12 && limit >= 4
    ensures RunLoop(jar, c, SumCode(), Frame(0, [], Vars(n, 0, 0)), depth, limit, limit) ==
            FromHead(jar, c, n, 0, 0, depth, limit, limit - 4)
  {
    hide StepOf, Vars, SumCode, RunLoop, GoodJar, GoodClass;
    var v := Vars(n, 0, 0);
    StoreSteps(c, n, 0, 0, 0);
    ZeroSteps(c, n, 0, 0);
    Goes(jar, c, Frame(0, [], v), Frame(1, [0], v), depth, limit, limit);
    Goes(jar, c, Frame(1, [0], v), Frame(2, [], v), depth, limit, limit - 1);
    Goes(jar, c, Frame(2, [], v), Frame(3, [0], v), depth, limit, limit - 2);
    Goes(jar, c, Frame(3, [0], v), Frame(4, [], v), depth, limit, limit - 3);
  }
}
