/** The kernel log of src/kernel/klog.c: a ring of the last 8192 characters logged. */
module KernelLog {
  import opened CStrings
  import opened Digits
  import opened Words

  const CAPACITY: nat := 8192

  /** The last characters of a text, at most n. */
  function Last(s: string, n: nat): (r: string)
    ensures |r| == Min(|s|, n)
  {
    s[|s| - Min(|s|, n)..]
  }

  // ---------------------------------------------------------------- the formatted text

  /** klog_level_char */
  function LevelChar(level: int): (c: char)
    ensures c != '\0'
  {
    if 0 <= level <= 7 then '0' + level as char else '?'
  }

  /** What one call logs, `n` being the running number of the line. */
  function Line(n: nat, level: int, subsys: CString, msg: CString): string {
    "<" + [LevelChar(level)] + "> [" + Numeral(n, 10) + "] [" + (if subsys == "" then "core" else subsys) + "] " + msg
    + "\n"
  }

  /** A line in ASCII: "<", the level as a digit, or "?" for a level outside 0 to 7, "> [", the running number, "] [", the
      subsystem or "core", "] ", the message and a line feed. */
  lemma LineLayout(n: nat, level: int, subsys: CString, msg: CString)
    ensures var line, number := Line(n, level, subsys, msg), Numeral(n, 10);
            var who := if |subsys| == 0 then [99 as char, 111 as char, 114 as char, 101 as char] else subsys;
            var digit := if level < 0 || level > 7 then 63 as char else (48 + level) as char;
            line == [60 as char, digit, 62 as char, 32 as char, 91 as char] + number + [93 as char, 32 as char, 91 as char]
                    + who + [93 as char, 32 as char] + msg + [10 as char]
  {
  }

  /** The 32-bit line counter, k calls after n. */
  function Numbered(n: nat, k: nat): nat {
    (n + k) % WORD
  }

  datatype Op = Log(level: int, subsys: CString, msg: CString) | Clear

  /** The text logged since the last clear, and the line counter, which a clear does not reset. */
  datatype State = State(text: string, lines: nat)

  function Apply(s: State, op: Op): State {
    match op
    case Clear => s.(text := "")
    case Log(level, subsys, msg) =>
      var n := Numbered(s.lines, 1);
      State(s.text + Line(n, level, subsys, msg), n)
  }

  function Run(s: State, ops: seq<Op>): State
    decreases |ops|
  {
    if ops == [] then s else Apply(Run(s, ops[..|ops| - 1]), ops[|ops| - 1])
  }

  predicate NoClear(ops: seq<Op>) {
    forall i :: 0 <= i < |ops| ==> ops[i].Log?
  }

  /** The lines of a run without a clear, numbered from `n` on. */
  function Lines(n: nat, ops: seq<Op>): string
    requires NoClear(ops)
    decreases |ops|
  {
    if ops == [] then ""
    else
      var op := ops[|ops| - 1];
      Lines(n, ops[..|ops| - 1]) + Line((n + |ops|) % WORD, op.level, op.subsys, op.msg)
  }

  lemma {:induction false} RunAppends(s: State, ops: seq<Op>)
    requires NoClear(ops) && s.lines < WORD
    ensures Run(s, ops) == State(s.text + Lines(s.lines, ops), (s.lines + |ops|) % WORD)
    decreases |ops|
  {
    hide Line, Numbered;
    if ops == [] {
      assert s.text + "" == s.text;
      NextNumber(s.lines, 0);
    } else {
      RunAppends(s, ops[..|ops| - 1]);
      NextNumber(s.lines, |ops| - 1);
      NextNumber(s.lines, |ops|);
      var op := ops[|ops| - 1];
      Regroup(s.text, Lines(s.lines, ops[..|ops| - 1]), Line((s.lines + |ops|) % WORD, op.level, op.subsys, op.msg));
    }
  }

  lemma Regroup(a: string, b: string, c: string)
    ensures a + b + c == a + (b + c)
  {
  }

  lemma NextNumber(n: nat, k: nat)
    ensures n < WORD ==> Numbered(n, 0) == n
    ensures Numbered(n, k) == (n + k) % WORD
    ensures k > 0 ==> Numbered(Numbered(n, k - 1), 1) == Numbered(n, k)
  {
    if k > 0 { OneOn(n + k - 1); }
  }

  lemma OneOn(x: nat)
    ensures (x % WORD + 1) % WORD == (x + 1) % WORD
  {
    var q, r := x / WORD, x % WORD;
    if r + 1 == WORD {
      assert x + 1 == WORD * (q + 1);
    } else {
      assert x + 1 == WORD * q + (r + 1);
    }
  }

  lemma {:induction false} RunSplits(s: State, a: seq<Op>, b: seq<Op>)
    ensures Run(s, a + b) == Run(Run(s, a), b)
    decreases |b|
  {
    if b == [] {
      assert a + b == a;
    } else {
      assert (a + b)[..|a + b| - 1] == a + b[..|b| - 1];
      RunSplits(s, a, b[..|b| - 1]);
    }
  }

  lemma {:induction false} RunCounts(s: State, ops: seq<Op>)
    requires s.lines < WORD
    ensures Run(s, ops).lines < WORD
    decreases |ops|
  {
    if ops != [] {
      RunCounts(s, ops[..|ops| - 1]);
    }
  }

  /**
    * The text in the log is that of the calls since the last clear, in order, and their numbers go on from the calls
    * before it.
    */
  lemma TextSinceClear(before: seq<Op>, after: seq<Op>)
    requires NoClear(after)
    ensures var s := State("", 0);
            Run(s, before + [Clear] + after).text == Lines(Run(s, before).lines, after)
  {
    var s := State("", 0);
    RunSplits(s, before + [Clear], after);
    assert (before + [Clear])[..|before|] == before;
    RunCounts(s, before);
    RunAppends(Run(s, before + [Clear]), after);
    assert "" + Lines(Run(s, before).lines, after) == Lines(Run(s, before).lines, after);
  }

  // ---------------------------------------------------------------- the ring

  /** What a ring holds, oldest first. */
  function Rotated(ring: seq<char>, head: nat, size: nat): (r: string)
    requires |ring| == CAPACITY && head < CAPACITY && size <= CAPACITY && (size < CAPACITY ==> head == size)
    ensures |r| == size
  {
    if size < CAPACITY then ring[..size] else ring[head..] + ring[..head]
  }

  predicate Shape(ring: seq<char>, head: nat, size: nat) {
    |ring| == CAPACITY && head < CAPACITY && size <= CAPACITY && (size < CAPACITY ==> head == size)
  }

  /** One more character pushes the oldest out of a full ring. */
  lemma RingPut(ring: seq<char>, head: nat, size: nat, c: char, text: string)
    requires Shape(ring, head, size) && Rotated(ring, head, size) == Last(text, CAPACITY)
    ensures var next, more := (head + 1) % CAPACITY, if size < CAPACITY then size + 1 else size;
            && Shape(ring[head := c], next, more)
            && Rotated(ring[head := c], next, more) == Last(text + [c], CAPACITY)
  {
    var next, more := (head + 1) % CAPACITY, if size < CAPACITY then size + 1 else size;
    var r, t := Rotated(ring[head := c], next, more), Rotated(ring, head, size) + [c];
    if size < CAPACITY {
      assert r == t;
    } else {
      assert r == t[1..];
    }
    assert Last(text + [c], CAPACITY) == t[|t| - more..];
  }

  /** Where the i-th oldest character is stored. */
  lemma RingAt(ring: seq<char>, head: nat, size: nat, i: nat)
    requires Shape(ring, head, size) && i < size
    ensures Rotated(ring, head, size)[i] == ring[((head + CAPACITY - size) % CAPACITY + i) % CAPACITY]
  {
    if size < CAPACITY {
      assert (head + CAPACITY - size) % CAPACITY == 0 && i % CAPACITY == i;
    } else {
      assert (head + CAPACITY - size) % CAPACITY == head;
      assert (head + i) % CAPACITY == if head + i < CAPACITY then head + i else head + i - CAPACITY;
    }
  }

  /** A log that fits the ring and the buffer is read whole. */
  lemma ReadsWhole(text: string, maxLen: nat)
    ensures |text| < maxLen && |text| <= CAPACITY ==> Last(text, CAPACITY) == text && text[..|text|] == text
  {
  }

  class Ring {
    const ring: array<char>
    var head: nat
    var size: nat
    var lines: nat
    ghost var text: string

    ghost predicate Valid()
      reads this, ring
    {
      && ring.Length == CAPACITY && lines < WORD && Shape(ring[..], head, size)
      && Rotated(ring[..], head, size) == Last(text, CAPACITY)
    }

    ghost function Abs(): State
      reads this
    {
      State(text, lines)
    }

    /** klog_init */
    constructor ()
      ensures Valid() && fresh(ring) && Abs() == State("", 0)
    {
      ring := new char[CAPACITY](_ => '\0');
      head, size, lines, text := 0, 0, 0, "";
    }

    /** klog_clear */
    method Clear()
      requires Valid()
      modifies this, ring
      ensures Valid() && Abs() == Apply(old(Abs()), Op.Clear)
    {
      head, size, text := 0, 0, "";
      forall i | 0 <= i < CAPACITY { ring[i] := '\0'; }
    }

    /** klog_ring_putc */
    method Putc(c: char)
      requires Valid()
      modifies this`head, this`size, this`text, ring
      ensures Valid() && text == old(text) + [c]
    {
      hide Rotated, Last;
      RingPut(ring[..], head, size, c, text);
      ghost var was := ring[..];
      ring[head] := c;
      assert ring[..] == was[head := c];
      head := (head + 1) % CAPACITY;
      if size < CAPACITY { size := size + 1; }
      text := text + [c];
    }

    /** klog_ring_puts */
    method Puts(s: CString)
      requires Valid()
      modifies this`head, this`size, this`text, ring
      ensures Valid() && text == old(text) + s
    {
      hide Valid;
      assert s[..0] == "" && old(text) + "" == old(text);
      for i := 0 to |s|
        invariant Valid() && text == old(text) + s[..i]
      {
        Putc(s[i]);
        assert s[..i + 1] == s[..i] + [s[i]];
        assert old(text) + s[..i] + [s[i]] == old(text) + (s[..i] + [s[i]]);
      }
      assert s[..|s|] == s;
    }

    /** klog_log */
    method Log(level: int, subsys: CString, msg: CString)
      requires Valid()
      modifies this, ring
      ensures Valid() && Abs() == Apply(old(Abs()), Op.Log(level, subsys, msg))
    {
      hide Valid, Rotated, Shape;
      var name := if subsys == "" then "core" else subsys;
      var n := Count();
      var number := new char[16];
      WordFits(n, 10);
      ghost var end := Utoa(n, 10, number);
      var digits := Text(number, end, n);
      Level(level);
      Field(digits);
      Field(name);
      Puts(msg);
      Putc('\n');
      LineOf(old(text), n, level, subsys, msg);
    }

    /** The level in angle brackets. */
    method Level(level: int)
      requires Valid()
      modifies this`head, this`size, this`text, ring
      ensures Valid() && text == old(text) + ("<" + [LevelChar(level)] + "> ")
    {
      hide Valid;
      Putc('<');
      Putc(LevelChar(level));
      Putc('>');
      Putc(' ');
    }

    /** A field in square brackets. */
    method Field(s: CString)
      requires Valid()
      modifies this`head, this`size, this`text, ring
      ensures Valid() && text == old(text) + ("[" + s + "] ")
    {
      hide Valid;
      Putc('[');
      Puts(s);
      Putc(']');
      Putc(' ');
      assert old(text) + ['['] + s + [']'] + [' '] == old(text) + ("[" + s + "] ");
    }

    /** g_klog_lines++ */
    method Count() returns (n: nat)
      requires Valid()
      modifies this`lines
      ensures Valid() && n == lines == (old(lines) + 1) % WORD
    {
      lines := (lines + 1) % WORD;
      n := lines;
    }

    /** klog_read */
    method Read(out: array<char>, maxLen: int) returns (n: nat)
      requires Valid() && maxLen <= out.Length && out != ring
      modifies out
      ensures maxLen <= 0 ==> n == 0 && out[..] == old(out[..])
      ensures maxLen > 0 ==>
                var kept := Last(text, CAPACITY);
                && n == Min(|kept|, maxLen - 1) && out[..n] == kept[..n] && out[n] == '\0'
                && out[n + 1..] == old(out[n + 1..])
      ensures |text| < maxLen && |text| <= CAPACITY ==> out[..n] == text  // nothing is lost of a short log
    {
      hide Last, Rotated;
      n := 0;
      if maxLen <= 0 { return; }
      ReadsWhole(text, maxLen);
      if size == 0 {
        out[0] := '\0';
        return;
      }
      var copyLen := size;
      if copyLen > maxLen - 1 { copyLen := maxLen - 1; }
      var start := (head + CAPACITY - size) % CAPACITY;
      ghost var kept := Rotated(ring[..], head, size);
      for i := 0 to copyLen
        invariant out[..i] == kept[..i] && out[i..] == old(out[i..])
        invariant ring[..] == old(ring[..])
      {
        RingAt(ring[..], head, size, i);
        assert out[i..][1..] == old(out[i..])[1..];
        out[i] := ring[(start + i) % CAPACITY];
      }
      assert out[copyLen..][1..] == old(out[copyLen..])[1..];
      out[copyLen] := '\0';
      n := copyLen;
    }
  }

  /** The C string in a buffer that ends at `end`. */
  method Text(buf: array<char>, ghost end: nat, ghost n: nat) returns (s: CString)
    requires end < buf.Length && buf[..end] == Numeral(n, 10) && buf[end] == '\0'
    ensures s == Numeral(n, 10)
  {
    var i := 0;
    while buf[i] != '\0'
      invariant i <= end && (i < end ==> buf[..end][i] != '\0')
      decreases end - i
    {
      i := i + 1;
    }
    s := buf[..i];
  }

  lemma LineOf(text: string, n: nat, level: int, subsys: CString, msg: CString)
    ensures var name := if subsys == "" then "core" else subsys;
            text + ("<" + [LevelChar(level)] + "> ") + ("[" + Numeral(n, 10) + "] ") + ("[" + name + "] ") + msg + ['\n']
            == text + Line(n, level, subsys, msg)
  {
    hide Numeral;
    var name := if subsys == "" then "core" else subsys;
    assert Line(n, level, subsys, msg) ==
      ("<" + [LevelChar(level)] + "> ") + ("[" + Numeral(n, 10) + "] ") + ("[" + name + "] ") + msg + ['\n'];
  }
}
