/** The integer expression evaluator of src/commands/calc.c, and expression trees written out as text. */
module Calc {
  import opened CStrings
  import opened Wrappers
  import opened Words

  /** A rule's value, the text it leaves unread, and the error flag. */
  datatype Out = Out(v: int, s: string, err: bool)

  predicate IsBlank(c: char) {
    c == ' ' || c == '\t'
  }

  predicate IsDigit(c: char) {
    '0' <= c <= '9'
  }

  function SkipWs(s: string): (r: string)
    ensures |r| <= |s| && (r == "" || !IsBlank(r[0]))
    ensures s == "" || !IsBlank(s[0]) ==> r == s
  {
    if s == "" || !IsBlank(s[0]) then s else SkipWs(s[1..])
  }

  // ---------------------------------------------------------------- the rules

  /** The digits at the front, after those that made `v`. */
  function Number(v: int, s: string): (o: Out)
    ensures |o.s| <= |s|
    decreases |s|
  {
    if s == "" || !IsDigit(s[0]) then Out(v, s, false) else Number(v * 10 + (s[0] - '0') as int, s[1..])
  }

  function Factor(text: string, err: bool): (o: Out)
    ensures |o.s| <= |text| && (err ==> o.err)
    decreases |text|, 0
  {
    var s := SkipWs(text);
    if s != "" && s[0] == '(' then
      var o := Expr(s[1..], err);
      var t := SkipWs(o.s);
      Out(o.v, if t != "" && t[0] == ')' then t[1..] else t, o.err)
    else if s != "" && s[0] == '-' then
      var o := Factor(s[1..], err);
      Out(-o.v, o.s, o.err)
    else
      var o := Number(0, s);
      Out(o.v, o.s, err || o.s == s)
  }

  function TermLoop(v: int, text: string, err: bool): (o: Out)
    ensures |o.s| <= |text| && (err ==> o.err)
    decreases |text|, 1
  {
    var s := SkipWs(text);
    if s != "" && s[0] == '*' then
      var o := Factor(s[1..], err);
      TermLoop(v * o.v, o.s, o.err)
    else if s != "" && s[0] == '/' then
      var o := Factor(s[1..], err);
      if o.v == 0 then Out(0, o.s, true) else TermLoop(TruncDiv(v, o.v), o.s, o.err)
    else Out(v, s, err)
  }

  function Term(text: string, err: bool): (o: Out)
    ensures |o.s| <= |text| && (err ==> o.err)
    decreases |text|, 2
  {
    var o := Factor(text, err);
    TermLoop(o.v, o.s, o.err)
  }

  function ExprLoop(v: int, text: string, err: bool): (o: Out)
    ensures |o.s| <= |text| && (err ==> o.err)
    decreases |text|, 3
  {
    var s := SkipWs(text);
    if s != "" && (s[0] == '+' || s[0] == '-') then
      var o := Term(s[1..], err);
      ExprLoop(if s[0] == '+' then v + o.v else v - o.v, o.s, o.err)
    else Out(v, s, err)
  }

  function Expr(text: string, err: bool): (o: Out)
    ensures |o.s| <= |text| && (err ==> o.err)
    decreases |text|, 4
  {
    var o := Term(text, err);
    ExprLoop(o.v, o.s, o.err)
  }

  /** The evaluator's globals: the text, the position in it and the error flag. */
  class Parser {
    const text: CString
    var pos: nat
    var err: bool

    ghost predicate Valid()
      reads this
    {
      pos <= |text|
    }

    ghost function Left(): string
      reads this
      requires Valid()
    {
      text[pos..]
    }

    constructor (args: CString)
      ensures Valid() && text == args && Left() == args && !err
    {
      text, pos, err := args, 0, false;
    }

    /** *g_pos */
    function Peek(): (c: char)
      reads this
      requires Valid()
      ensures c == At(Left(), 0) && (c == '\0' <==> Left() == "")
    {
      At(text, pos)
    }

    /** g_pos++ */
    method Eat()
      requires Valid() && Left() != ""
      modifies this`pos
      ensures Valid() && Left() == old(Left())[1..] && pos == old(pos) + 1
    {
      pos := pos + 1;
    }

    /** skip_ws */
    method SkipBlanks()
      requires Valid()
      modifies this`pos
      ensures Valid() && Left() == SkipWs(old(Left())) && pos >= old(pos)
    {
      while IsBlank(Peek())
        invariant Valid() && SkipWs(Left()) == SkipWs(old(Left())) && pos >= old(pos)
        decreases |text| - pos
      {
        Eat();
      }
    }

    /** The digits of a number. */
    method ParseNumber() returns (v: int, had: bool)
      requires Valid()
      modifies this`pos
      ensures Valid() && pos >= old(pos) && Out(v, Left(), false) == Number(0, old(Left()))
      ensures had <==> Left() != old(Left())
    {
      v, had := 0, false;
      while IsDigit(Peek())
        invariant Valid() && pos >= old(pos)
        invariant Number(0, old(Left())) == Number(v, Left())
        invariant |Left()| <= |old(Left())| && if had then |Left()| < |old(Left())| else Left() == old(Left())
        decreases |text| - pos
      {
        v := v * 10 + (Peek() - '0') as int;
        Eat();
        had := true;
      }
    }

    /** parse_factor */
    method ParseFactor() returns (v: int)
      requires Valid()
      modifies this`pos, this`err
      ensures Valid() && pos >= old(pos) && Out(v, Left(), err) == Factor(old(Left()), old(err))
      decreases |text| - pos, 0
    {
      hide SkipWs, Expr, Number;
      SkipBlanks();
      if Peek() == '(' {
        Eat();
        v := ParseExpr();
        SkipBlanks();
        if Peek() == ')' { Eat(); }
        return v;
      }
      if Peek() == '-' {
        Eat();
        v := ParseFactor();
        return -v;
      }
      var had;
      v, had := ParseNumber();
      if !had { err := true; }
    }

    /** parse_term */
    method ParseTerm() returns (v: int)
      requires Valid()
      modifies this`pos, this`err
      ensures Valid() && pos >= old(pos) && Out(v, Left(), err) == Term(old(Left()), old(err))
      decreases |text| - pos, 1
    {
      hide SkipWs, Factor, TruncDiv, Expr, ExprLoop, Number;
      v := ParseFactor();
      while true
        invariant Valid() && pos >= old(pos)
        invariant Term(old(Left()), old(err)) == TermLoop(v, Left(), err)
        decreases |text| - pos
      {
        SkipBlanks();
        if Peek() == '*' {
          Eat();
          var f := ParseFactor();
          v := v * f;
        } else if Peek() == '/' {
          Eat();
          var d := ParseFactor();
          if d == 0 {
            err := true;
            return 0;
          }
          v := TruncDiv(v, d);
        } else {
          return v;
        }
      }
    }

    /** parse_expr */
    method ParseExpr() returns (v: int)
      requires Valid()
      modifies this`pos, this`err
      ensures Valid() && pos >= old(pos) && Out(v, Left(), err) == Expr(old(Left()), old(err))
      decreases |text| - pos, 2
    {
      hide SkipWs, Term, Expr, ExprLoop;
      v := ParseTerm();
      ExprStart(old(Left()), old(err));
      while true
        invariant Valid() && pos >= old(pos)
        invariant Expr(old(Left()), old(err)) == ExprLoop(v, Left(), err)
        decreases |text| - pos
      {
        ExprTurn(v, Left(), err);
        SkipBlanks();
        if Peek() == '+' {
          Eat();
          var t := ParseTerm();
          v := v + t;
        } else if Peek() == '-' {
          Eat();
          var t := ParseTerm();
          v := v - t;
        } else {
          return v;
        }
      }
    }
  }

  lemma ExprStart(text: string, err: bool)
    ensures var o := Term(text, err); Expr(text, err) == ExprLoop(o.v, o.s, o.err)
  {
  }

  /** One turn of the loop of an expression. */
  lemma ExprTurn(v: int, text: string, err: bool)
    ensures var s := SkipWs(text);
            if At(s, 0) == '+' then var o := Term(s[1..], err); ExprLoop(v, text, err) == ExprLoop(v + o.v, o.s, o.err)
            else if At(s, 0) == '-' then
              var o := Term(s[1..], err); ExprLoop(v, text, err) == ExprLoop(v - o.v, o.s, o.err)
            else ExprLoop(v, text, err) == Out(v, s, err)
  {
  }

  /** What cmd_calc prints. */
  datatype Answer = Usage | ParseError | Shown(value: int)

  function AnswerOf(o: Out): Answer {
    if o.err then ParseError else Shown(o.v)
  }

  /** cmd_calc */
  method Calculate(args: CString) returns (a: Answer)
    ensures a == if args == "" then Usage else AnswerOf(Expr(args, false))
  {
    if args == "" { return Usage; }
    var parser := new Parser(args);
    var v := parser.ParseExpr();
    return if parser.err then ParseError else Shown(v);
  }

  // ---------------------------------------------------------------- expression trees

  datatype Op = Plus | Minus | Times | Over

  /** Expressions with the blanks in front of their tokens; `Group` is a parenthesis with the blanks in front of the one
      that closes it, or with none. */
  datatype Exp =
    | Num(gap: string, digits: string)
    | Neg(gap: string, e: Exp)
    | Group(gap: string, e: Exp, close: Option<string>)
    | Bin(op: Op, l: Exp, gap: string, r: Exp)

  function Sign(op: Op): char {
    match op
    case Plus => '+'
    case Minus => '-'
    case Times => '*'
    case Over => '/'
  }

  predicate Blank(s: string) {
    forall i :: 0 <= i < |s| ==> IsBlank(s[i])
  }

  predicate Digits(s: string) {
    s != "" && forall i :: 0 <= i < |s| ==> IsDigit(s[i])
  }

  /** Blanks are blank and numbers have digits. */
  predicate Spaced(e: Exp) {
    match e
    case Num(gap, digits) => Blank(gap) && Digits(digits)
    case Neg(gap, x) => Blank(gap) && Spaced(x)
    case Group(gap, x, close) => Blank(gap) && Spaced(x) && (close.Some? ==> Blank(close.value))
    case Bin(_, l, gap, r) => Blank(gap) && Spaced(l) && Spaced(r)
  }

  function Prec(e: Exp): nat {
    if e.Bin? then (if e.op.Plus? || e.op.Minus? then 0 else 1) else 2
  }

  /** The text of the tree ends inside a group that is not closed. */
  predicate Open(e: Exp) {
    match e
    case Num(_, _) => false
    case Neg(_, x) => Open(x)
    case Group(_, _, close) => close.None?
    case Bin(_, _, _, r) => Open(r)
  }

  /** The text of the tree ends with a digit. */
  predicate EndsInDigit(e: Exp) {
    match e
    case Num(_, _) => true
    case Neg(_, x) => EndsInDigit(x)
    case Group(_, x, close) => close.None? && EndsInDigit(x)
    case Bin(_, _, _, r) => EndsInDigit(r)
  }

  /** Written without further parentheses the tree is read as it is: operators of equal rank group to the left, and what
      stands behind an open group is part of it. */
  predicate Plain(e: Exp) {
    match e
    case Num(_, _) => true
    case Neg(_, x) => Plain(x) && Prec(x) == 2
    case Group(_, x, close) => Plain(x) && (close.Some? ==> !Open(x))
    case Bin(_, l, _, r) => Plain(l) && Plain(r) && Prec(l) >= Prec(e) && Prec(r) > Prec(e) && !Open(l)
  }

  function Show(e: Exp): string {
    match e
    case Num(gap, digits) => gap + digits
    case Neg(gap, x) => gap + "-" + Show(x)
    case Group(gap, x, close) => gap + "(" + Show(x) + (if close.Some? then close.value + ")" else "")
    case Bin(op, l, gap, r) => Show(l) + gap + [Sign(op)] + Show(r)
  }

  /** The number a string of digits denotes. */
  function Decimal(digits: string): int {
    if digits == "" then 0
    else Decimal(digits[..|digits| - 1]) * 10 + (digits[|digits| - 1] as int - '0' as int)
  }

  function Apply(op: Op, a: int, b: int): int {
    match op
    case Plus => a + b
    case Minus => a - b
    case Times => a * b
    case Over => if b == 0 then 0 else TruncDiv(a, b)
  }

  function Value(e: Exp): int {
    match e
    case Num(_, digits) => Decimal(digits)
    case Neg(_, x) => -Value(x)
    case Group(_, x, _) => Value(x)
    case Bin(op, l, _, r) => Apply(op, Value(l), Value(r))
  }

  /** No divisor is zero. */
  predicate Safe(e: Exp) {
    match e
    case Num(_, _) => true
    case Neg(_, x) => Safe(x)
    case Group(_, x, _) => Safe(x)
    case Bin(op, l, _, r) => Safe(l) && Safe(r) && (op.Over? ==> Value(r) != 0)
  }

  // ---------------------------------------------------------------- where a tree ends

  /** Text that cannot continue a number. */
  predicate NoDigit(s: string) {
    s == "" || !IsDigit(s[0])
  }

  /** What comes first, behind blanks. */
  predicate Begins(s: string, cs: set<char>) {
    var t := SkipWs(s); t != "" && t[0] in cs
  }

  /** Text that can follow the tree without being read into it. */
  predicate Follows(e: Exp, rest: string) {
    && (EndsInDigit(e) ==> NoDigit(rest))
    && (Open(e) ==> !Begins(rest, {'+', '-', '*', '/', ')'}))
  }

  /** Text before which the tree is a whole term, or a whole expression. */
  predicate EndsTerm(e: Exp, rest: string) {
    Follows(e, rest) && !Begins(rest, {'*', '/'})
  }

  predicate EndsExpr(e: Exp, rest: string) {
    EndsTerm(e, rest) && !Begins(rest, {'+', '-'})
  }

  lemma {:induction false} SkipGap(gap: string, s: string)
    requires Blank(gap)
    ensures SkipWs(gap + s) == SkipWs(s)
    ensures NoDigit(s) ==> NoDigit(gap + s)
    decreases |gap|
  {
    if gap == "" {
      assert gap + s == s;
    } else {
      assert (gap + s)[1..] == gap[1..] + s;
      SkipGap(gap[1..], s);
    }
  }

  // ---------------------------------------------------------------- reading a tree back

  lemma {:induction false} NumberReadsBack(before: string, digits: string, rest: string)
    requires forall i :: 0 <= i < |digits| ==> IsDigit(digits[i])
    requires NoDigit(rest)
    ensures Number(Decimal(before), digits + rest) == Out(Decimal(before + digits), rest, false)
    decreases |digits|
  {
    if digits == "" {
      assert digits + rest == rest && before + digits == before;
    } else {
      var next := before + [digits[0]];
      assert next[..|next| - 1] == before && next + digits[1..] == before + digits;
      assert (digits + rest)[1..] == digits[1..] + rest;
      NumberReadsBack(next, digits[1..], rest);
    }
  }

  lemma FactorOfNumber(gap: string, digits: string, rest: string, err: bool)
    requires Blank(gap) && Digits(digits) && NoDigit(rest)
    ensures Factor(gap + digits + rest, err) == Out(Decimal(digits), rest, err)
  {
    hide Number, Decimal, Expr;
    var t := digits + rest;
    assert gap + digits + rest == gap + t && t[0] == digits[0] && |t| > |rest|;
    SkipGap(gap, t);
    DecimalStart(digits);
    NumberReadsBack("", digits, rest);
  }

  lemma DecimalStart(digits: string)
    ensures "" + digits == digits && Decimal("") == 0
  {
  }

  lemma FactorOfMinus(gap: string, s: string, err: bool)
    requires Blank(gap)
    ensures var o := Factor(s, err); Factor(gap + ("-" + s), err) == Out(-o.v, o.s, o.err)
  {
    var t := "-" + s;
    assert t[1..] == s;
    SkipGap(gap, t);
  }

  lemma FactorOfGroup(gap: string, s: string, err: bool)
    requires Blank(gap)
    ensures var o := Expr(s, err); var t := SkipWs(o.s);
            Factor(gap + ("(" + s), err) == Out(o.v, if t != "" && t[0] == ')' then t[1..] else t, o.err)
  {
    var t := "(" + s;
    assert t[1..] == s;
    SkipGap(gap, t);
  }

  lemma SkipTwice(s: string)
    ensures SkipWs(SkipWs(s)) == SkipWs(s)
  {
  }

  /** One more operator of the loop of a term or of an expression. */
  lemma TermStep(v: int, gap: string, op: Op, s: string, err: bool)
    requires Blank(gap) && (op.Times? || op.Over?)
    ensures var o := Factor(s, err);
            TermLoop(v, gap + [Sign(op)] + s, err) ==
            if op.Over? && o.v == 0 then Out(0, o.s, true) else TermLoop(Apply(op, v, o.v), o.s, o.err)
  {
    hide Factor;
    var t := [Sign(op)] + s;
    assert gap + [Sign(op)] + s == gap + t && t[1..] == s;
    SkipGap(gap, t);
  }

  lemma ExprStep(v: int, gap: string, op: Op, s: string, err: bool)
    requires Blank(gap) && (op.Plus? || op.Minus?)
    ensures var o := Term(s, err);
            ExprLoop(v, gap + [Sign(op)] + s, err) == ExprLoop(Apply(op, v, o.v), o.s, o.err)
  {
    hide Term;
    var t := [Sign(op)] + s;
    assert gap + [Sign(op)] + s == gap + t && t[1..] == s;
    SkipGap(gap, t);
  }

  /** An operator follows any tree that is not open. */
  lemma OperatorFollows(gap: string, op: Op, s: string)
    requires Blank(gap)
    ensures NoDigit(gap + [Sign(op)] + s) && SkipWs(gap + [Sign(op)] + s) == [Sign(op)] + s
  {
    var t := [Sign(op)] + s;
    assert gap + [Sign(op)] + s == gap + t;
    SkipGap(gap, t);
  }

  /** A closing parenthesis ends any tree that is not open. */
  lemma CloseFollows(close: string, rest: string)
    requires Blank(close)
    ensures NoDigit(close + ")" + rest) && SkipWs(close + ")" + rest) == ")" + rest
  {
    var t := ")" + rest;
    assert close + ")" + rest == close + t;
    SkipGap(close, t);
  }

  lemma LoopsSkip(v: int, s: string, err: bool)
    ensures TermLoop(v, SkipWs(s), err) == TermLoop(v, s, err) && ExprLoop(v, SkipWs(s), err) == ExprLoop(v, s, err)
    ensures !Begins(s, {'*', '/'}) ==> TermLoop(v, s, err) == Out(v, SkipWs(s), err)
    ensures !Begins(s, {'+', '-'}) ==> ExprLoop(v, s, err) == Out(v, SkipWs(s), err)
  {
    SkipTwice(s);
  }

  lemma ShowBin(e: Exp, rest: string)
    requires e.Bin?
    ensures Show(e) + rest == Show(e.l) + (e.gap + [Sign(e.op)] + (Show(e.r) + rest))
  {
  }

  lemma ShowNeg(e: Exp, rest: string)
    requires e.Neg?
    ensures Show(e) + rest == e.gap + ("-" + (Show(e.e) + rest))
  {
  }

  lemma ShowGroup(e: Exp, rest: string)
    requires e.Group?
    ensures Show(e) + rest == e.gap + ("(" + (Show(e.e) + (if e.close.Some? then e.close.value + ")" + rest else rest)))
  {
  }

  /** What a factor leaves unread: the blanks behind an open group are gone. */
  function LeftOver(e: Exp, rest: string): string {
    if Open(e) then SkipWs(rest) else rest
  }

  /** `o` is what reading `e` with `left` behind it should give. */
  predicate Reads(o: Out, e: Exp, left: string, err: bool) {
    if Safe(e) then o == Out(Value(e), left, err) else o.err
  }

  lemma {:induction false} FactorReadsBack(e: Exp, rest: string, err: bool)
    requires Plain(e) && Spaced(e) && Prec(e) == 2 && Follows(e, rest)
    ensures Reads(Factor(Show(e) + rest, err), e, LeftOver(e, rest), err)
    decreases e, 0
  {
    hide Factor, Expr, SkipWs, Show;
    match e
    case Num(gap, digits) =>
      ShowNum(e, rest);
      FactorOfNumber(gap, digits, rest, err);
    case Neg(gap, x) =>
      ShowNeg(e, rest);
      FactorOfMinus(gap, Show(x) + rest, err);
      FactorReadsBack(x, rest, err);
    case Group(gap, x, close) =>
      var more := if close.Some? then close.value + ")" + rest else rest;
      ShowGroup(e, rest);
      FactorOfGroup(gap, Show(x) + more, err);
      if close.Some? {
        CloseFollows(close.value, rest);
        SkipTwice(more);
        assert (")" + rest)[1..] == rest;
      } else {
        SkipTwice(rest);
      }
      ExprReadsBack(x, more, err);
  }

  lemma ShowNum(e: Exp, rest: string)
    requires e.Num?
    ensures Show(e) + rest == e.gap + e.digits + rest
  {
  }

  /** A term is read up to where its loop goes on. */
  lemma {:induction false} TermReadsOn(e: Exp, rest: string, err: bool)
    requires Plain(e) && Spaced(e) && Prec(e) >= 1 && Follows(e, rest)
    ensures if Safe(e) then Term(Show(e) + rest, err) == TermLoop(Value(e), rest, err)
            else Term(Show(e) + rest, err).err
    decreases e, 1
  {
    hide Factor, TermLoop, SkipWs, TruncDiv, Show;
    if Prec(e) == 2 {
      FactorReadsBack(e, rest, err);
      LoopsSkip(Value(e), rest, err);
    } else {
      hide Term;
      ShowBin(e, rest);
      OperatorFollows(e.gap, e.op, Show(e.r) + rest);
      TermStep(Value(e.l), e.gap, e.op, Show(e.r) + rest, err);
      TermReadsOn(e.l, e.gap + [Sign(e.op)] + (Show(e.r) + rest), err);
      FactorReadsBack(e.r, rest, err);
      LoopsSkip(Value(e), rest, err);
    }
  }

  lemma {:induction false} ExprReadsOn(e: Exp, rest: string, err: bool)
    requires Plain(e) && Spaced(e) && EndsTerm(e, rest)
    ensures if Safe(e) then Expr(Show(e) + rest, err) == ExprLoop(Value(e), rest, err)
            else Expr(Show(e) + rest, err).err
    decreases e, 2
  {
    hide Term, TermLoop, ExprLoop, SkipWs, TruncDiv, Show;
    LoopsSkip(Value(e), rest, err);
    if Prec(e) >= 1 {
      TermReadsOn(e, rest, err);
    } else {
      LoopsSkip(Value(e.r), rest, err);
      ShowBin(e, rest);
      OperatorFollows(e.gap, e.op, Show(e.r) + rest);
      ExprStep(Value(e.l), e.gap, e.op, Show(e.r) + rest, err);
      ExprReadsOn(e.l, e.gap + [Sign(e.op)] + (Show(e.r) + rest), err);
      TermReadsOn(e.r, rest, err);
    }
  }

  lemma {:induction false} ExprReadsBack(e: Exp, rest: string, err: bool)
    requires Plain(e) && Spaced(e) && EndsExpr(e, rest)
    ensures Reads(Expr(Show(e) + rest, err), e, SkipWs(rest), err)
    decreases e, 3
  {
    hide Expr, ExprLoop, SkipWs, Show;
    LoopsSkip(Value(e), rest, err);
    ExprReadsOn(e, rest, err);
  }

  // ---------------------------------------------------------------- finding the tree in a text

  lemma {:induction false} LeadingBlanks(s: string) returns (gap: string)
    ensures Blank(gap) && s == gap + SkipWs(s)
    decreases |s|
  {
    if s == "" || !IsBlank(s[0]) {
      gap := "";
    } else {
      var more := LeadingBlanks(s[1..]);
      gap := [s[0]] + more;
    }
  }

  lemma {:induction false} LeadingDigits(v: int, s: string) returns (digits: string)
    ensures s == digits + Number(v, s).s && NoDigit(Number(v, s).s)
    ensures forall i :: 0 <= i < |digits| ==> IsDigit(digits[i])
    decreases |s|
  {
    if s == "" || !IsDigit(s[0]) {
      digits := "";
    } else {
      var more := LeadingDigits(v * 10 + (s[0] - '0') as int, s[1..]);
      digits := [s[0]] + more;
    }
  }

  /** A tree that a text starts with, as the evaluator reads it. */
  predicate Found(e: Exp, rest: string, text: string) {
    Plain(e) && Spaced(e) && Safe(e) && text == Show(e) + rest && Follows(e, rest)
  }

  lemma {:induction false} FindFactor(text: string) returns (e: Exp, rest: string)
    requires !Factor(text, false).err
    ensures Found(e, rest, text) && Prec(e) == 2 && |rest| < |text|
    decreases |text|, 0
  {
    hide Expr, SkipWs, Number, Show;
    var s := SkipWs(text);
    var gap := LeadingBlanks(text);
    if s != "" && s[0] == '(' {
      var x, r := FindExpr(s[1..]);
      ExprReadsBack(x, r, false);
      assert s == "(" + s[1..];
      SkipTwice(r);
      if Begins(r, {')'}) {
        var close := LeadingBlanks(r);
        e, rest := Group(gap, x, Some(close)), SkipWs(r)[1..];
        assert r == close + ")" + rest;
      } else {
        e, rest := Group(gap, x, None), r;
      }
      ShowGroup(e, rest);
    } else if s != "" && s[0] == '-' {
      var x, r := FindFactor(s[1..]);
      e, rest := Neg(gap, x), r;
      assert s == "-" + s[1..];
      ShowNeg(e, rest);
    } else {
      var digits := LeadingDigits(0, s);
      e, rest := Num(gap, digits), Number(0, s).s;
      ShowNum(e, rest);
    }
  }

  /** The loop of a term takes in one more factor after another. */
  lemma {:induction false} GrowTerm(l: Exp, r0: string, text: string) returns (e: Exp, rest: string)
    requires Found(l, r0, text) && Prec(l) >= 1 && |r0| < |text| && !TermLoop(Value(l), r0, false).err
    ensures Found(e, rest, text) && Prec(e) >= 1 && !Begins(rest, {'*', '/'}) && |rest| < |text|
    decreases |r0|, 1
  {
    hide Factor, SkipWs, Show, TruncDiv;
    var s := SkipWs(r0);
    if !Begins(r0, {'*', '/'}) { return l, r0; }
    var op := if s[0] == '*' then Times else Over;
    var gap := LeadingBlanks(r0);
    var r, r1 := FindFactor(s[1..]);
    FactorReadsBack(r, r1, false);
    LoopsSkip(Apply(op, Value(l), Value(r)), r1, false);
    var bin := Bin(op, l, gap, r);
    assert s == [Sign(op)] + s[1..];
    Joined(bin, r0, r1);
    e, rest := GrowTerm(bin, r1, text);
  }

  lemma Joined(bin: Exp, r0: string, r1: string)
    requires bin.Bin? && r0 == bin.gap + ([Sign(bin.op)] + (Show(bin.r) + r1))
    ensures Show(bin) + r1 == Show(bin.l) + r0
  {
    ShowBin(bin, r1);
    assert bin.gap + [Sign(bin.op)] + (Show(bin.r) + r1) == r0;
  }

  lemma {:induction false} FindTerm(text: string) returns (e: Exp, rest: string)
    requires !Term(text, false).err
    ensures Found(e, rest, text) && Prec(e) >= 1 && !Begins(rest, {'*', '/'}) && |rest| < |text|
    decreases |text|, 2
  {
    hide Factor, TermLoop, SkipWs, Show;
    var x, r := FindFactor(text);
    FactorReadsBack(x, r, false);
    LoopsSkip(Value(x), r, false);
    e, rest := GrowTerm(x, r, text);
  }

  lemma {:induction false} GrowExpr(l: Exp, r0: string, text: string) returns (e: Exp, rest: string)
    requires Found(l, r0, text) && EndsTerm(l, r0) && |r0| < |text| && !ExprLoop(Value(l), r0, false).err
    ensures Found(e, rest, text) && EndsExpr(e, rest) && |rest| < |text|
    decreases |r0|, 3
  {
    hide Term, TermLoop, SkipWs, Show, TruncDiv;
    var s := SkipWs(r0);
    if !Begins(r0, {'+', '-'}) { return l, r0; }
    var op := if s[0] == '+' then Plus else Minus;
    var gap := LeadingBlanks(r0);
    var r, r1 := FindTerm(s[1..]);
    TermReadsOn(r, r1, false);
    LoopsSkip(Value(r), r1, false);
    LoopsSkip(Apply(op, Value(l), Value(r)), r1, false);
    var bin := Bin(op, l, gap, r);
    assert s == [Sign(op)] + s[1..];
    Joined(bin, r0, r1);
    e, rest := GrowExpr(bin, r1, text);
  }

  lemma {:induction false} FindExpr(text: string) returns (e: Exp, rest: string)
    requires !Expr(text, false).err
    ensures Found(e, rest, text) && EndsExpr(e, rest) && |rest| < |text|
    decreases |text|, 4
  {
    hide Term, TermLoop, ExprLoop, SkipWs, Show;
    var x, r := FindTerm(text);
    TermReadsOn(x, r, false);
    LoopsSkip(Value(x), r, false);
    e, rest := GrowExpr(x, r, text);
  }

  // ---------------------------------------------------------------- the evaluator as a whole

  /** The text starts with the tree, which no more of the text can be read into, and no divisor in it is zero. */
  predicate Starts(text: string, e: Exp, rest: string) {
    Plain(e) && Spaced(e) && Safe(e) && text == Show(e) + rest && EndsExpr(e, rest)
  }

  /**
    * Which texts are accepted: exactly those that start with an expression none of whose divisors is zero, up to where it
    * cannot be read any further.  Its value is the answer; what follows it is not looked at.  A group need not be closed:
    * it goes on to where reading ends, which is in front of anything but an operator or a closing parenthesis.
    */
  lemma AcceptedTexts(text: string)
    ensures !Expr(text, false).err <==> exists e, rest :: Starts(text, e, rest)
    ensures forall e, rest :: Starts(text, e, rest) ==> Expr(text, false) == Out(Value(e), SkipWs(rest), false)
  {
    hide Expr, Show, SkipWs, Plain, Spaced, Safe, Value, EndsExpr;
    forall e, rest | Starts(text, e, rest) ensures Expr(text, false) == Out(Value(e), SkipWs(rest), false) {
      ExprReadsBack(e, rest, false);
    }
    if !Expr(text, false).err {
      var e, rest := FindExpr(text);
      assert Starts(text, e, rest);
    }
  }

  /** Puts a tree in parentheses unless it binds tightly enough. */
  function AtLeast(e: Exp, prec: nat): (r: Exp)
    requires prec <= 2
    ensures Prec(r) >= prec && Value(r) == Value(e) && (Safe(r) <==> Safe(e)) && (!Open(e) ==> !Open(r))
    ensures (!Open(e) ==> (Plain(r) <==> Plain(e))) && (Spaced(r) <==> Spaced(e))
  {
    if Prec(e) >= prec then e else Group("", e, Some(""))
  }

  /** Closes every group and adds the parentheses a tree needs to be read as it stands. */
  function Parenthesized(e: Exp): (r: Exp)
    ensures Plain(r) && !Open(r) && Prec(r) == Prec(e) && Value(r) == Value(e) && (Safe(r) <==> Safe(e))
    ensures Spaced(r) <==> Spaced(e)
  {
    match e
    case Num(_, _) => e
    case Neg(gap, x) => Neg(gap, AtLeast(Parenthesized(x), 2))
    case Group(gap, x, close) => Group(gap, Parenthesized(x), if close.Some? then close else Some(""))
    case Bin(op, l, gap, r) =>
      Bin(op, AtLeast(Parenthesized(l), Prec(e)), gap, AtLeast(Parenthesized(r), Prec(e) + 1))
  }

  /** Every tree may stand at the end of a text. */
  lemma EndsAtEnd(e: Exp)
    ensures EndsExpr(e, "")
  {
  }

  /**
    * The evaluator inverts the printer: the text of any tree, with the parentheses it needs and any blanks, is read to
    * the tree's value and to its end, and reading it is an error exactly when some divisor is zero.
    */
  lemma EvaluateInvertsShow(e: Exp)
    requires Spaced(e)
    ensures var o := Expr(Show(Parenthesized(e)), false);
            AnswerOf(o) == (if Safe(e) then Shown(Value(e)) else ParseError) && (Safe(e) ==> o.s == "")
    ensures Plain(e) ==> AnswerOf(Expr(Show(e), false)) == if Safe(e) then Shown(Value(e)) else ParseError
  {
    hide Expr, Show, Parenthesized;
    var p := Parenthesized(e);
    assert Show(p) + "" == Show(p) && Show(e) + "" == Show(e);
    EndsAtEnd(p);
    EndsAtEnd(e);
    ExprReadsBack(p, "", false);
    if Plain(e) {
      ExprReadsBack(e, "", false);
    }
  }

  /** Text behind a complete expression is never looked at: it changes neither the value nor the error. */
  lemma TrailingTextIgnored(e: Exp, rest: string)
    requires Plain(e) && Spaced(e) && EndsExpr(e, rest)
    ensures AnswerOf(Expr(Show(e) + rest, false)) == AnswerOf(Expr(Show(e), false))
  {
    hide Expr, Show;
    assert Show(e) + "" == Show(e);
    EndsAtEnd(e);
    ExprReadsBack(e, "", false);
    ExprReadsBack(e, rest, false);
  }

  /** Open groups read like closed ones, however deep they nest and whatever follows: "((1 2" reads as "((1))". */
  lemma UnclosedGroupsAccepted(e: Exp, rest: string)
    requires Plain(e) && Spaced(e) && EndsExpr(e, rest)
    ensures AnswerOf(Expr(Show(e) + rest, false)) == AnswerOf(Expr(Show(Parenthesized(e)), false))
  {
    hide Expr, Show, Parenthesized;
    ExprReadsBack(e, rest, false);
    EvaluateInvertsShow(e);
  }

  /** "(1 2)" is accepted as 1: the group is left open before the blank, and the rest is dropped. */
  lemma OpenInTheMiddle()
    ensures Expr("(1 2)", false) == Out(1, "2)", false)
  {
    hide Expr;
    var e := Group("", Num("", "1"), None);
    OneShown();
    assert "(1" + " 2)" == "(1 2)" && " 2)"[0] == ' ' && " 2)"[1..] == "2)" && "2)"[0] == '2';
    ExprReadsBack(e, " 2)", false);
  }

  lemma OneShown()
    ensures Show(Group("", Num("", "1"), None)) == "(1" && Decimal("1") == 1
  {
    assert "" + "1" == "1" && "" + "(" + "1" + "" == "(1" && "1"[..0] == "";
  }
}
