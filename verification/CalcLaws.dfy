/** The grammar that the head of src/commands/calc.c promises, in ASCII, and that the evaluator follows it: precedence,
    grouping to the left, blanks and tabs in front of every token. */
module CalcLaws {
  import opened Calc
  import opened Wrappers
  import opened Words
  import Written = Digits

  /** NUMBER | '-' factor | '(' expr ')', each token with the blanks in front of it. */
  datatype Atom =
    | Literal(gap: string, ds: seq<nat>)
    | Negated(gap: string, a: Atom)
    | Bracketed(gap: string, s: Sum, close: string)

  /** factor (('*' | '/') factor)* */
  datatype Product =
    | Single(a: Atom)
    | Multiplied(p: Product, gap: string, a: Atom)
    | Divided(p: Product, gap: string, a: Atom)

  /** term (('+' | '-') term)* */
  datatype Sum =
    | Alone(p: Product)
    | Added(s: Sum, gap: string, p: Product)
    | Subtracted(s: Sum, gap: string, p: Product)

  /** Blanks and horizontal tabs. */
  predicate Gap(s: string) {
    forall i :: 0 <= i < |s| ==> s[i] as int == 32 || s[i] as int == 9
  }

  predicate Decimals(ds: seq<nat>) {
    ds != [] && forall i :: 0 <= i < |ds| ==> ds[i] < 10
  }

  predicate ProperAtom(a: Atom) {
    match a
    case Literal(gap, ds) => Gap(gap) && Decimals(ds)
    case Negated(gap, x) => Gap(gap) && ProperAtom(x)
    case Bracketed(gap, s, close) => Gap(gap) && ProperSum(s) && Gap(close)
  }

  predicate ProperProduct(p: Product) {
    match p
    case Single(a) => ProperAtom(a)
    case Multiplied(l, gap, a) => ProperProduct(l) && Gap(gap) && ProperAtom(a)
    case Divided(l, gap, a) => ProperProduct(l) && Gap(gap) && ProperAtom(a)
  }

  predicate ProperSum(s: Sum) {
    match s
    case Alone(p) => ProperProduct(p)
    case Added(l, gap, p) => ProperSum(l) && Gap(gap) && ProperProduct(p)
    case Subtracted(l, gap, p) => ProperSum(l) && Gap(gap) && ProperProduct(p)
  }

  // ---------------------------------------------------------------- texts and values

  function Numerals(ds: seq<nat>): (r: string)
    requires forall i :: 0 <= i < |ds| ==> ds[i] < 10
    ensures |r| == |ds|
  {
    if ds == [] then "" else Numerals(ds[..|ds| - 1]) + [(48 + ds[|ds| - 1]) as char]
  }

  function AtomText(a: Atom): string
    requires ProperAtom(a)
  {
    match a
    case Literal(gap, ds) => gap + Numerals(ds)
    case Negated(gap, x) => gap + [45 as char] + AtomText(x)
    case Bracketed(gap, s, close) => gap + [40 as char] + SumText(s) + close + [41 as char]
  }

  function ProductText(p: Product): string
    requires ProperProduct(p)
  {
    match p
    case Single(a) => AtomText(a)
    case Multiplied(l, gap, a) => ProductText(l) + gap + [42 as char] + AtomText(a)
    case Divided(l, gap, a) => ProductText(l) + gap + [47 as char] + AtomText(a)
  }

  function SumText(s: Sum): string
    requires ProperSum(s)
  {
    match s
    case Alone(p) => ProductText(p)
    case Added(l, gap, p) => SumText(l) + gap + [43 as char] + ProductText(p)
    case Subtracted(l, gap, p) => SumText(l) + gap + [45 as char] + ProductText(p)
  }

  function NumberOf(ds: seq<nat>): nat {
    if ds == [] then 0 else NumberOf(ds[..|ds| - 1]) * 10 + ds[|ds| - 1]
  }

  /** Division that cuts the fraction off. */
  function Cut(a: int, b: int): int
    requires b != 0
  {
    if a >= 0 then a / b else -((-a) / b)
  }

  /** The value, unless a divisor is zero. */
  function AtomValue(a: Atom): Option<int> {
    match a
    case Literal(_, ds) => Some(NumberOf(ds))
    case Negated(_, x) => var v := AtomValue(x); if v.Some? then Some(-v.value) else None
    case Bracketed(_, s, _) => SumValue(s)
  }

  function ProductValue(p: Product): Option<int> {
    match p
    case Single(a) => AtomValue(a)
    case Multiplied(l, _, a) =>
      var v, w := ProductValue(l), AtomValue(a);
      if v.Some? && w.Some? then Some(v.value * w.value) else None
    case Divided(l, _, a) =>
      var v, w := ProductValue(l), AtomValue(a);
      if v.Some? && w.Some? && w.value != 0 then Some(Cut(v.value, w.value)) else None
  }

  function SumValue(s: Sum): Option<int> {
    match s
    case Alone(p) => ProductValue(p)
    case Added(l, _, p) =>
      var v, w := SumValue(l), ProductValue(p);
      if v.Some? && w.Some? then Some(v.value + w.value) else None
    case Subtracted(l, _, p) =>
      var v, w := SumValue(l), ProductValue(p);
      if v.Some? && w.Some? then Some(v.value - w.value) else None
  }

  // ---------------------------------------------------------------- as the evaluator's trees

  function AtomTree(a: Atom): Exp
    requires ProperAtom(a)
  {
    match a
    case Literal(gap, ds) => Num(gap, Numerals(ds))
    case Negated(gap, x) => Neg(gap, AtomTree(x))
    case Bracketed(gap, s, close) => Group(gap, SumTree(s), Some(close))
  }

  function ProductTree(p: Product): Exp
    requires ProperProduct(p)
  {
    match p
    case Single(a) => AtomTree(a)
    case Multiplied(l, gap, a) => Bin(Times, ProductTree(l), gap, AtomTree(a))
    case Divided(l, gap, a) => Bin(Over, ProductTree(l), gap, AtomTree(a))
  }

  function SumTree(s: Sum): Exp
    requires ProperSum(s)
  {
    match s
    case Alone(p) => ProductTree(p)
    case Added(l, gap, p) => Bin(Plus, SumTree(l), gap, ProductTree(p))
    case Subtracted(l, gap, p) => Bin(Minus, SumTree(l), gap, ProductTree(p))
  }

  lemma {:induction false} NumeralsMeaning(ds: seq<nat>)
    requires forall i :: 0 <= i < |ds| ==> ds[i] < 10
    ensures Decimal(Numerals(ds)) == NumberOf(ds)
    ensures forall i :: 0 <= i < |ds| ==> IsDigit(Numerals(ds)[i])
    decreases |ds|
  {
    if ds != [] {
      NumeralsMeaning(ds[..|ds| - 1]);
      assert Numerals(ds)[..|ds| - 1] == Numerals(ds[..|ds| - 1]);
    }
  }

  lemma CutIsTruncation(a: int, b: int)
    requires b != 0
    ensures Cut(a, b) == TruncDiv(a, b)
  {
    if b < 0 { NegativeDivisor(Abs(a), -b); }
  }

  lemma NegativeDivisor(x: int, y: int)
    requires x >= 0 && y > 0
    ensures x / -y == -(x / y)
  {
    var q, r := x / -y, x % -y;
    assert x == q * -y + r && 0 <= r < y;
    assert q * -y == -q * y;
    SameQuotient(-q, r, x / y, x % y, y);
  }

  lemma SameQuotient(q: int, r: int, k: int, t: int, y: int)
    requires q * y + r == k * y + t && 0 <= r < y && 0 <= t < y
    ensures q == k
  {
    assert (q - k) * y == t - r;
    Multiple(q - k, y);
  }

  lemma Multiple(d: int, y: int)
    requires y > 0
    ensures d >= 1 ==> d * y >= y
    ensures d <= -1 ==> d * y <= -y
  {
  }

  /** `e` says what `text` says, is read as it stands, and has the value `v`. */
  predicate Matches(e: Exp, text: string, v: Option<int>, prec: nat) {
    && Plain(e) && Spaced(e) && !Open(e) && Prec(e) >= prec && Show(e) == text
    && (Safe(e) <==> v.Some?) && (v.Some? ==> Value(e) == v.value)
  }

  lemma GapIsBlank(s: string)
    ensures Gap(s) ==> Blank(s)
  {
  }

  lemma {:induction false} AtomMatches(a: Atom)
    requires ProperAtom(a)
    ensures Matches(AtomTree(a), AtomText(a), AtomValue(a), 2)
    decreases a
  {
    GapIsBlank(a.gap);
    match a
    case Literal(gap, ds) =>
      NumeralsMeaning(ds);
    case Negated(gap, x) =>
      AtomMatches(x);
    case Bracketed(gap, s, close) =>
      GapIsBlank(close);
      SumMatches(s);
      assert Show(AtomTree(a)) == AtomText(a);
  }

  lemma {:induction false} ProductMatches(p: Product)
    requires ProperProduct(p)
    ensures Matches(ProductTree(p), ProductText(p), ProductValue(p), 1)
    decreases p
  {
    hide TruncDiv, Cut;
    AtomMatches(p.a);
    if !p.Single? {
      GapIsBlank(p.gap);
      ProductMatches(p.p);
      var v, w := ProductValue(p.p), AtomValue(p.a);
      if v.Some? && w.Some? && w.value != 0 { CutIsTruncation(v.value, w.value); }
    }
  }

  lemma {:induction false} SumMatches(s: Sum)
    requires ProperSum(s)
    ensures Matches(SumTree(s), SumText(s), SumValue(s), 0)
    decreases s
  {
    ProductMatches(s.p);
    if !s.Alone? {
      GapIsBlank(s.gap);
      SumMatches(s.s);
    }
  }

  // ---------------------------------------------------------------- the laws

  /** The evaluator follows the grammar: whatever expression is written, with blanks and tabs anywhere in front of its
      tokens, the answer is its value, and an error exactly if a divisor in it is zero. */
  lemma FollowsGrammar(s: Sum)
    requires ProperSum(s)
    ensures AnswerOf(Expr(SumText(s), false)) == if SumValue(s).Some? then Shown(SumValue(s).value) else ParseError
  {
    hide Expr;
    SumMatches(s);
    EvaluateInvertsShow(SumTree(s));
  }

  function DigitsOf(n: nat): seq<nat>
    decreases n
  {
    if n < 10 then [n] else DigitsOf(n / 10) + [n % 10]
  }

  /** Decimal numerals: the digits are the characters 48 to 57, in positional order. */
  lemma {:induction false} NumeralDigits(n: nat)
    ensures Decimals(DigitsOf(n)) && NumberOf(DigitsOf(n)) == n
    ensures Written.Numeral(n, 10) == Numerals(DigitsOf(n))
    decreases n
  {
    var ds := DigitsOf(n);
    if n < 10 {
      assert ds[..0] == [];
    } else {
      NumeralDigits(n / 10);
      assert ds[..|ds| - 1] == DigitsOf(n / 10);
    }
  }

  /** Every number that is written in decimal is read as itself, behind any blanks and tabs. */
  lemma NumeralsAreRead(gap: string, n: nat)
    requires Gap(gap)
    ensures Expr(gap + Written.Numeral(n, 10), false) == Out(n, "", false)
  {
    hide Expr, Show;
    NumeralDigits(n);
    NumeralsMeaning(DigitsOf(n));
    GapIsBlank(gap);
    var e := Num(gap, Numerals(DigitsOf(n)));
    ShowNum(e, "");
    assert Show(e) + "" == Show(e) && gap + Written.Numeral(n, 10) + "" == gap + Written.Numeral(n, 10);
    EndsAtEnd(e);
    ExprReadsBack(e, "", false);
  }

  /** A blank or a tab in front changes nothing, whatever the text is. */
  lemma BlankInFront(c: char, text: string, err: bool)
    requires c as int == 32 || c as int == 9
    ensures Expr([c] + text, err) == Expr(text, err)
  {
    assert ([c] + text)[1..] == text;
    assert Factor([c] + text, err) == Factor(text, err) by {
      hide Expr, Number;
      assert SkipWs([c] + text) == SkipWs(text);
    }
  }

  // ---------------------------------------------------------------- blanks between tokens

  function TightAtom(a: Atom): Atom {
    match a
    case Literal(_, ds) => Literal("", ds)
    case Negated(_, x) => Negated("", TightAtom(x))
    case Bracketed(_, s, _) => Bracketed("", TightSum(s), "")
  }

  function TightProduct(p: Product): Product {
    match p
    case Single(a) => Single(TightAtom(a))
    case Multiplied(l, _, a) => Multiplied(TightProduct(l), "", TightAtom(a))
    case Divided(l, _, a) => Divided(TightProduct(l), "", TightAtom(a))
  }

  /** The same tokens without blanks. */
  function TightSum(s: Sum): Sum {
    match s
    case Alone(p) => Alone(TightProduct(p))
    case Added(l, _, p) => Added(TightSum(l), "", TightProduct(p))
    case Subtracted(l, _, p) => Subtracted(TightSum(l), "", TightProduct(p))
  }

  lemma {:induction false} TightAtomKeeps(a: Atom)
    ensures AtomValue(TightAtom(a)) == AtomValue(a) && (ProperAtom(a) ==> ProperAtom(TightAtom(a)))
    decreases a
  {
    match a
    case Literal(_, _) =>
    case Negated(_, x) => TightAtomKeeps(x);
    case Bracketed(_, s, _) => TightSumKeeps(s);
  }

  lemma {:induction false} TightProductKeeps(p: Product)
    ensures ProductValue(TightProduct(p)) == ProductValue(p) && (ProperProduct(p) ==> ProperProduct(TightProduct(p)))
    decreases p
  {
    hide Cut;
    TightAtomKeeps(p.a);
    if !p.Single? { TightProductKeeps(p.p); }
  }

  lemma {:induction false} TightSumKeeps(s: Sum)
    ensures SumValue(TightSum(s)) == SumValue(s) && (ProperSum(s) ==> ProperSum(TightSum(s)))
    decreases s
  {
    TightProductKeeps(s.p);
    if !s.Alone? { TightSumKeeps(s.s); }
  }

  /** Blanks and tabs in front of tokens change no answer: two texts of the same tokens are answered alike. */
  lemma BlanksChangeNothing(s: Sum, t: Sum)
    requires ProperSum(s) && ProperSum(t) && TightSum(s) == TightSum(t)
    ensures AnswerOf(Expr(SumText(s), false)) == AnswerOf(Expr(SumText(t), false))
  {
    hide Expr, SumText, ProperSum;
    TightSumKeeps(s);
    TightSumKeeps(t);
    FollowsGrammar(s);
    FollowsGrammar(t);
  }

  // ---------------------------------------------------------------- other characters

  /** Digits, blanks and tabs, and the characters of the grammar but the parentheses. */
  predicate Continues(c: char) {
    var b := c as int;
    48 <= b <= 57 || b == 32 || b == 9 || b == 42 || b == 43 || b == 45 || b == 47
  }

  /** No other character is part of an expression: behind a number it ends the text, and in front of one it is an
      error, but for an opening parenthesis. */
  lemma OtherCharacters(n: nat, c: char, rest: string, err: bool)
    requires !Continues(c)
    ensures AnswerOf(Expr(Written.Numeral(n, 10) + ([c] + rest), false)) == Shown(n)
    ensures c as int != 40 ==> Expr([c] + rest, err).err
  {
    hide Expr, Show;
    var ds := DigitsOf(n);
    NumeralDigits(n);
    NumeralsMeaning(ds);
    var e, more := Num("", Numerals(ds)), [c] + rest;
    ShowNum(e, more);
    assert "" + Numerals(ds) + more == Numerals(ds) + more;
    assert SkipWs(more) == more && more[0] == c;
    ExprReadsBack(e, more, false);
    if c as int != 40 { NotAFactor(c, more, err); }
  }

  lemma NotAFactor(c: char, text: string, err: bool)
    requires !Continues(c) && c as int != 40 && text != "" && text[0] == c
    ensures Expr(text, err).err
  {
    assert SkipWs(text) == text && Number(0, text) == Out(0, text, false);
    assert Factor(text, err).err;
  }
}
