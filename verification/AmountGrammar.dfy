/**
The amount language of the `!döner` command, written as a concrete syntax tree:
every way to spell an amount, with its whitespace, signs and parentheses, and
the value the spelling stands for. Nothing here knows how the text is parsed.

An f64 is a value of any type `V` together with its operations; `parse` is the
standard library's `str::parse::<f64>`.
*/
module AmountGrammar {
  import opened Text

  datatype Arith<!V> = Arith(
    one: V,
    neg: V -> V,
    add: (V, V) -> V,
    sub: (V, V) -> V,
    mul: (V, V) -> V,
    div: (V, V) -> V,
    parse: string -> Option<V>)

  /** What f64 promises about signs: 1·v = v, −1·v = −v and −(−v) = v. */
  ghost predicate SignLaws<V(!new)>(a: Arith<V>) {
    forall v: V ::
      && a.mul(a.one, v) == v
      && a.mul(a.neg(a.one), v) == a.neg(v)
      && a.neg(a.neg(v)) == v
  }

  // ---- number literals ----

  predicate IsSeparator(c: char) { c == '.' || c == ',' }

  predicate IsExpMark(c: char) { c == 'e' || c == 'E' }

  predicate IsSign(c: char) { c == '+' || c == '-' }

  /** Digits and separators in any order, with at least one digit. */
  predicate IsMantissa(s: string) {
    && (forall i :: 0 <= i < |s| ==> IsDigit(s[i]) || IsSeparator(s[i]))
    && exists i :: 0 <= i < |s| && IsDigit(s[i])
  }

  /** `e` or `E`, at most one sign, and at least one digit. */
  predicate IsExponent(s: string) {
    && |s| >= 2 && IsExpMark(s[0])
    && var digits := if IsSign(s[1]) then s[2..] else s[1..];
       digits != "" && AllDigits(digits)
  }

  predicate IsNumeral(s: string) {
    exists k: nat :: k <= |s| && IsMantissa(s[..k]) && (k == |s| || IsExponent(s[k..]))
  }

  function Without(s: string, c: char): string {
    if s == "" then "" else (if s[0] == c then "" else [s[0]]) + Without(s[1..], c)
  }

  function CommasToDots(s: string): string {
    if s == "" then "" else [if s[0] == ',' then '.' else s[0]] + CommasToDots(s[1..])
  }

  /** The greatest index holding `c`, or -1. */
  function LastIndexOf(s: string, c: char): (i: int)
    ensures -1 <= i < |s|
    ensures i == -1 <==> c !in s
    ensures i >= 0 ==> s[i] == c && c !in s[i + 1..]
  {
    if s == "" then -1
    else if s[|s| - 1] == c then |s| - 1
    else
      var i := LastIndexOf(s[..|s| - 1], c);
      assert s == s[..|s| - 1] + [s[|s| - 1]];
      assert i >= 0 ==> s[i + 1..] == s[..|s| - 1][i + 1..] + [s[|s| - 1]];
      i
  }

  /**
  A lone kind of separator is the decimal point; with both kinds present the one
  that comes last is, and the other kind groups digits and is dropped.
  */
  function Normalize(t: string): string {
    if ',' in t && '.' in t then
      if LastIndexOf(t, ',') > LastIndexOf(t, '.') then CommasToDots(Without(t, '.'))
      else Without(t, ',')
    else if ',' in t then CommasToDots(t)
    else t
  }

  function ReadLiteral<V>(a: Arith<V>, t: string): Option<V> {
    a.parse(Normalize(t))
  }

  // ---- the syntax tree ----

  datatype Expr =
    | Alone(term: Term)
    | Sum(left: Expr, gap: string, op: char, right: Term)

  datatype Term =
    | Single(factor: Factor)
    | Product(left: Term, gap: string, op: char, right: Factor)

  datatype Factor =
    | Number(lead: string, text: string)
    | Paren(lead: string, inner: Expr, gap: string)
    | Signed(lead: string, sign: char, of: Factor)

  predicate IsMulOp(c: char) { c == '*' || c == '/' }

  function Cons(c: char, s: string): string { [c] + s }

  function Infix(l: string, gap: string, op: char, r: string): string {
    l + (gap + Cons(op, r))
  }

  function PrintExpr(e: Expr): string {
    match e
    case Alone(t) => PrintTerm(t)
    case Sum(l, gap, op, r) => Infix(PrintExpr(l), gap, op, PrintTerm(r))
  }

  function PrintTerm(t: Term): string {
    match t
    case Single(f) => PrintFactor(f)
    case Product(l, gap, op, r) => Infix(PrintTerm(l), gap, op, PrintFactor(r))
  }

  function PrintFactor(f: Factor): string {
    f.lead +
    match f
    case Number(_, text) => text
    case Paren(_, e, gap) => Cons('(', Infix(PrintExpr(e), gap, ')', ""))
    case Signed(_, sign, g) => Cons(sign, PrintFactor(g))
  }

  /** Gaps are whitespace, operators are where they belong, and every literal can be read. */
  predicate WellFormedExpr<V>(a: Arith<V>, e: Expr) {
    match e
    case Alone(t) => WellFormedTerm(a, t)
    case Sum(l, gap, op, r) =>
      WellFormedExpr(a, l) && AllWhitespace(gap) && IsSign(op) && WellFormedTerm(a, r)
  }

  predicate WellFormedTerm<V>(a: Arith<V>, t: Term) {
    match t
    case Single(f) => WellFormedFactor(a, f)
    case Product(l, gap, op, r) =>
      WellFormedTerm(a, l) && AllWhitespace(gap) && IsMulOp(op) && WellFormedFactor(a, r)
  }

  predicate WellFormedFactor<V>(a: Arith<V>, f: Factor) {
    AllWhitespace(f.lead) &&
    match f
    case Number(_, text) => IsNumeral(text) && ReadLiteral(a, text).Some?
    case Paren(_, e, gap) => WellFormedExpr(a, e) && AllWhitespace(gap)
    case Signed(_, sign, g) => IsSign(sign) && WellFormedFactor(a, g)
  }

  /** The arithmetic an operator char stands for. */
  function Apply<V>(a: Arith<V>, op: char, x: V, y: V): V {
    if op == '+' then a.add(x, y)
    else if op == '-' then a.sub(x, y)
    else if op == '*' then a.mul(x, y)
    else a.div(x, y)
  }

  function ValueExpr<V>(a: Arith<V>, e: Expr): V
    requires WellFormedExpr(a, e)
  {
    match e
    case Alone(t) => ValueTerm(a, t)
    case Sum(l, _, op, r) => Apply(a, op, ValueExpr(a, l), ValueTerm(a, r))
  }

  function ValueTerm<V>(a: Arith<V>, t: Term): V
    requires WellFormedTerm(a, t)
  {
    match t
    case Single(f) => ValueFactor(a, f)
    case Product(l, _, op, r) => Apply(a, op, ValueTerm(a, l), ValueFactor(a, r))
  }

  function ValueFactor<V>(a: Arith<V>, f: Factor): V
    requires WellFormedFactor(a, f)
  {
    match f
    case Number(_, text) => ReadLiteral(a, text).value
    case Paren(_, e, _) => ValueExpr(a, e)
    case Signed(_, sign, g) => if sign == '-' then a.neg(ValueFactor(a, g)) else ValueFactor(a, g)
  }

  // ---- whole inputs ----

  /** An amount as a user may type it: an expression, then optionally a `€`. */
  datatype Input = Input(amount: Expr, gap: string, euro: bool, trail: string)

  const EURO: char := '\U{20AC}'

  function EuroSuffix(euro: bool, trail: string): string {
    if euro then Cons(EURO, trail) else ""
  }

  function PrintInput(i: Input): string {
    PrintExpr(i.amount) + (i.gap + EuroSuffix(i.euro, i.trail))
  }

  predicate WellFormedInput<V>(a: Arith<V>, i: Input) {
    WellFormedExpr(a, i.amount) && AllWhitespace(i.gap) && AllWhitespace(i.trail)
  }

  /** `raw` spells the value `v`. */
  ghost predicate Spells<V>(a: Arith<V>, raw: string, v: V) {
    exists i: Input :: WellFormedInput(a, i) && PrintInput(i) == raw && ValueExpr(a, i.amount) == v
  }
}
