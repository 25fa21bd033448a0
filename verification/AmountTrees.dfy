/**
Arithmetic trees, without whitespace, parentheses or redundant signs, and what
the parser makes of their printings.
*/
module AmountTrees {
  import opened Text
  import opened AmountGrammar
  import opened AmountParser
  import opened AmountTheorems

  datatype Op = Plus | Minus | Times | By

  datatype Tree = Lit(text: string) | Neg(of: Tree) | Bin(left: Tree, op: Op, right: Tree)

  /** How an operator is written. */
  function Written(op: Op): char {
    match op
    case Plus => '+'
    case Minus => '-'
    case Times => '*'
    case By => '/'
  }

  function OpOf(c: char): Op {
    if c == '+' then Plus else if c == '-' then Minus else if c == '*' then Times else By
  }

  /** The operator chars of the language are these four. */
  lemma OperatorsAreWritten(c: char, op: Op)
    ensures IsSign(c) || IsMulOp(c) ==> Written(OpOf(c)) == c
    ensures OpOf(Written(op)) == op && (IsSign(Written(op)) <==> op.Plus? || op.Minus?)
    ensures IsMulOp(Written(op)) <==> op.Times? || op.By?
  {
  }

  predicate IsSum(op: Op) {
    op.Plus? || op.Minus?
  }

  predicate Readable<V>(a: Arith<V>, x: Tree) {
    match x
    case Lit(text) => IsNumeral(text) && ReadLiteral(a, text).Some?
    case Neg(y) => Readable(a, y)
    case Bin(l, _, r) => Readable(a, l) && Readable(a, r)
  }

  function Eval<V>(a: Arith<V>, x: Tree): V
    requires Readable(a, x)
  {
    match x
    case Lit(text) => ReadLiteral(a, text).value
    case Neg(y) => a.neg(Eval(a, y))
    case Bin(l, Plus, r) => a.add(Eval(a, l), Eval(a, r))
    case Bin(l, Minus, r) => a.sub(Eval(a, l), Eval(a, r))
    case Bin(l, Times, r) => a.mul(Eval(a, l), Eval(a, r))
    case Bin(l, By, r) => a.div(Eval(a, l), Eval(a, r))
  }

  /** The tree a spelling prints: gaps, parentheses and `+` signs dropped. */
  function TreeOfExpr(e: Expr): Tree {
    match e
    case Alone(t) => TreeOfTerm(t)
    case Sum(l, _, op, r) => Bin(TreeOfExpr(l), OpOf(op), TreeOfTerm(r))
  }

  function TreeOfTerm(t: Term): Tree {
    match t
    case Single(f) => TreeOfFactor(f)
    case Product(l, _, op, r) => Bin(TreeOfTerm(l), OpOf(op), TreeOfFactor(r))
  }

  function TreeOfFactor(f: Factor): Tree {
    match f
    case Number(_, text) => Lit(text)
    case Paren(_, e, _) => TreeOfExpr(e)
    case Signed(_, sign, g) => if sign == '-' then Neg(TreeOfFactor(g)) else TreeOfFactor(g)
  }

  lemma {:induction false} ExprEvaluates<V>(a: Arith<V>, e: Expr)
    requires WellFormedExpr(a, e)
    ensures Readable(a, TreeOfExpr(e)) && Eval(a, TreeOfExpr(e)) == ValueExpr(a, e)
  {
    match e
    case Alone(t) => TermEvaluates(a, t);
    case Sum(l, _, op, r) =>
      ExprEvaluates(a, l);
      TermEvaluates(a, r);
  }

  lemma {:induction false} TermEvaluates<V>(a: Arith<V>, t: Term)
    requires WellFormedTerm(a, t)
    ensures Readable(a, TreeOfTerm(t)) && Eval(a, TreeOfTerm(t)) == ValueTerm(a, t)
  {
    match t
    case Single(f) => FactorEvaluates(a, f);
    case Product(l, _, op, r) =>
      TermEvaluates(a, l);
      FactorEvaluates(a, r);
  }

  lemma {:induction false} FactorEvaluates<V>(a: Arith<V>, f: Factor)
    requires WellFormedFactor(a, f)
    ensures Readable(a, TreeOfFactor(f)) && Eval(a, TreeOfFactor(f)) == ValueFactor(a, f)
  {
    match f
    case Number(_, _) =>
    case Paren(_, e, _) => ExprEvaluates(a, e);
    case Signed(_, _, g) => FactorEvaluates(a, g);
  }

  /** Any spelling of a tree, whatever its whitespace and parentheses, parses to the tree's value. */
  lemma PrintingsParse<V(!new)>(a: Arith<V>, x: Tree, i: Input)
    requires SignLaws(a) && WellFormedInput(a, i) && TreeOfExpr(i.amount) == x
    ensures Readable(a, x) && ParseAmount(a, PrintInput(i)) == Some(Eval(a, x))
  {
    ExprEvaluates(a, i.amount);
    SpellingsParse(a, i);
  }

  // ---- a printing with parentheses only where precedence asks for them ----

  /** Orders the calls below that stay on the same tree. */
  function Rank(x: Tree, level: nat): nat {
    match x
    case Lit(_) => 2 - (if level > 2 then 2 else level)
    case Neg(_) => 2 - (if level > 2 then 2 else level)
    case Bin(_, op, _) =>
      if IsSum(op) then (if level == 0 then 0 else if level == 1 then 2 else 1)
      else (if level == 0 then 2 else if level == 1 then 1 else 3)
  }

  function ToExpr(x: Tree): Expr
    decreases x, Rank(x, 0)
  {
    if x.Bin? && IsSum(x.op) then Sum(ToExpr(x.left), "", Written(x.op), ToTerm(x.right))
    else Alone(ToTerm(x))
  }

  function ToTerm(x: Tree): Term
    decreases x, Rank(x, 1)
  {
    if x.Bin? && !IsSum(x.op) then Product(ToTerm(x.left), "", Written(x.op), ToFactor(x.right))
    else Single(ToFactor(x))
  }

  function ToFactor(x: Tree): Factor
    decreases x, Rank(x, 2)
  {
    match x
    case Lit(text) => Number("", text)
    case Neg(y) => Signed("", '-', ToFactor(y))
    case Bin(_, _, _) => Paren("", ToExpr(x), "")
  }

  lemma {:induction false} ToExprPrints<V>(a: Arith<V>, x: Tree)
    requires Readable(a, x)
    ensures WellFormedExpr(a, ToExpr(x)) && TreeOfExpr(ToExpr(x)) == x
    decreases x, Rank(x, 0)
  {
    if x.Bin? && IsSum(x.op) {
      ToExprPrints(a, x.left);
      ToTermPrints(a, x.right);
    } else {
      ToTermPrints(a, x);
    }
  }

  lemma {:induction false} ToTermPrints<V>(a: Arith<V>, x: Tree)
    requires Readable(a, x)
    ensures WellFormedTerm(a, ToTerm(x)) && TreeOfTerm(ToTerm(x)) == x
    decreases x, Rank(x, 1)
  {
    if x.Bin? && !IsSum(x.op) {
      ToTermPrints(a, x.left);
      ToFactorPrints(a, x.right);
    } else {
      ToFactorPrints(a, x);
    }
  }

  lemma {:induction false} ToFactorPrints<V>(a: Arith<V>, x: Tree)
    requires Readable(a, x)
    ensures WellFormedFactor(a, ToFactor(x)) && TreeOfFactor(ToFactor(x)) == x
    decreases x, Rank(x, 2)
  {
    match x
    case Lit(_) =>
    case Neg(y) => ToFactorPrints(a, y);
    case Bin(_, _, _) => ToExprPrints(a, x);
  }

  /** Print, then parse: every tree comes back as its value. */
  lemma TreeRoundTrip<V(!new)>(a: Arith<V>, x: Tree)
    requires SignLaws(a) && Readable(a, x)
    ensures ParseAmount(a, PrintExpr(ToExpr(x))) == Some(Eval(a, x))
  {
    ToExprPrints(a, x);
    var i := Input(ToExpr(x), "", false, "");
    assert PrintInput(i) == PrintExpr(ToExpr(x));
    PrintingsParse(a, x, i);
  }

  // ---- German and English literals ----

  /** The text with both kinds of separator dropped. */
  function DigitsOf(t: string): string {
    if t == "" then "" else (if IsSeparator(t[0]) then "" else [t[0]]) + DigitsOf(t[1..])
  }

  lemma {:induction false} WithoutCat(p: string, q: string, c: char)
    ensures Without(p + q, c) == Without(p, c) + Without(q, c)
    ensures forall d :: d in Without(p, c) <==> d in p && d != c
  {
    if p == "" {
      assert p + q == q;
    } else {
      assert (p + q)[1..] == p[1..] + q;
      WithoutCat(p[1..], q, c);
    }
  }

  lemma {:induction false} WithoutNothing(s: string, c: char)
    requires c !in s
    ensures Without(s, c) == s
  {
    if s == "" {
    } else {
      WithoutNothing(s[1..], c);
    }
  }

  lemma {:induction false} CommasToDotsCat(p: string, q: string)
    ensures CommasToDots(p + q) == CommasToDots(p) + CommasToDots(q)
  {
    if p == "" {
      assert p + q == q;
    } else {
      assert (p + q)[1..] == p[1..] + q;
      CommasToDotsCat(p[1..], q);
    }
  }

  lemma {:induction false} CommasToDotsKeeps(s: string)
    ensures ',' !in CommasToDots(s) && DigitsOf(CommasToDots(s)) == DigitsOf(s)
    ensures ',' !in s ==> CommasToDots(s) == s
  {
    if s == "" {
    } else {
      CommasToDotsKeeps(s[1..]);
      assert CommasToDots(s)[1..] == CommasToDots(s[1..]);
    }
  }

  lemma {:induction false} WithoutKeeps(s: string, c: char)
    requires IsSeparator(c)
    ensures DigitsOf(Without(s, c)) == DigitsOf(s)
  {
    if s == "" {
    } else {
      WithoutKeeps(s[1..], c);
      if s[0] == c {
        assert Without(s, c) == Without(s[1..], c);
      } else {
        assert Without(s, c)[1..] == Without(s[1..], c);
      }
    }
  }

  /** The literal in which `point` is the decimal point and the other kind of separator groups digits. */
  function ReadWith(t: string, point: char): string {
    if t == "" then ""
    else
      (if t[0] == point then "." else if t[0] == '.' || t[0] == ',' then "" else [t[0]]) + ReadWith(t[1..], point)
  }

  lemma {:induction false} ReadsComma(t: string)
    ensures ReadWith(t, ',') == CommasToDots(Without(t, '.'))
  {
    if t == "" {
    } else {
      ReadsComma(t[1..]);
      if t[0] != '.' {
        assert Without(t, '.')[1..] == Without(t[1..], '.');
      } else {
        assert Without(t, '.') == Without(t[1..], '.');
      }
    }
  }

  lemma {:induction false} ReadsDot(t: string)
    ensures ReadWith(t, '.') == Without(t, ',')
  {
    if t == "" {
    } else {
      ReadsDot(t[1..]);
    }
  }

  lemma CommaIsLast(t: string, last: nat)
    requires last < |t| && (t[last] == '.' || t[last] == ',')
    requires forall i :: last < i < |t| ==> t[i] != '.' && t[i] != ','
    ensures LastIndexOf(t, ',') > LastIndexOf(t, '.') <==> t[last] == ','
  {
    LastIs(t, last);
  }

  /** The whole of a normalised literal: the separator that comes last is the decimal point wherever it occurs. */
  lemma NormalizeReadsLast(t: string, last: nat)
    requires last < |t| && (t[last] == '.' || t[last] == ',')
    requires forall i :: last < i < |t| ==> t[i] != '.' && t[i] != ','
    ensures Normalize(t) == ReadWith(t, t[last])
  {
    CommaIsLast(t, last);
    hide LastIndexOf;
    assert t[last] in t;
    ReadsComma(t);
    ReadsDot(t);
    if t[last] == ',' && '.' !in t {
      WithoutNothing(t, '.');
    }
    if t[last] == '.' && ',' !in t {
      WithoutNothing(t, ',');
    }
  }

  /** A literal without separators is read as it is. */
  lemma NormalizeKeepsPlain(t: string)
    requires '.' !in t && ',' !in t
    ensures Normalize(t) == t
  {
  }

  function Count(t: string, c: char): nat {
    if t == "" then 0 else (if t[0] == c then 1 else 0) + Count(t[1..], c)
  }

  lemma {:induction false} CountCat(p: string, q: string, c: char)
    ensures Count(p + q, c) == Count(p, c) + Count(q, c)
  {
    if p == "" {
      assert p + q == q;
    } else {
      assert (p + q)[1..] == p[1..] + q;
      CountCat(p[1..], q, c);
    }
  }

  lemma {:induction false} PointsAreKept(t: string, point: char)
    requires point == '.' || point == ','
    ensures Count(ReadWith(t, point), '.') == Count(t, point)
  {
    if t == "" {
    } else {
      PointsAreKept(t[1..], point);
      var head := if t[0] == point then "." else if t[0] == '.' || t[0] == ',' then "" else [t[0]];
      CountCat(head, ReadWith(t[1..], point), '.');
      assert head != "" ==> head[1..] == "";
    }
  }

  /** So there are as many dots as the last kind of separator occurred: grouped digits are read as one number. */
  lemma NormalizeCountsPoints(t: string, last: nat)
    requires last < |t| && (t[last] == '.' || t[last] == ',')
    requires forall i :: last < i < |t| ==> t[i] != '.' && t[i] != ','
    ensures Count(Normalize(t), '.') == Count(t, t[last])
  {
    NormalizeReadsLast(t, last);
    PointsAreKept(t, t[last]);
  }

  /** Normalising keeps every other char in order and leaves no comma. */
  lemma NormalizeKeepsDigits(t: string)
    ensures ',' !in Normalize(t) && DigitsOf(Normalize(t)) == DigitsOf(t)
  {
    CommasToDotsKeeps(t);
    CommasToDotsKeeps(Without(t, '.'));
    WithoutKeeps(t, '.');
    WithoutKeeps(t, ',');
    WithoutCat(t, "", ',');
  }

  /** The last separator, whichever it was, becomes a dot with the same chars behind it. */
  lemma NormalizeKeepsPoint(t: string, last: nat)
    requires last < |t| && IsSeparator(t[last])
    requires forall i :: last < i < |t| ==> !IsSeparator(t[i])
    ensures EndsWith(Normalize(t), "." + t[last + 1..])
  {
    var q := t[last + 1..];
    assert forall i :: 0 <= i < |q| ==> q[i] == t[last + 1 + i];
    var comma, dot := LastIndexOf(t, ','), LastIndexOf(t, '.');
    assert t[last] == ',' ==> comma == last > dot by { LastIs(t, last); }
    assert t[last] == '.' ==> dot == last > comma by { LastIs(t, last); }
    CutAt(t, last);
    NormalizeEnd(t, t[..last], t[last], q);
  }

  lemma LastIs(t: string, last: nat)
    requires last < |t| && forall i :: last < i < |t| ==> !IsSeparator(t[i])
    ensures LastIndexOf(t, ',') <= last && LastIndexOf(t, '.') <= last
    ensures IsSeparator(t[last]) ==> LastIndexOf(t, t[last]) == last
  {
    var k := LastIndexOf(t, t[last]);
    assert forall i :: k < i < |t| ==> t[i] == t[k + 1..][i - k - 1];
  }

  lemma CutAt(t: string, k: nat)
    requires k < |t|
    ensures t == t[..k] + ([t[k]] + t[k + 1..])
  {
  }

  predicate EndsWith(s: string, tail: string) {
    |tail| <= |s| && s[|s| - |tail|..] == tail
  }

  lemma NormalizeEnd(t: string, p: string, c: char, q: string)
    requires t == p + ([c] + q) && IsSeparator(c)
    requires ',' !in q && '.' !in q
    requires LastIndexOf(t, ',') > LastIndexOf(t, '.') <==> c == ','
    ensures EndsWith(Normalize(t), "." + q)
  {
    assert t[|p|] == c;
    CommasToDotsKeeps(q);
    if c == ',' {
      var p' := if '.' in t then Without(p, '.') else p;
      DropsKind(p, [c] + q, '.');
      CommasToDotsCat(p', [c] + q);
      CommasToDotsCat([c], q);
      EndsWithCat(CommasToDots(p'), "." + q);
    } else {
      var p' := if ',' in t then Without(p, ',') else p;
      DropsKind(p, [c] + q, ',');
      EndsWithCat(p', "." + q);
    }
  }

  lemma DropsKind(p: string, s: string, c: char)
    requires c !in s
    ensures Without(p + s, c) == Without(p, c) + s
  {
    WithoutCat(p, s, c);
    WithoutNothing(s, c);
  }

  lemma EndsWithCat(p: string, s: string)
    ensures EndsWith(p + s, s)
  {
  }
}
