/**
The parser reads exactly the amount language and returns the value each spelling
stands for.
*/
module AmountTheorems {
  import opened Text
  import opened AmountGrammar
  import opened AmountParser

  /** A char that cannot lengthen a numeral follows, or nothing does. */
  predicate NumeralEnds(rest: string) {
    rest != "" ==> !IsDigit(rest[0]) && !IsSeparator(rest[0]) && !IsExpMark(rest[0])
  }

  predicate NoMulOp(rest: string) {
    var t := TrimStart(rest);
    t != "" ==> !IsMulOp(t[0])
  }

  // ---- numerals: the scan takes the longest numeral and nothing else ----

  lemma {:induction false} ScanDigits(d: string, rest: string, need: bool)
    requires AllDigits(d) && NumeralEnds(rest)
    requires d != "" || !need
    ensures ScanNumber(d + rest, true, true, need) == Scan(|d|, true, false)
  {
    if d == "" {
      assert d + rest == rest;
    } else {
      assert (d + rest)[1..] == d[1..] + rest;
      ScanDigits(d[1..], rest, false);
    }
  }

  lemma {:induction false} ScanExponent(x: string, rest: string)
    requires IsExponent(x) && NumeralEnds(rest)
    ensures ScanNumber(x + rest, true, false, false) == Scan(|x|, true, false)
  {
    var n := if IsSign(x[1]) then 2 else 1;
    assert (x + rest)[0] == x[0] && (x + rest)[1] == x[1];
    assert (x + rest)[n..] == x[n..] + rest;
    ScanDigits(x[n..], rest, true);
  }

  lemma {:induction false} ScanMantissa(m: string, rest: string, sawDigit: bool)
    requires forall i :: 0 <= i < |m| ==> IsDigit(m[i]) || IsSeparator(m[i])
    ensures ScanNumber(m + rest, sawDigit, false, false)
         == Skipped(|m|, ScanNumber(rest, sawDigit || exists i :: 0 <= i < |m| && IsDigit(m[i]), false, false))
  {
    if m == "" {
      assert m + rest == rest;
    } else {
      assert (m + rest)[1..] == m[1..] + rest;
      ScanMantissa(m[1..], rest, sawDigit || IsDigit(m[0]));
      if i :| 0 <= i < |m| && IsDigit(m[i]) {
        assert i > 0 ==> IsDigit(m[1..][i - 1]);
      }
    }
  }

  lemma ScanTakesNumeral(t: string, rest: string)
    requires IsNumeral(t) && NumeralEnds(rest)
    ensures ScanNumber(t + rest, false, false, false) == Scan(|t|, true, false)
  {
    var k: nat :| k <= |t| && IsMantissa(t[..k]) && (k == |t| || IsExponent(t[k..]));
    ScanSplitNumeral(t[..k], t[k..], rest);
    assert t == t[..k] + t[k..];
  }

  lemma ScanSplitNumeral(m: string, x: string, rest: string)
    requires IsMantissa(m) && (x == "" || IsExponent(x)) && NumeralEnds(rest)
    ensures ScanNumber((m + x) + rest, false, false, false) == Scan(|m + x|, true, false)
  {
    assert (m + x) + rest == m + (x + rest);
    ScanMantissa(m, x + rest, false);
    if x == "" {
      assert x + rest == rest;
    } else {
      ScanExponent(x, rest);
    }
  }

  /** After the exponent mark the scan takes digits only. */
  lemma {:induction false} ScannedDigits(s: string, need: bool)
    ensures var r := ScanNumber(s, true, true, need);
            AllDigits(s[..r.len]) && (r.needExpDigit <==> need && r.len == 0) && r.sawDigit
  {
    if s == "" || !IsDigit(s[0]) {
    } else {
      ScannedDigits(s[1..], false);
      var r := ScanNumber(s[1..], true, true, false);
      assert s[..1 + r.len] == [s[0]] + s[1..][..r.len];
    }
  }

  lemma {:induction false} ScannedExponent(s: string)
    requires s != "" && IsExpMark(s[0])
    ensures var r := ScanNumber(s, true, false, false);
            r.sawDigit && (r.needExpDigit || IsExponent(s[..r.len]))
  {
    var r := ScanNumber(s, true, false, false);
    var n := if |s| > 1 && IsSign(s[1]) then 2 else 1;
    ScannedDigits(s[n..], true);
    assert s[..r.len][n..] == s[n..][..r.len - n];
  }

  /** An accepted scan read a mantissa, then an exponent or nothing. */
  lemma {:induction false} ScannedShape(s: string, sawDigit: bool) returns (m: string, x: string)
    requires var r := ScanNumber(s, sawDigit, false, false); r.sawDigit && !r.needExpDigit
    ensures m + x == s[..ScanNumber(s, sawDigit, false, false).len]
    ensures x == "" || IsExponent(x)
    ensures if sawDigit then forall i :: 0 <= i < |m| ==> IsDigit(m[i]) || IsSeparator(m[i]) else IsMantissa(m)
  {
    var r := ScanNumber(s, sawDigit, false, false);
    if s != "" && (IsDigit(s[0]) || IsSeparator(s[0])) {
      m, x := ScannedShape(s[1..], sawDigit || IsDigit(s[0]));
      ConsTake(s, r.len);
      m := Prepended(s[0], m, sawDigit);
    } else {
      m, x := "", s[..r.len];
      if s != "" && IsExpMark(s[0]) {
        ScannedExponent(s);
      }
    }
  }

  lemma ConsTake(s: string, n: nat)
    requires 0 < n <= |s|
    ensures s[..n] == Cons(s[0], s[1..][..n - 1])
  {
  }

  lemma Prepended(c: char, m: string, sawDigit: bool) returns (m': string)
    requires IsDigit(c) || IsSeparator(c)
    requires if sawDigit || IsDigit(c) then forall i :: 0 <= i < |m| ==> IsDigit(m[i]) || IsSeparator(m[i]) else IsMantissa(m)
    ensures m' == Cons(c, m)
    ensures if sawDigit then forall i :: 0 <= i < |m'| ==> IsDigit(m'[i]) || IsSeparator(m'[i]) else IsMantissa(m')
  {
    m' := Cons(c, m);
    if IsDigit(c) {
      assert IsDigit(m'[0]);
    } else if !sawDigit {
      var i :| 0 <= i < |m| && IsDigit(m[i]);
      assert IsDigit(m'[i + 1]);
    }
  }

  lemma ScanSound(s: string)
    requires var r := ScanNumber(s, false, false, false); r.sawDigit && !r.needExpDigit
    ensures IsNumeral(s[..ScanNumber(s, false, false, false).len])
  {
    var m, x := ScannedShape(s, false);
    var t := s[..ScanNumber(s, false, false, false).len];
    assert t[..|m|] == m && t[|m|..] == x;
  }

  lemma NumeralStart(t: string)
    requires IsNumeral(t)
    ensures t != "" && (IsDigit(t[0]) || IsSeparator(t[0]))
  {
    var k: nat :| k <= |t| && IsMantissa(t[..k]) && (k == |t| || IsExponent(t[k..]));
    assert t[..k][0] == t[0];
  }

  lemma NumeralEnd(t: string)
    requires IsNumeral(t)
    ensures t != "" && (IsDigit(t[|t| - 1]) || IsSeparator(t[|t| - 1]))
  {
    var k: nat :| k <= |t| && IsMantissa(t[..k]) && (k == |t| || IsExponent(t[k..]));
    if k == |t| {
      assert t[..k] == t;
    } else {
      ExponentEnd(t[k..]);
      assert t[|t| - 1] == t[k..][|t| - k - 1];
    }
  }

  lemma ExponentEnd(x: string)
    requires IsExponent(x)
    ensures IsDigit(x[|x| - 1])
  {
    var digits := if IsSign(x[1]) then x[2..] else x[1..];
    assert digits[|digits| - 1] == x[|x| - 1];
  }

  // ---- strings ----

  lemma ConsParts(c: char, s: string)
    ensures Cons(c, s) != "" && Cons(c, s)[0] == c && Cons(c, s)[1..] == s
    ensures !IsWhitespace(c) ==> TrimStart(Cons(c, s)) == Cons(c, s)
  {
  }

  lemma ConsOf(s: string)
    requires s != ""
    ensures s == Cons(s[0], s[1..])
  {
  }

  lemma ConsCat(c: char, s: string, rest: string)
    ensures Cons(c, s) + rest == Cons(c, s + rest)
  {
  }

  lemma Assoc(p: string, q: string, r: string)
    ensures (p + q) + r == p + (q + r)
  {
  }

  lemma InfixCat(l: string, gap: string, op: char, r: string, rest: string)
    ensures Infix(l, gap, op, r) + rest == l + (gap + Cons(op, r + rest))
  {
    Assoc(l, gap + Cons(op, r), rest);
    Assoc(gap, Cons(op, r), rest);
    ConsCat(op, r, rest);
  }

  lemma OperatorChar(c: char)
    requires c == ')' || IsSign(c) || IsMulOp(c)
    ensures !IsWhitespace(c) && !IsDigit(c) && !IsSeparator(c) && !IsExpMark(c)
  {
  }

  /** Behind its gap an operator or `)` is found, and it ends any numeral before it. */
  lemma GapThen(gap: string, c: char, s: string)
    requires AllWhitespace(gap) && (c == ')' || IsSign(c) || IsMulOp(c))
    ensures TrimStart(gap + Cons(c, s)) == Cons(c, s)
    ensures Cons(c, s) != "" && Cons(c, s)[0] == c && Cons(c, s)[1..] == s
    ensures NumeralEnds(gap + Cons(c, s))
  {
    OperatorChar(c);
    TrimStartSkips(gap, Cons(c, s));
    ConsParts(c, s);
    if gap != "" {
      assert (gap + Cons(c, s))[0] == gap[0];
    } else {
      assert gap + Cons(c, s) == Cons(c, s);
    }
  }

  // ---- completeness: every spelling is parsed to its value ----

  function Body(f: Factor): string {
    match f
    case Number(_, text) => text
    case Paren(_, e, gap) => Cons('(', Infix(PrintExpr(e), gap, ')', ""))
    case Signed(_, sign, g) => Cons(sign, PrintFactor(g))
  }

  lemma FactorText<V>(a: Arith<V>, f: Factor, rest: string)
    requires WellFormedFactor(a, f)
    ensures TrimStart(PrintFactor(f) + rest) == Body(f) + rest
  {
    Assoc(f.lead, Body(f), rest);
    TrimStartSkips(f.lead, Body(f) + rest);
    match f
    case Number(_, text) => NumeralStart(text);
    case Paren(_, e, gap) =>
    case Signed(_, sign, g) =>
  }

  lemma NumberComplete<V>(a: Arith<V>, text: string, rest: string)
    requires IsNumeral(text) && ReadLiteral(a, text).Some? && NumeralEnds(rest)
    ensures ParseNumber(a, text + rest) == Parsed(ReadLiteral(a, text).value, rest)
  {
    NumeralStart(text);
    ScanTakesNumeral(text, rest);
    assert (text + rest)[..|text|] == text && (text + rest)[|text|..] == rest;
  }

  lemma ParenComplete<V(!new)>(a: Arith<V>, e: Expr, gap: string, rest: string)
    requires SignLaws(a) && WellFormedExpr(a, e) && AllWhitespace(gap)
    ensures ParseAtom(a, Cons('(', Infix(PrintExpr(e), gap, ')', "")) + rest) == Parsed(ValueExpr(a, e), rest)
    decreases e, 6
  {
    var inner := PrintExpr(e) + (gap + Cons(')', rest));
    ConsCat('(', Infix(PrintExpr(e), gap, ')', ""), rest);
    InfixCat(PrintExpr(e), gap, ')', "", rest);
    assert "" + rest == rest;
    ConsParts('(', inner);
    GapThen(gap, ')', rest);
    ExprComplete(a, e, gap + Cons(')', rest));
  }

  /** With the sign read so far, the rest of a factor is read to the signed value. */
  lemma {:induction false} SignedComplete<V(!new)>(a: Arith<V>, sign: V, f: Factor, rest: string)
    requires SignLaws(a) && (sign == a.one || sign == a.neg(a.one))
    requires WellFormedFactor(a, f) && NumeralEnds(rest)
    ensures ParseSigned(a, sign, Body(f) + rest) == Parsed(a.mul(sign, ValueFactor(a, f)), rest)
    decreases f, 1
  {
    match f
    case Number(_, text) =>
      NumeralStart(text);
      NumberComplete(a, text, rest);
    case Paren(_, e, gap) =>
      ParenComplete(a, e, gap, rest);
    case Signed(_, c, g) =>
      ConsCat(c, PrintFactor(g), rest);
      ConsParts(c, PrintFactor(g) + rest);
      FactorText(a, g, rest);
      SignedComplete(a, if c == '-' then a.neg(sign) else sign, g, rest);
  }

  lemma FactorComplete<V(!new)>(a: Arith<V>, f: Factor, rest: string)
    requires SignLaws(a) && WellFormedFactor(a, f) && NumeralEnds(rest)
    ensures ParseFactor(a, PrintFactor(f) + rest) == Parsed(ValueFactor(a, f), rest)
    decreases f, 2
  {
    FactorText(a, f, rest);
    SignedComplete(a, a.one, f, rest);
  }

  lemma {:induction false} TermComplete<V(!new)>(a: Arith<V>, t: Term, rest: string)
    requires SignLaws(a) && WellFormedTerm(a, t) && NumeralEnds(rest)
    ensures ParseTerm(a, PrintTerm(t) + rest) == TermTail(a, ValueTerm(a, t), rest)
    decreases t, 3
  {
    match t
    case Single(f) => FactorComplete(a, f, rest);
    case Product(l, gap, op, r) =>
      var tail := gap + Cons(op, PrintFactor(r) + rest);
      InfixCat(PrintTerm(l), gap, op, PrintFactor(r), rest);
      GapThen(gap, op, PrintFactor(r) + rest);
      TermComplete(a, l, tail);
      FactorComplete(a, r, rest);
  }

  lemma TermThenTail<V(!new)>(a: Arith<V>, t: Term, rest: string, lhs: V)
    requires SignLaws(a) && WellFormedTerm(a, t) && NumeralEnds(rest) && NoMulOp(rest)
    ensures ParseTerm(a, PrintTerm(t) + rest) == Parsed(ValueTerm(a, t), TrimStart(rest))
    ensures ExprTail(a, lhs, TrimStart(rest)) == ExprTail(a, lhs, rest)
    decreases t, 4
  {
    TermComplete(a, t, rest);
    assert TrimStart(TrimStart(rest)) == TrimStart(rest);
  }

  lemma {:induction false} ExprComplete<V(!new)>(a: Arith<V>, e: Expr, rest: string)
    requires SignLaws(a) && WellFormedExpr(a, e) && NumeralEnds(rest) && NoMulOp(rest)
    ensures ParseExpr(a, PrintExpr(e) + rest) == ExprTail(a, ValueExpr(a, e), rest)
    decreases e, 5
  {
    match e
    case Alone(t) => TermThenTail(a, t, rest, ValueTerm(a, t));
    case Sum(l, gap, op, r) =>
      var tail := gap + Cons(op, PrintTerm(r) + rest);
      InfixCat(PrintExpr(l), gap, op, PrintTerm(r), rest);
      GapThen(gap, op, PrintTerm(r) + rest);
      ExprComplete(a, l, tail);
      TermThenTail(a, r, rest, ValueExpr(a, e));
  }

  // ---- soundness: what is parsed was spelled that way ----

  /** Puts whitespace in front of a factor. */
  lemma Indent<V>(a: Arith<V>, w: string, f: Factor) returns (f': Factor)
    requires AllWhitespace(w) && WellFormedFactor(a, f)
    ensures WellFormedFactor(a, f') && PrintFactor(f') == w + PrintFactor(f)
    ensures ValueFactor(a, f') == ValueFactor(a, f)
  {
    f' := f.(lead := w + f.lead);
    Assoc(w, f.lead, Body(f));
  }

  lemma {:induction false} SignedSound<V(!new)>(a: Arith<V>, sign: V, s: string) returns (f: Factor)
    requires SignLaws(a) && (sign == a.one || sign == a.neg(a.one))
    requires ParseSigned(a, sign, s).Parsed?
    requires s != "" ==> !IsWhitespace(s[0])
    ensures WellFormedFactor(a, f)
    ensures var p := ParseSigned(a, sign, s);
            s == PrintFactor(f) + p.rest && p.v == a.mul(sign, ValueFactor(a, f))
    decreases |s|, 1
  {
    if IsSign(s[0]) {
      var w := TrimStartSplits(s[1..]);
      var g := SignedSound(a, if s[0] == '-' then a.neg(sign) else sign, TrimStart(s[1..]));
      var rest := ParseSigned(a, sign, s).rest;
      Assoc(w, PrintFactor(g), rest);
      g := Indent(a, w, g);
      f := Signed("", s[0], g);
      ConsOf(s);
      ConsCat(s[0], PrintFactor(g), rest);
      assert PrintFactor(f) == Cons(s[0], PrintFactor(g));
    } else {
      f := AtomSound(a, s);
    }
  }

  lemma {:induction false} AtomSound<V(!new)>(a: Arith<V>, s: string) returns (f: Factor)
    requires SignLaws(a) && s != "" && !IsWhitespace(s[0]) && ParseAtom(a, s).Parsed?
    ensures WellFormedFactor(a, f)
    ensures var p := ParseAtom(a, s); s == PrintFactor(f) + p.rest && p.v == ValueFactor(a, f)
    decreases |s|, 0
  {
    if s[0] == '(' {
      var e, w := ExprSound(a, s[1..]);
      f := CloseParen(a, s, e, w);
    } else {
      ScanSound(s);
      var text := s[..ScanNumber(s, false, false, false).len];
      f := Number("", text);
      assert "" + text == text;
    }
  }

  lemma CloseParen<V>(a: Arith<V>, s: string, e: Expr, w: string) returns (f: Factor)
    requires s != "" && s[0] == '(' && ParseAtom(a, s).Parsed?
    requires WellFormedExpr(a, e) && AllWhitespace(w)
    requires var q := ParseExpr(a, s[1..]); s[1..] == PrintExpr(e) + (w + q.rest) && q.v == ValueExpr(a, e)
    ensures WellFormedFactor(a, f)
    ensures var p := ParseAtom(a, s); s == PrintFactor(f) + p.rest && p.v == ValueFactor(a, f)
  {
    var p, q := ParseAtom(a, s), ParseExpr(a, s[1..]);
    var w' := TrimStartSplits(q.rest);
    f := Paren("", e, w + w');
    ConsOf(TrimStart(q.rest));
    Assoc(w, w', Cons(')', p.rest));
    InfixCat(PrintExpr(e), w + w', ')', "", p.rest);
    assert "" + p.rest == p.rest;
    ConsOf(s);
    ConsCat('(', Infix(PrintExpr(e), w + w', ')', ""), p.rest);
    assert PrintFactor(f) == Cons('(', Infix(PrintExpr(e), w + w', ')', ""));
  }

  lemma FactorSound<V(!new)>(a: Arith<V>, s: string) returns (f: Factor)
    requires SignLaws(a) && ParseFactor(a, s).Parsed?
    ensures WellFormedFactor(a, f)
    ensures var p := ParseFactor(a, s); s == PrintFactor(f) + p.rest && p.v == ValueFactor(a, f)
    decreases |s|, 2
  {
    var w := TrimStartSplits(s);
    f := SignedSound(a, a.one, TrimStart(s));
    Assoc(w, PrintFactor(f), ParseFactor(a, s).rest);
    f := Indent(a, w, f);
  }

  lemma {:induction false} TermTailSound<V(!new)>(a: Arith<V>, t0: Term, s: string) returns (t: Term, w: string)
    requires SignLaws(a) && WellFormedTerm(a, t0) && TermTail(a, ValueTerm(a, t0), s).Parsed?
    ensures WellFormedTerm(a, t) && AllWhitespace(w)
    ensures var p := TermTail(a, ValueTerm(a, t0), s);
            PrintTerm(t0) + s == PrintTerm(t) + (w + p.rest) && p.v == ValueTerm(a, t)
    decreases |s|, 3
  {
    w := TrimStartSplits(s);
    var u := TrimStart(s);
    if StartsWith(u, IsMulOp) {
      var f := FactorSound(a, u[1..]);
      var rest := ParseFactor(a, u[1..]).rest;
      ConsOf(u);
      InfixCat(PrintTerm(t0), w, u[0], PrintFactor(f), rest);
      t, w := TermTailSound(a, Product(t0, w, u[0], f), rest);
    } else {
      t := t0;
    }
  }

  lemma TermSound<V(!new)>(a: Arith<V>, s: string) returns (t: Term, w: string)
    requires SignLaws(a) && ParseTerm(a, s).Parsed?
    ensures WellFormedTerm(a, t) && AllWhitespace(w)
    ensures var p := ParseTerm(a, s); s == PrintTerm(t) + (w + p.rest) && p.v == ValueTerm(a, t)
    decreases |s|, 4
  {
    var f := FactorSound(a, s);
    t, w := TermTailSound(a, Single(f), ParseFactor(a, s).rest);
  }

  lemma {:induction false} ExprTailSound<V(!new)>(a: Arith<V>, e0: Expr, s: string) returns (e: Expr, w: string)
    requires SignLaws(a) && WellFormedExpr(a, e0) && ExprTail(a, ValueExpr(a, e0), s).Parsed?
    ensures WellFormedExpr(a, e) && AllWhitespace(w)
    ensures var p := ExprTail(a, ValueExpr(a, e0), s);
            PrintExpr(e0) + s == PrintExpr(e) + (w + p.rest) && p.v == ValueExpr(a, e)
    decreases |s|, 5
  {
    w := TrimStartSplits(s);
    var u := TrimStart(s);
    if StartsWith(u, IsSign) {
      var t, w1 := TermSound(a, u[1..]);
      var rest := ParseTerm(a, u[1..]).rest;
      ConsOf(u);
      InfixCat(PrintExpr(e0), w, u[0], PrintTerm(t), w1 + rest);
      var e1 := Sum(e0, w, u[0], t);
      ExprTailSkips(a, ValueExpr(a, e1), w1, rest);
      e, w := ExprTailSound(a, e1, w1 + rest);
    } else {
      e := e0;
    }
  }

  lemma ExprTailSkips<V>(a: Arith<V>, lhs: V, w: string, s: string)
    requires AllWhitespace(w)
    ensures ExprTail(a, lhs, w + s) == ExprTail(a, lhs, s)
  {
    TrimStartSkips(w, s);
  }

  lemma ExprSound<V(!new)>(a: Arith<V>, s: string) returns (e: Expr, w: string)
    requires SignLaws(a) && ParseExpr(a, s).Parsed?
    ensures WellFormedExpr(a, e) && AllWhitespace(w)
    ensures var p := ParseExpr(a, s); s == PrintExpr(e) + (w + p.rest) && p.v == ValueExpr(a, e)
    decreases |s|, 6
  {
    var t, w1 := TermSound(a, s);
    var rest := ParseTerm(a, s).rest;
    ExprTailSkips(a, ValueTerm(a, t), w1, rest);
    e, w := ExprTailSound(a, Alone(t), w1 + rest);
  }

  // ---- whole inputs ----

  /** The text is not empty and ends in neither whitespace nor the euro sign. */
  predicate PlainEnd(s: string) {
    s != "" && !IsWhitespace(s[|s| - 1]) && s[|s| - 1] != EURO
  }

  lemma PlainEndCat(p: string, s: string)
    requires PlainEnd(s)
    ensures PlainEnd(p + s)
  {
    assert (p + s)[|p + s| - 1] == s[|s| - 1];
  }

  lemma PlainEndInfix(l: string, gap: string, op: char, r: string)
    requires PlainEnd(r)
    ensures PlainEnd(Infix(l, gap, op, r))
  {
    PlainEndCat([op], r);
    PlainEndCat(gap, Cons(op, r));
    PlainEndCat(l, gap + Cons(op, r));
  }

  lemma PlainEndParen(inner: string, gap: string)
    ensures PlainEnd(Cons('(', Infix(inner, gap, ')', "")))
  {
    PlainEndCat(gap, Cons(')', ""));
    PlainEndCat(inner, gap + Cons(')', ""));
    PlainEndCat(['('], Infix(inner, gap, ')', ""));
  }

  lemma {:induction false} FactorLast<V>(a: Arith<V>, f: Factor)
    requires WellFormedFactor(a, f)
    ensures PlainEnd(PrintFactor(f))
    decreases f
  {
    match f
    case Number(lead, text) => NumeralEnd(text);
    case Paren(lead, e, gap) => PlainEndParen(PrintExpr(e), gap);
    case Signed(lead, c, g) =>
      FactorLast(a, g);
      PlainEndCat([c], PrintFactor(g));
    PlainEndCat(f.lead, Body(f));
  }

  lemma ExprLast<V>(a: Arith<V>, e: Expr)
    requires WellFormedExpr(a, e)
    ensures PlainEnd(PrintExpr(e))
  {
    var t := if e.Alone? then e.term else e.right;
    var f := if t.Single? then t.factor else t.right;
    FactorLast(a, f);
    if t.Product? {
      PlainEndInfix(PrintTerm(t.left), t.gap, t.op, PrintFactor(f));
    }
    if e.Sum? {
      PlainEndInfix(PrintExpr(e.left), e.gap, e.op, PrintTerm(t));
    }
  }

  lemma {:induction false} PlainStart(s: string)
    requires PlainEnd(s)
    ensures PlainEnd(TrimStart(s))
  {
    if !IsWhitespace(s[0]) {
    } else {
      PlainStart(s[1..]);
    }
  }

  lemma ParseExprTrims<V>(a: Arith<V>, s: string)
    ensures ParseExpr(a, TrimStart(s)) == ParseExpr(a, s)
  {
    assert TrimStart(TrimStart(s)) == TrimStart(s);
    assert ParseFactor(a, TrimStart(s)) == ParseFactor(a, s);
  }

  /** Trimming and the `€` leave an expression's own text. */
  lemma AmountTextOf(s: string, gap: string, euro: bool, trail: string)
    requires PlainEnd(s) && AllWhitespace(gap) && AllWhitespace(trail)
    ensures var raw := s + (gap + EuroSuffix(euro, trail));
            Trim(raw) != "" && AmountText(raw) == TrimStart(s)
  {
    var q := TrimStart(s);
    PlainStart(s);
    TrimStartStops(s, gap + EuroSuffix(euro, trail));
    TrimGap(q, gap);
    if euro {
      Assoc(q, gap, Cons(EURO, trail));
      TrimEuro(q + gap, trail);
    } else {
      assert gap + "" == gap;
      TrimEndSkips(q, gap);
      assert TrimEnd(q) == q;
    }
  }

  lemma TrimGap(q: string, gap: string)
    requires PlainEnd(q) && !IsWhitespace(q[0]) && AllWhitespace(gap)
    ensures Trim(q + gap) == q && Trim(q) == q
  {
    TrimStartStops(q, gap);
    TrimEndSkips(q, gap);
  }

  lemma TrimEuro(u: string, trail: string)
    requires AllWhitespace(trail)
    ensures TrimEnd(u + Cons(EURO, trail)) == u + [EURO] && (u + [EURO])[..|u|] == u
  {
    Assoc(u, [EURO], trail);
    TrimEndSkips(u + [EURO], trail);
  }

  lemma TrimTwice(s: string)
    ensures Trim(TrimStart(s)) == Trim(s) && Trim(Trim(s)) == Trim(s)
  {
    var u := TrimStart(s);
    var w := TrimEndSplits(u);
    assert TrimStart(u) == u;
    if Trim(s) != "" {
      assert Trim(s)[0] == u[0];
    }
  }

  /** A euro sign at the end changes nothing. */
  lemma EuroIsDropped<V>(a: Arith<V>, raw: string)
    requires Trim(raw) != "" && Trim(raw)[|Trim(raw)| - 1] != '\U{20AC}'
    ensures ParseAmount(a, raw + "\U{20AC}") == ParseAmount(a, raw)
  {
    var u := TrimStart(raw);
    TrimStartStops(raw, "\U{20AC}");
    var t := u + "\U{20AC}";
    assert t[|t| - 1] == '\U{20AC}' && t[..|t| - 1] == u;
    assert Trim(raw + "\U{20AC}") == t;
    TrimTwice(raw);
    assert AmountText(raw + "\U{20AC}") == AmountText(raw);
    hide ParseExpr;
  }

  /** Some literals: with either separator, and with an exponent in either case. */
  lemma SomeNumerals()
    ensures IsNumeral("12,5") && IsNumeral("1.234") && IsNumeral("2e5") && IsNumeral("2E-5") && !IsNumeral("e5")
  {
    assert "12,5"[..4] == "12,5" && IsDigit("12,5"[0]);
    assert "1.234"[..5] == "1.234" && IsDigit("1.234"[0]);
    assert "2e5"[..1] == "2" && IsDigit("2"[0]) && "2e5"[1..] == "e5" && "e5"[1..] == "5" && IsMantissa("2");
    assert "2E-5"[..1] == "2" && "2E-5"[1..] == "E-5" && "E-5"[2..] == "5";
    forall k: nat | k <= |"e5"| ensures !IsMantissa("e5"[..k]) {
      assert k > 0 ==> "e5"[..k][0] == 'e';
    }
  }

  /** Every spelling is parsed, and to the value it stands for. */
  lemma SpellingsParse<V(!new)>(a: Arith<V>, i: Input)
    requires SignLaws(a) && WellFormedInput(a, i)
    ensures ParseAmount(a, PrintInput(i)) == Some(ValueExpr(a, i.amount))
  {
    var p := PrintExpr(i.amount);
    ExprLast(a, i.amount);
    AmountTextOf(p, i.gap, i.euro, i.trail);
    ParseExprTrims(a, p);
    ExprComplete(a, i.amount, "");
    assert p + "" == p;
  }

  /** Puts whitespace in front of an expression. */
  lemma {:induction false} IndentExpr<V>(a: Arith<V>, w: string, e: Expr) returns (e': Expr)
    requires AllWhitespace(w) && WellFormedExpr(a, e)
    ensures WellFormedExpr(a, e') && PrintExpr(e') == w + PrintExpr(e)
    ensures ValueExpr(a, e') == ValueExpr(a, e)
  {
    match e
    case Alone(t) =>
      var t' := IndentTerm(a, w, t);
      e' := Alone(t');
    case Sum(l, gap, op, r) =>
      var l' := IndentExpr(a, w, l);
      e' := Sum(l', gap, op, r);
      Assoc(w, PrintExpr(l), gap + Cons(op, PrintTerm(r)));
  }

  lemma {:induction false} IndentTerm<V>(a: Arith<V>, w: string, t: Term) returns (t': Term)
    requires AllWhitespace(w) && WellFormedTerm(a, t)
    ensures WellFormedTerm(a, t') && PrintTerm(t') == w + PrintTerm(t)
    ensures ValueTerm(a, t') == ValueTerm(a, t)
  {
    match t
    case Single(f) =>
      var f' := Indent(a, w, f);
      t' := Single(f');
    case Product(l, gap, op, r) =>
      var l' := IndentTerm(a, w, l);
      t' := Product(l', gap, op, r);
      Assoc(w, PrintTerm(l), gap + Cons(op, PrintFactor(r)));
  }

  lemma TrimSplits(s: string) returns (lead: string, trail: string)
    ensures AllWhitespace(lead) && AllWhitespace(trail) && s == lead + (Trim(s) + trail)
  {
    lead := TrimStartSplits(s);
    trail := TrimEndSplits(TrimStart(s));
  }

  /** Undoing `AmountText`: the raw input is its text with whitespace and perhaps a `€` around it. */
  lemma AmountTextSplits(raw: string) returns (lead: string, gap: string, euro: bool, trail: string)
    ensures AllWhitespace(lead) && AllWhitespace(gap) && AllWhitespace(trail)
    ensures raw == (lead + AmountText(raw)) + (gap + EuroSuffix(euro, trail))
  {
    var l1, t1 := TrimSplits(raw);
    var t := Trim(raw);
    euro := t != "" && t[|t| - 1] == EURO;
    var u := if euro then t[..|t| - 1] else t;
    var l2, t2 := TrimSplits(u);
    lead := l1 + l2;
    if euro {
      gap, trail := t2, t1;
      EuroInside(l1, t, t1, l2, Trim(u), t2);
    } else {
      gap, trail := t2 + t1, "";
      NoEuroInside(l1, t1, l2, Trim(u), t2);
    }
  }

  lemma EuroInside(l1: string, t: string, t1: string, l2: string, text: string, t2: string)
    requires t != "" && t[|t| - 1] == EURO && t[..|t| - 1] == l2 + (text + t2)
    ensures l1 + (t + t1) == ((l1 + l2) + text) + (t2 + EuroSuffix(true, t1))
  {
    assert t == t[..|t| - 1] + [EURO];
    Assoc(t[..|t| - 1], [EURO], t1);
    Regroup(l1, l2, text, t2, Cons(EURO, t1));
  }

  lemma NoEuroInside(l1: string, t1: string, l2: string, text: string, t2: string)
    ensures l1 + ((l2 + (text + t2)) + t1) == ((l1 + l2) + text) + ((t2 + t1) + EuroSuffix(false, ""))
  {
    Regroup(l1, l2, text, t2, t1);
    assert (t2 + t1) + "" == t2 + t1;
  }

  lemma Regroup(p: string, q: string, r: string, s: string, t: string)
    ensures p + ((q + (r + s)) + t) == ((p + q) + r) + (s + t)
  {
    Assoc(q, r + s, t);
    Assoc(r, s, t);
    Assoc(p, q, r + (s + t));
    Assoc(p + q, r, s + t);
  }

  lemma TextIsPrinted<V(!new)>(a: Arith<V>, raw: string) returns (e: Expr)
    requires SignLaws(a) && ParseAmount(a, raw).Some?
    ensures WellFormedExpr(a, e) && PrintExpr(e) == AmountText(raw)
    ensures ParseAmount(a, raw) == Some(ValueExpr(a, e))
  {
    var s := AmountText(raw);
    var w;
    e, w := ExprSound(a, s);
    var rest := ParseExpr(a, s).rest;
    var w' := TrimStartSplits(rest);
    ExprLast(a, e);
    TrimEndSkips(PrintExpr(e), w + rest);
    assert TrimEnd(s) == s;
  }

  /**
  The parser's language and its values, exactly: an input is accepted with the
  value `v` if and only if it is some spelling of `v`.
  */
  lemma ParsesExactlyTheSpellings<V(!new)>(a: Arith<V>, raw: string, v: V)
    requires SignLaws(a)
    ensures ParseAmount(a, raw) == Some(v) <==> Spells(a, raw, v)
  {
    if ParseAmount(a, raw) == Some(v) {
      var e := TextIsPrinted(a, raw);
      var lead, gap, euro, trail := AmountTextSplits(raw);
      e := IndentExpr(a, lead, e);
      var i := Input(e, gap, euro, trail);
      assert PrintInput(i) == raw;
    }
    if Spells(a, raw, v) {
      var i: Input :| WellFormedInput(a, i) && PrintInput(i) == raw && ValueExpr(a, i.amount) == v;
      SpellingsParse(a, i);
    }
  }

  /** The language is unambiguous, and what is refused spells nothing. */
  lemma SpellingsAgree<V(!new)>(a: Arith<V>, raw: string, v: V, w: V)
    requires SignLaws(a) && Spells(a, raw, v)
    ensures Spells(a, raw, w) <==> v == w
    ensures ParseAmount(a, raw).Some?
  {
    ParsesExactlyTheSpellings(a, raw, v);
    ParsesExactlyTheSpellings(a, raw, w);
  }
}
