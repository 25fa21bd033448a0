/**
The recursive-descent parser behind `!döner`. The functions say what each
routine does to the text still to be read; the class runs the routines with a
cursor and loops, as the source does, and is proved to compute the functions.
*/
module AmountParser {
  import opened Text
  import opened AmountGrammar

  datatype Parsed<+V> = Failed | Parsed(v: V, rest: string)

  /** How far a numeral was scanned, and what was seen on the way. */
  datatype Scan = Scan(len: nat, sawDigit: bool, needExpDigit: bool)

  predicate StartsWith(s: string, p: char -> bool) {
    s != "" && p(s[0])
  }

  function ScanNumber(s: string, sawDigit: bool, sawExp: bool, needExpDigit: bool): (r: Scan)
    ensures r.len <= |s|
  {
    if s == "" then Scan(0, sawDigit, needExpDigit)
    else if IsDigit(s[0]) then Skipped(1, ScanNumber(s[1..], true, sawExp, false))
    else if !sawExp && IsSeparator(s[0]) then Skipped(1, ScanNumber(s[1..], sawDigit, sawExp, needExpDigit))
    else if !sawExp && IsExpMark(s[0]) && sawDigit then
      if |s| > 1 && IsSign(s[1]) then Skipped(2, ScanNumber(s[2..], true, true, true))
      else Skipped(1, ScanNumber(s[1..], true, true, true))
    else Scan(0, sawDigit, needExpDigit)
  }

  function Skipped(n: nat, r: Scan): Scan {
    r.(len := n + r.len)
  }

  function ParseNumber<V>(a: Arith<V>, s: string): (r: Parsed<V>)
    ensures r.Parsed? ==> |r.rest| < |s|
  {
    var t := TrimStart(s);
    var scan := ScanNumber(t, false, false, false);
    if !scan.sawDigit || scan.needExpDigit then Failed
    else
      ScanSawNothing(t);
      match ReadLiteral(a, t[..scan.len])
      case None => Failed
      case Some(v) => Parsed(v, t[scan.len..])
  }

  lemma ScanSawNothing(t: string)
    ensures ScanNumber(t, false, false, false).len == 0 ==> !ScanNumber(t, false, false, false).sawDigit
  {
  }

  function ParseExpr<V>(a: Arith<V>, s: string): (r: Parsed<V>)
    ensures r.Parsed? ==> |r.rest| < |s|
    decreases |s|, 6
  {
    match ParseTerm(a, s)
    case Failed => Failed
    case Parsed(v, rest) => ExprTail(a, v, rest)
  }

  function ExprTail<V>(a: Arith<V>, lhs: V, s: string): (r: Parsed<V>)
    ensures r.Parsed? ==> |r.rest| <= |s|
    decreases |s|, 5
  {
    var t := TrimStart(s);
    if StartsWith(t, IsSign) then
      match ParseTerm(a, t[1..])
      case Failed => Failed
      case Parsed(v, rest) => ExprTail(a, Apply(a, t[0], lhs, v), rest)
    else Parsed(lhs, t)
  }

  function ParseTerm<V>(a: Arith<V>, s: string): (r: Parsed<V>)
    ensures r.Parsed? ==> |r.rest| < |s|
    decreases |s|, 4
  {
    match ParseFactor(a, s)
    case Failed => Failed
    case Parsed(v, rest) => TermTail(a, v, rest)
  }

  function TermTail<V>(a: Arith<V>, lhs: V, s: string): (r: Parsed<V>)
    ensures r.Parsed? ==> |r.rest| <= |s|
    decreases |s|, 3
  {
    var t := TrimStart(s);
    if StartsWith(t, IsMulOp) then
      match ParseFactor(a, t[1..])
      case Failed => Failed
      case Parsed(v, rest) => TermTail(a, Apply(a, t[0], lhs, v), rest)
    else Parsed(lhs, t)
  }

  function ParseFactor<V>(a: Arith<V>, s: string): (r: Parsed<V>)
    ensures r.Parsed? ==> |r.rest| < |s|
    decreases |s|, 2
  {
    ParseSigned(a, a.one, TrimStart(s))
  }

  function ParseSigned<V>(a: Arith<V>, sign: V, s: string): (r: Parsed<V>)
    ensures r.Parsed? ==> |r.rest| < |s|
    decreases |s|, 1
  {
    if StartsWith(s, IsSign) then
      ParseSigned(a, if s[0] == '-' then a.neg(sign) else sign, TrimStart(s[1..]))
    else if s == "" then Failed
    else
      match ParseAtom(a, s)
      case Failed => Failed
      case Parsed(v, rest) => Parsed(a.mul(sign, v), rest)
  }

  function ParseAtom<V>(a: Arith<V>, s: string): (r: Parsed<V>)
    requires s != ""
    ensures r.Parsed? ==> |r.rest| < |s|
    decreases |s|, 0
  {
    if s[0] == '(' then
      match ParseExpr(a, s[1..])
      case Failed => Failed
      case Parsed(v, rest) =>
        var t := TrimStart(rest);
        if t != "" && t[0] == ')' then Parsed(v, t[1..]) else Failed
    else ParseNumber(a, s)
  }

  /** One trailing `€` is dropped, with the whitespace around it. */
  function AmountText(raw: string): string {
    var t := Trim(raw);
    Trim(if t != "" && t[|t| - 1] == EURO then t[..|t| - 1] else t)
  }

  function ParseAmount<V>(a: Arith<V>, raw: string): Option<V> {
    if Trim(raw) == "" then None
    else
      match ParseExpr(a, AmountText(raw))
      case Failed => None
      case Parsed(v, rest) => if TrimStart(rest) == "" then Some(v) else None
  }

  // ---- the parser with its cursor ----

  class AmountExprParser<V> {
    const a: Arith<V>
    const input: string
    var pos: nat

    ghost predicate Valid() reads this { pos <= |input| }

    ghost function Rest(): string
      requires Valid()
      reads this
    {
      input[pos..]
    }

    /** The routine's answer and the new cursor are those of the function's result. */
    ghost predicate Agrees(r: Option<V>, p: Parsed<V>)
      requires Valid()
      reads this
    {
      match p
      case Failed => r.None?
      case Parsed(v, rest) => r == Some(v) && Rest() == rest
    }

    constructor (a: Arith<V>, input: string)
      ensures Valid() && this.a == a && this.input == input && pos == 0
    {
      this.a, this.input, pos := a, input, 0;
    }

    method SkipWs()
      requires Valid()
      modifies this
      ensures Valid() && pos >= old(pos)
      ensures Rest() == TrimStart(old(Rest()))
    {
      while pos < |input| && IsWhitespace(input[pos])
        invariant old(pos) <= pos <= |input|
        invariant TrimStart(Rest()) == TrimStart(old(Rest()))
      {
        assert Rest()[1..] == input[pos + 1..];
        pos := pos + 1;
      }
    }

    /** Skips whitespace, then consumes the next char if it is one of the wanted ones. */
    method TakeChar(wanted: char -> bool) returns (c: Option<char>)
      requires Valid()
      modifies this
      ensures Valid() && pos >= old(pos)
      ensures var t := TrimStart(old(Rest()));
              if StartsWith(t, wanted) then c == Some(t[0]) && Rest() == t[1..] && pos > old(pos)
              else c.None? && Rest() == t
    {
      SkipWs();
      if pos < |input| && wanted(input[pos]) {
        c := Some(input[pos]);
        assert Rest()[1..] == input[pos + 1..];
        pos := pos + 1;
      } else {
        c := None;
      }
    }

    method ParseExprAt() returns (r: Option<V>)
      requires Valid()
      modifies this
      ensures Valid() && pos >= old(pos)
      ensures Agrees(r, ParseExpr(a, old(Rest())))
      decreases |input| - pos, 4
    {
      ghost var goal := ParseExpr(a, Rest());
      r := ParseTermAt();
      if r.None? { return; }
      var lhs := r.value;
      assert ExprTail(a, lhs, Rest()) == goal;
      while true
        invariant old(pos) <= pos <= |input|
        invariant ExprTail(a, lhs, Rest()) == goal
        invariant pos > old(pos)
        decreases |input| - pos
      {
        var op := TakeChar(IsSign);
        if op.None? { break; }
        var rhs := ParseTermAt();
        if rhs.None? { return None; }
        lhs := if op.value == '+' then a.add(lhs, rhs.value) else a.sub(lhs, rhs.value);
      }
      r := Some(lhs);
    }

    method ParseTermAt() returns (r: Option<V>)
      requires Valid()
      modifies this
      ensures Valid() && pos >= old(pos)
      ensures Agrees(r, ParseTerm(a, old(Rest())))
      ensures r.Some? ==> pos > old(pos)
      decreases |input| - pos, 3
    {
      ghost var goal := ParseTerm(a, Rest());
      r := ParseFactorAt();
      if r.None? { return; }
      var lhs := r.value;
      assert TermTail(a, lhs, Rest()) == goal;
      while true
        invariant old(pos) < pos <= |input|
        invariant TermTail(a, lhs, Rest()) == goal
        decreases |input| - pos
      {
        var op := TakeChar(IsMulOp);
        if op.None? { break; }
        var rhs := ParseFactorAt();
        if rhs.None? { return None; }
        lhs := if op.value == '*' then a.mul(lhs, rhs.value) else a.div(lhs, rhs.value);
      }
      r := Some(lhs);
    }

    method ParseFactorAt() returns (r: Option<V>)
      requires Valid()
      modifies this
      ensures Valid() && pos >= old(pos)
      ensures Agrees(r, ParseFactor(a, old(Rest())))
      ensures r.Some? ==> pos > old(pos)
      decreases |input| - pos, 2
    {
      ghost var goal := ParseFactor(a, Rest());
      SkipWs();
      var sign := a.one;
      while pos < |input| && IsSign(input[pos])
        invariant old(pos) <= pos <= |input|
        invariant ParseSigned(a, sign, Rest()) == goal
      {
        var minus := input[pos] == '-';
        assert Rest()[1..] == input[pos + 1..];
        pos := pos + 1;
        SkipWs();
        sign := if minus then a.neg(sign) else sign;
      }
      if pos >= |input| { return None; }
      var value := ParseAtomAt();
      if value.None? { return None; }
      r := Some(a.mul(sign, value.value));
    }

    method ParseAtomAt() returns (r: Option<V>)
      requires Valid() && pos < |input|
      modifies this
      ensures Valid() && pos >= old(pos)
      ensures Agrees(r, ParseAtom(a, old(Rest())))
      decreases |input| - pos, 1
    {
      if input[pos] == '(' {
        assert Rest()[1..] == input[pos + 1..];
        pos := pos + 1;
        r := ParseExprAt();
        if r.None? { return; }
        var close := TakeChar(c => c == ')');
        if close.None? { return None; }
      } else {
        r := ParseNumberAt();
      }
    }

    method ScanNumberAt() returns (sawDigit: bool, needExpDigit: bool)
      requires Valid()
      modifies this
      ensures Valid() && pos >= old(pos)
      ensures ScanNumber(old(Rest()), false, false, false) == Scan(pos - old(pos), sawDigit, needExpDigit)
    {
      var start := pos;
      ghost var whole := ScanNumber(Rest(), false, false, false);
      sawDigit, needExpDigit := false, false;
      var sawExp := false;
      while pos < |input|
        invariant start <= pos <= |input|
        invariant Skipped(pos - start, ScanNumber(Rest(), sawDigit, sawExp, needExpDigit)) == whole
        decreases |input| - pos
      {
        var ch := input[pos];
        assert Rest()[1..] == input[pos + 1..];
        if IsDigit(ch) {
          sawDigit, needExpDigit := true, false;
          pos := pos + 1;
        } else if !sawExp && IsSeparator(ch) {
          pos := pos + 1;
        } else if !sawExp && IsExpMark(ch) && sawDigit {
          sawExp, needExpDigit := true, true;
          assert pos + 1 < |input| ==> Rest()[2..] == input[pos + 2..];
          pos := pos + 1;
          if pos < |input| && IsSign(input[pos]) { pos := pos + 1; }
        } else {
          break;
        }
      }
    }

    method ParseNumberAt() returns (r: Option<V>)
      requires Valid()
      modifies this
      ensures Valid() && pos >= old(pos)
      ensures Agrees(r, ParseNumber(a, old(Rest())))
    {
      SkipWs();
      var start := pos;
      ghost var t := Rest();
      var sawDigit, needExpDigit := ScanNumberAt();
      if !sawDigit || needExpDigit { return None; }
      assert t[..pos - start] == input[start..pos] && t[pos - start..] == Rest();
      r := ReadLiteral(a, input[start..pos]);
    }
  }

  method ParseEuroAmount<V>(a: Arith<V>, raw: string) returns (r: Option<V>)
    ensures r == ParseAmount(a, raw)
  {
    var t := Trim(raw);
    if t == "" { return None; }
    t := Trim(if t[|t| - 1] == EURO then t[..|t| - 1] else t);
    var parser := new AmountExprParser(a, t);
    assert parser.Rest() == t;
    r := parser.ParseExprAt();
    if r.None? { return; }
    parser.SkipWs();
    if parser.pos < |t| { return None; }
  }
}
