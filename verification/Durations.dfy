/**
Compact durations such as `2h30m`: how they are printed, which strings are read
back, and to what.
*/
module Durations {
  import opened Text

  const U64: nat := 0x1_0000_0000_0000_0000

  function DigitChar(d: nat): char
    requires d < 10
  {
    '0' + d as char
  }

  /** How `format!` prints a number. */
  function Decimal(n: nat): string {
    if n < 10 then [DigitChar(n)] else Decimal(n / 10) + [DigitChar(n % 10)]
  }

  /** The number that a string of digits stands for. */
  function ValueOf(s: string): nat
    requires AllDigits(s)
  {
    if s == "" then 0
    else ValueOf(s[..|s| - 1]) * 10 + (s[|s| - 1] - '0') as nat
  }

  /** `str::parse::<u64>` on a string of digits. */
  function ParseU64(s: string): Option<nat>
    requires AllDigits(s)
  {
    if s != "" && ValueOf(s) < U64 then Some(ValueOf(s)) else None
  }

  function FormatHm(secs: nat): string {
    var mins := secs / 60;
    if mins / 60 > 0 then Decimal(mins / 60) + "h" + Decimal(mins % 60) + "m"
    else Decimal(mins % 60) + "m"
  }

  /** Seconds in an `h` or an `m`, in either case; 0 for any other char. */
  function UnitSecs(c: char): nat {
    if c == 'h' || c == 'H' then 3600 else if c == 'm' || c == 'M' then 60 else 0
  }

  /** Addition of 64-bit integers in a release build, which wraps. */
  function WrapAdd(a: nat, b: nat): nat {
    (a + b % U64) % U64
  }

  /** The parser's loop, from what it has collected to its answer. */
  function Feed(s: string, num: string, total: nat): Option<nat>
    requires AllDigits(num)
  {
    if s == "" then
      if num != "" || total == 0 then None else Some(total)
    else if IsDigit(s[0]) then Feed(s[1..], num + [s[0]], total)
    else if UnitSecs(s[0]) == 0 then None
    else
      match ParseU64(num)
      case None => None
      case Some(v) => Feed(s[1..], "", WrapAdd(total, v * UnitSecs(s[0])))
  }

  function ParseFlight(s: string): Option<nat> {
    if Trim(s) == "" then None else Feed(Trim(s), "", 0)
  }

  method ParseFlightDuration(input: string) returns (r: Option<nat>)
    ensures r == ParseFlight(input)
  {
    var s := Trim(input);
    if s == "" {
      return None;
    }
    var totalSecs: nat, currentNum := 0, "";
    for i := 0 to |s|
      invariant AllDigits(currentNum)
      invariant Feed(s[i..], currentNum, totalSecs) == ParseFlight(input)
    {
      var ch := s[i];
      assert s[i..][1..] == s[i + 1..];
      if IsDigit(ch) {
        currentNum := currentNum + [ch];
      } else if ch == 'h' || ch == 'H' {
        var hours := ParseU64(currentNum);
        if hours.None? { return None; }
        totalSecs := WrapAdd(totalSecs, hours.value * 3600);
        currentNum := "";
      } else if ch == 'm' || ch == 'M' {
        var minutes := ParseU64(currentNum);
        if minutes.None? { return None; }
        totalSecs := WrapAdd(totalSecs, minutes.value * 60);
        currentNum := "";
      } else {
        return None;
      }
    }
    assert s[|s|..] == "";
    if currentNum != "" || totalSecs == 0 {
      return None;
    }
    r := Some(totalSecs);
  }

  // ---- what the strings mean ----

  /** One part of a duration: a count and its unit. */
  datatype Part = Part(digits: string, unit: char)

  predicate IsPart(p: Part) {
    AllDigits(p.digits) && p.digits != "" && ValueOf(p.digits) < U64 && UnitSecs(p.unit) > 0
  }

  predicate AllParts(parts: seq<Part>) {
    forall i :: 0 <= i < |parts| ==> IsPart(parts[i])
  }

  function PrintParts(parts: seq<Part>): string {
    if parts == [] then "" else parts[0].digits + ([parts[0].unit] + PrintParts(parts[1..]))
  }

  function PartSecs(p: Part): nat
    requires AllDigits(p.digits)
  {
    ValueOf(p.digits) * UnitSecs(p.unit)
  }

  function Seconds(parts: seq<Part>): nat
    requires AllParts(parts)
  {
    if parts == [] then 0 else PartSecs(parts[0]) + Seconds(parts[1..])
  }

  lemma {:induction false} FeedDigits(d: string, rest: string, num: string, total: nat)
    requires AllDigits(d) && AllDigits(num)
    ensures Feed(d + rest, num, total) == Feed(rest, num + d, total)
  {
    if d == "" {
      assert d + rest == rest && num + d == num;
    } else {
      assert (d + rest)[1..] == d[1..] + rest;
      FeedDigits(d[1..], rest, num + [d[0]], total);
      assert num + [d[0]] + d[1..] == num + d;
    }
  }

  lemma FeedPart(p: Part, tail: string, total: nat)
    requires IsPart(p)
    ensures Feed(p.digits + ([p.unit] + tail), "", total)
         == Feed(tail, "", WrapAdd(total, PartSecs(p)))
  {
    FeedDigits(p.digits, [p.unit] + tail, "", total);
    assert "" + p.digits == p.digits;
    assert ([p.unit] + tail)[1..] == tail;
  }

  /** All parts are added up, wrapping at 64 bits. */
  lemma {:induction false} FeedParts(parts: seq<Part>, total: nat)
    requires AllParts(parts) && total < U64
    ensures Feed(PrintParts(parts), "", total)
         == var sum := (total + Seconds(parts)) % U64; if sum == 0 then None else Some(sum)
  {
    if parts == [] {
    } else {
      var p := parts[0];
      var secs := PartSecs(p);
      FeedPart(p, PrintParts(parts[1..]), total);
      FeedParts(parts[1..], WrapAdd(total, secs));
      WrapTwice(total, secs, Seconds(parts[1..]));
    }
  }

  lemma WrapTwice(a: nat, b: nat, c: nat)
    ensures (WrapAdd(a, b) + c) % U64 == (a + (b + c)) % U64
  {
  }

  /** What the loop accepts is a list of parts, the first of them continuing the digits at hand. */
  lemma {:induction false} FeedSound(s: string, num: string, total: nat) returns (parts: seq<Part>)
    requires AllDigits(num) && Feed(s, num, total).Some?
    ensures AllParts(parts) && PrintParts(parts) == num + s
  {
    if s == "" {
      parts := [];
    } else if IsDigit(s[0]) {
      parts := FeedSound(s[1..], num + [s[0]], total);
      HeadTail(num, s);
    } else {
      var v := ParseU64(num).value;
      var rest := FeedSound(s[1..], "", WrapAdd(total, v * UnitSecs(s[0])));
      parts := PartInFront(Part(num, s[0]), rest);
      HeadTail("", s);
      assert "" + s[1..] == s[1..];
    }
  }

  lemma HeadTail(num: string, s: string)
    requires s != ""
    ensures (num + [s[0]]) + s[1..] == num + s && [s[0]] + s[1..] == s
  {
  }

  lemma PartInFront(p: Part, rest: seq<Part>) returns (parts: seq<Part>)
    requires IsPart(p) && AllParts(rest)
    ensures AllParts(parts) && PrintParts(parts) == p.digits + ([p.unit] + PrintParts(rest))
  {
    parts := [p] + rest;
    assert parts[1..] == rest;
  }

  ghost predicate Denotes(s: string, secs: nat) {
    exists parts :: AllParts(parts) && PrintParts(parts) == Trim(s) && secs == Seconds(parts) % U64
  }

  lemma AcceptedIsParts(s: string) returns (parts: seq<Part>)
    requires ParseFlight(s).Some?
    ensures AllParts(parts) && PrintParts(parts) == Trim(s)
  {
    parts := FeedSound(Trim(s), "", 0);
    assert "" + Trim(s) == Trim(s);
  }

  lemma PartsAreAccepted(s: string, parts: seq<Part>)
    requires AllParts(parts) && PrintParts(parts) == Trim(s)
    ensures var sum := Seconds(parts) % U64; ParseFlight(s) == if sum == 0 then None else Some(sum)
  {
    FeedParts(parts, 0);
    assert parts == [] ==> Seconds(parts) == 0;
  }

  /** A string is accepted exactly when its trimmed text is a list of parts whose sum, at 64 bits, is not zero. */
  lemma ParsesExactlyParts(s: string, secs: nat)
    ensures ParseFlight(s) == Some(secs) <==> secs != 0 && Denotes(s, secs)
  {
    if ParseFlight(s) == Some(secs) {
      var parts := AcceptedIsParts(s);
      PartsAreAccepted(s, parts);
    }
    if secs != 0 && Denotes(s, secs) {
      var parts :| AllParts(parts) && PrintParts(parts) == Trim(s) && secs == Seconds(parts) % U64;
      PartsAreAccepted(s, parts);
    }
  }

  lemma {:induction false} DecimalValue(n: nat)
    ensures AllDigits(Decimal(n)) && ValueOf(Decimal(n)) == n && Decimal(n) != ""
  {
    if n < 10 {
    } else {
      DecimalValue(n / 10);
      assert Decimal(n)[..|Decimal(n)| - 1] == Decimal(n / 10);
    }
  }

  lemma PartIsTrimmed(n: nat, s: string)
    ensures Trim(Decimal(n) + (s + "m")) == Decimal(n) + (s + "m")
  {
    DecimalValue(n);
  }

  lemma OnePart(p: Part)
    requires IsPart(p)
    ensures AllParts([p]) && PrintParts([p]) == p.digits + [p.unit]
    ensures Seconds([p]) == PartSecs(p)
  {
    assert [p][1..] == [];
    assert [p.unit] + "" == [p.unit];
  }

  lemma TwoParts(p: Part, q: Part)
    requires IsPart(p) && IsPart(q)
    ensures AllParts([p, q]) && PrintParts([p, q]) == p.digits + ([p.unit] + (q.digits + [q.unit]))
    ensures Seconds([p, q]) == PartSecs(p) + PartSecs(q)
  {
    OnePart(q);
    assert [p, q][1..] == [q];
  }

  lemma FormatIsParts(secs: nat) returns (parts: seq<Part>)
    requires secs < U64
    ensures AllParts(parts) && PrintParts(parts) == FormatHm(secs) == Trim(FormatHm(secs))
    ensures Seconds(parts) == secs / 60 * 60
  {
    var mins := secs / 60;
    var h, m := mins / 60, mins % 60;
    DecimalValue(h);
    DecimalValue(m);
    var last := Part(Decimal(m), 'm');
    if h > 0 {
      var first := Part(Decimal(h), 'h');
      parts := [first, last];
      TwoParts(first, last);
      PartIsTrimmed(h, "h" + Decimal(m));
      Regroup(Decimal(h), "h", Decimal(m), "m");
    } else {
      parts := [last];
      OnePart(last);
      PartIsTrimmed(m, "");
      assert "" + "m" == "m";
    }
  }

  lemma Regroup(a: string, b: string, c: string, d: string)
    ensures a + b + c + d == a + (b + (c + d)) == a + ((b + c) + d)
  {
  }

  /** A number is printed without leading zeros. */
  lemma {:induction false} NoLeadingZero(n: nat)
    ensures |Decimal(n)| > 1 ==> Decimal(n)[0] != '0'
    ensures n > 0 ==> Decimal(n)[0] != '0'
  {
    if n < 10 {
    } else {
      NoLeadingZero(n / 10);
      assert Decimal(n)[0] == Decimal(n / 10)[0];
    }
  }

  /** What is printed: hours if there are any, and minutes below 60, which add up to the whole minutes. */
  lemma FormatMeans(secs: nat) returns (h: nat, m: nat)
    ensures m < 60 && (h * 60 + m) * 60 <= secs < (h * 60 + m + 1) * 60
    ensures FormatHm(secs) == (if h > 0 then Decimal(h) + "h" else "") + (Decimal(m) + "m")
  {
    h, m := secs / 3600, secs / 60 % 60;
    assert "" + (Decimal(m) + "m") == Decimal(m) + "m";
    assert Decimal(h) + "h" + Decimal(m) + "m" == (Decimal(h) + "h") + (Decimal(m) + "m");
  }

  /** The units are hours and minutes, in either case. */
  lemma UnitsAre(p: Part)
    requires AllDigits(p.digits)
    ensures IsPart(p) <==> p.digits != "" && ValueOf(p.digits) < U64 && p.unit in "hHmM"
    ensures IsPart(p) ==> PartSecs(p) == ValueOf(p.digits) * (if p.unit in "hH" then 60 * 60 else 60)
  {
  }

  /** Printing and reading back loses the seconds below a minute and nothing else. */
  lemma FormatRoundTrip(secs: nat)
    requires 60 <= secs < U64
    ensures ParseFlight(FormatHm(secs)) == Some(secs / 60 * 60)
  {
    var parts := FormatIsParts(secs);
    PartsAreAccepted(FormatHm(secs), parts);
  }
}
