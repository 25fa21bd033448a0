/** Upper and lower case of ASCII letters, by the alphabets. */
module Letters {
  import opened Text

  const UPPER: string := "ABCDEFGHIJKLMNOPQRSTUVWXYZ"
  const LOWER: string := "abcdefghijklmnopqrstuvwxyz"

  /** The same char, but for the case of an ASCII letter. */
  predicate SameLetter(c: char, d: char) {
    c == d || exists k :: 0 <= k < 26 && {c, d} == {UPPER[k], LOWER[k]}
  }

  predicate SameButCase(s: string, t: string) {
    |s| == |t| && forall i :: 0 <= i < |s| ==> SameLetter(s[i], t[i])
  }

  lemma Alphabets()
    ensures |UPPER| == 26 && |LOWER| == 26
    ensures forall k :: 0 <= k < 26 ==> UPPER[k] == 'A' + k as char && LOWER[k] == 'a' + k as char
  {
  }

  lemma InUpper(c: char)
    ensures c in UPPER <==> 'A' <= c <= 'Z'
  {
    Alphabets();
    if 'A' <= c <= 'Z' {
      assert UPPER[c as int - 'A' as int] == c;
    }
  }

  lemma InLower(c: char)
    ensures c in LOWER <==> 'a' <= c <= 'z'
  {
    Alphabets();
    if 'a' <= c <= 'z' {
      assert LOWER[c as int - 'a' as int] == c;
    }
  }

  lemma SameLetterLowered(c: char, d: char)
    ensures AsciiLower([c])[0] == AsciiLower([d])[0] <==> SameLetter(c, d)
  {
    Alphabets();
    if AsciiLower([c])[0] == AsciiLower([d])[0] && c != d {
      var k := AsciiLower([c])[0] as int - 'a' as int;
      assert 0 <= k < 26 && {c, d} == {UPPER[k], LOWER[k]};
    }
  }

  /** Lower-casing makes equal exactly what differs in the case of ASCII letters only, and leaves no capital. */
  lemma LoweredEqual(s: string, t: string)
    ensures AsciiLower(s) == AsciiLower(t) <==> SameButCase(s, t)
    ensures SameButCase(AsciiLower(s), s) && forall i :: 0 <= i < |s| ==> AsciiLower(s)[i] !in UPPER
  {
    Alphabets();
    forall i | 0 <= i < |s| && i < |t| ensures AsciiLower(s)[i] == AsciiLower(t)[i] <==> SameLetter(s[i], t[i]) {
      SameLetterLowered(s[i], t[i]);
    }
    forall i | 0 <= i < |s| ensures SameLetter(AsciiLower(s)[i], s[i]) && AsciiLower(s)[i] !in UPPER {
      SameLetterLowered(AsciiLower(s)[i], s[i]);
    }
  }

  /** The 25 chars that Unicode lists as White_Space. */
  const WHITE_SPACE: string :=
    "\U{9}\U{A}\U{B}\U{C}\U{D} \U{85}\U{A0}\U{1680}\U{2000}\U{2001}\U{2002}\U{2003}\U{2004}\U{2005}"
    + "\U{2006}\U{2007}\U{2008}\U{2009}\U{200A}\U{2028}\U{2029}\U{202F}\U{205F}\U{3000}"

  lemma WhiteSpaceIsListed(c: char)
    ensures c in WHITE_SPACE ==> IsWhitespace(c)
    ensures IsWhitespace(c) ==> c in WHITE_SPACE
  {
    assert |WHITE_SPACE| == 25;
    if IsWhitespace(c) {
      WhiteSpacePlace(c as int, c);
    }
  }

  lemma WhiteSpacePlace(n: int, c: char)
    requires n == c as int && IsWhitespace(c)
    ensures c in WHITE_SPACE
  {
    var k := if n <= 0x0D then n - 9 else if n == 0x20 then 5 else if n == 0x85 then 6 else if n == 0xA0 then 7
             else if n == 0x1680 then 8 else if n <= 0x200A then n - 0x2000 + 9 else if n == 0x2028 then 20
             else if n == 0x2029 then 21 else if n == 0x202F then 22 else if n == 0x205F then 23 else 24;
    assert 0 <= k < |WHITE_SPACE| && WHITE_SPACE[k] == c;
  }

  /** Control chars are the two blocks of 32 and 32 codes that ASCII and Latin-1 set aside, and DEL between them. */
  lemma ControlsAreKnown(c: char)
    ensures IsControl(c) <==> c < ' ' || '\U{7F}' <= c < '\U{A0}'
  {
  }

  /** Where the length in UTF-8 steps up (section 3 of RFC 3629). */
  lemma Utf8LenSteps(c: char, d: char)
    ensures c <= d ==> Utf8Len(c) <= Utf8Len(d)
    ensures Utf8Len('\U{0}') == 1 == Utf8Len('\U{7F}') && Utf8Len('\U{80}') == 2 == Utf8Len('\U{7FF}')
    ensures Utf8Len('\U{800}') == 3 == Utf8Len('\U{FFFF}') && Utf8Len('\U{10000}') == 4 == Utf8Len('\U{10FFFF}')
  {
  }
}
