/**
What every chat message goes through before it is sent: control characters and
whitespace runs become single spaces, and the text is cut to fit the line.
*/
module Sanitize {
  import opened Text

  const MAX_OUTBOUND_BYTES: nat := 480
  const ELLIPSIS: char := '\U{2026}'
  /** What is left for the text when an ellipsis, of 3 bytes, has to follow it. */
  const BUDGET: nat := MAX_OUTBOUND_BYTES - Utf8Len(ELLIPSIS)

  predicate IsBlank(c: char) {
    IsWhitespace(c) || IsControl(c)
  }

  /** Each run of blanks becomes one space; `prev` says that a run is under way. */
  function Collapse(s: string, prev: bool): string {
    if s == "" then ""
    else if IsBlank(s[0]) then (if prev then "" else " ") + Collapse(s[1..], true)
    else [s[0]] + Collapse(s[1..], false)
  }

  /** How many chars fit into so many bytes. */
  function Fit(s: string, bytes: nat): (n: nat)
    ensures n <= |s|
  {
    if s == "" || Utf8Len(s[0]) > bytes then 0 else 1 + Fit(s[1..], bytes - Utf8Len(s[0]))
  }

  function Sanitized(s: string): string {
    var c := Collapse(s, false);
    if ByteLen(c) <= MAX_OUTBOUND_BYTES then c else c[..Fit(c, BUDGET)] + [ELLIPSIS]
  }

  method SanitizeOutbound(input: string) returns (out: string)
    ensures out == Sanitized(input)
  {
    var collapsed := CollapseRuns(input);
    if ByteLen(collapsed) <= MAX_OUTBOUND_BYTES {
      return collapsed;
    }
    var end := CutPoint(collapsed, MAX_OUTBOUND_BYTES - Utf8Len(ELLIPSIS));
    out := collapsed[..end] + [ELLIPSIS];
  }

  method CollapseRuns(input: string) returns (collapsed: string)
    ensures collapsed == Collapse(input, false)
  {
    collapsed := "";
    var prevSpace := false;
    for i := 0 to |input|
      invariant collapsed + Collapse(input[i..], prevSpace) == Collapse(input, false)
    {
      var ch := input[i];
      ghost var tail := Collapse(input[i + 1..], IsBlank(ch));
      assert input[i..][1..] == input[i + 1..];
      assert "" + tail == tail;
      if IsBlank(ch) {
        if !prevSpace {
          Regroup(collapsed, " ", tail);
          collapsed := collapsed + " ";
        }
        prevSpace := true;
      } else {
        Regroup(collapsed, [ch], tail);
        collapsed := collapsed + [ch];
        prevSpace := false;
      }
    }
    assert input[|input|..] == "";
  }

  lemma Regroup(a: string, b: string, c: string)
    ensures a + (b + c) == (a + b) + c
  {
  }

  /** The scan over the chars: `index` is the byte offset of the char at `i`. */
  method CutPoint(s: string, budget: nat) returns (end: nat)
    ensures end == Fit(s, budget)
  {
    end := 0;
    var index := 0;
    for i := 0 to |s|
      invariant end == i && index <= budget
      invariant Fit(s, budget) == i + Fit(s[i..], budget - index)
    {
      var next := index + Utf8Len(s[i]);
      if next > budget {
        break;
      }
      assert s[i..][1..] == s[i + 1..];
      index := next;
      end := i + 1;
    }
  }

  // ---- what comes out ----

  /** No control characters, no whitespace but spaces, and no two spaces in a row. */
  predicate IsPlain(s: string) {
    && (forall i :: 0 <= i < |s| ==> IsBlank(s[i]) ==> s[i] == ' ')
    && (forall i :: 0 <= i < |s| - 1 ==> s[i] == ' ' ==> s[i + 1] != ' ')
  }

  predicate StartsBlank(s: string) { s != "" && IsBlank(s[0]) }

  lemma {:induction false} CollapseIsPlain(s: string, prev: bool)
    ensures IsPlain(Collapse(s, prev))
    ensures StartsBlank(Collapse(s, prev)) <==> !prev && StartsBlank(s)
  {
    if s == "" {
    } else {
      CollapseIsPlain(s[1..], IsBlank(s[0]));
      var rest := Collapse(s[1..], IsBlank(s[0]));
      assert Collapse(s, prev) == (if IsBlank(s[0]) then if prev then "" else " " else [s[0]]) + rest;
      if IsBlank(s[0]) && prev {
        assert "" + rest == rest;
      }
    }
  }

  lemma {:induction false} PlainStays(s: string, prev: bool)
    requires IsPlain(s) && (prev ==> !StartsBlank(s))
    ensures Collapse(s, prev) == s
  {
    if s == "" {
    } else {
      assert forall i :: 0 <= i < |s[1..]| ==> s[1..][i] == s[i + 1];
      PlainStays(s[1..], IsBlank(s[0]));
      assert s == [s[0]] + s[1..];
    }
  }

  /** The text's words, cut at blanks, after the word read so far. */
  function Words(s: string, word: string): seq<string> {
    var done := if word == "" then [] else [word];
    if s == "" then done
    else if IsBlank(s[0]) then done + Words(s[1..], "")
    else Words(s[1..], word + [s[0]])
  }

  /** Collapsing keeps every word, in order, and joins and splits none. */
  lemma {:induction false} CollapseKeepsWords(s: string, prev: bool, word: string)
    requires prev ==> word == ""
    ensures Words(Collapse(s, prev), word) == Words(s, word)
  {
    if s == "" {
    } else {
      var rest := Collapse(s[1..], IsBlank(s[0]));
      CollapseKeepsWords(s[1..], IsBlank(s[0]), if IsBlank(s[0]) then "" else word + [s[0]]);
      if IsBlank(s[0]) && prev {
        assert "" + rest == rest;
      } else {
        assert Collapse(s, prev)[1..] == rest;
      }
    }
  }

  /** The cut is the longest prefix, in whole chars, within the budget. */
  lemma {:induction false} FitIsLongest(s: string, bytes: nat)
    ensures ByteLen(s[..Fit(s, bytes)]) <= bytes
    ensures forall n :: Fit(s, bytes) < n <= |s| ==> ByteLen(s[..n]) > bytes
  {
    if s != "" && Utf8Len(s[0]) <= bytes {
      FitIsLongest(s[1..], bytes - Utf8Len(s[0]));
      var k := Fit(s, bytes);
      assert s[..k][1..] == s[1..][..k - 1];
      forall n | k < n <= |s| ensures ByteLen(s[..n]) > bytes {
        assert s[..n][1..] == s[1..][..n - 1];
      }
    } else if s != "" {
      forall n | 0 < n <= |s| ensures ByteLen(s[..n]) > bytes {
        assert s[..n][0] == s[0];
      }
    }
  }

  /** A sanitised text is plain and fits the line. */
  lemma SanitizedFits(s: string)
    ensures IsPlain(Sanitized(s)) && ByteLen(Sanitized(s)) <= MAX_OUTBOUND_BYTES
  {
    var c := Collapse(s, false);
    CollapseIsPlain(s, false);
    if ByteLen(c) > MAX_OUTBOUND_BYTES {
      var k := Fit(c, BUDGET);
      FitIsLongest(c, BUDGET);
      ByteLenCat(c[..k], [ELLIPSIS]);
      assert !IsBlank(ELLIPSIS);
    }
  }

  /** In plain terms: no control chars, no whitespace but the space, and no two spaces in a row. */
  lemma SanitizedIsClean(s: string)
    ensures var r := Sanitized(s);
            && (forall i :: 0 <= i < |r| ==> !IsControl(r[i]) && (IsWhitespace(r[i]) ==> r[i] == ' '))
            && (forall i :: 0 <= i < |r| - 1 ==> !(r[i] == ' ' && r[i + 1] == ' '))
  {
    SanitizedFits(s);
  }

  /** The chars that are neither whitespace nor control. */
  function Visible(s: string): string {
    if s == "" then ""
    else (if IsWhitespace(s[0]) || IsControl(s[0]) then "" else [s[0]]) + Visible(s[1..])
  }

  /** Collapsing keeps every other char, in order. */
  lemma {:induction false} CollapseKeepsVisible(s: string, prev: bool)
    ensures Visible(Collapse(s, prev)) == Visible(s)
  {
    if s == "" {
    } else {
      var rest := Collapse(s[1..], IsBlank(s[0]));
      CollapseKeepsVisible(s[1..], IsBlank(s[0]));
      assert "" + rest == rest;
      if !(IsBlank(s[0]) && prev) {
        assert Collapse(s, prev)[1..] == rest;
        assert "" + Visible(rest) == Visible(rest);
      }
    }
  }

  /** Either nothing was cut, or the longest prefix that leaves room was kept. */
  lemma SanitizedCut(s: string)
    ensures var c := Collapse(s, false);
            && Words(c, "") == Words(s, "")
            && (Sanitized(s) == c <==> ByteLen(c) <= MAX_OUTBOUND_BYTES)
            && (ByteLen(c) > MAX_OUTBOUND_BYTES ==>
                  exists k :: 0 <= k < |c| && Sanitized(s) == c[..k] + "\U{2026}"
                           && ByteLen(c[..k]) <= 477 < ByteLen(c[..k + 1]))
  {
    var c := Collapse(s, false);
    CollapseKeepsWords(s, false, "");
    SanitizedFits(s);
    if ByteLen(c) > MAX_OUTBOUND_BYTES {
      var k := Fit(c, BUDGET);
      FitIsLongest(c, BUDGET);
      assert c[..|c|] == c && BUDGET == 477;
      assert k < |c| && Sanitized(s) == c[..k] + "\U{2026}" && ByteLen(c[..k]) <= 477 < ByteLen(c[..k + 1]);
    }
  }

  lemma SanitizeIdempotent(s: string)
    ensures Sanitized(Sanitized(s)) == Sanitized(s)
  {
    SanitizedFits(s);
    PlainStays(Sanitized(s), false);
  }
}
