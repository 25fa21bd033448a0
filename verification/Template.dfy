/**
Filling in a ping's template: one placeholder is replaced after the other, and
when that amounts to replacing both at once.
*/
module Template {
  import opened Text
  import opened Sets

  const MENTIONS: string := "{mentions}"
  const SENDER: string := "{sender}"

  /** `str::replace`: leftmost matches first, not overlapping, and not looking at what was put in. */
  function Replace(s: string, pat: string, with: string): string
    requires pat != ""
  {
    if s == "" then ""
    else if pat <= s then with + Replace(s[|pat|..], pat, with)
    else [s[0]] + Replace(s[1..], pat, with)
  }

  /** The members to mention: all, but for the sender when the template names them itself. */
  function Mentioned(members: seq<string>, sender: string, senderInTemplate: bool): seq<string> {
    if members == [] then []
    else (if !senderInTemplate || members[0] != sender then [members[0]] else [])
         + Mentioned(members[1..], sender, senderInTemplate)
  }

  function JoinMentions(members: seq<string>): string {
    if members == [] then ""
    else if |members| == 1 then ['@'] + members[0]
    else ['@'] + members[0] + " " + JoinMentions(members[1..])
  }

  function MentionText(template: string, members: seq<string>, sender: string): string {
    JoinMentions(Mentioned(members, sender, Contains(template, SENDER)))
  }

  function FillIn(template: string, mentions: string, sender: string): string {
    Replace(Replace(template, MENTIONS, mentions), SENDER, ['@'] + sender)
  }

  /** The message for a ping's members, in the order in which the set yields them. */
  function Render(template: string, members: seq<string>, sender: string): Option<string> {
    var mentions := MentionText(template, members, sender);
    if mentions == "" then None else Some(FillIn(template, mentions, sender))
  }

  /** One more member is mentioned after a space. */
  lemma {:induction false} JoinOneMore(members: seq<string>, last: string)
    ensures JoinMentions(members + [last]) == JoinMentions(members) + (if members == [] then "@" else " @") + last
  {
    if members == [] {
      assert [] + [last] == [last];
      assert JoinMentions([]) + "@" + last == ['@'] + last;
    } else {
      JoinOneMore(members[1..], last);
      assert (members + [last])[1..] == members[1..] + [last];
      assert |members| == 1 ==> members[1..] == [];
      var head := ['@'] + members[0] + " ";
      if |members| == 1 {
        assert JoinMentions(members[1..] + [last]) == ['@'] + last;
        assert head + (['@'] + last) == ['@'] + members[0] + " @" + last;
      } else {
        assert head + (JoinMentions(members[1..]) + " @" + last) == (head + JoinMentions(members[1..])) + " @" + last;
      }
    }
  }

  /** Those mentioned are the members to mention, each once and in their order. */
  lemma {:induction false} MentionedMembers(members: seq<string>, sender: string, skip: bool)
    ensures forall x :: x in Mentioned(members, sender, skip) <==> x in members && (skip ==> x != sender)
    ensures Repeats(Mentioned(members, sender, skip)) ==> Repeats(members)
  {
    if members == [] {
    } else {
      var rest := Mentioned(members[1..], sender, skip);
      MentionedMembers(members[1..], sender, skip);
      assert members == [members[0]] + members[1..];
      if i, j :| 0 <= i < j < |rest| && rest[i] == rest[j] {
        RepeatsLater(members);
      } else if Repeats(Mentioned(members, sender, skip)) {
        assert members[0] in members[1..];
      }
    }
  }

  lemma RepeatsLater(s: seq<string>)
    requires s != [] && Repeats(s[1..])
    ensures Repeats(s)
  {
    var i, j :| 0 <= i < j < |s[1..]| && s[1..][i] == s[1..][j];
    assert s[i + 1] == s[j + 1];
  }

  // ---- both placeholders at once ----

  /** One pass over the template that puts in both texts and reads neither. */
  function FillInAtOnce(t: string, mentions: string, sender: string): string {
    if t == "" then ""
    else if MENTIONS <= t then mentions + FillInAtOnce(t[|MENTIONS|..], mentions, sender)
    else if SENDER <= t then ['@'] + sender + FillInAtOnce(t[|SENDER|..], mentions, sender)
    else [t[0]] + FillInAtOnce(t[1..], mentions, sender)
  }

  /** The same message, with both texts put in at once. */
  function RenderAtOnce(template: string, members: seq<string>, sender: string): Option<string> {
    var mentions := MentionText(template, members, sender);
    if mentions == "" then None else Some(FillInAtOnce(template, mentions, sender))
  }

  /** No `{sender}` starts inside `m`, whatever text comes after it. */
  predicate Inert(m: string) {
    forall i :: 0 <= i < |m| ==> !(SENDER <= m[i..]) && !(m[i..] <= SENDER)
  }

  lemma NoBraceIsInert(m: string)
    requires '{' !in m
    ensures Inert(m)
  {
    forall i | 0 <= i < |m| ensures !(SENDER <= m[i..]) && !(m[i..] <= SENDER) {
      assert m[i..][0] == m[i];
    }
  }

  lemma {:induction false} InertIsKept(m: string, x: string, with: string)
    requires Inert(m)
    ensures Replace(m + x, SENDER, with) == m + Replace(x, SENDER, with)
  {
    if m == "" {
      assert m + x == x;
    } else {
      assert m[0..] == m;
      assert !(SENDER <= m + x) by { PrefixOfCat(SENDER, m, x); }
      assert (m + x)[1..] == m[1..] + x;
      forall i | 0 <= i < |m[1..]| ensures !(SENDER <= m[1..][i..]) && !(m[1..][i..] <= SENDER) {
        assert m[1..][i..] == m[i + 1..];
      }
      InertIsKept(m[1..], x, with);
    }
  }

  lemma PrefixOfCat(p: string, m: string, x: string)
    ensures p <= m + x ==> p <= m || m <= p
  {
    if p <= m + x {
      if |p| <= |m| {
        assert p == (m + x)[..|p|] == m[..|p|];
      } else {
        assert m == (m + x)[..|m|] == p[..|m|];
      }
    }
  }

  /** Text without `{` is copied as it is. */
  lemma {:induction false} PlainIsKept(p: string, x: string, pat: string, with: string)
    requires '{' !in p && pat != "" && pat[0] == '{'
    ensures Replace(p + x, pat, with) == p + Replace(x, pat, with)
  {
    if p == "" {
      assert p + x == x;
    } else {
      assert (p + x)[0] == p[0] && (p + x)[1..] == p[1..] + x;
      PlainIsKept(p[1..], x, pat, with);
    }
  }

  /** Text with neither `{` nor `@` at the front of the result was at the front of the template. */
  lemma {:induction false} PrefixWasThere(t: string, p: string, m: string)
    requires '{' !in p && '@' !in p && m != "" && m[0] == '@'
    requires p <= Replace(t, MENTIONS, m)
    ensures p <= t
  {
    if p == "" {
    } else {
      var r := Replace(t, MENTIONS, m);
      assert p[0] == r[0] && p[0] in p;
      if !(MENTIONS <= t) {
        assert r[1..] == Replace(t[1..], MENTIONS, m);
        assert p[1..] <= r[1..];
        PrefixWasThere(t[1..], p[1..], m);
        assert p == [p[0]] + p[1..] && t == [t[0]] + t[1..];
      }
    }
  }

  /** A `{sender}` in front of the result stood in the template: none comes about across an edge. */
  lemma SenderWasThere(t: string, m: string)
    requires m != "" && m[0] == '@' && t != "" && !(MENTIONS <= t)
    requires SENDER <= Replace(t, MENTIONS, m)
    ensures SENDER <= t
  {
    var r := Replace(t, MENTIONS, m);
    assert r[1..] == Replace(t[1..], MENTIONS, m) && r[0] == t[0];
    assert SENDER[1..] <= r[1..];
    PrefixWasThere(t[1..], SENDER[1..], m);
    assert SENDER == [SENDER[0]] + SENDER[1..] && t == [t[0]] + t[1..];
  }

  /** With an inert mentions text the two passes are one. */
  lemma {:induction false} TwoPassesAreOne(t: string, m: string, sender: string)
    requires m != "" && m[0] == '@' && Inert(m)
    ensures FillIn(t, m, sender) == FillInAtOnce(t, m, sender)
    decreases |t|
  {
    var with := ['@'] + sender;
    if t == "" {
    } else if MENTIONS <= t {
      InertIsKept(m, Replace(t[|MENTIONS|..], MENTIONS, m), with);
      TwoPassesAreOne(t[|MENTIONS|..], m, sender);
    } else if SENDER <= t {
      SenderSurvives(t, m, with);
      TwoPassesAreOne(t[|SENDER|..], m, sender);
    } else {
      var r := Replace(t, MENTIONS, m);
      assert r[1..] == Replace(t[1..], MENTIONS, m) && r[0] == t[0];
      if SENDER <= r {
        SenderWasThere(t, m);
      }
      TwoPassesAreOne(t[1..], m, sender);
    }
  }

  lemma SenderSurvives(t: string, m: string, with: string)
    requires SENDER <= t
    ensures Replace(Replace(t, MENTIONS, m), SENDER, with)
         == with + Replace(Replace(t[|SENDER|..], MENTIONS, m), SENDER, with)
  {
    var tail := t[|SENDER|..];
    assert t == ['{'] + ("sender}" + tail);
    assert t[1..] == "sender}" + tail;
    assert t[1] == 's';
    PlainIsKept("sender}", tail, MENTIONS, m);
    var r := Replace(tail, MENTIONS, m);
    assert Replace(t, MENTIONS, m) == ['{'] + ("sender}" + r);
    assert ['{'] + ("sender}" + r) == SENDER + r;
    assert (SENDER + r)[|SENDER|..] == r;
  }

  /** A text with a `{sender}` in it is changed by the second pass. */
  lemma {:induction false} SenderIsReplaced(s: string, i: nat, with: string)
    requires i <= |s| && SENDER <= s[i..] && with != "" && with[0] != '{'
    ensures Replace(s, SENDER, with) != s
  {
    if SENDER <= s {
      assert Replace(s, SENDER, with)[0] == with[0];
      assert s[0] == SENDER[0];
    } else {
      assert s[0..] == s;
      assert s[1..][i - 1..] == s[i..];
      SenderIsReplaced(s[1..], i - 1, with);
      assert Replace(s, SENDER, with)[1..] == Replace(s[1..], SENDER, with);
    }
  }

  /** A template for which it makes a difference, when the mentions text is not inert. */
  lemma PassesDiffer(m: string, i: nat, sender: string) returns (t: string)
    requires i < |m| && (SENDER <= m[i..] || m[i..] <= SENDER)
    ensures FillIn(t, m, sender) != FillInAtOnce(t, m, sender) && !Contains(t, SENDER)
  {
    var tail := if SENDER <= m[i..] then "" else SENDER[|m| - i..];
    t := MENTIONS + tail;
    RestIsPlain(if SENDER <= m[i..] then |SENDER| else |m| - i);
    assert SENDER[|SENDER|..] == "";
    NotInTail(tail);
    MentionsThenTail(tail, m, sender);
    SenderInside(m, i, tail);
    SenderIsReplaced(m + tail, i, ['@'] + sender);
  }

  lemma RestIsPlain(k: nat)
    requires 1 <= k <= |SENDER|
    ensures '{' !in SENDER[k..]
  {
  }

  lemma MentionsThenTail(tail: string, m: string, sender: string)
    requires '{' !in tail
    ensures FillIn(MENTIONS + tail, m, sender) == Replace(m + tail, SENDER, ['@'] + sender)
    ensures FillInAtOnce(MENTIONS + tail, m, sender) == m + tail
  {
    assert (MENTIONS + tail)[|MENTIONS|..] == tail;
    TailIsCopied(tail, m, sender);
  }

  lemma NotHere(t: string, i: nat)
    requires i < |t| && (t[i] != '{' || (i + 1 < |t| && t[i + 1] != 's'))
    ensures !(SENDER <= t[i..])
  {
    assert t[i..][0] == t[i] && (i + 1 < |t| ==> t[i..][1] == t[i + 1]);
  }

  lemma NotInTail(tail: string)
    requires '{' !in tail
    ensures !Contains(MENTIONS + tail, SENDER)
  {
    var t := MENTIONS + tail;
    forall i | 0 <= i <= |t| ensures !(SENDER <= t[i..]) {
      if i < |t| {
        assert i >= |MENTIONS| ==> t[i] in tail;
        NotHere(t, i);
      }
    }
  }

  lemma SenderInside(m: string, i: nat, tail: string)
    requires i < |m| && (SENDER <= m[i..] || (m[i..] <= SENDER && tail == SENDER[|m| - i..]))
    ensures SENDER <= (m + tail)[i..]
  {
    assert (m + tail)[i..] == m[i..] + tail;
    if !(SENDER <= m[i..]) {
      assert SENDER == SENDER[..|m| - i] + SENDER[|m| - i..];
    }
  }

  lemma {:induction false} TailIsCopied(tail: string, m: string, sender: string)
    requires '{' !in tail
    ensures FillInAtOnce(tail, m, sender) == tail == Replace(tail, MENTIONS, m)
  {
    if tail == "" {
    } else {
      assert tail[0] in tail;
      TailIsCopied(tail[1..], m, sender);
    }
  }

  /** The exact condition, on the mentions text alone: two passes are one for every template if it is inert, and not otherwise. */
  lemma TwoPassesCondition(m: string, sender: string)
    requires m != "" && m[0] == '@'
    ensures (forall t :: FillIn(t, m, sender) == FillInAtOnce(t, m, sender)) <==> Inert(m)
  {
    if Inert(m) {
      forall t ensures FillIn(t, m, sender) == FillInAtOnce(t, m, sender) {
        TwoPassesAreOne(t, m, sender);
      }
    } else {
      var i :| 0 <= i < |m| && (SENDER <= m[i..] || m[i..] <= SENDER);
      var t := PassesDiffer(m, i, sender);
    }
  }

  lemma {:induction false} JoinedMentions(members: seq<string>)
    ensures JoinMentions(members) == "" <==> members == []
    ensures members != [] ==> JoinMentions(members)[0] == '@'
    ensures (forall k :: 0 <= k < |members| ==> '{' !in members[k]) ==> '{' !in JoinMentions(members)
  {
    if |members| <= 1 {
    } else {
      JoinedMentions(members[1..]);
    }
  }

  /** When no member has a `{` in their name, a ping is its template with both texts put in at once. */
  lemma RenderIsSimultaneous(template: string, members: seq<string>, sender: string)
    requires forall k :: 0 <= k < |members| ==> '{' !in members[k]
    ensures Render(template, members, sender) == RenderAtOnce(template, members, sender)
  {
    var listed := Mentioned(members, sender, Contains(template, SENDER));
    var m := MentionText(template, members, sender);
    MentionedMembers(members, sender, Contains(template, SENDER));
    forall k | 0 <= k < |listed| ensures '{' !in listed[k] {
      assert listed[k] in listed;
    }
    JoinedMentions(listed);
    if m != "" {
      NoBraceIsInert(m);
      TwoPassesAreOne(template, m, sender);
    }
  }

  /** The texts that a ping's members give: all of them, or all but the sender. */
  function AllText(members: seq<string>): string {
    JoinMentions(Mentioned(members, "", false))
  }

  function OthersText(members: seq<string>, sender: string): string {
    JoinMentions(Mentioned(members, sender, true))
  }

  lemma {:induction false} AllAreMentioned(members: seq<string>, sender: string)
    ensures Mentioned(members, sender, false) == members
  {
    if members == [] {
    } else {
      AllAreMentioned(members[1..], sender);
    }
  }

  lemma TextIs(template: string, members: seq<string>, sender: string)
    ensures MentionText(template, members, sender)
         == if Contains(template, SENDER) then OthersText(members, sender) else AllText(members)
  {
    AllAreMentioned(members, sender);
    AllAreMentioned(members, "");
  }

  lemma OneTemplateKept(template: string, members: seq<string>, sender: string)
    requires Inert(AllText(members)) && Inert(OthersText(members, sender))
    ensures Render(template, members, sender) == RenderAtOnce(template, members, sender)
  {
    var m := MentionText(template, members, sender);
    TextIs(template, members, sender);
    JoinedMentions(Mentioned(members, sender, Contains(template, SENDER)));
    if m != "" {
      TwoPassesAreOne(template, m, sender);
    }
  }

  /** With `{sender}` put in front, a template makes the same difference, but the sender is left out of the mentions. */
  lemma SenderInFront(t: string, m: string, sender: string)
    requires FillIn(t, m, sender) != FillInAtOnce(t, m, sender)
    ensures FillIn(SENDER + t, m, sender) != FillInAtOnce(SENDER + t, m, sender) && Contains(SENDER + t, SENDER)
  {
    var with := ['@'] + sender;
    var t' := SENDER + t;
    assert t'[|SENDER|..] == t && t'[0..] == t' && SENDER <= t';
    SenderSurvives(t', m, with);
    assert !(MENTIONS <= t') by { assert t'[1] == 's'; }
    SameFront(with, FillIn(t, m, sender), FillInAtOnce(t, m, sender));
  }

  lemma SameFront(p: string, a: string, b: string)
    requires a != b
    ensures p + a != p + b
  {
    assert (p + a)[|p|..] == a && (p + b)[|p|..] == b;
  }

  lemma OneTemplateDiffers(members: seq<string>, sender: string) returns (t: string)
    requires !Inert(AllText(members)) || !Inert(OthersText(members, sender))
    ensures Render(t, members, sender) != RenderAtOnce(t, members, sender)
  {
    var m := if !Inert(AllText(members)) then AllText(members) else OthersText(members, sender);
    var i :| 0 <= i < |m| && (SENDER <= m[i..] || m[i..] <= SENDER);
    t := PassesDiffer(m, i, sender);
    if Inert(AllText(members)) {
      SenderInFront(t, m, sender);
      t := SENDER + t;
    }
    TextIs(t, members, sender);
  }

  /**
  The exact condition for given members and sender: every template is rendered as if
  both texts were put in at once exactly when no `{sender}` can start inside the
  mentions of all members, nor inside those of all but the sender.
  */
  lemma RenderCondition(members: seq<string>, sender: string)
    ensures (forall t :: Render(t, members, sender) == RenderAtOnce(t, members, sender))
       <==> Inert(AllText(members)) && Inert(OthersText(members, sender))
  {
    if Inert(AllText(members)) && Inert(OthersText(members, sender)) {
      forall t ensures Render(t, members, sender) == RenderAtOnce(t, members, sender) {
        OneTemplateKept(t, members, sender);
      }
    } else {
      var t := OneTemplateDiffers(members, sender);
    }
  }

  /** Both texts matter: here nothing can start inside the first, but a `{` ends the second. */
  lemma BothTextsMatter()
    ensures var members := ["a{", "eve"];
            Inert(AllText(members)) && !Inert(OthersText(members, "eve"))
  {
    var members := ["a{", "eve"];
    AllAreMentioned(members, "");
    assert members[1..] == ["eve"] && ["eve"][1..] == [];
    var all := ['@'] + "a{" + " " + (['@'] + "eve");
    assert AllText(members) == all == "@a{ @eve";
    assert all[2] == '{' && all[3] == ' ';
    forall i | 0 <= i < |all| ensures !(SENDER <= all[i..]) && !(all[i..] <= SENDER) {
      assert all[i..][0] == all[i];
      assert i == 2 ==> all[i..][1] == all[3];
    }
    assert Mentioned(["eve"], "eve", true) == [];
    assert Mentioned(members, "eve", true) == ["a{"];
    var others := OthersText(members, "eve");
    assert others == "@a{" && others[2..] == "{" && "{" <= SENDER;
  }

  /** Nobody is pinged exactly when no member is left to mention. */
  lemma RenderNothing(template: string, members: seq<string>, sender: string)
    ensures Render(template, members, sender).None?
       <==> forall x :: x in members ==> Contains(template, SENDER) && x == sender
  {
    var skip := Contains(template, SENDER);
    MentionedMembers(members, sender, skip);
    JoinedMentions(Mentioned(members, sender, skip));
    if Mentioned(members, sender, skip) != [] {
      assert Mentioned(members, sender, skip)[0] in Mentioned(members, sender, skip);
    }
  }

  /** A member named so breaks the equality: their name is taken for the placeholder. */
  lemma BraceInName()
    ensures var m := JoinMentions(["{sender}"]);
            FillIn("{mentions}", m, "eve") == "@@eve" && FillInAtOnce("{mentions}", m, "eve") == "@{sender}"
  {
    var m := "@{sender}";
    assert JoinMentions(["{sender}"]) == m && ['@'] + "eve" == "@eve";
    assert MENTIONS[|MENTIONS|..] == "";
    assert Replace(MENTIONS, MENTIONS, m) == m + "" == m;
    assert !(SENDER <= m) && m[1..] == SENDER && SENDER[|SENDER|..] == "";
    assert Replace(SENDER, SENDER, "@eve") == "@eve" + "";
    assert Replace(m, SENDER, "@eve") == ['@'] + "@eve" == "@@eve";
  }
}
