/**
Which emotes a prompt offers: the glossary narrowed to what the channel has, and
from it a selection in three layers. How often an emote was used of late and how
well it fits the instruction are numbers given for each emote.
*/
module Emotes {
  import opened Text
  import opened Sets

  datatype GlossaryEmote = GlossaryEmote(name: string, meaning: string, usage: Option<string>, avoid: Option<string>)

  datatype PromptEmote = PromptEmote(name: string, meaning: string, usage: Option<string>, avoid: Option<string>)

  // ---- the available emotes ----

  /** `normalize` joins a field's words by single spaces. */
  function Field(normalize: string -> string, f: Option<string>): Option<string> {
    if f.Some? && normalize(f.value) != "" then Some(normalize(f.value)) else None
  }

  function Prompt(normalize: string -> string, g: GlossaryEmote): PromptEmote {
    PromptEmote(Trim(g.name), normalize(g.meaning), Field(normalize, g.usage), Field(normalize, g.avoid))
  }

  /** The names of the entries before this one. */
  function NamesBefore(glossary: seq<GlossaryEmote>, i: nat): set<string>
    requires i <= |glossary|
  {
    if i == 0 then {} else NamesBefore(glossary, i - 1) + {Trim(glossary[i - 1].name)}
  }

  /** The entry has a name that no earlier entry has, that the channel offers, and a meaning. */
  predicate Usable(normalize: string -> string, glossary: seq<GlossaryEmote>, available: set<string>, i: nat)
    requires i < |glossary|
  {
    var name := Trim(glossary[i].name);
    && name != "" && name in available && normalize(glossary[i].meaning) != ""
    && name !in NamesBefore(glossary, i)
  }

  function AvailableUpTo(normalize: string -> string, glossary: seq<GlossaryEmote>, available: set<string>, n: nat): seq<PromptEmote>
    requires n <= |glossary|
  {
    if n == 0 then []
    else
      AvailableUpTo(normalize, glossary, available, n - 1)
      + if Usable(normalize, glossary, available, n - 1) then [Prompt(normalize, glossary[n - 1])] else []
  }

  /** None when nothing is left. */
  method BuildAvailable(normalize: string -> string, glossary: seq<GlossaryEmote>, available: set<string>)
    returns (r: Option<seq<PromptEmote>>)
    ensures var all := AvailableUpTo(normalize, glossary, available, |glossary|);
            r == if all == [] then None else Some(all)
  {
    var seen: set<string> := {};
    var emotes := [];
    for i := 0 to |glossary|
      invariant seen == NamesBefore(glossary, i) - {""}
      invariant emotes == AvailableUpTo(normalize, glossary, available, i)
    {
      var name := Trim(glossary[i].name);
      if name == "" || name in seen {
        continue;
      }
      seen := seen + {name};
      if name !in available {
        continue;
      }
      var meaning := normalize(glossary[i].meaning);
      if meaning == "" {
        continue;
      }
      emotes := emotes + [PromptEmote(name, meaning, Field(normalize, glossary[i].usage), Field(normalize, glossary[i].avoid))];
    }
    r := if emotes == [] then None else Some(emotes);
  }

  ghost predicate NamedFrom(emotes: seq<PromptEmote>, names: set<string>) {
    forall a :: 0 <= a < |emotes| ==> emotes[a].name in names
  }

  ghost predicate DistinctNames(emotes: seq<PromptEmote>) {
    forall a, b :: 0 <= a < b < |emotes| ==> emotes[a].name != emotes[b].name
  }

  /** The emotes built have names that the channel offers, and no two share a name. */
  lemma {:induction false} AvailableAreDistinct(normalize: string -> string, glossary: seq<GlossaryEmote>,
                                                available: set<string>, n: nat)
    requires n <= |glossary|
    ensures var r := AvailableUpTo(normalize, glossary, available, n);
            NamedFrom(r, available) && NamedFrom(r, NamesBefore(glossary, n)) && DistinctNames(r)
  {
    if n == 0 {
    } else {
      AvailableAreDistinct(normalize, glossary, available, n - 1);
      NameAdded(AvailableUpTo(normalize, glossary, available, n - 1), available, NamesBefore(glossary, n - 1),
                Prompt(normalize, glossary[n - 1]));
      var before := AvailableUpTo(normalize, glossary, available, n - 1);
      assert before + [] == before;
    }
  }

  lemma NameAdded(before: seq<PromptEmote>, available: set<string>, names: set<string>, e: PromptEmote)
    requires NamedFrom(before, available) && NamedFrom(before, names) && DistinctNames(before)
    ensures NamedFrom(before, names + {e.name})
    ensures e.name in available ==> NamedFrom(before + [e], available)
    ensures NamedFrom(before + [e], names + {e.name})
    ensures e.name !in names ==> DistinctNames(before + [e])
  {
  }

  /** They are the usable entries, and all of those. */
  lemma {:induction false} AvailableAreUsable(normalize: string -> string, glossary: seq<GlossaryEmote>,
                                              available: set<string>, n: nat, e: PromptEmote)
    requires n <= |glossary|
    ensures e in AvailableUpTo(normalize, glossary, available, n) <==> FromUsable(normalize, glossary, available, n, e)
  {
    if n == 0 {
    } else {
      AvailableAreUsable(normalize, glossary, available, n - 1, e);
      FromOneMore(normalize, glossary, available, n, e);
      MemberOfCat(AvailableUpTo(normalize, glossary, available, n - 1), Prompt(normalize, glossary[n - 1]), e);
    }
  }

  lemma MemberOfCat(before: seq<PromptEmote>, last: PromptEmote, e: PromptEmote)
    ensures e in before + [last] <==> e in before || e == last
    ensures before + [] == before
  {
  }

  lemma FromOneMore(normalize: string -> string, glossary: seq<GlossaryEmote>, available: set<string>,
                    n: nat, e: PromptEmote)
    requires 0 < n <= |glossary|
    ensures FromUsable(normalize, glossary, available, n, e)
       <==> || FromUsable(normalize, glossary, available, n - 1, e)
            || (Usable(normalize, glossary, available, n - 1) && e == Prompt(normalize, glossary[n - 1]))
  {
  }

  ghost predicate FromUsable(normalize: string -> string, glossary: seq<GlossaryEmote>, available: set<string>,
                             n: nat, e: PromptEmote)
    requires n <= |glossary|
  {
    exists i :: 0 <= i < n && Usable(normalize, glossary, available, i) && e == Prompt(normalize, glossary[i])
  }

  /** What an offered emote says, field by field, of the first entry of its name. */
  ghost predicate Describes(normalize: string -> string, glossary: seq<GlossaryEmote>, available: set<string>,
                            i: nat, e: PromptEmote)
    requires i < |glossary|
  {
    var g := glossary[i];
    && e.name == Trim(g.name) != "" && e.name in available
    && (forall j :: 0 <= j < i ==> Trim(glossary[j].name) != e.name)
    && e.meaning == normalize(g.meaning) != ""
    && SaysOptionally(normalize, g.usage, e.usage) && SaysOptionally(normalize, g.avoid, e.avoid)
  }

  /** A field that is blank, or not there, is not said. */
  predicate SaysOptionally(normalize: string -> string, given: Option<string>, said: Option<string>) {
    match given
    case None => said.None?
    case Some(text) => if normalize(text) == "" then said.None? else said == Some(normalize(text))
  }

  lemma {:induction false} NamesBeforeAre(glossary: seq<GlossaryEmote>, i: nat, name: string)
    requires i <= |glossary|
    ensures name in NamesBefore(glossary, i) <==> exists j :: 0 <= j < i && Trim(glossary[j].name) == name
  {
    if i == 0 {
    } else {
      NamesBeforeAre(glossary, i - 1, name);
    }
  }

  lemma UsableDescribes(normalize: string -> string, glossary: seq<GlossaryEmote>, available: set<string>,
                        i: nat, e: PromptEmote)
    requires i < |glossary|
    ensures Usable(normalize, glossary, available, i) && e == Prompt(normalize, glossary[i])
       <==> Describes(normalize, glossary, available, i, e)
  {
    NamesBeforeAre(glossary, i, Trim(glossary[i].name));
    hide Trim, NamesBefore;
  }

  /** An emote is offered exactly when it describes an entry. */
  lemma OfferedDescribe(normalize: string -> string, glossary: seq<GlossaryEmote>, available: set<string>, e: PromptEmote)
    ensures e in AvailableUpTo(normalize, glossary, available, |glossary|)
       <==> exists i: nat :: i < |glossary| && Describes(normalize, glossary, available, i, e)
  {
    AvailableAreUsable(normalize, glossary, available, |glossary|, e);
    forall i: nat | i < |glossary|
      ensures Usable(normalize, glossary, available, i) && e == Prompt(normalize, glossary[i])
         <==> Describes(normalize, glossary, available, i, e)
    {
      UsableDescribes(normalize, glossary, available, i, e);
    }
    hide Usable, Prompt, Describes, AvailableUpTo;
  }

  /** These entries, in their order, are described by these emotes. */
  ghost predicate DescribesAll(normalize: string -> string, glossary: seq<GlossaryEmote>, available: set<string>,
                               entries: seq<nat>, n: nat, emotes: seq<PromptEmote>)
    requires n <= |glossary|
  {
    && |entries| == |emotes|
    && (forall a, b :: 0 <= a < b < |entries| ==> entries[a] < entries[b])
    && forall a :: 0 <= a < |entries| ==>
         entries[a] < n && Describes(normalize, glossary, available, entries[a], emotes[a])
  }

  lemma DescribesOneMore(normalize: string -> string, glossary: seq<GlossaryEmote>, available: set<string>,
                         entries: seq<nat>, n: nat, emotes: seq<PromptEmote>, e: PromptEmote)
    requires n < |glossary| && DescribesAll(normalize, glossary, available, entries, n, emotes)
    ensures DescribesAll(normalize, glossary, available, entries, n + 1, emotes)
    ensures Describes(normalize, glossary, available, n, e) ==>
              DescribesAll(normalize, glossary, available, entries + [n], n + 1, emotes + [e])
  {
    hide Describes;
  }

  /** They are offered in the order of their entries. */
  lemma {:induction false} OfferedInOrder(normalize: string -> string, glossary: seq<GlossaryEmote>,
                                          available: set<string>, n: nat) returns (entries: seq<nat>)
    requires n <= |glossary|
    ensures DescribesAll(normalize, glossary, available, entries, n, AvailableUpTo(normalize, glossary, available, n))
  {
    if n == 0 {
      entries := [];
    } else {
      entries := OfferedInOrder(normalize, glossary, available, n - 1);
      var before, e := AvailableUpTo(normalize, glossary, available, n - 1), Prompt(normalize, glossary[n - 1]);
      UsableDescribes(normalize, glossary, available, n - 1, e);
      DescribesOneMore(normalize, glossary, available, entries, n - 1, before, e);
      assert before + [] == before;
      if Usable(normalize, glossary, available, n - 1) {
        entries := entries + [n - 1];
      }
      hide Describes, DescribesAll, Usable, Prompt;
    }
  }

  // ---- ranking ----

  /** Scores of the emotes by their place in the glossary. */
  datatype Scores = Scores(recent: seq<nat>, context: seq<nat>)

  function At(s: seq<nat>, i: nat): nat {
    if i < |s| then s[i] else 0
  }

  /** More recent use first, then the better fit, then the place in the glossary. */
  predicate Outranks(sc: Scores, i: nat, j: nat) {
    || At(sc.recent, i) > At(sc.recent, j)
    || (At(sc.recent, i) == At(sc.recent, j)
        && (At(sc.context, i) > At(sc.context, j) || (At(sc.context, i) == At(sc.context, j) && i < j)))
  }

  predicate Scored(sc: Scores, i: nat) {
    At(sc.recent, i) > 0 || At(sc.context, i) > 0
  }

  /** The scored ones among the first `n` emotes, in glossary order. */
  function ScoredUpTo(sc: Scores, n: nat): seq<nat> {
    if n == 0 then [] else ScoredUpTo(sc, n - 1) + if Scored(sc, n - 1) then [n - 1] else []
  }

  /** A sort by rank. Every correct one gives the same list, as no two emotes rank alike. */
  function SortByRank(sc: Scores, s: seq<nat>): seq<nat> {
    if s == [] then [] else InsertByRank(sc, s[0], SortByRank(sc, s[1..]))
  }

  function InsertByRank(sc: Scores, i: nat, s: seq<nat>): seq<nat> {
    if s == [] then [i]
    else if Outranks(sc, i, s[0]) then [i] + s
    else [s[0]] + InsertByRank(sc, i, s[1..])
  }

  ghost predicate Ranked(sc: Scores, s: seq<nat>) {
    forall a, b :: 0 <= a < b < |s| ==> Outranks(sc, s[a], s[b])
  }

  ghost predicate Distinct(s: seq<nat>) {
    forall a, b :: 0 <= a < b < |s| ==> s[a] != s[b]
  }

  lemma {:induction false} InsertKeepsRanked(sc: Scores, i: nat, s: seq<nat>)
    requires Ranked(sc, s) && i !in s
    ensures Ranked(sc, InsertByRank(sc, i, s)) && |InsertByRank(sc, i, s)| == |s| + 1
    ensures forall x :: x in InsertByRank(sc, i, s) <==> x == i || x in s
  {
    if s != [] && !Outranks(sc, i, s[0]) {
      InsertKeepsRanked(sc, i, s[1..]);
      var rest := InsertByRank(sc, i, s[1..]);
      assert s == [s[0]] + s[1..];
      forall b | 0 <= b < |rest| ensures Outranks(sc, s[0], rest[b]) {
        assert rest[b] in rest;
      }
    } else if s != [] {
      forall b | 0 <= b < |s| ensures Outranks(sc, i, s[b]) {
        assert b > 0 ==> Outranks(sc, s[0], s[b]);
      }
    }
  }

  /** The sort's result is ranked and a permutation of its input. */
  lemma {:induction false} SortRanks(sc: Scores, s: seq<nat>)
    requires Distinct(s)
    ensures Ranked(sc, SortByRank(sc, s)) && |SortByRank(sc, s)| == |s|
    ensures forall x :: x in SortByRank(sc, s) <==> x in s
  {
    if s == [] {
    } else {
      SortRanks(sc, s[1..]);
      assert s == [s[0]] + s[1..];
      assert s[0] !in s[1..];
      InsertKeepsRanked(sc, s[0], SortByRank(sc, s[1..]));
    }
  }

  // ---- adding candidates up to a limit ----

  /** Takes candidates in order, each once, until there are `limit`. */
  function AddUpTo(picked: seq<nat>, cand: seq<nat>, limit: nat): seq<nat>
    decreases |cand|
  {
    if cand == [] || |picked| >= limit then picked
    else AddUpTo(if cand[0] in picked then picked else picked + [cand[0]], cand[1..], limit)
  }

  method AddCandidates(picked: seq<nat>, cand: seq<nat>, limit: nat) returns (r: seq<nat>)
    ensures r == AddUpTo(picked, cand, limit)
  {
    r := picked;
    var pickedIndexes := set i | i in picked;
    for k := 0 to |cand|
      invariant pickedIndexes == Elems(r)
      invariant AddUpTo(r, cand[k..], limit) == AddUpTo(picked, cand, limit)
    {
      if |r| >= limit {
        return;
      }
      assert cand[k..][1..] == cand[k + 1..];
      if cand[k] !in pickedIndexes {
        pickedIndexes := pickedIndexes + {cand[k]};
        r := r + [cand[k]];
      }
    }
  }

  /** What was picked stays in front; the rest are new candidates, without repetition, within the limit. */
  lemma {:induction false} AddedFits(picked: seq<nat>, cand: seq<nat>, limit: nat)
    requires Distinct(picked)
    ensures var r := AddUpTo(picked, cand, limit);
            && picked <= r && Distinct(r)
            && |r| <= (if |picked| > limit then |picked| else limit)
            && (forall x :: x in r ==> x in picked || x in cand)
            && (|r| < limit ==> forall x :: x in cand ==> x in r)
    decreases |cand|
  {
    if cand == [] || |picked| >= limit {
    } else {
      var p := if cand[0] in picked then picked else picked + [cand[0]];
      AddedFits(p, cand[1..], limit);
      assert cand == [cand[0]] + cand[1..];
      assert cand[0] in p;
    }
  }

  /** In a sorted list of candidates, those added are the first, and stay sorted. */
  lemma {:induction false} AddedComeFirst(picked: seq<nat>, cand: seq<nat>, limit: nat, lt: (nat, nat) -> bool)
    requires Distinct(picked) && Sorted(cand, lt)
    ensures picked <= AddUpTo(picked, cand, limit)
    ensures var added := AddUpTo(picked, cand, limit)[|picked|..];
            && Sorted(added, lt)
            && (forall x :: x in added ==> x in cand && x !in picked)
            && (forall x, y :: x in cand && x !in AddUpTo(picked, cand, limit) && y in added ==> lt(y, x))
    decreases |cand|
  {
    if cand != [] && |picked| < limit {
      var c, rest := cand[0], cand[1..];
      SortedParts(cand, lt);
      if c in picked {
        AddedComeFirst(picked, rest, limit, lt);
      } else {
        var p := picked + [c];
        AddedComeFirst(p, rest, limit, lt);
        var added := AddUpTo(p, rest, limit)[|p|..];
        assert AddUpTo(p, rest, limit) == p + added;
        assert AddUpTo(p, rest, limit)[|picked|..] == [c] + added;
        SortedCons(c, added, lt);
      }
    } else {
      assert picked[|picked|..] == [];
    }
  }

  ghost predicate Sorted(s: seq<nat>, lt: (nat, nat) -> bool) {
    forall a, b :: 0 <= a < b < |s| ==> lt(s[a], s[b])
  }

  lemma SortedParts(s: seq<nat>, lt: (nat, nat) -> bool)
    requires Sorted(s, lt) && s != []
    ensures Sorted(s[1..], lt) && forall x :: x in s[1..] ==> lt(s[0], x)
    ensures forall x :: x in s <==> x == s[0] || x in s[1..]
  {
    assert s == [s[0]] + s[1..];
  }

  lemma SortedCons(c: nat, s: seq<nat>, lt: (nat, nat) -> bool)
    requires Sorted(s, lt) && forall x :: x in s ==> lt(c, x)
    ensures Sorted([c] + s, lt)
  {
    forall a, b | 0 <= a < b < |[c] + s| ensures lt(([c] + s)[a], ([c] + s)[b]) {
      if a == 0 {
        assert s[b - 1] in s;
      }
    }
  }

  // ---- the selection ----

  /** The place of the first emote with this name. */
  function IndexOf(emotes: seq<PromptEmote>, name: string): (r: Option<nat>)
    ensures r.Some? ==> r.value < |emotes| && emotes[r.value].name == name
    ensures r.Some? ==> forall i :: 0 <= i < r.value ==> emotes[i].name != name
    ensures r.None? ==> forall i :: 0 <= i < |emotes| ==> emotes[i].name != name
  {
    if emotes == [] then None
    else if emotes[0].name == name then Some(0)
    else
      match IndexOf(emotes[1..], name)
      case None => assert forall i :: 1 <= i < |emotes| ==> emotes[i] == emotes[1..][i - 1]; None
      case Some(i) =>
        assert forall j :: 1 <= j < i + 1 ==> emotes[j] == emotes[1..][j - 1];
        Some(i + 1)
  }

  /** The places of the pinned emotes that there are, in the order of the pins. */
  function Pins(emotes: seq<PromptEmote>, pinned: seq<string>): seq<nat> {
    if pinned == [] then []
    else
      (match IndexOf(emotes, pinned[0])
       case None => []
       case Some(i) => [i])
      + Pins(emotes, pinned[1..])
  }

  function Ascending(n: nat): seq<nat> {
    seq(n, i => i)
  }

  function Floor(max: nat, minBaseline: nat): nat {
    if minBaseline < max then minBaseline else max
  }

  function AfterPins(emotes: seq<PromptEmote>, max: nat, pinned: seq<string>): seq<nat> {
    AddUpTo([], Pins(emotes, pinned), max)
  }

  function AfterScored(emotes: seq<PromptEmote>, max: nat, pinned: seq<string>, sc: Scores): seq<nat> {
    AddUpTo(AfterPins(emotes, max, pinned), SortByRank(sc, ScoredUpTo(sc, |emotes|)), max)
  }

  function Selection(emotes: seq<PromptEmote>, max: nat, minBaseline: nat, pinned: seq<string>, sc: Scores): seq<nat> {
    AddUpTo(AfterScored(emotes, max, pinned, sc), Ascending(|emotes|), Floor(max, minBaseline))
  }

  /** The places of the emotes to offer, in order. */
  method SelectPromptEmotes(emotes: seq<PromptEmote>, max: nat, minBaseline: nat, pinned: seq<string>, sc: Scores)
    returns (picked: seq<nat>)
    ensures picked == Selection(emotes, max, minBaseline, pinned, sc)
  {
    if max == 0 {
      return [];
    }
    picked := [];
    var pickedIndexes: set<nat> := {};
    for k := 0 to |pinned|
      invariant pickedIndexes == Elems(picked)
      invariant AddUpTo(picked, Pins(emotes, pinned[k..]), max) == AfterPins(emotes, max, pinned)
    {
      if |picked| >= max {
        break;
      }
      assert pinned[k..][1..] == pinned[k + 1..];
      var found := IndexOf(emotes, pinned[k]);
      if found.Some? {
        assert Pins(emotes, pinned[k..])[1..] == Pins(emotes, pinned[k + 1..]);
        if found.value !in pickedIndexes {
          pickedIndexes := pickedIndexes + {found.value};
          picked := picked + [found.value];
        }
      } else {
        assert Pins(emotes, pinned[k..]) == Pins(emotes, pinned[k + 1..]);
      }
    }
    var scoring := SortByRank(sc, ScoredUpTo(sc, |emotes|));
    picked := AddCandidates(picked, scoring, max);
    var floor := Floor(max, minBaseline);
    if |picked| < floor {
      picked := AddCandidates(picked, Ascending(|emotes|), floor);
    }
  }

  // ---- what is selected ----

  lemma {:induction false} PinsAreEmotes(emotes: seq<PromptEmote>, pinned: seq<string>)
    ensures forall x :: x in Pins(emotes, pinned) ==> x < |emotes| && emotes[x].name in pinned
    ensures forall p :: p in pinned && IndexOf(emotes, p).Some? ==> IndexOf(emotes, p).value in Pins(emotes, pinned)
  {
    if pinned == [] {
    } else {
      PinsAreEmotes(emotes, pinned[1..]);
      assert pinned == [pinned[0]] + pinned[1..];
    }
  }

  lemma {:induction false} ScoredMembers(sc: Scores, n: nat)
    ensures forall x: nat :: x in ScoredUpTo(sc, n) <==> x < n && Scored(sc, x)
    ensures Distinct(ScoredUpTo(sc, n))
  {
    if n == 0 {
    } else {
      ScoredMembers(sc, n - 1);
      var before := ScoredUpTo(sc, n - 1);
      forall a | 0 <= a < |before| ensures before[a] < n - 1 {
        assert before[a] in before;
      }
    }
  }

  /** The pinned layer: pins that exist, in list order without repetition, as many as fit. */
  function FirstOccurrences(s: seq<nat>): seq<nat> {
    if s == [] then []
    else
      var last := s[|s| - 1];
      FirstOccurrences(s[..|s| - 1]) + if last in s[..|s| - 1] then [] else [last]
  }

  function Take(s: seq<nat>, n: nat): seq<nat> {
    if |s| <= n then s else s[..n]
  }

  lemma {:induction false} FirstOccurrencesMembers(s: seq<nat>)
    ensures forall x :: x in FirstOccurrences(s) <==> x in s
  {
    if s == [] {
    } else {
      FirstOccurrencesMembers(s[..|s| - 1]);
      assert s == s[..|s| - 1] + [s[|s| - 1]];
    }
  }

  lemma {:induction false} AddUpToSplits(picked: seq<nat>, cand: seq<nat>, more: nat, limit: nat)
    ensures AddUpTo(picked, cand + [more], limit)
         == AddUpTo(AddUpTo(picked, cand, limit), [more], limit)
    decreases |cand|
  {
    if cand == [] {
      assert cand + [more] == [more];
    } else if |picked| < limit {
      assert (cand + [more])[1..] == cand[1..] + [more];
      AddUpToSplits(if cand[0] in picked then picked else picked + [cand[0]], cand[1..], more, limit);
    }
  }

  lemma {:induction false} PinnedLayer(cand: seq<nat>, limit: nat)
    ensures AddUpTo([], cand, limit) == Take(FirstOccurrences(cand), limit)
  {
    if cand == [] {
    } else {
      var front, last := cand[..|cand| - 1], cand[|cand| - 1];
      PinnedLayer(front, limit);
      AddUpToSplits([], front, last, limit);
      assert cand == front + [last];
      FirstOccurrencesMembers(front);
      var r := AddUpTo([], front, limit);
      assert AddUpTo(r, [last], limit) == if |r| >= limit || last in r then r else r + [last];
    }
  }

  /**
  A layer on top of what is picked: candidates not picked before, sorted, the first
  of them that there are, and all of them unless the limit is reached.
  */
  ghost predicate Layer(picked: seq<nat>, cand: seq<nat>, limit: nat, lt: (nat, nat) -> bool, added: seq<nat>) {
    && Sorted(added, lt)
    && (forall x :: x in added ==> x in cand && x !in picked)
    && (forall x, y :: x in cand && x !in picked && x !in added && y in added ==> lt(y, x))
    && (|picked| + |added| < limit ==> forall x :: x in cand ==> x in picked || x in added)
    && (added != [] ==> |picked| + |added| <= limit)
  }

  lemma AddedIsLayer(picked: seq<nat>, cand: seq<nat>, limit: nat, lt: (nat, nat) -> bool) returns (added: seq<nat>)
    requires Distinct(picked) && Sorted(cand, lt)
    ensures AddUpTo(picked, cand, limit) == picked + added && Layer(picked, cand, limit, lt, added)
    ensures Distinct(picked + added)
  {
    AddedFits(picked, cand, limit);
    AddedComeFirst(picked, cand, limit, lt);
    added := AddUpTo(picked, cand, limit)[|picked|..];
    assert AddUpTo(picked, cand, limit) == picked + added;
  }

  /**
  The selection as it is meant: pinned emotes in the order of the pins, then scored
  ones by rank, then the first of the others up to the floor; no emote twice, and no
  more than the maximum.
  */
  lemma SelectionIsLayered(emotes: seq<PromptEmote>, max: nat, minBaseline: nat, pinned: seq<string>, sc: Scores)
    returns (pins: seq<nat>, scored: seq<nat>, fill: seq<nat>)
    ensures Selection(emotes, max, minBaseline, pinned, sc) == (pins + scored) + fill
    ensures pins == Take(FirstOccurrences(Pins(emotes, pinned)), max)
    ensures Layer(pins, ScoredUpTo(sc, |emotes|), max, (i: nat, j: nat) => Outranks(sc, i, j), scored)
    ensures Layer(pins + scored, Ascending(|emotes|), Floor(max, minBaseline), (i: nat, j: nat) => i < j, fill)
    ensures Distinct((pins + scored) + fill) && |pins + scored + fill| <= max
  {
    pins := AfterPins(emotes, max, pinned);
    PinnedLayer(Pins(emotes, pinned), max);
    AddedFits([], Pins(emotes, pinned), max);
    ScoredMembers(sc, |emotes|);
    SortRanks(sc, ScoredUpTo(sc, |emotes|));
    scored := AddedIsLayer(pins, SortByRank(sc, ScoredUpTo(sc, |emotes|)), max, (i: nat, j: nat) => Outranks(sc, i, j));
    fill := AddedIsLayer(pins + scored, Ascending(|emotes|), Floor(max, minBaseline), (i: nat, j: nat) => i < j);
  }

  /** From place `from` on, these are, in their order, the places of the pins that there are; each pin is the first emote of its name. */
  ghost predicate Follows(emotes: seq<PromptEmote>, pinned: seq<string>, from: nat, places: seq<nat>, pins: seq<nat>) {
    && |places| == |pins|
    && (forall a, b :: 0 <= a < b < |places| ==> places[a] < places[b])
    && (forall a :: 0 <= a < |pins| ==> from <= places[a] < |pinned| && FirstNamed(emotes, pinned[places[a]], pins[a]))
    && forall k: nat :: from <= k < |pinned| && IndexOf(emotes, pinned[k]).Some? ==> k in places
  }

  function Shifted(places: seq<nat>): (r: seq<nat>)
    ensures |r| == |places| && forall a :: 0 <= a < |r| ==> r[a] == places[a] + 1
    ensures forall k: nat :: k in places ==> k + 1 in r
  {
    seq(|places|, a requires 0 <= a < |places| => places[a] + 1)
  }

  lemma FollowsShifted(emotes: seq<PromptEmote>, pinned: seq<string>, places: seq<nat>, pins: seq<nat>)
    requires pinned != [] && Follows(emotes, pinned[1..], 0, places, pins)
    ensures Follows(emotes, pinned, 1, Shifted(places), pins)
  {
    hide FirstNamed, IndexOf, Shifted;
    forall k: nat | 1 <= k < |pinned| && IndexOf(emotes, pinned[k]).Some? ensures k in Shifted(places) {
      assert pinned[1..][k - 1] == pinned[k];
      assert k - 1 in places;
    }
  }

  lemma FollowsInFront(emotes: seq<PromptEmote>, pinned: seq<string>, places: seq<nat>, pins: seq<nat>, i: nat)
    requires pinned != [] && Follows(emotes, pinned, 1, places, pins) && FirstNamed(emotes, pinned[0], i)
    ensures Follows(emotes, pinned, 0, [0] + places, [i] + pins)
  {
    hide FirstNamed, IndexOf;
    assert ([0] + places)[0] == 0;
  }

  /** The pins that there are, in their order. */
  lemma {:induction false} PinsFollow(emotes: seq<PromptEmote>, pinned: seq<string>) returns (places: seq<nat>)
    ensures Follows(emotes, pinned, 0, places, Pins(emotes, pinned))
  {
    if pinned == [] {
      places := [];
    } else {
      var rest := PinsFollow(emotes, pinned[1..]);
      var pins := Pins(emotes, pinned[1..]);
      FollowsShifted(emotes, pinned, rest, pins);
      FoundIsFirst(emotes, pinned[0]);
      var found := IndexOf(emotes, pinned[0]);
      assert [] + pins == pins;
      hide FirstNamed, IndexOf, Shifted;
      if found.Some? {
        FollowsInFront(emotes, pinned, Shifted(rest), pins, found.value);
        places := [0] + Shifted(rest);
      } else {
        places := Shifted(rest);
      }
    }
  }

  predicate FirstNamed(emotes: seq<PromptEmote>, name: string, i: nat) {
    i < |emotes| && emotes[i].name == name && forall j :: 0 <= j < i ==> emotes[j].name != name
  }

  lemma FoundIsFirst(emotes: seq<PromptEmote>, name: string)
    ensures IndexOf(emotes, name).Some? ==> FirstNamed(emotes, name, IndexOf(emotes, name).value)
    ensures IndexOf(emotes, name).Some? <==> exists e :: e in emotes && e.name == name
  {
  }

  /** More recent use counts first, then the fit, then the place in the list. */
  predicate Ahead(sc: Scores, i: nat, j: nat)
    requires i < |sc.recent| == |sc.context| && j < |sc.recent|
  {
    if sc.recent[i] != sc.recent[j] then sc.recent[i] > sc.recent[j]
    else if sc.context[i] != sc.context[j] then sc.context[i] > sc.context[j]
    else i < j
  }

  predicate HasScore(sc: Scores, i: nat)
    requires i < |sc.recent| == |sc.context|
  {
    sc.recent[i] != 0 || sc.context[i] != 0
  }

  /** Emotes with a score that are not pinned, best first, and none left out that is ahead of one of them. */
  ghost predicate ScoredLayer(sc: Scores, n: nat, max: nat, pins: seq<nat>, scored: seq<nat>)
    requires |sc.recent| == n == |sc.context|
  {
    && (forall a :: 0 <= a < |scored| ==> scored[a] < n && HasScore(sc, scored[a]) && scored[a] !in pins)
    && (forall a, b :: 0 <= a < b < |scored| ==> Ahead(sc, scored[a], scored[b]))
    && (forall x: nat, y: nat :: x < n && HasScore(sc, x) && x !in pins && x !in scored && y < n && y in scored ==> Ahead(sc, y, x))
    && (|pins| + |scored| < max ==> forall x: nat :: x < n && HasScore(sc, x) ==> x in pins || x in scored)
  }

  /** The first emotes that are in neither layer, as many as it takes to reach the floor. */
  ghost predicate FillLayer(n: nat, floor: nat, picked: seq<nat>, fill: seq<nat>) {
    && (forall a, b :: 0 <= a < b < |fill| ==> fill[a] < fill[b])
    && (forall x :: x in fill ==> x < n && x !in picked)
    && (forall x: nat, y: nat :: x < n && x !in picked && x !in fill && y in fill ==> y < x)
    && (fill != [] ==> |picked| + |fill| <= floor)
    && (|picked| + |fill| < floor ==> forall x: nat :: x < n ==> x in picked || x in fill)
  }

  lemma ScoredMeans(sc: Scores, n: nat, max: nat, pins: seq<nat>, scored: seq<nat>)
    requires |sc.recent| == n == |sc.context|
    requires Layer(pins, ScoredUpTo(sc, n), max, (i: nat, j: nat) => Outranks(sc, i, j), scored)
    ensures ScoredLayer(sc, n, max, pins, scored)
  {
    ScoredMembers(sc, n);
    forall a | 0 <= a < |scored| ensures scored[a] < n && HasScore(sc, scored[a]) && scored[a] !in pins {
      assert scored[a] in scored;
    }
    forall a, b | 0 <= a < b < |scored| ensures Ahead(sc, scored[a], scored[b]) {
      assert Outranks(sc, scored[a], scored[b]);
    }
  }

  lemma FillMeans(n: nat, max: nat, minBaseline: nat, picked: seq<nat>, fill: seq<nat>)
    requires Layer(picked, Ascending(n), Floor(max, minBaseline), (i: nat, j: nat) => i < j, fill)
    ensures FillLayer(n, if max < minBaseline then max else minBaseline, picked, fill)
  {
    AscendingMembers(n);
    hide Ascending;
  }

  /** The layers in plain words, with two scores for each emote: what is in them, in which order, and what may be left out. */
  lemma SelectionMeans(emotes: seq<PromptEmote>, max: nat, minBaseline: nat, pinned: seq<string>, sc: Scores)
    returns (pins: seq<nat>, scored: seq<nat>, fill: seq<nat>)
    requires |sc.recent| == |emotes| == |sc.context|
    ensures Selection(emotes, max, minBaseline, pinned, sc) == (pins + scored) + fill
    ensures pins == Take(FirstOccurrences(Pins(emotes, pinned)), max)
    ensures ScoredLayer(sc, |emotes|, max, pins, scored)
    ensures FillLayer(|emotes|, if max < minBaseline then max else minBaseline, pins + scored, fill)
    ensures |pins + scored + fill| <= max
  {
    pins, scored, fill := SelectionIsLayered(emotes, max, minBaseline, pinned, sc);
    ScoredMeans(sc, |emotes|, max, pins, scored);
    FillMeans(|emotes|, max, minBaseline, pins + scored, fill);
  }

  /** So whatever fills up to the floor is unscored, as the scored ones are all in by then. */
  lemma FillIsUnscored(n: nat, max: nat, minBaseline: nat, sc: Scores, pins: seq<nat>, scored: seq<nat>, fill: seq<nat>, x: nat)
    requires Layer(pins, ScoredUpTo(sc, n), max, (i: nat, j: nat) => Outranks(sc, i, j), scored)
    requires Layer(pins + scored, Ascending(n), Floor(max, minBaseline), (i: nat, j: nat) => i < j, fill)
    requires x in fill
    ensures !Scored(sc, x)
  {
    ScoredMembers(sc, n);
  }

  lemma AscendingMembers(n: nat)
    ensures Distinct(Ascending(n)) && forall x: nat :: x in Ascending(n) <==> x < n
  {
    forall x: nat | x < n ensures x in Ascending(n) {
      assert Ascending(n)[x] == x;
    }
  }

  /** Only emotes of the list are selected. */
  lemma SelectionInRange(emotes: seq<PromptEmote>, max: nat, minBaseline: nat, pinned: seq<string>, sc: Scores)
    ensures Distinct(AfterScored(emotes, max, pinned, sc))
    ensures forall x :: x in Selection(emotes, max, minBaseline, pinned, sc) ==> x < |emotes|
  {
    PinsAreEmotes(emotes, pinned);
    AddedFits([], Pins(emotes, pinned), max);
    ScoredMembers(sc, |emotes|);
    SortRanks(sc, ScoredUpTo(sc, |emotes|));
    AddedFits(AfterPins(emotes, max, pinned), SortByRank(sc, ScoredUpTo(sc, |emotes|)), max);
    AscendingMembers(|emotes|);
    AddedFits(AfterScored(emotes, max, pinned, sc), Ascending(|emotes|), Floor(max, minBaseline));
  }

  /** At least the floor of them are selected while there are so many. */
  lemma SelectionSize(emotes: seq<PromptEmote>, max: nat, minBaseline: nat, pinned: seq<string>, sc: Scores)
    ensures var r := Selection(emotes, max, minBaseline, pinned, sc);
            |r| >= Floor(max, minBaseline) || |r| == |emotes|
  {
    SelectionInRange(emotes, max, minBaseline, pinned, sc);
    AscendingMembers(|emotes|);
    AddedFits(AfterScored(emotes, max, pinned, sc), Ascending(|emotes|), Floor(max, minBaseline));
    FullWhenBelow(Selection(emotes, max, minBaseline, pinned, sc), Ascending(|emotes|));
  }

  lemma FullWhenBelow(r: seq<nat>, all: seq<nat>)
    requires Distinct(r) && Distinct(all)
    ensures (forall x :: x in all <==> x in r) ==> |r| == |all|
  {
    if forall x :: x in all <==> x in r {
      ElemsCard(r);
      ElemsCard(all);
      assert Elems(r) == Elems(all);
    }
  }

  // ---- searching ----

  /** The best `limit` of the emotes that match a query at all. */
  function SearchResult(scores: seq<nat>, limit: nat): seq<nat> {
    var sc := Scores(scores, []);
    Take(SortByRank(sc, ScoredUpTo(sc, |scores|)), limit)
  }

  predicate Beats(scores: seq<nat>, i: nat, j: nat)
    requires i < |scores| && j < |scores|
  {
    scores[i] > scores[j] || (scores[i] == scores[j] && i < j)
  }

  /** Matches only, best first, ties in glossary order, and nothing better is left out. */
  lemma SearchFindsBest(scores: seq<nat>, limit: nat)
    ensures var r := SearchResult(scores, limit);
            && |r| <= limit && Distinct(r)
            && (forall a :: 0 <= a < |r| ==> r[a] < |scores| && scores[r[a]] > 0)
            && (forall a, b :: 0 <= a < b < |r| ==> Beats(scores, r[a], r[b]))
            && (|r| < limit ==> forall x: nat :: x < |scores| && scores[x] > 0 ==> x in r)
            && (forall x: nat, y: nat :: x < |scores| && scores[x] > 0 && x !in r && y < |scores| && y in r ==> Beats(scores, y, x))
  {
    var sc := Scores(scores, []);
    ScoredMembers(sc, |scores|);
    SortRanks(sc, ScoredUpTo(sc, |scores|));
    TakeBest(sc, SortByRank(sc, ScoredUpTo(sc, |scores|)), limit);
    var r := SearchResult(scores, limit);
    forall a | 0 <= a < |r| ensures r[a] < |scores| && scores[r[a]] > 0 {
      assert r[a] in r;
    }
    assert forall i: nat, j: nat :: i < |scores| && j < |scores| ==> (Outranks(sc, i, j) <==> Beats(scores, i, j));
  }

  lemma TakeBest(sc: Scores, ranked: seq<nat>, limit: nat)
    requires Ranked(sc, ranked)
    ensures var r := Take(ranked, limit);
            && Ranked(sc, r) && |r| <= limit && (|r| < limit ==> r == ranked)
            && (forall x :: x in r ==> x in ranked)
            && (forall x: nat, y: nat :: x in ranked && x !in r && y in r ==> Outranks(sc, y, x))
  {
    var r := Take(ranked, limit);
    assert forall k :: 0 <= k < |r| ==> r[k] == ranked[k];
    forall x: nat, y: nat | x in ranked && x !in r && y in r ensures Outranks(sc, y, x) {
      var b :| 0 <= b < |ranked| && ranked[b] == x;
      var a :| 0 <= a < |r| && r[a] == y;
      assert b >= |r|;
    }
  }
}
