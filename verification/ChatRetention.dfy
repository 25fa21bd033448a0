/**
What the chat history keeps when it is full, and what its filters and limits mean,
without reference to how either is computed.
*/
module ChatRetention {
  import opened ChatHistory
  import opened Letters
  import opened Text

  // ---- what a full buffer keeps ----

  function NewerThan(b: Buffer, i: nat): nat
    requires i < |b.entries|
  {
    |b.entries| - 1 - i
  }

  /**
  A push appends its message and drops from the front: an entry goes exactly when as
  many newer ones as fit beside the new message are there already.
  */
  lemma PushKeepsNewest(b: Buffer, capacity: nat, m: Message) returns (dropped: nat)
    requires capacity > 0
    ensures dropped <= |b.entries|
    ensures Pushed(b, capacity, m).entries == b.entries[dropped..] + [Entry(b.nextNumber, m)]
    ensures forall i: nat :: i < |b.entries| ==> (i < dropped <==> NewerThan(b, i) >= capacity - 1)
  {
    dropped := if |b.entries| >= capacity then |b.entries| - (capacity - 1) else 0;
  }

  lemma NoCapacityNoPush(b: Buffer, m: Message)
    ensures Pushed(b, 0, m) == b
  {
  }

  /** The newest messages, in order, as many as there were or fit; they carry the numbers from `from` on. */
  ghost predicate HoldsLast(entries: seq<Entry>, messages: seq<Message>, capacity: nat) {
    && |entries| == (if |messages| < capacity then |messages| else capacity)
    && forall i :: 0 <= i < |entries| ==>
         entries[i].message == messages[|messages| - |entries| + i]
  }

  ghost predicate NumbersFollow(b: Buffer, pushed: nat) {
    && b.nextNumber == pushed + 1
    && forall i :: 0 <= i < |b.entries| ==> b.entries[i].number == pushed - |b.entries| + i + 1
  }

  /** The buffer after these messages, all pushed at the same capacity. */
  function Pushing(capacity: nat, messages: seq<Message>): Buffer {
    PushAll(Buffer([], 1), seq(|messages|, i requires 0 <= i < |messages| => (capacity, messages[i])))
  }

  lemma PushingOneMore(capacity: nat, messages: seq<Message>)
    requires messages != []
    ensures var k := |messages| - 1;
            Pushing(capacity, messages) == Pushed(Pushing(capacity, messages[..k]), capacity, messages[k])
  {
    var k := |messages| - 1;
    assert seq(|messages|, i requires 0 <= i < |messages| => (capacity, messages[i]))[..k]
        == seq(k, i requires 0 <= i < k => (capacity, messages[..k][i]));
  }

  /** With a constant capacity, however many messages are pushed, the buffer holds exactly the last that fit. */
  lemma {:induction false} KeepsTheLast(capacity: nat, messages: seq<Message>)
    requires capacity > 0
    ensures HoldsLast(Pushing(capacity, messages).entries, messages, capacity)
    ensures |messages| < U64_MAX ==> NumbersFollow(Pushing(capacity, messages), |messages|)
  {
    if messages == [] {
    } else {
      var k := |messages| - 1;
      KeepsTheLast(capacity, messages[..k]);
      PushingOneMore(capacity, messages);
      var b := Pushing(capacity, messages[..k]);
      var dropped := PushKeepsNewest(b, capacity, messages[k]);
      NextNumber(b, capacity, messages[k]);
      OneMore(b, Pushing(capacity, messages), messages, capacity, dropped);
    }
  }

  lemma NextNumber(b: Buffer, capacity: nat, m: Message)
    requires capacity > 0
    ensures b.nextNumber < U64_MAX ==> Pushed(b, capacity, m).nextNumber == b.nextNumber + 1
  {
  }

  lemma OneMore(b: Buffer, b': Buffer, messages: seq<Message>, capacity: nat, dropped: nat)
    requires messages != [] && capacity > 0 && dropped <= |b.entries|
    requires HoldsLast(b.entries, messages[..|messages| - 1], capacity)
    requires b'.entries == b.entries[dropped..] + [Entry(b.nextNumber, messages[|messages| - 1])]
    requires forall i: nat :: i < |b.entries| ==> (i < dropped <==> NewerThan(b, i) >= capacity - 1)
    ensures HoldsLast(b'.entries, messages, capacity)
    ensures NumbersFollow(b, |messages| - 1) && |messages| < U64_MAX && (b.nextNumber < U64_MAX ==> b'.nextNumber == b.nextNumber + 1)
        ==> NumbersFollow(b', |messages|)
  {
    assert dropped == if |b.entries| >= capacity then 1 else 0 by {
      assert |b.entries| > 0 ==> (0 < dropped <==> NewerThan(b, 0) >= capacity - 1);
      assert |b.entries| > 1 ==> (1 < dropped <==> NewerThan(b, 1) >= capacity - 1);
    }
    forall i | 0 <= i < |b'.entries|
      ensures b'.entries[i].message == messages[|messages| - |b'.entries| + i]
    {
      assert i < |b'.entries| - 1 ==> b'.entries[i] == b.entries[dropped + i];
    }
  }

  // ---- what a query asks for ----

  predicate Blank(filter: Option<string>) {
    filter.None? || AllWhitespace(filter.value)
  }

  lemma BlankIsTrimmed(s: string)
    ensures Trim(s) == "" <==> AllWhitespace(s)
  {
    if AllWhitespace(s) {
      TrimStartSkips(s, "");
      assert s + "" == s;
    }
    if Trim(s) == "" {
      var w := TrimStartSplits(s);
      var v := TrimEndSplits(TrimStart(s));
      assert TrimStart(s) == v;
    }
  }

  /** The text has, somewhere, the words sought, in whatever case. */
  ghost predicate Mentions(text: string, words: string) {
    exists i, j :: 0 <= i <= j <= |text| && SameButCase(text[i..j], words)
  }

  lemma ContainsLowered(text: string, words: string)
    ensures Contains(AsciiLower(text), AsciiLower(words)) <==> Mentions(text, words)
  {
    var lowered, sought := AsciiLower(text), AsciiLower(words);
    assert |lowered| == |text| && |sought| == |words|;
    if Contains(lowered, sought) {
      var i :| 0 <= i <= |lowered| && sought <= lowered[i..];
      WindowLowered(text, words, i, i + |sought|);
    }
    if Mentions(text, words) {
      var i, j :| 0 <= i <= j <= |text| && SameButCase(text[i..j], words);
      WindowLowered(text, words, i, j);
    }
  }

  lemma WindowLowered(text: string, words: string, i: nat, j: nat)
    requires i <= j <= |text| && j - i == |words|
    ensures SameButCase(text[i..j], words) <==> AsciiLower(words) <= AsciiLower(text)[i..]
  {
    var lowered, sought := AsciiLower(text), AsciiLower(words);
    LoweredEqual(text[i..j], words);
    assert AsciiLower(text[i..j]) == lowered[i..j];
    SamePrefix(lowered, sought, i, j);
    hide AsciiLower, SameButCase;
  }

  lemma SamePrefix(s: string, p: string, i: nat, j: nat)
    requires i <= j <= |s| && j - i == |p|
    ensures p <= s[i..] <==> s[i..j] == p
  {
    assert s[i..][..j - i] == s[i..j];
  }

  /** An entry is wanted if it is old enough, and by the user and with the words asked for, blanks and case aside. */
  lemma WantedMeans(q: Query, e: Entry)
    ensures Wanted(q, e) <==>
            && (q.before.None? || e.number < q.before.value)
            && (Blank(q.user) || SameButCase(e.message.username, Trim(q.user.value)))
            && (Blank(q.contains) || Mentions(e.message.text, Trim(q.contains.value)))
  {
    if q.user.Some? {
      BlankIsTrimmed(q.user.value);
      LoweredEqual(e.message.username, Trim(q.user.value));
    }
    if q.contains.Some? {
      BlankIsTrimmed(q.contains.value);
      ContainsLowered(e.message.text, Trim(q.contains.value));
    }
    hide AsciiLower, Contains, Trim, AllWhitespace, SameButCase, Mentions;
  }

  /** Fifty entries unless asked otherwise, and never none, nor more than two hundred. */
  function PageSize(limit: Option<nat>): nat {
    match limit
    case None => 50
    case Some(n) => if n == 0 then 1 else if n <= 200 then n else 200
  }

  /** A page is full while there is more: it has the last of the wanted entries, as many as asked for. */
  lemma PageIsFull(entries: seq<Entry>, q: Query)
    ensures var all := Select(entries, q); var page := PageOf(entries, q); var n := PageSize(q.limit);
            && (page.hasMore <==> |all| > n) && |page.messages| == (if |all| > n then n else |all|)
            && page.messages == all[|all| - |page.messages|..]
            && page.nextBefore == if |all| > n then Some(all[|all| - n].number) else None
  {
    var all := Select(entries, q);
    assert Limit(q) == PageSize(q.limit) && Limit(q) > 0;
    assert all[0..] == all;
    hide Limit, PageSize, Select;
  }
}
