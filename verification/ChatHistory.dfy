/**
The chat history buffer: numbered messages, oldest dropped first, and queries
that page backwards through it.
*/
module ChatHistory {
  import opened Text

  const U64_MAX: nat := 0xFFFF_FFFF_FFFF_FFFF
  const DEFAULT_LIMIT: nat := 50
  const MAX_LIMIT: nat := 200

  datatype Source = User | Bot

  datatype Message = Message(username: string, displayName: Option<string>, userId: Option<string>,
                             text: string, source: Source, timestamp: int)

  datatype Entry = Entry(number: nat, message: Message)

  datatype Query = Query(limit: Option<nat>, user: Option<string>, contains: Option<string>, before: Option<nat>)

  datatype Page = Page(messages: seq<Entry>, hasMore: bool, nextBefore: Option<nat>)

  /** What the buffer holds, as a value. */
  datatype Buffer = Buffer(entries: seq<Entry>, nextNumber: nat)

  // ---- which entries a query wants ----

  /** A filter that is blank once trimmed does not filter. */
  function Normalized(filter: Option<string>): Option<string> {
    if filter.Some? && Trim(filter.value) != "" then Some(AsciiLower(Trim(filter.value))) else None
  }

  predicate Wanted(q: Query, e: Entry) {
    var user, needle := Normalized(q.user), Normalized(q.contains);
    && (q.before.Some? ==> e.number < q.before.value)
    && (user.Some? ==> AsciiLower(e.message.username) == user.value)
    && (needle.Some? ==> Contains(AsciiLower(e.message.text), needle.value))
  }

  function Limit(q: Query): (n: nat)
    ensures 1 <= n <= MAX_LIMIT
  {
    var n := if q.limit.Some? then q.limit.value else DEFAULT_LIMIT;
    if n < 1 then 1 else if n > MAX_LIMIT then MAX_LIMIT else n
  }

  function Select(entries: seq<Entry>, q: Query): (r: seq<Entry>)
    ensures |r| <= |entries|
  {
    if entries == [] then []
    else
      var last := entries[|entries| - 1];
      Select(entries[..|entries| - 1], q) + if Wanted(q, last) then [last] else []
  }

  lemma SelectPrefix(entries: seq<Entry>, q: Query, i: nat)
    requires i < |entries|
    ensures Select(entries[..i + 1], q) == Select(entries[..i], q) + if Wanted(q, entries[i]) then [entries[i]] else []
  {
    assert entries[..i + 1][..i] == entries[..i];
  }

  /** The newest wanted entries, as many as the limit allows, and where to go on. */
  function PageOf(entries: seq<Entry>, q: Query): Page {
    var all := Select(entries, q);
    if |all| <= Limit(q) then Page(all, false, None)
    else
      var messages := all[|all| - Limit(q)..];
      Page(messages, true, Some(messages[0].number))
  }

  function Reversed(s: seq<Entry>): (r: seq<Entry>)
    ensures |r| == |s|
  {
    if s == [] then [] else Reversed(s[1..]) + [s[0]]
  }

  // ---- pushing ----

  function LastOf<T>(s: seq<T>, n: nat): seq<T> {
    if |s| <= n then s else s[|s| - n..]
  }

  function Pushed(b: Buffer, capacity: nat, m: Message): Buffer {
    if capacity == 0 then b
    else
      Buffer(LastOf(b.entries, capacity - 1) + [Entry(b.nextNumber, m)],
             if b.nextNumber < U64_MAX then b.nextNumber + 1 else b.nextNumber)
  }

  /** Pushes with whatever capacity is set at the time. */
  function PushAll(b: Buffer, pushes: seq<(nat, Message)>): Buffer {
    if pushes == [] then b
    else
      var last := pushes[|pushes| - 1];
      Pushed(PushAll(b, pushes[..|pushes| - 1]), last.0, last.1)
  }

  /** Messages with the capacity that each of their pushes reads. */
  function Prefilled(capacityAt: nat -> nat, messages: seq<Message>): (r: seq<(nat, Message)>) {
    seq(|messages|, i requires 0 <= i < |messages| => (capacityAt(i), messages[i]))
  }

  /** The messages are pushed in order, each with the capacity at its place. */
  lemma PrefillOneMore(b: Buffer, capacityAt: nat -> nat, messages: seq<Message>, last: Message)
    ensures PushAll(b, Prefilled(capacityAt, messages + [last]))
         == Pushed(PushAll(b, Prefilled(capacityAt, messages)), capacityAt(|messages|), last)
  {
    var pushes := Prefilled(capacityAt, messages + [last]);
    assert pushes[..|messages|] == Prefilled(capacityAt, messages);
  }

  function Numbered(messages: seq<Message>, from: nat): (r: seq<Entry>) {
    seq(|messages|, i requires 0 <= i < |messages| => Entry(from + i, messages[i]))
  }

  /** Numbers strictly rise through the buffer and have all been given out. */
  ghost predicate Ascending(entries: seq<Entry>) {
    forall i, j :: 0 <= i < j < |entries| ==> entries[i].number < entries[j].number
  }

  ghost predicate Ordered(b: Buffer) {
    Ascending(b.entries) && forall i :: 0 <= i < |b.entries| ==> b.entries[i].number < b.nextNumber
  }

  /** The numbers in the buffer are the last ones given out, without a hole. */
  ghost predicate Contiguous(b: Buffer) {
    |b.entries| <= b.nextNumber &&
    forall i :: 0 <= i < |b.entries| ==> b.entries[i].number == b.nextNumber - |b.entries| + i
  }

  class ChatHistoryBuffer {
    var nextNumber: nat
    var entries: seq<Entry>

    function State(): Buffer
      reads this
    {
      Buffer(entries, nextNumber)
    }

    constructor ()
      ensures State() == Buffer([], 1)
    {
      nextNumber, entries := 1, [];
    }

    /**
    Starts from earlier messages, of which the newest that fit are pushed. The
    capacity is a setting: it is read once at first and again at each push.
    */
    constructor FromPrefill(capacity: nat, capacityAt: nat -> nat, messages: seq<Message>)
      ensures State() == PushAll(Buffer([], 1), Prefilled(capacityAt, LastOf(messages, capacity)))
    {
      nextNumber, entries := 1, [];
      new;
      var items := if |messages| > capacity then messages[|messages| - capacity..] else messages;
      ghost var pushes := Prefilled(capacityAt, items);
      assert items == LastOf(messages, capacity);
      hide Pushed, LastOf;
      for i := 0 to |items|
        invariant State() == PushAll(Buffer([], 1), pushes[..i])
      {
        Push(capacityAt(i), items[i]);
        assert pushes[..i + 1][..i] == pushes[..i];
      }
      assert pushes[..|items|] == pushes;
    }

    method Push(capacity: nat, m: Message)
      modifies this
      ensures State() == Pushed(old(State()), capacity, m)
    {
      if capacity == 0 {
        return;
      }
      while |entries| >= capacity
        invariant nextNumber == old(nextNumber)
        invariant LastOf(entries, capacity - 1) == LastOf(old(entries), capacity - 1)
        decreases |entries|
      {
        entries := entries[1..];
      }
      var number := nextNumber;
      nextNumber := if nextNumber < U64_MAX then nextNumber + 1 else nextNumber;
      entries := entries + [Entry(number, m)];
    }

    /** Walks from the newest entry back and stops one wanted entry past the limit. */
    method NewestWanted(q: Query) returns (newestFirst: seq<Entry>, ghost older: seq<Entry>)
      ensures Select(entries, q) == older + Reversed(newestFirst)
      ensures |newestFirst| <= Limit(q) + 1 && (|newestFirst| <= Limit(q) ==> older == [])
    {
      hide Wanted, Limit;
      newestFirst := [];
      var i := |entries|;
      assert entries[..i] == entries;
      while i > 0 && |newestFirst| <= Limit(q)
        invariant 0 <= i <= |entries| && |newestFirst| <= Limit(q) + 1
        invariant Select(entries, q) == Select(entries[..i], q) + Reversed(newestFirst)
      {
        i := i - 1;
        var entry := entries[i];
        SelectPrefix(entries, q, i);
        ghost var before := Select(entries[..i], q);
        if Wanted(q, entry) {
          ReversedAppend(newestFirst, entry);
          assert (before + [entry]) + Reversed(newestFirst) == before + ([entry] + Reversed(newestFirst));
          newestFirst := newestFirst + [entry];
        }
      }
      older := Select(entries[..i], q);
    }

    method RunQuery(q: Query) returns (page: Page)
      ensures page == PageOf(entries, q)
    {
      var limit := Limit(q);
      var newestFirst, older := NewestWanted(q);
      var hasMore := |newestFirst| > limit;
      if hasMore {
        ReversedTake(newestFirst, limit);
        DropOlder(older, Reversed(newestFirst));
        newestFirst := newestFirst[..limit];
      }
      var messages := Reverse(newestFirst);
      page := Page(messages, hasMore, if hasMore then Some(messages[0].number) else None);
    }
  }

  lemma DropOlder(older: seq<Entry>, newer: seq<Entry>)
    requires newer != []
    ensures (older + newer)[|older| + 1..] == newer[1..]
  {
  }

  method Reverse(s: seq<Entry>) returns (r: seq<Entry>)
    ensures r == Reversed(s)
  {
    r := [];
    for i := 0 to |s|
      invariant r == Reversed(s[..i])
    {
      ReversedAppend(s[..i], s[i]);
      assert s[..i + 1] == s[..i] + [s[i]];
      r := [s[i]] + r;
    }
    assert s[..|s|] == s;
  }

  lemma {:induction false} ReversedAppend(s: seq<Entry>, e: Entry)
    ensures Reversed(s + [e]) == [e] + Reversed(s)
  {
    if s == [] {
    } else {
      assert (s + [e])[1..] == s[1..] + [e];
      ReversedAppend(s[1..], e);
    }
  }

  lemma ReversedTake(s: seq<Entry>, n: nat)
    requires |s| == n + 1
    ensures Reversed(s[..n]) == Reversed(s)[1..]
  {
    assert s == s[..n] + [s[n]];
    ReversedAppend(s[..n], s[n]);
  }
}
