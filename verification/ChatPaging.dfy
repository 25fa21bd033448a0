/**
Paging backwards through the chat history while messages keep coming in: every
message that stays is seen once, none is seen twice, and the paging ends.
*/
module ChatPaging {
  import opened Text
  import opened Sets
  import opened ChatHistory

  // ---- how the buffer moves on ----

  /** Between two looks: what is new carries a new number, and nothing dropped comes back. */
  ghost predicate Later(b: Buffer, b': Buffer) {
    && b.nextNumber <= b'.nextNumber
    && forall e :: e in b'.entries ==> e in b.entries || e.number >= b.nextNumber
  }

  /** A push keeps the numbers rising exactly until the counter is at its 64-bit limit. */
  lemma PushMovesOn(b: Buffer, capacity: nat, m: Message)
    requires Ordered(b) && b.nextNumber <= U64_MAX
    ensures Later(b, Pushed(b, capacity, m))
    ensures Ordered(Pushed(b, capacity, m)) <==> capacity == 0 || b.nextNumber < U64_MAX
    ensures capacity > 0 ==> |Pushed(b, capacity, m).entries| <= capacity
  {
    var b' := Pushed(b, capacity, m);
    if capacity > 0 {
      assert b'.entries[|b'.entries| - 1].number == b.nextNumber;
    }
  }

  lemma PushKeepsContiguous(b: Buffer, capacity: nat, m: Message)
    requires Contiguous(b) && b.nextNumber < U64_MAX
    ensures Contiguous(Pushed(b, capacity, m)) && Ordered(b)
  {
  }

  /** As long as 64 bits last, any run of pushes keeps the buffer in order. */
  lemma {:induction false} PushAllMovesOn(b: Buffer, pushes: seq<(nat, Message)>)
    requires Ordered(b) && b.nextNumber + |pushes| <= U64_MAX
    ensures Ordered(PushAll(b, pushes)) && Later(b, PushAll(b, pushes))
    ensures PushAll(b, pushes).nextNumber <= b.nextNumber + |pushes|
    decreases |pushes|
  {
    if pushes == [] {
    } else {
      var k := |pushes| - 1;
      PushAllMovesOn(b, pushes[..k]);
      PushMovesOn(PushAll(b, pushes[..k]), pushes[k].0, pushes[k].1);
    }
  }

  /** A prefill during which the capacity does not change holds the newest messages, numbered from 1. */
  lemma {:induction false} PrefillNumbers(capacity: nat, messages: seq<Message>)
    requires |messages| < U64_MAX && |messages| <= capacity
    ensures PushAll(Buffer([], 1), Prefilled(_ => capacity, messages)) == Buffer(Numbered(messages, 1), 1 + |messages|)
  {
    if messages == [] {
    } else {
      var k := |messages| - 1;
      PrefillNumbers(capacity, messages[..k]);
      assert Prefilled(_ => capacity, messages)[..k] == Prefilled(_ => capacity, messages[..k]);
      assert Numbered(messages, 1) == Numbered(messages[..k], 1) + [Entry(1 + k, messages[k])];
    }
  }

  // ---- one page ----

  lemma {:induction false} SelectMembers(entries: seq<Entry>, q: Query)
    ensures forall e :: e in Select(entries, q) <==> e in entries && Wanted(q, e)
    ensures Ascending(entries) ==> Ascending(Select(entries, q))
  {
    if entries == [] {
    } else {
      var front, last := entries[..|entries| - 1], entries[|entries| - 1];
      SelectMembers(front, q);
      assert entries == front + [last];
      forall i | Ascending(entries) && 0 <= i < |Select(front, q)|
        ensures Select(front, q)[i].number < last.number
      {
        assert Select(front, q)[i] in front;
      }
    }
  }

  /** The entries at or above a number, taken off the end. */
  function Cut(s: seq<Entry>, n: nat): seq<Entry> {
    if s == [] || s[|s| - 1].number < n then s else Cut(s[..|s| - 1], n)
  }

  lemma WantedBelow(q: Query, n: nat, e: Entry)
    requires q.before.Some? ==> n <= q.before.value
    ensures Wanted(q.(before := Some(n)), e) <==> Wanted(q, e) && e.number < n
  {
  }

  lemma CutDrops(s: seq<Entry>, e: Entry, n: nat)
    ensures e.number >= n ==> Cut(s + [e], n) == Cut(s, n)
    ensures e.number < n ==> Cut(s + [e], n) == s + [e]
  {
    assert (s + [e])[..|s|] == s;
  }

  lemma CutNothing(front: seq<Entry>, q: Query, last: Entry, n: nat)
    requires Ascending(front + [last]) && last.number <= n
    ensures Cut(Select(front, q), n) == Select(front, q)
  {
    SelectMembers(front, q);
    var sel := Select(front, q);
    if sel != [] {
      var e := sel[|sel| - 1];
      assert e in front;
      var i :| 0 <= i < |front| && front[i] == e;
      assert (front + [last])[i].number < (front + [last])[|front|].number;
    }
  }

  lemma {:induction false} SelectCut(entries: seq<Entry>, q: Query, n: nat)
    requires Ascending(entries) && (q.before.Some? ==> n <= q.before.value)
    ensures Select(entries, q.(before := Some(n))) == Cut(Select(entries, q), n)
  {
    if entries == [] {
    } else {
      var front, last := entries[..|entries| - 1], entries[|entries| - 1];
      assert entries == front + [last];
      SelectCut(front, q, n);
      WantedBelow(q, n, last);
      var sel := Select(front, q);
      if last.number < n {
        CutNothing(front, q, last, n);
      }
      if Wanted(q, last) {
        CutDrops(sel, last, n);
        assert Cut(sel, n) + [] == Cut(sel, n);
      } else {
        assert sel + [] == sel && Cut(sel, n) + [] == Cut(sel, n);
      }
    }
  }

  lemma {:induction false} CutAt(s: seq<Entry>, k: nat)
    requires Ascending(s) && k < |s|
    ensures Cut(s, s[k].number) == s[..k]
  {
    if k < |s| - 1 {
      CutAt(s[..|s| - 1], k);
      assert s[..|s| - 1][..k] == s[..k];
    } else if k > 0 {
      assert Cut(s[..k], s[k].number) == s[..k];
    }
  }

  /** A page with more to come, and the query it hands on, share out what was wanted. */
  lemma PageSplits(entries: seq<Entry>, q: Query)
    requires Ascending(entries) && PageOf(entries, q).hasMore
    ensures var page := PageOf(entries, q);
            && page.nextBefore.Some? && |page.messages| == Limit(q)
            && Select(entries, q) == Select(entries, q.(before := page.nextBefore)) + page.messages
            && page.messages[0].number == page.nextBefore.value
            && (q.before.Some? ==> page.nextBefore.value < q.before.value)
  {
    var all := Select(entries, q);
    var k := |all| - Limit(q);
    SelectAscends(entries, q);
    NumberBelow(entries, q, all[k]);
    SelectCut(entries, q, all[k].number);
    CutAt(all, k);
    TakeDrop(all, k);
  }

  lemma SelectAscends(entries: seq<Entry>, q: Query)
    requires Ascending(entries)
    ensures Ascending(Select(entries, q))
  {
    SelectMembers(entries, q);
  }

  lemma NumberBelow(entries: seq<Entry>, q: Query, e: Entry)
    requires e in Select(entries, q)
    ensures q.before.Some? ==> e.number < q.before.value
  {
    SelectMembers(entries, q);
  }

  lemma TakeDrop(s: seq<Entry>, k: nat)
    requires k < |s|
    ensures s == s[..k] + s[k..] && s[k..][0] == s[k]
  {
  }

  // ---- a chain of pages ----

  /** Page after page, each asked for where the one before left off, of a buffer that moves on. */
  ghost predicate Chain(bs: seq<Buffer>, q: Query, pages: seq<Page>)
    decreases |bs|
  {
    && |bs| == |pages| >= 1
    && Ordered(bs[0]) && pages[0] == PageOf(bs[0].entries, q)
    && (|pages| > 1 ==> && pages[0].hasMore && Later(bs[0], bs[1])
                        && Chain(bs[1..], q.(before := pages[0].nextBefore), pages[1..]))
  }

  /** All messages returned, oldest first: each page goes before the ones already read. */
  function Joined(pages: seq<Page>): seq<Entry> {
    if pages == [] then [] else Joined(pages[1..]) + pages[0].messages
  }

  /** What a page holds, and what is left for the pages after it. */
  lemma PageHolds(entries: seq<Entry>, q: Query)
    requires Ascending(entries)
    ensures var page := PageOf(entries, q);
            && Ascending(page.messages)
            && (forall e :: e in page.messages ==> e in entries && Wanted(q, e))
            && (forall e :: e in entries && Wanted(q, e) && e !in page.messages ==>
                  page.hasMore && Wanted(q.(before := page.nextBefore), e))
  {
    var page := PageOf(entries, q);
    SelectMembers(entries, q);
    if page.hasMore {
      PageSplits(entries, q);
      SelectMembers(entries, q.(before := page.nextBefore));
    }
  }

  /** No entry is returned twice, and each one returned was wanted and there from the start. */
  lemma {:induction false} NothingTwice(bs: seq<Buffer>, q: Query, pages: seq<Page>)
    requires Chain(bs, q, pages)
    ensures Ascending(Joined(pages))
    ensures forall e :: e in Joined(pages) ==> Wanted(q, e) && e in bs[0].entries
    decreases |bs|
  {
    PageHolds(bs[0].entries, q);
    if |pages| > 1 {
      PageSplits(bs[0].entries, q);
      NothingTwice(bs[1..], q.(before := pages[0].nextBefore), pages[1..]);
      OlderPages(bs[0], bs[1], q, Joined(pages[1..]));
    } else {
      assert pages[1..] == [];
      assert Joined(pages) == pages[0].messages;
    }
  }

  lemma OlderPages(b: Buffer, b': Buffer, q: Query, older: seq<Entry>)
    requires Ordered(b) && Later(b, b') && PageOf(b.entries, q).hasMore && Ascending(older)
    requires var q' := q.(before := PageOf(b.entries, q).nextBefore);
             forall e :: e in older ==> Wanted(q', e) && e in b'.entries
    ensures Ascending(older + PageOf(b.entries, q).messages)
    ensures forall e :: e in older ==> Wanted(q, e) && e in b.entries
  {
    PageSplits(b.entries, q);
    PageHolds(b.entries, q);
    var page := PageOf(b.entries, q);
    assert page.messages[0] in page.messages;
    forall e | e in older ensures Wanted(q, e) && e in b.entries && e.number < page.messages[0].number {
      assert Wanted(q.(before := page.nextBefore), e);
    }
    JoinAscending(older, page.messages);
  }

  lemma JoinAscending(s: seq<Entry>, t: seq<Entry>)
    requires Ascending(s) && Ascending(t)
    requires t != [] && forall e :: e in s ==> e.number < t[0].number
    ensures Ascending(s + t)
  {
    forall i, j | 0 <= i < j < |s + t| ensures (s + t)[i].number < (s + t)[j].number {
      if i < |s| <= j {
        assert s[i] in s;
      }
    }
  }

  /** Read to the end, the pages contain every wanted entry that stayed in the buffer throughout. */
  lemma {:induction false} NothingMissed(bs: seq<Buffer>, q: Query, pages: seq<Page>, e: Entry)
    requires Chain(bs, q, pages) && !pages[|pages| - 1].hasMore
    requires Wanted(q, e) && forall i :: 0 <= i < |bs| ==> e in bs[i].entries
    ensures e in Joined(pages)
    decreases |bs|
  {
    PageHolds(bs[0].entries, q);
    if e in pages[0].messages {
    } else {
      forall i | 0 <= i < |bs[1..]| ensures e in bs[1..][i].entries {
        assert bs[1..][i] == bs[i + 1];
      }
      NothingMissed(bs[1..], q.(before := pages[0].nextBefore), pages[1..], e);
    }
  }

  /** If nothing is pushed between the pages, they join to exactly the filtered buffer. */
  lemma {:induction false} PagesJoinToFilter(bs: seq<Buffer>, q: Query, pages: seq<Page>)
    requires Chain(bs, q, pages) && !pages[|pages| - 1].hasMore
    requires forall i :: 0 <= i < |bs| ==> bs[i] == bs[0]
    ensures Joined(pages) == Select(bs[0].entries, q)
    decreases |bs|
  {
    if |pages| > 1 {
      PageSplits(bs[0].entries, q);
      assert bs[1] == bs[0];
      forall i | 0 <= i < |bs[1..]| ensures bs[1..][i] == bs[1..][0] {
        assert bs[1..][i] == bs[i + 1];
      }
      PagesJoinToFilter(bs[1..], q.(before := pages[0].nextBefore), pages[1..]);
    } else {
      assert pages[1..] == [];
      assert Joined(pages) == pages[0].messages;
    }
  }

  lemma OneMoreTime(n: int, k: int)
    ensures (n + 1) * k == n * k + k
  {
  }

  lemma FirstIsFull(bs: seq<Buffer>, q: Query, pages: seq<Page>)
    requires Chain(bs, q, pages) && |pages| > 1
    ensures |Joined(pages)| == |Joined(pages[1..])| + Limit(q)
    ensures Limit(q.(before := pages[0].nextBefore)) == Limit(q)
    ensures Chain(bs[1..], q.(before := pages[0].nextBefore), pages[1..])
  {
    PageSplits(bs[0].entries, q);
  }

  /** All pages but the last are full. */
  lemma {:induction false} PagesAreFull(bs: seq<Buffer>, q: Query, pages: seq<Page>)
    requires Chain(bs, q, pages)
    ensures (|pages| - 1) * Limit(q) <= |Joined(pages)|
    decreases |bs|
  {
    if |pages| <= 1 {
    } else {
      FirstIsFull(bs, q, pages);
      PagesAreFull(bs[1..], q.(before := pages[0].nextBefore), pages[1..]);
      hide *;
      OneMoreTime(|pages| - 2, Limit(q));
    }
  }

  /** The paging ends: whatever is pushed meanwhile, the first buffer's size bounds the pages. */
  lemma {:induction false} PagingEnds(bs: seq<Buffer>, q: Query, pages: seq<Page>)
    requires Chain(bs, q, pages)
    ensures (|pages| - 1) * Limit(q) <= |bs[0].entries|
  {
    PagesAreFull(bs, q, pages);
    NothingTwice(bs, q, pages);
    var joined := Joined(pages);
    ElemsCard(joined);
    ElemsCard(bs[0].entries);
    SubsetCard(Elems(joined), Elems(bs[0].entries));
  }
}
