/**
The bounded cache for fetched content: entries expire after a time to live, and
the oldest insertion is evicted first. Its contract speaks of the insertions made
so far and of nothing inside the cache.
*/
module TtlCache {
  import opened Text
  import opened Sets

  datatype Entry<V> = Entry(value: V, insertedAt: int)

  datatype Insertion<V> = Insertion(key: string, value: V, at: int)

  // ---- the history ----

  /** Where `k` was inserted last, or -1. */
  function Latest<V>(h: seq<Insertion<V>>, k: string): (i: int)
    ensures -1 <= i < |h|
    ensures i >= 0 ==> h[i].key == k
    ensures forall j :: i < j < |h| ==> h[j].key != k
  {
    if h == [] then -1
    else if h[|h| - 1].key == k then |h| - 1
    else Latest(h[..|h| - 1], k)
  }

  /** The distinct keys inserted after `k` was, for the last time. */
  ghost function NewerKeys<V>(h: seq<Insertion<V>>, k: string): set<string> {
    set j | Latest(h, k) < j < |h| :: h[j].key
  }

  ghost predicate Expired<V>(h: seq<Insertion<V>>, ttl: nat, now: int, k: string)
    requires Latest(h, k) >= 0
  {
    now - h[Latest(h, k)].at > ttl
  }

  /** `k` is among the last `capacity` distinct keys, and its insertion is at most `ttl` old. */
  ghost predicate Live<V>(h: seq<Insertion<V>>, ttl: nat, capacity: nat, now: int, k: string) {
    Latest(h, k) >= 0 && !Expired(h, ttl, now, k) && |NewerKeys(h, k)| < capacity
  }

  /** What a lookup is to return. */
  ghost function Lookup<V>(h: seq<Insertion<V>>, ttl: nat, capacity: nat, now: int, k: string): Option<V> {
    if Live(h, ttl, capacity, now, k) then Some(h[Latest(h, k)].value) else None
  }

  /** Some insertion is the key's last, not too old, and has at most `capacity - 1` other keys after it; its value is found. */
  ghost predicate FoundAt<V>(h: seq<Insertion<V>>, ttl: nat, capacity: nat, now: int, k: string, i: nat) {
    && i < |h| && h[i].key == k && (forall j :: i < j < |h| ==> h[j].key != k)
    && now - h[i].at <= ttl && |set j | i < j < |h| :: h[j].key| < capacity
  }

  lemma LookupMeans<V>(h: seq<Insertion<V>>, ttl: nat, capacity: nat, now: int, k: string, v: V)
    ensures Lookup(h, ttl, capacity, now, k) == Some(v)
       <==> exists i: nat :: FoundAt(h, ttl, capacity, now, k, i) && h[i].value == v
  {
    var i := Latest(h, k);
    if Live(h, ttl, capacity, now, k) {
      assert NewerKeys(h, k) == set j | i < j < |h| :: h[j].key;
      assert FoundAt(h, ttl, capacity, now, k, i);
    }
    forall x: nat | FoundAt(h, ttl, capacity, now, k, x) ensures x == i && Live(h, ttl, capacity, now, k) {
      assert NewerKeys(h, k) == set j | x < j < |h| :: h[j].key;
    }
  }

  ghost predicate TimesOrdered<V>(h: seq<Insertion<V>>, clock: int) {
    && (forall i, j :: 0 <= i < j < |h| ==> h[i].at <= h[j].at)
    && (forall i :: 0 <= i < |h| ==> h[i].at <= clock)
  }

  // ---- the cache against the history ----

  ghost predicate OldestFirst<V>(h: seq<Insertion<V>>, order: seq<string>) {
    forall i, j :: 0 <= i < j < |order| ==> Latest(h, order[i]) < Latest(h, order[j])
  }

  ghost predicate Holds<V>(h: seq<Insertion<V>>, entries: map<string, Entry<V>>, k: string)
    requires k in entries
  {
    var i := Latest(h, k);
    i >= 0 && entries[k] == Entry(h[i].value, h[i].at)
  }

  /** A key that is gone expired, or had to make room. */
  ghost predicate GoneForCause<V>(h: seq<Insertion<V>>, clock: int, ttl: nat, capacity: nat, k: string) {
    Latest(h, k) >= 0 ==> Expired(h, ttl, clock, k) || |NewerKeys(h, k)| >= capacity
  }

  ghost predicate Inv<V>(h: seq<Insertion<V>>, clock: int, ttl: nat, capacity: nat,
                         entries: map<string, Entry<V>>, order: seq<string>) {
    && TimesOrdered(h, clock)
    && (forall k :: k in entries <==> k in order)
    && (forall k :: k in entries ==> Holds(h, entries, k))
    && OldestFirst(h, order)
    && NewerStay(h, order)
    && (forall k :: k !in order ==> GoneForCause(h, clock, ttl, capacity, k))
  }

  /** Whatever was inserted after a key that is still there is still there too. */
  ghost predicate NewerStay<V>(h: seq<Insertion<V>>, order: seq<string>) {
    forall k, x :: k in order && Latest(h, x) > Latest(h, k) ==> x in order
  }

  // ---- sets and sequences ----

  /** `order` without some keys. */
  function Kept(s: seq<string>, gone: set<string>): (r: seq<string>)
    ensures |r| <= |s|
    ensures forall x :: x in r <==> x in s && x !in gone
  {
    if s == [] then [] else (if s[0] in gone then [] else [s[0]]) + Kept(s[1..], gone)
  }

  lemma {:induction false} KeptTwice(s: seq<string>, a: set<string>, b: set<string>)
    ensures Kept(Kept(s, a), b) == Kept(s, a + b)
  {
    if s == [] {
    } else {
      KeptTwice(s[1..], a, b);
      if s[0] !in a {
        assert Kept(s, a)[1..] == Kept(s[1..], a);
      } else {
        assert Kept(s, a) == Kept(s[1..], a);
      }
    }
  }

  lemma {:induction false} KeptAll(s: seq<string>, gone: set<string>)
    requires forall x :: x in s ==> x !in gone
    ensures Kept(s, gone) == s
  {
    if s == [] {
    } else {
      KeptAll(s[1..], gone);
    }
  }

  lemma {:induction false} KeptOldestFirst<V>(h: seq<Insertion<V>>, s: seq<string>, gone: set<string>)
    requires OldestFirst(h, s)
    ensures OldestFirst(h, Kept(s, gone))
  {
    if s == [] {
    } else {
      KeptOldestFirst(h, s[1..], gone);
      var r := Kept(s[1..], gone);
      forall i | 0 <= i < |r| ensures Latest(h, s[0]) < Latest(h, r[i]) {
        assert r[i] in s[1..];
      }
    }
  }

  // ---- steps ----

  lemma LatestAppend<V>(h: seq<Insertion<V>>, e: Insertion<V>, k: string)
    ensures Latest(h + [e], k) == if k == e.key then |h| else Latest(h, k)
    ensures k != e.key ==> NewerKeys(h, k) <= NewerKeys(h + [e], k)
  {
    assert (h + [e])[..|h|] == h;
    var i := Latest(h, k);
    forall j | i < j < |h| ensures (h + [e])[j].key == h[j].key {
    }
  }

  /** Dropping what has expired by `now`. */
  lemma PurgeKeepsInv<V>(h: seq<Insertion<V>>, clock: int, now: int, ttl: nat, capacity: nat,
                         entries: map<string, Entry<V>>, order: seq<string>, gone: set<string>)
    requires Inv(h, clock, ttl, capacity, entries, order) && clock <= now
    requires forall k :: k in gone <==> k in entries && now - entries[k].insertedAt > ttl
    ensures Inv(h, now, ttl, capacity, entries - gone, Kept(order, gone))
    ensures forall k :: k in Kept(order, gone) ==> Latest(h, k) >= 0 && !Expired(h, ttl, now, k)
  {
    KeptOldestFirst(h, order, gone);
    var kept := Kept(order, gone);
    forall k | k in order ensures Latest(h, k) >= 0 && (k in gone <==> Expired(h, ttl, now, k)) {
      assert Holds(h, entries, k);
    }
    forall k, x | k in kept && Latest(h, x) > Latest(h, k) ensures x in kept {
      assert x in order;
      assert h[Latest(h, k)].at <= h[Latest(h, x)].at;
    }
    forall k | k !in kept ensures GoneForCause(h, now, ttl, capacity, k) {
      assert k !in order ==> GoneForCause(h, clock, ttl, capacity, k);
    }
    forall k | k in entries - gone ensures Holds(h, entries - gone, k) {
      assert Holds(h, entries, k);
    }
  }

  /** Inserting a key, which moves it to the end of `order`, before any eviction. */
  lemma InsertKeepsInv<V>(h: seq<Insertion<V>>, clock: int, ttl: nat, capacity: nat,
                          entries: map<string, Entry<V>>, order: seq<string>, e: Insertion<V>)
    requires Inv(h, clock, ttl, capacity, entries, order) && clock <= e.at
    ensures Inv(h + [e], e.at, ttl, capacity,
                entries[e.key := Entry(e.value, e.at)], Kept(order, {e.key}) + [e.key])
  {
    var h' := h + [e];
    var entries', order' := entries[e.key := Entry(e.value, e.at)], Kept(order, {e.key}) + [e.key];
    InsertKeepsOrder(h, order, e);
    forall x | x in entries' ensures Holds(h', entries', x) {
      LatestAppend(h, e, x);
      if x != e.key {
        assert Holds(h, entries, x);
      }
    }
    forall x | x !in order' ensures GoneForCause(h', e.at, ttl, capacity, x) {
      InsertKeepsCause(h, clock, ttl, capacity, e, x);
    }
  }

  lemma InsertKeepsOrder<V>(h: seq<Insertion<V>>, order: seq<string>, e: Insertion<V>)
    requires OldestFirst(h, order) && NewerStay(h, order)
    ensures OldestFirst(h + [e], Kept(order, {e.key}) + [e.key])
    ensures NewerStay(h + [e], Kept(order, {e.key}) + [e.key])
  {
    var kept := Kept(order, {e.key});
    var order' := kept + [e.key];
    KeptOldestFirst(h, order, {e.key});
    forall i, j | 0 <= i < j < |order'| ensures Latest(h + [e], order'[i]) < Latest(h + [e], order'[j]) {
      LatestAppend(h, e, order'[i]);
      LatestAppend(h, e, order'[j]);
      assert kept[i] in kept;
      assert j < |kept| ==> kept[j] in kept;
    }
    forall k, x | k in order' && Latest(h + [e], x) > Latest(h + [e], k) ensures x in order' {
      LatestAppend(h, e, k);
      LatestAppend(h, e, x);
      assert x != e.key ==> x in kept;
    }
  }

  lemma InsertKeepsCause<V>(h: seq<Insertion<V>>, clock: int, ttl: nat, capacity: nat,
                            e: Insertion<V>, x: string)
    requires GoneForCause(h, clock, ttl, capacity, x)
    requires x != e.key && clock <= e.at
    ensures GoneForCause(h + [e], e.at, ttl, capacity, x)
  {
    LatestAppend(h, e, x);
    SubsetCard(NewerKeys(h, x), NewerKeys(h + [e], x));
  }

  /** Evicting the oldest key when there is one too many. */
  lemma EvictKeepsInv<V>(h: seq<Insertion<V>>, clock: int, ttl: nat, capacity: nat,
                         entries: map<string, Entry<V>>, order: seq<string>)
    requires Inv(h, clock, ttl, capacity, entries, order) && |order| == capacity + 1
    ensures Inv(h, clock, ttl, capacity, entries - {order[0]}, order[1..])
  {
    var y, rest := order[0], order[1..];
    forall k | k in entries - {y} ensures Holds(h, entries - {y}, k) {
      assert Holds(h, entries, k);
    }
    assert forall i :: 0 <= i < |rest| ==> rest[i] == order[i + 1];
    assert forall x :: x in order <==> x == y || x in rest;
    forall k | k !in rest ensures GoneForCause(h, clock, ttl, capacity, k) {
      if k == y {
        forall x | x in rest ensures x in NewerKeys(h, y) {
          var j := Latest(h, x);
          assert h[j].key == x;
        }
        ElemsCard(rest);
        SubsetCard(Elems(rest), NewerKeys(h, y));
      } else {
        assert k !in order;
      }
    }
  }

  /** After a purge, presence in the cache is exactly being live. */
  lemma PresentIsLive<V>(h: seq<Insertion<V>>, now: int, ttl: nat, capacity: nat,
                         entries: map<string, Entry<V>>, order: seq<string>, k: string)
    requires Inv(h, now, ttl, capacity, entries, order) && |order| <= capacity
    requires forall x :: x in order ==> Latest(h, x) >= 0 && !Expired(h, ttl, now, x)
    ensures k in entries <==> Live(h, ttl, capacity, now, k)
    ensures k in entries ==> Lookup(h, ttl, capacity, now, k) == Some(entries[k].value)
  {
    if k in entries {
      assert Holds(h, entries, k);
      var p :| 0 <= p < |order| && order[p] == k;
      var later := order[p + 1..];
      forall x | x in NewerKeys(h, k) ensures x in Elems(later) {
        var j :| Latest(h, k) < j < |h| && h[j].key == x;
        assert Latest(h, x) >= j;
        assert x in order;
        var q :| 0 <= q < |order| && order[q] == x;
        assert q > p;
        assert later[q - p - 1] == x;
      }
      SubsetCard(NewerKeys(h, k), Elems(later));
      ElemsCard(later);
    } else {
      assert GoneForCause(h, now, ttl, capacity, k);
    }
  }

  /** `order` lists the map's keys without repetition, the oldest insertion first. */
  lemma OrderListsKeys<V>(h: seq<Insertion<V>>, clock: int, ttl: nat, capacity: nat,
                          entries: map<string, Entry<V>>, order: seq<string>)
    requires Inv(h, clock, ttl, capacity, entries, order)
    ensures entries.Keys == Elems(order) && |entries| == |order|
    ensures forall i, j :: 0 <= i < j < |order| ==>
              order[i] != order[j] && entries[order[i]].insertedAt <= entries[order[j]].insertedAt
  {
    ElemsCard(order);
    forall i, j | 0 <= i < j < |order| ensures entries[order[i]].insertedAt <= entries[order[j]].insertedAt {
      assert Holds(h, entries, order[i]) && Holds(h, entries, order[j]);
    }
  }

  // ---- the cache ----

  class TtlCache<V> {
    const ttl: nat
    const capacity: nat
    var entries: map<string, Entry<V>>
    var order: seq<string>
    /** Every insertion so far, and the latest reading of the clock. */
    ghost var history: seq<Insertion<V>>
    ghost var clock: int

    ghost predicate Valid()
      reads this
    {
      Inv(history, clock, ttl, capacity, entries, order) && |order| <= capacity
    }

    constructor (ttl: nat, capacity: nat, ghost start: int)
      ensures Valid() && this.ttl == ttl && this.capacity == capacity
      ensures history == [] && clock == start
    {
      this.ttl, this.capacity := ttl, capacity;
      entries, order := map[], [];
      history, clock := [], start;
    }

    method Get(key: string, now: int) returns (r: Option<V>)
      requires Valid() && clock <= now
      modifies this
      ensures Valid() && history == old(history) && clock == now
      ensures r == Lookup(history, ttl, capacity, now, key)
    {
      PurgeExpired(now);
      PresentIsLive(history, now, ttl, capacity, entries, order, key);
      r := if key in entries then Some(entries[key].value) else None;
    }

    /** The clock is read twice: to purge, and to stamp the entry. */
    method Insert(key: string, value: V, now: int, stamp: int)
      requires Valid() && clock <= now <= stamp
      modifies this
      ensures Valid() && clock == stamp
      ensures history == old(history) + [Insertion(key, value, stamp)]
    {
      PurgeExpired(now);
      ghost var e := Insertion(key, value, stamp);
      InsertKeepsInv(history, clock, ttl, capacity, entries, order, e);
      Place(key, Entry(value, stamp));
      history, clock := history + [e], stamp;
      EvictOldest();
    }

    /** Puts an entry in, and its key at the end of the order. */
    method Place(key: string, entry: Entry<V>)
      requires key in order ==> key in entries
      modifies this`entries, this`order
      ensures entries == old(entries)[key := entry] && order == Kept(old(order), {key}) + [key]
    {
      if key in entries {
        entries := entries - {key};
        order := Kept(order, {key});
      } else {
        KeptAll(order, {key});
      }
      entries := entries[key := entry];
      order := order + [key];
      assert entries == old(entries)[key := entry];
    }

    method PurgeExpired(now: int)
      requires Valid() && clock <= now
      modifies this
      ensures Valid() && history == old(history) && clock == now
      ensures forall k :: k in order ==> Latest(history, k) >= 0 && !Expired(history, ttl, now, k)
    {
      var expired := set k | k in entries && now - entries[k].insertedAt > ttl;
      PurgeKeepsInv(history, clock, now, ttl, capacity, entries, order, expired);
      RemoveAll(expired);
      clock := now;
    }

    /** Takes the keys out one by one, in whatever order they come. */
    method RemoveAll(keys: set<string>)
      modifies this`entries, this`order
      ensures entries == old(entries) - keys && order == Kept(old(order), keys)
    {
      var left := keys;
      KeptAll(order, {});
      assert keys - left == {};
      while left != {}
        invariant left <= keys
        invariant entries == old(entries) - (keys - left)
        invariant order == Kept(old(order), keys - left)
        decreases |left|
      {
        var key :| key in left;
        KeptTwice(old(order), keys - left, {key});
        assert keys - left + {key} == keys - (left - {key});
        entries := entries - {key};
        order := Kept(order, {key});
        left := left - {key};
      }
      assert keys - left == keys;
    }

    method EvictOldest()
      requires Inv(history, clock, ttl, capacity, entries, order) && |order| <= capacity + 1
      modifies this
      ensures Valid() && history == old(history) && clock == old(clock)
    {
      OrderListsKeys(history, clock, ttl, capacity, entries, order);
      while |entries| > capacity
        invariant Inv(history, clock, ttl, capacity, entries, order) && |order| <= capacity + 1
        invariant |entries| == |order|
        invariant history == old(history) && clock == old(clock)
      {
        if order == [] { break; }
        var oldest := order[0];
        EvictKeepsInv(history, clock, ttl, capacity, entries, order);
        order := order[1..];
        entries := entries - {oldest};
        OrderListsKeys(history, clock, ttl, capacity, entries, order);
      }
    }
  }
}
