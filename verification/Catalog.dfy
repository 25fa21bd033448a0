/**
The model catalog: a cached list that is fetched anew when it is old, but not too
often when fetching fails. Times are nanoseconds of a monotonic clock.
*/
module Catalog {
  import opened Text

  const SECOND: nat := 1_000_000_000
  const CACHE_TTL: nat := 300 * SECOND
  const FAILURE_BACKOFF: nat := 60 * SECOND

  type Models = map<string, string>

  datatype Cached = Cached(fetchedAt: int, byId: Models)

  datatype State = State(entry: Option<Cached>, failedUntil: Option<int>)

  /** A load reads the clock when it looks at the cache, at the backoff, and after a fetch. */
  datatype Load = Load(now: int, later: int, done: int, fetched: Option<Models>)

  predicate Fresh(s: State, now: int) {
    s.entry.Some? && now - s.entry.value.fetchedAt <= CACHE_TTL
  }

  predicate BackedOff(s: State, now: int) {
    s.failedUntil.Some? && now < s.failedUntil.value
  }

  /** Whether a load goes out to fetch. */
  predicate Fetches(s: State, l: Load) {
    !Fresh(s, l.now) && !BackedOff(s, l.later)
  }

  function Known(s: State): Option<Models> {
    if s.entry.Some? then Some(s.entry.value.byId) else None
  }

  /** The state after a load and its answer; none stands for an error. */
  function Loaded(s: State, l: Load): (State, Option<Models>) {
    if !Fetches(s, l) then (s, Known(s))
    else if l.fetched.Some? then (State(Some(Cached(l.done, l.fetched.value)), None), l.fetched)
    else (s.(failedUntil := Some(l.done + FAILURE_BACKOFF)), Known(s))
  }

  class ModelCatalog {
    var entry: Option<Cached>
    var failedUntil: Option<int>

    function Now(): State
      reads this
    {
      State(entry, failedUntil)
    }

    constructor ()
      ensures Now() == State(None, None)
    {
      entry, failedUntil := None, None;
    }

    method LoadCatalog(l: Load) returns (r: Option<Models>)
      modifies this
      ensures (Now(), r) == Loaded(old(Now()), l)
    {
      if entry.Some? && !(l.now - entry.value.fetchedAt > CACHE_TTL) {
        return Some(entry.value.byId);
      }
      if failedUntil.Some? && l.later < failedUntil.value {
        return if entry.Some? then Some(entry.value.byId) else None;
      }
      match l.fetched {
        case Some(models) =>
          failedUntil := None;
          entry := Some(Cached(l.done, models));
          r := Some(models);
        case None =>
          failedUntil := Some(l.done + FAILURE_BACKOFF);
          r := if entry.Some? then Some(entry.value.byId) else None;
      }
    }
  }

  // ---- runs ----

  function Run(loads: seq<Load>): State {
    if loads == [] then State(None, None) else Loaded(Run(loads[..|loads| - 1]), loads[|loads| - 1]).0
  }

  function AnswerAt(loads: seq<Load>, i: nat): Option<Models>
    requires i < |loads|
  {
    Loaded(Run(loads[..i]), loads[i]).1
  }

  ghost predicate FetchAt(loads: seq<Load>, i: nat)
    requires i < |loads|
  {
    Fetches(Run(loads[..i]), loads[i])
  }

  ghost predicate WellTimed(loads: seq<Load>) {
    && (forall i :: 0 <= i < |loads| ==> loads[i].now <= loads[i].later <= loads[i].done)
    && (forall i, j :: 0 <= i < j < |loads| ==> loads[i].done <= loads[j].now)
  }

  /** Load `i` fetched, and none since then, up to `j`, did. */
  ghost predicate LastFetch(loads: seq<Load>, i: nat, j: nat)
    requires j <= |loads|
  {
    i < j && FetchAt(loads, i) && forall k :: i < k < j ==> !FetchAt(loads, k)
  }

  lemma {:induction false} StateSinceFetch(loads: seq<Load>, i: nat, j: nat)
    requires j <= |loads| && LastFetch(loads, i, j)
    ensures Run(loads[..j]) == Loaded(Run(loads[..i]), loads[i]).0
    decreases j
  {
    assert loads[..j][..j - 1] == loads[..j - 1];
    if j == i + 1 {
    } else {
      StateSinceFetch(loads, i, j - 1);
      assert !FetchAt(loads, j - 1);
    }
  }

  /** The first load fetches. */
  lemma FirstLoadFetches(loads: seq<Load>)
    requires loads != []
    ensures FetchAt(loads, 0)
  {
    assert loads[..0] == [];
  }

  /** After a fetch the next one is by the first load more than 300 seconds later, or 60 and more after a failure. */
  lemma FetchesAreSpaced(loads: seq<Load>, i: nat, j: nat)
    requires WellTimed(loads) && j < |loads| && LastFetch(loads, i, j)
    ensures FetchAt(loads, j) <==>
            if loads[i].fetched.Some? then loads[j].now - loads[i].done > 300 * SECOND
            else loads[j].later - loads[i].done >= 60 * SECOND
  {
    StateSinceFetch(loads, i, j);
  }

  /** The models that the last successful fetch brought, if there was one. */
  ghost function LastFetched(loads: seq<Load>): Option<Models> {
    if loads == [] then None
    else if FetchAt(loads, |loads| - 1) && loads[|loads| - 1].fetched.Some? then loads[|loads| - 1].fetched
    else LastFetched(loads[..|loads| - 1])
  }

  lemma {:induction false} KnownIsLastFetched(loads: seq<Load>)
    ensures Known(Run(loads)) == LastFetched(loads)
  {
    if loads == [] {
    } else {
      KnownIsLastFetched(loads[..|loads| - 1]);
    }
  }

  /** Every load answers with the last catalog that was fetched, by itself or before, and fails only if there never was one. */
  lemma AnswerIsLastFetched(loads: seq<Load>, i: nat)
    requires i < |loads|
    ensures AnswerAt(loads, i) == LastFetched(loads[..i + 1])
  {
    assert loads[..i + 1][..i] == loads[..i];
    KnownIsLastFetched(loads[..i + 1]);
  }
}
