/** The tenant binding cache of host/src/services/binding-resolver.ts for one API URL: a time to live, a
    negative cache, one shared fetch and the last good set. A fetch settles in a step of its own, so lookups
    come in between; every step reads the clock. */
module BindingResolver {
  import opened Wrappers

  type Binding(==, !new)

  /** Bindings by host name. */
  type Entries = map<string, Binding>

  const BINDINGS_TTL_MS: nat := 30000
  const FAILURE_TTL_MS: nat := 10000

  datatype Cache = Cache(expiresAt: nat, entries: Entries, refetching: Option<nat>, failedUntil: Option<nat>)

  /** What the callbacks of a fetch have captured. */
  datatype Fetch = Fetch(stale: Option<Entries>, startedAt: nat)

  /** `clock` and `lastLoaded` only record the run: the latest reading and the latest completed load. */
  datatype State = State(cache: Option<Cache>, outstanding: map<nat, Fetch>, nextFetch: nat,
                         clock: nat, lastLoaded: Option<Entries>)

  datatype Outcome = Rejected | Answered(entries: Entries) | Waiting(fetch: nat)

  datatype Event =
    | Lookup(now: nat)
    | Succeed(now: nat, fetch: nat, entries: Entries)
    | Fail(now: nat, fetch: nat)

  const START: State := State(None, map[], 0, 0, None)

  // ---------------------------------------------------------------- steps

  predicate FailsFast(c: Option<Cache>, now: nat) {
    c.Some? && c.value.failedUntil.Some? && c.value.failedUntil.value > now
  }

  predicate Current(c: Option<Cache>, now: nat) {
    c.Some? && c.value.expiresAt > now && c.value.entries != map[]
  }

  predicate Fetching(c: Option<Cache>) {
    c.Some? && c.value.refetching.Some?
  }

  /** This lookup has to fetch. */
  predicate Starts(c: Option<Cache>, now: nat) {
    !FailsFast(c, now) && !Current(c, now) && !Fetching(c)
  }

  function Stale(c: Option<Cache>): Option<Entries> {
    match c case None => None case Some(k) => Some(k.entries)
  }

  function OrEmpty(e: Option<Entries>): Entries {
    match e case None => map[] case Some(m) => m
  }

  function LookupOutcome(s: State, now: nat): Outcome {
    if FailsFast(s.cache, now) then Rejected
    else if Current(s.cache, now) then Answered(s.cache.value.entries)
    else if Fetching(s.cache) then Waiting(s.cache.value.refetching.value)
    else Waiting(s.nextFetch)
  }

  function AfterLookup(s: State, now: nat): State {
    if !Starts(s.cache, now) then s.(clock := now)
    else
      State(Some(Cache(now + BINDINGS_TTL_MS, OrEmpty(Stale(s.cache)), Some(s.nextFetch), None)),
            s.outstanding[s.nextFetch := Fetch(Stale(s.cache), now)], s.nextFetch + 1, now, s.lastLoaded)
  }

  function FailOutcome(f: Fetch): Outcome {
    if OrEmpty(f.stale) != map[] then Answered(OrEmpty(f.stale)) else Rejected
  }

  function CacheAfterFail(f: Fetch, now: nat): Cache {
    if OrEmpty(f.stale) != map[] then Cache(now + BINDINGS_TTL_MS, OrEmpty(f.stale), None, None)
    else Cache(f.startedAt, map[], None, Some(now + FAILURE_TTL_MS))
  }

  predicate Enabled(s: State, e: Event) {
    s.clock <= e.now && (!e.Lookup? ==> e.fetch in s.outstanding)
  }

  /** The state after an event, and what the lookups it settles are told. */
  function Apply(s: State, e: Event): (State, Outcome)
    requires Enabled(s, e)
  {
    match e
    case Lookup(now) => (AfterLookup(s, now), LookupOutcome(s, now))
    case Succeed(now, fetch, entries) =>
      (State(Some(Cache(now + BINDINGS_TTL_MS, entries, None, None)), s.outstanding - {fetch}, s.nextFetch, now,
             Some(entries)),
       Answered(entries))
    case Fail(now, fetch) =>
      (State(Some(CacheAfterFail(s.outstanding[fetch], now)), s.outstanding - {fetch}, s.nextFetch, now, s.lastLoaded),
       FailOutcome(s.outstanding[fetch]))
  }

  predicate StartsFetch(s: State, e: Event) {
    e.Lookup? && Starts(s.cache, e.now)
  }

  // ---------------------------------------------------------------- the module's state

  class Resolver {
    var cache: Option<Cache>
    var outstanding: map<nat, Fetch>
    var nextFetch: nat
    ghost var clock: nat
    ghost var lastLoaded: Option<Entries>

    ghost function Contents(): State
      reads this
    {
      State(cache, outstanding, nextFetch, clock, lastLoaded)
    }

    constructor ()
      ensures Contents() == START
    {
      cache, outstanding, nextFetch, clock, lastLoaded := None, map[], 0, 0, None;
    }

    /** `ensureBindingsLoaded` */
    method EnsureLoaded(now: nat) returns (out: Outcome)
      requires clock <= now
      modifies this
      ensures (Contents(), out) == Apply(old(Contents()), Lookup(now))
    {
      clock := now;
      if cache.Some? && cache.value.failedUntil.Some? && cache.value.failedUntil.value > now { return Rejected; }
      if cache.Some? && cache.value.expiresAt > now && |cache.value.entries| > 0 {
        return Answered(cache.value.entries);
      }
      if cache.Some? && cache.value.refetching.Some? { return Waiting(cache.value.refetching.value); }
      var stale := if cache.Some? then Some(cache.value.entries) else None;
      var fetch := nextFetch;
      nextFetch := nextFetch + 1;
      outstanding := outstanding[fetch := Fetch(stale, now)];
      cache := Some(Cache(now + BINDINGS_TTL_MS, if stale.Some? then stale.value else map[], Some(fetch), None));
      out := Waiting(fetch);
    }

    method Loaded(fetch: nat, now: nat, entries: Entries) returns (out: Outcome)
      requires clock <= now && fetch in outstanding
      modifies this
      ensures (Contents(), out) == Apply(old(Contents()), Succeed(now, fetch, entries))
    {
      outstanding := outstanding - {fetch};
      cache := Some(Cache(now + BINDINGS_TTL_MS, entries, None, None));
      clock, lastLoaded := now, Some(entries);
      out := Answered(entries);
    }

    method Failed(fetch: nat, now: nat) returns (out: Outcome)
      requires clock <= now && fetch in outstanding
      modifies this
      ensures (Contents(), out) == Apply(old(Contents()), Fail(now, fetch))
    {
      var f := outstanding[fetch];
      outstanding := outstanding - {fetch};
      clock := now;
      if f.stale.Some? && |f.stale.value| > 0 {
        cache := Some(Cache(now + BINDINGS_TTL_MS, f.stale.value, None, None));
        return Answered(f.stale.value);
      }
      cache := Some(Cache(f.startedAt, map[], None, Some(now + FAILURE_TTL_MS)));
      out := Rejected;
    }
  }

  // ---------------------------------------------------------------- what every step keeps

  /** One fetch at most, the one the cache names, and it has captured what the cache still holds. */
  predicate SingleFlight(s: State) {
    match s.cache
    case None => s.outstanding == map[]
    case Some(c) =>
      match c.refetching
      case None => s.outstanding == map[]
      case Some(f) => s.outstanding.Keys == {f} && f < s.nextFetch && OrEmpty(s.outstanding[f].stale) == c.entries
  }

  /** What the cache holds is the latest completed load, and then it remembers no failure. */
  predicate HoldsLastLoad(s: State) {
    && (s.cache.Some? && s.cache.value.entries != map[] ==>
          s.lastLoaded == Some(s.cache.value.entries) && s.cache.value.failedUntil == None)
    && (OrEmpty(s.lastLoaded) != map[] ==> s.cache.Some? && s.cache.value.entries == OrEmpty(s.lastLoaded))
  }

  predicate Good(s: State) {
    SingleFlight(s) && HoldsLastLoad(s)
  }

  /** A non-empty set has loaded, and no empty one since. */
  predicate HasLoad(s: State) {
    OrEmpty(s.lastLoaded) != map[]
  }

  lemma StepKeeps(s: State, e: Event)
    requires Good(s) && Enabled(s, e)
    ensures Good(Apply(s, e).0)
    ensures |Apply(s, e).0.outstanding| <= 1
    ensures StartsFetch(s, e) ==> s.outstanding == map[]
  {
    var t := Apply(s, e).0;
    if t.cache.value.refetching.Some? { assert t.outstanding.Keys == {t.cache.value.refetching.value}; }
  }

  /** An answer is the latest completed load; once one is there, nobody is rejected. */
  lemma AnswersComeFromLoads(s: State, e: Event)
    requires Good(s) && Enabled(s, e)
    ensures var (t, out) := Apply(s, e);
            && (out.Answered? ==> t.lastLoaded == Some(out.entries))
            && (HasLoad(s) ==> !out.Rejected?)
            && (HasLoad(s) && !(e.Succeed? && e.entries == map[]) ==> HasLoad(t))
  {
    if e.Fail? {
      assert s.outstanding.Keys == {s.cache.value.refetching.value};
      assert e.fetch == s.cache.value.refetching.value;
    }
  }

  /** Nothing is under way, and no lookup before this time fetches. */
  predicate QuietUntil(s: State, until: nat) {
    && s.outstanding == map[] && s.cache.Some? && s.cache.value.refetching == None
    && ( (s.cache.value.failedUntil.Some? && s.cache.value.failedUntil.value >= until)
      || (s.cache.value.entries != map[] && s.cache.value.expiresAt >= until))
  }

  /** How long the settling of a fetch keeps the next one away. */
  function Pause(e: Event, out: Outcome): nat {
    if e.Lookup? then 0
    else if out == Rejected then FAILURE_TTL_MS
    else if out.Answered? && out.entries != map[] then BINDINGS_TTL_MS
    else 0
  }

  /** The pause is exact: once a fetch has settled, a lookup fetches again just when the pause is over. An
      empty set is not cached at all. */
  lemma PauseIsExact(s: State, e: Event, now: nat)
    requires Good(s) && Enabled(s, e) && !e.Lookup? && now >= e.now
    ensures StartsFetch(Apply(s, e).0, Lookup(now)) <==> now >= e.now + Pause(e, Apply(s, e).1)
  {
    if e.Fail? {
      assert s.outstanding.Keys == {s.cache.value.refetching.value};
      assert OrEmpty(s.outstanding[e.fetch].stale) == s.cache.value.entries;
    }
  }

  lemma PauseBegins(s: State, e: Event)
    requires Good(s) && Enabled(s, e) && Pause(e, Apply(s, e).1) > 0
    ensures QuietUntil(Apply(s, e).0, e.now + Pause(e, Apply(s, e).1))
  {
    var f := s.cache.value.refetching;
    assert s.outstanding.Keys - {e.fetch} == {};
    assert Apply(s, e).0.outstanding.Keys == {};
  }

  lemma PauseLasts(s: State, e: Event, until: nat)
    requires QuietUntil(s, until) && Enabled(s, e) && e.now < until
    ensures !StartsFetch(s, e) && QuietUntil(Apply(s, e).0, until)
  {
  }

  // ---------------------------------------------------------------- runs

  /** The events of a run can happen one after the other. */
  predicate Runs(s: State, events: seq<Event>)
    decreases |events|
  {
    events == [] || (Enabled(s, events[0]) && Runs(Apply(s, events[0]).0, events[1..]))
  }

  function After(s: State, events: seq<Event>): State
    requires Runs(s, events)
    decreases |events|
  {
    if events == [] then s else After(Apply(s, events[0]).0, events[1..])
  }

  lemma {:induction false} RunKeeps(s: State, events: seq<Event>)
    requires Good(s) && Runs(s, events)
    ensures Good(After(s, events)) && (|s.outstanding| <= 1 ==> |After(s, events).outstanding| <= 1)
    decreases |events|
  {
    if events != [] {
      StepKeeps(s, events[0]);
      RunKeeps(Apply(s, events[0]).0, events[1..]);
    }
  }

  /** In every run there is at most one fetch at a time. */
  lemma OneFetchAtATime(events: seq<Event>)
    requires Runs(START, events)
    ensures |After(START, events).outstanding| <= 1
  {
    RunKeeps(START, events);
  }

  predicate LoadsEmpty(e: Event) {
    e.Succeed? && e.entries == map[]
  }

  lemma {:induction false} LoadLasts(s: State, events: seq<Event>)
    requires Good(s) && HasLoad(s) && Runs(s, events)
    requires forall i | 0 <= i < |events| :: !LoadsEmpty(events[i])
    ensures HasLoad(After(s, events)) && Good(After(s, events))
    decreases |events|
  {
    if events != [] {
      StepKeeps(s, events[0]);
      AnswersComeFromLoads(s, events[0]);
      LoadLasts(Apply(s, events[0]).0, events[1..]);
    }
  }

  /** After a non-empty load and until a refresh returns an empty set, no lookup is rejected, and whoever
      is answered gets the latest completed load. */
  lemma NoRejectionAfterLoad(before: seq<Event>, load: Event, between: seq<Event>, next: Event)
    requires Runs(START, before) && load.Succeed? && load.entries != map[] && Enabled(After(START, before), load)
    requires var s := Apply(After(START, before), load).0;
             Runs(s, between) && Enabled(After(s, between), next)
    requires forall i | 0 <= i < |between| :: !LoadsEmpty(between[i])
    ensures var s := After(Apply(After(START, before), load).0, between);
            var (t, out) := Apply(s, next);
            !out.Rejected? && (out.Answered? ==> t.lastLoaded == Some(out.entries))
  {
    RunKeeps(START, before);
    var s := Apply(After(START, before), load).0;
    StepKeeps(After(START, before), load);
    LoadLasts(s, between);
    AnswersComeFromLoads(After(s, between), next);
  }

  lemma {:induction false} PauseLastsAll(s: State, events: seq<Event>, until: nat)
    requires QuietUntil(s, until) && Runs(s, events) && forall i | 0 <= i < |events| :: events[i].now < until
    ensures QuietUntil(After(s, events), until)
    decreases |events|
  {
    if events != [] {
      PauseLasts(s, events[0], until);
      PauseLastsAll(Apply(s, events[0]).0, events[1..], until);
    }
  }

  lemma {:induction false} ClockGoesUp(s: State, events: seq<Event>)
    requires Runs(s, events)
    ensures s.clock <= After(s, events).clock
    ensures forall i | 0 <= i < |events| :: events[i].now <= After(s, events).clock
    decreases |events|
  {
    if events != [] {
      ClockGoesUp(Apply(s, events[0]).0, events[1..]);
      forall i | 0 <= i < |events| ensures events[i].now <= After(s, events).clock {
        if i > 0 { assert events[i] == events[1..][i - 1]; }
      }
    }
  }

  /** After a failure with nothing stale no fetch starts for ten seconds, and after a non-empty set has been
      put in the cache, fetched or stale, none for thirty. */
  lemma FetchesKeepTheirDistance(before: seq<Event>, settled: Event, between: seq<Event>, next: Event)
    requires Runs(START, before) && !settled.Lookup? && Enabled(After(START, before), settled)
    requires var s := Apply(After(START, before), settled).0;
             Runs(s, between) && Enabled(After(s, between), next) && StartsFetch(After(s, between), next)
    ensures next.now >= settled.now + Pause(settled, Apply(After(START, before), settled).1)
  {
    RunKeeps(START, before);
    var (s, out) := Apply(After(START, before), settled);
    var until := settled.now + Pause(settled, out);
    ClockGoesUp(s, between);
    if next.now < until {
      PauseBegins(After(START, before), settled);
      PauseLastsAll(s, between, until);
      PauseLasts(After(s, between), next, until);
    }
  }
}
