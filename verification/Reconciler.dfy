/** The reconciler of api/src/lib/reconciler.ts: every tick brings each watched namespace towards the
    fingerprint last deployed. What the registry, the databases, the secrets and the hosting adapter answer
    is given with each attempt. */
module Reconciler {
  import opened Wrappers

  type Fingerprint(==, !new)

  /** A namespace's key. */
  type Key(==, !new)

  datatype NamespaceState = NamespaceState(lastSeen: Option<Fingerprint>, converged: Option<Fingerprint>,
                                           bootAssumed: bool, drift: Option<string>, instanceUrl: Option<string>)

  const INITIAL: NamespaceState := NamespaceState(None, None, false, None, None)

  /** The latest deploy as the registry lists it. */
  datatype Row = Row(fingerprint: Option<Fingerprint>, imageRef: Option<string>)

  /** The answers an attempt would get, whether it asks for them or not. */
  datatype Attempt = Attempt(latest: Result<Option<Row>, string>, observedFirst: Result<bool, string>,
                             provisioned: Result<(), string>, secrets: Result<(), string>,
                             deployed: Result<string, string>, observed: Result<bool, string>,
                             restarted: Result<string, string>)

  datatype Entry = Entry(key: Key, image: Option<string>)

  // ---------------------------------------------------------------- deciding

  datatype Decision = Noop | Baseline(fingerprint: Fingerprint) | Converge(fingerprint: Fingerprint)

  function DecideReconcile(running: Option<bool>, converged: Option<Fingerprint>,
                           latest: Option<Fingerprint>): Decision {
    if latest == None then Noop
    else if converged == None then
      if running == Some(true) then Baseline(latest.value) else Converge(latest.value)
    else if latest == converged then Noop
    else Converge(latest.value)
  }

  /** What an attempt came to. */
  datatype Event =
    | Deployed(fingerprint: Fingerprint)
    | Baselined(fingerprint: Fingerprint)
    | Healthy
    | Restarted
    | Failed(reason: string)

  const NO_IMAGE: string := "no image pin in force"

  /** The outcome of an attempt from a state in which `converged` is the fingerprint in force. */
  function Outcome(converged: Option<Fingerprint>, image: Option<string>, a: Attempt): Event {
    match a.latest
    case Failure(e) => Failed(e)
    case Success(row) =>
      if converged == None && row.Some? && a.observedFirst.Failure? then Failed(a.observedFirst.error)
      else
        var running := if converged == None && row.Some? then Some(a.observedFirst.value) else None;
        match DecideReconcile(running, converged, if row.Some? then row.value.fingerprint else None)
        case Baseline(f) => Baselined(f)
        case Converge(f) => Convergence(f, if image.Some? then image else row.value.imageRef, a)
        case Noop =>
          if a.observed.Failure? then Failed(a.observed.error)
          else if a.observed.value then Healthy
          else if a.restarted.Failure? then Failed(a.restarted.error)
          else Restarted
  }

  function Convergence(f: Fingerprint, image: Option<string>, a: Attempt): Event {
    if image == None || image == Some("") then Failed(NO_IMAGE)
    else if a.provisioned.Failure? then Failed(a.provisioned.error)
    else if a.secrets.Failure? then Failed(a.secrets.error)
    else if a.deployed.Failure? then Failed(a.deployed.error)
    else Deployed(f)
  }

  function LatestOf(a: Attempt): Option<Fingerprint> {
    match a.latest
    case Success(Some(row)) => row.fingerprint
    case _ => None
  }

  /** The state after an attempt with that outcome. */
  function After(s: NamespaceState, a: Attempt, out: Event): NamespaceState {
    var seen := s.(lastSeen := if LatestOf(a).Some? then LatestOf(a) else s.lastSeen);
    match out
    case Failed(reason) => seen.(drift := Some(reason))
    case Baselined(f) => seen.(converged := Some(f), bootAssumed := true, drift := None)
    case Deployed(f) =>
      seen.(converged := Some(f), bootAssumed := false, drift := None,
            instanceUrl := if a.deployed.Success? then Some(a.deployed.value) else s.instanceUrl)
    case Healthy => seen.(drift := None)
    case Restarted =>
      seen.(drift := None, instanceUrl := if a.restarted.Success? then Some(a.restarted.value) else s.instanceUrl)
  }

  function Reconciled(s: NamespaceState, image: Option<string>, a: Attempt): NamespaceState {
    After(s, a, Outcome(s.converged, image, a))
  }

  // ---------------------------------------------------------------- the reconciler

  predicate Distinct(watch: seq<Entry>) {
    forall i, j | 0 <= i < j < |watch| :: watch[i].key != watch[j].key
  }

  class Reconciler {
    const watch: seq<Entry>
    var states: map<Key, NamespaceState>

    ghost predicate Valid()
      reads this
    {
      forall i | 0 <= i < |watch| :: watch[i].key in states
    }

    constructor (watch: seq<Entry>)
      ensures Valid() && this.watch == watch && forall i | 0 <= i < |watch| :: states[watch[i].key] == INITIAL
    {
      this.watch, this.states := watch, map[];
      new;
      var i := 0;
      while i < |watch|
        invariant i <= |watch| && forall j | 0 <= j < i :: watch[j].key in states && states[watch[j].key] == INITIAL
      {
        states := states[watch[i].key := INITIAL];
        i := i + 1;
      }
    }

    /** `reconcileNamespace`: where an effect fails, the attempt ends there and marks the namespace drifted. */
    method ReconcileNamespace(entry: Entry, a: Attempt) returns (out: Event)
      requires entry.key in states
      modifies this
      ensures out == Outcome(old(states[entry.key]).converged, entry.image, a)
      ensures states == old(states)[entry.key := Reconciled(old(states[entry.key]), entry.image, a)]
    {
      out := Attempted(entry, a);
      if out.Failed? {
        states := states[entry.key := states[entry.key].(drift := Some(out.reason))];
      }
    }

    /** The attempt itself, up to its first failure. */
    method Attempted(entry: Entry, a: Attempt) returns (out: Event)
      requires entry.key in states
      modifies this
      ensures out == Outcome(old(states[entry.key]).converged, entry.image, a)
      ensures entry.key in states && states == old(states)[entry.key := states[entry.key]]
      ensures out.Failed? ==>
                states[entry.key].(drift := Some(out.reason)) == Reconciled(old(states[entry.key]), entry.image, a)
      ensures !out.Failed? ==> states[entry.key] == Reconciled(old(states[entry.key]), entry.image, a)
    {
      var s := states[entry.key];
      if a.latest.Failure? { return Failed(a.latest.error); }
      var row := a.latest.value;
      var latest := if row.Some? then row.value.fingerprint else None;
      if latest.Some? {
        s := s.(lastSeen := latest);
        states := states[entry.key := s];
      }
      var running := None;
      if s.converged == None && row.Some? {
        if a.observedFirst.Failure? { return Failed(a.observedFirst.error); }
        running := Some(a.observedFirst.value);
      }
      match DecideReconcile(running, s.converged, latest)
      case Baseline(f) =>
        states := states[entry.key := s.(converged := Some(f), bootAssumed := true, drift := None)];
        out := Baselined(f);
      case Converge(f) =>
        var image := if entry.image.Some? then entry.image else row.value.imageRef;
        if image == None || image == Some("") { return Failed(NO_IMAGE); }
        if a.provisioned.Failure? { return Failed(a.provisioned.error); }
        if a.secrets.Failure? { return Failed(a.secrets.error); }
        if a.deployed.Failure? { return Failed(a.deployed.error); }
        states := states[entry.key := s.(converged := Some(f), bootAssumed := false,
                                         instanceUrl := Some(a.deployed.value), drift := None)];
        out := Deployed(f);
      case Noop =>
        if a.observed.Failure? { return Failed(a.observed.error); }
        if a.observed.value {
          states := states[entry.key := s.(drift := None)];
          return Healthy;
        }
        if a.restarted.Failure? { return Failed(a.restarted.error); }
        states := states[entry.key := s.(instanceUrl := Some(a.restarted.value), drift := None)];
        out := Restarted;
    }

    /** `tick`: one attempt for each watched namespace, in order. */
    method Tick(attempts: seq<Attempt>) returns (events: seq<Event>)
      requires Valid() && Distinct(watch) && |attempts| == |watch|
      modifies this
      ensures Valid() && states.Keys == old(states).Keys
      ensures forall i | 0 <= i < |watch| ::
                states[watch[i].key] == Reconciled(old(states)[watch[i].key], watch[i].image, attempts[i])
      ensures |events| == |watch|
      ensures forall i | 0 <= i < |watch| ::
                events[i] == Outcome(old(states)[watch[i].key].converged, watch[i].image, attempts[i])
      ensures forall k | k in states && (forall i | 0 <= i < |watch| :: watch[i].key != k) ::
                states[k] == old(states)[k]
    {
      events := [];
      var i := 0;
      while i < |watch|
        invariant i <= |watch| && Valid() && states.Keys == old(states).Keys && |events| == i
        invariant forall j | 0 <= j < i ::
                  events[j] == Outcome(old(states)[watch[j].key].converged, watch[j].image, attempts[j])
        invariant forall j | 0 <= j < i ::
                  states[watch[j].key] == Reconciled(old(states)[watch[j].key], watch[j].image, attempts[j])
        invariant forall k | k in states && (forall j | 0 <= j < i :: watch[j].key != k) :: states[k] == old(states)[k]
      {
        var out := ReconcileNamespace(watch[i], attempts[i]);
        events := events + [out];
        i := i + 1;
      }
    }

    /** Ticks from the start: each watched namespace goes through the run of its own attempts, one from each
        tick. */
    method Ticks(ticks: seq<seq<Attempt>>) returns (events: seq<seq<Event>>)
      requires Valid() && Distinct(watch)
      requires forall i | 0 <= i < |watch| :: states[watch[i].key] == INITIAL
      requires forall t | 0 <= t < |ticks| :: |ticks[t]| == |watch|
      modifies this
      ensures Valid() && states.Keys == old(states).Keys
      ensures |events| == |ticks| && forall t | 0 <= t < |ticks| :: RowIs(watch, ticks, t, events[t])
      ensures StatesAre(watch, ticks, |ticks|, states)
    {
      events := [];
      for n := 0 to |ticks|
        invariant Valid() && states.Keys == old(states).Keys && StatesAre(watch, ticks, n, states)
        invariant |events| == n && forall t | 0 <= t < n :: RowIs(watch, ticks, t, events[t])
      {
        ghost var before := states;
        var came := Tick(ticks[n]);
        OneTick(watch, ticks, n, before, states, came);
        events := events + [came];
      }
    }
  }

  // ---------------------------------------------------------------- one attempt

  /** The converged fingerprint moves only to the one read in this attempt, after a baseline or a successful
      deploy; and every attempt that does not fail ends on the fingerprint it has read, if it has read one. */
  lemma ConvergedMoves(s: NamespaceState, image: Option<string>, a: Attempt)
    ensures var (t, out) := (Reconciled(s, image, a), Outcome(s.converged, image, a));
            && (t.converged != s.converged ==> t.converged == LatestOf(a) && LatestOf(a).Some?)
            && (t.converged != s.converged <==> out.Deployed? || out.Baselined?)
            && (out.Deployed? ==> a.deployed.Success? && t.converged == Some(out.fingerprint))
            && (out.Baselined? ==>
                s.converged == None && a.observedFirst == Success(true) && t.converged == Some(out.fingerprint))
            && (!out.Failed? && LatestOf(a).Some? ==> t.converged == LatestOf(a))
            && (s.converged.Some? ==> t.converged.Some?)
  {
  }

  /** Drift is on record after an attempt exactly when the attempt failed. */
  lemma DriftMeansFailed(s: NamespaceState, image: Option<string>, a: Attempt)
    ensures Reconciled(s, image, a).drift.Some? <==> Outcome(s.converged, image, a).Failed?
  {
  }

  // ---------------------------------------------------------------- runs of one namespace

  function StateAfter(image: Option<string>, attempts: seq<Attempt>): NamespaceState {
    if attempts == [] then INITIAL
    else Reconciled(StateAfter(image, attempts[..|attempts| - 1]), image, attempts[|attempts| - 1])
  }

  /** What the ticks bring for the namespace watched at `i`. */
  function Column(ticks: seq<seq<Attempt>>, i: nat): (attempts: seq<Attempt>)
    requires forall t | 0 <= t < |ticks| :: i < |ticks[t]|
    ensures |attempts| == |ticks| && forall t | 0 <= t < |ticks| :: attempts[t] == ticks[t][i]
  {
    if ticks == [] then [] else Column(ticks[..|ticks| - 1], i) + [ticks[|ticks| - 1][i]]
  }

  function EventAt(image: Option<string>, attempts: seq<Attempt>, i: nat): Event
    requires i < |attempts|
  {
    Outcome(StateAfter(image, attempts[..i]).converged, image, attempts[i])
  }

  /** After `n` ticks each watched namespace is where its own attempts have led it. */
  ghost predicate StatesAre(watch: seq<Entry>, ticks: seq<seq<Attempt>>, n: nat, states: map<Key, NamespaceState>)
    requires n <= |ticks| && forall t | 0 <= t < |ticks| :: |ticks[t]| == |watch|
  {
    forall i | 0 <= i < |watch| ::
      watch[i].key in states && states[watch[i].key] == StateAfter(watch[i].image, Column(ticks, i)[..n])
  }

  /** What a tick came to for each namespace is what its attempt came to in its own run. */
  ghost predicate RowIs(watch: seq<Entry>, ticks: seq<seq<Attempt>>, t: nat, events: seq<Event>)
    requires t < |ticks| && forall t | 0 <= t < |ticks| :: |ticks[t]| == |watch|
  {
    |events| == |watch| && forall i | 0 <= i < |watch| :: events[i] == EventAt(watch[i].image, Column(ticks, i), t)
  }

  lemma OneTick(watch: seq<Entry>, ticks: seq<seq<Attempt>>, n: nat, before: map<Key, NamespaceState>,
                after: map<Key, NamespaceState>, events: seq<Event>)
    requires n < |ticks| && forall t | 0 <= t < |ticks| :: |ticks[t]| == |watch|
    requires StatesAre(watch, ticks, n, before) && |events| == |watch|
    requires forall i | 0 <= i < |watch| ::
               && watch[i].key in after
               && after[watch[i].key] == Reconciled(before[watch[i].key], watch[i].image, ticks[n][i])
               && events[i] == Outcome(before[watch[i].key].converged, watch[i].image, ticks[n][i])
    ensures StatesAre(watch, ticks, n + 1, after) && RowIs(watch, ticks, n, events)
  {
    forall i | 0 <= i < |watch|
      ensures after[watch[i].key] == StateAfter(watch[i].image, Column(ticks, i)[..n + 1])
      ensures events[i] == EventAt(watch[i].image, Column(ticks, i), n)
    {
      OneMore(watch[i].image, Column(ticks, i), n);
    }
  }

  lemma OneMore(image: Option<string>, attempts: seq<Attempt>, n: nat)
    requires n < |attempts|
    ensures StateAfter(image, attempts[..n + 1]) == Reconciled(StateAfter(image, attempts[..n]), image, attempts[n])
  {
    assert attempts[..n + 1][..n] == attempts[..n];
  }

  predicate DeployedAt(image: Option<string>, attempts: seq<Attempt>, i: nat)
    requires i < |attempts|
  {
    EventAt(image, attempts, i).Deployed?
  }

  predicate SetsAt(image: Option<string>, attempts: seq<Attempt>, i: nat)
    requires i < |attempts|
  {
    DeployedAt(image, attempts, i) || EventAt(image, attempts, i).Baselined?
  }

  predicate NoneSet(image: Option<string>, attempts: seq<Attempt>, lo: nat, hi: nat)
    requires lo <= hi <= |attempts|
  {
    forall i | lo <= i < hi :: !SetsAt(image, attempts, i)
  }

  /** In between, the converged fingerprint stays. */
  lemma {:induction false} StaysConverged(image: Option<string>, attempts: seq<Attempt>, lo: nat, hi: nat)
    requires lo <= hi <= |attempts| && NoneSet(image, attempts, lo, hi)
    ensures StateAfter(image, attempts[..hi]).converged == StateAfter(image, attempts[..lo]).converged
  {
    if lo < hi {
      assert NoneSet(image, attempts, lo, hi - 1) && !SetsAt(image, attempts, hi - 1);
      StaysConverged(image, attempts, lo, hi - 1);
      OneMore(image, attempts, hi - 1);
      ConvergedMoves(StateAfter(image, attempts[..hi - 1]), image, attempts[hi - 1]);
    }
  }

  /** Successive deploys of a namespace never repeat a fingerprint, and the first after a baseline differs
      from the baseline. A baseline is taken at most once, before any deploy. */
  lemma DeploysDoNotRepeat(image: Option<string>, attempts: seq<Attempt>, i: nat, j: nat)
    requires i < j < |attempts| && SetsAt(image, attempts, i) && SetsAt(image, attempts, j)
    requires NoneSet(image, attempts, i + 1, j)
    ensures DeployedAt(image, attempts, j)
    ensures EventAt(image, attempts, j).fingerprint != EventAt(image, attempts, i).fingerprint
  {
    OneMore(image, attempts, i);
    ConvergedMoves(StateAfter(image, attempts[..i]), image, attempts[i]);
    StaysConverged(image, attempts, i + 1, j);
    ConvergedMoves(StateAfter(image, attempts[..j]), image, attempts[j]);
  }

  predicate OnlyReads(attempts: seq<Attempt>, f: Fingerprint, lo: nat, hi: nat)
    requires lo <= hi <= |attempts|
  {
    forall i | lo <= i < hi :: LatestOf(attempts[i]) == None || LatestOf(attempts[i]) == Some(f)
  }

  /** While the registry names one fingerprint, an attempt that reads it and does not fail is the last that
      can deploy: no later tick does, whatever fails afterwards. */
  lemma {:induction false} StableMeansQuiet(image: Option<string>, attempts: seq<Attempt>, f: Fingerprint, i: nat,
                                            j: nat)
    requires i < j < |attempts| && LatestOf(attempts[i]) == Some(f) && !EventAt(image, attempts, i).Failed?
    requires OnlyReads(attempts, f, i, |attempts|)
    ensures !SetsAt(image, attempts, j)
    ensures StateAfter(image, attempts[..j]).converged == Some(f)
  {
    if j == i + 1 {
      OneMore(image, attempts, i);
      ConvergedMoves(StateAfter(image, attempts[..i]), image, attempts[i]);
    } else {
      StableMeansQuiet(image, attempts, f, i, j - 1);
      StaysConverged(image, attempts, j - 1, j);
    }
    assert LatestOf(attempts[j]) == None || LatestOf(attempts[j]) == Some(f);
    ConvergedMoves(StateAfter(image, attempts[..j]), image, attempts[j]);
  }

  /** An attempt succeeds when every effect it may need does and an image is known. */
  predicate Succeeds(image: Option<string>, a: Attempt) {
    && a.latest.Success? && a.observedFirst.Success? && a.provisioned.Success? && a.secrets.Success?
    && a.deployed.Success? && a.observed.Success? && a.restarted.Success?
    && (a.latest.value.Some? ==>
          var pin := if image.Some? then image else a.latest.value.value.imageRef;
          pin != None && pin != Some(""))
  }

  /** A failed convergence is tried again by the next attempt that reads the same fingerprint. */
  lemma FailureIsRetried(s: NamespaceState, image: Option<string>, a: Attempt, b: Attempt)
    requires Outcome(s.converged, image, a).Failed? && LatestOf(a) != s.converged
    requires Succeeds(image, b) && LatestOf(b) == LatestOf(a) && LatestOf(b).Some?
    ensures var t := Reconciled(s, image, a);
            var out := Outcome(t.converged, image, b);
            (out == Deployed(LatestOf(b).value) || out == Baselined(LatestOf(b).value))
            && Reconciled(t, image, b).converged == LatestOf(b)
  {
  }

  /** With one fingerprint in the registry and a first tick whose effects succeed, no later tick deploys. */
  lemma StableFingerprint(image: Option<string>, attempts: seq<Attempt>, f: Fingerprint, j: nat)
    requires 0 < j < |attempts| && Succeeds(image, attempts[0])
    requires forall i | 0 <= i < |attempts| :: LatestOf(attempts[i]) == Some(f)
    ensures !DeployedAt(image, attempts, j) && StateAfter(image, attempts[..j]).converged == Some(f)
  {
    assert !EventAt(image, attempts, 0).Failed?;
    StableMeansQuiet(image, attempts, f, 0, j);
  }
}
