/** Adopting a published pointer: host/src/services/snapshot-coordinator.ts and the swappable state of
    host/src/services/runtime-snapshot.ts. Adopts and requests interleave; every effect of an adopt may
    fail. Deriving configs and their fingerprints is not part of this model. */
module SnapshotSwap {
  import opened Collections
  import opened Wrappers

  type Fingerprint(==, !new)
  type Entry(==, !new)

  /** One generation of the serving state. `stamp` is the fingerprint written into its config, `cache`
      stands for its serving caches, `releases` counts the runs of its release. */
  datatype Gen = Gen(fingerprint: Fingerprint, stamp: Option<Fingerprint>, cache: set<Entry>, releases: nat)

  datatype Outcome = Swapped(fingerprint: Fingerprint) | Unchanged | Failed

  datatype Phase =
    | Waiting
    | Deriving
    | Building
    | Comparing(next: Fingerprint)
    | Warming(gen: nat)
    | Verifying(gen: nat, targets: nat)
    | Releasing(gen: nat, previous: nat)
    | Persisting(outcome: Outcome)
    | Done(outcome: Outcome)

  /** `history` lists the generations installed so far, the live one last, and `installers` the adopts that
      installed all but the first. `captured` holds what requests in flight have captured. */
  datatype State = State(gens: seq<Gen>, history: seq<nat>, installers: seq<nat>,
                         adopts: seq<Phase>, permit: Option<nat>, captured: seq<nat>)

  function Boot(fingerprint: Fingerprint, cache: set<Entry>): State {
    State([Gen(fingerprint, None, cache, 0)], [0], [], [], None, [])
  }

  function Live(s: State): nat
    requires s.history != []
  {
    s.history[|s.history| - 1]
  }

  // ---------------------------------------------------------------- steps

  datatype Event =
    | Submit
    | Acquire(a: nat)
    | Derive(a: nat, ok: bool)
    | Build(a: nat, ok: bool, next: Fingerprint)
    | Compare(a: nat)
    | Warm(a: nat, composed: set<Entry>, ok: bool, targets: nat)
    | Verify(a: nat, ok: bool)
    | Install(a: nat)
    | ReleaseOld(a: nat)
    | Persist(a: nat)
    | Capture
    | Compose(request: nat, entry: Entry)

  predicate PhaseAllows(p: Phase, e: Event) {
    match e
    case Submit => true
    case Acquire(_) => p.Waiting?
    case Derive(_, _) => p.Deriving?
    case Build(_, _, _) => p.Building?
    case Compare(_) => p.Comparing?
    case Warm(_, _, _, _) => p.Warming?
    case Verify(_, _) => p.Verifying? && p.targets > 0
    case Install(_) => p.Verifying? && p.targets == 0
    case ReleaseOld(_) => p.Releasing?
    case Persist(_) => p.Persisting?
    case Capture => true
    case Compose(_, _) => true
  }

  predicate Named(s: State) {
    && s.history != [] && (forall i | 0 <= i < |s.history| :: s.history[i] < |s.gens|)
    && (forall i | 0 <= i < |s.captured| :: s.captured[i] < |s.gens|)
    && (forall a | 0 <= a < |s.adopts| :: PhaseNames(s.adopts[a], |s.gens|))
  }

  predicate PhaseNames(p: Phase, n: nat) {
    && ((p.Warming? || p.Verifying? || p.Releasing?) ==> p.gen < n)
    && (p.Releasing? ==> p.previous < n)
  }

  predicate Enabled(s: State, e: Event) {
    match e
    case Submit => true
    case Capture => true
    case Compose(r, _) => r < |s.captured|
    case Acquire(a) => a < |s.adopts| && s.adopts[a].Waiting? && s.permit == None
    case _ => e.a < |s.adopts| && PhaseAllows(s.adopts[e.a], e)
  }

  function Released(g: Gen): Gen {
    g.(cache := {}, releases := g.releases + 1)
  }

  /** The adopt ends and gives the permit back. */
  function Ended(s: State, a: nat, out: Outcome): State
    requires a < |s.adopts|
  {
    s.(adopts := s.adopts[a := Done(out)], permit := None)
  }

  function Moved(s: State, a: nat, p: Phase): State
    requires a < |s.adopts|
  {
    s.(adopts := s.adopts[a := p])
  }

  function Apply(s: State, e: Event): State
    requires Named(s) && Enabled(s, e)
  {
    match e
    case Submit => s.(adopts := s.adopts + [Waiting])
    case Acquire(a) => Moved(s, a, Deriving).(permit := Some(a))
    case Derive(a, ok) => if ok then Moved(s, a, Building) else Ended(s, a, Failed)
    case Build(a, ok, next) => if ok then Moved(s, a, Comparing(next)) else Ended(s, a, Failed)
    case Compare(a) =>
      var next := s.adopts[a].next;
      if next == s.gens[Live(s)].fingerprint then Moved(s, a, Persisting(Unchanged))
      else Moved(s, a, Warming(|s.gens|)).(gens := s.gens + [Gen(next, None, {}, 0)])
    case Warm(a, composed, ok, targets) =>
      var g := s.adopts[a].gen;
      var t := s.(gens := s.gens[g := s.gens[g].(cache := s.gens[g].cache + composed)]);
      if ok then Moved(t, a, Verifying(g, targets)) else Ended(t, a, Failed)
    case Verify(a, ok) =>
      if ok then Moved(s, a, Verifying(s.adopts[a].gen, s.adopts[a].targets - 1)) else Ended(s, a, Failed)
    case Install(a) =>
      var g := s.adopts[a].gen;
      Moved(s, a, Releasing(g, Live(s)))
      .(gens := s.gens[g := s.gens[g].(stamp := Some(s.gens[g].fingerprint))],
        history := s.history + [g], installers := s.installers + [a])
    case ReleaseOld(a) =>
      var g, previous := s.adopts[a].gen, s.adopts[a].previous;
      var t := Moved(s, a, Persisting(Swapped(s.gens[g].fingerprint)));
      if previous != g then t.(gens := s.gens[previous := Released(s.gens[previous])]) else t
    case Persist(a) => Ended(s, a, s.adopts[a].outcome)
    case Capture => s.(captured := s.captured + [Live(s)])
    case Compose(r, entry) =>
      var g := s.captured[r];
      s.(gens := s.gens[g := s.gens[g].(cache := s.gens[g].cache + {entry})])
  }

  // ---------------------------------------------------------------- what every step keeps

  predicate Holding(p: Phase) {
    !p.Waiting? && !p.Done?
  }

  /** Whoever is past the permit holds it. */
  predicate OnePermit(s: State) {
    && (forall a: nat | a < |s.adopts| && Holding(s.adopts[a]) :: s.permit == Some(a))
    && (s.permit.Some? ==> s.permit.value < |s.adopts| && Holding(s.adopts[s.permit.value]))
  }

  predicate Prepared(p: Phase) {
    p.Warming? || p.Verifying?
  }

  /** The generation an adopt prepares is new, differs from the live one, and has not been installed. */
  predicate PreparedIsNew(s: State)
    requires Named(s)
  {
    forall a: nat | a < |s.adopts| && Prepared(s.adopts[a]) ::
      && s.adopts[a].gen !in s.history
      && s.gens[s.adopts[a].gen].fingerprint != s.gens[Live(s)].fingerprint
      && s.gens[s.adopts[a].gen].releases == 0
  }

  predicate AdjacentAt(s: State, i: nat)
    requires Named(s) && i + 1 < |s.history|
  {
    s.gens[s.history[i]].fingerprint != s.gens[s.history[i + 1]].fingerprint
  }

  predicate AdjacentDiffer(s: State)
    requires Named(s)
  {
    forall i: nat | i + 1 < |s.history| :: AdjacentAt(s, i)
  }

  /** The release of the generation replaced last may still be to come. */
  predicate ReleasePending(s: State) {
    s.permit.Some? && s.permit.value < |s.adopts| && s.adopts[s.permit.value].Releasing?
  }

  function ReleasesDue(s: State, i: nat): nat {
    if i + 1 >= |s.history| then 0
    else if i + 2 == |s.history| && ReleasePending(s) then 0
    else 1
  }

  predicate ReleasedOnce(s: State)
    requires Named(s)
  {
    forall i: nat | i < |s.history| :: s.gens[s.history[i]].releases == ReleasesDue(s, i)
  }

  /** What is about to be released is the generation that was just replaced. */
  predicate ReleasingIsLast(s: State) {
    forall a: nat | a < |s.adopts| && s.adopts[a].Releasing? ::
      && |s.history| >= 2 && s.adopts[a].gen == s.history[|s.history| - 1]
      && s.adopts[a].previous == s.history[|s.history| - 2]
  }

  predicate Stamped(s: State)
    requires Named(s)
  {
    forall i | 1 <= i < |s.history| :: s.gens[s.history[i]].stamp == Some(s.gens[s.history[i]].fingerprint)
  }

  predicate Good(s: State) {
    && Named(s) && OnePermit(s) && PreparedIsNew(s) && AdjacentDiffer(s)
    && ReleasedOnce(s) && NoDuplicates(s.history) && ReleasingIsLast(s) && Stamped(s)
  }

  lemma StepKeepsNames(s: State, e: Event)
    requires Named(s) && Enabled(s, e)
    ensures Named(Apply(s, e)) && |s.gens| <= |Apply(s, e).gens|
  {
  }

  lemma StepKeepsPermit(s: State, e: Event)
    requires Named(s) && OnePermit(s) && Enabled(s, e)
    ensures OnePermit(Apply(s, e))
  {
  }

  /** Fingerprints never change, and a generation gains releases only from its own release. */
  lemma GensAfter(s: State, e: Event, g: nat)
    requires Named(s) && Enabled(s, e) && g < |s.gens|
    ensures var t := Apply(s, e);
            && |s.gens| <= |t.gens| && t.gens[g].fingerprint == s.gens[g].fingerprint
            && t.gens[g].releases == s.gens[g].releases +
                 (if e.ReleaseOld? && s.adopts[e.a].previous == g && s.adopts[e.a].gen != g then 1 else 0)
            && (t.gens[g].stamp == s.gens[g].stamp || (e.Install? && s.adopts[e.a].gen == g))
  {
  }

  /** What an adopt is preparing after a step. */
  lemma PreparedAfter(s: State, e: Event, a: nat)
    requires Named(s) && OnePermit(s) && PreparedIsNew(s) && Enabled(s, e) && Named(Apply(s, e))
    requires a < |Apply(s, e).adopts| && Prepared(Apply(s, e).adopts[a])
    ensures var t := Apply(s, e);
            && t.adopts[a].gen !in t.history
            && t.gens[t.adopts[a].gen].fingerprint != t.gens[Live(t)].fingerprint
            && t.gens[t.adopts[a].gen].releases == 0
  {
    GensAfter(s, e, Live(s));
    if a < |s.adopts| && Prepared(s.adopts[a]) { GensAfter(s, e, s.adopts[a].gen); }
  }

  lemma StepKeepsPrepared(s: State, e: Event)
    requires Named(s) && OnePermit(s) && PreparedIsNew(s) && ReleasingIsLast(s) && Enabled(s, e) && Named(Apply(s, e))
    ensures PreparedIsNew(Apply(s, e))
  {
    var t := Apply(s, e);
    forall a: nat | a < |t.adopts| && Prepared(t.adopts[a])
      ensures t.adopts[a].gen !in t.history && t.gens[t.adopts[a].gen].fingerprint != t.gens[Live(t)].fingerprint
              && t.gens[t.adopts[a].gen].releases == 0
    {
      PreparedAfter(s, e, a);
    }
  }

  lemma StepKeepsHistory(s: State, e: Event)
    requires Good(s) && Enabled(s, e) && Named(Apply(s, e))
    ensures AdjacentDiffer(Apply(s, e)) && NoDuplicates(Apply(s, e).history) && Stamped(Apply(s, e))
  {
    var t := Apply(s, e);
    forall i: nat | i + 1 < |t.history| ensures AdjacentAt(t, i) {
      GensAfter(s, e, t.history[i]);
      GensAfter(s, e, t.history[i + 1]);
      if i + 1 < |s.history| { assert AdjacentAt(s, i); }
    }
    forall i | 1 <= i < |t.history| ensures t.gens[t.history[i]].stamp == Some(t.gens[t.history[i]].fingerprint) {
      GensAfter(s, e, t.history[i]);
    }
  }

  lemma StepKeepsReleasing(s: State, e: Event)
    requires Good(s) && Enabled(s, e)
    ensures ReleasingIsLast(Apply(s, e))
  {
  }

  lemma StepKeepsReleases(s: State, e: Event)
    requires Good(s) && Enabled(s, e) && Named(Apply(s, e))
    ensures ReleasedOnce(Apply(s, e))
  {
    var t := Apply(s, e);
    forall i: nat | i < |t.history| ensures t.gens[t.history[i]].releases == ReleasesDue(t, i) {
      GensAfter(s, e, t.history[i]);
    }
  }

  lemma StepKeeps(s: State, e: Event)
    requires Good(s) && Enabled(s, e)
    ensures Good(Apply(s, e))
  {
    StepKeepsNames(s, e);
    StepKeepsPermit(s, e);
    StepKeepsPrepared(s, e);
    StepKeepsHistory(s, e);
    StepKeepsReleasing(s, e);
    StepKeepsReleases(s, e);
  }

  /** No step takes anything out of the caches of the generation that is live after it; only the release of
      a replaced generation empties caches at all. */
  lemma LiveCachesKept(s: State, e: Event)
    requires Good(s) && Enabled(s, e)
    ensures Named(Apply(s, e)) && Live(Apply(s, e)) < |s.gens|
    ensures s.gens[Live(Apply(s, e))].cache <= Apply(s, e).gens[Live(Apply(s, e))].cache
    ensures forall g | 0 <= g < |s.gens| && !(s.gens[g].cache <= Apply(s, e).gens[g].cache) ::
              e.ReleaseOld? && g == s.adopts[e.a].previous && g in s.history && g != Live(s)
  {
    StepKeepsNames(s, e);
  }

  // ---------------------------------------------------------------- runs

  ghost predicate Runs(s: State, events: seq<Event>, t: State)
    decreases |events|
  {
    if events == [] then s == t
    else Named(s) && Enabled(s, events[0]) && Runs(Apply(s, events[0]), events[1..], t)
  }

  lemma {:induction false} RunKeeps(s: State, events: seq<Event>, t: State)
    requires Good(s) && Runs(s, events, t)
    ensures Good(t)
    decreases |events|
  {
    if events != [] {
      StepKeeps(s, events[0]);
      RunKeeps(Apply(s, events[0]), events[1..], t);
    }
  }

  /** In every state of every run neighbouring generations have different fingerprints, the live one has not
      been released, and each replaced one has been released once; only for the one replaced last may that
      still be under way. */
  lemma EveryRun(fingerprint: Fingerprint, cache: set<Entry>, events: seq<Event>, t: State)
    requires Runs(Boot(fingerprint, cache), events, t)
    ensures Good(t)
    ensures forall i: nat | i + 1 < |t.history| :: AdjacentAt(t, i)
    ensures t.gens[Live(t)].releases == 0
    ensures forall i: nat | i + 1 < |t.history| ::
              t.gens[t.history[i]].releases == if i + 2 == |t.history| && ReleasePending(t) then 0 else 1
  {
    assert Good(Boot(fingerprint, cache));
    RunKeeps(Boot(fingerprint, cache), events, t);
  }

  /** Where the history stands as an adopt proceeds, `before` being the history when it got the permit. */
  predicate Progress(s: State, a: nat, before: seq<nat>)
    requires Named(s) && a < |s.adopts|
  {
    match s.adopts[a]
    case Waiting => false
    case Releasing(g, _) => s.history == before + [g]
    case Persisting(out) => Came(s, out, before)
    case Done(out) => Came(s, out, before)
    case _ => s.history == before
  }

  /** A failed or unchanged adopt has left the live generation as it was; a swapped one has put one
      generation on top, with the fingerprint it reports. */
  predicate Came(s: State, out: Outcome, before: seq<nat>)
    requires Named(s)
  {
    match out
    case Swapped(f) =>
      && |s.history| == |before| + 1 && s.history[..|before|] == before
      && s.gens[Live(s)].fingerprint == f
    case _ => s.history == before
  }

  lemma StepProgresses(s: State, e: Event, a: nat, before: seq<nat>)
    requires Good(s) && Enabled(s, e) && a < |s.adopts| && Holding(s.adopts[a]) && Progress(s, a, before)
    ensures Named(Apply(s, e)) && a < |Apply(s, e).adopts| && Progress(Apply(s, e), a, before)
  {
    StepKeepsNames(s, e);
    GensAfter(s, e, Live(s));
    assert s.permit == Some(a);
    assert e.Install? || e.ReleaseOld? ==> e.a == a;
  }

  /** The adopt is still at work before each of these events. */
  predicate AtWork(s: State, events: seq<Event>, a: nat)
    decreases |events|
  {
    events == [] ||
    (Named(s) && Enabled(s, events[0]) && a < |s.adopts| && Holding(s.adopts[a])
        && AtWork(Apply(s, events[0]), events[1..], a))
  }

  /** From the moment an adopt has the permit to its end, whatever else happens. */
  lemma {:induction false} AdoptIsAtomic(s: State, events: seq<Event>, t: State, a: nat, before: seq<nat>)
    requires Good(s) && Runs(s, events, t) && AtWork(s, events, a)
    requires a < |s.adopts| && Holding(s.adopts[a]) && Progress(s, a, before)
    ensures Good(t) && a < |t.adopts| && Progress(t, a, before)
    decreases |events|
  {
    if events != [] {
      var u := Apply(s, events[0]);
      StepKeeps(s, events[0]);
      StepProgresses(s, events[0], a, before);
      if events[1..] != [] { AdoptIsAtomic(u, events[1..], t, a, before); }
    }
  }

  /** So an adopt that fails or finds nothing new changes no installed generation's place. */
  lemma FailedAdoptChangesNothing(s: State, events: seq<Event>, t: State, a: nat)
    requires Good(s) && a < |s.adopts| && Enabled(s, Acquire(a))
    requires Runs(Apply(s, Acquire(a)), events, t) && AtWork(Apply(s, Acquire(a)), events, a)
    requires a < |t.adopts| && (t.adopts[a] == Done(Failed) || t.adopts[a] == Done(Unchanged))
    ensures t.history == s.history && Named(t) && Live(t) == Live(s)
  {
    var u := Apply(s, Acquire(a));
    StepKeeps(s, Acquire(a));
    assert u.history == s.history;
    AdoptIsAtomic(u, events, t, a, s.history);
  }

  // ---------------------------------------------------------------- the Ref and a whole transaction

  lemma {:induction false} RunNamed(s: State, events: seq<Event>, t: State)
    requires Named(s) && Runs(s, events, t)
    ensures Named(t)
    decreases |events|
  {
    if events != [] {
      StepKeepsNames(s, events[0]);
      RunNamed(Apply(s, events[0]), events[1..], t);
    }
  }

  /** One more event at the end of a run. */
  lemma {:induction false} RunGrows(s: State, events: seq<Event>, t: State, e: Event)
    requires Named(s) && Runs(s, events, t) && Enabled(t, e)
    ensures Named(t) && Runs(s, events + [e], Apply(t, e))
    decreases |events|
  {
    var more := events + [e];
    if events == [] {
      assert more[0] == e && Runs(Apply(s, e), [], Apply(t, e)) && more[1..] == [];
    } else {
      StepKeepsNames(s, events[0]);
      RunGrows(Apply(s, events[0]), events[1..], t, e);
      assert more[1..] == events[1..] + [e];
    }
  }

  /** The steps of an adopt that touch no generation. */
  predicate OwnStep(e: Event) {
    e.Derive? || e.Build? || e.Verify? || e.Persist?
  }

  function PhaseAfter(p: Phase, e: Event): Phase
    requires OwnStep(e) && PhaseAllows(p, e)
  {
    match e
    case Derive(_, ok) => if ok then Building else Done(Failed)
    case Build(_, ok, next) => if ok then Comparing(next) else Done(Failed)
    case Verify(_, ok) => if ok then Verifying(p.gen, p.targets - 1) else Done(Failed)
    case Persist(_) => Done(p.outcome)
  }

  lemma OwnStepIs(s: State, e: Event)
    requires Named(s) && OwnStep(e) && Enabled(s, e)
    ensures var q := PhaseAfter(s.adopts[e.a], e);
            Apply(s, e) == s.(adopts := s.adopts[e.a := q], permit := if q.Done? then None else s.permit)
    ensures Named(Apply(s, e)) && Live(Apply(s, e)) == Live(s)
  {
  }

  function Warmed(gens: seq<Gen>, g: nat, composed: set<Entry>): (r: seq<Gen>)
    requires g < |gens|
    ensures |r| == |gens|
  {
    gens[g := gens[g].(cache := gens[g].cache + composed)]
  }

  /** Generation `g` carries its stamp and the one it replaced has been released. */
  function Installed(gens: seq<Gen>, g: nat, previous: nat): (r: seq<Gen>)
    requires g < |gens| && previous < |gens|
    ensures |r| == |gens|
  {
    var stamped := gens[g := gens[g].(stamp := Some(gens[g].fingerprint))];
    if previous == g then stamped else stamped[previous := Released(stamped[previous])]
  }

  /** The state after both steps of a swap. */
  function SwapDone(s: State, a: nat, live: nat): State
    requires a < |s.adopts| && s.adopts[a].Verifying? && s.adopts[a].gen < |s.gens| && live < |s.gens|
  {
    var g := s.adopts[a].gen;
    s.(adopts := s.adopts[a := Persisting(Swapped(s.gens[g].fingerprint))], gens := Installed(s.gens, g, live),
       history := s.history + [g], installers := s.installers + [a])
  }

  lemma SwapSteps(start: State, events: seq<Event>, s: State, a: nat, live: nat)
    requires Named(start) && Runs(start, events, s) && a < |s.adopts| && s.adopts[a].Verifying?
              && s.adopts[a].targets == 0
    requires s.adopts[a].gen < |s.gens| && s.history != [] && live == Live(s) < |s.gens|
    ensures Runs(start, events + [Install(a)] + [ReleaseOld(a)], SwapDone(s, a, live))
  {
    RunGrows(start, events, s, Install(a));
    var t := Apply(s, Install(a));
    RunGrows(start, events + [Install(a)], t, ReleaseOld(a));
    assert Apply(t, ReleaseOld(a)) == SwapDone(s, a, live);
  }

  /** The generations, the reference to the live one, the permit and the adopts so far. The order in which
      generations were installed and what requests have captured are on record for the specification only. */
  class Snapshot {
    var gens: seq<Gen>
    var live: nat
    var adopts: seq<Phase>
    var permit: Option<nat>
    ghost var history: seq<nat>
    ghost var installers: seq<nat>
    ghost var captured: seq<nat>

    ghost function Contents(): State
      reads this
    {
      State(gens, history, installers, adopts, permit, captured)
    }

    ghost predicate Valid()
      reads this
    {
      Named(Contents()) && live == Live(Contents())
    }

    constructor (fingerprint: Fingerprint, cache: set<Entry>)
      ensures Valid() && Contents() == Boot(fingerprint, cache)
    {
      gens, live, adopts, permit := [Gen(fingerprint, None, cache, 0)], 0, [], None;
      history, installers, captured := [0], [], [];
    }

    /** `events` lead from `start` to here. */
    ghost predicate Led(start: State, events: seq<Event>)
      reads this
    {
      Named(start) && Runs(start, events, Contents()) && history != [] && live == history[|history| - 1] < |gens|
    }

    /** Going on to another phase; the end gives the permit back. */
    method Go(a: nat, p: Phase)
      requires a < |adopts|
      modifies `adopts, `permit
      ensures adopts == old(adopts)[a := p] && permit == if p.Done? then None else old(permit)
    {
      adopts := adopts[a := p];
      if p.Done? { permit := None; }
    }

    /** A new adopt gets the permit. */
    method Enter() returns (a: nat)
      requires Valid() && permit == None
      modifies `adopts, `permit
      ensures Led(old(Contents()), [Submit] + [Acquire(a)])
      ensures a == |old(adopts)| && adopts == old(adopts) + [Deriving] && permit == Some(a)
    {
      ghost var start := Contents();
      a := |adopts|;
      adopts := adopts + [Waiting];
      RunGrows(start, [], start, Submit);
      RunGrows(start, [Submit], Contents(), Acquire(a));
      permit := Some(a);
      Go(a, Deriving);
    }

    /** A step that touches no generation, on the way of `events` from `start`. */
    method Advance(ghost start: State, ghost events: seq<Event>, e: Event)
      requires Led(start, events) && OwnStep(e) && e.a < |adopts| && PhaseAllows(adopts[e.a], e)
      modifies `adopts, `permit
      ensures Led(start, events + [e])
      ensures adopts == old(adopts)[e.a := PhaseAfter(old(adopts[e.a]), e)]
      ensures permit == if PhaseAfter(old(adopts[e.a]), e).Done? then None else old(permit)
    {
      RunGrows(start, events, Contents(), e);
      OwnStepIs(Contents(), e);
      Go(e.a, PhaseAfter(adopts[e.a], e));
    }

    /** A new state is built where the fingerprint differs from the live one. */
    method CompareNext(ghost start: State, ghost events: seq<Event>, a: nat)
      requires Led(start, events) && a < |adopts| && adopts[a].Comparing?
      modifies this
      ensures Led(start, events + [Compare(a)])
      ensures permit == old(permit) && live == old(live)
      ensures var next := old(adopts[a].next);
              if next == old(gens[live].fingerprint) then
                gens == old(gens) && adopts == old(adopts)[a := Persisting(Unchanged)]
              else gens == old(gens) + [Gen(next, None, {}, 0)] && adopts == old(adopts)[a := Warming(|old(gens)|)]
    {
      RunGrows(start, events, Contents(), Compare(a));
      StepKeepsNames(Contents(), Compare(a));
      var next := adopts[a].next;
      if next == gens[live].fingerprint {
        Go(a, Persisting(Unchanged));
      } else {
        Go(a, Warming(|gens|));
        gens := gens + [Gen(next, None, {}, 0)];
      }
    }

    /** Composing fills the new state's caches, even if it fails in the end. */
    method WarmUp(ghost start: State, ghost events: seq<Event>, a: nat, composed: set<Entry>, ok: bool, targets: nat)
      requires Led(start, events) && a < |adopts| && adopts[a].Warming? && adopts[a].gen < |gens|
      modifies this
      ensures Led(start, events + [Warm(a, composed, ok, targets)])
      ensures live == old(live) && permit == if ok then old(permit) else None
      ensures var g := old(adopts[a].gen);
              && adopts == old(adopts)[a := if ok then Verifying(g, targets) else Done(Failed)]
              && gens == Warmed(old(gens), g, composed)
    {
      RunGrows(start, events, Contents(), Warm(a, composed, ok, targets));
      StepKeepsNames(Contents(), Warm(a, composed, ok, targets));
      var g := adopts[a].gen;
      gens := gens[g := gens[g].(cache := gens[g].cache + composed)];
      Go(a, if ok then Verifying(g, targets) else Done(Failed));
    }

    /** The pinned entries are verified one after the other, up to the first that fails. */
    method VerifyAll(ghost start: State, ghost events: seq<Event>, a: nat, verifies: seq<bool>)
        returns (ok: bool, ghost more: seq<Event>)
      requires Led(start, events) && a < |adopts|
      requires adopts[a].Verifying? && adopts[a].targets == |verifies|
      modifies `adopts, `permit
      ensures Led(start, more) && ok == (false !in verifies)
      ensures permit == if ok then old(permit) else None
      ensures adopts == old(adopts)[a := if ok then Verifying(old(adopts[a].gen), 0) else Done(Failed)]
    {
      more := events;
      ghost var was, gen := adopts, adopts[a].gen;
      var i := 0;
      while i < |verifies|
        invariant i <= |verifies| && false !in verifies[..i]
        invariant Led(start, more)
        invariant permit == old(permit) && adopts == was[a := Verifying(gen, |verifies| - i)]
      {
        Advance(start, more, Verify(a, verifies[i]));
        more := more + [Verify(a, verifies[i])];
        if !verifies[i] { return false, more; }
        i := i + 1;
      }
      assert verifies[..i] == verifies;
      ok := true;
    }

    /** `swap`, with its two steps: the reference changes first, then the state it replaced is released. */
    method Swap(ghost start: State, ghost events: seq<Event>, a: nat)
      requires Led(start, events) && a < |adopts| && adopts[a].Verifying? && adopts[a].targets == 0
                && adopts[a].gen < |gens|
      modifies this
      ensures Led(start, events + [Install(a)] + [ReleaseOld(a)])
      ensures live == old(adopts[a].gen) && permit == old(permit)
      ensures adopts == old(adopts)[a := Persisting(Swapped(old(gens[adopts[a].gen].fingerprint)))]
      ensures gens == Installed(old(gens), live, old(live))
    {
      SwapSteps(start, events, Contents(), a, live);
      var next, previous := adopts[a].gen, live;
      var fingerprint := gens[next].fingerprint;
      gens := gens[next := gens[next].(stamp := Some(fingerprint))];
      live, history, installers := next, history + [next], installers + [a];
      if previous != next { gens := gens[previous := Released(gens[previous])]; }
      Go(a, Persisting(Swapped(fingerprint)));
    }

    /** The part before composing: a new adopt ends here or has a new generation to warm up. */
    method Prepare(resolves: bool, built: Option<Fingerprint>) returns (a: nat, ghost events: seq<Event>)
      requires Valid() && permit == None
      modifies this
      ensures Led(old(Contents()), events) && live == old(live) && a == |old(adopts)|
      ensures var warms := resolves && built.Some? && built.value != old(gens[live].fingerprint);
              && permit == (if warms then Some(a) else None)
              && gens == old(gens) + (if warms then [Gen(built.value, None, {}, 0)] else [])
              && adopts == old(adopts) +
                   [if warms then Warming(|old(gens)|) else Done(if resolves && built.Some? then Unchanged else Failed)]
    {
      ghost var start := Contents();
      a := Enter();
      events := [Submit] + [Acquire(a)];
      Advance(start, events, Derive(a, resolves));
      events := events + [Derive(a, resolves)];
      if !resolves { return a, events; }
      var build := Build(a, built.Some?, if built.Some? then built.value else gens[live].fingerprint);
      Advance(start, events, build);
      events := events + [build];
      if built.None? { return a, events; }
      CompareNext(start, events, a);
      events := events + [Compare(a)];
      if adopts[a].Persisting? {
        Advance(start, events, Persist(a));
        events := events + [Persist(a)];
      }
    }

    /** The part from composing on: the new generation is warmed up, verified and installed. */
    method WarmAndInstall(ghost start: State, ghost events: seq<Event>, a: nat, composed: set<Entry>, composes: bool,
                          verifies: seq<bool>)
        returns (ok: bool, ghost more: seq<Event>)
      requires Led(start, events) && a < |adopts|
      requires permit == Some(a) && adopts[a].Warming? && live != adopts[a].gen < |gens|
      modifies this
      ensures Led(start, more) && permit == None
      ensures ok == (composes && false !in verifies)
      ensures live == if ok then old(adopts[a].gen) else old(live)
      ensures var g := old(adopts[a].gen);
              && gens == (var warm := Warmed(old(gens), g, composed);
                          if ok then Installed(warm, g, old(live)) else warm)
              && adopts == old(adopts)[a := Done(if ok then Swapped(old(gens)[g].fingerprint) else Failed)]
    {
      WarmUp(start, events, a, composed, composes, |verifies|);
      more := events + [Warm(a, composed, composes, |verifies|)];
      if !composes { return false, more; }
      ok, more := VerifyAll(start, more, a, verifies);
      if ok {
        Swap(start, more, a);
        more := more + [Install(a)] + [ReleaseOld(a)];
        Advance(start, more, Persist(a));
        more := more + [Persist(a)];
      }
    }

    /** `adoptTransaction` run alone, with the outcomes of its effects given: whether the pointer resolves, what
        is built from it, what composing puts into the caches, and which of the pinned entries verify. */
    method Adopt(resolves: bool, built: Option<Fingerprint>, composed: set<Entry>, composes: bool, verifies: seq<bool>)
        returns (out: Outcome, ghost events: seq<Event>)
      requires Valid() && permit == None
      modifies this
      ensures Valid() && permit == None && Runs(old(Contents()), events, Contents())
      ensures adopts == old(adopts) + [Done(out)]
      ensures out == Unchanged <==> resolves && built == Some(old(gens[live].fingerprint))
      ensures out.Swapped? <==>
                resolves && built.Some? && built.value != old(gens[live].fingerprint) && composes && false !in verifies
      ensures !out.Swapped? ==> live == old(live) && old(gens) <= gens
      ensures out.Swapped? ==>
                && out.fingerprint == built.value && live == |old(gens)| && |gens| == live + 1
                && gens[live] == Gen(built.value, built, composed, 0)
                && gens[old(live)] == Released(old(gens[live]))
                && forall g | 0 <= g < |old(gens)| && g != old(live) :: gens[g] == old(gens[g])
    {
      ghost var start := Contents();
      var a;
      a, events := Prepare(resolves, built);
      if adopts[a].Warming? {
        var installed;
        installed, events := WarmAndInstall(start, events, a, composed, composes, verifies);
      }
      out := adopts[a].outcome;
      RunNamed(start, events, Contents());
    }
  }
}
