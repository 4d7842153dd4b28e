/** The watch loop of host/src/services/snapshot-watch.ts. Fetching the pointer, adopting it and verifying
    entries are outcomes given to each tick. A tick reads `lastSeen` when it begins and writes it when it ends;
    others may end in between. */
module SnapshotWatch {
  import opened Wrappers

  type Fingerprint(==, !new)

  datatype TickOutcome = Clean | Swapped | SwapFailed | PointerUnreachable

  /** What a tick meets: the pointer's fingerprint if one could be fetched, and whether adopting it would
      succeed. Ticks can also be asked for from outside the loop. They are listed in the order in which they end;
      `began` is how many had ended when this one began. */
  datatype Tick = Tick(pointer: Option<Fingerprint>, adoptOk: bool, byLoop: bool, began: nat)

  datatype State = State(lastSeen: Option<Fingerprint>, lastOutcome: Option<TickOutcome>, failures: nat)

  const START: State := State(None, None, 0)

  // ---------------------------------------------------------------- back-off

  const ADOPT_BACKOFF_CAP_MS: real := 300000.0

  function Pow2(n: nat): (p: nat)
    ensures p >= 1
  {
    if n == 0 then 1 else 2 * Pow2(n - 1)
  }

  function Min(a: real, b: real): real {
    if a <= b then a else b
  }

  function AdoptBackoffMs(interval: real, failures: int): real {
    if failures <= 0 then interval else Min(interval * Pow2(failures - 1) as real, ADOPT_BACKOFF_CAP_MS)
  }

  /** Never shorter than the interval, never longer than the cap, and no shorter after one more failure. */
  predicate Steady(interval: real, failures: nat) {
    && interval <= AdoptBackoffMs(interval, failures) <= ADOPT_BACKOFF_CAP_MS
    && AdoptBackoffMs(interval, failures) <= AdoptBackoffMs(interval, failures + 1)
  }

  lemma Doubled(interval: real, n: nat)
    requires interval >= 0.0
    ensures interval <= interval * Pow2(n) as real <= interval * Pow2(n + 1) as real
  {
    var p := Pow2(n) as real;
    assert Pow2(n + 1) as real == 2.0 * p;
    assert interval * (p - 1.0) >= 0.0;
    assert interval * (2.0 * p) == interval * p + interval * p;
  }

  /** The delay is steady precisely for intervals within the cap; beyond it, the first failure shortens the wait. */
  lemma SteadyExactly(interval: real)
    requires interval >= 0.0
    ensures (forall n: nat :: Steady(interval, n)) <==> interval <= ADOPT_BACKOFF_CAP_MS
    ensures AdoptBackoffMs(interval, 1) < AdoptBackoffMs(interval, 0) <==> interval > ADOPT_BACKOFF_CAP_MS
  {
    if interval <= ADOPT_BACKOFF_CAP_MS {
      forall n: nat ensures Steady(interval, n) {
        if n > 0 { Doubled(interval, n - 1); } else { assert Pow2(0) == 1; }
      }
    } else {
      assert AdoptBackoffMs(interval, 0) == interval;
      assert !Steady(interval, 0);
    }
  }

  lemma TwiceCapped(d: real, e: real)
    requires d >= 0.0 && e == 2.0 * d
    ensures Min(e, ADOPT_BACKOFF_CAP_MS) == Min(2.0 * Min(d, ADOPT_BACKOFF_CAP_MS), ADOPT_BACKOFF_CAP_MS)
  {
  }

  lemma NextProduct(interval: real, n: nat)
    requires interval >= 0.0
    ensures interval * Pow2(n + 1) as real == 2.0 * (interval * Pow2(n) as real)
    ensures interval * Pow2(n) as real >= 0.0
  {
    Doubled(interval, n);
    var p := Pow2(n) as real;
    assert Pow2(n + 1) as real == p + p;
    assert interval * (p + p) == interval * p + interval * p;
  }

  /** The first failure keeps the interval and every further one doubles the delay, both up to the cap. */
  lemma {:induction false} BackoffDoubles(interval: real, failures: nat)
    requires interval >= 0.0
    ensures AdoptBackoffMs(interval, 1) == Min(interval, ADOPT_BACKOFF_CAP_MS)
    ensures failures >= 1 ==>
              AdoptBackoffMs(interval, failures + 1) ==
                  Min(2.0 * AdoptBackoffMs(interval, failures), ADOPT_BACKOFF_CAP_MS)
  {
    assert Pow2(0) == 1;
    if failures >= 1 {
      NextProduct(interval, failures - 1);
      TwiceCapped(interval * Pow2(failures - 1) as real, interval * Pow2(failures) as real);
    }
  }

  /** With an interval of at least a millisecond the cap is reached by the twentieth failure. */
  lemma {:induction false} CapReached(interval: real, failures: nat)
    requires interval >= 1.0 && failures >= 20
    ensures AdoptBackoffMs(interval, failures) == ADOPT_BACKOFF_CAP_MS
  {
    Pow2AtLeast(failures - 1);
    var p := Pow2(failures - 1) as real;
    assert (interval - 1.0) * p >= 0.0;
    assert interval * p == (interval - 1.0) * p + p;
  }

  lemma {:induction false} Pow2AtLeast(n: nat)
    requires n >= 19
    ensures Pow2(n) >= 524288
  {
    if n == 19 {
      assert Pow2(4) == 16;
      assert Pow2(8) == 16 * Pow2(4);
      assert Pow2(12) == 16 * Pow2(8);
      assert Pow2(16) == 16 * Pow2(12);
    } else {
      Pow2AtLeast(n - 1);
    }
  }

  // ---------------------------------------------------------------- ticks

  /** `captured` is what `lastSeen` was when the tick began. */
  predicate Attempts(captured: Option<Fingerprint>, t: Tick) {
    t.pointer.Some? && t.pointer != captured
  }

  function OutcomeOf(captured: Option<Fingerprint>, t: Tick): TickOutcome {
    if t.pointer.None? then PointerUnreachable
    else if !Attempts(captured, t) then Clean
    else if t.adoptOk then Swapped
    else SwapFailed
  }

  function FailuresAfter(failures: nat, out: TickOutcome): nat {
    match out
    case SwapFailed => failures + 1
    case PointerUnreachable => failures
    case _ => 0
  }

  /** The end of a tick: without an adopt it writes back what it captured. */
  function Ticked(s: State, captured: Option<Fingerprint>, t: Tick): State {
    var out := OutcomeOf(captured, t);
    State(if out == Swapped then t.pointer else captured, Some(out),
          if t.byLoop then FailuresAfter(s.failures, out) else s.failures)
  }

  class Watch {
    var lastSeen: Option<Fingerprint>
    var lastOutcome: Option<TickOutcome>
    var consecutiveAdoptFailures: nat

    ghost function Contents(): State
      reads this
    {
      State(lastSeen, lastOutcome, consecutiveAdoptFailures)
    }

    constructor ()
      ensures Contents() == START
    {
      lastSeen, lastOutcome, consecutiveAdoptFailures := None, None, 0;
    }

    /** `tick`, from its last await on: the rest of `runWatchTick` and the two variables it updates. */
    method RunTick(captured: Option<Fingerprint>, t: Tick) returns (out: TickOutcome)
      requires !t.byLoop
      modifies this
      ensures Contents() == Ticked(old(Contents()), captured, t)
      ensures lastOutcome == Some(out)
    {
      lastSeen := captured;
      if t.pointer.None? {
        out := PointerUnreachable;
      } else if t.pointer != captured {
        out := if t.adoptOk then Swapped else SwapFailed;
        if t.adoptOk { lastSeen := t.pointer; }
      } else {
        out := Clean;
      }
      lastOutcome := Some(out);
    }

    /** One turn of the loop, and how long it slept before it; only the loop itself changes the counter. */
    method Turn(interval: real, captured: Option<Fingerprint>, t: Tick) returns (slept: real)
      requires t.byLoop
      modifies this
      ensures slept == AdoptBackoffMs(interval, old(consecutiveAdoptFailures))
      ensures Contents() == Ticked(old(Contents()), captured, t)
    {
      slept := AdoptBackoffMs(interval, consecutiveAdoptFailures);
      var out := RunTick(captured, t.(byLoop := false));
      if out == SwapFailed {
        consecutiveAdoptFailures := consecutiveAdoptFailures + 1;
      } else if out == Clean || out == Swapped {
        consecutiveAdoptFailures := 0;
      }
    }
  }

  // ---------------------------------------------------------------- runs

  /** How many ticks had ended when tick `i` began: not more than when it ended. */
  function BeganAt(ticks: seq<Tick>, i: nat): (b: nat)
    requires i < |ticks|
    ensures b <= i
  {
    if ticks[i].began <= i then ticks[i].began else i
  }

  /** The state after `n` ticks have ended. */
  function After(ticks: seq<Tick>, n: nat): State
    requires n <= |ticks|
    decreases n
  {
    if n == 0 then START
    else Ticked(After(ticks, n - 1), After(ticks, BeganAt(ticks, n - 1)).lastSeen, ticks[n - 1])
  }

  function CapturedAt(ticks: seq<Tick>, i: nat): Option<Fingerprint>
    requires i < |ticks|
  {
    After(ticks, BeganAt(ticks, i)).lastSeen
  }

  function OutcomeAt(ticks: seq<Tick>, i: nat): TickOutcome
    requires i < |ticks|
  {
    OutcomeOf(CapturedAt(ticks, i), ticks[i])
  }

  predicate AdoptedAt(ticks: seq<Tick>, i: nat)
    requires i < |ticks|
  {
    OutcomeAt(ticks, i) == Swapped
  }

  /** The fingerprint of the last pointer whose adopt succeeded, if one has. */
  function LastAdopted(ticks: seq<Tick>, n: nat): Option<Fingerprint>
    requires n <= |ticks|
    decreases n
  {
    if n == 0 then None
    else if AdoptedAt(ticks, n - 1) then ticks[n - 1].pointer
    else LastAdopted(ticks, n - 1)
  }

  predicate SeesLast(ticks: seq<Tick>, n: nat)
    requires n <= |ticks|
  {
    After(ticks, n).lastSeen == LastAdopted(ticks, n)
  }

  /** Unless the tick adopts, the pointer adopted last is the same when it ends as when it began. */
  predicate Undisturbed(ticks: seq<Tick>, i: nat)
    requires i < |ticks|
  {
    AdoptedAt(ticks, i) || LastAdopted(ticks, BeganAt(ticks, i)) == LastAdopted(ticks, i)
  }

  lemma {:induction false} UndisturbedSees(ticks: seq<Tick>, n: nat)
    requires n <= |ticks| && forall i | 0 <= i < n :: Undisturbed(ticks, i)
    ensures SeesLast(ticks, n)
    decreases n
  {
    if n > 0 {
      UndisturbedSees(ticks, BeganAt(ticks, n - 1));
      assert Undisturbed(ticks, n - 1);
    }
  }

  /** `lastSeen` is always the fingerprint of the last pointer whose adopt succeeded, unset until one has,
      exactly if every tick that adopts nothing was undisturbed. */
  lemma LastSeenIsLastAdopted(ticks: seq<Tick>)
    ensures (forall n | 0 <= n <= |ticks| :: SeesLast(ticks, n)) <==>
              (forall i | 0 <= i < |ticks| :: Undisturbed(ticks, i))
  {
    if forall i | 0 <= i < |ticks| :: Undisturbed(ticks, i) {
      forall n | 0 <= n <= |ticks| ensures SeesLast(ticks, n) { UndisturbedSees(ticks, n); }
    }
    if forall n | 0 <= n <= |ticks| :: SeesLast(ticks, n) {
      forall i | 0 <= i < |ticks| ensures Undisturbed(ticks, i) {
        assert SeesLast(ticks, i + 1) && SeesLast(ticks, BeganAt(ticks, i));
      }
    }
  }

  /** Ticks that come one after the other are undisturbed. */
  lemma OneAfterTheOther(ticks: seq<Tick>, n: nat)
    requires n <= |ticks| && forall i | 0 <= i < n :: BeganAt(ticks, i) == i
    ensures SeesLast(ticks, n)
  {
    UndisturbedSees(ticks, n);
  }

  /** A tick that ends without an adopt makes `lastSeen` forget a pointer that another tick adopted meanwhile. */
  lemma OverlapForgets(ticks: seq<Tick>, f: Fingerprint)
    requires ticks == [Tick(Some(f), true, false, 0), Tick(None, true, true, 0)]
    ensures LastAdopted(ticks, 2) == Some(f) && After(ticks, 2).lastSeen == None
  {
    assert After(ticks, 0) == START && BeganAt(ticks, 0) == BeganAt(ticks, 1) == 0;
    assert AdoptedAt(ticks, 0) && !AdoptedAt(ticks, 1);
    assert LastAdopted(ticks, 1) == Some(f);
  }

  predicate AdoptedBefore(ticks: seq<Tick>, f: Option<Fingerprint>, n: nat)
    requires n <= |ticks|
  {
    exists k | 0 <= k < n :: AdoptedAt(ticks, k) && ticks[k].pointer == f
  }

  /** Whatever overlaps, `lastSeen` is unset or a fingerprint that was adopted at some time. */
  lemma {:induction false} LastSeenWasAdopted(ticks: seq<Tick>, n: nat)
    requires n <= |ticks|
    ensures After(ticks, n).lastSeen == None || AdoptedBefore(ticks, After(ticks, n).lastSeen, n)
    decreases n
  {
    if n > 0 {
      var b := BeganAt(ticks, n - 1);
      LastSeenWasAdopted(ticks, b);
      if AdoptedAt(ticks, n - 1) {
        assert After(ticks, n).lastSeen == ticks[n - 1].pointer;
      } else if CapturedAt(ticks, n - 1) != None {
        var k :| 0 <= k < b && AdoptedAt(ticks, k) && ticks[k].pointer == CapturedAt(ticks, n - 1);
      }
    }
  }

  /** Some tick in between adopted this very pointer. */
  predicate AdoptsBetween(ticks: seq<Tick>, f: Option<Fingerprint>, from: nat, to: nat)
    requires to <= |ticks|
  {
    exists k | from <= k < to :: AdoptedAt(ticks, k) && ticks[k].pointer == f
  }

  lemma {:induction false} NotLastAdopted(ticks: seq<Tick>, f: Option<Fingerprint>, lo: nat, hi: nat)
    requires lo <= hi <= |ticks| && LastAdopted(ticks, lo) != f && !AdoptsBetween(ticks, f, lo, hi)
    ensures LastAdopted(ticks, hi) != f
    decreases hi
  {
    if lo < hi { NotLastAdopted(ticks, f, lo, hi - 1); }
  }

  /** A failing pointer is retried: a tick that begins later and meets it again attempts it again, unless it has
      been adopted since. */
  lemma FailingPointerIsRetried(ticks: seq<Tick>, i: nat, j: nat)
    requires j < |ticks| && i < BeganAt(ticks, j) && OutcomeAt(ticks, i) == SwapFailed
    requires forall k | 0 <= k < BeganAt(ticks, j) :: Undisturbed(ticks, k)
    requires ticks[j].pointer == ticks[i].pointer && !AdoptsBetween(ticks, ticks[i].pointer, i, BeganAt(ticks, j))
    ensures Attempts(CapturedAt(ticks, j), ticks[j])
    ensures OutcomeAt(ticks, j) == if ticks[j].adoptOk then Swapped else SwapFailed
  {
    assert Undisturbed(ticks, i);
    UndisturbedSees(ticks, BeganAt(ticks, i));
    NotLastAdopted(ticks, ticks[i].pointer, i, BeganAt(ticks, j));
    UndisturbedSees(ticks, BeganAt(ticks, j));
  }

  predicate NoneAdopted(ticks: seq<Tick>, from: nat, to: nat)
    requires to <= |ticks|
  {
    forall k | from <= k < to :: !AdoptedAt(ticks, k)
  }

  lemma {:induction false} StaysLastAdopted(ticks: seq<Tick>, lo: nat, hi: nat)
    requires lo <= hi <= |ticks| && NoneAdopted(ticks, lo, hi)
    ensures LastAdopted(ticks, hi) == LastAdopted(ticks, lo)
    decreases hi
  {
    if lo < hi { StaysLastAdopted(ticks, lo, hi - 1); }
  }

  /** An adopted pointer is not attempted again by ticks that begin later, until some other one has been
      adopted. */
  lemma AdoptedIsNotRepeated(ticks: seq<Tick>, i: nat, j: nat)
    requires j < |ticks| && i < BeganAt(ticks, j) && AdoptedAt(ticks, i) && NoneAdopted(ticks, i + 1, BeganAt(ticks, j))
    requires forall k | 0 <= k < BeganAt(ticks, j) :: Undisturbed(ticks, k)
    requires ticks[j].pointer == ticks[i].pointer
    ensures OutcomeAt(ticks, j) == Clean
  {
    StaysLastAdopted(ticks, i + 1, BeganAt(ticks, j));
    UndisturbedSees(ticks, BeganAt(ticks, j));
  }

  predicate Resets(ticks: seq<Tick>, i: nat)
    requires i < |ticks|
  {
    ticks[i].byLoop && (OutcomeAt(ticks, i) == Clean || OutcomeAt(ticks, i) == Swapped)
  }

  predicate FailsInLoop(ticks: seq<Tick>, i: nat)
    requires i < |ticks|
  {
    ticks[i].byLoop && OutcomeAt(ticks, i) == SwapFailed
  }

  /** How many of the loop's ticks from `start` up to `end` failed to adopt. */
  function FailedInLoop(ticks: seq<Tick>, start: nat, end: nat): nat
    requires start <= end <= |ticks|
    decreases end
  {
    if start == end then 0
    else if FailsInLoop(ticks, end - 1) then FailedInLoop(ticks, start, end - 1) + 1
    else FailedInLoop(ticks, start, end - 1)
  }

  /** Whatever overlaps, the counter is the number of failed adopts of the loop since its last clean or swapped
      tick, which tick `start - 1` is if there has been one. Unreachable pointers do not count and do not reset. */
  lemma {:induction false} CounterCounts(ticks: seq<Tick>, start: nat, n: nat)
    requires start <= n <= |ticks|
    requires start == 0 || Resets(ticks, start - 1)
    requires forall i | start <= i < n :: !Resets(ticks, i)
    ensures After(ticks, n).failures == FailedInLoop(ticks, start, n)
    decreases n
  {
    if start < n {
      CounterCounts(ticks, start, n - 1);
      assert !Resets(ticks, n - 1);
    }
  }
}
