/** Funding a gas key in packages/better-near-auth/src/index.ts: a chain of promises for each user and
    network guards a section that reads what was funded, checks the cap, transfers and records. Calls
    interleave at every await, and each awaited operation may fail. */
module FundingLock {
  /** The chain's key: user and network. */
  type Key(==, !new)

  /** What a call can wait for: a promise that is already resolved, the run of a call, or the promise
      derived from that run, which settles without an error. */
  datatype Promise = Resolved | RunOf(call: nat) | TailOf(call: nat)

  datatype Phase =
    | Waiting
    | Looking
    | Reading
    | Checking(total: nat)
    | Sending
    | Recording
    | Stamping
    | Settled(ok: bool)

  /** `tailSettled` says whether the derived promise has settled, `released` whether the `finally` block ran. */
  datatype Call = Call(key: Key, before: Promise, phase: Phase, tailSettled: bool, released: bool)

  datatype Row = Row(key: Key, amount: nat)

  datatype State = State(calls: seq<Call>, locks: map<Key, Promise>, funded: seq<Row>)

  /** The amount of one funding and the cap per user, fixed for each key. */
  datatype Config = Config(amount: Key -> nat, cap: Key -> nat)

  const START: State := State([], map[], [])

  function Total(funded: seq<Row>, key: Key): nat {
    if funded == [] then 0
    else Total(funded[..|funded| - 1], key) + if funded[|funded| - 1].key == key then funded[|funded| - 1].amount else 0
  }

  lemma TotalAfter(funded: seq<Row>, row: Row, key: Key)
    ensures Total(funded + [row], key) == Total(funded, key) + if row.key == key then row.amount else 0
  {
    var f := funded + [row];
    assert f[..|f| - 1] == funded;
  }

  // ---------------------------------------------------------------- steps

  datatype Action =
    | Arrive(key: Key)
    | Begin(call: nat)
    | Look(call: nat, ok: bool)
    | Read(call: nat, ok: bool)
    | CheckCap(call: nat)
    | Send(call: nat, ok: bool)
    | Record(call: nat, ok: bool)
    | Stamp(call: nat, ok: bool)
    | SettleTail(call: nat)
    | Release(call: nat)

  predicate PromiseSettled(s: State, p: Promise) {
    match p
    case Resolved => true
    case RunOf(c) => c < |s.calls| && s.calls[c].phase.Settled?
    case TailOf(c) => c < |s.calls| && s.calls[c].tailSettled
  }

  predicate PhaseAllows(phase: Phase, a: Action) {
    match a
    case Arrive(_) => true
    case Begin(_) => phase.Waiting?
    case Look(_, _) => phase.Looking?
    case Read(_, _) => phase.Reading?
    case CheckCap(_) => phase.Checking?
    case Send(_, _) => phase.Sending?
    case Record(_, _) => phase.Recording?
    case Stamp(_, _) => phase.Stamping?
    case SettleTail(_) => phase.Settled?
    case Release(_) => phase.Settled?
  }

  predicate Enabled(s: State, a: Action) {
    if a.Arrive? then true
    else
      && a.call < |s.calls| && PhaseAllows(s.calls[a.call].phase, a)
      && (a.Begin? ==> PromiseSettled(s, s.calls[a.call].before))
      && (a.SettleTail? ==> !s.calls[a.call].tailSettled)
      && (a.Release? ==> !s.calls[a.call].released)
  }

  /** The phase after a step inside the section. */
  function PhaseAfter(cfg: Config, s: State, c: nat, a: Action): Phase
    requires c < |s.calls| && PhaseAllows(s.calls[c].phase, a)
  {
    var call := s.calls[c];
    match a
    case Arrive(_) => call.phase
    case Begin(_) => Looking
    case Look(_, ok) => if ok then Reading else Settled(false)
    case Read(_, ok) => if ok then Checking(Total(s.funded, call.key)) else Settled(false)
    case CheckCap(_) =>
      if call.phase.total + cfg.amount(call.key) > cfg.cap(call.key) then Settled(false) else Sending
    case Send(_, ok) => if ok then Recording else Settled(false)
    case Record(_, ok) => if ok then Stamping else Settled(false)
    case Stamp(_, ok) => Settled(ok)
    case SettleTail(_) => call.phase
    case Release(_) => call.phase
  }

  function CallAfter(cfg: Config, s: State, c: nat, a: Action): Call
    requires c < |s.calls| && PhaseAllows(s.calls[c].phase, a)
  {
    s.calls[c].(phase := PhaseAfter(cfg, s, c, a),
                tailSettled := s.calls[c].tailSettled || a.SettleTail?,
                released := s.calls[c].released || a.Release?)
  }

  function PendingFor(s: State, key: Key): Promise {
    if key in s.locks then s.locks[key] else Resolved
  }

  function Apply(cfg: Config, s: State, a: Action): State
    requires Enabled(s, a)
  {
    if a.Arrive? then
      State(s.calls + [Call(a.key, PendingFor(s, a.key), Waiting, false, false)],
            s.locks[a.key := TailOf(|s.calls|)], s.funded)
    else
      var c, call := a.call, s.calls[a.call];
      State(s.calls[c := CallAfter(cfg, s, c, a)],
            if a.Release? && PendingFor(s, call.key) == RunOf(c) then s.locks - {call.key} else s.locks,
            if a.Record? && a.ok then s.funded + [Row(call.key, cfg.amount(call.key))] else s.funded)
  }

  // ---------------------------------------------------------------- what every step keeps

  predicate Started(call: Call) {
    !call.phase.Waiting?
  }

  /** Inside the section. */
  predicate Running(call: Call) {
    Started(call) && !call.phase.Settled?
  }

  predicate NoneBetween(calls: seq<Call>, key: Key, lo: int, hi: int) {
    forall i | 0 <= i < |calls| && lo < i < hi :: calls[i].key != key
  }

  /** `p` is the promise of the last call with this key before position `hi`. */
  predicate PromiseOfLast(calls: seq<Call>, key: Key, hi: nat, p: Promise) {
    match p
    case Resolved => NoneBetween(calls, key, -1, hi)
    case RunOf(_) => false
    case TailOf(c) => c < hi && c < |calls| && calls[c].key == key && NoneBetween(calls, key, c, hi)
  }

  predicate ChainedCall(calls: seq<Call>, c: nat)
    requires c < |calls|
  {
    PromiseOfLast(calls, calls[c].key, c, calls[c].before)
  }

  ghost predicate Chained(s: State) {
    && (forall c: nat | c < |s.calls| :: ChainedCall(s.calls, c))
    && (forall k :: PromiseOfLast(s.calls, k, |s.calls|, PendingFor(s, k)))
    && (forall c: nat | c < |s.calls| && s.calls[c].tailSettled :: s.calls[c].phase.Settled?)
  }

  /** A call starts only after every earlier one with its key has settled. */
  predicate InTurn(s: State) {
    forall c, d | 0 <= c < d < |s.calls| && s.calls[c].key == s.calls[d].key && Started(s.calls[d]) ::
      s.calls[c].phase.Settled?
  }

  predicate Funds(cfg: Config, s: State, call: Call) {
    && (call.phase.Checking? ==> call.phase.total == Total(s.funded, call.key))
    && (call.phase.Sending? || call.phase.Recording? ==>
        Total(s.funded, call.key) + cfg.amount(call.key) <= cfg.cap(call.key))
  }

  predicate CallFunds(cfg: Config, s: State, c: nat)
    requires c < |s.calls|
  {
    Funds(cfg, s, s.calls[c])
  }

  ghost predicate WithinCap(cfg: Config, s: State) {
    && (forall k :: Total(s.funded, k) <= cfg.cap(k))
    && (forall c: nat | c < |s.calls| :: CallFunds(cfg, s, c))
  }

  ghost predicate Good(cfg: Config, s: State) {
    Chained(s) && InTurn(s) && WithinCap(cfg, s)
  }

  lemma ArriveKeepsChain(cfg: Config, s: State, key: Key)
    requires Chained(s)
    ensures Chained(Apply(cfg, s, Arrive(key)))
  {
    var t := Apply(cfg, s, Arrive(key));
    forall c: nat | c < |t.calls| ensures ChainedCall(t.calls, c) {
      if c < |s.calls| { assert ChainedCall(s.calls, c); }
    }
    forall k ensures PromiseOfLast(t.calls, k, |t.calls|, PendingFor(t, k)) {
      assert PromiseOfLast(s.calls, k, |s.calls|, PendingFor(s, k));
    }
  }

  lemma SameLast(calls: seq<Call>, calls': seq<Call>, key: Key, hi: nat, p: Promise)
    requires PromiseOfLast(calls, key, hi, p)
    requires |calls'| == |calls| && forall i | 0 <= i < |calls| :: calls'[i].key == calls[i].key
    ensures PromiseOfLast(calls', key, hi, p)
  {
  }

  lemma WorkKeepsChain(cfg: Config, s: State, a: Action)
    requires Chained(s) && Enabled(s, a) && !a.Arrive?
    ensures Chained(Apply(cfg, s, a)) && Apply(cfg, s, a).locks == s.locks
  {
    var t, k := Apply(cfg, s, a), s.calls[a.call].key;
    assert PromiseOfLast(s.calls, k, |s.calls|, PendingFor(s, k));
    assert t.locks == s.locks;
    forall c: nat | c < |t.calls| ensures ChainedCall(t.calls, c) {
      assert ChainedCall(s.calls, c);
      SameLast(s.calls, t.calls, s.calls[c].key, c, s.calls[c].before);
    }
    forall x ensures PromiseOfLast(t.calls, x, |t.calls|, PendingFor(t, x)) {
      SameLast(s.calls, t.calls, x, |s.calls|, PendingFor(s, x));
    }
  }

  /** The promise a call waits for stands for all earlier calls with its key. */
  lemma WaitIsEnough(s: State, c: nat, d: nat)
    requires Chained(s) && InTurn(s) && c < d < |s.calls| && s.calls[c].key == s.calls[d].key
    requires PromiseSettled(s, s.calls[d].before)
    ensures s.calls[c].phase.Settled?
  {
    assert ChainedCall(s.calls, d);
  }

  lemma StepKeepsTurn(cfg: Config, s: State, a: Action)
    requires Chained(s) && InTurn(s) && Enabled(s, a)
    ensures InTurn(Apply(cfg, s, a))
  {
    var t := Apply(cfg, s, a);
    forall c, d | 0 <= c < d < |t.calls| && t.calls[c].key == t.calls[d].key && Started(t.calls[d])
      ensures t.calls[c].phase.Settled?
    {
      if a.Begin? && a.call == d { WaitIsEnough(s, c, d); }
    }
  }

  lemma StepKeepsFunds(cfg: Config, s: State, a: Action)
    requires InTurn(s) && WithinCap(cfg, s) && Enabled(s, a)
    ensures WithinCap(cfg, Apply(cfg, s, a))
  {
    var t := Apply(cfg, s, a);
    if a.Record? && a.ok {
      var key := s.calls[a.call].key;
      var row := Row(key, cfg.amount(key));
      assert CallFunds(cfg, s, a.call);
      forall k ensures Total(t.funded, k) <= cfg.cap(k) { TotalAfter(s.funded, row, k); }
      forall c: nat | c < |t.calls| ensures CallFunds(cfg, t, c) {
        assert CallFunds(cfg, s, c);
        TotalAfter(s.funded, row, s.calls[c].key);
        assert c != a.call && Running(s.calls[c]) ==> s.calls[c].key != key;
      }
    } else {
      forall c: nat | c < |t.calls| ensures CallFunds(cfg, t, c) {
        assert c < |s.calls| ==> CallFunds(cfg, s, c);
      }
    }
  }

  lemma StepKeeps(cfg: Config, s: State, a: Action)
    requires Good(cfg, s) && Enabled(s, a)
    ensures Good(cfg, Apply(cfg, s, a))
  {
    if a.Arrive? { ArriveKeepsChain(cfg, s, a.key); } else { WorkKeepsChain(cfg, s, a); }
    StepKeepsTurn(cfg, s, a);
    StepKeepsFunds(cfg, s, a);
  }

  // ---------------------------------------------------------------- runs

  ghost predicate Runs(cfg: Config, s: State, actions: seq<Action>, t: State)
    decreases |actions|
  {
    if actions == [] then s == t
    else Enabled(s, actions[0]) && Runs(cfg, Apply(cfg, s, actions[0]), actions[1..], t)
  }

  lemma {:induction false} RunKeeps(cfg: Config, s: State, actions: seq<Action>, t: State)
    requires Good(cfg, s) && Runs(cfg, s, actions, t)
    ensures Good(cfg, t)
    decreases |actions|
  {
    if actions != [] {
      StepKeeps(cfg, s, actions[0]);
      RunKeeps(cfg, Apply(cfg, s, actions[0]), actions[1..], t);
    }
  }

  /** Whatever interleaves and fails, at most one section per key runs at a time, calls start in the order
      they arrived, and the recorded total stays within the cap. */
  lemma OneAtATimeWithinCap(cfg: Config, actions: seq<Action>, t: State, k: Key)
    requires Runs(cfg, START, actions, t)
    ensures forall c, d | 0 <= c < |t.calls| && 0 <= d < |t.calls| && t.calls[c].key == t.calls[d].key
                          && Running(t.calls[c]) && Running(t.calls[d]) :: c == d
    ensures forall c, d | 0 <= c < d < |t.calls| && t.calls[c].key == t.calls[d].key && Started(t.calls[d]) ::
              t.calls[c].phase.Settled?
    ensures Total(t.funded, k) <= cfg.cap(k)
  {
    RunKeeps(cfg, START, actions, t);
  }

  /** What the info endpoint reports as remaining; a failed read counts as nothing funded. */
  function CapRemaining(cfg: Config, s: State, k: Key, readOk: bool): int {
    cfg.cap(k) - if readOk then Total(s.funded, k) else 0
  }

  lemma RemainingNeverNegative(cfg: Config, actions: seq<Action>, t: State, k: Key, readOk: bool)
    requires Runs(cfg, START, actions, t)
    ensures 0 <= CapRemaining(cfg, t, k, readOk) <= cfg.cap(k)
  {
    OneAtATimeWithinCap(cfg, actions, t, k);
  }

  /** No entry ever leaves the lock map: what is stored is a derived promise, what `finally` compares
      with is the run itself. */
  lemma LocksStay(cfg: Config, s: State, a: Action)
    requires Good(cfg, s) && Enabled(s, a)
    ensures s.locks.Keys <= Apply(cfg, s, a).locks.Keys
  {
    if !a.Arrive? { WorkKeepsChain(cfg, s, a); }
  }

  /** No chain ever blocks: of the calls for one user and network that have not settled, the earliest can take
      a step, or the tail it waits for can settle, whatever the calls for others are waiting for. */
  lemma NeverStuck(cfg: Config, s: State, c: nat)
    requires Good(cfg, s) && c < |s.calls| && !s.calls[c].phase.Settled?
    requires forall b | 0 <= b < c && s.calls[b].key == s.calls[c].key :: s.calls[b].phase.Settled?
    ensures exists a :: Enabled(s, a) && !a.Arrive?
              && (a.call == c || (a.SettleTail? && TailOf(a.call) == s.calls[c].before))
  {
    var call := s.calls[c];
    assert ChainedCall(s.calls, c);
    if call.phase.Waiting? {
      if PromiseSettled(s, call.before) { assert Enabled(s, Begin(c)); }
      else { assert Enabled(s, SettleTail(call.before.call)); }
    } else {
      var a := match call.phase
        case Looking => Look(c, true)
        case Reading => Read(c, true)
        case Checking(_) => CheckCap(c)
        case Sending => Send(c, true)
        case Recording => Record(c, true)
        case _ => Stamp(c, true);
      assert Enabled(s, a);
    }
  }

  // ---------------------------------------------------------------- the plugin's state

  /** The map of locks and the funding table, with the calls in flight. Each method runs one stretch of a
      call between two awaits. */
  class Funding {
    const cfg: Config
    var calls: seq<Call>
    var locks: map<Key, Promise>
    var funded: seq<Row>

    ghost function Contents(): State
      reads this
    {
      State(calls, locks, funded)
    }

    constructor (cfg: Config)
      ensures this.cfg == cfg && Contents() == START
    {
      this.cfg, calls, locks, funded := cfg, [], map[], [];
    }

    /** `withGasKeyFundLock` up to its `await`. */
    method Enter(key: Key) returns (call: nat)
      modifies this
      ensures call == |old(calls)| && Contents() == Apply(cfg, old(Contents()), Arrive(key))
    {
      var pending := if key in locks then locks[key] else Resolved;
      call := |calls|;
      calls := calls + [Call(key, pending, Waiting, false, false)];
      locks := locks[key := TailOf(call)];
    }

    method Advance(a: Action)
      requires Enabled(Contents(), a) && !a.Arrive? && !a.Record? && !a.Release?
      modifies `calls
      ensures Contents() == Apply(cfg, old(Contents()), a)
    {
      var s := State(calls, locks, funded);
      calls := calls[a.call := CallAfter(cfg, s, a.call, a)];
    }

    /** The cap check, on the total read before. */
    method CheckCapOf(call: nat) returns (ok: bool)
      requires Enabled(Contents(), CheckCap(call))
      modifies `calls
      ensures call < |calls| && (ok <==> calls[call].phase == Sending)
      ensures Contents() == Apply(cfg, old(Contents()), CheckCap(call))
    {
      var key, total := calls[call].key, calls[call].phase.total;
      ok := total + cfg.amount(key) <= cfg.cap(key);
      calls := calls[call := calls[call].(phase := if ok then Sending else Settled(false))];
    }

    /** Recording what was transferred; the table may refuse. */
    method RecordFunding(call: nat, ok: bool)
      requires Enabled(Contents(), Record(call, ok))
      modifies this
      ensures Contents() == Apply(cfg, old(Contents()), Record(call, ok))
    {
      var key := calls[call].key;
      if ok { funded := funded + [Row(key, cfg.amount(key))]; }
      calls := calls[call := calls[call].(phase := if ok then Stamping else Settled(false))];
    }

    /** The `finally` block. */
    method Leave(call: nat)
      requires Enabled(Contents(), Release(call))
      modifies this
      ensures Contents() == Apply(cfg, old(Contents()), Release(call))
    {
      var key := calls[call].key;
      if key in locks && locks[key] == RunOf(call) { locks := locks - {key}; }
      calls := calls[call := calls[call].(released := true)];
    }
  }
}
