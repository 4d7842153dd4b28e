/** The rate limiter's store in host/src/middleware/security.ts: an insertion-ordered map of
    windows with a size cap. The clock readings are arguments. */
module CappedStore {
  import opened Collections
  import opened Wrappers

  type Key(==, !new)

  datatype Entry = Entry(key: Key, totalHits: nat, resetTime: int)

  // ---------------------------------------------------------------- the map as a sequence

  predicate UniqueKeys(hits: seq<Entry>) {
    forall i, j | 0 <= i < j < |hits| :: hits[i].key != hits[j].key
  }

  predicate OldestFirst(hits: seq<Entry>) {
    forall i, j | 0 <= i < j < |hits| :: hits[i].resetTime <= hits[j].resetTime
  }

  /** Where a key stands; the length of the sequence if it is absent. */
  function IndexOf(hits: seq<Entry>, key: Key): (i: nat)
    ensures i <= |hits|
    ensures i < |hits| ==> hits[i].key == key
    ensures forall j | 0 <= j < i :: hits[j].key != key
  {
    if hits == [] || hits[0].key == key then 0 else 1 + IndexOf(hits[1..], key)
  }

  predicate Has(hits: seq<Entry>, key: Key) {
    IndexOf(hits, key) < |hits|
  }

  /** `map.get(key)` */
  function Lookup(hits: seq<Entry>, key: Key): Option<Entry> {
    if Has(hits, key) then Some(hits[IndexOf(hits, key)]) else None
  }

  /** `map.delete(key)` */
  function Remove(hits: seq<Entry>, key: Key): seq<Entry> {
    if Has(hits, key) then WithoutAt(hits, IndexOf(hits, key)) else hits
  }

  /** `entry.totalHits = n` on the entry the map holds. */
  function Recount(hits: seq<Entry>, key: Key, n: nat): (r: seq<Entry>)
    ensures |r| == |hits|
    ensures forall i | 0 <= i < |hits| :: r[i] == if hits[i].key == key then hits[i].(totalHits := n) else hits[i]
  {
    seq(|hits|, i requires 0 <= i < |hits| => if hits[i].key == key then hits[i].(totalHits := n) else hits[i])
  }

  // ---------------------------------------------------------------- one increment

  predicate Live(hits: seq<Entry>, key: Key, now: int) {
    Lookup(hits, key).Some? && Lookup(hits, key).value.resetTime > now
  }

  function Restarted(hits: seq<Entry>, key: Key, now: int, window: nat): seq<Entry> {
    Remove(hits, key) + [Entry(key, 1, now + window)]
  }

  /** Only the oldest windows go, as many as do not fit. */
  function Trimmed(hits: seq<Entry>, cap: nat): seq<Entry> {
    if |hits| <= cap then hits else hits[|hits| - cap..]
  }

  function Incremented(hits: seq<Entry>, key: Key, now: int, window: nat, cap: nat): seq<Entry> {
    if Live(hits, key, now) then Recount(hits, key, Lookup(hits, key).value.totalHits + 1)
    else Trimmed(Restarted(hits, key, now, window), cap)
  }

  function IncrementResult(hits: seq<Entry>, key: Key, now: int, window: nat): Entry {
    if Live(hits, key, now) then Lookup(hits, key).value.(totalHits := Lookup(hits, key).value.totalHits + 1)
    else Entry(key, 1, now + window)
  }

  predicate InOrder(hits: seq<Entry>, clock: int, window: nat) {
    && UniqueKeys(hits) && OldestFirst(hits)
    && forall i | 0 <= i < |hits| :: hits[i].resetTime <= clock + window
  }

  function WithoutAt(hits: seq<Entry>, i: nat): seq<Entry>
    requires i < |hits|
  {
    hits[..i] + hits[i + 1..]
  }

  lemma WithoutAtElements(hits: seq<Entry>, i: nat)
    requires i < |hits|
    ensures |WithoutAt(hits, i)| == |hits| - 1
    ensures forall j | 0 <= j < |hits| - 1 :: WithoutAt(hits, i)[j] == hits[if j < i then j else j + 1]
  {
  }

  lemma WithoutAtInOrder(hits: seq<Entry>, rest: seq<Entry>, i: nat, clock: int, window: nat)
    requires InOrder(hits, clock, window) && i < |hits| && |rest| == |hits| - 1
    requires forall j | 0 <= j < |rest| :: rest[j] == hits[if j < i then j else j + 1]
    ensures InOrder(rest, clock, window) && forall j | 0 <= j < |rest| :: rest[j].key != hits[i].key
  {
  }

  lemma RemoveInOrder(hits: seq<Entry>, key: Key, clock: int, window: nat)
    requires InOrder(hits, clock, window)
    ensures InOrder(Remove(hits, key), clock, window) && !Has(Remove(hits, key), key)
    ensures Has(hits, key) ==> |Remove(hits, key)| == |hits| - 1
  {
    if Has(hits, key) {
      var i := IndexOf(hits, key);
      WithoutAtElements(hits, i);
      WithoutAtInOrder(hits, WithoutAt(hits, i), i, clock, window);
    }
  }

  lemma RestartedInOrder(hits: seq<Entry>, key: Key, clock: int, now: int, window: nat)
    requires InOrder(hits, clock, window) && clock <= now
    ensures InOrder(Restarted(hits, key, now, window), now, window)
    ensures |Restarted(hits, key, now, window)| <= |hits| + 1
  {
    RemoveInOrder(hits, key, clock, window);
    var rest := Remove(hits, key);
    assert forall i | 0 <= i < |rest| :: rest[i].key != key;
  }

  lemma FoundOnce(hits: seq<Entry>, i: nat)
    requires UniqueKeys(hits) && i < |hits|
    ensures Lookup(hits, hits[i].key) == Some(hits[i])
  {
  }

  lemma RecountInOrder(hits: seq<Entry>, key: Key, n: nat, clock: int, window: nat)
    requires InOrder(hits, clock, window) && Has(hits, key)
    ensures InOrder(Recount(hits, key, n), clock, window)
    ensures Lookup(Recount(hits, key, n), key) == Some(Lookup(hits, key).value.(totalHits := n))
  {
    FoundOnce(Recount(hits, key, n), IndexOf(hits, key));
  }

  lemma TrimmedInOrder(hits: seq<Entry>, cap: nat, clock: int, window: nat)
    requires InOrder(hits, clock, window)
    ensures InOrder(Trimmed(hits, cap), clock, window) && |Trimmed(hits, cap)| <= cap
  {
  }

  lemma CapEvictsOldest(hits: seq<Entry>, key: Key, now: int, window: nat, cap: nat)
    requires |hits| == cap && cap >= 1 && !Has(hits, key)
    ensures Incremented(hits, key, now, window, cap) == hits[1..] + [Entry(key, 1, now + window)]
  {
  }

  lemma RestartedCounts(hits: seq<Entry>, key: Key, clock: int, now: int, window: nat, cap: nat, all: seq<Entry>)
    requires InOrder(hits, clock, window) && clock <= now && cap >= 1 && all == Restarted(hits, key, now, window)
    ensures InOrder(Trimmed(all, cap), now, window) && |Trimmed(all, cap)| <= cap
    ensures Lookup(Trimmed(all, cap), key) == Some(Entry(key, 1, now + window))
  {
    RestartedInOrder(hits, key, clock, now, window);
    TrimmedInOrder(all, cap, now, window);
    var r := Trimmed(all, cap);
    assert r[|r| - 1] == all[|all| - 1] == Entry(key, 1, now + window);
    FoundOnce(r, |r| - 1);
  }

  /** The key just counted is in the map, with the count that was returned; a new one at the cap evicts exactly
      the oldest window. */
  lemma IncrementedInOrder(hits: seq<Entry>, key: Key, clock: int, now: int, window: nat, cap: nat)
    requires InOrder(hits, clock, window) && clock <= now && |hits| <= cap && cap >= 1
    ensures var r := Incremented(hits, key, now, window, cap);
            && InOrder(r, now, window) && |r| <= cap
            && Lookup(r, key) == Some(IncrementResult(hits, key, now, window))
            && (|hits| == cap && !Has(hits, key) ==> r == hits[1..] + [Entry(key, 1, now + window)])
  {
    if Live(hits, key, now) {
      RecountInOrder(hits, key, Lookup(hits, key).value.totalHits + 1, clock, window);
    } else {
      RestartedCounts(hits, key, clock, now, window, cap, Restarted(hits, key, now, window));
      if |hits| == cap && !Has(hits, key) { CapEvictsOldest(hits, key, now, window, cap); }
    }
  }

  predicate IsSuffix<T(==)>(s: seq<T>, whole: seq<T>) {
    |s| <= |whole| && s == whole[|whole| - |s|..]
  }

  lemma Suffix<T>(s: seq<T>, whole: seq<T>)
    requires s != [] && IsSuffix(s, whole)
    ensures IsSuffix(s[1..], whole)
  {
  }

  /** While everything before has been let go, an expired entry is the first. */
  lemma {:induction false} DropFront(hits: seq<Entry>, whole: seq<Entry>, i: nat, now: int)
    requires i < |hits| && OldestFirst(hits) && IsSuffix(hits, whole)
    requires hits[i].resetTime <= now && (i > 0 ==> hits[0].resetTime > now)
    ensures i == 0 && hits[..i] + hits[i + 1..] == hits[1..] && OldestFirst(hits[1..]) && IsSuffix(hits[1..], whole)
  {
    Suffix(hits, whole);
  }

  class Store {
    const maxEntries: nat
    const window: nat
    var hits: seq<Entry>
    /** The latest clock reading so far. */
    ghost var clock: int

    ghost predicate Valid()
      reads this
    {
      maxEntries >= 1 && |hits| <= maxEntries && InOrder(hits, clock, window)
    }

    constructor (maxEntries: nat, window: nat, ghost now: int)
      requires maxEntries >= 1
      ensures Valid() && hits == [] && clock == now && this.maxEntries == maxEntries && this.window == window
    {
      this.maxEntries, this.window, hits, clock := maxEntries, window, [], now;
    }

    method Increment(key: Key, now: int, later: int) returns (info: Entry)
      requires Valid() && clock <= now <= later
      modifies this
      ensures Valid() && clock == later
      ensures hits == Incremented(old(hits), key, now, window, maxEntries)
      ensures info == IncrementResult(old(hits), key, now, window)
    {
      ghost var was := hits;
      var existing := Lookup(hits, key);
      if existing.None? || existing.value.resetTime <= now {
        assert OldestFirst(Restarted(was, key, now, window)) by { RestartedInOrder(was, key, clock, now, window); }
        hits := Remove(hits, key);
        info := Entry(key, 1, now + window);
        hits := hits + [info];
        assert hits == Restarted(was, key, now, window);
        EnforceCap(later);
      } else {
        info := existing.value.(totalHits := existing.value.totalHits + 1);
        hits := Recount(hits, key, info.totalHits);
      }
      assert hits == Incremented(was, key, now, window, maxEntries);
      IncrementedInOrder(was, key, clock, now, window, maxEntries);
      clock := later;
    }

    /** The two deleting loops: expired entries first, then the oldest ones. */
    method EnforceCap(now: int)
      requires OldestFirst(hits)
      modifies `hits
      ensures hits == Trimmed(old(hits), maxEntries)
    {
      if |hits| <= maxEntries { return; }
      var done := DropExpired(now);
      if !done { DropOldest(); }
    }

    /** Entries are in the order of their reset times, so the expired ones go from the front. */
    method DropExpired(now: int) returns (done: bool)
      requires OldestFirst(hits) && |hits| > maxEntries
      modifies `hits
      ensures maxEntries <= |hits| <= |old(hits)| && IsSuffix(hits, old(hits)) && (done <==> |hits| == maxEntries)
    {
      ghost var before := hits;
      var i := 0;
      while i < |hits|
        invariant i <= |hits| && maxEntries < |hits| <= |before| && IsSuffix(hits, before) && OldestFirst(hits)
        invariant i > 0 ==> hits[0].resetTime > now
        decreases |hits| - i
      {
        if hits[i].resetTime <= now {
          DropFront(hits, before, i, now);
          hits := hits[..i] + hits[i + 1..];
        } else {
          i := i + 1;
        }
        if |hits| <= maxEntries { return true; }
      }
      done := false;
    }

    method DropOldest()
      requires |hits| > maxEntries
      modifies `hits
      ensures |hits| == maxEntries <= |old(hits)| && IsSuffix(hits, old(hits))
    {
      ghost var before := hits;
      while |hits| > 0
        invariant maxEntries < |hits| <= |before| && IsSuffix(hits, before)
        decreases |hits|
      {
        Suffix(hits, before);
        hits := hits[1..];
        if |hits| <= maxEntries { return; }
      }
    }

    method Decrement(key: Key)
      requires Valid()
      modifies this
      ensures Valid() && clock == old(clock) && hits == Decremented(old(hits), key)
    {
      var entry := Lookup(hits, key);
      if entry.Some? && entry.value.totalHits > 0 {
        hits := Recount(hits, key, entry.value.totalHits - 1);
      }
    }

    method ResetKey(key: Key)
      requires Valid()
      modifies this
      ensures Valid() && clock == old(clock) && hits == Remove(old(hits), key)
    {
      RemoveInOrder(hits, key, clock, window);
      hits := Remove(hits, key);
    }

    method ResetAll()
      requires Valid()
      modifies this
      ensures Valid() && clock == old(clock) && hits == []
    {
      hits := [];
    }

    method Get(key: Key, now: int) returns (info: Option<Entry>)
      requires Valid() && clock <= now
      modifies this
      ensures Valid() && clock == now
      ensures info == if Live(old(hits), key, now) then Lookup(old(hits), key) else None
      ensures hits == Read(old(hits), key, now)
    {
      var entry := Lookup(hits, key);
      clock := now;
      if entry.None? { return None; }
      if entry.value.resetTime <= now {
        RemoveInOrder(hits, key, old(clock), window);
        hits := Remove(hits, key);
        return None;
      }
      return entry;
    }
  }

  function Decremented(hits: seq<Entry>, key: Key): seq<Entry> {
    var e := Lookup(hits, key);
    if e.Some? && e.value.totalHits > 0 then Recount(hits, key, e.value.totalHits - 1) else hits
  }

  /** Reading an expired window deletes it. */
  function Read(hits: seq<Entry>, key: Key, now: int): seq<Entry> {
    if Has(hits, key) && !Live(hits, key, now) then Remove(hits, key) else hits
  }

  // ---------------------------------------------------------------- against an unbounded counter

  datatype Window = Window(totalHits: nat, resetTime: int)

  type Counters = map<Key, Window>

  datatype Op =
    | Increment(key: Key, now: int)
    | Decrement(key: Key)
    | ResetKey(key: Key)
    | ResetAll
    | Get(key: Key, now: int)

  /** What a call answers: the window it reports, if any. */
  type Answer = Option<Window>

  function Answered(e: Entry): Answer {
    Some(Window(e.totalHits, e.resetTime))
  }

  function CappedStep(hits: seq<Entry>, op: Op, window: nat, cap: nat): (seq<Entry>, Answer) {
    match op
    case Increment(key, now) =>
      (Incremented(hits, key, now, window, cap), Answered(IncrementResult(hits, key, now, window)))
    case Decrement(key) => (Decremented(hits, key), None)
    case ResetKey(key) => (Remove(hits, key), None)
    case ResetAll => ([], None)
    case Get(key, now) =>
      (Read(hits, key, now), if Live(hits, key, now) then Answered(Lookup(hits, key).value) else None)
  }

  predicate Open(c: Counters, key: Key, now: int) {
    key in c && c[key].resetTime > now
  }

  function Counted(c: Counters, key: Key, n: nat): Counters
    requires key in c
  {
    c[key := c[key].(totalHits := n)]
  }

  function FreeDecremented(c: Counters, key: Key): Counters {
    if key in c && c[key].totalHits > 0 then Counted(c, key, c[key].totalHits - 1) else c
  }

  function FreeIncremented(c: Counters, key: Key, now: int, window: nat): (r: Counters)
    ensures key in r
  {
    if Open(c, key, now) then Counted(c, key, c[key].totalHits + 1) else c[key := Window(1, now + window)]
  }

  /** One counter per key and no cap. */
  function FreeStep(c: Counters, op: Op, window: nat): (Counters, Answer) {
    match op
    case Increment(key, now) => (FreeIncremented(c, key, now, window), Some(FreeIncremented(c, key, now, window)[key]))
    case Decrement(key) =>
      (FreeDecremented(c, key), None)
    case ResetKey(key) => (c - {key}, None)
    case ResetAll => (map[], None)
    case Get(key, now) =>
      (if Open(c, key, now) then c else c - {key}, if Open(c, key, now) then Some(c[key]) else None)
  }

  /** The clock after an operation. */
  function ClockAfter(op: Op, clock: int): int {
    match op
    case Increment(_, now) => now
    case Get(_, now) => now
    case _ => clock
  }

  function LiveKeys(c: Counters, now: int): set<Key> {
    set k | k in c && c[k].resetTime > now
  }

  function AsWindow(e: Entry): Window {
    Window(e.totalHits, e.resetTime)
  }

  function Keys(hits: seq<Entry>): set<Key> {
    set i | 0 <= i < |hits| :: hits[i].key
  }

  /** The capped map as counters. */
  function View(hits: seq<Entry>): Counters {
    map k | k in Keys(hits) :: Seen(hits, k)
  }

  function Seen(hits: seq<Entry>, key: Key): Window {
    match Lookup(hits, key) case Some(e) => AsWindow(e) case None => Window(0, 0)
  }

  /** It holds some of the counters, and among them every live one. */
  ghost predicate Agree(view: Counters, c: Counters, clock: int) {
    && (forall k | k in view :: k in c && c[k] == view[k])
    && (forall k | Open(c, k, clock) :: k in view)
  }

  lemma InView(hits: seq<Entry>, key: Key)
    ensures key in View(hits) <==> Lookup(hits, key).Some?
    ensures key in View(hits) ==> View(hits)[key] == AsWindow(Lookup(hits, key).value)
  {
    if Has(hits, key) { assert hits[IndexOf(hits, key)].key == key; }
  }

  lemma LookupAfterRemove(hits: seq<Entry>, key: Key)
    requires UniqueKeys(hits)
    ensures forall k :: Lookup(Remove(hits, key), k) == if k == key then None else Lookup(hits, k)
  {
    var rest := Remove(hits, key);
    assert UniqueKeys(rest);
    forall k ensures Lookup(rest, k) == if k == key then None else Lookup(hits, k) {
      if Has(hits, k) && k != key {
        var i := IndexOf(hits, k);
        var j := if Has(hits, key) && IndexOf(hits, key) < i then i - 1 else i;
        assert rest[j] == hits[i];
        FoundOnce(rest, j);
      }
      if Has(rest, k) {
        var j := IndexOf(rest, k);
        var i := if Has(hits, key) && IndexOf(hits, key) <= j then j + 1 else j;
        assert hits[i] == rest[j];
        FoundOnce(hits, i);
      }
    }
  }

  lemma LookupAfterRecount(hits: seq<Entry>, key: Key, n: nat)
    requires UniqueKeys(hits) && Has(hits, key)
    ensures forall k :: Lookup(Recount(hits, key, n), k)
                     == if k == key then Some(Lookup(hits, key).value.(totalHits := n)) else Lookup(hits, k)
  {
    var r := Recount(hits, key, n);
    forall k
      ensures Lookup(r, k) == if k == key then Some(Lookup(hits, key).value.(totalHits := n)) else Lookup(hits, k)
    {
      if Has(hits, k) { FoundOnce(r, IndexOf(hits, k)); }
      if Has(r, k) { FoundOnce(hits, IndexOf(r, k)); }
    }
  }

  lemma LookupAfterAdd(hits: seq<Entry>, e: Entry)
    requires !Has(hits, e.key) && UniqueKeys(hits + [e])
    ensures forall k :: Lookup(hits + [e], k) == if k == e.key then Some(e) else Lookup(hits, k)
  {
    var r := hits + [e];
    forall k ensures Lookup(r, k) == if k == e.key then Some(e) else Lookup(hits, k) {
      if Has(hits, k) { assert r[IndexOf(hits, k)] == hits[IndexOf(hits, k)]; FoundOnce(r, IndexOf(hits, k)); }
      assert r[|hits|] == e;
      FoundOnce(r, |hits|);
    }
  }

  lemma LookupAfterDrop(hits: seq<Entry>)
    requires UniqueKeys(hits) && hits != []
    ensures forall k :: Lookup(hits[1..], k) == if k == hits[0].key then None else Lookup(hits, k)
  {
    forall k ensures Lookup(hits[1..], k) == if k == hits[0].key then None else Lookup(hits, k) {
      if Has(hits[1..], k) {
        assert hits[1..][IndexOf(hits[1..], k)] == hits[IndexOf(hits[1..], k) + 1];
        FoundOnce(hits, IndexOf(hits[1..], k) + 1);
      }
      if Has(hits, k) && k != hits[0].key {
        assert hits[1..][IndexOf(hits, k) - 1] == hits[IndexOf(hits, k)];
        FoundOnce(hits[1..], IndexOf(hits, k) - 1);
      }
    }
  }

  lemma {:induction false} KeysCount(hits: seq<Entry>)
    requires UniqueKeys(hits)
    ensures |Keys(hits)| == |hits|
  {
    if hits != [] {
      KeysCount(hits[1..]);
      assert forall i | 1 <= i < |hits| :: hits[i] == hits[1..][i - 1];
      assert Keys(hits) == Keys(hits[1..]) + {hits[0].key};
    }
  }

  lemma ViewWithout(hits: seq<Entry>, rest: seq<Entry>, key: Key)
    requires forall k :: Lookup(rest, k) == if k == key then None else Lookup(hits, k)
    ensures View(rest) == View(hits) - {key}
  {
    forall k { InView(hits, k); }
    forall k { InView(rest, k); }
  }

  lemma ViewWith(hits: seq<Entry>, more: seq<Entry>, e: Entry, key: Key)
    requires forall k :: Lookup(more, k) == if k == key then Some(e) else Lookup(hits, k)
    ensures View(more) == View(hits)[key := AsWindow(e)]
  {
    forall k { InView(hits, k); }
    forall k { InView(more, k); }
  }

  lemma ViewAfterRecount(hits: seq<Entry>, key: Key, n: nat)
    requires UniqueKeys(hits) && Has(hits, key)
    ensures key in View(hits)
    ensures View(Recount(hits, key, n)) == View(hits)[key := View(hits)[key].(totalHits := n)]
  {
    InView(hits, key);
    LookupAfterRecount(hits, key, n);
    ViewWith(hits, Recount(hits, key, n), Lookup(hits, key).value.(totalHits := n), key);
  }

  /** With at most `cap` live windows, a window that has to go has expired. */
  lemma EvictedHasExpired(hits: seq<Entry>, c: Counters, now: int, cap: nat)
    requires UniqueKeys(hits) && OldestFirst(hits) && |hits| > cap
    requires Agree(View(hits), c, now)
    requires |LiveKeys(c, now)| <= cap
    ensures hits[0].resetTime <= now
  {
    KeysCount(hits);
    if Keys(hits) <= LiveKeys(c, now) {
      SubsetSize(Keys(hits), LiveKeys(c, now));
      assert false;
    }
    var i :| 0 <= i < |hits| && hits[i].key !in LiveKeys(c, now);
    FoundOnce(hits, i);
    InView(hits, hits[i].key);
  }

  lemma TrimmedAgrees(hits: seq<Entry>, c: Counters, now: int, window: nat, cap: nat)
    requires InOrder(hits, now, window) && |hits| <= cap + 1 && Agree(View(hits), c, now) && |LiveKeys(c, now)| <= cap
    ensures Agree(View(Trimmed(hits, cap)), c, now)
  {
    if |hits| > cap {
      EvictedHasExpired(hits, c, now, cap);
      LookupAfterDrop(hits);
      ViewWithout(hits, hits[1..], hits[0].key);
      InView(hits, hits[0].key);
    }
  }

  lemma LookupAfterRestart(hits: seq<Entry>, clock: int, key: Key, now: int, window: nat)
    requires InOrder(hits, clock, window) && clock <= now
    ensures forall k :: Lookup(Restarted(hits, key, now, window), k)
                     == if k == key then Some(Entry(key, 1, now + window)) else Lookup(hits, k)
  {
    LookupAfterRemove(hits, key);
    RestartedInOrder(hits, key, clock, now, window);
    LookupAfterAdd(Remove(hits, key), Entry(key, 1, now + window));
  }

  lemma RestartAgrees(hits: seq<Entry>, c: Counters, clock: int, key: Key, now: int, window: nat, cap: nat)
    requires InOrder(hits, clock, window) && |hits| <= cap && Agree(View(hits), c, now) && clock <= now
    requires |LiveKeys(c[key := Window(1, now + window)], now)| <= cap
    ensures Agree(View(Trimmed(Restarted(hits, key, now, window), cap)), c[key := Window(1, now + window)], now)
  {
    LookupAfterRestart(hits, clock, key, now, window);
    RestartedInOrder(hits, key, clock, now, window);
    var all := Restarted(hits, key, now, window);
    ViewWith(hits, all, Entry(key, 1, now + window), key);
    AgreeSet(View(hits), c, now, key, Window(1, now + window));
    TrimmedAgrees(all, c[key := Window(1, now + window)], now, window, cap);
  }

  lemma LiveOnBothSides(hits: seq<Entry>, c: Counters, clock: int, key: Key, now: int)
    requires Agree(View(hits), c, clock) && clock <= now
    ensures Live(hits, key, now) <==> Open(c, key, now)
    ensures Live(hits, key, now) ==> c[key] == AsWindow(Lookup(hits, key).value)
  {
    InView(hits, key);
    assert Open(c, key, now) ==> Open(c, key, clock);
  }

  lemma AgreeLater(view: Counters, c: Counters, clock: int, now: int)
    requires Agree(view, c, clock) && clock <= now
    ensures Agree(view, c, now)
  {
    forall k | Open(c, k, now) ensures k in view { assert Open(c, k, clock); }
  }

  lemma AgreeSet(view: Counters, c: Counters, clock: int, key: Key, w: Window)
    requires Agree(view, c, clock)
    ensures Agree(view[key := w], c[key := w], clock)
  {
    var c', view' := c[key := w], view[key := w];
    forall k | Open(c', k, clock) ensures k in view' { assert k == key || Open(c, k, clock); }
  }

  lemma AgreeUnset(view: Counters, c: Counters, clock: int, key: Key)
    requires Agree(view, c, clock)
    ensures Agree(view - {key}, c - {key}, clock)
  {
    forall k | Open(c - {key}, k, clock) ensures k in view - {key} { assert Open(c, k, clock); }
  }

  lemma AgreeCounted(view: Counters, c: Counters, clock: int, key: Key, n: nat)
    requires Agree(view, c, clock) && key in view
    ensures key in c && Agree(Counted(view, key, n), Counted(c, key, n), clock)
  {
    AgreeSet(view, c, clock, key, c[key].(totalHits := n));
  }

  /** The capped map, seen as counters, counts up as the free counters do. */
  lemma ViewCountsUp(hits: seq<Entry>, key: Key, m: nat)
    requires UniqueKeys(hits) && Has(hits, key) && Lookup(hits, key).value.totalHits + 1 == m
    ensures key in View(hits) && View(hits)[key].totalHits + 1 == m
    ensures View(Recount(hits, key, m)) == Counted(View(hits), key, m)
  {
    InView(hits, key);
    ViewAfterRecount(hits, key, m);
  }

  lemma LiveIncrement(hits: seq<Entry>, key: Key, now: int, window: nat, cap: nat, m: nat)
    requires Live(hits, key, now) && Lookup(hits, key).value.totalHits + 1 == m
    ensures Incremented(hits, key, now, window, cap) == Recount(hits, key, m)
    ensures IncrementResult(hits, key, now, window) == Lookup(hits, key).value.(totalHits := m)
  {
  }

  lemma LiveIncrementAgrees(hits: seq<Entry>, c: Counters, key: Key, now: int, window: nat, cap: nat, m: nat)
    requires UniqueKeys(hits) && Agree(View(hits), c, now)
    requires Live(hits, key, now) && Open(c, key, now) && c[key] == AsWindow(Lookup(hits, key).value)
              && c[key].totalHits + 1 == m
    ensures Agree(View(Incremented(hits, key, now, window, cap)), FreeIncremented(c, key, now, window), now)
    ensures AsWindow(IncrementResult(hits, key, now, window)) == FreeIncremented(c, key, now, window)[key]
  {
    ViewCountsUp(hits, key, m);
    LiveIncrement(hits, key, now, window, cap, m);
    AgreeCounted(View(hits), c, now, key, m);
  }

  lemma IncrementAgrees(hits: seq<Entry>, c: Counters, clock: int, key: Key, now: int, window: nat, cap: nat)
    requires InOrder(hits, clock, window) && |hits| <= cap && Agree(View(hits), c, clock) && clock <= now
    requires |LiveKeys(FreeIncremented(c, key, now, window), now)| <= cap
    ensures Agree(View(Incremented(hits, key, now, window, cap)), FreeIncremented(c, key, now, window), now)
    ensures AsWindow(IncrementResult(hits, key, now, window)) == FreeIncremented(c, key, now, window)[key]
  {
    LiveOnBothSides(hits, c, clock, key, now);
    AgreeLater(View(hits), c, clock, now);
    if Live(hits, key, now) {
      LiveIncrementAgrees(hits, c, key, now, window, cap, c[key].totalHits + 1);
    } else {
      RestartAgrees(hits, c, clock, key, now, window, cap);
    }
  }

  lemma UncountedAgrees(view: Counters, c: Counters, clock: int, key: Key)
    requires Agree(view, c, clock) && key !in view
    ensures Agree(view, FreeDecremented(c, key), clock)
  {
    var c' := FreeDecremented(c, key);
    forall k | Open(c', k, clock) ensures k in view { assert Open(c, k, clock); }
  }

  lemma CountsDownTo(view: Counters, key: Key, m: nat)
    requires key in view && view[key].totalHits == m + 1
    ensures FreeDecremented(view, key) == view[key := view[key].(totalHits := m)]
  {
  }

  lemma DecrementedTo(hits: seq<Entry>, key: Key, m: nat)
    requires Has(hits, key) && Lookup(hits, key).value.totalHits == m + 1
    ensures Decremented(hits, key) == Recount(hits, key, m)
  {
  }

  lemma ViewCountsDown(hits: seq<Entry>, key: Key, m: nat)
    requires UniqueKeys(hits) && Has(hits, key) && Lookup(hits, key).value.totalHits == m + 1
    ensures View(Decremented(hits, key)) == FreeDecremented(View(hits), key)
  {
    DecrementedTo(hits, key, m);
    InView(hits, key);
    CountsDownTo(View(hits), key, m);
    ViewAfterRecount(hits, key, m);
  }

  /** The capped map, seen as counters, counts down as the free counters do. */
  lemma ViewAfterDecrement(hits: seq<Entry>, key: Key)
    requires UniqueKeys(hits)
    ensures View(Decremented(hits, key)) == if Has(hits, key) then FreeDecremented(View(hits), key) else View(hits)
  {
    if Has(hits, key) {
      if Lookup(hits, key).value.totalHits > 0 {
        ViewCountsDown(hits, key, Lookup(hits, key).value.totalHits - 1);
      } else {
        InView(hits, key);
      }
    }
  }

  lemma AgreeDecremented(view: Counters, c: Counters, clock: int, key: Key)
    requires Agree(view, c, clock) && key in view
    ensures Agree(FreeDecremented(view, key), FreeDecremented(c, key), clock)
  {
    if view[key].totalHits > 0 { AgreeCounted(view, c, clock, key, view[key].totalHits - 1); }
  }

  lemma DecrementAgrees(hits: seq<Entry>, c: Counters, clock: int, key: Key)
    requires UniqueKeys(hits) && Agree(View(hits), c, clock)
    ensures Agree(View(Decremented(hits, key)), FreeDecremented(c, key), clock)
  {
    ViewAfterDecrement(hits, key);
    InView(hits, key);
    if Has(hits, key) {
      AgreeDecremented(View(hits), c, clock, key);
    } else {
      UncountedAgrees(View(hits), c, clock, key);
    }
  }

  lemma DecrementInOrder(hits: seq<Entry>, clock: int, key: Key, window: nat)
    requires InOrder(hits, clock, window)
    ensures InOrder(Decremented(hits, key), clock, window) && |Decremented(hits, key)| == |hits|
  {
  }

  lemma GetAgrees(hits: seq<Entry>, c: Counters, clock: int, key: Key, now: int, window: nat)
    requires InOrder(hits, clock, window) && Agree(View(hits), c, clock) && clock <= now
    ensures var (h, a) := CappedStep(hits, Get(key, now), window, 0);
            var (c', b) := FreeStep(c, Get(key, now), window);
            a == b && Agree(View(h), c', now) && InOrder(h, now, window) && |h| <= |hits|
  {
    LiveOnBothSides(hits, c, clock, key, now);
    AgreeLater(View(hits), c, clock, now);
    AgreeUnset(View(hits), c, now, key);
    LookupAfterRemove(hits, key);
    ViewWithout(hits, Remove(hits, key), key);
    RemoveInOrder(hits, key, clock, window);
    InView(hits, key);
    assert key !in View(hits) ==> View(hits) - {key} == View(hits);
  }

  lemma StepAgrees(hits: seq<Entry>, c: Counters, clock: int, op: Op, window: nat, cap: nat)
    requires InOrder(hits, clock, window) && |hits| <= cap && cap >= 1 && Agree(View(hits), c, clock)
    requires clock <= ClockAfter(op, clock)
    requires |LiveKeys(FreeStep(c, op, window).0, ClockAfter(op, clock))| <= cap
    ensures var (h, a) := CappedStep(hits, op, window, cap);
            var (c', b) := FreeStep(c, op, window);
            && a == b && Agree(View(h), c', ClockAfter(op, clock))
            && InOrder(h, ClockAfter(op, clock), window) && |h| <= cap
  {
    match op
    case Increment(key, now) =>
      IncrementAgrees(hits, c, clock, key, now, window, cap);
      IncrementedInOrder(hits, key, clock, now, window, cap);
    case Decrement(key) =>
      DecrementAgrees(hits, c, clock, key);
      DecrementInOrder(hits, clock, key, window);
    case ResetKey(key) =>
      AgreeUnset(View(hits), c, clock, key);
      LookupAfterRemove(hits, key);
      ViewWithout(hits, Remove(hits, key), key);
      RemoveInOrder(hits, key, clock, window);
    case ResetAll =>
    case Get(key, now) => GetAgrees(hits, c, clock, key, now, window);
  }

  function CappedAnswers(hits: seq<Entry>, ops: seq<Op>, window: nat, cap: nat): seq<Answer>
    decreases |ops|
  {
    if ops == [] then []
    else
      var (h, a) := CappedStep(hits, ops[0], window, cap);
      [a] + CappedAnswers(h, ops[1..], window, cap)
  }

  function FreeAnswers(c: Counters, ops: seq<Op>, window: nat): seq<Answer>
    decreases |ops|
  {
    if ops == [] then []
    else
      var (c', a) := FreeStep(c, ops[0], window);
      [a] + FreeAnswers(c', ops[1..], window)
  }

  /** The clock never goes back, and after every operation at most `cap` windows are live. */
  predicate Quiet(c: Counters, clock: int, ops: seq<Op>, window: nat, cap: nat)
    decreases |ops|
  {
    ops == [] ||
    var c', now := FreeStep(c, ops[0], window).0, ClockAfter(ops[0], clock);
    clock <= now && |LiveKeys(c', now)| <= cap && Quiet(c', now, ops[1..], window, cap)
  }

  /** On such runs the cap cannot be noticed: every call answers what one counter per key would. */
  lemma {:induction false} CapUnnoticed(hits: seq<Entry>, c: Counters, clock: int, ops: seq<Op>, window: nat, cap: nat)
    requires InOrder(hits, clock, window) && |hits| <= cap && cap >= 1 && Agree(View(hits), c, clock)
    requires Quiet(c, clock, ops, window, cap)
    ensures CappedAnswers(hits, ops, window, cap) == FreeAnswers(c, ops, window)
    decreases |ops|
  {
    if ops != [] {
      StepAgrees(hits, c, clock, ops[0], window, cap);
      CapUnnoticed(CappedStep(hits, ops[0], window, cap).0, FreeStep(c, ops[0], window).0,
                   ClockAfter(ops[0], clock), ops[1..], window, cap);
    }
  }

  /** From an empty store. */
  lemma CapUnnoticedFromStart(clock: int, ops: seq<Op>, window: nat, cap: nat)
    requires cap >= 1 && Quiet(map[], clock, ops, window, cap)
    ensures CappedAnswers([], ops, window, cap) == FreeAnswers(map[], ops, window)
  {
    CapUnnoticed([], map[], clock, ops, window, cap);
  }
}
