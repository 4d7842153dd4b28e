/** The release build order of scripts/publish-release-packages.ts: the workspace dependency graph
    and its deterministic topological sort. */
module BuildOrder {
  import opened Collections
  import opened Wrappers
  import opened StringOrder

  /** The workspace packages and the packages each declares. (The order in which the source's map
      lists them is a separate argument below.) */
  type Graph = map<string, seq<string>>

  predicate DependsOn(g: Graph, n: string, d: string) {
    n in g && d in g[n]
  }

  // ---------------------------------------------------------------- what a build order is

  ghost predicate DepsBefore(g: Graph, t: seq<string>, i: nat)
    requires i < |t|
  {
    forall d | DependsOn(g, t[i], d) :: d in t[..i]
  }

  /** Every package exactly once, each after everything it depends on. */
  ghost predicate IsBuildOrder(g: Graph, t: seq<string>) {
    && NoDuplicates(t)
    && (forall n :: n in t <==> n in g)
    && (forall i | 0 <= i < |t| :: DepsBefore(g, t, i))
  }

  predicate DifferAt(a: seq<string>, b: seq<string>, i: nat) {
    i < |a| && i < |b| && a[..i] == b[..i] && Before(a[i], b[i])
  }

  /** At the first place where they differ, `a` has the earlier name. */
  ghost predicate LexBefore(a: seq<string>, b: seq<string>) {
    exists i: nat :: DifferAt(a, b, i)
  }

  ghost predicate LeastBuildOrder(g: Graph, t: seq<string>) {
    IsBuildOrder(g, t) && forall u | IsBuildOrder(g, u) :: u == t || LexBefore(t, u)
  }

  /** The next package on the path is a dependency of this one. */
  predicate StepAt(g: Graph, p: seq<string>, i: nat)
    requires i + 1 < |p|
  {
    DependsOn(g, p[i], p[i + 1])
  }

  ghost predicate IsCycle(g: Graph, p: seq<string>) {
    |p| >= 2 && p[0] == p[|p| - 1] && forall i | 0 <= i < |p| - 1 :: StepAt(g, p, i)
  }

  ghost predicate HasCycle(g: Graph) {
    exists p :: IsCycle(g, p)
  }

  /** Some package depends on one that is not in the graph. */
  ghost predicate HasMissing(g: Graph) {
    exists n, d :: DependsOn(g, n, d) && d !in g
  }

  // ---------------------------------------------------------------- the greedy choice

  ghost predicate Ready(g: Graph, done: seq<string>, n: string) {
    n in g && n !in done && forall d | DependsOn(g, n, d) :: d in done
  }

  ghost predicate LeastReady(g: Graph, done: seq<string>, n: string) {
    Ready(g, done, n) && forall m | Ready(g, done, m) :: m == n || Before(n, m)
  }

  ghost predicate Greedy(g: Graph, order: seq<string>) {
    forall i | 0 <= i < |order| :: LeastReady(g, order[..i], order[i])
  }

  lemma GreedyStep(g: Graph, order: seq<string>, n: string)
    requires Greedy(g, order) && LeastReady(g, order, n)
    ensures Greedy(g, order + [n])
  {
    forall i | 0 <= i < |order| + 1 ensures LeastReady(g, (order + [n])[..i], (order + [n])[i]) {
      assert (order + [n])[..i] == order[..i];
      assert order[..|order|] == order;
    }
  }

  lemma GreedyNoDuplicates(g: Graph, order: seq<string>)
    requires Greedy(g, order)
    ensures NoDuplicates(order) && forall n | n in order :: n in g
  {
    forall i, j | 0 <= i < j < |order| ensures order[i] != order[j] {
      assert LeastReady(g, order[..j], order[j]);
      assert order[..j][i] == order[i];
    }
  }

  /** A greedy order that is complete is the least build order. */
  lemma GreedyIsLeast(g: Graph, order: seq<string>)
    requires Greedy(g, order) && forall n | n in g :: n in order
    ensures LeastBuildOrder(g, order)
  {
    GreedyNoDuplicates(g, order);
    forall i | 0 <= i < |order| ensures DepsBefore(g, order, i) {
      assert LeastReady(g, order[..i], order[i]);
    }
    forall u | IsBuildOrder(g, u) ensures u == order || LexBefore(order, u) {
      SameNames(order, u);
      AgreesOrBefore(g, order, u, |order|);
      assert order[..|order|] == order && u[..|order|] == u;
    }
  }

  /** The next package of another build order was ready, so the greedy choice comes no later. */
  lemma NextWasReady(g: Graph, order: seq<string>, u: seq<string>, k: nat)
    requires Greedy(g, order) && IsBuildOrder(g, u) && k < |order| && k < |u| && order[..k] == u[..k]
    ensures u[k] == order[k] || Before(order[k], u[k])
  {
    assert LeastReady(g, order[..k], order[k]);
    assert u[k] in u && DepsBefore(g, u, k);
    assert Ready(g, u[..k], u[k]);
  }

  /** A build order cannot undercut the greedy one anywhere. */
  lemma {:induction false} AgreesOrBefore(g: Graph, order: seq<string>, u: seq<string>, k: nat)
    requires Greedy(g, order) && IsBuildOrder(g, u) && k <= |order| == |u|
    ensures LexBefore(order, u) || order[..k] == u[..k]
  {
    if k > 0 {
      AgreesOrBefore(g, order, u, k - 1);
      if order[..k - 1] == u[..k - 1] {
        NextWasReady(g, order, u, k - 1);
        assert LexBefore(order, u) || order[k - 1] == u[k - 1] by {
          assert Before(order[k - 1], u[k - 1]) ==> DifferAt(order, u, k - 1);
        }
        assert order[..k] == order[..k - 1] + [order[k - 1]] && u[..k] == u[..k - 1] + [u[k - 1]];
      }
    }
  }

  /** Lists without duplicates that hold the same names are equally long. */
  lemma SameNames(a: seq<string>, b: seq<string>)
    requires NoDuplicates(a) && NoDuplicates(b) && forall n :: n in a <==> n in b
    ensures |a| == |b|
  {
    AsSet(a);
    AsSet(b);
    assert (set n | n in a) == (set n | n in b);
  }

  lemma {:induction false} AsSet(a: seq<string>)
    requires NoDuplicates(a)
    ensures |set n | n in a| == |a|
  {
    if a != [] {
      AsSet(a[1..]);
      assert (set n | n in a) == {a[0]} + set n | n in a[1..];
    }
  }

  // ---------------------------------------------------------------- being stuck means a cycle

  ghost predicate DependsOnOneOf(g: Graph, stuck: set<string>, n: string) {
    exists d | DependsOn(g, n, d) :: d in stuck
  }

  /** A walk along dependencies that stays inside `stuck` and does not repeat. */
  ghost predicate Walk(g: Graph, stuck: set<string>, walk: seq<string>) {
    && walk != [] && NoDuplicates(walk)
    && (forall i | 0 <= i < |walk| :: walk[i] in stuck)
    && (forall i | 0 <= i < |walk| - 1 :: StepAt(g, walk, i))
  }

  lemma WalkOn(g: Graph, stuck: set<string>, walk: seq<string>, d: string)
    requires Walk(g, stuck, walk) && DependsOn(g, walk[|walk| - 1], d)
    ensures forall i | 0 <= i < |walk| :: StepAt(g, walk + [d], i)
  {
    forall i | 0 <= i < |walk| ensures StepAt(g, walk + [d], i) {
      if i < |walk| - 1 { assert StepAt(g, walk, i); }
    }
  }

  lemma WalkCloses(g: Graph, path: seq<string>, i: nat)
    requires i + 1 < |path| && path[i] == path[|path| - 1]
    requires forall j | 0 <= j < |path| - 1 :: StepAt(g, path, j)
    ensures IsCycle(g, path[i..])
  {
    forall j | 0 <= j < |path[i..]| - 1 ensures StepAt(g, path[i..], j) {
      assert StepAt(g, path, i + j);
    }
  }

  lemma {:induction false} WalkFindsCycle(g: Graph, stuck: set<string>, walk: seq<string>) returns (cycle: seq<string>)
    requires Walk(g, stuck, walk) && forall n | n in stuck :: DependsOnOneOf(g, stuck, n)
    ensures IsCycle(g, cycle)
    decreases |stuck| - |walk|
  {
    var n := |walk|;
    var d :| DependsOn(g, walk[n - 1], d) && d in stuck;
    var longer := walk + [d];
    WalkOn(g, stuck, walk, d);
    if d in walk {
      var i :| 0 <= i < n && walk[i] == d;
      cycle := longer[i..];
      WalkCloses(g, longer, i);
    } else {
      WalkFits(stuck, longer);
      cycle := WalkFindsCycle(g, stuck, longer);
    }
  }

  lemma WalkFits(stuck: set<string>, walk: seq<string>)
    requires NoDuplicates(walk) && forall i | 0 <= i < |walk| :: walk[i] in stuck
    ensures |walk| <= |stuck|
  {
    AsSet(walk);
    SubsetSize((set n | n in walk), stuck);
  }

  /** If nothing is ready and something is left, there is a cycle or a missing package. */
  lemma StuckMeansCycle(g: Graph, order: seq<string>, n: string)
    requires n in g && n !in order
    requires forall m :: !Ready(g, order, m)
    ensures HasCycle(g) || HasMissing(g)
  {
    if !HasMissing(g) {
      var stuck := set m | m in g && m !in order;
      forall m | m in stuck ensures DependsOnOneOf(g, stuck, m) {
        assert !Ready(g, order, m);
        var d :| DependsOn(g, m, d) && d !in order;
        assert d in stuck;
      }
      var cycle := WalkFindsCycle(g, stuck, [n]);
    }
  }

  /** In a build order every step along a dependency goes back. */
  lemma {:induction false} CycleGoesBack(g: Graph, t: seq<string>, p: seq<string>, k: nat) returns (i: nat, j: nat)
    requires IsBuildOrder(g, t) && IsCycle(g, p) && 0 < k < |p|
    ensures i < j < |t| && t[i] == p[k] && t[j] == p[0]
  {
    var m: nat;
    assert StepAt(g, p, k - 1);
    if k == 1 {
      j :| 0 <= j < |t| && t[j] == p[0];
      m := j;
    } else {
      m, j := CycleGoesBack(g, t, p, k - 1);
    }
    assert DepsBefore(g, t, m);
    assert p[k] in t[..m];
    i :| 0 <= i < m && t[..m][i] == p[k];
  }

  /** A graph with a build order has neither a cycle nor a missing package. */
  lemma BuildOrderExcludes(g: Graph, t: seq<string>)
    requires IsBuildOrder(g, t)
    ensures !HasCycle(g) && !HasMissing(g)
  {
    forall p | IsCycle(g, p) ensures false {
      var i, j := CycleGoesBack(g, t, p, |p| - 1);
    }
    forall n, d | DependsOn(g, n, d) ensures d in g {
      var j :| 0 <= j < |t| && t[j] == n;
      assert DepsBefore(g, t, j);
      assert d in t[..j] && d in t;
    }
  }

  // ---------------------------------------------------------------- the algorithm

  /** How many declared dependencies are not built yet. */
  function Unresolved(deps: seq<string>, done: seq<string>): nat {
    if deps == [] then 0 else (if deps[0] in done then 0 else 1) + Unresolved(deps[1..], done)
  }

  function Count(s: seq<string>, n: string): nat {
    if s == [] then 0 else (if s[0] == n then 1 else 0) + Count(s[1..], n)
  }

  lemma {:induction false} CountSnoc(s: seq<string>, n: string, m: string)
    ensures Count(s + [n], m) == Count(s, m) + (if n == m then 1 else 0)
  {
    if s != [] {
      assert (s + [n])[1..] == s[1..] + [n];
      CountSnoc(s[1..], n, m);
    }
  }

  lemma CountUpTo(s: seq<string>, k: nat, m: string)
    requires k < |s|
    ensures Count(s[..k + 1], m) == Count(s[..k], m) + (if s[k] == m then 1 else 0)
  {
    assert s[..k + 1] == s[..k] + [s[k]];
    CountSnoc(s[..k], s[k], m);
  }

  lemma {:induction false} CountPositive(s: seq<string>, n: string)
    ensures Count(s, n) > 0 <==> n in s
  {
    if s != [] { CountPositive(s[1..], n); }
  }

  lemma {:induction false} CountGrows(s: seq<string>, k: nat, m: string)
    requires k <= |s|
    ensures Count(s[..k], m) <= Count(s, m)
    decreases |s| - k
  {
    if k == |s| {
      assert s[..k] == s;
    } else {
      CountUpTo(s, k, m);
      CountGrows(s, k + 1, m);
    }
  }

  lemma {:induction false} UnresolvedZero(deps: seq<string>, done: seq<string>)
    ensures Unresolved(deps, done) == 0 <==> forall d | d in deps :: d in done
  {
    if deps != [] {
      UnresolvedZero(deps[1..], done);
      assert forall d :: d in deps <==> d == deps[0] || d in deps[1..];
    }
  }

  lemma {:induction false} UnresolvedAll(deps: seq<string>)
    ensures Unresolved(deps, []) == |deps|
  {
    if deps != [] { UnresolvedAll(deps[1..]); }
  }

  /** Building one more package resolves every declaration of it. */
  lemma {:induction false} UnresolvedStep(deps: seq<string>, done: seq<string>, n: string)
    requires n !in done
    ensures Unresolved(deps, done + [n]) == Unresolved(deps, done) - Count(deps, n)
    ensures Count(deps, n) <= Unresolved(deps, done)
  {
    if deps != [] { UnresolvedStep(deps[1..], done, n); }
  }

  lemma ReadyIsZero(g: Graph, done: seq<string>, n: string)
    requires n in g
    ensures Ready(g, done, n) <==> n !in done && Unresolved(g[n], done) == 0
  {
    UnresolvedZero(g[n], done);
  }

  /** How often `m` is listed as a dependent of `d`. */
  function Listed(dependents: map<string, seq<string>>, d: string, m: string): nat {
    Count(Dependents(dependents, d), m)
  }

  function Dependents(dependents: map<string, seq<string>>, d: string): seq<string> {
    if d in dependents then dependents[d] else []
  }

  function Declared(g: Graph, m: string, d: string): nat {
    if m in g then Count(g[m], d) else 0
  }

  /** Every package is listed once for each time it declares another. */
  ghost predicate IsDependents(g: Graph, dependents: map<string, seq<string>>) {
    forall d, m :: Listed(dependents, d, m) == Declared(g, m, d)
  }

  /** `entries` is the graph in insertion order. */
  ghost predicate Lists(entries: seq<string>, g: Graph) {
    NoDuplicates(entries) && forall n :: n in entries <==> n in g
  }

  function Push(dependents: map<string, seq<string>>, dep: string, name: string): map<string, seq<string>> {
    dependents[dep := Dependents(dependents, dep) + [name]]
  }

  lemma PushLists(dependents: map<string, seq<string>>, dep: string, name: string)
    ensures forall d, m :: Listed(Push(dependents, dep, name), d, m)
                        == Listed(dependents, d, m) + (if d == dep && m == name then 1 else 0)
  {
    forall m { CountSnoc(Dependents(dependents, dep), name, m); }
  }

  /** The inner loop: one package and everything it declares. */
  method AddDependents(was: map<string, seq<string>>, name: string, deps: seq<string>)
      returns (dependents: map<string, seq<string>>)
    ensures forall d, m :: Listed(dependents, d, m) == Listed(was, d, m) + (if m == name then Count(deps, d) else 0)
  {
    dependents := was;
    assert forall d :: Count(deps[..0], d) == 0;
    for k := 0 to |deps|
      invariant forall d, m ::
        Listed(dependents, d, m) == Listed(was, d, m) + (if m == name then Count(deps[..k], d) else 0)
    {
      var dep := deps[k];
      PushLists(dependents, dep, name);
      ghost var pushed := Push(dependents, dep, name);
      if dep !in dependents { dependents := dependents[dep := []]; }
      dependents := dependents[dep := dependents[dep] + [name]];
      assert dependents == pushed;
      forall d { CountUpTo(deps, k, d); }
    }
    assert deps[..|deps|] == deps;
  }

  /** The first loop: who depends on whom. */
  method CollectDependents(g: Graph, entries: seq<string>) returns (dependents: map<string, seq<string>>)
    requires Lists(entries, g)
    ensures IsDependents(g, dependents)
  {
    dependents := map[];
    for i := 0 to |entries|
      invariant forall d, m :: Listed(dependents, d, m) == if m in entries[..i] then Declared(g, m, d) else 0
    {
      var name := entries[i];
      assert name in g && name !in entries[..i];
      dependents := AddDependents(dependents, name, g[name]);
      assert entries[..i + 1] == entries[..i] + [name];
    }
    assert entries[..|entries|] == entries;
  }

  // ---------------------------------------------------------------- the main loop

  ghost predicate Counts(g: Graph, order: seq<string>, remaining: map<string, int>) {
    remaining.Keys == g.Keys && forall m | m in g :: remaining[m] == Unresolved(g[m], order)
  }

  ghost predicate IsReadyList(g: Graph, order: seq<string>, ready: seq<string>) {
    Sorted(ready) && NoDuplicates(ready) && forall m :: m in ready <==> Ready(g, order, m)
  }

  /** Whatever was built had everything it depends on built before. */
  lemma BuiltIsResolved(g: Graph, order: seq<string>, m: string)
    requires Greedy(g, order) && m in order
    ensures m in g && Unresolved(g[m], order) == 0
  {
    var i :| 0 <= i < |order| && order[i] == m;
    assert LeastReady(g, order[..i], m);
    forall d | d in g[m] ensures d in order {
      assert DependsOn(g, m, d);
      assert d in order[..i];
    }
    UnresolvedZero(g[m], order);
  }

  lemma ReadyAfter(g: Graph, order: seq<string>, name: string, m: string)
    requires Greedy(g, order) && Ready(g, order, name)
    ensures Ready(g, order + [name], m) <==>
            (Ready(g, order, m) && m != name) || (Declared(g, m, name) > 0 && Unresolved(g[m], order + [name]) == 0)
  {
    if m in g {
      UnresolvedStep(g[m], order, name);
      ReadyIsZero(g, order + [name], m);
      ReadyIsZero(g, order, m);
      if m in order { BuiltIsResolved(g, order, m); }
      ReadyIsZero(g, order, name);
    }
  }

  /** A dependent still to be counted down is in the graph, not ready, and stays at zero or above. */
  lemma DependentCounts(g: Graph, order: seq<string>, name: string, list: seq<string>, j: nat)
    requires name !in order && j < |list| && forall m :: Count(list, m) == Declared(g, m, name)
    ensures var m := list[j]; m in g && !Ready(g, order, m) && Count(list[..j + 1], m) <= Unresolved(g[m], order)
    ensures forall m :: Count(list[..j + 1], m) == Count(list[..j], m) + (if m == list[j] then 1 else 0)
  {
    var dependent := list[j];
    CountPositive(list, dependent);
    UnresolvedStep(g[dependent], order, name);
    CountGrows(list, j + 1, dependent);
    ReadyIsZero(g, order, dependent);
    forall m { CountUpTo(list, j, m); }
  }

  method PushSorted(was: seq<string>, name: string) returns (ready: seq<string>)
    requires NoDuplicates(was) && name !in was
    ensures Sorted(ready) && NoDuplicates(ready) && forall m :: m in ready <==> m in was || m == name
  {
    ready := was + [name];
    SortKeeps(ready);
    ready := Sort(ready);
  }

  /** The inner loop of one round: `name` was built, its dependents count down. */
  method CountDown(g: Graph, ghost order: seq<string>, name: string, list: seq<string>,
                   was: map<string, int>, shifted: seq<string>)
      returns (remaining: map<string, int>, ready: seq<string>)
    requires Greedy(g, order) && Ready(g, order, name) && Counts(g, order, was)
    requires forall m :: Count(list, m) == Declared(g, m, name)
    requires Sorted(shifted) && NoDuplicates(shifted) && forall m :: m in shifted <==> Ready(g, order, m) && m != name
    ensures Counts(g, order + [name], remaining) && IsReadyList(g, order + [name], ready)
  {
    remaining, ready := was, shifted;
    assert list[..0] == [];
    for j := 0 to |list|
      invariant remaining.Keys == g.Keys
      invariant forall m | m in g :: remaining[m] == Unresolved(g[m], order) - Count(list[..j], m)
      invariant Sorted(ready) && NoDuplicates(ready)
      invariant forall m :: m in ready <==> m in shifted || (Count(list[..j], m) > 0 && m in g && remaining[m] == 0)
    {
      var dependent := list[j];
      DependentCounts(g, order, name, list, j);
      var next := remaining[dependent] - 1;
      remaining := remaining[dependent := next];
      if next == 0 {
        ready := PushSorted(ready, dependent);
      }
    }
    assert list[..|list|] == list;
    CountedDown(g, order, name, list, was, remaining, ready, shifted);
  }

  lemma CountedDown(g: Graph, order: seq<string>, name: string, list: seq<string>, was: map<string, int>,
                    remaining: map<string, int>, ready: seq<string>, shifted: seq<string>)
    requires Greedy(g, order) && Ready(g, order, name) && Counts(g, order, was)
    requires forall m :: Count(list, m) == Declared(g, m, name)
    requires forall m :: m in shifted <==> Ready(g, order, m) && m != name
    requires remaining.Keys == g.Keys && forall m | m in g :: remaining[m] == Unresolved(g[m], order) - Count(list, m)
    requires forall m :: m in ready <==> m in shifted || (Count(list, m) > 0 && m in g && remaining[m] == 0)
    ensures Counts(g, order + [name], remaining)
    ensures forall m :: m in ready <==> Ready(g, order + [name], m)
  {
    forall m | m in g ensures remaining[m] == Unresolved(g[m], order + [name]) {
      UnresolvedStep(g[m], order, name);
    }
    forall m ensures m in ready <==> Ready(g, order + [name], m) {
      ReadyAfter(g, order, name, m);
    }
  }

  method InitialCounts(g: Graph, entries: seq<string>) returns (remaining: map<string, int>)
    requires Lists(entries, g)
    ensures Counts(g, [], remaining)
  {
    remaining := map[];
    for i := 0 to |entries|
      invariant forall m :: m in remaining <==> m in entries[..i]
      invariant forall m | m in remaining :: m in g && remaining[m] == Unresolved(g[m], [])
    {
      UnresolvedAll(g[entries[i]]);
      remaining := remaining[entries[i] := |g[entries[i]]|];
      assert entries[..i + 1] == entries[..i] + [entries[i]];
    }
    assert entries[..|entries|] == entries;
  }

  /** The entries that satisfy `keep`, in order. */
  function Filter(entries: seq<string>, keep: string -> bool): (kept: seq<string>)
    ensures forall n :: n in kept <==> n in entries && keep(n)
  {
    if entries == [] then [] else (if keep(entries[0]) then [entries[0]] else []) + Filter(entries[1..], keep)
  }

  lemma {:induction false} FilterNoDuplicates(entries: seq<string>, keep: string -> bool)
    requires NoDuplicates(entries)
    ensures NoDuplicates(Filter(entries, keep))
  {
    if entries != [] {
      FilterNoDuplicates(entries[1..], keep);
      assert entries[0] !in entries[1..];
    }
  }

  lemma LeastReadyFirst(g: Graph, order: seq<string>, ready: seq<string>)
    requires IsReadyList(g, order, ready) && ready != []
    ensures LeastReady(g, order, ready[0])
  {
    BeforeIsStrictTotal();
    forall m | Ready(g, order, m) ensures m == ready[0] || Before(ready[0], m) {
      assert m in ready;
    }
  }

  /** Packages that all depend on one of their own number or on a missing package. */
  ghost predicate Blocked(g: Graph, names: set<string>) {
    forall n | n in names :: n in g && BlockedBy(g, names, n)
  }

  ghost predicate BlockedBy(g: Graph, names: set<string>, n: string) {
    exists d :: DependsOn(g, n, d) && (d !in g || d in names)
  }

  /** The names left over are blocked, and every other set of blocked packages is among them. */
  ghost predicate LeftOver(g: Graph, unresolved: set<string>) {
    Blocked(g, unresolved) && forall names | Blocked(g, names) :: names <= unresolved
  }

  /** No blocked package is ever built. */
  lemma {:induction false} BlockedNeverBuilt(g: Graph, order: seq<string>, names: set<string>, i: nat)
    requires Greedy(g, order) && Blocked(g, names) && i < |order|
    ensures order[i] !in names
    decreases i
  {
    if order[i] in names {
      assert BlockedBy(g, names, order[i]) && LeastReady(g, order[..i], order[i]);
      var d :| DependsOn(g, order[i], d) && (d !in g || d in names);
      var j :| 0 <= j < i && order[..i][j] == d;
      GreedyNoDuplicates(g, order);
      BlockedNeverBuilt(g, order, names, j);
    }
  }

  lemma AllBuilt(g: Graph, order: seq<string>)
    requires Greedy(g, order)
    ensures |order| == |g| <==> forall n | n in g :: n in order
  {
    GreedyNoDuplicates(g, order);
    AsSet(order);
    var built := set n | n in order;
    assert built <= g.Keys && |g.Keys| == |g|;
    if |order| == |g| {
      assert g.Keys == built + (g.Keys - built);
    } else {
      assert built != g.Keys;
    }
  }

  lemma LeftOverIs(g: Graph, order: seq<string>, unresolved: set<string>)
    requires Greedy(g, order) && forall m :: !Ready(g, order, m)
    requires unresolved == set n | n in g && n !in order
    ensures LeftOver(g, unresolved)
  {
    forall n | n in unresolved ensures BlockedBy(g, unresolved, n) {
      assert !Ready(g, order, n);
      var d :| DependsOn(g, n, d) && d !in order;
    }
    forall names, n | Blocked(g, names) && n in names ensures n in unresolved {
      if n in order {
        var i :| 0 <= i < |order| && order[i] == n;
        BlockedNeverBuilt(g, order, names, i);
      }
    }
  }

  lemma {:induction false} SameFilter(entries: seq<string>, p: string -> bool, q: string -> bool)
    requires forall n | n in entries :: p(n) == q(n)
    ensures Filter(entries, p) == Filter(entries, q)
  {
    if entries != [] { SameFilter(entries[1..], p, q); }
  }

  method InitialReady(g: Graph, entries: seq<string>, remaining: map<string, int>) returns (ready: seq<string>)
    requires Lists(entries, g) && Counts(g, [], remaining)
    ensures IsReadyList(g, [], ready)
  {
    var isReady := n => n in remaining && remaining[n] == 0;
    ready := Filter(entries, isReady);
    FilterNoDuplicates(entries, isReady);
    SortKeeps(ready);
    ready := Sort(ready);
    forall m | m in g { ReadyIsZero(g, [], m); }
  }

  method TopologicalBuildOrder(g: Graph, entries: seq<string>) returns (r: Result<seq<string>, seq<string>>)
    requires Lists(entries, g)
    ensures r.Success? ==> LeastBuildOrder(g, r.value)
    ensures r.Failure? <==> HasCycle(g) || HasMissing(g)
    ensures r.Failure? ==> r.error != [] && LeftOver(g, set n | n in r.error)
    ensures r.Failure? ==> r.error == Filter(entries, n => n in r.error)
  {
    var remaining := InitialCounts(g, entries);
    var dependents := CollectDependents(g, entries);
    var ready := InitialReady(g, entries, remaining);
    var order: seq<string> := [];
    ghost var left := g.Keys;
    while |ready| > 0
      invariant Greedy(g, order) && Counts(g, order, remaining) && IsReadyList(g, order, ready)
      invariant left == set m | m in g && m !in order
      decreases |left|
    {
      var name := ready[0];
      LeastReadyFirst(g, order, ready);
      GreedyStep(g, order, name);
      assert ready[0] !in ready[1..];
      assert forall m :: Listed(dependents, name, m) == Declared(g, m, name);
      remaining, ready := CountDown(g, order, name, Dependents(dependents, name), remaining, ready[1..]);
      order := order + [name];
      left := left - {name};
    }
    AllBuilt(g, order);
    if |order| != |g| {
      var built := order;
      var unresolved := Filter(entries, n => n !in built);
      NotAllBuilt(g, entries, order, unresolved);
      return Failure(unresolved);
    }
    GreedyIsLeast(g, order);
    BuildOrderExcludes(g, order);
    return Success(order);
  }

  lemma NotAllBuilt(g: Graph, entries: seq<string>, order: seq<string>, unresolved: seq<string>)
    requires Lists(entries, g) && Greedy(g, order) && forall m :: !Ready(g, order, m)
    requires unresolved == Filter(entries, n => n !in order)
    requires exists n | n in g :: n !in order
    ensures HasCycle(g) || HasMissing(g)
    ensures unresolved != [] && LeftOver(g, set n | n in unresolved)
              && unresolved == Filter(entries, n => n in unresolved)
  {
    var n :| n in g && n !in order;
    StuckMeansCycle(g, order, n);
    LeftOverIs(g, order, set n | n in unresolved);
    SameFilter(entries, n => n !in order, n => n in unresolved);
    assert n in unresolved;
  }

  lemma DifferFacts(a: seq<string>, b: seq<string>, i: nat)
    requires DifferAt(a, b, i)
    ensures a[i] != b[i] && forall k | 0 <= k < i :: a[k] == b[k]
  {
    BeforeIrreflexive(a[i]);
    assert forall k | 0 <= k < i :: a[k] == a[..i][k] && b[k] == b[..i][k];
  }

  /** There is only one least build order, so the order in which the map lists the packages is irrelevant. */
  lemma InsertionOrderIrrelevant(g: Graph, a: seq<string>, b: seq<string>)
    requires LeastBuildOrder(g, a) && LeastBuildOrder(g, b)
    ensures a == b
  {
    if a != b {
      var i: nat :| DifferAt(a, b, i);
      var j: nat :| DifferAt(b, a, j);
      DifferFacts(a, b, i);
      DifferFacts(b, a, j);
      BeforeIsStrictTotal();
      assert false;
    }
  }

  // ---------------------------------------------------------------- the workspace graph

  /** A publishable package and the keys of its three dependency fields. */
  datatype Package = Package(name: string, dependencies: seq<string>, peers: seq<string>, dev: seq<string>)

  /** The keys of `{ ...a, ...b }`. */
  function SpreadKeys(a: seq<string>, b: seq<string>): (keys: seq<string>)
    ensures forall k :: k in keys <==> k in a || k in b
  {
    a + Filter(b, k => k !in a)
  }

  /** The declared packages that are themselves in the workspace, sorted. */
  function WorkspaceDeps(p: Package, names: set<string>): (deps: seq<string>)
    ensures forall d :: d in deps <==> d in names && (d in p.dependencies || d in p.peers || d in p.dev)
  {
    var declared := SpreadKeys(SpreadKeys(p.dependencies, p.peers), p.dev);
    var kept := Filter(declared, d => d in names);
    SortKeeps(kept);
    Sort(kept)
  }

  /** `new Map(entries)`: a later entry replaces an earlier one of the same name. */
  function GraphOf(packages: seq<Package>, names: set<string>): Graph {
    if packages == [] then map[]
    else
      var last := packages[|packages| - 1];
      GraphOf(packages[..|packages| - 1], names)[last.name := WorkspaceDeps(last, names)]
  }

  lemma {:induction false} GraphOfNames(packages: seq<Package>, names: set<string>)
    ensures forall i | 0 <= i < |packages| :: packages[i].name in GraphOf(packages, names)
    ensures forall n, d | DependsOn(GraphOf(packages, names), n, d) :: d in names
  {
    if packages != [] {
      var rest := packages[..|packages| - 1];
      GraphOfNames(rest, names);
      assert forall i | 0 <= i < |packages| - 1 :: packages[i] == rest[i];
      forall n, d | DependsOn(GraphOf(packages, names), n, d) ensures d in names {
        if n != packages[|packages| - 1].name { assert DependsOn(GraphOf(rest, names), n, d); }
      }
    }
  }

  function DependencyGraph(packages: seq<Package>): Graph {
    GraphOf(packages, set p | p in packages :: p.name)
  }

  /** In the graph built from the workspace nothing is missing, so only a cycle can fail the release. */
  lemma WorkspaceGraphIsClosed(packages: seq<Package>)
    ensures !HasMissing(DependencyGraph(packages))
  {
    var g := DependencyGraph(packages);
    GraphOfNames(packages, set p | p in packages :: p.name);
    forall n, d | DependsOn(g, n, d) ensures d in g {
      var p :| p in packages && p.name == d;
      var i :| 0 <= i < |packages| && packages[i] == p;
    }
  }

  method ReleaseOrder(packages: seq<Package>, entries: seq<string>) returns (r: Result<seq<string>, seq<string>>)
    requires Lists(entries, DependencyGraph(packages))
    ensures r.Success? ==> LeastBuildOrder(DependencyGraph(packages), r.value)
    ensures r.Failure? <==> HasCycle(DependencyGraph(packages))
  {
    r := TopologicalBuildOrder(DependencyGraph(packages), entries);
    WorkspaceGraphIsClosed(packages);
  }
}
