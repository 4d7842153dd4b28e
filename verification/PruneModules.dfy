/** Pruning node_modules for the runtime image: scripts/prune-runtime-node-modules.ts. */
module PruneModules {
  import opened Collections
  import opened Wrappers

  /** The fields of a package.json the script reads; an empty name stands for none. */
  datatype Manifest = Manifest(name: string, dependencies: seq<string>, optionalDependencies: seq<string>,
                               os: Option<seq<string>>, cpu: Option<seq<string>>, libc: Option<seq<string>>)

  /** What there is where a package.json is looked for. */
  datatype PackageJson = Missing | Unreadable | Readable(manifest: Manifest)

  /** The installed tree: what lies directly in node_modules, and in each of its scope directories. */
  datatype Tree = Tree(entries: map<string, PackageJson>, scopes: map<string, map<string, PackageJson>>)

  // ---------------------------------------------------------------- names and paths

  function FullName(scope: string, child: string): string {
    scope + "/" + child
  }

  /** Directory entries have no slash in their names; scopes are the entries that start with an at sign. */
  predicate WellFormed(t: Tree) {
    && (forall n | n in t.entries :: FirstOf('/', n) == |n| && !(n != [] && n[0] == '@'))
    && (forall s | s in t.scopes :: FirstOf('/', s) == |s| && s != [] && s[0] == '@')
  }

  /** The package.json at a name: `join(nodeModulesDir, name, "package.json")`. */
  function JsonAt(t: Tree, name: string): PackageJson {
    var i := FirstOf('/', name);
    if i == |name| then
      if name in t.entries then t.entries[name] else Missing
    else if name[..i] in t.scopes && name[i + 1..] in t.scopes[name[..i]] then t.scopes[name[..i]][name[i + 1..]]
    else Missing
  }

  lemma JsonAtFull(t: Tree, scope: string, child: string)
    requires FirstOf('/', scope) == |scope| && scope in t.scopes && child in t.scopes[scope]
    ensures JsonAt(t, FullName(scope, child)) == t.scopes[scope][child]
  {
    var name := FullName(scope, child);
    assert name[|scope|] == '/';
    assert forall j | 0 <= j < |scope| :: name[j] == scope[j];
    assert FirstOf('/', name) == |scope|;
    assert name[..|scope|] == scope && name[|scope| + 1..] == child;
  }

  function ScopedNames(t: Tree): set<string> {
    set s, c | s in t.scopes && c in t.scopes[s] :: FullName(s, c)
  }

  /** The names under which a package.json is installed. */
  function Installed(t: Tree): set<string> {
    set n | n in t.entries.Keys + ScopedNames(t) && JsonAt(t, n) != Missing
  }

  lemma InstalledHere(t: Tree, name: string)
    ensures name in Installed(t) <==> JsonAt(t, name) != Missing
  {
    var i := FirstOf('/', name);
    if i < |name| && JsonAt(t, name) != Missing {
      assert name == FullName(name[..i], name[i + 1..]);
    }
  }

  // ---------------------------------------------------------------- the keep set

  function DepsOf(json: PackageJson): seq<string> {
    match json
    case Readable(m) => m.dependencies + m.optionalDependencies
    case _ => []
  }

  /** What a seed puts into the queue. */
  function SeedNames(json: PackageJson): seq<string> {
    DepsOf(json) + if json.Readable? && json.manifest.name != "" then [json.manifest.name] else []
  }

  function AllSeedNames(seeds: seq<PackageJson>): seq<string> {
    if seeds == [] then [] else AllSeedNames(seeds[..|seeds| - 1]) + SeedNames(seeds[|seeds| - 1])
  }

  predicate DepsWithin(t: Tree, n: string, s: set<string>) {
    forall d | d in DepsOf(JsonAt(t, n)) && d in Installed(t) :: d in s
  }

  /** Closed under the dependencies that are installed. */
  predicate Closed(t: Tree, s: set<string>) {
    forall n | n in s :: DepsWithin(t, n, s)
  }

  predicate HasSeeds(t: Tree, names: seq<string>, s: set<string>) {
    forall n | n in names && n in Installed(t) :: n in s
  }

  /** The runtime needs: the installed packages in every closed set around the seeds. */
  ghost function Kept(t: Tree, names: seq<string>): set<string> {
    set n | n in Installed(t) && forall s: set<string> | HasSeeds(t, names, s) && Closed(t, s) :: n in s
  }

  predicate Queued(t: Tree, names: seq<string>, keep: set<string>, queue: seq<string>) {
    forall n | n in names && n in Installed(t) :: n in keep || n in queue
  }

  predicate Pending(t: Tree, keep: set<string>, queue: seq<string>) {
    forall n | n in keep :: DepsQueued(t, n, keep, queue)
  }

  predicate DepsQueued(t: Tree, n: string, keep: set<string>, queue: seq<string>) {
    forall d | d in DepsOf(JsonAt(t, n)) && d in Installed(t) :: d in keep || d in queue
  }

  predicate NoMore(t: Tree, keep: set<string>, queue: seq<string>, s: set<string>) {
    keep <= s && forall n | n in queue && n in Installed(t) :: n in s
  }

  ghost predicate NeededSoFar(t: Tree, names: seq<string>, keep: set<string>, queue: seq<string>) {
    forall s: set<string> | HasSeeds(t, names, s) && Closed(t, s) :: NoMore(t, keep, queue, s)
  }

  predicate WorkState(t: Tree, names: seq<string>, keep: set<string>, queue: seq<string>) {
    keep <= Installed(t) && Queued(t, names, keep, queue) && Pending(t, keep, queue)
  }

  lemma QueueSplit(queue: seq<string>, name: string, rest: seq<string>)
    requires queue != [] && name == queue[|queue| - 1] && rest == queue[..|queue| - 1]
    ensures forall n :: n in queue <==> n in rest || n == name
  {
    assert queue == rest + [name];
  }

  /** A popped name that is kept already or not installed can be dropped. */
  lemma Skipped(t: Tree, names: seq<string>, keep: set<string>, queue: seq<string>, name: string, rest: seq<string>)
    requires WorkState(t, names, keep, queue) && NeededSoFar(t, names, keep, queue)
    requires forall n :: n in queue <==> n in rest || n == name
    requires name in keep || name !in Installed(t)
    ensures WorkState(t, names, keep, rest) && NeededSoFar(t, names, keep, rest)
  {
    forall n | n in keep ensures DepsQueued(t, n, keep, rest) { assert DepsQueued(t, n, keep, queue); }
    forall s: set<string> | HasSeeds(t, names, s) && Closed(t, s) ensures NoMore(t, keep, rest, s) {
      assert NoMore(t, keep, queue, s);
    }
  }

  /** A new installed name is kept, and its dependencies join the queue. */
  lemma Taken(t: Tree, names: seq<string>, keep: set<string>, queue: seq<string>, name: string, rest: seq<string>,
              more: seq<string>)
    requires WorkState(t, names, keep, queue) && NeededSoFar(t, names, keep, queue)
    requires forall n :: n in queue <==> n in rest || n == name
    requires name in Installed(t) && forall n :: n in more <==> n in rest || n in DepsOf(JsonAt(t, name))
    ensures WorkState(t, names, keep + {name}, more) && NeededSoFar(t, names, keep + {name}, more)
  {
    var keep' := keep + {name};
    forall n | n in keep' ensures DepsQueued(t, n, keep', more) {
      if n in keep { assert DepsQueued(t, n, keep, queue); }
    }
    forall s: set<string> | HasSeeds(t, names, s) && Closed(t, s) ensures NoMore(t, keep', more, s) {
      assert NoMore(t, keep, queue, s);
      assert name in s && DepsWithin(t, name, s);
    }
  }

  lemma Finished(t: Tree, names: seq<string>, keep: set<string>)
    requires WorkState(t, names, keep, []) && NeededSoFar(t, names, keep, [])
    ensures keep == Kept(t, names) && HasSeeds(t, names, keep) && Closed(t, keep)
  {
    forall n | n in keep ensures DepsWithin(t, n, keep) { assert DepsQueued(t, n, keep, []); }
    forall n | n in keep ensures n in Kept(t, names) {
      forall s: set<string> | HasSeeds(t, names, s) && Closed(t, s) ensures n in s { assert NoMore(t, keep, [], s); }
    }
  }

  lemma SeedNamesUpTo(seeds: seq<PackageJson>, i: nat)
    requires i < |seeds|
    ensures AllSeedNames(seeds[..i + 1]) == AllSeedNames(seeds[..i]) + SeedNames(seeds[i])
  {
    assert seeds[..i + 1][..i] == seeds[..i];
  }

  method Enqueue(queue: seq<string>, seed: PackageJson) returns (r: seq<string>)
    ensures r == queue + SeedNames(seed)
  {
    r := queue + DepsOf(seed);
    if seed.Readable? && seed.manifest.name != "" { r := r + [seed.manifest.name]; }
  }

  method SeedQueue(seeds: seq<PackageJson>) returns (queue: seq<string>)
    ensures queue == AllSeedNames(seeds)
  {
    queue := [];
    for i := 0 to |seeds|
      invariant queue == AllSeedNames(seeds[..i])
    {
      SeedNamesUpTo(seeds, i);
      queue := Enqueue(queue, seeds[i]);
    }
    assert seeds[..|seeds|] == seeds;
  }

  ghost predicate Working(t: Tree, names: seq<string>, keep: set<string>, queue: seq<string>) {
    WorkState(t, names, keep, queue) && NeededSoFar(t, names, keep, queue)
  }

  function Left(t: Tree, keep: set<string>): nat {
    |Installed(t) - keep|
  }

  lemma LessLeft(t: Tree, keep: set<string>, name: string)
    requires name in Installed(t) && name !in keep
    ensures Left(t, keep + {name}) < Left(t, keep)
  {
    assert Installed(t) - (keep + {name}) == (Installed(t) - keep) - {name};
  }

  lemma SkipStep(t: Tree, names: seq<string>, keep: set<string>, queue: seq<string>)
    requires Working(t, names, keep, queue) && queue != []
    requires queue[|queue| - 1] in keep || JsonAt(t, queue[|queue| - 1]) == Missing
    ensures Working(t, names, keep, queue[..|queue| - 1])
  {
    var name, rest := queue[|queue| - 1], queue[..|queue| - 1];
    QueueSplit(queue, name, rest);
    InstalledHere(t, name);
    Skipped(t, names, keep, queue, name, rest);
  }

  lemma TakeStep(t: Tree, names: seq<string>, keep: set<string>, queue: seq<string>)
    requires Working(t, names, keep, queue) && queue != []
    requires queue[|queue| - 1] !in keep && JsonAt(t, queue[|queue| - 1]) != Missing
    ensures var name := queue[|queue| - 1];
            && Working(t, names, keep + {name}, queue[..|queue| - 1] + DepsOf(JsonAt(t, name)))
            && Left(t, keep + {name}) < Left(t, keep)
  {
    var name, rest := queue[|queue| - 1], queue[..|queue| - 1];
    QueueSplit(queue, name, rest);
    InstalledHere(t, name);
    LessLeft(t, keep, name);
    Taken(t, names, keep, queue, name, rest, rest + DepsOf(JsonAt(t, name)));
  }

  lemma StartWorking(t: Tree, names: seq<string>)
    ensures Working(t, names, {}, names)
  {
  }

  /** Names are popped from the end; the result does not depend on that. */
  method ComputeKeepSet(t: Tree, seeds: seq<PackageJson>) returns (keep: set<string>)
    ensures keep == Kept(t, AllSeedNames(seeds))
    ensures keep <= Installed(t) && HasSeeds(t, AllSeedNames(seeds), keep) && Closed(t, keep)
  {
    var queue := SeedQueue(seeds);
    ghost var names := queue;
    keep := {};
    StartWorking(t, names);
    while |queue| > 0
      invariant Working(t, names, keep, queue)
      decreases Left(t, keep), |queue|
    {
      var name := queue[|queue| - 1];
      if name in keep || JsonAt(t, name) == Missing {
        SkipStep(t, names, keep, queue);
        queue := queue[..|queue| - 1];
      } else {
        TakeStep(t, names, keep, queue);
        keep, queue := keep + {name}, queue[..|queue| - 1] + DepsOf(JsonAt(t, name));
      }
    }
    assert queue == [];
    Finished(t, names, keep);
  }

  // ---------------------------------------------------------------- pruning

  datatype Platform = Platform(platform: string, arch: string, musl: bool)

  predicate PlatformMatches(m: Manifest, p: Platform) {
    if m.os.Some? && p.platform !in m.os.value then false
    else if m.cpu.Some? && p.arch !in m.cpu.value then false
    else if m.libc.Some? then (if p.musl then "musl" else "glibc") in m.libc.value
    else if EndsWith(m.name, "-musl") then p.musl
    else if EndsWith(m.name, "-gnu") then !p.musl
    else true
  }

  predicate Excludes(allowed: Option<seq<string>>, value: string) {
    allowed.Some? && value !in allowed.value
  }

  /** A package fits exactly when no list it declares excludes the platform and, if it declares no libc, its
      name does not claim the other one. */
  lemma PlatformFits(m: Manifest, p: Platform)
    ensures PlatformMatches(m, p) <==>
              && !Excludes(m.os, p.platform) && !Excludes(m.cpu, p.arch)
              && !Excludes(m.libc, if p.musl then "musl" else "glibc")
              && (m.libc == None ==> !EndsWith(m.name, if p.musl then "-gnu" else "-musl"))
  {
    LastCharacters(m.name);
  }

  lemma LastCharacters(name: string)
    ensures !(EndsWith(name, "-musl") && EndsWith(name, "-gnu"))
  {
    assert "-musl"[4] == 'l' && "-gnu"[3] == 'u';
  }

  predicate Hidden(name: string) {
    name != [] && name[0] == '.'
  }

  /** A kept package stays if its package.json does not say otherwise. */
  predicate Stays(keep: set<string>, p: Platform, name: string, json: PackageJson) {
    name in keep && (json.Readable? ==> PlatformMatches(json.manifest, p))
  }

  predicate EntryStays(keep: set<string>, p: Platform, name: string, json: PackageJson) {
    Hidden(name) || Stays(keep, p, name, json)
  }

  /** The children of a scope after pruning; hidden ones are not spared here. */
  function ChildrenAfter(keep: set<string>, p: Platform, scope: string,
                         children: map<string, PackageJson>): map<string, PackageJson> {
    map c | c in children && Stays(keep, p, FullName(scope, c), children[c]) :: children[c]
  }

  function EntriesAfter(keep: set<string>, p: Platform, entries: map<string, PackageJson>,
                        pending: set<string>): map<string, PackageJson> {
    map n | n in entries && (n in pending || EntryStays(keep, p, n, entries[n])) :: entries[n]
  }

  /** A scope left empty goes too. */
  function ScopesAfter(keep: set<string>, p: Platform, scopes: map<string, map<string, PackageJson>>,
                       pending: set<string>)
      : map<string, map<string, PackageJson>> {
    map s | s in scopes && (s in pending || ChildrenAfter(keep, p, s, scopes[s]) != map[]) ::
      if s in pending then scopes[s] else ChildrenAfter(keep, p, s, scopes[s])
  }

  function Pruned(t: Tree, keep: set<string>, p: Platform): Tree {
    Tree(EntriesAfter(keep, p, t.entries, {}), ScopesAfter(keep, p, t.scopes, {}))
  }

  predicate RemovedEntry(t: Tree, keep: set<string>, p: Platform, n: string) {
    n in t.entries && !EntryStays(keep, p, n, t.entries[n])
  }

  predicate RemovedFrom(children: map<string, PackageJson>, keep: set<string>, p: Platform, s: string, n: string) {
    exists c | c in children :: n == FullName(s, c) && !Stays(keep, p, n, children[c])
  }

  predicate RemovedChild(t: Tree, keep: set<string>, p: Platform, s: string, n: string) {
    s in t.scopes && RemovedFrom(t.scopes[s], keep, p, s, n)
  }

  /** The names removed once all but the pending directory entries have been looked at. */
  ghost predicate Removed(t: Tree, keep: set<string>, p: Platform, pending: set<string>, n: string) {
    (n !in pending && RemovedEntry(t, keep, p, n)) || exists s :: s !in pending && RemovedChild(t, keep, p, s, n)
  }

  lemma NothingLooked(t: Tree, keep: set<string>, p: Platform)
    ensures EntriesAfter(keep, p, t.entries, t.entries.Keys + t.scopes.Keys) == t.entries
    ensures ScopesAfter(keep, p, t.scopes, t.entries.Keys + t.scopes.Keys) == t.scopes
    ensures forall n :: !Removed(t, keep, p, t.entries.Keys + t.scopes.Keys, n)
  {
  }

  lemma LookedAtHidden(t: Tree, keep: set<string>, p: Platform, pending: set<string>, name: string)
    requires Hidden(name) && name !in t.scopes
    ensures EntriesAfter(keep, p, t.entries, pending - {name}) == EntriesAfter(keep, p, t.entries, pending)
    ensures ScopesAfter(keep, p, t.scopes, pending - {name}) == ScopesAfter(keep, p, t.scopes, pending)
  {
  }

  lemma NothingByHidden(t: Tree, keep: set<string>, p: Platform, pending: set<string>, name: string, n: string)
    requires Hidden(name) && name !in t.scopes
    ensures Removed(t, keep, p, pending - {name}, n) <==> Removed(t, keep, p, pending, n)
  {
  }

  lemma LookedAtEntry(t: Tree, keep: set<string>, p: Platform, pending: set<string>, name: string)
    requires name in pending && name in t.entries && name !in t.scopes && !Hidden(name)
    ensures name in EntriesAfter(keep, p, t.entries, pending)
    ensures EntriesAfter(keep, p, t.entries, pending)[name] == t.entries[name]
    ensures EntriesAfter(keep, p, t.entries, pending - {name}) ==
            if Stays(keep, p, name, t.entries[name]) then EntriesAfter(keep, p, t.entries, pending)
            else EntriesAfter(keep, p, t.entries, pending) - {name}
    ensures ScopesAfter(keep, p, t.scopes, pending - {name}) == ScopesAfter(keep, p, t.scopes, pending)
  {
  }

  lemma RemovedByEntry(t: Tree, keep: set<string>, p: Platform, pending: set<string>, name: string, n: string)
    requires name in pending && name in t.entries && name !in t.scopes && !Hidden(name)
    ensures Removed(t, keep, p, pending - {name}, n) <==>
            Removed(t, keep, p, pending, n) || (n == name && !Stays(keep, p, name, t.entries[name]))
  {
  }

  lemma LookedAtScope(t: Tree, keep: set<string>, p: Platform, pending: set<string>, name: string)
    requires name in pending && name in t.scopes && name !in t.entries
    ensures name in ScopesAfter(keep, p, t.scopes, pending)
    ensures ScopesAfter(keep, p, t.scopes, pending)[name] == t.scopes[name]
    ensures ScopesAfter(keep, p, t.scopes, pending - {name}) ==
            var left := ChildrenAfter(keep, p, name, t.scopes[name]);
            if left == map[] then ScopesAfter(keep, p, t.scopes, pending) - {name}
            else ScopesAfter(keep, p, t.scopes, pending)[name := left]
    ensures EntriesAfter(keep, p, t.entries, pending - {name}) == EntriesAfter(keep, p, t.entries, pending)
  {
  }

  lemma RemovedByScope(t: Tree, keep: set<string>, p: Platform, pending: set<string>, name: string, n: string)
    requires name in pending && name in t.scopes && name !in t.entries
    ensures Removed(t, keep, p, pending - {name}, n) <==>
            Removed(t, keep, p, pending, n) || RemovedFrom(t.scopes[name], keep, p, name, n)
  {
  }

  class NodeModules {
    var entries: map<string, PackageJson>
    var scopes: map<string, map<string, PackageJson>>

    ghost function Contents(): Tree
      reads this
    {
      Tree(entries, scopes)
    }

    constructor (t: Tree)
      ensures Contents() == t
    {
      entries, scopes := t.entries, t.scopes;
    }

    /** The directories of a scope, in any order, and then the scope itself if nothing is left in it. */
    method PruneScope(scope: string, keep: set<string>, p: Platform) returns (removed: set<string>)
      requires scope in scopes
      modifies `scopes
      ensures scopes == var left := ChildrenAfter(keep, p, scope, old(scopes[scope]));
                        if left == map[] then old(scopes) - {scope} else old(scopes)[scope := left]
      ensures forall n :: n in removed <==> RemovedFrom(old(scopes[scope]), keep, p, scope, n)
    {
      ghost var was := scopes[scope];
      var children, pending := scopes[scope], scopes[scope].Keys;
      removed := {};
      while pending != {}
        invariant pending <= was.Keys
        invariant children == map c | c in was && (c in pending || Stays(keep, p, FullName(scope, c), was[c])) :: was[c]
        invariant forall n :: n in removed <==>
                    exists c | c in was :: c !in pending && n == FullName(scope, c) && !Stays(keep, p, n, was[c])
        decreases |pending|
      {
        var c :| c in pending;
        var name := FullName(scope, c);
        pending := pending - {c};
        if name !in keep || (children[c].Readable? && !PlatformMatches(children[c].manifest, p)) {
          children := children - {c};
          removed := removed + {name};
        }
      }
      assert children == ChildrenAfter(keep, p, scope, was);
      if children == map[] { scopes := scopes - {scope}; } else { scopes := scopes[scope := children]; }
    }

    /** `pruneNodeModules` */
    method Prune(keep: set<string>, p: Platform) returns (removed: set<string>)
      requires WellFormed(Contents())
      modifies this
      ensures Contents() == Pruned(old(Contents()), keep, p)
      ensures forall n :: n in removed <==>
                RemovedEntry(old(Contents()), keep, p, n) || exists s :: RemovedChild(old(Contents()), keep, p, s, n)
    {
      ghost var t := Contents();
      var pending := entries.Keys + scopes.Keys;
      removed := {};
      NothingLooked(t, keep, p);
      while pending != {}
        invariant pending <= t.entries.Keys + t.scopes.Keys
        invariant entries == EntriesAfter(keep, p, t.entries, pending)
        invariant scopes == ScopesAfter(keep, p, t.scopes, pending)
        invariant forall n :: n in removed <==> Removed(t, keep, p, pending, n)
        decreases |pending|
      {
        var name :| name in pending;
        var gone := LookAt(t, name, pending, keep, p);
        removed := removed + gone;
        pending := pending - {name};
      }
    }

    method LookAt(ghost t: Tree, name: string, ghost pending: set<string>, keep: set<string>, p: Platform)
        returns (gone: set<string>)
      requires WellFormed(t) && name in pending && name in t.entries.Keys + t.scopes.Keys
      requires entries == EntriesAfter(keep, p, t.entries, pending) && scopes == ScopesAfter(keep, p, t.scopes, pending)
      modifies this
      ensures entries == EntriesAfter(keep, p, t.entries, pending - {name})
      ensures scopes == ScopesAfter(keep, p, t.scopes, pending - {name})
      ensures forall n :: Removed(t, keep, p, pending - {name}, n) <==> n in gone || Removed(t, keep, p, pending, n)
    {
      gone := {};
      if Hidden(name) {
        assert name !in t.scopes;
        LookedAtHidden(t, keep, p, pending, name);
        forall n { NothingByHidden(t, keep, p, pending, name, n); }
      } else if name != [] && name[0] == '@' {
        LookedAtScope(t, keep, p, pending, name);
        gone := PruneScope(name, keep, p);
        forall n { RemovedByScope(t, keep, p, pending, name, n); }
      } else {
        LookedAtEntry(t, keep, p, pending, name);
        if name !in keep || (entries[name].Readable? && !PlatformMatches(entries[name].manifest, p)) {
          entries := entries - {name};
          gone := {name};
        }
        forall n { RemovedByEntry(t, keep, p, pending, name, n); }
      }
    }
  }

  // ---------------------------------------------------------------- what is left

  predicate TopLevel(name: string) {
    FirstOf('/', name) == |name|
  }

  /** A name the prune leaves alone: hidden, directly in node_modules. */
  predicate Spared(name: string) {
    TopLevel(name) && Hidden(name)
  }

  lemma ChildAfterPrune(children: map<string, PackageJson>, keep: set<string>, p: Platform, s: string, c: string)
    ensures c in ChildrenAfter(keep, p, s, children) <==> c in children && Stays(keep, p, FullName(s, c), children[c])
    ensures c in ChildrenAfter(keep, p, s, children) ==> ChildrenAfter(keep, p, s, children)[c] == children[c]
  {
  }

  function JsonIn(scopes: map<string, map<string, PackageJson>>, s: string, c: string): PackageJson {
    if s in scopes && c in scopes[s] then scopes[s][c] else Missing
  }

  lemma ScopeAfterPrune(scopes: map<string, map<string, PackageJson>>, keep: set<string>, p: Platform, s: string,
                        c: string)
    ensures var json := JsonIn(scopes, s, c);
            JsonIn(ScopesAfter(keep, p, scopes, {}), s, c) == if Stays(keep, p, FullName(s, c), json) then json
            else Missing
  {
    if s in scopes { ChildAfterPrune(scopes[s], keep, p, s, c); }
  }

  lemma JsonAtScoped(t: Tree, name: string, i: nat)
    requires i == FirstOf('/', name) < |name|
    ensures JsonAt(t, name) == JsonIn(t.scopes, name[..i], name[i + 1..])
  {
  }

  lemma NameParts(name: string, i: nat)
    requires i < |name| && name[i] == '/'
    ensures FullName(name[..i], name[i + 1..]) == name
  {
  }

  lemma JsonAfterPrune(t: Tree, keep: set<string>, p: Platform, name: string)
    requires WellFormed(t)
    ensures JsonAt(Pruned(t, keep, p), name) ==
            if Spared(name) || Stays(keep, p, name, JsonAt(t, name)) then JsonAt(t, name) else Missing
  {
    var i := FirstOf('/', name);
    if i < |name| {
      JsonAtScoped(t, name, i);
      JsonAtScoped(Pruned(t, keep, p), name, i);
      NameParts(name, i);
      ScopeAfterPrune(t.scopes, keep, p, name[..i], name[i + 1..]);
    }
  }

  /** Pruned by its own keep set, the tree holds exactly the runtime needs that fit the platform, besides
      what is hidden, and no directory without a package.json. */
  lemma PruneLeavesNeeds(t: Tree, seeds: seq<PackageJson>, p: Platform, keep: set<string>)
    requires WellFormed(t) && keep == Kept(t, AllSeedNames(seeds))
    ensures var t' := Pruned(t, keep, p);
            && (forall n :: n in Installed(t') <==>
                  n in Installed(t) && (Spared(n) || Stays(Kept(t, AllSeedNames(seeds)), p, n, JsonAt(t, n))))
            && (forall n | n in t'.entries && !Hidden(n) :: n in Installed(t'))
            && (forall s | s in t'.scopes :: t'.scopes[s] != map[] && forall c | c in t'.scopes[s] ::
                FullName(s, c) in Installed(t'))
  {
    var t' := Pruned(t, keep, p);
    forall n ensures n in Installed(t') <==> n in Installed(t) && (Spared(n) || Stays(keep, p, n, JsonAt(t, n))) {
      InstalledHere(t, n);
      InstalledHere(t', n);
      JsonAfterPrune(t, keep, p, n);
    }
    forall s, c | s in t'.scopes && c in t'.scopes[s] ensures FullName(s, c) in Installed(t') {
      JsonAtFull(t, s, c);
    }
  }
}
