/** Uploading a bundle: apps/upload/src/index.ts. The files are stored concurrently; any file's next step may
    come at any time, statting and storing may fail, and a failed store may still have taken effect. */
module BundleUpload {
  import opened Wrappers
  import opened BundleKeys
  import opened BundleStore

  /** A file with its contents decoded. */
  datatype File = File(path: string, bytes: seq<bv8>)

  datatype Failure =
    | InvalidNamespace
    | InvalidPath(path: string)
    | EmptyFile(path: string)
    | TooLarge(total: nat)
    | StoreFailed

  datatype Report = Report(storedCount: nat, unchangedCount: nat, totalBytes: nat, integrity: map<string, string>)

  // ---------------------------------------------------------------- checking the request

  function Problem(f: File): Option<Failure> {
    if ValidateObjectPath(f.path) == None then Some(InvalidPath(f.path))
    else if f.bytes == [] then Some(EmptyFile(f.path))
    else None
  }

  function FirstProblem(files: seq<File>): (p: Option<Failure>)
    ensures p.Some? ==> p.value.InvalidPath? || p.value.EmptyFile?
  {
    if files == [] then None
    else if Problem(files[0]).Some? then Problem(files[0])
    else FirstProblem(files[1..])
  }

  function TotalBytes(files: seq<File>): nat {
    if files == [] then 0 else TotalBytes(files[..|files| - 1]) + |files[|files| - 1].bytes|
  }

  /** The loop over the input files; an accepted path is stored as it was given. */
  method DecodeFiles(files: seq<File>) returns (problem: Option<Failure>, decoded: seq<File>)
    ensures problem == FirstProblem(files)
    ensures problem == None ==> decoded == files
  {
    problem, decoded := None, [];
    var i := 0;
    while i < |files|
      invariant i <= |files| && decoded == files[..i] && FirstProblem(files) == FirstProblem(files[i..])
    {
      var path := ValidateObjectPath(files[i].path);
      if path == None { return Some(InvalidPath(files[i].path)), decoded; }
      if files[i].bytes == [] { return Some(EmptyFile(files[i].path)), decoded; }
      PathAccepted(files[i].path, 0, 0);
      decoded := decoded + [File(path.value, files[i].bytes)];
      i := i + 1;
    }
  }

  // ---------------------------------------------------------------- storing

  /** A bucket behind a network: any call may fail. The keys of the stats that failed and the number of puts
      that did are on record for the specification only. */
  class Bucket {
    var objects: map<string, Object>
    ghost var failedStats: seq<string>
    ghost var failedPuts: nat

    constructor ()
      ensures objects == map[] && failedStats == [] && failedPuts == 0
    {
      objects, failedStats, failedPuts := map[], [], 0;
    }

    /** A failed put may have taken effect all the same. */
    method Put(key: string, o: Object) returns (ok: bool)
      modifies this
      ensures objects == old(objects)[key := o] || (!ok && objects == old(objects))
      ensures failedStats == old(failedStats) && failedPuts == old(failedPuts) + if ok then 0 else 1
    {
      var lands: bool := *;
      ok := *;
      if ok || lands { objects := objects[key := o]; }
      if !ok { failedPuts := failedPuts + 1; }
    }

    /** The integrity recorded for a key; an error is answered by `ok` being false. */
    method Stat(key: string) returns (ok: bool, sri: Option<string>)
      modifies this
      ensures objects == old(objects) && failedPuts == old(failedPuts)
      ensures ok ==> sri == SriOf(objects, key)
      ensures failedStats == old(failedStats) + if ok then [] else [key]
    {
      ok, sri := *, SriOf(objects, key);
      if !ok { failedStats := failedStats + [key]; }
    }
  }

  function SriOf(objects: map<string, Object>, key: string): Option<string> {
    if key in objects then objects[key].sri else None
  }

  datatype Task = Todo | Putting | Stored | Unchanged

  predicate Finished(t: Task) {
    t == Stored || t == Unchanged
  }

  /** What a file is stored under, and as what. */
  datatype Item = Item(key: string, o: Object)

  type Hash = seq<bv8> -> string

  function ItemOf(ns: Namespace, f: File, hash: Hash): Item {
    Item(BuildBundleKey(ns, f.path), Object(f.bytes, Some(hash(f.bytes))))
  }

  function Items(ns: Namespace, files: seq<File>, hash: Hash): (r: seq<Item>)
    ensures |r| == |files|
    ensures forall i | 0 <= i < |files| :: r[i] == ItemOf(ns, files[i], hash)
  {
    seq(|files|, i requires 0 <= i < |files| => ItemOf(ns, files[i], hash))
  }

  /** In the namespace, going by the key. */
  predicate Under(ns: Namespace, key: string) {
    BuildBundleKey(ns, "") <= key
  }

  predicate AllUnder(ns: Namespace, items: seq<Item>) {
    forall i | 0 <= i < |items| :: Under(ns, items[i].key)
  }

  /** Outside the namespace nothing has changed. */
  ghost predicate OnlyUnder(ns: Namespace, before: map<string, Object>, after: map<string, Object>) {
    forall k | !Under(ns, k) :: (k in before <==> k in after) && (k in before ==> before[k] == after[k])
  }

  /** The recorded integrities are the hashes of the contents. */
  predicate Honest(objects: map<string, Object>, hash: Hash) {
    forall k | k in objects && objects[k].sri.Some? :: objects[k].sri.value == hash(objects[k].bytes)
  }

  /** Files with the same path have the same contents. */
  predicate Agreeing(items: seq<Item>) {
    forall i, j | 0 <= i < |items| && 0 <= j < |items| && items[i].key == items[j].key :: items[i].o == items[j].o
  }

  predicate There(objects: map<string, Object>, item: Item) {
    SriOf(objects, item.key) == item.o.sri
  }

  predicate AllThere(objects: map<string, Object>, items: seq<Item>) {
    forall i | 0 <= i < |items| :: There(objects, items[i])
  }

  predicate FinishedThere(objects: map<string, Object>, items: seq<Item>, tasks: seq<Task>)
    requires |tasks| == |items|
  {
    forall i | 0 <= i < |items| && Finished(tasks[i]) :: There(objects, items[i])
  }

  function Work(tasks: seq<Task>): nat {
    2 * multiset(tasks)[Todo] + multiset(tasks)[Putting]
  }

  predicate Tally(tasks: seq<Task>, stored: nat, same: nat) {
    stored == multiset(tasks)[Stored] && same == multiset(tasks)[Unchanged]
  }

  lemma OneStep(tasks: seq<Task>, i: nat, t: Task, stored: nat, same: nat)
    requires i < |tasks| && Tally(tasks, stored, same)
    requires (tasks[i] == Todo && (t == Unchanged || t == Putting)) || (tasks[i] == Putting && t == Stored)
    ensures Tally(tasks[i := t], if t == Stored then stored + 1 else stored, if t == Unchanged then same + 1 else same)
    ensures Work(tasks[i := t]) < Work(tasks)
  {
    assert multiset(tasks[i := t]) == multiset(tasks) - multiset{tasks[i]} + multiset{t};
    assert tasks[i] in multiset(tasks);
  }

  lemma {:induction false} Counted(tasks: seq<Task>)
    ensures multiset(tasks)[Todo] + multiset(tasks)[Putting] + multiset(tasks)[Stored] + multiset(tasks)[Unchanged] ==
              |tasks|
  {
    if tasks != [] {
      Counted(tasks[1..]);
      assert tasks == [tasks[0]] + tasks[1..];
      assert multiset(tasks) == multiset{tasks[0]} + multiset(tasks[1..]);
      assert tasks[0] == Todo || tasks[0] == Putting || tasks[0] == Stored || tasks[0] == Unchanged;
    }
  }

  lemma PutKeeps(ns: Namespace, before: map<string, Object>, objects: map<string, Object>, item: Item, hash: Hash)
    requires OnlyUnder(ns, before, objects) && Under(ns, item.key)
    requires item.o.sri == Some(hash(item.o.bytes))
    ensures OnlyUnder(ns, before, objects[item.key := item.o])
    ensures Honest(objects, hash) ==> Honest(objects[item.key := item.o], hash)
  {
  }

  lemma PutKeepsFinished(objects: map<string, Object>, items: seq<Item>, tasks: seq<Task>, i: nat)
    requires |tasks| == |items| && i < |items| && Agreeing(items) && FinishedThere(objects, items, tasks)
    ensures FinishedThere(objects[items[i].key := items[i].o], items, tasks)
    ensures There(objects[items[i].key := items[i].o], items[i])
  {
  }

  predicate ItemsAre(items: seq<Item>, hash: Hash) {
    forall i | 0 <= i < |items| :: items[i].o.sri == Some(hash(items[i].o.bytes))
  }

  predicate DistinctKeys(items: seq<Item>) {
    forall i, j | 0 <= i < j < |items| :: items[i].key != items[j].key
  }

  /** The upload puts a file whose object was not there before, and one whose stat failed. */
  predicate ToPut(before: map<string, Object>, item: Item, failures: seq<string>) {
    !There(before, item) || item.key in failures
  }

  /** With distinct keys, what becomes of a file does not depend on the others. */
  predicate Decided(before: map<string, Object>, objects: map<string, Object>, item: Item, t: Task,
                    failures: seq<string>) {
    match t
    case Todo => SriOf(objects, item.key) == SriOf(before, item.key) && item.key !in failures
    case Unchanged => !ToPut(before, item, failures)
    case _ => ToPut(before, item, failures)
  }

  predicate AllDecided(before: map<string, Object>, objects: map<string, Object>, items: seq<Item>, tasks: seq<Task>,
                       failures: seq<string>)
    requires |tasks| == |items|
  {
    forall i | 0 <= i < |items| :: Decided(before, objects, items[i], tasks[i], failures)
  }

  /** Where everything was there before, only failed stats lead to puts. */
  predicate OnlyAfterFailures(before: map<string, Object>, objects: map<string, Object>, items: seq<Item>,
                              tasks: seq<Task>, failures: seq<string>)
  {
    && AllThere(objects, items)
    && multiset(tasks)[Putting] + multiset(tasks)[Stored] == |failures|
    && (failures == [] ==> objects == before)
  }

  /** What holds between any two steps of the concurrent part; `failures` lists its failed stats. */
  ghost predicate Midway(ns: Namespace, before: map<string, Object>, objects: map<string, Object>,
                         items: seq<Item>, tasks: seq<Task>, hash: Hash, failures: seq<string>)
  {
    && |tasks| == |items| && OnlyUnder(ns, before, objects)
    && (Honest(before, hash) ==> Honest(objects, hash))
    && (Agreeing(items) ==> FinishedThere(objects, items, tasks))
    && (AllThere(before, items) ==> OnlyAfterFailures(before, objects, items, tasks, failures))
    && (DistinctKeys(items) ==> AllDecided(before, objects, items, tasks, failures))
  }

  lemma Retasked(tasks: seq<Task>, i: nat, t: Task)
    requires i < |tasks|
    ensures multiset(tasks[i := t]) == multiset(tasks) - multiset{tasks[i]} + multiset{t} && tasks[i] in multiset(tasks)
  {
  }

  /** Where an object with the same integrity was, putting this one changes nothing that counts. */
  lemma PutKeepsThere(before: map<string, Object>, objects: map<string, Object>, items: seq<Item>, tasks: seq<Task>,
                      failures: seq<string>, i: nat)
    requires i < |items| == |tasks| && tasks[i] == Putting && OnlyAfterFailures(before, objects, items, tasks, failures)
    ensures OnlyAfterFailures(before, objects[items[i].key := items[i].o], items, tasks, failures)
    ensures OnlyAfterFailures(before, objects[items[i].key := items[i].o], items, tasks[i := Stored], failures)
  {
    Retasked(tasks, i, Stored);
    assert There(objects, items[i]);
  }

  lemma PutKeepsDecided(before: map<string, Object>, objects: map<string, Object>, items: seq<Item>, tasks: seq<Task>,
                        failures: seq<string>, i: nat)
    requires i < |items| == |tasks| && tasks[i] == Putting && DistinctKeys(items)
    requires AllDecided(before, objects, items, tasks, failures)
    ensures AllDecided(before, objects[items[i].key := items[i].o], items, tasks, failures)
    ensures AllDecided(before, objects[items[i].key := items[i].o], items, tasks[i := Stored], failures)
  {
    var after := objects[items[i].key := items[i].o];
    forall j | 0 <= j < |items|
      ensures Decided(before, after, items[j], tasks[j], failures)
                && Decided(before, after, items[j], tasks[i := Stored][j], failures)
    {
      assert Decided(before, objects, items[j], tasks[j], failures);
      assert j != i ==> items[j].key != items[i].key;
    }
  }

  lemma PutStep(ns: Namespace, before: map<string, Object>, objects: map<string, Object>, items: seq<Item>,
                tasks: seq<Task>, hash: Hash, failures: seq<string>, i: nat)
    requires Midway(ns, before, objects, items, tasks, hash, failures) && i < |items| && tasks[i] == Putting
    requires AllUnder(ns, items) && ItemsAre(items, hash)
    ensures Midway(ns, before, objects[items[i].key := items[i].o], items, tasks, hash, failures)
    ensures Midway(ns, before, objects[items[i].key := items[i].o], items, tasks[i := Stored], hash, failures)
    ensures Midway(ns, before, objects, items, tasks, hash, failures)
  {
    PutKeeps(ns, before, objects, items[i], hash);
    if Agreeing(items) { PutKeepsFinished(objects, items, tasks, i); }
    if AllThere(before, items) { PutKeepsThere(before, objects, items, tasks, failures, i); }
    if DistinctKeys(items) { PutKeepsDecided(before, objects, items, tasks, failures, i); }
  }

  lemma StatKeepsThere(before: map<string, Object>, objects: map<string, Object>, items: seq<Item>, tasks: seq<Task>,
                       failures: seq<string>, i: nat, ok: bool)
    requires i < |items| == |tasks| && tasks[i] == Todo && OnlyAfterFailures(before, objects, items, tasks, failures)
    ensures ok ==> OnlyAfterFailures(before, objects, items, tasks[i := Unchanged], failures)
    ensures !ok ==> OnlyAfterFailures(before, objects, items, tasks[i := Putting], failures + [items[i].key])
  {
    Retasked(tasks, i, if ok then Unchanged else Putting);
  }

  lemma StatKeepsDecided(before: map<string, Object>, objects: map<string, Object>, items: seq<Item>, tasks: seq<Task>,
                         failures: seq<string>, i: nat, ok: bool)
    requires i < |items| == |tasks| && tasks[i] == Todo && DistinctKeys(items)
    requires AllDecided(before, objects, items, tasks, failures)
    ensures ok ==>
              AllDecided(before, objects, items, tasks[i := if There(objects, items[i]) then Unchanged else Putting],
                  failures)
    ensures !ok ==> AllDecided(before, objects, items, tasks[i := Putting], failures + [items[i].key])
  {
    var t := if ok && There(objects, items[i]) then Unchanged else Putting;
    var more := if ok then failures else failures + [items[i].key];
    forall j | 0 <= j < |items| ensures Decided(before, objects, items[j], tasks[i := t][j], more) {
      assert Decided(before, objects, items[j], tasks[j], failures);
      assert j != i ==> items[j].key != items[i].key;
    }
  }

  lemma StatStep(ns: Namespace, before: map<string, Object>, objects: map<string, Object>, items: seq<Item>,
                 tasks: seq<Task>, hash: Hash, failures: seq<string>, i: nat, ok: bool, t: Task)
    requires Midway(ns, before, objects, items, tasks, hash, failures) && i < |items| && tasks[i] == Todo
    requires t == if ok && There(objects, items[i]) then Unchanged else Putting
    ensures Midway(ns, before, objects, items, tasks[i := t], hash, failures + if ok then [] else [items[i].key])
  {
    assert ok ==> failures + [] == failures;
    if AllThere(before, items) { StatKeepsThere(before, objects, items, tasks, failures, i, ok); }
    if DistinctKeys(items) { StatKeepsDecided(before, objects, items, tasks, failures, i, ok); }
  }

  predicate AllFinished(tasks: seq<Task>) {
    forall i | 0 <= i < |tasks| :: Finished(tasks[i])
  }

  lemma FinishedTally(tasks: seq<Task>, stored: nat, same: nat)
    requires AllFinished(tasks) && Tally(tasks, stored, same)
    ensures stored + same == |tasks| && multiset(tasks)[Putting] == 0
  {
    Counted(tasks);
    assert Todo !in tasks && Putting !in tasks;
    assert Todo !in multiset(tasks) && Putting !in multiset(tasks);
  }

  /** The files that the upload puts. */
  ghost function PutOnes(before: map<string, Object>, items: seq<Item>, failures: seq<string>): set<nat> {
    set i: nat | i < |items| && ToPut(before, items[i], failures)
  }

  lemma {:induction false} CountedAt(tasks: seq<Task>, t: Task)
    ensures multiset(tasks)[t] == |set i: nat | i < |tasks| && tasks[i] == t|
  {
    if tasks != [] {
      var n := |tasks| - 1;
      var init := tasks[..n];
      CountedAt(init, t);
      assert tasks == init + [tasks[n]];
      var some := set i: nat | i < n && init[i] == t;
      assert (set i: nat | i < |tasks| && tasks[i] == t) == if tasks[n] == t then some + {n} else some;
    }
  }

  lemma PutOnesCounted(before: map<string, Object>, objects: map<string, Object>, items: seq<Item>, tasks: seq<Task>,
                       failures: seq<string>)
    requires |tasks| == |items| && AllDecided(before, objects, items, tasks, failures) && AllFinished(tasks)
    ensures multiset(tasks)[Stored] == |PutOnes(before, items, failures)|
  {
    CountedAt(tasks, Stored);
    assert forall i | 0 <= i < |items| :: Decided(before, objects, items[i], tasks[i], failures) && Finished(tasks[i]);
    assert PutOnes(before, items, failures) == set i: nat | i < |tasks| && tasks[i] == Stored;
  }

  /** What the concurrent part may come to, `failures` being the keys of the stats that failed during it. */
  ghost predicate MayCome(ns: Namespace, before: map<string, Object>, after: map<string, Object>, items: seq<Item>,
                          hash: Hash, failures: seq<string>, failed: bool, stored: nat, same: nat)
  {
    && OnlyUnder(ns, before, after)
    && (Honest(before, hash) ==> Honest(after, hash))
    && (!failed ==> stored + same == |items| && (Agreeing(items) ==> AllThere(after, items)))
    && (!failed && DistinctKeys(items) ==> stored == |PutOnes(before, items, failures)|)
    && (AllThere(before, items) ==>
          && AllThere(after, items)
          && (!failed ==> stored == |failures|)
          && (failures == [] ==> !failed && before == after))
  }

  lemma Concluded(ns: Namespace, before: map<string, Object>, objects: map<string, Object>, items: seq<Item>,
                  tasks: seq<Task>, hash: Hash, failures: seq<string>, stored: nat, same: nat)
    requires Midway(ns, before, objects, items, tasks, hash, failures) && AllFinished(tasks)
              && Tally(tasks, stored, same)
    ensures MayCome(ns, before, objects, items, hash, failures, false, stored, same)
  {
    FinishedTally(tasks, stored, same);
    if DistinctKeys(items) { PutOnesCounted(before, objects, items, tasks, failures); }
  }

  lemma Interrupted(ns: Namespace, before: map<string, Object>, objects: map<string, Object>, items: seq<Item>,
                    tasks: seq<Task>, hash: Hash, failures: seq<string>, i: nat, stored: nat, same: nat)
    requires Midway(ns, before, objects, items, tasks, hash, failures) && i < |tasks| && tasks[i] == Putting
    ensures MayCome(ns, before, objects, items, hash, failures, true, stored, same)
  {
    assert tasks[i] in multiset(tasks);
  }

  /** The concurrent part. When a store fails the upload ends there; stores under way may still land. */
  method StoreAll(bucket: Bucket, ns: Namespace, items: seq<Item>, hash: Hash)
      returns (failed: bool, stored: nat, same: nat, ghost failures: seq<string>)
    requires AllUnder(ns, items) && ItemsAre(items, hash)
    modifies bucket
    ensures bucket.failedStats == old(bucket.failedStats) + failures
    ensures failed <==> bucket.failedPuts > old(bucket.failedPuts)
    ensures MayCome(ns, old(bucket.objects), bucket.objects, items, hash, failures, failed, stored, same)
  {
    ghost var before := bucket.objects;
    var tasks := seq(|items|, i => Todo);
    stored, same, failures := 0, 0, [];
    NothingYet(ns, before, items, tasks, hash);
    while exists i | 0 <= i < |tasks| :: !Finished(tasks[i])
      invariant Midway(ns, before, bucket.objects, items, tasks, hash, failures)
      invariant Tally(tasks, stored, same)
      invariant bucket.failedPuts == old(bucket.failedPuts) && bucket.failedStats == old(bucket.failedStats) + failures
      decreases Work(tasks)
    {
      var i :| 0 <= i < |tasks| && !Finished(tasks[i]);
      var next, ok, more := Step(bucket, ns, before, items, tasks, hash, failures, i);
      if !ok {
        Landing(bucket, ns, before, items, tasks, hash, failures);
        Interrupted(ns, before, bucket.objects, items, tasks, hash, failures, i, stored, same);
        return true, stored, same, failures;
      }
      OneStep(tasks, i, next, stored, same);
      failures := failures + more;
      tasks := tasks[i := next];
      stored, same := if next == Stored then stored + 1 else stored, if next == Unchanged then same + 1 else same;
    }
    Concluded(ns, before, bucket.objects, items, tasks, hash, failures, stored, same);
    failed := false;
  }

  lemma NothingYet(ns: Namespace, before: map<string, Object>, items: seq<Item>, tasks: seq<Task>, hash: Hash)
    requires tasks == seq(|items|, i => Todo)
    ensures Midway(ns, before, before, items, tasks, hash, []) && Tally(tasks, 0, 0)
  {
    assert Stored !in tasks && Unchanged !in tasks && Putting !in tasks;
    assert Stored !in multiset(tasks) && Unchanged !in multiset(tasks) && Putting !in multiset(tasks);
  }

  /** One task goes on to its next await. */
  method Step(bucket: Bucket, ns: Namespace, ghost before: map<string, Object>, items: seq<Item>, tasks: seq<Task>,
              hash: Hash, ghost failures: seq<string>, i: nat)
      returns (next: Task, ok: bool, ghost more: seq<string>)
    requires AllUnder(ns, items) && ItemsAre(items, hash)
    requires Midway(ns, before, bucket.objects, items, tasks, hash, failures)
    requires i < |tasks| && !Finished(tasks[i])
    modifies bucket
    ensures bucket.failedPuts == old(bucket.failedPuts) + if ok then 0 else 1
    ensures bucket.failedStats == old(bucket.failedStats) + more
    ensures ok ==> Midway(ns, before, bucket.objects, items, tasks[i := next], hash, failures + more)
    ensures !ok ==>
              && tasks[i] == Putting && more == []
              && Midway(ns, before, bucket.objects, items, tasks, hash, failures)
    ensures tasks[i] == Todo ==> ok && (next == Unchanged || next == Putting)
    ensures tasks[i] == Putting ==> next == Stored
  {
    if tasks[i] == Todo {
      var statted, sri := bucket.Stat(items[i].key);
      next := if statted && sri == items[i].o.sri then Unchanged else Putting;
      ok, more := true, if statted then [] else [items[i].key];
      StatStep(ns, before, bucket.objects, items, tasks, hash, failures, i, statted, next);
    } else {
      PutStep(ns, before, bucket.objects, items, tasks, hash, failures, i);
      ok := bucket.Put(items[i].key, items[i].o);
      next, more := Stored, [];
      assert failures + more == failures;
    }
  }

  /** Some of the stores under way take effect after all. */
  method Landing(bucket: Bucket, ns: Namespace, ghost before: map<string, Object>, items: seq<Item>, tasks: seq<Task>,
                 hash: Hash, ghost failures: seq<string>)
    requires AllUnder(ns, items) && ItemsAre(items, hash)
    requires Midway(ns, before, bucket.objects, items, tasks, hash, failures)
    modifies bucket
    ensures Midway(ns, before, bucket.objects, items, tasks, hash, failures)
    ensures bucket.failedStats == old(bucket.failedStats) && bucket.failedPuts >= old(bucket.failedPuts)
  {
    var i := 0;
    while i < |tasks|
      invariant i <= |tasks| && Midway(ns, before, bucket.objects, items, tasks, hash, failures)
      invariant bucket.failedStats == old(bucket.failedStats) && bucket.failedPuts >= old(bucket.failedPuts)
    {
      if tasks[i] == Putting {
        PutStep(ns, before, bucket.objects, items, tasks, hash, failures, i);
        var ok := bucket.Put(items[i].key, items[i].o);
      }
      i := i + 1;
    }
  }

  // ---------------------------------------------------------------- the upload

  /** Why a request is turned down before anything is stored. */
  function Rejection(ns: Namespace, files: seq<File>, maxBytes: nat): Option<Failure> {
    if !ValidNamespace(ns) then Some(InvalidNamespace)
    else if FirstProblem(files) != None then FirstProblem(files)
    else if TotalBytes(files) > maxBytes then Some(TooLarge(TotalBytes(files)))
    else None
  }

  /** `Object.fromEntries`: for a repeated path the last entry counts. */
  function IntegrityOf(files: seq<File>, hash: Hash): map<string, string> {
    if files == [] then map[]
    else IntegrityOf(files[..|files| - 1], hash)[files[|files| - 1].path := hash(files[|files| - 1].bytes)]
  }

  predicate SameContents(files: seq<File>) {
    forall i, j | 0 <= i < |files| && 0 <= j < |files| && files[i].path == files[j].path ::
      files[i].bytes == files[j].bytes
  }

  lemma {:induction false} IntegrityAt(files: seq<File>, hash: Hash, i: nat)
    requires SameContents(files) && i < |files|
    ensures files[i].path in IntegrityOf(files, hash) && IntegrityOf(files, hash)[files[i].path] == hash(files[i].bytes)
  {
    var init, last := files[..|files| - 1], files[|files| - 1];
    if i < |init| {
      assert init[i] == files[i];
      IntegrityAt(init, hash, i);
    }
  }

  lemma SameContentsAgree(ns: Namespace, files: seq<File>, hash: Hash)
    requires ValidNamespace(ns) && SameContents(files)
    ensures Agreeing(Items(ns, files, hash))
  {
    var items := Items(ns, files, hash);
    forall i, j | 0 <= i < |items| && 0 <= j < |items| && items[i].key == items[j].key
      ensures items[i].o == items[j].o
    {
      KeyInjective(ns, files[i].path, ns, files[j].path);
    }
  }

  predicate DistinctPaths(files: seq<File>) {
    forall i, j | 0 <= i < j < |files| :: files[i].path != files[j].path
  }

  lemma PathsMakeKeys(ns: Namespace, files: seq<File>, hash: Hash)
    requires ValidNamespace(ns) && DistinctPaths(files)
    ensures DistinctKeys(Items(ns, files, hash))
  {
    var items := Items(ns, files, hash);
    forall i, j | 0 <= i < j < |items| ensures items[i].key != items[j].key {
      if items[i].key == items[j].key { KeyInjective(ns, files[i].path, ns, files[j].path); }
    }
  }

  lemma ItemsUnder(ns: Namespace, files: seq<File>, hash: Hash)
    requires ValidNamespace(ns)
    ensures AllUnder(ns, Items(ns, files, hash)) && ItemsAre(Items(ns, files, hash), hash)
  {
    forall i | 0 <= i < |files| ensures Under(ns, BuildBundleKey(ns, files[i].path)) {
      KeyPrefix(ns, "", ns, files[i].path);
    }
  }

  /** The object of this file is in the store, with the integrity the report gives for its path. */
  predicate StoredAs(objects: map<string, Object>, ns: Namespace, f: File, report: Report, hash: Hash) {
    var key := BuildBundleKey(ns, f.path);
    && key in objects && f.path in report.integrity
    && objects[key].sri == Some(report.integrity[f.path])
    && (Honest(objects, hash) ==> hash(objects[key].bytes) == report.integrity[f.path])
  }

  /** The checks before anything is stored. */
  method CheckRequest(ns: Namespace, files: seq<File>, maxBytes: nat)
      returns (problem: Option<Failure>, decoded: seq<File>)
    ensures problem == Rejection(ns, files, maxBytes)
    ensures problem == None ==> decoded == files
  {
    if !ValidNamespace(ns) { return Some(InvalidNamespace), []; }
    problem, decoded := DecodeFiles(files);
    if problem == None && TotalBytes(decoded) > maxBytes { problem := Some(TooLarge(TotalBytes(decoded))); }
  }

  /** A success counts every file once and reports every integrity. Among files with distinct paths exactly
      those are stored whose object was not there before or whose stat failed. */
  ghost predicate Reported(before: map<string, Object>, after: map<string, Object>, ns: Namespace, files: seq<File>,
                           hash: Hash, failures: seq<string>, report: Report)
  {
    && report.storedCount + report.unchangedCount == |files|
    && report.totalBytes == TotalBytes(files) && report.integrity == IntegrityOf(files, hash)
    && (SameContents(files) ==> forall i | 0 <= i < |files| :: StoredAs(after, ns, files[i], report, hash))
    && (DistinctPaths(files) ==> report.storedCount == |PutOnes(before, Items(ns, files, hash), failures)|)
  }

  lemma ReportIs(before: map<string, Object>, after: map<string, Object>, ns: Namespace, files: seq<File>, hash: Hash,
                 failures: seq<string>, stored: nat, same: nat, report: Report)
    requires ValidNamespace(ns)
    requires MayCome(ns, before, after, Items(ns, files, hash), hash, failures, false, stored, same)
    requires report == Report(stored, same, TotalBytes(files), IntegrityOf(files, hash))
    ensures Reported(before, after, ns, files, hash, failures, report)
  {
    if SameContents(files) { AllStored(after, ns, files, report, hash); }
    if DistinctPaths(files) { PathsMakeKeys(ns, files, hash); }
  }

  /** `failures` are the keys of the stats that failed. Where everything was there before, the files stored are
      as many as those; and if there are none, the upload succeeds and changes nothing. */
  method Upload(bucket: Bucket, ns: Namespace, files: seq<File>, maxBytes: nat, hash: Hash)
      returns (r: Result<Report, Failure>, ghost failures: seq<string>)
    modifies bucket
    ensures OnlyUnder(ns, old(bucket.objects), bucket.objects)
    ensures Honest(old(bucket.objects), hash) ==> Honest(bucket.objects, hash)
    ensures bucket.failedStats == old(bucket.failedStats) + failures
    ensures Rejection(ns, files, maxBytes).Some? ==>
              r == Failure(Rejection(ns, files, maxBytes).value) && bucket.objects == old(bucket.objects)
    ensures Rejection(ns, files, maxBytes) == None ==> r.Success? || r == Failure(StoreFailed)
    ensures r == Failure(StoreFailed) <==> bucket.failedPuts > old(bucket.failedPuts)
    ensures r.Success? ==> Reported(old(bucket.objects), bucket.objects, ns, files, hash, failures, r.value)
    ensures AllThere(old(bucket.objects), Items(ns, files, hash)) ==>
              && AllThere(bucket.objects, Items(ns, files, hash))
              && (r.Success? ==> r.value.storedCount == |failures|)
              && (failures == [] ==> r != Failure(StoreFailed) && bucket.objects == old(bucket.objects))
  {
    var problem, decoded := CheckRequest(ns, files, maxBytes);
    if problem.Some? { return Failure(problem.value), []; }
    var items := Items(ns, decoded, hash);
    ItemsUnder(ns, files, hash);
    var failed, stored, same;
    failed, stored, same, failures := StoreAll(bucket, ns, items, hash);
    if failed { return Failure(StoreFailed), failures; }
    var report := Report(stored, same, TotalBytes(decoded), IntegrityOf(decoded, hash));
    ReportIs(old(bucket.objects), bucket.objects, ns, files, hash, failures, stored, same, report);
    r := Success(report);
  }

  lemma {:induction false} AllStored(objects: map<string, Object>, ns: Namespace, files: seq<File>, report: Report,
                                     hash: Hash)
    requires ValidNamespace(ns) && SameContents(files) && report.integrity == IntegrityOf(files, hash)
    requires Agreeing(Items(ns, files, hash)) ==> AllThere(objects, Items(ns, files, hash))
    ensures forall i | 0 <= i < |files| :: StoredAs(objects, ns, files[i], report, hash)
  {
    SameContentsAgree(ns, files, hash);
    forall i | 0 <= i < |files| ensures StoredAs(objects, ns, files[i], report, hash) {
      IntegrityAt(files, hash, i);
      assert There(objects, Items(ns, files, hash)[i]);
    }
  }

  /** An upload, even a failing one, leaves every object of another namespace as it was. */
  lemma OtherNamespacesUntouched(ns: Namespace, before: map<string, Object>, after: map<string, Object>,
                                 other: Namespace, path: string)
    requires OnlyUnder(ns, before, after) && ValidNamespace(ns) && ValidNamespace(other) && other != ns
    ensures var key := BuildBundleKey(other, path);
            (key in before <==> key in after) && (key in before ==> before[key] == after[key])
  {
    KeyPrefix(ns, "", other, path);
  }

  /** Repeating a successful upload, whatever failed during it, stores one file for each stat that fails in the
      repeat. So it stores nothing exactly if none does; and then it succeeds and changes nothing. */
  method UploadTwice(bucket: Bucket, ns: Namespace, files: seq<File>, maxBytes: nat, hash: Hash)
      returns (first: Result<Report, Failure>, again: Result<Report, Failure>,
               ghost earlier: seq<string>, ghost failures: seq<string>)
    requires SameContents(files)
    modifies bucket
    ensures bucket.failedStats == old(bucket.failedStats) + earlier + failures
    ensures first.Success? ==> again.Success? || again == Failure(StoreFailed)
    ensures first.Success? && again.Success? ==> again.value.storedCount == |failures|
    ensures first.Success? ==> ((again.Success? && again.value.storedCount == 0) <==> failures == [])
  {
    first, earlier := Upload(bucket, ns, files, maxBytes, hash);
    if first.Success? {
      forall i | 0 <= i < |files| ensures There(bucket.objects, Items(ns, files, hash)[i]) {
        assert StoredAs(bucket.objects, ns, files[i], first.value, hash);
        IntegrityAt(files, hash, i);
      }
    }
    again, failures := Upload(bucket, ns, files, maxBytes, hash);
  }
}
