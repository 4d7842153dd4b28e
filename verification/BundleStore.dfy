/** The storage clients of apps/upload/src/storage.ts: the in-memory one, and the paging loop of the S3 one. */
module BundleStore {
  import opened Collections
  import opened Wrappers
  import opened StringOrder

  const STORAGE_LIST_MAX_KEYS: nat := 10000
  const STORAGE_LIST_PAGE_KEYS: nat := 1000

  /** A stored object and the integrity recorded with it. */
  datatype Object = Object(bytes: seq<bv8>, sri: Option<string>)

  datatype Listing = Listing(keys: seq<string>, truncated: bool)

  function Filter(keys: seq<string>, prefix: string): seq<string> {
    if keys == [] then []
    else
      var last := keys[|keys| - 1];
      Filter(keys[..|keys| - 1], prefix) + if prefix <= last then [last] else []
  }

  /** The keys under a prefix, in order. */
  function Matching(keys: seq<string>, prefix: string): seq<string> {
    Sort(Filter(keys, prefix))
  }

  /** A listing of these keys: as many as one answer may hold, and whether that leaves any out. */
  function Listed(all: seq<string>): Listing {
    if |all| > STORAGE_LIST_MAX_KEYS then Listing(all[..STORAGE_LIST_MAX_KEYS], true) else Listing(all, false)
  }

  lemma KeysOfInit(keys: seq<string>, init: seq<string>, last: string)
    requires keys == init + [last]
    ensures forall k :: k in keys <==> k in init || k == last
    ensures NoDuplicates(keys) ==> NoDuplicates(init) && last !in init
  {
    if NoDuplicates(keys) {
      assert forall i | 0 <= i < |init| :: init[i] == keys[i] && keys[|init|] == last;
    }
  }

  lemma AppendKeepsDistinct(kept: seq<string>, last: string)
    requires NoDuplicates(kept)
    ensures last !in kept ==> NoDuplicates(kept + [last])
  {
  }

  lemma {:induction false} FilterKeeps(keys: seq<string>, prefix: string)
    ensures forall k :: k in Filter(keys, prefix) <==> k in keys && prefix <= k
    ensures NoDuplicates(keys) ==> NoDuplicates(Filter(keys, prefix))
    ensures |Filter(keys, prefix)| <= |keys|
  {
    if keys != [] {
      var init, last := keys[..|keys| - 1], keys[|keys| - 1];
      FilterKeeps(init, prefix);
      KeysOfInit(keys, init, last);
      if NoDuplicates(keys) { AppendKeepsDistinct(Filter(init, prefix), last); }
    }
  }

  /** What a listing shows are keys of the store under the prefix, each once and in order; all of them,
      unless it says that it is truncated. */
  lemma ListedAre(keys: seq<string>, prefix: string, l: Listing)
    requires NoDuplicates(keys) && l == Listed(Matching(keys, prefix))
    ensures Sorted(l.keys) && NoDuplicates(l.keys) && |l.keys| <= STORAGE_LIST_MAX_KEYS
    ensures forall k | k in l.keys :: k in keys && prefix <= k
    ensures !l.truncated ==> forall k | k in keys && prefix <= k :: k in l.keys
    ensures l.truncated ==> |Matching(keys, prefix)| > |l.keys| == STORAGE_LIST_MAX_KEYS
  {
    FilterKeeps(keys, prefix);
    SortKeeps(Filter(keys, prefix));
    assert forall k | k in l.keys :: k in Matching(keys, prefix);
  }

  class MemoryStorage {
    var objects: map<string, Object>
    /** The keys in the order in which the map got them. */
    var order: seq<string>

    ghost predicate Valid()
      reads this
    {
      NoDuplicates(order) && forall k :: k in order <==> k in objects
    }

    constructor ()
      ensures Valid() && objects == map[]
    {
      objects, order := map[], [];
    }

    method Put(key: string, o: Object)
      requires Valid()
      modifies this
      ensures Valid() && objects == old(objects)[key := o]
      ensures order == if key in old(objects) then old(order) else old(order) + [key]
    {
      if key !in objects { order := order + [key]; }
      objects := objects[key := o];
    }

    method Get(key: string) returns (r: Option<Object>)
      ensures r == if key in objects then Some(objects[key]) else None
    {
      r := if key in objects then Some(objects[key]) else None;
    }

    method MatchingKeyCount(prefix: string) returns (count: nat)
      ensures count == |Filter(order, prefix)|
    {
      count := 0;
      var i := 0;
      while i < |order|
        invariant i <= |order| && count == |Filter(order[..i], prefix)|
      {
        assert order[..i + 1][..i] == order[..i];
        if prefix <= order[i] { count := count + 1; }
        i := i + 1;
      }
      assert order[..i] == order;
    }

    method List(prefix: string) returns (l: Listing)
      requires Valid()
      ensures l == Listed(Matching(order, prefix))
      ensures forall k | k in l.keys :: k in objects && prefix <= k
    {
      var sorted := Sort(Filter(order, prefix));
      SameLength(Filter(order, prefix));
      ListedAre(order, prefix, Listed(Matching(order, prefix)));
      var keys := if |sorted| <= STORAGE_LIST_MAX_KEYS then sorted else sorted[..STORAGE_LIST_MAX_KEYS];
      var count := MatchingKeyCount(prefix);
      l := Listing(keys, count > |keys|);
    }
  }

  lemma SameLength(s: seq<string>)
    ensures |Sort(s)| == |s|
  {
    assert |multiset(Sort(s))| == |Sort(s)| && |multiset(s)| == |s|;
  }

  // ---------------------------------------------------------------- paging

  /** A page of the server's answer. It may hold fewer keys than asked for, but not none while some remain;
      it carries a token, here the position reached, exactly when more remain. */
  method Page(all: seq<string>, token: Option<nat>, maxKeys: nat) returns (contents: seq<string>, next: Option<nat>)
    requires maxKeys > 0 && (token.Some? ==> token.value <= |all|)
    ensures var at := if token.Some? then token.value else 0;
            && |contents| <= maxKeys && at + |contents| <= |all| && contents == all[at..at + |contents|]
            && (at < |all| ==> contents != [])
            && next == if at + |contents| < |all| then Some(at + |contents|) else None
  {
    var at := if token.Some? then token.value else 0;
    var n: nat :| n <= maxKeys && at + n <= |all| && (at < |all| ==> n > 0) by {
      assert at < |all| ==> 1 <= maxKeys && at + 1 <= |all|;
      assert at == |all| ==> 0 <= maxKeys && at + 0 <= |all|;
    }
    contents := all[at..at + n];
    next := if at + n < |all| then Some(at + n) else None;
  }

  /** Whatever the sizes of the pages, the loop ends, and it answers as the in-memory listing does. */
  method S3List(all: seq<string>) returns (l: Listing)
    ensures l == Listed(all)
  {
    var keys: seq<string> := [];
    var token: Option<nat> := None;
    while |keys| < STORAGE_LIST_MAX_KEYS
      invariant |keys| <= |all| && |keys| <= STORAGE_LIST_MAX_KEYS && keys == all[..|keys|]
      invariant token == if keys == [] then None else Some(|keys|)
      invariant keys != [] ==> |keys| < |all|
      decreases STORAGE_LIST_MAX_KEYS - |keys|
    {
      var room := STORAGE_LIST_MAX_KEYS - |keys|;
      var maxKeys := if STORAGE_LIST_PAGE_KEYS <= room then STORAGE_LIST_PAGE_KEYS else room;
      var contents, next := Page(all, token, maxKeys);
      assert all[..|keys|] + contents == all[..|keys| + |contents|];
      keys := keys + contents;
      if next.None? { return Listing(keys, false); }
      token := next;
    }
    l := Listing(keys, true);
  }
}
