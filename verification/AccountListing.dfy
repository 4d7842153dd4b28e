/** What the account listing shows (packages/better-near-auth/src/index.ts, `buildListAccountsResponse`). */
module AccountListing {
  import opened Wrappers
  import opened AccountTables
  import opened AccountInvariants

  datatype Listed = Listed(row: NearRow, isActive: bool)

  datatype Listing = Listing(accounts: seq<Listed>, activeAccount: Option<Listed>, availableAccounts: seq<Listed>)

  function FirstPrimary(rows: seq<NearRow>): Option<NearRow> {
    if rows == [] then None else if rows[0].isPrimary then Some(rows[0]) else FirstPrimary(rows[1..])
  }

  function ActiveRow(rows: seq<NearRow>): Option<NearRow> {
    if FirstPrimary(rows).Some? then FirstPrimary(rows) else if rows != [] then Some(rows[0]) else None
  }

  predicate SameAccount(a: Option<NearRow>, r: NearRow) {
    a.Some? && Key(a.value.accountId, a.value.network) == Key(r.accountId, r.network)
  }

  function Mark(rows: seq<NearRow>, active: Option<NearRow>): seq<Listed> {
    if rows == [] then [] else [Listed(rows[0], SameAccount(active, rows[0]))] + Mark(rows[1..], active)
  }

  /** The comparator: active entries first, then by time of creation. */
  predicate InOrder(a: Listed, b: Listed) {
    if a.isActive != b.isActive then a.isActive else a.row.createdAt <= b.row.createdAt
  }

  function Insert(x: Listed, s: seq<Listed>): seq<Listed> {
    if s == [] || InOrder(x, s[0]) then [x] + s else [s[0]] + Insert(x, s[1..])
  }

  /** `Array.prototype.sort` is stable; so is this. */
  function Sort(s: seq<Listed>): seq<Listed> {
    if s == [] then [] else Insert(s[0], Sort(s[1..]))
  }

  function FirstActive(s: seq<Listed>): Option<Listed> {
    if s == [] then None else if s[0].isActive then Some(s[0]) else FirstActive(s[1..])
  }

  function Available(s: seq<Listed>): seq<Listed> {
    if s == [] then [] else (if s[0].isActive then [] else [s[0]]) + Available(s[1..])
  }

  function BuildListing(rows: seq<NearRow>): Listing {
    var accounts := Sort(Mark(rows, ActiveRow(rows)));
    Listing(accounts, FirstActive(accounts), Available(accounts))
  }

  // ---------------------------------------------------------------- sorting

  predicate Sorted(s: seq<Listed>) {
    forall i, j | 0 <= i < j < |s| :: InOrder(s[i], s[j])
  }

  /** The entries that tie with `x`, in order. */
  function Ties(s: seq<Listed>, x: Listed): seq<Listed> {
    if s == [] then []
    else (if InOrder(s[0], x) && InOrder(x, s[0]) then [s[0]] else []) + Ties(s[1..], x)
  }

  lemma BeforeAll(x: Listed, s: seq<Listed>, r: seq<Listed>, h: Listed)
    requires multiset(r) == multiset(s) + multiset{x} && InOrder(h, x) && forall j | 0 <= j < |s| :: InOrder(h, s[j])
    ensures forall j | 0 <= j < |r| :: InOrder(h, r[j])
  {
    forall j | 0 <= j < |r| ensures InOrder(h, r[j]) {
      assert r[j] in multiset(r);
      assert r[j] == x || r[j] in s;
    }
  }

  lemma ConsSorted(h: Listed, r: seq<Listed>)
    requires Sorted(r) && forall j | 0 <= j < |r| :: InOrder(h, r[j])
    ensures Sorted([h] + r)
  {
  }

  lemma {:induction false} InsertSorts(x: Listed, s: seq<Listed>)
    requires Sorted(s)
    ensures Sorted(Insert(x, s)) && multiset(Insert(x, s)) == multiset(s) + multiset{x}
  {
    if s == [] || InOrder(x, s[0]) {
      assert forall j | 0 <= j < |s| :: InOrder(x, s[j]);
      ConsSorted(x, s);
    } else {
      InsertSorts(x, s[1..]);
      assert s == [s[0]] + s[1..];
      BeforeAll(x, s[1..], Insert(x, s[1..]), s[0]);
      ConsSorted(s[0], Insert(x, s[1..]));
    }
  }

  lemma {:induction false} InsertKeepsTies(x: Listed, s: seq<Listed>, y: Listed)
    ensures Ties(Insert(x, s), y) == Ties([x] + s, y)
  {
    assert ([x] + s)[1..] == s;
    if !(s == [] || InOrder(x, s[0])) {
      InsertKeepsTies(x, s[1..], y);
      assert ([x] + s[1..])[1..] == s[1..];
      var r := Insert(x, s);
      assert r[0] == s[0] && r[1..] == Insert(x, s[1..]);
    }
  }

  /** The order the listing promises, and nothing lost, added or swapped without need. */
  lemma {:induction false} SortIsStable(s: seq<Listed>)
    ensures Sorted(Sort(s)) && multiset(Sort(s)) == multiset(s)
    ensures forall y :: Ties(Sort(s), y) == Ties(s, y)
  {
    if s != [] {
      SortIsStable(s[1..]);
      InsertSorts(s[0], Sort(s[1..]));
      assert s == [s[0]] + s[1..];
      forall y ensures Ties(Sort(s), y) == Ties(s, y) {
        InsertKeepsTies(s[0], Sort(s[1..]), y);
        var t := [s[0]] + Sort(s[1..]);
        assert t[1..] == Sort(s[1..]);
      }
    }
  }

  // ---------------------------------------------------------------- the listing of a user

  predicate Enumerates(rows: seq<NearRow>, set': set<NearRow>) {
    && (forall i | 0 <= i < |rows| :: rows[i] in set')
    && (forall r | r in set' :: r in rows)
    && (forall i, j | 0 <= i < j < |rows| :: rows[i] != rows[j])
  }

  lemma {:induction false} MarkAt(rows: seq<NearRow>, active: Option<NearRow>)
    ensures |Mark(rows, active)| == |rows|
    ensures forall i | 0 <= i < |rows| :: Mark(rows, active)[i] == Listed(rows[i], SameAccount(active, rows[i]))
  {
    if rows != [] { MarkAt(rows[1..], active); }
  }

  lemma {:induction false} FirstPrimaryIs(rows: seq<NearRow>, p: NearRow)
    requires p in rows && p.isPrimary
    requires forall i | 0 <= i < |rows| :: rows[i].isPrimary ==> rows[i] == p
    ensures FirstPrimary(rows) == Some(p)
  {
    if !rows[0].isPrimary { FirstPrimaryIs(rows[1..], p); }
  }

  lemma {:induction false} AvailableIs(s: seq<Listed>)
    requires forall i | 0 <= i < |s| :: !s[i].isActive
    ensures Available(s) == s
  {
    if s != [] { AvailableIs(s[1..]); }
  }

  function Without(s: seq<Listed>, k: nat): seq<Listed>
    requires k < |s|
  {
    s[..k] + s[k + 1..]
  }

  lemma Rest(marked: seq<Listed>, k: nat)
    requires k < |marked| && forall i | 0 <= i < |marked| && i != k :: !marked[i].isActive
    ensures multiset(marked) == multiset{marked[k]} + multiset(Without(marked, k))
    ensures forall x | x in Without(marked, k) :: !x.isActive
  {
    assert marked == marked[..k] + [marked[k]] + marked[k + 1..];
  }

  lemma FrontOf(s: seq<Listed>, x: Listed, rest: multiset<Listed>)
    requires Sorted(s) && multiset(s) == multiset{x} + rest
    requires x.isActive && forall y | y in rest :: !y.isActive
    ensures s != [] && s[0] == x && multiset(s[1..]) == rest
  {
    assert x in multiset(s);
    var j :| 0 <= j < |s| && s[j] == x;
    assert s[0].isActive by { if j > 0 { assert InOrder(s[0], s[j]); } }
    assert s[0] in multiset(s);
    assert s == [s[0]] + s[1..];
    assert multiset(s[1..]) == multiset(s) - multiset{x} == rest;
  }

  /** One active entry, and it comes first. */
  lemma ActiveFirst(s: seq<Listed>, marked: seq<Listed>, k: nat)
    requires Sorted(s) && multiset(s) == multiset(marked) && k < |marked| && marked[k].isActive
    requires forall i | 0 <= i < |marked| && i != k :: !marked[i].isActive
    ensures s != [] && s[0] == marked[k]
    ensures forall i | 1 <= i < |s| :: !s[i].isActive
    ensures FirstActive(s) == Some(marked[k]) && Available(s) == s[1..]
  {
    Rest(marked, k);
    FrontOf(s, marked[k], multiset(Without(marked, k)));
    var tail := s[1..];
    forall i | 0 <= i < |tail| ensures !tail[i].isActive {
      assert tail[i] in multiset(tail);
      assert tail[i] in Without(marked, k);
    }
    forall i | 1 <= i < |s| ensures !s[i].isActive { assert s[i] == tail[i - 1]; }
    AvailableIs(tail);
  }

  function RowsIn(s: seq<Listed>): seq<NearRow> {
    if s == [] then [] else [s[0].row] + RowsIn(s[1..])
  }

  lemma RowsInCons(s: seq<Listed>)
    requires s != []
    ensures multiset(RowsIn(s)) == multiset{s[0].row} + multiset(RowsIn(s[1..]))
  {
  }

  lemma {:induction false} RowsInInsert(x: Listed, s: seq<Listed>)
    ensures multiset(RowsIn(Insert(x, s))) == multiset{x.row} + multiset(RowsIn(s))
  {
    var r := Insert(x, s);
    RowsInCons(r);
    if s == [] || InOrder(x, s[0]) {
      assert r[1..] == s;
    } else {
      assert r[1..] == Insert(x, s[1..]);
      RowsInInsert(x, s[1..]);
      RowsInCons(s);
    }
  }

  /** Sorting a listing rearranges its rows. */
  lemma {:induction false} RowsInSort(s: seq<Listed>)
    ensures multiset(RowsIn(Sort(s))) == multiset(RowsIn(s))
  {
    if s != [] {
      RowsInSort(s[1..]);
      RowsInInsert(s[0], Sort(s[1..]));
      RowsInCons(s);
    }
  }

  lemma {:induction false} RowsInMark(rows: seq<NearRow>, active: Option<NearRow>)
    ensures RowsIn(Mark(rows, active)) == rows
  {
    if rows != [] { RowsInMark(rows[1..], active); }
  }

  /** Whatever the order of the rows, the listing of a user holds each row once, the user's primary is the
      one active entry and comes first, and the available entries are the others by time of creation. */
  lemma ListingOf(s: State, userId: nat, rows: seq<NearRow>, l: Listing)
    requires Sound(s) && Enumerates(rows, RowsOf(s.near, userId)) && l == BuildListing(rows)
    ensures multiset(RowsIn(l.accounts)) == multiset(rows) && Sorted(l.accounts)
    ensures multiset(l.accounts) == multiset(Mark(rows, ActiveRow(rows)))
    ensures rows == [] ==> l == Listing([], None, [])
    ensures rows != [] ==>
              && l.accounts != [] && l.activeAccount == Some(l.accounts[0]) && l.accounts[0].isActive
              && Primaries(s.near, userId) == {l.accounts[0].row}
              && l.availableAccounts == l.accounts[1..]
              && forall i | 1 <= i < |l.accounts| :: !l.accounts[i].isActive
  {
    var marked := Mark(rows, ActiveRow(rows));
    SortIsStable(marked);
    RowsInSort(marked);
    RowsInMark(rows, ActiveRow(rows));
    if rows != [] {
      assert rows[0] in RowsOf(s.near, userId) && OnePrimary(s.near, userId);
      var p :| p in s.near && Primaries(s.near, userId) == {p};
      assert p in Primaries(s.near, userId) && p in RowsOf(s.near, userId);
      var k :| 0 <= k < |rows| && rows[k] == p;
      PrimaryMarked(s, userId, rows, p, k);
      ActiveFirst(l.accounts, marked, k);
    }
  }

  lemma PrimaryMarked(s: State, userId: nat, rows: seq<NearRow>, p: NearRow, k: nat)
    requires OneOwner(s.near) && Enumerates(rows, RowsOf(s.near, userId)) && Primaries(s.near, userId) == {p}
    requires k < |rows| && rows[k] == p
    ensures ActiveRow(rows) == Some(p)
    ensures var marked := Mark(rows, ActiveRow(rows));
            && |marked| == |rows| && marked[k] == Listed(p, true)
            && forall i | 0 <= i < |marked| && i != k :: !marked[i].isActive
  {
    assert p in Primaries(s.near, userId);
    forall i | 0 <= i < |rows| && rows[i].isPrimary ensures rows[i] == p {
      assert rows[i] in Primaries(s.near, userId);
    }
    FirstPrimaryIs(rows, p);
    MarkAt(rows, Some(p));
    forall i | 0 <= i < |rows| && i != k ensures !SameAccount(Some(p), rows[i]) {
      SameKey(p.accountId, p.network, rows[i].accountId, rows[i].network);
      assert rows[i] in s.near && rows[i] != p;
    }
  }
}
