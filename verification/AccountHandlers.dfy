/** The handlers of packages/better-near-auth/src/index.ts and passkey-wallet-link.ts as methods on the
    tables. Where a query may return several rows, any of them may come first. */
module AccountHandlers {
  import opened Wrappers
  import opened AccountTables
  import opened AccountInvariants

  function FlagRow(r: NearRow, id: nat, flag: bool): NearRow {
    if r.id == id then r.(isPrimary := flag) else r
  }

  function SetFlag(near: set<NearRow>, id: nat, flag: bool): set<NearRow> {
    set r | r in near :: FlagRow(r, id, flag)
  }

  function ElectIf(r: NearRow, elected: set<NearRow>, userId: nat, accountId: string, n: Network): NearRow {
    if r in elected then Elect(r, userId, accountId, n) else r
  }

  function ElectedSome(near: set<NearRow>, elected: set<NearRow>, userId: nat, accountId: string,
                       n: Network): set<NearRow> {
    set r | r in near :: ElectIf(r, elected, userId, accountId, n)
  }

  lemma ElectNextAt(elected: set<NearRow>, userId: nat, accountId: string, n: Network, r: NearRow, q: NearRow)
    requires r.userId == userId && r !in elected && (q.id == r.id ==> q == r)
    ensures FlagRow(ElectIf(q, elected, userId, accountId, n), r.id, r.accountId == accountId && r.network == n)
         == ElectIf(q, elected + {r}, userId, accountId, n)
  {
  }

  /** Updating one more row by its id. */
  lemma ElectNext(near: set<NearRow>, elected: set<NearRow>, userId: nat, accountId: string, n: Network, r: NearRow,
                  nextId: nat)
    requires NearIds(near, nextId) && r in near && r.userId == userId && r !in elected
    ensures SetFlag(ElectedSome(near, elected, userId, accountId, n), r.id, r.accountId == accountId && r.network == n)
         == ElectedSome(near, elected + {r}, userId, accountId, n)
  {
    var flag := r.accountId == accountId && r.network == n;
    var some := ElectedSome(near, elected, userId, accountId, n);
    var more := ElectedSome(near, elected + {r}, userId, accountId, n);
    forall x | x in more ensures x in SetFlag(some, r.id, flag) {
      var q :| q in near && x == ElectIf(q, elected + {r}, userId, accountId, n);
      ElectNextAt(elected, userId, accountId, n, r, q);
      assert ElectIf(q, elected, userId, accountId, n) in some;
    }
    forall x | x in SetFlag(some, r.id, flag) ensures x in more {
      var y :| y in some && x == FlagRow(y, r.id, flag);
      var q :| q in near && y == ElectIf(q, elected, userId, accountId, n);
      ElectNextAt(elected, userId, accountId, n, r, q);
      assert ElectIf(q, elected + {r}, userId, accountId, n) in more;
    }
  }

  lemma NoneElected(near: set<NearRow>, userId: nat, accountId: string, n: Network)
    ensures ElectedSome(near, {}, userId, accountId, n) == near
  {
    forall r | r in near ensures ElectIf(r, {}, userId, accountId, n) == r {}
  }

  lemma ElectedAll(near: set<NearRow>, userId: nat, accountId: string, n: Network)
    ensures ElectedSome(near, RowsOf(near, userId), userId, accountId, n) == Elected(near, userId, accountId, n)
  {
    forall r | r in near
      ensures ElectIf(r, RowsOf(near, userId), userId, accountId, n) == Elect(r, userId, accountId, n) {}
  }

  class Tables {
    var near: set<NearRow>
    var accounts: set<AccountRow>
    var users: set<nat>
    var nextId: nat

    ghost function Contents(): State
      reads this
    {
      State(near, accounts, users, nextId)
    }

    constructor ()
      ensures Contents() == EMPTY
    {
      near, accounts, users, nextId := {}, {}, {}, 0;
    }

    method Create(userId: nat, accountId: string, n: Network, isPrimary: bool, now: int)
      modifies this
      ensures Contents() == Linked(old(Contents()), userId, accountId, n, isPrimary, now)
    {
      near := near + {NearRow(nextId, userId, accountId, n, isPrimary, now)};
      accounts := accounts + {AccountRow(nextId + 1, userId, Siwn(accountId, n))};
      nextId := nextId + 2;
    }

    method Link(userId: nat, accountId: string, now: int) returns (out: Outcome)
      modifies this
      ensures LinkStep(old(Contents()), userId, accountId, now, out, Contents())
    {
      var n := NetworkOf(accountId);
      if Rows(near, accountId, n) != {} { return AlreadyLinked; }
      var first := Primaries(near, userId) == {};
      Create(userId, accountId, n, first, now);
      out := Accepted(first);
    }

    method LinkPasskeyWallet(userId: nat, digest: Option<seq<bv8>>, now: int) returns (out: Outcome)
      modifies this
      ensures PasskeyLinkStep(old(Contents()), userId, digest, now, out, Contents())
    {
      if digest.None? { return Unavailable; }
      var id := WalletAccountId(digest.value);
      var found := Rows(near, id, Mainnet);
      if found != {} {
        var existing :| existing in found;
        return if existing.userId != userId then AlreadyLinked else Accepted(existing.isPrimary);
      }
      var first := Primaries(near, userId) == {};
      Create(userId, id, Mainnet, first, now);
      out := Accepted(first);
    }

    method Verify(accountId: string, now: int) returns (out: Outcome)
      modifies this
      ensures VerifyStep(old(Contents()), accountId, now, out, Contents())
    {
      var n := NetworkOf(accountId);
      ghost var was := Contents();
      var existing, pool := Rows(near, accountId, n), RowsAnywhere(near, accountId);
      if existing != {} { pool := existing; }
      var owner: Option<nat> := None;
      if pool != {} {
        var row :| row in pool;
        if row.userId in users { owner := Some(row.userId); }
      }
      assert OwnerFound(was, accountId, n, owner);
      match owner
      case Some(u) =>
        if existing == {} { Create(u, accountId, n, false, now); }
        out := SignedIn(u);
      case None =>
        var u := nextId;
        users, nextId := users + {u}, nextId + 1;
        if existing != {} {
          out := Conflict;
        } else {
          Create(u, accountId, n, true, now);
          out := SignedIn(u);
        }
    }

    method Unlink(userId: nat, accountId: string, provided: Option<Network>) returns (out: Outcome)
      modifies this
      ensures UnlinkStep(old(Contents()), userId, accountId, provided, out, Contents())
    {
      var n := Meant(accountId, provided);
      var rows := Mine(near, userId, accountId, n);
      if rows == {} { return NotFound; }
      if |AccountsOf(accounts, userId)| <= 1 { return LastMethod; }
      var row :| row in rows;
      ghost var was := near;
      var others := OtherRows(near, userId, accountId);
      if row.isPrimary && others != {} {
        var o :| o in others;
        near := Promoted(near, o.id);
      }
      assert PromotedFor(was, row, near);
      near := near - Mine(near, userId, accountId, n);
      var matching := Holding(accounts, userId, Siwn(accountId, n));
      if matching != {} {
        var a :| a in matching;
        accounts := set b | b in accounts && b.id != a.id;
      }
      assert RowUnlinked(old(Contents()), row, Contents());
      out := Done;
    }

    /** Every row of the user is updated by its id, in any order. */
    method UpdateFlags(userId: nat, accountId: string, n: Network)
      requires NearIds(near, nextId)
      modifies `near
      ensures near == Elected(old(near), userId, accountId, n)
    {
      ghost var was, all := near, RowsOf(near, userId);
      var pending := RowsOf(near, userId);
      ghost var elected: set<NearRow> := {};
      NoneElected(was, userId, accountId, n);
      while pending != {}
        invariant elected == all - pending && pending <= all
        invariant near == ElectedSome(was, elected, userId, accountId, n)
        decreases |pending|
      {
        var r :| r in pending;
        assert r in was && r.userId == userId && r !in elected;
        assert all - (pending - {r}) == elected + {r};
        ElectNext(was, elected, userId, accountId, n, r, nextId);
        near := SetFlag(near, r.id, r.accountId == accountId && r.network == n);
        elected := elected + {r};
        pending := pending - {r};
      }
      assert elected == all;
      ElectedAll(was, userId, accountId, n);
    }

    method SetPrimary(userId: nat, accountId: string, provided: Option<Network>) returns (out: Outcome)
      requires NearIds(near, nextId)
      modifies this
      ensures SetPrimaryStep(old(Contents()), userId, accountId, provided, out, Contents())
    {
      var n := Meant(accountId, provided);
      if Mine(near, userId, accountId, n) == {} { return NotFound; }
      UpdateFlags(userId, accountId, n);
      out := Done;
    }
  }
}
