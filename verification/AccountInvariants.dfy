/** What every run of the account handlers keeps. */
module AccountInvariants {
  import opened Wrappers
  import opened AccountTables

  // ---------------------------------------------------------------- the invariant

  predicate NearIds(near: set<NearRow>, nextId: nat) {
    && (forall r | r in near :: r.id < nextId)
    && (forall r, q | r in near && q in near && r.id == q.id :: r == q)
  }

  predicate AccountIds(accounts: set<AccountRow>, nextId: nat) {
    && (forall a | a in accounts :: a.id < nextId)
    && (forall a, b | a in accounts && b in accounts && a.id == b.id :: a == b)
  }

  /** One owner for each account on each network. */
  predicate OneOwner(near: set<NearRow>) {
    forall r, q | r in near && q in near && r.accountId == q.accountId && r.network == q.network :: r == q
  }

  /** The account id decides the network. */
  predicate DerivedNetworks(near: set<NearRow>) {
    forall r | r in near :: r.network == NetworkOf(r.accountId)
  }

  function Login(r: NearRow): (nat, Method) {
    (r.userId, Siwn(r.accountId, r.network))
  }

  function Logins(near: set<NearRow>): set<(nat, Method)> {
    set r | r in near :: Login(r)
  }

  function SiwnLogins(accounts: set<AccountRow>): set<(nat, Method)> {
    set a | a in accounts && a.how.Siwn? :: (a.userId, a.how)
  }

  /** The NEAR rows and the `siwn` rows of the account table stand in one-to-one correspondence. */
  predicate Paired(near: set<NearRow>, accounts: set<AccountRow>) {
    && Logins(near) == SiwnLogins(accounts)
    && (forall a, b | a in accounts && b in accounts && a.how.Siwn? && a.how == b.how :: a == b)
  }

  predicate KnownUsers(s: State) {
    && (forall r | r in s.near :: r.userId in s.users)
    && (forall u | u in s.users :: u < s.nextId)
  }

  /** A user with NEAR accounts has exactly one primary. */
  predicate OnePrimary(near: set<NearRow>, userId: nat) {
    RowsOf(near, userId) != {} ==> exists p | p in near :: Primaries(near, userId) == {p}
  }

  ghost predicate Primary(near: set<NearRow>) {
    forall u :: OnePrimary(near, u)
  }

  /** Everything but the primary flags and the networks. */
  predicate Consistent(s: State) {
    && NearIds(s.near, s.nextId) && AccountIds(s.accounts, s.nextId)
    && OneOwner(s.near) && Paired(s.near, s.accounts) && KnownUsers(s)
  }

  ghost predicate Sound(s: State) {
    Consistent(s) && DerivedNetworks(s.near) && Primary(s.near)
  }

  // ---------------------------------------------------------------- linking

  lemma PairAdded(near: set<NearRow>, accounts: set<AccountRow>, row: NearRow, account: AccountRow)
    requires Paired(near, accounts) && Login(row) == (account.userId, account.how)
    requires forall a | a in accounts && a.how.Siwn? :: a.how != account.how
    ensures Paired(near + {row}, accounts + {account})
  {
    assert Logins(near + {row}) == Logins(near) + {Login(row)};
    assert SiwnLogins(accounts + {account}) == SiwnLogins(accounts) + {Login(row)};
  }

  lemma KeyIsFree(near: set<NearRow>, accounts: set<AccountRow>, accountId: string, n: Network)
    requires Paired(near, accounts) && Rows(near, accountId, n) == {}
    ensures forall a | a in accounts && a.how.Siwn? :: a.how != Siwn(accountId, n)
  {
    forall a | a in accounts && a.how.Siwn? ensures a.how != Siwn(accountId, n) {
      assert (a.userId, a.how) in SiwnLogins(accounts);
      var r :| r in near && Login(r) == (a.userId, a.how);
      assert r !in Rows(near, accountId, n);
    }
  }

  lemma OwnerAdded(near: set<NearRow>, row: NearRow)
    requires OneOwner(near) && Rows(near, row.accountId, row.network) == {}
    ensures OneOwner(near + {row})
  {
    forall r | r in near ensures !(r.accountId == row.accountId && r.network == row.network) {
      assert r !in Rows(near, row.accountId, row.network);
    }
  }

  lemma LinkedIsConsistent(s: State, userId: nat, accountId: string, n: Network, first: bool, now: int)
    requires Consistent(s) && Rows(s.near, accountId, n) == {} && userId in s.users
    ensures Consistent(Linked(s, userId, accountId, n, first, now))
  {
    var row := NearRow(s.nextId, userId, accountId, n, first, now);
    var account := AccountRow(s.nextId + 1, userId, Siwn(accountId, n));
    KeyIsFree(s.near, s.accounts, accountId, n);
    PairAdded(s.near, s.accounts, row, account);
    OwnerAdded(s.near, row);
  }

  lemma LinkedHasPrimary(near: set<NearRow>, row: NearRow)
    requires Primary(near) && row !in near && (row.isPrimary <==> Primaries(near, row.userId) == {})
    ensures Primary(near + {row})
  {
    var near' := near + {row};
    forall u ensures OnePrimary(near', u) {
      assert OnePrimary(near, u);
      if u != row.userId {
        assert RowsOf(near', u) == RowsOf(near, u) && Primaries(near', u) == Primaries(near, u);
      } else if row.isPrimary {
        assert Primaries(near', u) == {row};
      } else {
        var p :| p in Primaries(near, u);
        assert p in RowsOf(near, u);
        assert Primaries(near', u) == Primaries(near, u);
      }
    }
  }

  lemma LinkedIsSound(s: State, userId: nat, accountId: string, n: Network, first: bool, now: int)
    requires Sound(s) && Rows(s.near, accountId, n) == {} && userId in s.users
    requires n == NetworkOf(accountId) && (first <==> Primaries(s.near, userId) == {})
    ensures Sound(Linked(s, userId, accountId, n, first, now))
  {
    LinkedIsConsistent(s, userId, accountId, n, first, now);
    LinkedHasPrimary(s.near, NearRow(s.nextId, userId, accountId, n, first, now));
  }

  // ---------------------------------------------------------------- verifying

  /** With derived networks, a row for the account id is a row for the network too: signing in never
      reaches the branch that attaches a second network to a known account. */
  lemma NoSecondNetwork(near: set<NearRow>, accountId: string)
    requires DerivedNetworks(near)
    ensures RowsAnywhere(near, accountId) == Rows(near, accountId, NetworkOf(accountId))
  {
  }

  lemma NewUserIsSound(s: State)
    requires Sound(s)
    ensures Sound(WithUser(s)) && s.nextId in WithUser(s).users && RowsOf(WithUser(s).near, s.nextId) == {}
  {
    forall r | r in s.near ensures r.userId != s.nextId { assert r.userId in s.users; }
  }

  /** Signing in signs in the account's owner; for an unknown account it makes a user whose only and
      primary NEAR account it is. */
  lemma VerifyKeeps(s: State, accountId: string, now: int, out: Outcome, t: State)
    requires Sound(s) && VerifyStep(s, accountId, now, out, t)
    ensures Sound(t) && out.SignedIn?
    ensures forall r | r in s.near && r.accountId == accountId :: t == s && out == SignedIn(r.userId)
    ensures (forall r | r in s.near :: r.accountId != accountId) ==>
              out == SignedIn(s.nextId)
              && RowsOf(t.near, s.nextId) ==
                  {NearRow(s.nextId + 1, s.nextId, accountId, NetworkOf(accountId), true, now)}
  {
    var n := NetworkOf(accountId);
    NoSecondNetwork(s.near, accountId);
    var owner :| OwnerFound(s, accountId, n, owner) && VerifiedAs(s, accountId, n, owner, now, out, t);
    if Rows(s.near, accountId, n) == {} {
      NewUserIsSound(s);
      var s' := WithUser(s);
      assert Primaries(s'.near, s.nextId) <= RowsOf(s'.near, s.nextId);
      LinkedIsSound(s', s.nextId, accountId, n, true, now);
      assert forall r | r in s.near && r.accountId == accountId :: r in RowsAnywhere(s.near, accountId);
      assert RowsOf(t.near, s.nextId) ==
             RowsOf(s'.near, s.nextId) + {NearRow(s.nextId + 1, s.nextId, accountId, n, true, now)};
    } else {
      var r :| r in Rows(s.near, accountId, n);
      forall q | q in s.near && q.accountId == accountId ensures q == r { assert q in Rows(s.near, accountId, n); }
    }
  }

  // ---------------------------------------------------------------- unlinking

  lemma PromotedKeeps(near: set<NearRow>, id: nat, nextId: nat)
    requires NearIds(near, nextId) && OneOwner(near)
    ensures var near' := Promoted(near, id);
            NearIds(near', nextId) && OneOwner(near') && Logins(near') == Logins(near)
    ensures DerivedNetworks(near) ==> DerivedNetworks(Promoted(near, id))
  {
    var near' := Promoted(near, id);
    forall x | x in Logins(near) ensures x in Logins(near') {
      var r :| r in near && x == Login(r);
      assert Promote(r, id) in near' && Login(Promote(r, id)) == x;
    }
  }

  lemma PrimariesAfterPromotion(near: set<NearRow>, o: NearRow, nextId: nat, userId: nat)
    requires NearIds(near, nextId) && o in near
    ensures var near' := Promoted(near, o.id);
            && (userId != o.userId ==> RowsOf(near', userId) == RowsOf(near, userId)
                                       && Primaries(near', userId) == Primaries(near, userId))
            && Primaries(near', o.userId) == (Primaries(near, o.userId) - {o}) + {o.(isPrimary := true)}
            && (forall r | r in near && r != o :: r in near')
  {
    var near' := Promoted(near, o.id);
    forall r | r in near ensures Promote(r, o.id) == if r == o then o.(isPrimary := true) else r {}
    forall r | r in near && r != o ensures r in near' { assert Promote(r, o.id) == r; }
    assert Promote(o, o.id) in near';
  }

  lemma OnlyMine(near: set<NearRow>, row: NearRow)
    requires OneOwner(near) && row in near
    ensures Mine(near, row.userId, row.accountId, row.network) == {row}
  {
  }

  lemma LoginsWithout(near: set<NearRow>, row: NearRow)
    requires OneOwner(near) && row in near
    ensures Logins(near - {row}) == Logins(near) - {Login(row)}
  {
    forall x | x in Logins(near) - {Login(row)} ensures x in Logins(near - {row}) {
      var r :| r in near && x == Login(r);
      assert r in near - {row};
    }
  }

  /** Exactly the matching `siwn` row goes. */
  lemma LoginDeleted(s: State, row: NearRow, accounts': set<AccountRow>)
    requires Paired(s.near, s.accounts) && AccountIds(s.accounts, s.nextId) && row in s.near
    requires DeletedOneOf(s.accounts, Holding(s.accounts, row.userId, Siwn(row.accountId, row.network)), accounts')
    ensures exists a | a in s.accounts ::
              a.userId == row.userId && a.how == Siwn(row.accountId, row.network) && accounts' == s.accounts - {a}
    ensures SiwnLogins(accounts') == SiwnLogins(s.accounts) - {Login(row)}
  {
    assert Login(row) in SiwnLogins(s.accounts);
    var matching := Holding(s.accounts, row.userId, Siwn(row.accountId, row.network));
    var a :| a in s.accounts && (a.userId, a.how) == Login(row);
    assert a in matching;
    assert forall b | b in matching :: b == a;
    assert accounts' == s.accounts - {a};
    forall x | x in SiwnLogins(s.accounts) - {Login(row)} ensures x in SiwnLogins(accounts') {
      var b :| b in s.accounts && b.how.Siwn? && x == (b.userId, b.how);
      assert b in accounts';
    }
  }

  /** The unlinked row is primary and the user's only other rows hold the same account id on another
      network, where the promotion does not look. */
  predicate Strands(near: set<NearRow>, row: NearRow) {
    row.isPrimary && OtherRows(near, row.userId, row.accountId) == {} && RowsOf(near, row.userId) != {row}
  }

  lemma PromotionPicks(near: set<NearRow>, row: NearRow, near': set<NearRow>, nextId: nat)
    requires NearIds(near, nextId) && OneOwner(near) && row in near && PromotedFor(near, row, near')
    ensures NearIds(near', nextId) && OneOwner(near') && Logins(near') == Logins(near) && row in near'
    ensures DerivedNetworks(near) ==> DerivedNetworks(near')
  {
    var others := OtherRows(near, row.userId, row.accountId);
    if row.isPrimary && others != {} {
      var o :| o in others && near' == Promoted(near, o.id);
      PromotedKeeps(near, o.id, nextId);
      PrimariesAfterPromotion(near, o, nextId, o.userId);
    }
  }

  lemma SameRowsSamePrimary(near: set<NearRow>, near': set<NearRow>, v: nat)
    requires OnePrimary(near, v)
    requires RowsOf(near', v) == RowsOf(near, v) && Primaries(near', v) == Primaries(near, v)
    ensures OnePrimary(near', v)
  {
    if RowsOf(near, v) != {} {
      var p :| p in near && Primaries(near, v) == {p};
      assert p in Primaries(near', v);
    }
  }

  lemma RowRemoved(near: set<NearRow>, row: NearRow, v: nat)
    requires v != row.userId
    ensures RowsOf(near - {row}, v) == RowsOf(near, v) && Primaries(near - {row}, v) == Primaries(near, v)
  {
  }

  /** The other users' rows are as they were. */
  lemma OthersAfterUnlink(near: set<NearRow>, row: NearRow, near': set<NearRow>, nextId: nat, v: nat)
    requires NearIds(near, nextId) && OnePrimary(near, v) && PromotedFor(near, row, near') && v != row.userId
    ensures OnePrimary(near' - {row}, v)
  {
    var others := OtherRows(near, row.userId, row.accountId);
    if row.isPrimary && others != {} {
      var o :| o in others && near' == Promoted(near, o.id);
      PrimariesAfterPromotion(near, o, nextId, v);
    }
    RowRemoved(near', row, v);
    SameRowsSamePrimary(near, near' - {row}, v);
  }

  lemma PromotedAfterUnlink(near: set<NearRow>, row: NearRow, o: NearRow, nextId: nat)
    requires NearIds(near, nextId) && o in near && o != row && o.userId == row.userId
    requires Primaries(near, row.userId) == {row}
    ensures OnePrimary(Promoted(near, o.id) - {row}, row.userId)
  {
    var rest := Promoted(near, o.id) - {row};
    PrimariesAfterPromotion(near, o, nextId, row.userId);
    var p := o.(isPrimary := true);
    assert row in Primaries(near, row.userId);
    assert p in Promoted(near, o.id) by { assert Promote(o, o.id) == p; }
    assert Primaries(rest, row.userId) == Primaries(Promoted(near, o.id), row.userId) - {row} == {p};
  }

  lemma UnpromotedAfterUnlink(near: set<NearRow>, row: NearRow, p: NearRow)
    requires row in near && p in near && Primaries(near, row.userId) == {p}
    ensures OnePrimary(near - {row}, row.userId) <==> !row.isPrimary || RowsOf(near, row.userId) == {row}
  {
    var rest := near - {row};
    assert row in RowsOf(near, row.userId) && (row.isPrimary <==> row in Primaries(near, row.userId));
    assert RowsOf(rest, row.userId) == RowsOf(near, row.userId) - {row};
    assert Primaries(rest, row.userId) == {p} - {row};
    assert p in Primaries(near, row.userId);
  }

  lemma PrimaryAfterUnlink(near: set<NearRow>, row: NearRow, near': set<NearRow>, nextId: nat)
    requires NearIds(near, nextId) && Primary(near) && row in near && PromotedFor(near, row, near')
    ensures OnePrimary(near' - {row}, row.userId) <==> !Strands(near, row)
    ensures forall v | v != row.userId :: OnePrimary(near' - {row}, v)
  {
    var others := OtherRows(near, row.userId, row.accountId);
    assert OnePrimary(near, row.userId) && row in RowsOf(near, row.userId);
    var p :| p in near && Primaries(near, row.userId) == {p};
    assert row.isPrimary ==> row in Primaries(near, row.userId);
    if row.isPrimary && others != {} {
      var o :| o in others && near' == Promoted(near, o.id);
      PromotedAfterUnlink(near, row, o, nextId);
    } else {
      UnpromotedAfterUnlink(near, row, p);
    }
    forall v | v != row.userId ensures OnePrimary(near' - {row}, v) {
      OthersAfterUnlink(near, row, near', nextId, v);
    }
  }

  /** Apart from the primary flag, unlinking a row keeps everything, and the user keeps a way to sign in. */
  lemma RowUnlinkedKeeps(s: State, row: NearRow, t: State)
    requires Consistent(s) && row in s.near && RowUnlinked(s, row, t)
    ensures Consistent(t)
    ensures Logins(t.near) == Logins(s.near) - {Login(row)}
    ensures exists a | a in s.accounts :: a.userId == row.userId && t.accounts == s.accounts - {a}
    ensures DerivedNetworks(s.near) ==> DerivedNetworks(t.near)
  {
    var near' :| PromotedFor(s.near, row, near')
        && t.near == near' - Mine(near', row.userId, row.accountId, row.network);
    PromotionPicks(s.near, row, near', s.nextId);
    OnlyMine(near', row);
    LoginsWithout(near', row);
    LoginDeleted(s, row, t.accounts);
    forall r | r in t.near ensures r.userId in t.users {
      assert Login(r) in Logins(s.near);
      var q :| q in s.near && Login(q) == Login(r);
    }
  }

  /** Unlinking leaves the user with exactly one primary, or with no NEAR account, precisely when the
      row does not strand another network of the same account. */
  lemma UnlinkKeepsPrimaryExactly(s: State, row: NearRow, t: State)
    requires Consistent(s) && Primary(s.near) && row in s.near && RowUnlinked(s, row, t)
    ensures Primary(t.near) <==> !Strands(s.near, row)
  {
    var near' :| PromotedFor(s.near, row, near')
        && t.near == near' - Mine(near', row.userId, row.accountId, row.network);
    PromotionPicks(s.near, row, near', s.nextId);
    OnlyMine(near', row);
    PrimaryAfterUnlink(s.near, row, near', s.nextId);
    assert Primary(t.near) ==> OnePrimary(t.near, row.userId);
  }

  /** Derived networks rule the bad case out. */
  lemma NothingStrands(near: set<NearRow>, row: NearRow)
    requires OneOwner(near) && DerivedNetworks(near) && row in near
    ensures !Strands(near, row)
  {
    if OtherRows(near, row.userId, row.accountId) == {} {
      forall r | r in RowsOf(near, row.userId) ensures r == row {
        assert r !in OtherRows(near, row.userId, row.accountId);
      }
      assert row in RowsOf(near, row.userId);
    }
  }

  lemma UnlinkKeeps(s: State, userId: nat, accountId: string, provided: Option<Network>, out: Outcome, t: State)
    requires Sound(s) && UnlinkStep(s, userId, accountId, provided, out, t)
    ensures Sound(t)
    ensures out == Done ==> AccountsOf(t.accounts, userId) != {}
    ensures out != Done ==> t == s
  {
    var rows := Mine(s.near, userId, accountId, Meant(accountId, provided));
    if out == Done {
      var row :| row in rows && RowUnlinked(s, row, t);
      RowUnlinkedKeeps(s, row, t);
      NothingStrands(s.near, row);
      UnlinkKeepsPrimaryExactly(s, row, t);
      var a :| a in s.accounts && a.userId == userId && t.accounts == s.accounts - {a};
      assert AccountsOf(t.accounts, userId) == AccountsOf(s.accounts, userId) - {a};
      assert AccountsOf(s.accounts, userId) != {a};
    }
  }

  // ---------------------------------------------------------------- without derived networks

  function Row(id: nat, a: string, n: Network): NearRow {
    NearRow(id, 0, a, n, n == Mainnet, id)
  }

  function SiwnRow(id: nat, a: string, n: Network): AccountRow {
    AccountRow(id, 0, Siwn(a, n))
  }

  /** One user holding the same account id on both networks. */
  function TwoNetworks(a: string): State {
    State({Row(0, a, Mainnet), Row(1, a, Testnet)}, {SiwnRow(2, a, Mainnet), SiwnRow(3, a, Testnet)}, {0}, 4)
  }

  lemma TwoNetworksConsistent(a: string)
    ensures Consistent(TwoNetworks(a)) && Primary(TwoNetworks(a).near)
  {
    var s := TwoNetworks(a);
    assert Logins(s.near) == {Login(Row(0, a, Mainnet)), Login(Row(1, a, Testnet))} == SiwnLogins(s.accounts);
    assert Primaries(s.near, 0) == {Row(0, a, Mainnet)};
    forall v | v != 0 ensures OnePrimary(s.near, v) { assert RowsOf(s.near, v) == {}; }
  }

  /** Unlinking the primary one succeeds and leaves the other without a primary. */
  lemma StrandedWithoutPrimary(a: string) returns (t: State)
    ensures Consistent(TwoNetworks(a)) && Primary(TwoNetworks(a).near)
    ensures UnlinkStep(TwoNetworks(a), 0, a, Some(Mainnet), Done, t)
    ensures RowsOf(t.near, 0) != {} && Primaries(t.near, 0) == {}
  {
    TwoNetworksConsistent(a);
    var s, gone, login := TwoNetworks(a), Row(0, a, Mainnet), SiwnRow(2, a, Mainnet);
    t := State({Row(1, a, Testnet)}, {SiwnRow(3, a, Testnet)}, {0}, 4);
    assert PromotedFor(s.near, gone, s.near) by { assert OtherRows(s.near, 0, a) == {}; }
    assert t.near == s.near - Mine(s.near, 0, a, Mainnet) by { assert Mine(s.near, 0, a, Mainnet) == {gone}; }
    assert AccountsOf(s.accounts, 0) == s.accounts;
    assert Holding(s.accounts, 0, Siwn(a, Mainnet)) == {login};
    assert t.accounts == set b | b in s.accounts && b.id != login.id;
    assert RowUnlinked(s, gone, t);
    assert Row(1, a, Testnet) in RowsOf(t.near, 0);
  }

  // ---------------------------------------------------------------- the other steps

  lemma ElectedKeeps(near: set<NearRow>, userId: nat, accountId: string, n: Network, nextId: nat)
    requires NearIds(near, nextId) && OneOwner(near)
    ensures var near' := Elected(near, userId, accountId, n); NearIds(near', nextId) && OneOwner(near')
    ensures DerivedNetworks(near) ==> DerivedNetworks(Elected(near, userId, accountId, n))
  {
  }

  lemma ElectedLogins(near: set<NearRow>, userId: nat, accountId: string, n: Network)
    ensures Logins(Elected(near, userId, accountId, n)) == Logins(near)
  {
    var near' := Elected(near, userId, accountId, n);
    forall x | x in Logins(near) ensures x in Logins(near') {
      var r :| r in near && x == Login(r);
      assert Elect(r, userId, accountId, n) in near' && Login(Elect(r, userId, accountId, n)) == x;
    }
  }

  lemma ElectedElsewhere(near: set<NearRow>, userId: nat, accountId: string, n: Network, v: nat)
    requires v != userId
    ensures RowsOf(Elected(near, userId, accountId, n), v) == RowsOf(near, v)
    ensures Primaries(Elected(near, userId, accountId, n), v) == Primaries(near, v)
  {
    var near' := Elected(near, userId, accountId, n);
    forall r | r in near && r.userId == v ensures r in near' { assert Elect(r, userId, accountId, n) == r; }
  }

  lemma ElectedOne(near: set<NearRow>, userId: nat, accountId: string, n: Network, row: NearRow)
    requires OneOwner(near) && row in Mine(near, userId, accountId, n)
    ensures var p := row.(isPrimary := true);
            p in Elected(near, userId, accountId, n) && Primaries(Elected(near, userId, accountId, n), userId) == {p}
  {
    assert Elect(row, userId, accountId, n) == row.(isPrimary := true);
  }

  /** Set-primary makes the named row the user's one primary and changes nothing else. */
  lemma SetPrimaryKeeps(s: State, userId: nat, accountId: string, provided: Option<Network>, out: Outcome, t: State)
    requires Consistent(s) && SetPrimaryStep(s, userId, accountId, provided, out, t)
    requires Primary(s.near)
    ensures Consistent(t) && Primary(t.near)
    ensures DerivedNetworks(s.near) ==> DerivedNetworks(t.near)
    ensures out == Done ==> exists p | p in t.near ::
              Primaries(t.near, userId) == {p} && p.accountId == accountId && p.network == Meant(accountId, provided)
    ensures Logins(t.near) == Logins(s.near) && t.accounts == s.accounts
  {
    var n := Meant(accountId, provided);
    if out == Done {
      var row :| row in Mine(s.near, userId, accountId, n);
      ElectedKeeps(s.near, userId, accountId, n, s.nextId);
      ElectedLogins(s.near, userId, accountId, n);
      ElectedOne(s.near, userId, accountId, n, row);
      forall v ensures OnePrimary(t.near, v) {
        if v != userId {
          ElectedElsewhere(s.near, userId, accountId, n, v);
          assert OnePrimary(s.near, v);
          SameRowsSamePrimary(s.near, t.near, v);
        }
      }
      forall r | r in t.near ensures r.userId in t.users {
        assert Login(r) in Logins(s.near);
      }
    }
  }

  lemma OtherMethodKeeps(s: State, account: AccountRow, users: set<nat>, nextId: nat)
    requires Sound(s) && account.how.Other? && s.nextId <= account.id < nextId
    requires s.users <= users && (forall u | u in users :: u < nextId)
    ensures Sound(State(s.near, s.accounts + {account}, users, nextId))
  {
    assert SiwnLogins(s.accounts + {account}) == SiwnLogins(s.accounts);
  }

  // ---------------------------------------------------------------- runs

  datatype Event =
    | Link(userId: nat, accountId: string)
    | PasskeyLink(userId: nat, digest: Option<seq<bv8>>)
    | Verify(accountId: string)
    | Unlink(userId: nat, accountId: string, provided: Option<Network>)
    | SetPrimary(userId: nat, accountId: string, provided: Option<Network>)
    | SignUp(provider: string, subject: string)
    | AddMethod(userId: nat, provider: string, subject: string)

  /** A step of the tables at a given time. Requests that need a session come from a known user. */
  ghost predicate Step(s: State, e: Event, now: int, out: Outcome, t: State) {
    match e
    case Link(u, a) => u in s.users && LinkStep(s, u, a, now, out, t)
    case PasskeyLink(u, d) => u in s.users && (d.Some? ==> |d.value| == 20) && PasskeyLinkStep(s, u, d, now, out, t)
    case Verify(a) => VerifyStep(s, a, now, out, t)
    case Unlink(u, a, p) => u in s.users && UnlinkStep(s, u, a, p, out, t)
    case SetPrimary(u, a, p) => u in s.users && SetPrimaryStep(s, u, a, p, out, t)
    case SignUp(p, x) => SignUpStep(s, p, x, out, t)
    case AddMethod(u, p, x) => u in s.users && AddMethodStep(s, u, p, x, out, t)
  }

  lemma StepKeeps(s: State, e: Event, now: int, out: Outcome, t: State)
    requires Sound(s) && Step(s, e, now, out, t)
    ensures Sound(t)
  {
    match e
    case Link(u, a) =>
      if t != s { LinkedIsSound(s, u, a, NetworkOf(a), out.isPrimary, now); }
    case PasskeyLink(u, d) =>
      if t != s {
        WalletIsMainnet(d.value);
        LinkedIsSound(s, u, WalletAccountId(d.value), Mainnet, out.isPrimary, now);
      }
    case Verify(a) => VerifyKeeps(s, a, now, out, t);
    case Unlink(u, a, p) => UnlinkKeeps(s, u, a, p, out, t);
    case SetPrimary(u, a, p) => SetPrimaryKeeps(s, u, a, p, out, t);
    case SignUp(p, x) =>
      OtherMethodKeeps(s, AccountRow(s.nextId + 1, s.nextId, Other(p, x)), s.users + {s.nextId}, s.nextId + 2);
    case AddMethod(u, p, x) =>
      OtherMethodKeeps(s, AccountRow(s.nextId, u, Other(p, x)), s.users, s.nextId + 1);
  }

  ghost predicate StepTo(s: State, t: State) {
    exists e, now, out :: Step(s, e, now, out, t)
  }

  ghost predicate StepAt(states: seq<State>, i: nat)
    requires i + 1 < |states|
  {
    StepTo(states[i], states[i + 1])
  }

  ghost predicate Run(states: seq<State>) {
    states != [] && states[0] == EMPTY && forall i: nat | i + 1 < |states| :: StepAt(states, i)
  }

  /** In every state of every run: one owner per account and network, a `siwn` row for each NEAR row
      and no others, and exactly one primary for each user with NEAR accounts. */
  lemma {:induction false} RunsAreSound(states: seq<State>, i: nat)
    requires Run(states) && i < |states|
    ensures Sound(states[i])
  {
    if i == 0 {
      assert Logins({}) == SiwnLogins({});
      forall u ensures OnePrimary({}, u) { assert RowsOf({}, u) == {}; }
    } else {
      RunsAreSound(states, i - 1);
      assert StepAt(states, i - 1);
      var e, now, out :| Step(states[i - 1], e, now, out, states[i]);
      StepKeeps(states[i - 1], e, now, out, states[i]);
    }
  }

  /** Unlinking along a run never removes the last sign-in method. */
  lemma UnlinkLeavesAMethod(states: seq<State>, i: nat, userId: nat, accountId: string, provided: Option<Network>,
                            now: int)
    requires Run(states) && i + 1 < |states|
    requires Step(states[i], Unlink(userId, accountId, provided), now, Done, states[i + 1])
    ensures AccountsOf(states[i + 1].accounts, userId) != {}
  {
    RunsAreSound(states, i);
    UnlinkKeeps(states[i], userId, accountId, provided, Done, states[i + 1]);
  }
}
