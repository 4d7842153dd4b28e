/** The `nearAccount`, `account` and `user` tables of packages/better-near-auth, and the handlers that
    change them, each taken as one step. Signature checks and nonces are not part of this model: a step
    is what a handler does to the rows once its request has been accepted. */
module AccountTables {
  import opened Collections
  import opened Wrappers

  datatype Network = Mainnet | Testnet

  datatype NearRow = NearRow(id: nat, userId: nat, accountId: string, network: Network,
                             isPrimary: bool, createdAt: int)

  /** What a row of the `account` table signs in with. For the provider of this plugin the table holds the
      composite key of account and network; it names the pair (see `SameKey`), so the model keeps the pair. */
  datatype Method = Siwn(accountId: string, network: Network) | Other(provider: string, subject: string)

  datatype AccountRow = AccountRow(id: nat, userId: nat, how: Method)

  datatype State = State(near: set<NearRow>, accounts: set<AccountRow>, users: set<nat>, nextId: nat)

  const EMPTY: State := State({}, {}, {}, 0)

  // ---------------------------------------------------------------- keys and networks

  function NetworkOf(accountId: string): Network {
    if EndsWith(accountId, ".testnet") then Testnet else Mainnet
  }

  function NetworkName(n: Network): string {
    match n case Mainnet => "mainnet" case Testnet => "testnet"
  }

  function Key(accountId: string, n: Network): string {
    accountId + ":" + NetworkName(n)
  }

  /** Comparing composite keys is comparing account and network. */
  lemma SameKey(a: string, n: Network, b: string, m: Network)
    ensures Key(a, n) == Key(b, m) <==> a == b && n == m
  {
    var k, l := Key(a, n), Key(b, m);
    assert |NetworkName(n)| == |NetworkName(m)| == 7;
    assert k[..|k| - 8] == a && l[..|l| - 8] == b;
    assert k[|k| - 7] == NetworkName(n)[0] && l[|l| - 7] == NetworkName(m)[0];
  }

  function HexDigit(d: nat): char
    requires d < 16
  {
    "0123456789abcdef"[d]
  }

  function Hex(bytes: seq<bv8>): string {
    if bytes == [] then "" else [HexDigit(bytes[0] as int / 16), HexDigit(bytes[0] as int % 16)] + Hex(bytes[1..])
  }

  /** The account id of a passkey wallet, from the last 20 bytes of a hash. */
  function WalletAccountId(digest: seq<bv8>): string {
    "0s" + Hex(digest)
  }

  lemma {:induction false} HexDigits(bytes: seq<bv8>)
    ensures |Hex(bytes)| == 2 * |bytes|
    ensures forall i | 0 <= i < |Hex(bytes)| :: Hex(bytes)[i] in "0123456789abcdef"
  {
    if bytes != [] { HexDigits(bytes[1..]); }
  }

  lemma LastOf(s: string, suffix: string)
    requires s != [] && suffix != []
    ensures EndsWith(s, suffix) ==> s[|s| - 1] == suffix[|suffix| - 1]
  {
  }

  /** A passkey wallet id never reads as a testnet account. */
  lemma WalletIsMainnet(digest: seq<bv8>)
    requires |digest| == 20
    ensures NetworkOf(WalletAccountId(digest)) == Mainnet
  {
    HexDigits(digest);
    var id := WalletAccountId(digest);
    assert id[|id| - 1] == Hex(digest)[39];
    assert ".testnet"[7] == 't';
    LastOf(id, ".testnet");
  }

  // ---------------------------------------------------------------- queries

  function Rows(near: set<NearRow>, accountId: string, n: Network): set<NearRow> {
    set r | r in near && r.accountId == accountId && r.network == n
  }

  function RowsAnywhere(near: set<NearRow>, accountId: string): set<NearRow> {
    set r | r in near && r.accountId == accountId
  }

  function RowsOf(near: set<NearRow>, userId: nat): set<NearRow> {
    set r | r in near && r.userId == userId
  }

  function Mine(near: set<NearRow>, userId: nat, accountId: string, n: Network): set<NearRow> {
    set r | r in near && r.userId == userId && r.accountId == accountId && r.network == n
  }

  function Primaries(near: set<NearRow>, userId: nat): set<NearRow> {
    set r | r in near && r.userId == userId && r.isPrimary
  }

  /** The user's other rows as unlinking asks for them: another account id, whatever the network. */
  function OtherRows(near: set<NearRow>, userId: nat, accountId: string): set<NearRow> {
    set r | r in near && r.userId == userId && r.accountId != accountId
  }

  function AccountsOf(accounts: set<AccountRow>, userId: nat): set<AccountRow> {
    set a | a in accounts && a.userId == userId
  }

  function Holding(accounts: set<AccountRow>, userId: nat, how: Method): set<AccountRow> {
    set a | a in accounts && a.userId == userId && a.how == how
  }

  // ---------------------------------------------------------------- updates

  function Linked(s: State, userId: nat, accountId: string, n: Network, isPrimary: bool, now: int): State {
    State(s.near + {NearRow(s.nextId, userId, accountId, n, isPrimary, now)},
          s.accounts + {AccountRow(s.nextId + 1, userId, Siwn(accountId, n))},
          s.users, s.nextId + 2)
  }

  /** `update where id = id set isPrimary = true` */
  function Promote(r: NearRow, id: nat): NearRow {
    if r.id == id then r.(isPrimary := true) else r
  }

  function Promoted(near: set<NearRow>, id: nat): set<NearRow> {
    set r | r in near :: Promote(r, id)
  }

  /** Among the rows of one user, the flag goes to the row with the given key. */
  function Elect(r: NearRow, userId: nat, accountId: string, n: Network): NearRow {
    if r.userId == userId then r.(isPrimary := r.accountId == accountId && r.network == n) else r
  }

  function Elected(near: set<NearRow>, userId: nat, accountId: string, n: Network): set<NearRow> {
    set r | r in near :: Elect(r, userId, accountId, n)
  }

  // ---------------------------------------------------------------- the handlers as relations

  datatype Outcome =
    | Accepted(isPrimary: bool)
    | AlreadyLinked
    | Unavailable
    | NotFound
    | LastMethod
    | SignedIn(userId: nat)
    | Conflict
    | Done

  predicate LinkStep(s: State, userId: nat, accountId: string, now: int, out: Outcome, t: State) {
    var n := NetworkOf(accountId);
    if Rows(s.near, accountId, n) != {} then t == s && out == AlreadyLinked
    else
      var first := Primaries(s.near, userId) == {};
      t == Linked(s, userId, accountId, n, first, now) && out == Accepted(first)
  }

  /** A wallet exists only where its factory is deployed, which is mainnet. */
  predicate PasskeyLinkStep(s: State, userId: nat, digest: Option<seq<bv8>>, now: int, out: Outcome, t: State) {
    match digest
    case None => t == s && out == Unavailable
    case Some(d) =>
      var id := WalletAccountId(d);
      if Rows(s.near, id, Mainnet) != {} then
        t == s && exists r | r in Rows(s.near, id, Mainnet) ::
          out == if r.userId != userId then AlreadyLinked else Accepted(r.isPrimary)
      else
        var first := Primaries(s.near, userId) == {};
        t == Linked(s, userId, id, Mainnet, first, now) && out == Accepted(first)
  }

  /** Whom a verified account belongs to: the row for this network if there is one, else any row with
      this account id; a row whose user is gone counts as nobody. */
  predicate OwnerFound(s: State, accountId: string, n: Network, owner: Option<nat>) {
    var there := Rows(s.near, accountId, n);
    var pool := if there != {} then there else RowsAnywhere(s.near, accountId);
    if pool == {} then owner == None
    else exists r | r in pool :: owner == if r.userId in s.users then Some(r.userId) else None
  }

  function WithUser(s: State): State {
    s.(users := s.users + {s.nextId}, nextId := s.nextId + 1)
  }

  predicate VerifiedAs(s: State, accountId: string, n: Network, owner: Option<nat>, now: int, out: Outcome, t: State) {
    match owner
    case None =>
      if Rows(s.near, accountId, n) != {} then t == WithUser(s) && out == Conflict
      else t == Linked(WithUser(s), s.nextId, accountId, n, true, now) && out == SignedIn(s.nextId)
    case Some(u) =>
      && out == SignedIn(u)
      && t == if Rows(s.near, accountId, n) == {} then Linked(s, u, accountId, n, false, now) else s
  }

  ghost predicate VerifyStep(s: State, accountId: string, now: int, out: Outcome, t: State) {
    var n := NetworkOf(accountId);
    exists owner :: OwnerFound(s, accountId, n, owner) && VerifiedAs(s, accountId, n, owner, now, out, t)
  }

  /** Which network an unlink or set-primary request means. */
  function Meant(accountId: string, provided: Option<Network>): Network {
    match provided case Some(n) => n case None => NetworkOf(accountId)
  }

  /** The rows after the promotion that precedes the deletion. */
  predicate PromotedFor(near: set<NearRow>, row: NearRow, near': set<NearRow>) {
    var others := OtherRows(near, row.userId, row.accountId);
    if row.isPrimary && others != {} then exists o | o in others :: near' == Promoted(near, o.id)
    else near' == near
  }

  predicate DeletedOneOf(accounts: set<AccountRow>, matching: set<AccountRow>, accounts': set<AccountRow>) {
    if matching == {} then accounts' == accounts
    else exists a | a in matching :: accounts' == set b | b in accounts && b.id != a.id
  }

  ghost predicate RowUnlinked(s: State, row: NearRow, t: State) {
    && (exists near' {:trigger PromotedFor(s.near, row, near')} ::
          PromotedFor(s.near, row, near')
          && t.near == near' - Mine(near', row.userId, row.accountId, row.network))
    && DeletedOneOf(s.accounts, Holding(s.accounts, row.userId, Siwn(row.accountId, row.network)), t.accounts)
    && t.users == s.users && t.nextId == s.nextId
  }

  ghost predicate UnlinkStep(s: State, userId: nat, accountId: string, provided: Option<Network>, out: Outcome,
                             t: State) {
    var rows := Mine(s.near, userId, accountId, Meant(accountId, provided));
    if rows == {} then t == s && out == NotFound
    else if |AccountsOf(s.accounts, userId)| <= 1 then t == s && out == LastMethod
    else out == Done && exists row | row in rows :: RowUnlinked(s, row, t)
  }

  predicate SetPrimaryStep(s: State, userId: nat, accountId: string, provided: Option<Network>, out: Outcome,
                           t: State) {
    var n := Meant(accountId, provided);
    if Mine(s.near, userId, accountId, n) == {} then t == s && out == NotFound
    else t == s.(near := Elected(s.near, userId, accountId, n)) && out == Done
  }

  /** Signing up, or adding a sign-in method, through another provider. */
  predicate SignUpStep(s: State, provider: string, subject: string, out: Outcome, t: State) {
    && t == WithUser(s).(accounts := s.accounts + {AccountRow(s.nextId + 1, s.nextId, Other(provider, subject))},
                         nextId := s.nextId + 2)
    && out == SignedIn(s.nextId)
  }

  predicate AddMethodStep(s: State, userId: nat, provider: string, subject: string, out: Outcome, t: State) {
    && t == s.(accounts := s.accounts + {AccountRow(s.nextId, userId, Other(provider, subject))},
               nextId := s.nextId + 1)
    && out == Done
  }
}
