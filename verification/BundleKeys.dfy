/** Names of bundle objects: the validators and key format of apps/upload/src/storage.ts and the listing
    prefixes of apps/upload/src/index.ts. */
module BundleKeys {
  import opened Collections
  import opened Wrappers

  // ---------------------------------------------------------------- parts of a namespace

  datatype Kind = Account | Gateway | Workspace

  predicate LowerAlnum(c: char) {
    'a' <= c <= 'z' || '0' <= c <= '9'
  }

  predicate LabelChar(c: char) {
    LowerAlnum(c) || c == '_' || c == '-'
  }

  predicate WorkspaceChar(c: char) {
    LabelChar(c) || 'A' <= c <= 'Z'
  }

  /** `[a-z0-9](?:[a-z0-9_-]*[a-z0-9])?` */
  predicate Label(s: string) {
    s != [] && LowerAlnum(s[0]) && LowerAlnum(s[|s| - 1]) && forall i | 0 <= i < |s| :: LabelChar(s[i])
  }

  /** Labels joined by dots. A label has no dot in it, so the first dot ends the first label. */
  predicate Dotted(s: string)
    decreases |s|
  {
    var i := FirstOf('.', s);
    Label(s[..i]) && (i == |s| || Dotted(s[i + 1..]))
  }

  predicate TwoDots(s: string) {
    exists i :: 0 <= i && i + 1 < |s| && s[i] == '.' && s[i + 1] == '.'
  }

  predicate MatchesPattern(s: string, kind: Kind) {
    if kind == Workspace then s != [] && forall i | 0 <= i < |s| :: WorkspaceChar(s[i])
    else Dotted(s)
  }

  predicate ValidateNamespacePart(s: string, kind: Kind) {
    if |s| == 0 || |s| > 253 then false
    else if TwoDots(s) then false
    else if kind == Account && (|s| < 2 || |s| > 64) then false
    else MatchesPattern(s, kind)
  }

  lemma CutAt(s: string, i: nat)
    requires i < |s|
    ensures s == s[..i] + [s[i]] + s[i + 1..]
  {
  }

  function JoinDots(labels: seq<string>): string
    requires labels != []
  {
    if |labels| == 1 then labels[0] else labels[0] + "." + JoinDots(labels[1..])
  }

  predicate Labels(labels: seq<string>) {
    labels != [] && forall i | 0 <= i < |labels| :: Label(labels[i])
  }

  lemma LabelHasNoDot(part: string, rest: string)
    requires Label(part)
    ensures FirstOf('.', part) == |part| && FirstOf('.', part + "." + rest) == |part|
  {
    forall i | 0 <= i < |part| ensures part[i] != '.' { assert LabelChar(part[i]); }
    var s := part + "." + rest;
    assert s[|part|] == '.' && forall i | 0 <= i < |part| :: s[i] == part[i];
  }

  lemma {:induction false} JoinedIsDotted(labels: seq<string>)
    requires Labels(labels)
    ensures Dotted(JoinDots(labels))
    decreases |labels|
  {
    var s := JoinDots(labels);
    if |labels| == 1 {
      LabelHasNoDot(s, "");
      assert s[..|s|] == s;
    } else {
      var rest := JoinDots(labels[1..]);
      LabelHasNoDot(labels[0], rest);
      assert s[..|labels[0]|] == labels[0] && s[|labels[0]| + 1..] == rest;
      JoinedIsDotted(labels[1..]);
    }
  }

  lemma {:induction false} JoinDotsCons(part: string, rest: seq<string>)
    requires rest != []
    ensures JoinDots([part] + rest) == part + "." + JoinDots(rest)
    ensures Label(part) && Labels(rest) ==> Labels([part] + rest)
  {
    assert ([part] + rest)[1..] == rest;
  }

  lemma {:induction false} DottedIsJoined(s: string) returns (labels: seq<string>)
    requires Dotted(s)
    ensures Labels(labels) && JoinDots(labels) == s
    decreases |s|
  {
    var i := FirstOf('.', s);
    if i == |s| {
      assert s[..i] == s;
      labels := [s];
    } else {
      var rest := DottedIsJoined(s[i + 1..]);
      labels := [s[..i]] + rest;
      JoinDotsCons(s[..i], rest);
      CutAt(s, i);
    }
  }

  /** The scanner accepts what the pattern matches: one label, or several with a dot between them. */
  lemma DottedExactly(s: string)
    ensures Dotted(s) <==> exists labels | Labels(labels) :: JoinDots(labels) == s
  {
    if Dotted(s) { var labels := DottedIsJoined(s); }
    if exists labels | Labels(labels) :: JoinDots(labels) == s {
      var labels :| Labels(labels) && JoinDots(labels) == s;
      JoinedIsDotted(labels);
    }
  }

  predicate NoSlash(s: string) {
    forall i | 0 <= i < |s| :: s[i] != '/'
  }

  lemma {:induction false} DottedHasNoSlash(s: string)
    requires Dotted(s)
    ensures NoSlash(s) && s != []
    decreases |s|
  {
    var i := FirstOf('.', s);
    forall j | 0 <= j < i ensures s[j] != '/' { assert LabelChar(s[..i][j]); }
    if i < |s| {
      DottedHasNoSlash(s[i + 1..]);
      forall j | i < j < |s| ensures s[j] != '/' { assert s[j] == s[i + 1..][j - i - 1]; }
    }
  }

  lemma ValidHasNoSlash(s: string, kind: Kind)
    requires ValidateNamespacePart(s, kind)
    ensures NoSlash(s) && s != []
  {
    if kind != Workspace { DottedHasNoSlash(s); }
  }

  /** The pattern leaves no room for two dots: the extra test for them never decides. */
  lemma {:induction false} DottedHasNoTwoDots(s: string)
    requires Dotted(s)
    ensures !TwoDots(s) && s[0] != '.'
    decreases |s|
  {
    var i := FirstOf('.', s);
    assert LabelChar(s[..i][0]);
    if i < |s| {
      var rest := s[i + 1..];
      DottedHasNoTwoDots(rest);
      forall j | 0 <= j && j + 1 < |s| ensures !(s[j] == '.' && s[j + 1] == '.') {
        if j == i { assert s[j + 1] == rest[0]; }
        else if j > i { assert s[j] == rest[j - i - 1] && s[j + 1] == rest[j - i]; }
      }
    }
  }

  // ---------------------------------------------------------------- object paths

  function Split(s: string): (r: seq<string>)
    ensures r != []
    decreases |s|
  {
    var i := FirstOf('/', s);
    if i == |s| then [s] else [s[..i]] + Split(s[i + 1..])
  }

  function Join(segments: seq<string>): string
    requires segments != []
  {
    if |segments| == 1 then segments[0] else segments[0] + "/" + Join(segments[1..])
  }

  predicate BadSegment(s: string) {
    s == "" || s == "." || s == ".." || '%' in s
  }

  function ValidateObjectPath(path: string): Option<string> {
    if path == "" || '\\' in path then None
    else
      var segments := Split(path);
      if exists i | 0 <= i < |segments| :: BadSegment(segments[i]) then None else Some(Join(segments))
  }

  lemma {:induction false} JoinSplit(s: string)
    ensures Join(Split(s)) == s
    decreases |s|
  {
    var i := FirstOf('/', s);
    if i < |s| {
      JoinSplit(s[i + 1..]);
      assert Split(s)[1..] == Split(s[i + 1..]);
      CutAt(s, i);
    }
  }

  /** The part of a path between two slashes, or an end of it. */
  predicate IsSegment(path: string, lo: nat, hi: nat) {
    && lo <= hi <= |path| && (lo == 0 || path[lo - 1] == '/') && (hi == |path| || path[hi] == '/')
    && NoSlash(path[lo..hi])
  }

  lemma FirstSegment(s: string, hi: nat)
    requires hi <= |s| && (hi == |s| || s[hi] == '/') && NoSlash(s[0..hi])
    ensures FirstOf('/', s) == hi
  {
    assert forall j | 0 <= j < hi :: s[0..hi][j] == s[j];
  }

  lemma {:induction false} SegmentAt(s: string, lo: nat, hi: nat)
    requires IsSegment(s, lo, hi)
    ensures exists i | 0 <= i < |Split(s)| :: Split(s)[i] == s[lo..hi]
    decreases |s|
  {
    if lo == 0 {
      FirstSegment(s, hi);
      assert Split(s)[0] == s[lo..hi];
    } else {
      LaterSegment(s, lo, hi);
    }
  }

  lemma SegmentOfRest(s: string, cut: nat, lo: nat, hi: nat)
    requires IsSegment(s, lo, hi) && cut <= lo
    ensures s[cut..][lo - cut..hi - cut] == s[lo..hi]
    ensures IsSegment(s[cut..], lo - cut, hi - cut)
  {
    var rest := s[cut..];
    assert lo > cut ==> rest[lo - cut - 1] == s[lo - 1];
    assert hi < |s| ==> rest[hi - cut] == s[hi];
    assert rest[lo - cut..hi - cut] == s[lo..hi];
  }

  lemma {:induction false} LaterSegment(s: string, lo: nat, hi: nat)
    requires IsSegment(s, lo, hi) && lo > 0
    ensures exists i | 0 <= i < |Split(s)| :: Split(s)[i] == s[lo..hi]
    decreases |s|, 0
  {
    var i := FirstOf('/', s);
    assert i < lo;
    SegmentOfRest(s, i + 1, lo, hi);
    SegmentAt(s[i + 1..], lo - i - 1, hi - i - 1);
    assert Split(s) == [s[..i]] + Split(s[i + 1..]);
    InRest(s[..i], Split(s[i + 1..]), s[lo..hi]);
  }

  lemma InRest(first: string, rest: seq<string>, x: string)
    requires exists i | 0 <= i < |rest| :: rest[i] == x
    ensures exists i | 0 <= i < |[first] + rest| :: ([first] + rest)[i] == x
  {
    var k :| 0 <= k < |rest| && rest[k] == x;
    assert ([first] + rest)[k + 1] == x;
  }

  /** An accepted path is the path that was given; it has no empty or dotted segment anywhere. */
  lemma PathAccepted(path: string, lo: nat, hi: nat)
    requires ValidateObjectPath(path).Some?
    ensures ValidateObjectPath(path) == Some(path)
    ensures IsSegment(path, lo, hi) ==> !BadSegment(path[lo..hi])
  {
    JoinSplit(path);
    if IsSegment(path, lo, hi) { SegmentAt(path, lo, hi); }
  }

  // ---------------------------------------------------------------- keys

  datatype Namespace = Namespace(account: string, gateway: string, workspace: string)

  predicate ValidNamespace(ns: Namespace) {
    && ValidateNamespacePart(ns.account, Account) && ValidateNamespacePart(ns.gateway, Gateway)
    && ValidateNamespacePart(ns.workspace, Workspace)
  }

  function BuildBundleKey(ns: Namespace, path: string): string {
    "bundles/" + (ns.account + ("/" + (ns.gateway + ("/" + (ns.workspace + ("/" + path))))))
  }

  lemma PartEnds(a: string, x: string, b: string, y: string)
    requires NoSlash(a) && NoSlash(b)
    requires (a + ("/" + x)) <= (b + ("/" + y))
    ensures a == b && x <= y
  {
    var l, r := a + ("/" + x), b + ("/" + y);
    assert l[|a|] == '/' && r[|b|] == '/';
    assert forall i | 0 <= i < |l| :: l[i] == r[i];
    assert forall i | 0 <= i < |a| :: l[i] == a[i];
    assert forall i | 0 <= i < |b| :: r[i] == b[i];
    assert |a| == |b|;
    assert l[..|a|] == a && r[..|a|] == b;
    assert l[|a| + 1..] == x && r[|a| + 1..] == y;
  }

  lemma AfterPrefix(p: string, x: string, y: string)
    requires p + x <= p + y
    ensures x <= y
  {
    assert (p + x)[|p|..] == x && (p + y)[|p|..] == y;
  }

  /** A key under another key's namespace is in that namespace, whatever the paths are. */
  lemma KeyPrefix(ns: Namespace, path: string, other: Namespace, path': string)
    requires ValidNamespace(ns) && ValidNamespace(other)
    ensures BuildBundleKey(ns, path) <= BuildBundleKey(other, path') <==> ns == other && path <= path'
  {
    ValidHasNoSlash(ns.account, Account);
    ValidHasNoSlash(other.account, Account);
    ValidHasNoSlash(ns.gateway, Gateway);
    ValidHasNoSlash(other.gateway, Gateway);
    ValidHasNoSlash(ns.workspace, Workspace);
    ValidHasNoSlash(other.workspace, Workspace);
    var w, w' := ns.workspace + ("/" + path), other.workspace + ("/" + path');
    var g, g' := ns.gateway + ("/" + w), other.gateway + ("/" + w');
    var a, a' := ns.account + ("/" + g), other.account + ("/" + g');
    if BuildBundleKey(ns, path) <= BuildBundleKey(other, path') {
      AfterPrefix("bundles/", a, a');
      PartEnds(ns.account, g, other.account, g');
      PartEnds(ns.gateway, w, other.gateway, w');
      PartEnds(ns.workspace, path, other.workspace, path');
    }
  }

  /** One key, one namespace and path. */
  lemma KeyInjective(ns: Namespace, path: string, other: Namespace, path': string)
    requires ValidNamespace(ns) && ValidNamespace(other)
    requires BuildBundleKey(ns, path) == BuildBundleKey(other, path')
    ensures ns == other && path == path'
  {
    KeyPrefix(ns, path, other, path');
    KeyPrefix(other, path', ns, path);
  }

  /** The prefix of a listing; without a workspace it covers the gateway. */
  function ListingPrefix(account: string, gateway: string, workspace: Option<string>): string {
    match workspace
    case Some(w) => BuildBundleKey(Namespace(account, gateway, w), "")
    case None => "bundles/" + (account + ("/" + (gateway + ("/" + ""))))
  }

  /** A listing matches exactly the keys of what was asked for. */
  lemma ListingIsOneNamespace(account: string, gateway: string, workspace: Option<string>, ns: Namespace, path: string)
    requires ValidateNamespacePart(account, Account) && ValidateNamespacePart(gateway, Gateway)
    requires workspace.Some? ==> ValidateNamespacePart(workspace.value, Workspace)
    requires ValidNamespace(ns)
    ensures ListingPrefix(account, gateway, workspace) <= BuildBundleKey(ns, path) <==>
              ns.account == account && ns.gateway == gateway && (workspace.Some? ==> ns.workspace == workspace.value)
  {
    match workspace
    case Some(w) => KeyPrefix(Namespace(account, gateway, w), "", ns, path);
    case None =>
      ValidHasNoSlash(account, Account);
      ValidHasNoSlash(gateway, Gateway);
      ValidHasNoSlash(ns.account, Account);
      ValidHasNoSlash(ns.gateway, Gateway);
      var w := ns.workspace + ("/" + path);
      var g, g' := gateway + ("/" + ""), ns.gateway + ("/" + w);
      if ListingPrefix(account, gateway, workspace) <= BuildBundleKey(ns, path) {
        AfterPrefix("bundles/", account + ("/" + g), ns.account + ("/" + g'));
        PartEnds(account, g, ns.account, g');
        PartEnds(gateway, "", ns.gateway, w);
      } else {
        WholePrefix(account, gateway, w);
      }
  }

  lemma WholePrefix(account: string, gateway: string, rest: string)
    ensures "bundles/" + (account + ("/" + (gateway + ("/" + "")))) <=
            "bundles/" + (account + ("/" + (gateway + ("/" + rest))))
  {
    var p := "bundles/" + (account + ("/" + (gateway + ("/" + ""))));
    assert p + rest == "bundles/" + (account + ("/" + (gateway + ("/" + rest))));
  }
}
