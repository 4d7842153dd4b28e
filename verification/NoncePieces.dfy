/** Documents fall apart into pieces: wherever a piece ends, the text before and the text after are
    rewritten separately. */
module NoncePieces {
  import opened NonceRewrite
  import opened NonceSegments

  // ---------------------------------------------------------------- documents and their pieces

  lemma IndexTruncated(s: string, n: nat, start: nat, c: char)
    requires start <= n <= |s|
    ensures IndexFrom(s[..n], start, c) == if IndexFrom(s, start, c) < n then IndexFrom(s, start, c) else n
  {
    var i, j := IndexFrom(s, start, c), IndexFrom(s[..n], start, c);
    assert j < n ==> s[j] == c;
    assert i < n ==> s[..n][i] == c;
  }

  lemma ValuesClosedTruncated(tag: Pattern, s: string, n: nat, end: nat)
    requires tag.Tag? && end < n <= |s| && ValuesClosed(tag, s, end)
    ensures ValuesClosed(tag, s[..n], end)
  {
    assert s == s[..n] + s[n..];
    forall v | 0 <= v <= end && Opening(tag, s[..n], v) ensures IndexFrom(s[..n], v, '"') < end {
      OpeningInPrefix(tag, s[..n], s[n..], v);
      IndexTruncated(s, n, v, '"');
    }
  }

  lemma NoneStartsTruncated(name: string, s: string, n: nat, end: nat)
    requires end <= n <= |s| && NoneStarts(name, s, end)
    ensures NoneStarts(name, s[..n], end)
  {
    forall p | 0 <= p < end ensures !(name <= s[..n][p..]) {
      assert s[..n][p..] <= s[p..];
    }
  }

  lemma TagTruncated(ps: Patterns, s: string, n: nat)
    requires ps.Valid() && n <= |s| && TagOk(ps, s)
    ensures TagOk(ps, s[..n])
  {
    var end := IndexFrom(s, 0, '>');
    var end' := IndexFrom(s[..n], 0, '>');
    IndexTruncated(s, n, 0, '>');
    NoneStartsTruncated(ps.bootstrap.name, s, n, end');
    if end < n {
      if ps.script.name <= s[..n] { ValuesClosedTruncated(ps.script, s, n, end); }
      if ps.meta.name <= s[..n] { ValuesClosedTruncated(ps.meta, s, n, end); }
    }
  }

  lemma AssignmentTruncated(name: string, s: string, n: nat)
    requires name != "" && name <= s && AssignmentOk(name, s) && |name| <= n <= |s|
    ensures AssignmentOk(name, s[..n])
  {
    var unquoted := name[..|name| - 1];
    IndexTruncated(s, n, |name|, '"');
    assert s == s[..n] + s[n..];
    forall p: nat | p + |unquoted| <= n ensures TextAt(s[..n], p, unquoted) == TextAt(s, p, unquoted) {
      TextInPrefix(s[..n], s[n..], p, unquoted);
    }
  }

  lemma SegmentTruncated(ps: Patterns, s: string, n: nat)
    requires ps.Valid() && n <= |s| && SegmentOk(ps, s)
    ensures SegmentOk(ps, s[..n])
  {
    if TagStart(ps, s) { TagTruncated(ps, s, n); }
    if ps.bootstrap.name <= s[..n] { AssignmentTruncated(ps.bootstrap.name, s, n); }
  }

  lemma SegmentInPrefix(ps: Patterns, s: string, n: nat, p: nat)
    requires ps.Valid() && p <= n <= |s| && SegmentOk(ps, s[p..])
    ensures SegmentOk(ps, s[..n][p..])
  {
    SegmentTruncated(ps, s[p..], n - p);
    assert s[..n][p..] == s[p..][..n - p];
  }

  lemma DocumentParts(ps: Patterns, s: string, n: nat)
    requires ps.Valid() && n <= |s| && Document(ps, s)
    ensures Document(ps, s[..n]) && Document(ps, s[n..])
  {
    var x, t := s[..n], s[n..];
    forall p | 0 <= p <= |x| ensures SegmentOk(ps, x[p..]) { SegmentInPrefix(ps, s, n, p); }
    forall p | 0 <= p <= |t| ensures SegmentOk(ps, t[p..]) { assert t[p..] == s[n + p..]; }
  }

  lemma DocumentHead(ps: Patterns, s: string)
    requires ps.Valid() && Document(ps, s)
    ensures SegmentOk(ps, s)
  {
    assert s[0..] == s;
  }

  /** The text of a closed tag, cut after its `>`. */
  lemma ClosedTagText(name: string, s: string, n: nat)
    requires |name| >= 2 && 0 < n <= |s| && IndexFrom(s, 0, '>') == n - 1
    requires (forall p | 0 < p < n - 1 :: s[p] != '<') && NoneStarts(name, s, n - 1)
    ensures ClosedTag(name, s[..n])
  {
    var x := s[..n];
    IndexTruncated(s, n, 0, '>');
    NoneStartsTruncated(name, s, n, n - 1);
    assert forall i | 0 <= i < n - 1 :: x[1..][i] == s[i + 1];
    forall p | 0 <= p < |x| ensures !(name <= x[p..]) {
      if p == n - 1 { assert |x[p..]| == 1; }
    }
  }

  lemma FirstTag(ps: Patterns, s: string)
    requires ps.Valid() && TagStart(ps, s) && TagOk(ps, s) && IndexFrom(s, 0, '>') < |s|
    ensures var x := s[..First(ps, s)];
            && ClosedTag(ps.bootstrap.name, x)
            && (ps.script.name <= x ==> ValuesClosed(ps.script, x, |x| - 1))
            && (ps.meta.name <= x ==> ValuesClosed(ps.meta, x, |x| - 1))
  {
    var n := IndexFrom(s, 0, '>') + 1;
    assert First(ps, s) == n;
    ClosedTagText(ps.bootstrap.name, s, n);
    if ps.script.name <= s[..n] { ValuesClosedTruncated(ps.script, s, n, n - 1); }
    if ps.meta.name <= s[..n] { ValuesClosedTruncated(ps.meta, s, n, n - 1); }
  }

  lemma OneCharacter(ps: Patterns, nonce: string, c: char, t: string)
    requires ps.Valid() && !TagStart(ps, [c] + t) && !(ps.bootstrap.name <= [c] + t)
    ensures Rewrite(ps, nonce, [c] + t) == Rewrite(ps, nonce, [c]) + Rewrite(ps, nonce, t)
  {
    RewriteCharacter(ps, nonce, c, t);
    RewriteCharacter(ps, nonce, c, "");
    assert [c] + "" == [c];
    RewriteEmpty(ps, nonce);
  }

  lemma RewriteEmpty(ps: Patterns, nonce: string)
    ensures Rewrite(ps, nonce, "") == ""
  {
  }

  function Rewriting(ps: Patterns, nonce: string): string -> string {
    s => Rewrite(ps, nonce, s)
  }

  /** The first piece of a document is rewritten on its own. */
  lemma FirstAlone(ps: Patterns, nonce: string, s: string)
    requires ps.Valid() && Base64(nonce) && s != "" && SegmentOk(ps, s)
    ensures var n, f := First(ps, s), Rewriting(ps, nonce); f(s) == f(s[..n]) + f(s[n..])
  {
    var n, f := First(ps, s), Rewriting(ps, nonce);
    var x, t := s[..n], s[n..];
    assert s == x + t;
    if n == |s| {
      assert x == s && t == "";
      RewriteEmpty(ps, nonce);
    } else if TagStart(ps, s) {
      FirstTag(ps, s);
      RewriteTag(ps, nonce, x, t);
    } else if ps.bootstrap.name <= s {
      IndexTruncated(s, n, |ps.bootstrap.name|, '"');
      RewriteAssignment(ps, nonce, x, t);
    } else {
      assert x == [s[0]];
      OneCharacter(ps, nonce, s[0], t);
    }
  }

  /** `k` is where some number of whole pieces of `s` end. */
  ghost predicate Boundary(ps: Patterns, s: string, k: nat)
    requires k <= |s|
    decreases k
  {
    k == 0 || (First(ps, s) <= k && Boundary(ps, s[First(ps, s)..], k - First(ps, s)))
  }

  lemma FirstTruncated(ps: Patterns, s: string, k: nat)
    requires ps.Valid() && s != "" && First(ps, s) <= k <= |s|
    ensures First(ps, s[..k]) == First(ps, s)
  {
    var name := ps.bootstrap.name;
    if TagStart(ps, s) {
      IndexTruncated(s, k, 0, '>');
      TagNameFits(if ps.script.name <= s then ps.script.name else ps.meta.name, s);
    } else if name <= s {
      IndexTruncated(s, k, |name|, '"');
    }
  }

  lemma TagNameFits(name: string, s: string)
    requires name <= s && '>' !in name
    ensures |name| <= IndexFrom(s, 0, '>')
  {
    var i := IndexFrom(s, 0, '>');
    assert forall j | 0 <= j < |name| :: name[j] == s[j] && name[j] in name;
  }

  ghost predicate FirstApart(ps: Patterns, f: string -> string, s: string)
    requires s != ""
  {
    f(s) == f(s[..First(ps, s)]) + f(s[First(ps, s)..])
  }

  ghost predicate PieceByPiece(ps: Patterns, f: string -> string)
    requires ps.Valid()
  {
    f("") == "" && forall s {:trigger FirstApart(ps, f, s)} | s != "" && SegmentOk(ps, s) :: FirstApart(ps, f, s)
  }

  lemma PrefixApart(ps: Patterns, f: string -> string, s: string, k: nat)
    requires ps.Valid() && Document(ps, s) && s != "" && First(ps, s) <= k <= |s|
    requires PieceByPiece(ps, f)
    ensures var n := First(ps, s); f(s[..k]) == f(s[..n]) + f(s[n..][..k - n]) && FirstApart(ps, f, s)
  {
    var n := First(ps, s);
    assert s[0..] == s;
    FirstTruncated(ps, s, k);
    SegmentTruncated(ps, s, k);
    assert FirstApart(ps, f, s[..k]);
    assert s[..k][..n] == s[..n] && s[..k][n..] == s[n..][..k - n];
  }

  lemma Assoc(a: string, b: string, c: string)
    ensures a + (b + c) == a + b + c
  {
  }

  lemma SplitsJoin(f: string -> string, s: string, n: nat, k: nat)
    requires n <= k <= |s| && f(s) == f(s[..n]) + f(s[n..])
    requires f(s[..k]) == f(s[..n]) + f(s[n..][..k - n])
    requires f(s[n..]) == f(s[n..][..k - n]) + f(s[n..][k - n..])
    ensures f(s) == f(s[..k]) + f(s[k..])
  {
    assert s[n..][k - n..] == s[k..];
    Assoc(f(s[..n]), f(s[n..][..k - n]), f(s[k..]));
  }

  /** Whatever a boundary separates is rewritten separately, if first pieces are. */
  lemma {:induction false} Splits(ps: Patterns, f: string -> string, s: string, k: nat)
    requires ps.Valid() && Document(ps, s) && k <= |s| && Boundary(ps, s, k)
    requires PieceByPiece(ps, f)
    ensures f(s) == f(s[..k]) + f(s[k..])
    decreases k
  {
    if k == 0 {
      assert s[..0] == "" && s[0..] == s;
    } else {
      var n := First(ps, s);
      DocumentParts(ps, s, n);
      Splits(ps, f, s[n..], k - n);
      PrefixApart(ps, f, s, k);
      SplitsJoin(f, s, n, k);
    }
  }

  lemma RewritingPieceByPiece(ps: Patterns, nonce: string)
    requires ps.Valid() && Base64(nonce)
    ensures PieceByPiece(ps, Rewriting(ps, nonce))
  {
    var f := Rewriting(ps, nonce);
    RewriteEmpty(ps, nonce);
    forall s | s != "" && SegmentOk(ps, s) ensures FirstApart(ps, f, s) {
      FirstAlone(ps, nonce, s);
    }
  }
}
