/** When rewriting an already rewritten document changes nothing. */
module NonceIdempotence {
  import opened Collections
  import opened Wrappers
  import opened NonceRewrite
  import opened NonceSegments
  import opened NoncePieces
  import opened NonceNormalizer

  /** With its closing quote the nonce does not spell an opening of the tag pattern. */
  predicate HarmlessIn(tag: Pattern, nonce: string)
    requires tag.Tag? && tag.opening != ""
  {
    tag.spaced || !EndsWith(nonce, tag.opening[..|tag.opening| - 1])
  }

  predicate Harmless(ps: Patterns, nonce: string)
    requires ps.Valid()
  {
    HarmlessIn(ps.script, nonce) && HarmlessIn(ps.meta, nonce)
  }

  lemma TextShifted(x: string, nonce: string, m: Match, p: nat, w: string)
    requires m.open <= m.close < |x| && m.open + |nonce| <= p
    requires TextAt(OneValue(Some(m), nonce, x), p, w)
    ensures TextAt(x, p - |nonce| - m.open + m.close, w)
  {
    var z := OneValue(Some(m), nonce, x);
    var q := p - |nonce| - m.open + m.close;
    assert z[p..p + |w|] == x[q..q + |w|];
  }

  lemma OpeningText(tag: Pattern, s: string, u: nat)
    requires IsTag(tag) && u <= |s| && Opening(tag, s, u)
    ensures s[u - 1] == '"' && forall k | u - |tag.opening| <= k < u - 1 :: s[k] != '"'
  {
    var o := tag.opening;
    OpeningQuote(tag, s, u);
    forall k | u - |o| <= k < u - 1 ensures s[k] != '"' {
      var j := k - (u - |o|);
      assert s[k] == s[u - |o|..u][j] == o[j] == o[..|o| - 1][j];
    }
  }

  /** The quotes around the new value keep an opening on one side of it. */
  lemma OpeningSide(tag: Pattern, nonce: string, x: string, m: Match, u: nat)
    requires IsTag(tag) && Base64(nonce)
    requires 0 < m.open <= m.close < |x| && x[m.open - 1] == '"' && x[m.close] == '"'
    requires var z := OneValue(Some(m), nonce, x); m.open < u <= |z| && Opening(tag, z, u)
    ensures u == m.open + |nonce| + 1 || m.open + |nonce| < u - |tag.opening|
  {
    var z := OneValue(Some(m), nonce, x);
    OpeningText(tag, z, u);
    assert z[m.open + |nonce|] == '"';
    assert forall k | m.open <= k < m.open + |nonce| :: z[k] in nonce;
  }

  /** Text with no quote in it that ends where the nonce ends, and is no longer than it. */
  lemma EndOfNonce(nonce: string, x: string, z: string, m: Match, l: nat)
    requires 0 < m.open <= m.close < |x| && x[m.open - 1] == '"' && z == OneValue(Some(m), nonce, x)
    requires l <= m.open + |nonce| && forall k | m.open + |nonce| - l <= k < m.open + |nonce| :: z[k] != '"'
    ensures l <= |nonce| && z[m.open + |nonce| - l..m.open + |nonce|] == nonce[|nonce| - l..]
  {
    assert z[m.open - 1] == '"';
  }

  /** The only way to a new opening: the nonce and its closing quote spell one. */
  lemma NewOpening(tag: Pattern, nonce: string, x: string, m: Match)
    requires IsTag(tag) && Base64(nonce)
    requires 0 < m.open <= m.close < |x| && x[m.open - 1] == '"' && x[m.close] == '"'
    requires Opening(tag, OneValue(Some(m), nonce, x), m.open + |nonce| + 1)
    ensures !HarmlessIn(tag, nonce)
  {
    var z := OneValue(Some(m), nonce, x);
    OpeningText(tag, z, m.open + |nonce| + 1);
    EndOfNonce(nonce, x, z, m, |tag.opening| - 1);
    LiteralBeforeQuote(z, m.open + |nonce|, tag.opening);
    SpacedByValue(tag, nonce, x, z, m);
  }

  lemma LiteralBeforeQuote(z: string, end: nat, w: string)
    requires w != "" && |w| - 1 <= end < |z| && TextAt(z, end + 1 - |w|, w)
    ensures z[end - (|w| - 1)..end] == w[..|w| - 1]
  {
    assert z[end + 1 - |w|..end + 1][..|w| - 1] == z[end - (|w| - 1)..end];
  }

  lemma SpacedByValue(tag: Pattern, nonce: string, x: string, z: string, m: Match)
    requires IsTag(tag) && Base64(nonce)
    requires 0 < m.open <= m.close < |x| && x[m.open - 1] == '"' && x[m.close] == '"'
              && z == OneValue(Some(m), nonce, x)
    requires |tag.opening| - 1 <= |nonce| && m.open + |nonce| < |z| && Opening(tag, z, m.open + |nonce| + 1)
    ensures !tag.spaced
  {
    var start := m.open + |nonce| - |tag.opening|;
    assert start < m.open ==> z[start] == '"';
    assert start >= m.open ==> z[start] in nonce;
  }

  /** An opening past the new value was there before: the tag already had what the pattern needs. */
  lemma OpeningShifted(tag: Pattern, nonce: string, x: string, m: Match, u: nat)
    requires IsTag(tag) && m.open <= m.close < |x| && Opening(tag, x, m.open)
    requires var z := OneValue(Some(m), nonce, x); m.open + |nonce| + |tag.opening| < u <= |z| && Opening(tag, z, u)
    ensures var v := u - |nonce| - m.open + m.close; v <= |x| && Opening(tag, x, v)
  {
    var z := OneValue(Some(m), nonce, x);
    var v := u - |nonce| - m.open + m.close;
    TextShifted(x, nonce, m, u - |tag.opening|, tag.opening);
    assert z[u - |tag.opening| - 1] == x[v - |tag.opening| - 1];
    var start := m.open - |tag.opening| - (if tag.spaced then 1 else 0);
    var p :| |tag.name| <= p <= start - |tag.needs| && TextAt(x, p, tag.needs);
    assert TextAt(x, p, tag.needs);
  }

  /** Every later opening in the rewritten tag was there before. */
  lemma LaterOpening(tag: Pattern, nonce: string, x: string, m: Match, u: nat)
    requires IsTag(tag) && Base64(nonce) && HarmlessIn(tag, nonce)
    requires 0 < m.open <= m.close < |x| && x[m.open - 1] == '"' && x[m.close] == '"' && Opening(tag, x, m.open)
    requires var z := OneValue(Some(m), nonce, x); m.open < u <= |z| && Opening(tag, z, u)
    ensures var v := u - |nonce| - m.open + m.close; m.close + 1 < v <= |x| && Opening(tag, x, v)
  {
    OpeningSide(tag, nonce, x, m, u);
    assert u != m.open + |nonce| + 1 by {
      if u == m.open + |nonce| + 1 { NewOpening(tag, nonce, x, m); }
    }
    OpeningShifted(tag, nonce, x, m, u);
  }

  lemma LaterClosable(tag: Pattern, nonce: string, x: string, m: Match, u: nat)
    requires IsTag(tag) && Base64(nonce) && HarmlessIn(tag, nonce)
    requires 0 < m.open <= m.close < |x| && x[m.open - 1] == '"' && x[m.close] == '"' && Opening(tag, x, m.open)
    requires var z := OneValue(Some(m), nonce, x); m.open < u <= |z| && Closable(tag, z, u)
    ensures var v := u - |nonce| - m.open + m.close; m.close + 1 < v <= |x| && Closable(tag, x, v)
  {
    LaterOpening(tag, nonce, x, m, u);
    QuoteMoves(nonce, x, m, u);
  }

  lemma NoneLater(tag: Pattern, nonce: string, x: string, z: string, m: Match, top: nat)
    requires IsTag(tag) && Base64(nonce) && HarmlessIn(tag, nonce)
    requires 0 < m.open <= m.close < top <= |x| && x[m.open - 1] == '"' && x[m.close] == '"' && Opening(tag, x, m.open)
    requires z == OneValue(Some(m), nonce, x)
    requires forall v | m.open < v <= top :: !Closable(tag, x, v)
    ensures forall u | m.open < u <= top - m.close + m.open + |nonce| :: !Closable(tag, z, u)
  {
    forall u | m.open < u <= top - m.close + m.open + |nonce| && Closable(tag, z, u) ensures false {
      LaterClosable(tag, nonce, x, m, u);
    }
  }

  lemma FoundAt(tag: Pattern, z: string, m: Match)
    requires tag.Tag? && TagNamed(tag.name, z) && m.open <= IndexFrom(z, 0, '>')
    requires Closable(tag, z, m.open) && m.close == IndexFrom(z, m.open, '"')
    requires forall u | m.open < u <= IndexFrom(z, 0, '>') :: !Closable(tag, z, u)
    ensures Find(tag, z) == Some(m)
  {
    LastOpeningIs(tag, z, IndexFrom(z, 0, '>'));
  }

  /** A rewritten value is found again, and only it. */
  lemma FoundAgain(tag: Pattern, nonce: string, x: string, z: string, m: Match)
    requires IsTag(tag) && Base64(nonce) && HarmlessIn(tag, nonce)
    requires Find(tag, x) == Some(m) && m.close < IndexFrom(x, 0, '>') && z == OneValue(Some(m), nonce, x)
    ensures Find(tag, z) == Some(Match(m.open, m.open + |nonce|))
  {
    FoundThere(tag, x, m);
    SameUpToValue(tag, nonce, x, m);
    EndMoves(nonce, x, m);
    NoneLater(tag, nonce, x, z, m, IndexFrom(x, 0, '>'));
    FoundAt(tag, z, Match(m.open, m.open + |nonce|));
  }

  lemma FoundThere(tag: Pattern, x: string, m: Match)
    requires IsTag(tag) && Find(tag, x) == Some(m)
    ensures |tag.name| < m.open && x[m.open - 1] == '"' && Opening(tag, x, m.open) && TagNamed(tag.name, x)
    ensures m.open <= IndexFrom(x, 0, '>') && forall v | m.open < v <= IndexFrom(x, 0, '>') :: !Closable(tag, x, v)
  {
    ValueIsQuoted(tag, x);
    LastOpeningIs(tag, x, IndexFrom(x, 0, '>'));
  }

  lemma SameUpToValue(tag: Pattern, nonce: string, x: string, m: Match)
    requires IsTag(tag) && Base64(nonce) && |tag.name| < m.open <= m.close < |x| && x[m.close] == '"'
    ensures var z := OneValue(Some(m), nonce, x);
            && TagNamed(tag.name, z) == TagNamed(tag.name, x)
            && (forall u | 0 <= u <= m.open :: Opening(tag, z, u) == Opening(tag, x, u))
            && IndexFrom(z, m.open, '"') == m.open + |nonce|
  {
    var z := OneValue(Some(m), nonce, x);
    var a := x[..m.open];
    assert z == a + (nonce + x[m.close..]) && x == a + x[m.open..];
    forall u | 0 <= u <= m.open ensures Opening(tag, z, u) == Opening(tag, x, u) {
      OpeningInPrefix(tag, a, nonce + x[m.close..], u);
      OpeningInPrefix(tag, a, x[m.open..], u);
    }
    assert forall k | m.open <= k < m.open + |nonce| :: z[k] in nonce;
    assert z[m.open + |nonce|] == '"';
    assert forall k | 0 <= k < m.open :: z[k] == x[k];
  }

  lemma EndMoves(nonce: string, x: string, m: Match)
    requires Base64(nonce) && m.open <= m.close < |x| && m.close < IndexFrom(x, 0, '>')
    ensures IndexFrom(OneValue(Some(m), nonce, x), 0, '>') == IndexFrom(x, 0, '>') - m.close + m.open + |nonce|
  {
    var z := OneValue(Some(m), nonce, x);
    var d := m.open + |nonce| - m.close;
    assert forall k | 0 <= k < m.open :: z[k] == x[k];
    assert forall k | m.open <= k < m.open + |nonce| :: z[k] in nonce;
    assert forall k | m.open + |nonce| <= k < |z| :: z[k] == x[k - d];
    var g := IndexFrom(x, 0, '>');
    assert g < |x| ==> z[g + d] == '>';
  }

  lemma QuoteMoves(nonce: string, x: string, m: Match, u: nat)
    requires m.open <= m.close < |x|
    requires m.open + |nonce| <= u <= |OneValue(Some(m), nonce, x)|
    requires IndexFrom(OneValue(Some(m), nonce, x), u, '"') < |OneValue(Some(m), nonce, x)|
    ensures IndexFrom(x, u - |nonce| - m.open + m.close, '"') < |x|
  {
    var z := OneValue(Some(m), nonce, x);
    var d := m.open + |nonce| - m.close;
    assert x[IndexFrom(z, u, '"') - d] == '"';
  }

  // ---------------------------------------------------------------- tags, assignments, characters

  /** The pattern whose tag name starts `x`. */
  function TagOf(ps: Patterns, x: string): Pattern {
    if ps.script.name <= x then ps.script else ps.meta
  }

  /** A tag, closed or not, whose rewritable value closes inside it. */
  predicate LoneTag(ps: Patterns, x: string)
    requires ps.Valid()
  {
    && TagStart(ps, x) && '<' !in x[1..] && NoneStarts(ps.bootstrap.name, x, |x|)
    && (Find(TagOf(ps, x), x).Some? ==> Find(TagOf(ps, x), x).value.close < IndexFrom(x, 0, '>'))
  }

  lemma ReplaceLone(tag: Pattern, nonce: string, x: string)
    requires IsTag(tag) && x != "" && '<' !in x[1..]
    ensures Replace(tag, nonce, x) == OneValue(Find(tag, x), nonce, x)
  {
    assert x + "" == x;
    ReplaceInTag(tag, nonce, x, "");
    ReplaceNothing(tag, nonce);
  }

  lemma ReplaceNone(name: string, nonce: string, x: string)
    requires NoneStarts(name, x, |x|)
    ensures Replace(Assignment(name), nonce, x) == x
  {
    assert x + "" == x;
    NoneStartsSkips(name, nonce, x, "");
    ReplaceNothing(Assignment(name), nonce);
  }

  lemma OtherTagNotFound(ps: Patterns, x: string)
    requires ps.Valid() && TagStart(ps, x)
    ensures var other := if ps.script.name <= x then ps.meta else ps.script; Find(other, x) == None
    ensures TagOf(ps, x).name <= x && IsTag(TagOf(ps, x))
  {
    if ps.script.name <= x { assert x[1] == ps.script.name[1]; } else { assert x[1] == ps.meta.name[1]; }
  }

  lemma AngleAfterValue(nonce: string, x: string, m: Match)
    requires Base64(nonce) && x != "" && '<' !in x[1..] && 0 < m.open <= m.close < |x|
    ensures '<' !in OneValue(Some(m), nonce, x)[1..]
  {
    var z := OneValue(Some(m), nonce, x);
    assert forall k | 1 <= k < |x| :: x[k] == x[1..][k - 1];
    forall k | 1 <= k < |z| ensures z[k] != '<' {
      if m.open <= k < m.open + |nonce| { assert z[k] in nonce; }
    }
  }

  /** Changing the value leaves a tag of the same kind. */
  lemma StillATag(ps: Patterns, tag: Pattern, nonce: string, x: string, z: string)
    requires ps.Valid() && Base64(nonce) && IsTag(tag) && tag.name <= x && '<' !in x[1..]
    requires NoneStarts(ps.bootstrap.name, x, |x|) && z == OneValue(Find(tag, x), nonce, x)
    ensures tag.name <= z && z[1] == x[1] && '<' !in z[1..] && NoneStarts(ps.bootstrap.name, z, |z|)
  {
    if Find(tag, x).Some? {
      var m := Find(tag, x).value;
      FoundThere(tag, x, m);
      NoneCreated(ps.bootstrap.name, nonce, x, m);
      AngleAfterValue(nonce, x, m);
      assert z[..m.open] == x[..m.open];
    }
  }

  lemma OtherTagUntouched(ps: Patterns, nonce: string, x: string)
    requires ps.Valid() && TagStart(ps, x) && '<' !in x[1..] && NoneStarts(ps.bootstrap.name, x, |x|)
    ensures Replace(ps.bootstrap, nonce, x) == x
    ensures Replace(if ps.script.name <= x then ps.meta else ps.script, nonce, x) == x
  {
    OtherTagNotFound(ps, x);
    ReplaceLone(if ps.script.name <= x then ps.meta else ps.script, nonce, x);
    ReplaceNone(ps.bootstrap.name, nonce, x);
  }

  lemma LoneTagRewritten(ps: Patterns, nonce: string, x: string, z: string)
    requires ps.Valid() && Base64(nonce) && LoneTag(ps, x) && z == OneValue(Find(TagOf(ps, x), x), nonce, x)
    ensures Rewrite(ps, nonce, x) == z
    ensures TagStart(ps, z) && TagOf(ps, z) == TagOf(ps, x) && '<' !in z[1..] && NoneStarts(ps.bootstrap.name, z, |z|)
  {
    OtherTagNotFound(ps, x);
    StillATag(ps, TagOf(ps, x), nonce, x, z);
    assert TagOf(ps, z) == TagOf(ps, x) by { assert z[1] == x[1]; }
    ReplaceLone(TagOf(ps, x), nonce, x);
    OtherTagUntouched(ps, nonce, x);
    OtherTagUntouched(ps, nonce, z);
  }

  lemma SameValue(z: string, nonce: string, open: nat)
    requires open + |nonce| < |z| && z[open..open + |nonce|] == nonce
    ensures OneValue(Some(Match(open, open + |nonce|)), nonce, z) == z
  {
  }

  lemma LoneTagFoundAgain(ps: Patterns, nonce: string, x: string, z: string)
    requires ps.Valid() && Base64(nonce) && HarmlessIn(TagOf(ps, x), nonce) && IsTag(TagOf(ps, x)) && LoneTag(ps, x)
    requires z == OneValue(Find(TagOf(ps, x), x), nonce, x)
    ensures var again := Find(TagOf(ps, x), z);
            && (again.Some? ==> again.value.close < IndexFrom(z, 0, '>'))
            && OneValue(again, nonce, z) == z
  {
    var tag := TagOf(ps, x);
    if Find(tag, x).Some? {
      var m := Find(tag, x).value;
      FoundAgain(tag, nonce, x, z, m);
      EndMoves(nonce, x, m);
      SameValue(z, nonce, m.open);
    }
  }

  lemma LoneTagTwice(ps: Patterns, nonce: string, x: string, z: string)
    requires ps.Valid() && Base64(nonce) && Harmless(ps, nonce)
    requires LoneTag(ps, x) && z == OneValue(Find(TagOf(ps, x), x), nonce, x)
    ensures Rewrite(ps, nonce, x) == z && LoneTag(ps, z) && Rewrite(ps, nonce, z) == z
  {
    OtherTagNotFound(ps, x);
    LoneTagRewritten(ps, nonce, x, z);
    LoneTagFoundAgain(ps, nonce, x, z);
    LoneTagRewritten(ps, nonce, z, OneValue(Find(TagOf(ps, x), z), nonce, z));
  }

  lemma QuoteStays(nonce: string, x: string, z: string, m: Match, u: nat)
    requires m.open <= m.close < |x| && z == OneValue(Some(m), nonce, x)
    requires m.open + |nonce| <= u <= |z|
    requires IndexFrom(x, u - |nonce| - m.open + m.close, '"') < |x| - 1
    ensures IndexFrom(z, u, '"') < |z| - 1
  {
    var d := m.open + |nonce| - m.close;
    assert z[IndexFrom(x, u - d, '"') + d] == '"';
  }

  lemma ValueStillClosed(tag: Pattern, nonce: string, x: string, z: string, m: Match, u: nat)
    requires IsTag(tag) && Base64(nonce) && HarmlessIn(tag, nonce)
    requires 0 < m.open <= m.close < |x| - 1 && x[m.open - 1] == '"' && x[m.close] == '"' && Opening(tag, x, m.open)
    requires ValuesClosed(tag, x, |x| - 1) && x[|x| - 1] == '>' && z == OneValue(Some(m), nonce, x)
    requires u <= |z| - 1 && Opening(tag, z, u)
    ensures IndexFrom(z, u, '"') < |z| - 1
  {
    if u > m.open {
      LaterOpening(tag, nonce, x, m, u);
      QuoteStays(nonce, x, z, m, u);
    } else {
      assert z[m.open + |nonce|] == '"';
    }
  }

  lemma MatchCloses(tag: Pattern, x: string, m: Match)
    requires IsTag(tag) && |x| > 0 && IndexFrom(x, 0, '>') == |x| - 1 && ValuesClosed(tag, x, |x| - 1)
              && Find(tag, x) == Some(m)
    ensures x[|x| - 1] == '>'
    ensures 0 < m.open <= m.close < |x| - 1 && x[m.open - 1] == '"' && x[m.close] == '"' && Opening(tag, x, m.open)
  {
    FoundThere(tag, x, m);
    assert IndexFrom(x, m.open, '"') == m.close by { LastOpeningIs(tag, x, IndexFrom(x, 0, '>')); }
  }

  lemma AllStillClosed(tag: Pattern, nonce: string, x: string, z: string, m: Match)
    requires IsTag(tag) && Base64(nonce) && HarmlessIn(tag, nonce)
    requires 0 < m.open <= m.close < |x| - 1 && x[m.open - 1] == '"' && x[m.close] == '"' && Opening(tag, x, m.open)
    requires ValuesClosed(tag, x, |x| - 1) && x[|x| - 1] == '>' && z == OneValue(Some(m), nonce, x)
    ensures |z| > 0 && ValuesClosed(tag, z, |z| - 1)
  {
    forall u | 0 <= u <= |z| - 1 && Opening(tag, z, u) ensures IndexFrom(z, u, '"') < |z| - 1 {
      ValueStillClosed(tag, nonce, x, z, m, u);
    }
  }

  lemma ValuesStillClosed(tag: Pattern, nonce: string, x: string, z: string, m: Match)
    requires IsTag(tag) && Base64(nonce) && HarmlessIn(tag, nonce)
    requires |x| > 0 && IndexFrom(x, 0, '>') == |x| - 1 && ValuesClosed(tag, x, |x| - 1)
    requires Find(tag, x) == Some(m) && z == OneValue(Some(m), nonce, x)
    ensures m.close < |x| - 1 && |z| > 0 && ValuesClosed(tag, z, |z| - 1)
  {
    MatchCloses(tag, x, m);
    AllStillClosed(tag, nonce, x, z, m);
  }

  lemma ClosedTagTwice(ps: Patterns, nonce: string, x: string, y: string)
    requires ps.Valid() && Base64(nonce) && Harmless(ps, nonce) && TagStart(ps, x)
    requires ClosedTag(ps.bootstrap.name, x) && ValuesClosed(TagOf(ps, x), x, |x| - 1)
    ensures var z := Rewrite(ps, nonce, x); Rewrite(ps, nonce, z + y) == z + Rewrite(ps, nonce, y)
  {
    var tag := TagOf(ps, x);
    var z := OneValue(Find(tag, x), nonce, x);
    OtherTagNotFound(ps, x);
    if Find(tag, x).Some? {
      var m := Find(tag, x).value;
      ValuesStillClosed(tag, nonce, x, z, m);
      EndMoves(nonce, x, m);
    }
    LoneTagTwice(ps, nonce, x, z);
    OtherTagNotFound(ps, z);
    assert TagOf(ps, z) == tag by { LoneTagRewritten(ps, nonce, x, z); }
    RewriteTag(ps, nonce, z, y);
  }

  /** Every match holds two quotes: the one that opens the value and the one that closes it. */
  lemma TwoQuotes(pattern: Pattern, s: string, p: nat, m: Match)
    requires p <= |s| && Find(pattern, s[p..]) == Some(m)
    requires IsTag(pattern) || (pattern.Assignment? && Quoted(pattern.name))
    ensures 0 < m.open <= m.close < |s| - p && s[p + m.open - 1] == '"' && s[p + m.close] == '"'
  {
    if pattern.Tag? { FoundThere(pattern, s[p..], m); }
  }

  lemma OneQuote(name: string, s: string)
    requires Quoted(name) && name <= s && IndexFrom(s, |name|, '"') == |s|
    ensures forall k | 0 <= k < |s| && s[k] == '"' :: k == |name| - 1
  {
    assert forall k | 0 <= k < |name| - 1 :: name[..|name| - 1][k] == s[k];
  }

  /** A bootstrap assignment that never closes is left alone, with all that follows it. */
  lemma OpenAssignment(pattern: Pattern, nonce: string, name: string, s: string)
    requires Quoted(name) && name <= s && IndexFrom(s, |name|, '"') == |s|
    requires IsTag(pattern) || (pattern.Assignment? && Quoted(pattern.name))
    ensures Replace(pattern, nonce, s) == s
  {
    OneQuote(name, s);
    forall p | 0 <= p < |s| ensures Find(pattern, s[p..] + "") == None {
      assert s[p..] + "" == s[p..];
      if Find(pattern, s[p..]).Some? {
        TwoQuotes(pattern, s, p, Find(pattern, s[p..]).value);
        assert false;
      }
    }
    ReplaceSkips(Finding(pattern), nonce, s, "");
    ReplaceNothing(pattern, nonce);
    assert s + "" == s;
  }

  // ---------------------------------------------------------------- whole documents

  lemma CharacterSettled(ps: Patterns, nonce: string, c: char, t: string)
    requires ps.Valid() && !TagStart(ps, [c] + t) && !(ps.bootstrap.name <= [c] + t)
    ensures Rewrite(ps, nonce, [c]) == [c]
    ensures Rewrite(ps, nonce, [c] + Rewrite(ps, nonce, t)) == [c] + Rewrite(ps, nonce, Rewrite(ps, nonce, t))
  {
    StartKeptByRewrite(ps, nonce, c, t, ps.script.name);
    StartKeptByRewrite(ps, nonce, c, t, ps.bootstrap.name);
    StartKeptByRewrite(ps, nonce, c, t, ps.meta.name);
    RewriteCharacter(ps, nonce, c, Rewrite(ps, nonce, t));
    RewriteCharacter(ps, nonce, c, "");
    assert [c] + "" == [c];
    RewriteEmpty(ps, nonce);
  }

  lemma NewAssignment(name: string, nonce: string, z: string)
    requires Base64(nonce) && z == name + nonce + ['"'] && '<' !in name
    ensures name <= z && IndexFrom(z, |name|, '"') == |z| - 1 && '<' !in z
  {
    assert z[|z| - 1] == '"';
    forall k | 0 <= k < |z| - 1 ensures z[k] != '<' && (|name| <= k ==> z[k] != '"') {
      if |name| <= k {
        assert z[k] == nonce[k - |name|] && nonce[k - |name|] in nonce;
      } else {
        assert z[k] == name[k] && name[k] in name;
      }
    }
  }

  lemma AssignmentSettled(ps: Patterns, nonce: string, x: string, y: string, z: string)
    requires ps.Valid() && Base64(nonce) && '<' !in x
    requires ps.bootstrap.name <= x && IndexFrom(x, |ps.bootstrap.name|, '"') == |x| - 1
    requires z == Rewrite(ps, nonce, x)
    ensures Rewrite(ps, nonce, z + y) == z + Rewrite(ps, nonce, y)
  {
    RewriteAssignment(ps, nonce, x, "");
    NewAssignment(ps.bootstrap.name, nonce, z);
    AssignmentStages(ps, nonce, z, y, z);
  }

  lemma FirstTagSettled(ps: Patterns, nonce: string, s: string, y: string)
    requires ps.Valid() && Base64(nonce) && Harmless(ps, nonce) && SegmentOk(ps, s)
    requires TagStart(ps, s) && First(ps, s) < |s|
    ensures var z := Rewrite(ps, nonce, s[..First(ps, s)]); Rewrite(ps, nonce, z + y) == z + Rewrite(ps, nonce, y)
  {
    var x := s[..First(ps, s)];
    FirstTag(ps, s);
    OtherTagNotFound(ps, s);
    TagNameFits(TagOf(ps, s).name, s);
    assert TagOf(ps, x).name <= x;
    ClosedTagTwice(ps, nonce, x, y);
  }

  lemma FirstAssignment(ps: Patterns, s: string)
    requires ps.Valid() && s != "" && SegmentOk(ps, s)
    requires !TagStart(ps, s) && ps.bootstrap.name <= s && IndexFrom(s, |ps.bootstrap.name|, '"') < |s|
    ensures var x, name := s[..First(ps, s)], ps.bootstrap.name;
            '<' !in x && name <= x && IndexFrom(x, |name|, '"') == |x| - 1
  {
    IndexTruncated(s, First(ps, s), |ps.bootstrap.name|, '"');
  }

  lemma OpenAssignmentSettled(ps: Patterns, nonce: string, s: string, z: string)
    requires ps.Valid() && s != "" && SegmentOk(ps, s)
    requires !TagStart(ps, s) && ps.bootstrap.name <= s && z == Rewrite(ps, nonce, s)
    requires IndexFrom(s, |ps.bootstrap.name|, '"') == |s|
    ensures Rewrite(ps, nonce, z) == z
  {
    var name := ps.bootstrap.name;
    OpenAssignment(ps.script, nonce, name, s);
    OpenAssignment(ps.bootstrap, nonce, name, s);
    OpenAssignment(ps.meta, nonce, name, s);
  }

  lemma LastAssignmentSettled(ps: Patterns, nonce: string, s: string, z: string)
    requires ps.Valid() && Base64(nonce) && s != "" && SegmentOk(ps, s) && First(ps, s) == |s|
    requires !TagStart(ps, s) && ps.bootstrap.name <= s && z == Rewrite(ps, nonce, s)
    ensures Rewrite(ps, nonce, z) == z
  {
    if IndexFrom(s, |ps.bootstrap.name|, '"') < |s| {
      FirstAssignment(ps, s);
      assert s[..|s|] == s && z + "" == z;
      AssignmentSettled(ps, nonce, s, "", z);
      RewriteEmpty(ps, nonce);
    } else {
      OpenAssignmentSettled(ps, nonce, s, z);
    }
  }

  lemma LastCharacterSettled(ps: Patterns, nonce: string, s: string)
    requires ps.Valid() && |s| == 1 && !TagStart(ps, s) && !(ps.bootstrap.name <= s)
    ensures Rewrite(ps, nonce, s) == s
  {
    assert [s[0]] + "" == s == [s[0]];
    RewriteCharacter(ps, nonce, s[0], "");
    RewriteEmpty(ps, nonce);
  }

  lemma TagToTheEnd(name: string, s: string)
    requires |name| >= 2 && s != "" && IndexFrom(s, 0, '>') + 1 >= |s|
    requires (forall p | 0 < p < IndexFrom(s, 0, '>') :: s[p] != '<') && NoneStarts(name, s, IndexFrom(s, 0, '>'))
    ensures '<' !in s[1..] && NoneStarts(name, s, |s|)
  {
    var end := IndexFrom(s, 0, '>');
    assert forall k | 0 <= k < |s| - 1 :: s[1..][k] == s[k + 1];
    if end < |s| { assert |s[end..]| == 1; }
  }

  lemma LastTagIsLone(ps: Patterns, s: string)
    requires ps.Valid() && SegmentOk(ps, s) && TagStart(ps, s) && First(ps, s) == |s|
    ensures LoneTag(ps, s)
  {
    var tag := TagOf(ps, s);
    OtherTagNotFound(ps, s);
    TagToTheEnd(ps.bootstrap.name, s);
    if Find(tag, s).Some? {
      FoundThere(tag, s, Find(tag, s).value);
      LastOpeningIs(tag, s, IndexFrom(s, 0, '>'));
    }
  }

  lemma LastTagSettled(ps: Patterns, nonce: string, s: string)
    requires ps.Valid() && Base64(nonce) && Harmless(ps, nonce) && SegmentOk(ps, s)
    requires TagStart(ps, s) && First(ps, s) == |s|
    ensures Rewrite(ps, nonce, Rewrite(ps, nonce, s)) == Rewrite(ps, nonce, s)
  {
    LastTagIsLone(ps, s);
    LoneTagTwice(ps, nonce, s, OneValue(Find(TagOf(ps, s), s), nonce, s));
  }

  lemma LastPieceSettled(ps: Patterns, nonce: string, s: string)
    requires ps.Valid() && Base64(nonce) && Harmless(ps, nonce) && s != "" && SegmentOk(ps, s) && First(ps, s) == |s|
    ensures Rewrite(ps, nonce, Rewrite(ps, nonce, s)) == Rewrite(ps, nonce, s)
  {
    if TagStart(ps, s) {
      LastTagSettled(ps, nonce, s);
    } else if ps.bootstrap.name <= s {
      LastAssignmentSettled(ps, nonce, s, Rewrite(ps, nonce, s));
    } else {
      LastCharacterSettled(ps, nonce, s);
    }
  }

  lemma FirstPieceSettled(ps: Patterns, nonce: string, s: string, x: string, t: string)
    requires ps.Valid() && Base64(nonce) && Harmless(ps, nonce) && s != "" && SegmentOk(ps, s) && First(ps, s) < |s|
    requires x == s[..First(ps, s)] && t == s[First(ps, s)..]
    ensures Rewrite(ps, nonce, Rewrite(ps, nonce, x) + Rewrite(ps, nonce, t))
         == Rewrite(ps, nonce, x) + Rewrite(ps, nonce, Rewrite(ps, nonce, t))
  {
    if TagStart(ps, s) {
      FirstTagSettled(ps, nonce, s, Rewrite(ps, nonce, t));
    } else if ps.bootstrap.name <= s {
      FirstAssignment(ps, s);
      AssignmentSettled(ps, nonce, x, Rewrite(ps, nonce, t), Rewrite(ps, nonce, x));
    } else {
      assert x == [s[0]] && [s[0]] + t == s;
      CharacterSettled(ps, nonce, s[0], t);
    }
  }

  lemma SettledJoins(f: string -> string, s: string, x: string, t: string)
    requires f(s) == f(x) + f(t) && f(f(x) + f(t)) == f(x) + f(f(t)) && f(f(t)) == f(t)
    ensures f(f(s)) == f(s)
  {
  }

  /** Rewriting a rewritten document changes nothing, if the nonce is harmless. */
  lemma {:induction false} RewriteIsIdempotent(ps: Patterns, nonce: string, s: string)
    requires ps.Valid() && Base64(nonce) && Harmless(ps, nonce) && Document(ps, s)
    ensures Rewrite(ps, nonce, Rewrite(ps, nonce, s)) == Rewrite(ps, nonce, s)
    decreases |s|
  {
    if s == "" {
      RewriteEmpty(ps, nonce);
    } else {
      DocumentHead(ps, s);
      var n := First(ps, s);
      if n == |s| {
        LastPieceSettled(ps, nonce, s);
      } else {
        DocumentParts(ps, s, n);
        RewriteIsIdempotent(ps, nonce, s[n..]);
        FirstAlone(ps, nonce, s);
        FirstPieceSettled(ps, nonce, s, s[..n], s[n..]);
        SettledJoins(Rewriting(ps, nonce), s, s[..n], s[n..]);
      }
    }
  }

  // ---------------------------------------------------------------- the harmful nonces

  lemma SpelledAtEnd(nonce: string, x: string, z: string, m: Match, w: string)
    requires m.open <= m.close < |x| && x[m.close] == '"' && z == OneValue(Some(m), nonce, x)
    requires w != "" && w[|w| - 1] == '"' && EndsWith(nonce, w[..|w| - 1])
    ensures |w| - 1 <= |nonce| && TextAt(z, m.open + |nonce| + 1 - |w|, w)
  {
    var l, u := |w| - 1, m.open + |nonce| + 1;
    assert nonce[|nonce| - l..] + ['"'] == w;
    assert z[u - 1 - l..u] == nonce[|nonce| - l..] + ['"'];
  }

  lemma NewOpeningSpelled(tag: Pattern, nonce: string, x: string, z: string, m: Match)
    requires IsTag(tag) && !HarmlessIn(tag, nonce) && Find(tag, x) == Some(m) && z == OneValue(Some(m), nonce, x)
    ensures Opening(tag, z, m.open + |nonce| + 1)
  {
    FoundThere(tag, x, m);
    SpelledAtEnd(nonce, x, z, m, tag.opening);
    var p :| |tag.name| <= p <= m.open - |tag.opening| - |tag.needs| && TextAt(x, p, tag.needs);
    assert TextAt(z, p, tag.needs) by { assert z[p..p + |tag.needs|] == x[p..p + |tag.needs|]; }
  }

  lemma LaterWasThere(tag: Pattern, nonce: string, x: string, z: string, m: Match, u: nat)
    requires IsTag(tag) && Base64(nonce)
    requires 0 < m.open <= m.close < |x| && x[m.open - 1] == '"' && x[m.close] == '"' && Opening(tag, x, m.open)
    requires z == OneValue(Some(m), nonce, x)
    requires m.open + |nonce| + 1 < u <= |z| && Closable(tag, z, u)
    ensures var v := u - |nonce| - m.open + m.close; m.close + 1 < v <= |x| && Closable(tag, x, v)
  {
    OpeningSide(tag, nonce, x, m, u);
    OpeningShifted(tag, nonce, x, m, u);
    QuoteMoves(nonce, x, m, u);
  }

  lemma NothingLater(tag: Pattern, nonce: string, x: string, z: string, m: Match, top: nat)
    requires IsTag(tag) && Base64(nonce)
    requires 0 < m.open <= m.close < top <= |x| && x[m.open - 1] == '"' && x[m.close] == '"' && Opening(tag, x, m.open)
    requires z == OneValue(Some(m), nonce, x)
    requires forall v | m.open < v <= top :: !Closable(tag, x, v)
    ensures forall u | m.open + |nonce| + 1 < u <= top - m.close + m.open + |nonce| :: !Closable(tag, z, u)
  {
    forall u | m.open + |nonce| + 1 < u <= top - m.close + m.open + |nonce| && Closable(tag, z, u) ensures false {
      LaterWasThere(tag, nonce, x, z, m, u);
    }
  }

  lemma AttributeMoves(nonce: string, x: string, z: string, m: Match)
    requires m.open <= m.close < |x| && z == OneValue(Some(m), nonce, x)
    requires m.close + 1 < |x| && IndexFrom(x, m.close + 1, '"') < |x|
    ensures IndexFrom(z, m.open + |nonce| + 1, '"') == IndexFrom(x, m.close + 1, '"') - m.close + m.open + |nonce|
    ensures z[m.open + |nonce| + 1] == x[m.close + 1]
  {
    var d := m.open + |nonce| - m.close;
    assert forall k | m.open + |nonce| <= k < |z| :: z[k] == x[k - d];
    assert z[IndexFrom(x, m.close + 1, '"') + d] == '"';
  }

  lemma ClosableSpelled(tag: Pattern, nonce: string, x: string, z: string, m: Match)
    requires IsTag(tag) && Base64(nonce) && !HarmlessIn(tag, nonce)
    requires Find(tag, x) == Some(m) && z == OneValue(Some(m), nonce, x)
    requires m.close + 1 < |x| && IndexFrom(x, m.close + 1, '"') < IndexFrom(x, 0, '>')
    ensures var w := m.open + |nonce| + 1;
            w < |z| && Closable(tag, z, w) && TagNamed(tag.name, z) && w <= IndexFrom(z, w, '"') < IndexFrom(z, 0, '>')
  {
    FoundThere(tag, x, m);
    SameUpToValue(tag, nonce, x, m);
    EndMoves(nonce, x, m);
    NewOpeningSpelled(tag, nonce, x, z, m);
    AttributeMoves(nonce, x, z, m);
  }

  lemma LaterGone(tag: Pattern, nonce: string, x: string, z: string, m: Match)
    requires IsTag(tag) && Base64(nonce)
    requires Find(tag, x) == Some(m) && m.close < IndexFrom(x, 0, '>') && z == OneValue(Some(m), nonce, x)
    ensures forall u | m.open + |nonce| + 1 < u <= IndexFrom(z, 0, '>') :: !Closable(tag, z, u)
  {
    FoundThere(tag, x, m);
    EndMoves(nonce, x, m);
    NothingLater(tag, nonce, x, z, m, IndexFrom(x, 0, '>'));
  }

  lemma DifferentThere(nonce: string, z: string, m: Match)
    requires m.open <= m.close < |z| && nonce != "" && nonce[0] != z[m.open]
    ensures OneValue(Some(m), nonce, z) != z
  {
    assert OneValue(Some(m), nonce, z)[m.open] == nonce[0];
  }

  lemma HarmfulNonceFound(tag: Pattern, nonce: string, x: string, z: string, m: Match, w: Match)
    requires IsTag(tag) && Base64(nonce) && !HarmlessIn(tag, nonce)
    requires Find(tag, x) == Some(m) && z == OneValue(Some(m), nonce, x)
    requires m.close + 1 < |x| && IndexFrom(x, m.close + 1, '"') < IndexFrom(x, 0, '>')
    requires w.open == m.open + |nonce| + 1 <= |z| && w.close == IndexFrom(z, w.open, '"')
    ensures w.open <= w.close < IndexFrom(z, 0, '>') && Find(tag, z) == Some(w)
  {
    ClosableSpelled(tag, nonce, x, z, m);
    LaterGone(tag, nonce, x, z, m);
    FoundAt(tag, z, w);
  }

  lemma HarmfulNonceNonempty(tag: Pattern, nonce: string)
    requires IsTag(tag) && !HarmlessIn(tag, nonce) && |tag.opening| > 1
    ensures nonce != ""
  {
  }

  /** A nonce that ends like an opening is read as one the next time, and the text after it as its value. */
  lemma HarmfulNonceShows(tag: Pattern, nonce: string, x: string, z: string, m: Match, w: Match)
    requires IsTag(tag) && Base64(nonce) && !HarmlessIn(tag, nonce) && |tag.opening| > 1
    requires Find(tag, x) == Some(m) && z == OneValue(Some(m), nonce, x)
    requires m.close + 1 < |x| && IndexFrom(x, m.close + 1, '"') < IndexFrom(x, 0, '>') && x[m.close + 1] == ' '
    requires w.open == m.open + |nonce| + 1 <= |z| && w.close == IndexFrom(z, w.open, '"')
    ensures w.close < IndexFrom(z, 0, '>') && Find(tag, z) == Some(w) && OneValue(Some(w), nonce, z) != z
  {
    HarmfulNonceFound(tag, nonce, x, z, m, w);
    HarmfulNonceNonempty(tag, nonce);
    AttributeMoves(nonce, x, z, m);
    assert nonce[0] in nonce;
    DifferentThere(nonce, z, w);
  }

  /** One meta tag with one more quoted attribute after its content. */
  const TWO_ATTRIBUTES: string := META.name + " " + META.needs + " " + META.opening + "\" a=\"\">"

  lemma TwoAttributes(d: string)
    requires d == TWO_ATTRIBUTES
    ensures |d| == 43 && d[..5] == META.name && d[6..26] == META.needs && d[27..36] == META.opening
    ensures d[5] == ' ' && d[36] == d[40] == d[41] == '"' && d[37] == ' ' && d[42] == '>'
  {
  }

  lemma CharactersOfTwoAttributes(d: string)
    requires d == TWO_ATTRIBUTES
    ensures forall k | 0 <= k < 42 :: d[k] != '>' && (0 < k ==> d[k] != '<') && d[k] != 'w'
    ensures forall k | 36 < k < 40 :: d[k] != '"'
  {
  }

  lemma TwoAttributesOpening(tag: Pattern, d: string)
    requires tag.Tag? && !tag.spaced && |tag.name| == 5 && |tag.needs| == 20 && |tag.opening| == 9
    requires |d| == 43 && d[..5] == tag.name && d[6..26] == tag.needs && d[27..36] == tag.opening
    requires d[5] == ' ' && d[36] == '"'
    ensures TagNamed(tag.name, d) && Closable(tag, d, 36) && IndexFrom(d, 36, '"') == 36
  {
    assert TextAt(d, 6, tag.needs) && TextAt(d, 27, tag.opening);
  }

  /** The only opening before the end is the one at 36. */
  lemma TwoAttributesFound(tag: Pattern, d: string)
    requires IsTag(tag) && !tag.spaced && |tag.name| == 5 && |tag.needs| == 20 && |tag.opening| == 9
    requires |d| == 43 && d[..5] == tag.name && d[6..26] == tag.needs && d[27..36] == tag.opening
    requires d[5] == ' ' && d[36] == '"' && IndexFrom(d, 0, '>') == 42
    ensures Find(tag, d) == Some(Match(36, 36))
  {
    TwoAttributesOpening(tag, d);
    OpeningText(tag, d, 36);
    forall u | 36 < u <= 42 ensures !Closable(tag, d, u) {
      if Opening(tag, d, u) { OpeningText(tag, d, u); assert false; }
    }
    FoundAt(tag, d, Match(36, 36));
  }

  lemma MetaShape()
    ensures META.Tag? && !META.spaced && |META.name| == 5 && |META.needs| == 20 && |META.opening| == 9
    ensures META.opening[..8] == "content="
  {
  }

  lemma TwoAttributesIsDocument(d: string)
    requires d == TWO_ATTRIBUTES && PATTERNS.Valid() && BOOTSTRAP_PREFIX[0] == 'w'
    ensures Document(PATTERNS, d)
  {
    TwoAttributes(d);
    CharactersOfTwoAttributes(d);
    assert IndexFrom(d, 0, '>') == 42;
    forall p | 0 <= p <= |d| ensures SegmentOk(PATTERNS, d[p..]) {
      if p == 0 {
        assert d[0..] == d;
        assert d[1] == META.name[1];
        TwoAttributesTagOk(PATTERNS, d);
      } else {
        assert d[p..] != "" ==> d[p..][0] == d[p];
      }
    }
  }

  lemma TwoAttributesTagOk(ps: Patterns, d: string)
    requires ps.Valid() && |d| == 43 && IndexFrom(d, 0, '>') == 42 && d[41] == '"' && d[40] == '"'
    requires d[1] == ps.meta.name[1] && ps.meta.name <= d && |ps.meta.opening| > 2
    requires forall k | 0 <= k < 42 :: (0 < k ==> d[k] != '<') && d[k] != ps.bootstrap.name[0]
    ensures TagOk(ps, d) && !(ps.script.name <= d)
  {
    forall v | 0 <= v <= 42 && Opening(ps.meta, d, v) ensures IndexFrom(d, v, '"') < 42 {
      OpeningText(ps.meta, d, v);
    }
    forall p | 0 <= p < 42 ensures !(ps.bootstrap.name <= d[p..]) {
      assert d[p..][0] == d[p];
    }
  }

  /** The rewrite is idempotent on every document exactly for the nonces that do not end with `content=`. */
  lemma IdempotentExactly(nonce: string)
    requires Base64(nonce)
    ensures PATTERNS.Valid()
    ensures (forall s | Document(PATTERNS, s) ::
               Rewrite(PATTERNS, nonce, Rewrite(PATTERNS, nonce, s)) == Rewrite(PATTERNS, nonce, s))
       <==> !EndsWith(nonce, "content=")
  {
    PatternsValid();
    MetaShape();
    if EndsWith(nonce, "content=") {
      HarmfulNonce(nonce, TWO_ATTRIBUTES);
    } else {
      forall s | Document(PATTERNS, s)
        ensures Rewrite(PATTERNS, nonce, Rewrite(PATTERNS, nonce, s)) == Rewrite(PATTERNS, nonce, s)
      {
        RewriteIsIdempotent(PATTERNS, nonce, s);
      }
    }
  }

  lemma HarmfulNonce(nonce: string, d: string)
    requires Base64(nonce) && PATTERNS.Valid() && EndsWith(nonce, "content=") && d == TWO_ATTRIBUTES
    ensures Document(PATTERNS, d)
    ensures Rewrite(PATTERNS, nonce, Rewrite(PATTERNS, nonce, d)) != Rewrite(PATTERNS, nonce, d)
  {
    TwoAttributes(d);
    CharactersOfTwoAttributes(d);
    BootstrapQuoted();
    TwoAttributesIsDocument(d);
    MetaShape();
    assert IndexFrom(d, 0, '>') == 42;
    TwoAttributesFound(META, d);
    HarmfulMeta(PATTERNS, nonce, d);
  }

  lemma MetaTagIsLone(ps: Patterns, d: string)
    requires ps.Valid() && Document(ps, d) && |d| == 43 && IndexFrom(d, 0, '>') == 42 && ps.meta.name <= d
    requires Find(ps.meta, d) == Some(Match(36, 36))
    ensures TagOf(ps, d) == ps.meta && LoneTag(ps, d)
  {
    DocumentHead(ps, d);
    assert d[1] == ps.meta.name[1];
    TagToTheEnd(ps.bootstrap.name, d);
  }

  lemma HarmfulMeta(ps: Patterns, nonce: string, d: string)
    requires ps.Valid() && Base64(nonce) && !HarmlessIn(ps.meta, nonce) && |ps.meta.opening| > 1
    requires Document(ps, d) && |d| == 43 && IndexFrom(d, 0, '>') == 42 && ps.meta.name <= d
    requires Find(ps.meta, d) == Some(Match(36, 36)) && d[37] == ' ' && d[40] == '"'
    ensures Rewrite(ps, nonce, Rewrite(ps, nonce, d)) != Rewrite(ps, nonce, d)
  {
    MetaTagIsLone(ps, d);
    LoneMetaTwice(ps, nonce, d, OneValue(Find(ps.meta, d), nonce, d));
  }

  lemma LoneMetaTwice(ps: Patterns, nonce: string, d: string, z: string)
    requires ps.Valid() && Base64(nonce) && !HarmlessIn(ps.meta, nonce) && |ps.meta.opening| > 1
    requires TagOf(ps, d) == ps.meta && LoneTag(ps, d) && z == OneValue(Find(ps.meta, d), nonce, d)
    requires |d| == 43 && IndexFrom(d, 0, '>') == 42 && Find(ps.meta, d) == Some(Match(36, 36)) && d[37] == ' '
              && d[40] == '"'
    ensures Rewrite(ps, nonce, d) == z && Rewrite(ps, nonce, z) != z
  {
    LoneTagRewritten(ps, nonce, d, z);
    assert IndexFrom(d, 37, '"') <= 40;
    var w := Match(37 + |nonce|, IndexFrom(z, 37 + |nonce|, '"'));
    HarmfulNonceShows(ps.meta, nonce, d, z, Match(36, 36), w);
    LoneTagRewritten(ps, nonce, z, OneValue(Some(w), nonce, z));
  }
}
