/** The stream transform of host/src/services/nonce-normalizer.ts: what it holds back, and that
    every way of cutting a document into chunks gives the whole-document rewrite. */
module NonceNormalizer {
  import opened NonceRewrite
  import opened NonceSegments
  import opened NoncePieces

  // ---------------------------------------------------------------- what is held back

  /** Where the last `c` before `i` is; the length of the text if there is none. */
  function LastIndex(text: string, c: char, i: nat): (r: nat)
    requires i <= |text|
    ensures r < i || r == |text|
    ensures r < |text| ==> text[r] == c
    ensures forall j | 0 <= j < i && text[j] == c :: j <= r < i
  {
    if i == 0 then |text|
    else if text[i - 1] == c then i - 1
    else LastIndex(text, c, i - 1)
  }

  function OpenAngle(text: string): (r: nat)
    ensures r <= |text|
  {
    var open := LastIndex(text, '<', |text|);
    if open < |text| && '>' !in text[open..] then open else |text|
  }

  function Min(a: nat, b: nat): nat {
    if a < b then a else b
  }

  /** Where the longest proper prefix of `name`, among those of length at most `len`, ends the text. */
  function PartialStart(name: string, text: string, len: nat): (r: nat)
    requires len <= |text| && len < |name|
    ensures r <= |text|
    ensures r < |text| ==> |text| - r <= len && text[r..] == name[..|text| - r]
    ensures forall j | |text| - len <= j < |text| && text[j..] == name[..|text| - j] :: r <= j
  {
    if len == 0 then |text|
    else if text[|text| - len..] == name[..len] then |text| - len
    else PartialStart(name, text, len - 1)
  }

  /** Where the last complete `name` before `i` starts. */
  function LastStart(name: string, text: string, i: nat): (r: nat)
    requires i <= |text|
    ensures r <= |text|
    ensures r < |text| ==> r < i && name <= text[r..]
    ensures forall j | 0 <= j < i && name <= text[j..] :: j <= r < |text|
  {
    if i == 0 then |text|
    else if name <= text[i - 1..] then i - 1
    else LastStart(name, text, i - 1)
  }

  function HoldBack(name: string, text: string): (cut: nat)
    requires name != ""
    ensures cut <= |text|
  {
    Min(Min(OpenAngle(text), PartialStart(name, text, Min(|name| - 1, |text|))), LastStart(name, text, |text|))
  }

  /** `lastIndexOf('<')`, and whether the angle is still open. */
  method FindOpenAngle(text: string) returns (cut: nat)
    ensures cut == OpenAngle(text)
  {
    var lastOpen: int := |text| - 1;
    while lastOpen >= 0 && text[lastOpen] != '<'
      invariant -1 <= lastOpen < |text|
      invariant LastIndex(text, '<', |text|) == LastIndex(text, '<', lastOpen + 1)
    {
      lastOpen := lastOpen - 1;
    }
    cut := |text|;
    if lastOpen != -1 && '>' !in text[lastOpen..] { cut := lastOpen; }
  }

  /** The loop over the lengths of a partial prefix, longest first. */
  method LowerToPartial(name: string, text: string, start: nat) returns (cut: nat)
    requires name != "" && start <= |text|
    ensures cut == Min(start, PartialStart(name, text, Min(|name| - 1, |text|)))
  {
    cut := start;
    var len: nat := Min(|name| - 1, |text|);
    while len > 0
      invariant 0 <= len <= Min(|name| - 1, |text|)
      invariant cut == start
      invariant PartialStart(name, text, Min(|name| - 1, |text|)) == PartialStart(name, text, len)
    {
      if text[|text| - len..] == name[..len] {
        cut := Min(cut, |text| - len);
        break;
      }
      len := len - 1;
    }
  }

  /** `lastIndexOf(name)`; -1 if there is none. */
  method FindLast(name: string, text: string) returns (at: int)
    requires name != ""
    ensures at == if LastStart(name, text, |text|) == |text| then -1 else LastStart(name, text, |text|)
  {
    at := |text| - 1;
    while at >= 0 && !(name <= text[at..])
      invariant -1 <= at < |text|
      invariant LastStart(name, text, |text|) == LastStart(name, text, at + 1)
    {
      at := at - 1;
    }
  }

  /** The cut as the source computes it. */
  method HoldBackFrom(name: string, text: string) returns (cut: nat)
    requires name != ""
    ensures cut == HoldBack(name, text)
  {
    cut := FindOpenAngle(text);
    cut := LowerToPartial(name, text, cut);
    var complete := FindLast(name, text);
    if complete != -1 { cut := Min(cut, complete); }
  }

  // ---------------------------------------------------------------- the cut is a boundary

  /** If a `<` is let through, so is the first `>` after it. */
  lemma TagBeforeOpenAngle(d: string, n: nat, i: nat, end: nat)
    requires n <= |d| && i < OpenAngle(d[..n]) && d[i] == '<'
    requires i < end <= |d| && forall k | i < k < end :: d[k] != '<' && d[k] != '>'
    requires end < |d| ==> d[end] == '>'
    ensures end < OpenAngle(d[..n])
  {
    var text := d[..n];
    var open := LastIndex(text, '<', n);
    assert text[i] == '<';
    if open == i {
      var k :| 0 <= k < n - i && text[i..][k] == '>';
      assert d[i + k] == '>';
    }
  }

  lemma AngleNotInPartial(name: string, text: string, len: nat, j: nat)
    requires len <= |text| && len < |name| && '>' !in name && j < |text| && text[j] == '>'
    ensures j < PartialStart(name, text, len)
  {
    var r := PartialStart(name, text, len);
    forall m | r <= m < |text| ensures text[m] in name {
      assert text[m] == text[r..][m - r] == name[m - r];
    }
  }

  lemma TagBeforeLastStart(name: string, d: string, n: nat, i: nat, end: nat)
    requires name != "" && '>' !in name && i <= end < n <= |d| && d[end] == '>'
    requires NoneStarts(name, d[i..], end - i)
    requires i < LastStart(name, d[..n], n)
    ensures end < LastStart(name, d[..n], n)
  {
    var q := LastStart(name, d[..n], n);
    if q < n {
      assert d[..n][q..] <= d[i..][q - i..];
      assert name[0] == d[q] && name[0] in name;
    }
  }

  lemma TagInside(name: string, d: string, i: nat, end: nat)
    requires i < |d| && end == i + IndexFrom(d[i..], 0, '>') && forall p | 0 < p < end - i :: d[i..][p] != '<'
    ensures i <= end <= |d| && (end < |d| ==> d[end] == '>') && forall k | i < k < end :: d[k] != '<' && d[k] != '>'
  {
    assert forall k | i < k < end :: d[k] == d[i..][k - i];
    assert end < |d| ==> d[end] == d[i..][end - i];
  }

  lemma TagBeforeCut(ps: Patterns, d: string, n: nat, i: nat)
    requires ps.Valid() && n <= |d| && i < HoldBack(ps.bootstrap.name, d[..n])
    requires TagStart(ps, d[i..]) && TagOk(ps, d[i..])
    ensures i + IndexFrom(d[i..], 0, '>') < HoldBack(ps.bootstrap.name, d[..n])
  {
    var name := ps.bootstrap.name;
    var end := i + IndexFrom(d[i..], 0, '>');
    assert d[i] == d[i..][0] == '<';
    TagInside(name, d, i, end);
    TagBeforeAll(name, d, n, i, end);
  }

  lemma TagBeforeAll(name: string, d: string, n: nat, i: nat, end: nat)
    requires name != "" && '>' !in name && n <= |d| && i < HoldBack(name, d[..n]) && d[i] == '<'
    requires i < end <= |d| && (end < |d| ==> d[end] == '>') && forall k | i < k < end :: d[k] != '<' && d[k] != '>'
    requires NoneStarts(name, d[i..], end - i)
    ensures end < HoldBack(name, d[..n])
  {
    TagBeforeOpenAngle(d, n, i, end);
    AngleNotInPartial(name, d[..n], Min(|name| - 1, n), end);
    TagBeforeLastStart(name, d, n, i, end);
  }

  lemma PrefixOfName(name: string, d: string, n: nat, i: nat)
    requires i <= n <= |d| && name <= d[i..]
    ensures n - i < |name| ==> d[..n][i..] == name[..n - i]
    ensures |name| <= n - i ==> name <= d[..n][i..]
  {
    if |name| <= n - i { assert d[..n][i..][..|name|] == d[i..][..|name|]; }
  }

  lemma PartialIsSeen(name: string, text: string, i: nat)
    requires name != "" && i < |text| && |text| - i < |name| && text[i..] == name[..|text| - i]
    ensures PartialStart(name, text, Min(|name| - 1, |text|)) <= i
  {
  }

  lemma NameArrived(name: string, d: string, n: nat, i: nat)
    requires name != "" && i < n <= |d| && name <= d[i..]
    requires i < PartialStart(name, d[..n], Min(|name| - 1, n))
    ensures i + |name| <= n && name <= d[..n][i..]
  {
    var text := d[..n];
    PrefixOfName(name, d, n, i);
    if n - i < |name| { PartialIsSeen(name, text, i); }
  }

  /** Two bootstrap prefixes never overlap: each ends with its only quote. */
  lemma NamesApart(name: string, s: string, q: nat)
    requires Quoted(name) && 0 < q <= |s| && name <= s && name <= s[q..]
    ensures |name| <= q
  {
    var l := |name|;
    var unquoted := name[..l - 1];
    assert forall j | 0 <= j < l - 1 :: unquoted[j] == s[q..][j] == s[q + j] != '"';
    assert s[l - 1] == '"';
    assert l - 1 == q + (l - 1 - q);
  }

  /** An assignment closes before the next one starts. */
  lemma ClosedBeforeNext(name: string, s: string, q: nat)
    requires Quoted(name) && 0 < q <= |s| && name <= s && AssignmentOk(name, s) && name <= s[q..]
    ensures IndexFrom(s, |name|, '"') < q
  {
    var l := |name|;
    var unquoted := name[..l - 1];
    NamesApart(name, s, q);
    assert forall j | 0 <= j < l - 1 :: unquoted[j] == s[q..][j] == s[q + j] != '"';
    assert s[q + (l - 1)] == s[q..][l - 1] == '"';
    assert s[q..q + |unquoted|] == unquoted;
    assert TextAt(s, q, unquoted);
  }

  lemma AssignmentBeforeOpenAngle(name: string, d: string, n: nat, i: nat, close: nat)
    requires '<' !in name && i + |name| <= close < n <= |d| && name <= d[i..]
    requires d[close] == '"' && forall k | i + |name| <= k < close :: d[k] != '<'
    requires i < OpenAngle(d[..n])
    ensures close < OpenAngle(d[..n])
  {
    assert forall k | i <= k < i + |name| :: d[k] == d[i..][k - i] == name[k - i];
  }

  lemma AssignmentBeforeLastStart(name: string, d: string, n: nat, i: nat)
    requires Quoted(name) && i < n <= |d| && name <= d[i..] && AssignmentOk(name, d[i..]) && name <= d[..n][i..]
    requires i < LastStart(name, d[..n], n)
    ensures i + IndexFrom(d[i..], |name|, '"') < LastStart(name, d[..n], n) <= n - |name|
  {
    var q := LastStart(name, d[..n], n);
    assert name <= d[i..][q - i..] by {
      assert d[i..][q - i..] == d[q..] && d[..n][q..] <= d[q..];
    }
    ClosedBeforeNext(name, d[i..], q - i);
  }

  lemma PartialStartLate(name: string, text: string, len: nat)
    requires len <= |text| && len < |name|
    ensures PartialStart(name, text, len) >= |text| - len
  {
  }

  lemma ValueOf(name: string, d: string, i: nat, close: nat)
    requires name != "" && i <= |d| && name <= d[i..] && AssignmentOk(name, d[i..])
    requires close == i + IndexFrom(d[i..], |name|, '"') < |d|
    ensures d[close] == '"' && forall k | i + |name| <= k < close :: d[k] != '<'
  {
    assert d[close] == d[i..][close - i];
    assert forall k | i + |name| <= k < close :: d[k] == d[i..][k - i];
  }

  lemma AssignmentBeforeAll(name: string, d: string, n: nat, i: nat, close: nat)
    requires Quoted(name) && '<' !in name && i < n <= |d|
    requires i < OpenAngle(d[..n]) && i < LastStart(name, d[..n], n) && name <= d[..n][i..]
    requires name <= d[i..] && AssignmentOk(name, d[i..]) && close == i + IndexFrom(d[i..], |name|, '"')
    ensures close < OpenAngle(d[..n]) && close < LastStart(name, d[..n], n) <= n - |name|
  {
    AssignmentBeforeLastStart(name, d, n, i);
    ValueOf(name, d, i, close);
    AssignmentBeforeOpenAngle(name, d, n, i, close);
  }

  lemma AssignmentBeforeCut(name: string, d: string, n: nat, i: nat)
    requires Quoted(name) && '<' !in name && n <= |d| && i < HoldBack(name, d[..n])
    requires name <= d[i..] && AssignmentOk(name, d[i..])
    ensures i + IndexFrom(d[i..], |name|, '"') < HoldBack(name, d[..n])
  {
    NameArrived(name, d, n, i);
    AssignmentBeforeAll(name, d, n, i, i + IndexFrom(d[i..], |name|, '"'));
    PartialStartLate(name, d[..n], Min(|name| - 1, n));
  }

  /** No piece that starts before the cut reaches over it. */
  lemma PieceBeforeCut(ps: Patterns, d: string, n: nat, i: nat)
    requires ps.Valid() && Document(ps, d) && n <= |d| && i < HoldBack(ps.bootstrap.name, d[..n])
    ensures i + First(ps, d[i..]) <= HoldBack(ps.bootstrap.name, d[..n])
  {
    assert SegmentOk(ps, d[i..]);
    if TagStart(ps, d[i..]) {
      TagBeforeCut(ps, d, n, i);
    } else if ps.bootstrap.name <= d[i..] {
      AssignmentBeforeCut(ps.bootstrap.name, d, n, i);
    }
  }

  /** The piece that starts here does not reach beyond the cut. */
  predicate PieceFits(ps: Patterns, d: string, i: nat, cut: nat) {
    i < cut <= |d| && i < i + First(ps, d[i..]) <= cut
  }

  function NextPiece(ps: Patterns, d: string, i: nat, cut: nat): (next: nat)
    requires PieceFits(ps, d, i, cut)
    ensures i < next <= cut
  {
    i + First(ps, d[i..])
  }

  lemma RestOfRest(d: string, i: nat, next: nat)
    requires i <= next <= |d|
    ensures d[i..][next - i..] == d[next..]
  {
  }

  /** A boundary after the first piece is a boundary. */
  lemma BoundaryCons(ps: Patterns, s: string, k: nat, rest: string)
    requires 0 < k <= |s| && First(ps, s) <= k && rest == s[First(ps, s)..] && Boundary(ps, rest, k - First(ps, s))
    ensures Boundary(ps, s, k)
  {
  }

  lemma BoundaryStep(ps: Patterns, d: string, i: nat, next: nat, cut: nat)
    requires PieceFits(ps, d, i, cut) && next == NextPiece(ps, d, i, cut) && Boundary(ps, d[next..], cut - next)
    ensures Boundary(ps, d[i..], cut - i)
  {
    RestOfRest(d, i, next);
    BoundaryCons(ps, d[i..], cut - i, d[next..]);
  }

  lemma {:induction false} BoundaryFrom(ps: Patterns, d: string, i: nat, cut: nat)
    requires i <= cut <= |d| && forall j: nat | j < cut :: PieceFits(ps, d, j, cut)
    ensures Boundary(ps, d[i..], cut - i)
    decreases cut - i
  {
    if i < cut {
      var next := NextPiece(ps, d, i, cut);
      BoundaryFrom(ps, d, next, cut);
      BoundaryStep(ps, d, i, next, cut);
    }
  }

  /** Whatever has arrived of a document, the cut falls between two of its pieces. */
  lemma CutIsBoundary(ps: Patterns, d: string, n: nat)
    requires ps.Valid() && Document(ps, d) && n <= |d|
    ensures Boundary(ps, d, HoldBack(ps.bootstrap.name, d[..n]))
  {
    var cut := HoldBack(ps.bootstrap.name, d[..n]);
    forall j: nat | j < cut ensures PieceFits(ps, d, j, cut) { PieceBeforeCut(ps, d, n, j); }
    BoundaryFrom(ps, d, 0, cut);
    assert d[0..] == d;
  }

  // ---------------------------------------------------------------- the stream

  function Concat(chunks: seq<string>): string {
    if chunks == [] then "" else chunks[0] + Concat(chunks[1..])
  }

  /** What one chunk makes the transform emit, and what stays pending. */
  function Step(name: string, rewrite: string -> string, pending: string, chunk: string): (string, string)
    requires name != ""
  {
    var text := pending + chunk;
    var cut := HoldBack(name, text);
    if cut <= 0 then ("", text) else (rewrite(text[..cut]), text[cut..])
  }

  function Flushed(rewrite: string -> string, pending: string): string {
    if |pending| > 0 then rewrite(pending) else ""
  }

  /** Everything emitted for these chunks and the flush after them. */
  function Emitted(name: string, rewrite: string -> string, pending: string, chunks: seq<string>): string
    requires name != ""
    decreases |chunks|
  {
    if chunks == [] then Flushed(rewrite, pending)
    else
      var (out, rest) := Step(name, rewrite, pending, chunks[0]);
      out + Emitted(name, rewrite, rest, chunks[1..])
  }

  lemma CutOf(text: string, later: string, cut: nat, d: string)
    requires d == text + later && cut <= |text|
    ensures d[..|text|] == text && d[..cut] == text[..cut] && d[cut..] == text[cut..] + later
    ensures cut == 0 ==> text[..cut] == "" && text[cut..] == text
  {
  }

  lemma StepSplits(ps: Patterns, f: string -> string, pending: string, chunk: string, later: string, d: string)
    requires ps.Valid() && PieceByPiece(ps, f) && d == pending + chunk + later && Document(ps, d)
    ensures var (out, rest) := Step(ps.bootstrap.name, f, pending, chunk);
            Document(ps, rest + later) && f(d) == out + f(rest + later)
  {
    var text := pending + chunk;
    var cut := HoldBack(ps.bootstrap.name, text);
    CutOf(text, later, cut, d);
    CutIsBoundary(ps, d, |text|);
    Splits(ps, f, d, cut);
    DocumentParts(ps, d, cut);
  }

  lemma {:induction false} StreamSplits(ps: Patterns, f: string -> string, pending: string, chunks: seq<string>)
    requires ps.Valid() && PieceByPiece(ps, f) && Document(ps, pending + Concat(chunks))
    ensures Emitted(ps.bootstrap.name, f, pending, chunks) == f(pending + Concat(chunks))
    decreases |chunks|
  {
    if chunks == [] {
      assert pending + "" == pending;
    } else {
      var later := Concat(chunks[1..]);
      assert pending + Concat(chunks) == pending + chunks[0] + later;
      StepSplits(ps, f, pending, chunks[0], later, pending + Concat(chunks));
      StreamSplits(ps, f, Step(ps.bootstrap.name, f, pending, chunks[0]).1, chunks[1..]);
    }
  }

  /** Every way of cutting a document into chunks emits the rewrite of the whole document. */
  lemma ChunksDoNotMatter(ps: Patterns, nonce: string, chunks: seq<string>)
    requires ps.Valid() && Base64(nonce) && Document(ps, Concat(chunks))
    ensures Emitted(ps.bootstrap.name, Rewriting(ps, nonce), "", chunks) == Rewrite(ps, nonce, Concat(chunks))
  {
    RewritingPieceByPiece(ps, nonce);
    assert "" + Concat(chunks) == Concat(chunks);
    StreamSplits(ps, Rewriting(ps, nonce), "", chunks);
  }

  /** The transform object: `pending` is the text held back between chunks. */
  class Normalizer {
    const ps: Patterns
    const nonce: string
    var pending: string

    constructor (ps: Patterns, nonce: string)
      ensures this.ps == ps && this.nonce == nonce && pending == ""
    {
      this.ps, this.nonce, pending := ps, nonce, "";
    }

    method Transform(chunk: string) returns (enqueued: string)
      requires ps.bootstrap.name != ""
      modifies this
      ensures (enqueued, pending) == Step(ps.bootstrap.name, Rewriting(ps, nonce), old(pending), chunk)
    {
      pending := pending + chunk;
      var cut := HoldBackFrom(ps.bootstrap.name, pending);
      if cut <= 0 { return ""; }
      enqueued := RewriteText(ps, nonce, pending[..cut]);
      pending := pending[cut..];
    }

    method Flush() returns (enqueued: string)
      modifies this
      ensures enqueued == Flushed(Rewriting(ps, nonce), old(pending)) && pending == ""
    {
      var rest := pending;
      pending := "";
      enqueued := "";
      if |rest| > 0 { enqueued := RewriteText(ps, nonce, rest); }
    }
  }

  lemma TailLetters(w: string)
    requires w == "indow.__CSP_NONCE__=\""
    ensures |w| == 21 && w[5] == '.' && forall p | 0 <= p < 21 && p != 4 :: w[p] != 'w'
  {
  }

  lemma BootstrapTail()
    ensures |BOOTSTRAP_PREFIX| == 22 && NoNameIn(BOOTSTRAP_PREFIX, BOOTSTRAP_PREFIX[1..])
  {
    var w := BOOTSTRAP_PREFIX[1..];
    assert BOOTSTRAP_PREFIX[1] == 'i';
    TailLetters(w);
  }

  lemma BootstrapQuoted()
    ensures Quoted(BOOTSTRAP_PREFIX) && '<' !in BOOTSTRAP_PREFIX && '>' !in BOOTSTRAP_PREFIX
    ensures BOOTSTRAP_PREFIX[0] == 'w'
  {
  }

  lemma ScriptIsTag()
    ensures IsTag(SCRIPT) && SCRIPT.name[1] == 's' && 'w' !in SCRIPT.name[1..]
  {
  }

  lemma MetaIsTag()
    ensures IsTag(META) && META.name[1] == 'm' && 'w' !in META.name[1..]
  {
  }

  lemma PatternsValid()
    ensures PATTERNS.Valid()
  {
    BootstrapTail();
    BootstrapQuoted();
    ScriptIsTag();
    MetaIsTag();
  }

  /** A response body piped through the transform: the body that is served. */
  method Pipe(nonce: string, chunks: seq<string>) returns (body: string)
    requires Base64(nonce)
    ensures PATTERNS.Valid()
    ensures Document(PATTERNS, Concat(chunks)) ==> body == Rewrite(PATTERNS, nonce, Concat(chunks))
  {
    PatternsValid();
    var stream := new Normalizer(PATTERNS, nonce);
    body := "";
    ghost var f := Rewriting(PATTERNS, nonce);
    for i := 0 to |chunks|
      invariant body + Emitted(BOOTSTRAP_PREFIX, f, stream.pending, chunks[i..]) ==
                Emitted(BOOTSTRAP_PREFIX, f, "", chunks)
    {
      var enqueued := stream.Transform(chunks[i]);
      body := body + enqueued;
      assert chunks[i..][0] == chunks[i] && chunks[i..][1..] == chunks[i + 1..];
    }
    var enqueued := stream.Flush();
    body := body + enqueued;
    if Document(PATTERNS, Concat(chunks)) {
      ChunksDoNotMatter(PATTERNS, nonce, chunks);
    }
  }
}
