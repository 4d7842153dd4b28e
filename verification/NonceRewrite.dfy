/** The nonce rewrite of host/src/services/nonce-normalizer.ts: the three patterns as scanners
    over a character sequence, and the global replacement built from them. */
module NonceRewrite {
  import opened Wrappers

  const BOOTSTRAP_PREFIX: string := "window.__CSP_NONCE__=\""

  /** A pattern matches at the start of a text. `Assignment` is a literal followed by a quoted value;
      `Tag` is a tag name, then within the tag (before `>`) the text `needs`, then the literal
      `opening` (after whitespace if `spaced`) and a quoted value. */
  datatype Pattern =
    | Assignment(name: string)
    | Tag(name: string, needs: string, spaced: bool, opening: string)

  /** The patterns in the order they are applied. The lemmas speak of any such triple that is `Valid`. */
  datatype Patterns = Patterns(script: Pattern, bootstrap: Pattern, meta: Pattern)
  {
    predicate Valid() {
      && IsTag(script) && IsTag(meta) && script.name[1] != meta.name[1]
      && bootstrap.Assignment? && Quoted(bootstrap.name)
      && '<' !in bootstrap.name && '>' !in bootstrap.name
      && NoNameIn(bootstrap.name, bootstrap.name[1..])
      && NoNameIn(bootstrap.name, script.name[1..]) && NoNameIn(bootstrap.name, meta.name[1..])
    }
  }

  predicate IsTag(tag: Pattern) {
    && tag.Tag? && |tag.name| >= 2 && tag.name[0] == '<' && '<' !in tag.name[1..] && '>' !in tag.name
    && tag.opening != "" && tag.opening[|tag.opening| - 1] == '"' && '"' !in tag.opening[..|tag.opening| - 1]
  }

  /** Ends with its only quote. (A dot in place six keeps it apart from base64 text.) */
  predicate Quoted(name: string) {
    |name| >= 8 && name[|name| - 1] == '"' && '"' !in name[..|name| - 1] && name[6] == '.'
  }

  /** No occurrence of `name` can start inside `w`, whatever follows `w`. */
  predicate NoNameIn(name: string, w: string)
    requires |name| >= 2
  {
    forall p | 0 <= p < |w| :: w[p] != name[0] || (p + 1 < |w| && w[p + 1] != name[1])
  }

  const SCRIPT := Tag("<script", "", true, "nonce=\"")
  const META := Tag("<meta", "property=\"csp-nonce\"", false, "content=\"")
  const PATTERNS := Patterns(SCRIPT, Assignment(BOOTSTRAP_PREFIX), META)

  /** `text[..open]` is kept, `text[open..close]` is the old value, `text[close]` the closing quote. */
  datatype Match = Match(open: nat, close: nat)

  function IndexFrom(s: string, start: nat, c: char): (i: nat)
    requires start <= |s|
    ensures start <= i <= |s|
    ensures i < |s| ==> s[i] == c
    ensures forall j | start <= j < i :: s[j] != c
    decreases |s| - start
  {
    if start == |s| || s[start] == c then start else IndexFrom(s, start + 1, c)
  }

  predicate IsSpace(c: char) {
    || c == ' ' || '\t' <= c <= '\r' || c as int == 0xA0 || c as int == 0xFEFF || c as int == 0x1680
    || 0x2000 <= c as int <= 0x200A || c as int == 0x2028 || c as int == 0x2029
    || c as int == 0x202F || c as int == 0x205F || c as int == 0x3000
  }

  predicate IsWord(c: char) {
    'a' <= c <= 'z' || 'A' <= c <= 'Z' || '0' <= c <= '9' || c == '_'
  }

  predicate TextAt(s: string, p: nat, w: string) {
    p + |w| <= |s| && s[p..p + |w|] == w
  }

  /** The name, then `\b`: a non-word character or the end of the text. */
  predicate TagNamed(name: string, s: string) {
    name <= s && (|s| == |name| || !IsWord(s[|name|]))
  }

  /** `s[..v]` holds everything a tag pattern wants before the value. */
  predicate Opening(tag: Pattern, s: string, v: nat)
    requires tag.Tag? && v <= |s|
  {
    var start := v - |tag.opening| - (if tag.spaced then 1 else 0);
    && |tag.name| <= start
    && TextAt(s, v - |tag.opening|, tag.opening)
    && (tag.spaced ==> IsSpace(s[start]))
    && exists p | |tag.name| <= p <= start - |tag.needs| :: TextAt(s, p, tag.needs)
  }

  predicate Closable(tag: Pattern, s: string, v: nat)
    requires tag.Tag? && v <= |s|
  {
    Opening(tag, s, v) && IndexFrom(s, v, '"') < |s|
  }

  /** `[^>]*` is greedy, so the last opening at or before `top` that still has a closing quote wins. */
  function LastOpening(tag: Pattern, s: string, top: nat): (m: Option<Match>)
    requires tag.Tag? && top <= |s|
    ensures m.Some? ==> |tag.name| <= m.value.open <= m.value.close < |s| && s[m.value.close] == '"'
  {
    if Closable(tag, s, top) then Some(Match(top, IndexFrom(s, top, '"')))
    else if top == 0 then None
    else LastOpening(tag, s, top - 1)
  }

  /** LastOpening returns exactly the greatest closable opening. */
  lemma {:induction false} LastOpeningIs(tag: Pattern, s: string, top: nat)
    requires tag.Tag? && top <= |s|
    ensures var m := LastOpening(tag, s, top);
            && (m.Some? ==> m.value.open <= top && Closable(tag, s, m.value.open)
                            && m.value.close == IndexFrom(s, m.value.open, '"'))
            && forall v | (if m.Some? then m.value.open + 1 else 0) <= v <= top :: !Closable(tag, s, v)
  {
    if !Closable(tag, s, top) && top > 0 {
      LastOpeningIs(tag, s, top - 1);
    }
  }

  function Find(pattern: Pattern, s: string): (m: Option<Match>)
    ensures m.Some? ==> pattern.name <= s && |pattern.name| <= m.value.open <= m.value.close < |s|
    ensures m.Some? ==> s[m.value.close] == '"'
  {
    match pattern
    case Assignment(name) =>
      if name <= s && IndexFrom(s, |name|, '"') < |s|
      then Some(Match(|name|, IndexFrom(s, |name|, '"')))
      else None
    case Tag(name, _, _, _) =>
      if TagNamed(name, s) then LastOpening(pattern, s, IndexFrom(s, 0, '>')) else None
  }

  type Finder = string -> Option<Match>

  ghost predicate InBounds(find: Finder) {
    forall s :: find(s).Some? ==> find(s).value.open <= find(s).value.close < |s|
  }

  /** A global replacement with "$1<new nonce>$2": leftmost matches first, none overlapping. */
  function ReplaceAll(find: Finder, nonce: string, s: string): string
    requires InBounds(find)
    decreases |s|
  {
    if s == "" then ""
    else
      match find(s)
      case None => [s[0]] + ReplaceAll(find, nonce, s[1..])
      case Some(m) => s[..m.open] + nonce + ['"'] + ReplaceAll(find, nonce, s[m.close + 1..])
  }

  function Finding(pattern: Pattern): (find: Finder)
    ensures InBounds(find)
  {
    s => Find(pattern, s)
  }

  function Replace(pattern: Pattern, nonce: string, s: string): string {
    ReplaceAll(Finding(pattern), nonce, s)
  }

  /** One whole-document rewrite: the three patterns in turn. */
  function Rewrite(ps: Patterns, nonce: string, s: string): string {
    Replace(ps.meta, nonce, Replace(ps.bootstrap, nonce, Replace(ps.script, nonce, s)))
  }

  /** The same rewrite as the source runs it: one text variable, reassigned per pattern. */
  method RewriteText(ps: Patterns, nonce: string, input: string) returns (text: string)
    ensures text == Rewrite(ps, nonce, input)
  {
    var patterns := [ps.script, ps.bootstrap, ps.meta];
    text := input;
    for i := 0 to |patterns|
      invariant i == 0 ==> text == input
      invariant i == 1 ==> text == Replace(ps.script, nonce, input)
      invariant i == 2 ==> text == Replace(ps.bootstrap, nonce, Replace(ps.script, nonce, input))
      invariant i == 3 ==> text == Rewrite(ps, nonce, input)
    {
      text := Replace(patterns[i], nonce, text);
    }
  }

  // ---------------------------------------------------------------- locality of the replacement

  lemma ReplaceMiss(find: Finder, nonce: string, s: string)
    requires InBounds(find) && s != "" && find(s) == None
    ensures ReplaceAll(find, nonce, s) == [s[0]] + ReplaceAll(find, nonce, s[1..])
  {
  }

  lemma ReplaceHit(find: Finder, nonce: string, s: string)
    requires InBounds(find) && s != "" && find(s).Some?
    ensures var m := find(s).value;
            ReplaceAll(find, nonce, s) == s[..m.open] + nonce + ['"'] + ReplaceAll(find, nonce, s[m.close + 1..])
  {
  }

  /** No match starts inside `w` when `t` follows it. */
  ghost predicate NoneFound(find: Finder, w: string, t: string) {
    forall p {:trigger w[p..]} | 0 <= p < |w| :: find(w[p..] + t) == None
  }

  lemma NoneFoundInTail(find: Finder, w: string, t: string)
    requires w != "" && NoneFound(find, w, t)
    ensures find(w + t) == None && NoneFound(find, w[1..], t)
  {
    assert w[0..] == w;
    var v := w[1..];
    forall p | 0 <= p < |v| ensures find(v[p..] + t) == None { assert v[p..] == w[p + 1..]; }
  }

  lemma ConsAppend(w: string, t: string)
    requires w != ""
    ensures w + t == [w[0]] + (w[1..] + t) && (w + t)[1..] == w[1..] + t
  {
  }

  /** If no match starts inside `w`, then `w` comes out unchanged. */
  lemma {:induction false} ReplaceSkips(find: Finder, nonce: string, w: string, t: string)
    requires InBounds(find) && NoneFound(find, w, t)
    ensures ReplaceAll(find, nonce, w + t) == w + ReplaceAll(find, nonce, t)
  {
    if w == "" {
      assert w + t == t;
    } else {
      NoneFoundInTail(find, w, t);
      ReplaceMiss(find, nonce, w + t);
      ConsAppend(w, t);
      ReplaceSkips(find, nonce, w[1..], t);
      ConsAppend(w, ReplaceAll(find, nonce, t));
    }
  }

  lemma NothingFound(pattern: Pattern, w: string, t: string)
    requires |pattern.name| >= 2 && NoNameIn(pattern.name, w)
    ensures forall p | 0 <= p < |w| :: Find(pattern, w[p..] + t) == None
  {
    forall p | 0 <= p < |w| ensures Find(pattern, w[p..] + t) == None {
      var s := w[p..] + t;
      assert s[0] == w[p] && (p + 1 < |w| ==> s[1] == w[p + 1]);
    }
  }

  lemma NamelessTextSkipped(pattern: Pattern, nonce: string, w: string, t: string)
    requires |pattern.name| >= 2 && NoNameIn(pattern.name, w)
    ensures Replace(pattern, nonce, w + t) == w + Replace(pattern, nonce, t)
  {
    NothingFound(pattern, w, t);
    assert NoneFound(Finding(pattern), w, t);
    ReplaceSkips(Finding(pattern), nonce, w, t);
  }

  lemma PrefixUnfolds(w: string, t: string)
    requires w != "" && t != ""
    ensures w <= t <==> w[0] == t[0] && w[1..] <= t[1..]
  {
  }

  lemma HitKeepsStart(pattern: Pattern, nonce: string, t: string)
    requires |pattern.name| >= 2 && t != "" && Find(pattern, t).Some?
    ensures var r := Replace(pattern, nonce, t);
            |r| >= 2 && |t| >= 2 && r[0] == t[0] == pattern.name[0] && r[1] == t[1] == pattern.name[1]
  {
    ReplaceHit(Finding(pattern), nonce, t);
  }

  lemma NotInSuch(name: string, w: string, t: string)
    requires |name| >= 2 && NoNameIn(name, w) && w != "" && |t| >= 2 && t[0] == name[0] && t[1] == name[1]
    ensures !(w <= t)
  {
  }

  /** Text in which no match starts shows through a replacement unchanged. */
  lemma {:induction false} ReplaceKeepsPrefix(pattern: Pattern, nonce: string, w: string, t: string)
    requires |pattern.name| >= 2 && NoNameIn(pattern.name, w)
    ensures w <= Replace(pattern, nonce, t) <==> w <= t
  {
    if w != "" && t != "" {
      var r := Replace(pattern, nonce, t);
      if Find(pattern, t).None? {
        ReplaceMiss(Finding(pattern), nonce, t);
        assert r[1..] == Replace(pattern, nonce, t[1..]);
        ReplaceKeepsPrefix(pattern, nonce, w[1..], t[1..]);
        PrefixUnfolds(w, r);
        PrefixUnfolds(w, t);
      } else {
        HitKeepsStart(pattern, nonce, t);
        NotInSuch(pattern.name, w, t);
        NotInSuch(pattern.name, w, r);
      }
    }
  }

  /** What a tag pattern does to one tag: at most one value changes. */
  function OneValue(m: Option<Match>, nonce: string, x: string): string
    requires m.Some? ==> m.value.open <= m.value.close < |x|
  {
    match m
    case None => x
    case Some(m) => x[..m.open] + nonce + x[m.close..]
  }

  lemma Glue(x: string, nonce: string, m: Match, r: string, whole: string)
    requires m.open <= m.close < |x| && x[m.close] == '"'
    requires whole == x[..m.open] + nonce + ['"'] + (x[m.close + 1..] + r)
    ensures whole == OneValue(Some(m), nonce, x) + r
  {
    assert x[m.close..] == ['"'] + x[m.close + 1..];
  }

  lemma Slices(x: string, t: string, m: Match)
    requires m.open <= m.close < |x|
    ensures (x + t)[..m.open] == x[..m.open] && (x + t)[m.close + 1..] == x[m.close + 1..] + t
  {
  }

  lemma NoneFoundAfter(find: Finder, x: string, t: string, close: nat)
    requires close < |x| && forall p | close < p < |x| :: find(x[p..] + t) == None
    ensures NoneFound(find, x[close + 1..], t)
  {
    var rest := x[close + 1..];
    forall p | 0 <= p < |rest| ensures find(rest[p..] + t) == None {
      assert rest[p..] == x[close + 1 + p..];
    }
  }

  lemma HitInFront(find: Finder, nonce: string, x: string, t: string, m: Match)
    requires InBounds(find) && find(x + t) == Some(m) && m.open <= m.close < |x|
    ensures ReplaceAll(find, nonce, x + t) ==
              x[..m.open] + nonce + ['"'] + ReplaceAll(find, nonce, x[m.close + 1..] + t)
  {
    ReplaceHit(find, nonce, x + t);
    Slices(x, t, m);
  }

  /** A match at the front of `x`, and none further inside it. */
  lemma ReplaceFront(find: Finder, nonce: string, x: string, t: string, m: Match)
    requires InBounds(find) && find(x + t) == Some(m) && m.open <= m.close < |x| && x[m.close] == '"'
    requires forall p | m.close < p < |x| :: find(x[p..] + t) == None
    ensures ReplaceAll(find, nonce, x + t) == OneValue(Some(m), nonce, x) + ReplaceAll(find, nonce, t)
  {
    NoneFoundAfter(find, x, t, m.close);
    HitInFront(find, nonce, x, t, m);
    ReplaceSkips(find, nonce, x[m.close + 1..], t);
    Glue(x, nonce, m, ReplaceAll(find, nonce, t), ReplaceAll(find, nonce, x + t));
  }

  lemma ReplaceInTag(tag: Pattern, nonce: string, x: string, t: string)
    requires |tag.name| >= 2 && tag.name[0] == '<' && x != "" && '<' !in x[1..]
    requires Find(tag, x + t) == Find(tag, x)
    ensures Replace(tag, nonce, x + t) == OneValue(Find(tag, x), nonce, x) + Replace(tag, nonce, t)
  {
    var find := Finding(tag);
    forall p | 1 <= p < |x| ensures find(x[p..] + t) == None {
      assert (x[p..] + t)[0] == x[p] == x[1..][p - 1];
    }
    match Find(tag, x)
    case Some(m) => ReplaceFront(find, nonce, x, t, m);
    case None =>
      assert x[0..] == x;
      assert NoneFound(find, x, t);
      ReplaceSkips(find, nonce, x, t);
  }

  // ---------------------------------------------------------------- a closed tag is on its own

  /** Every value this pattern could rewrite before `end` closes before `end`. */
  predicate ValuesClosed(tag: Pattern, s: string, end: nat)
    requires tag.Tag? && end <= |s|
  {
    forall v | 0 <= v <= end && Opening(tag, s, v) :: IndexFrom(s, v, '"') < end
  }

  lemma IndexInPrefix(x: string, t: string, start: nat, c: char)
    requires start <= |x| && IndexFrom(x, start, c) < |x|
    ensures IndexFrom(x + t, start, c) == IndexFrom(x, start, c)
  {
    var i := IndexFrom(x, start, c);
    assert (x + t)[i] == c;
    assert forall j | start <= j < i :: (x + t)[j] == x[j];
  }

  lemma TextInPrefix(x: string, t: string, p: nat, w: string)
    requires p + |w| <= |x|
    ensures TextAt(x + t, p, w) == TextAt(x, p, w)
  {
    assert (x + t)[p..p + |w|] == x[p..p + |w|];
  }

  lemma OpeningInPrefix(tag: Pattern, x: string, t: string, v: nat)
    requires tag.Tag? && v <= |x|
    ensures Opening(tag, x + t, v) == Opening(tag, x, v)
  {
    forall p: nat, w | p + |w| <= |x| ensures TextAt(x + t, p, w) == TextAt(x, p, w) {
      TextInPrefix(x, t, p, w);
    }
  }

  predicate SameClosable(tag: Pattern, s: string, t: string, v: nat)
    requires tag.Tag? && v <= |s| && v <= |t|
  {
    Closable(tag, s, v) == Closable(tag, t, v) && (Closable(tag, s, v) ==> IndexFrom(s, v, '"') == IndexFrom(t, v, '"'))
  }

  lemma {:induction false} SameLastOpening(tag: Pattern, s: string, t: string, top: nat)
    requires tag.Tag? && top <= |s| && top <= |t| && forall v | 0 <= v <= top :: SameClosable(tag, s, t, v)
    ensures LastOpening(tag, s, top) == LastOpening(tag, t, top)
  {
    assert SameClosable(tag, s, t, top);
    if top > 0 { SameLastOpening(tag, s, t, top - 1); }
  }

  lemma LastOpeningInPrefix(tag: Pattern, x: string, t: string, top: nat)
    requires tag.Tag? && top < |x| && ValuesClosed(tag, x, top)
    ensures LastOpening(tag, x + t, top) == LastOpening(tag, x, top)
  {
    forall v | 0 <= v <= top ensures SameClosable(tag, x + t, x, v) {
      OpeningInPrefix(tag, x, t, v);
      if Opening(tag, x, v) { IndexInPrefix(x, t, v, '"'); }
    }
    SameLastOpening(tag, x + t, x, top);
  }

  lemma TagNamedInPrefix(name: string, x: string, t: string)
    requires '>' !in name && x != "" && x[|x| - 1] == '>'
    ensures name <= x + t <==> name <= x
    ensures TagNamed(name, x + t) == TagNamed(name, x)
  {
    if |x| <= |name| {
      assert (x + t)[|x| - 1] == '>';
      assert name[|x| - 1] in name;
    } else {
      assert (x + t)[..|name|] == x[..|name|];
    }
  }

  /** A tag that is closed and whose values are closed does not depend on what follows it. */
  lemma FindInClosedTag(tag: Pattern, x: string, t: string)
    requires tag.Tag? && '>' !in tag.name && |x| > 0
    requires IndexFrom(x, 0, '>') == |x| - 1
    requires tag.name <= x ==> ValuesClosed(tag, x, |x| - 1)
    ensures Find(tag, x + t) == Find(tag, x)
  {
    TagNamedInPrefix(tag.name, x, t);
    if TagNamed(tag.name, x) {
      IndexInPrefix(x, t, 0, '>');
      LastOpeningInPrefix(tag, x, t, |x| - 1);
    }
  }
}
