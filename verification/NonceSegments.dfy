/** The rewrite works piece by piece: a document is a run of tags, bootstrap assignments and single
    characters, and the rewrite of one piece never looks at another one. */
module NonceSegments {
  import opened Wrappers
  import opened NonceRewrite

  // ---------------------------------------------------------------- the documents considered

  predicate Base64(nonce: string) {
    forall c | c in nonce :: 'a' <= c <= 'z' || 'A' <= c <= 'Z' || '0' <= c <= '9' || c == '+' || c == '/' || c == '='
  }

  predicate NoneStarts(name: string, s: string, to: nat)
    requires to <= |s|
  {
    forall p | 0 <= p < to :: !(name <= s[p..])
  }

  predicate TagStart(ps: Patterns, s: string) {
    ps.script.name <= s || ps.meta.name <= s
  }

  /** The tag at the start of `s`, up to its `>` (or to the end of the text while it is open). */
  predicate TagOk(ps: Patterns, s: string)
    requires ps.Valid()
  {
    var end := IndexFrom(s, 0, '>');
    && (forall p | 0 < p < end :: s[p] != '<')
    && NoneStarts(ps.bootstrap.name, s, end)
    && (end < |s| && ps.script.name <= s ==> ValuesClosed(ps.script, s, end))
    && (end < |s| && ps.meta.name <= s ==> ValuesClosed(ps.meta, s, end))
  }

  /** The bootstrap assignment at the start of `s`, if its value is closed. */
  predicate AssignmentOk(name: string, s: string)
    requires name != "" && name <= s
  {
    var close := IndexFrom(s, |name|, '"');
    close < |s| ==>
      && (forall p | |name| <= p < close :: s[p] != '<')
      && var unquoted := name[..|name| - 1];
         forall p | |name| <= p <= close - |unquoted| :: !TextAt(s, p, unquoted)
  }

  predicate SegmentOk(ps: Patterns, s: string)
    requires ps.Valid()
  {
    && (TagStart(ps, s) ==> TagOk(ps, s))
    && (ps.bootstrap.name <= s ==> AssignmentOk(ps.bootstrap.name, s))
  }

  /** The documents considered: every tag and every bootstrap assignment in them is in order. */
  predicate Document(ps: Patterns, s: string)
    requires ps.Valid()
  {
    forall p {:trigger SegmentOk(ps, s[p..])} | 0 <= p <= |s| :: SegmentOk(ps, s[p..])
  }

  /** Length of the first piece: a whole tag, a whole bootstrap assignment, or one character. */
  function First(ps: Patterns, s: string): (n: nat)
    requires s != ""
    ensures 1 <= n <= |s|
  {
    if TagStart(ps, s) then
      var end := IndexFrom(s, 0, '>');
      if end < |s| then end + 1 else |s|
    else if ps.bootstrap.name <= s then
      var close := IndexFrom(s, |ps.bootstrap.name|, '"');
      if close < |s| then close + 1 else |s|
    else 1
  }

  // ---------------------------------------------------------------- bootstrap assignments

  lemma NoneStartsSkips(name: string, nonce: string, x: string, y: string)
    requires NoneStarts(name, x + y, |x|)
    ensures Replace(Assignment(name), nonce, x + y) == x + Replace(Assignment(name), nonce, y)
  {
    forall p | 0 <= p < |x| ensures Find(Assignment(name), x[p..] + y) == None {
      assert x[p..] + y == (x + y)[p..];
    }
    ReplaceSkips(Finding(Assignment(name)), nonce, x, y);
  }

  /** After a `>` no bootstrap prefix is left half read. */
  lemma NoneStartsBefore(name: string, x: string, y: string)
    requires '>' !in name && NoneStarts(name, x, |x|)
    requires y == "" || (x != "" && x[|x| - 1] == '>')
    ensures NoneStarts(name, x + y, |x|)
  {
    var n := |name|;
    forall p | 0 <= p < |x| ensures !(name <= (x + y)[p..]) {
      if p + n <= |x| {
        assert (x + y)[p..][..n] == x[p..][..n];
      } else if y != "" {
        assert (x + y)[p..][|x| - 1 - p] == '>';
      }
    }
  }

  /** Putting a base64 nonce between two quotes creates no bootstrap prefix. */
  lemma NoneCreated(name: string, nonce: string, x: string, m: Match)
    requires Quoted(name) && Base64(nonce) && NoneStarts(name, x, |x|)
    requires 0 < m.open <= m.close < |x| && x[m.open - 1] == '"' && x[m.close] == '"'
    ensures NoneStarts(name, OneValue(Some(m), nonce, x), |OneValue(Some(m), nonce, x)|)
  {
    var z := OneValue(Some(m), nonce, x);
    var n, l := |nonce|, |name|;
    forall p | 0 <= p < |z| ensures !(name <= z[p..]) {
      if p + l <= m.open {
        assert z[p..][..l] == x[p..][..l];
      } else if p >= m.open + n {
        assert z[p..] == x[p - n - m.open + m.close..];
      } else if p < m.open {
        assert z[p..][m.open - 1 - p] == '"';
      } else if m.open + n - p <= 6 {
        assert z[p..][m.open + n - p] == '"';
      } else {
        assert z[p..][6] in nonce;
      }
    }
  }

  lemma OpeningQuote(tag: Pattern, s: string, v: nat)
    requires IsTag(tag) && v <= |s| && Opening(tag, s, v)
    ensures v > 0 && s[v - 1] == '"'
  {
    var o := tag.opening;
    assert s[v - 1] == s[v - |o|..v][|o| - 1];
  }

  // ---------------------------------------------------------------- one piece at a time

  /** A complete tag: `<` first, `>` last, and no bootstrap prefix inside. */
  predicate ClosedTag(name: string, x: string) {
    && |x| > 0 && IndexFrom(x, 0, '>') == |x| - 1
    && '<' !in x[1..]
    && NoneStarts(name, x, |x|)
  }

  lemma ReplaceNothing(pattern: Pattern, nonce: string)
    ensures Replace(pattern, nonce, "") == ""
  {
  }

  lemma ValueIsQuoted(tag: Pattern, x: string)
    requires IsTag(tag) && Find(tag, x).Some?
    ensures var m := Find(tag, x).value; x[m.open - 1] == '"' && Opening(tag, x, m.open)
  {
    LastOpeningIs(tag, x, IndexFrom(x, 0, '>'));
    OpeningQuote(tag, x, Find(tag, x).value.open);
  }

  lemma OneValueKeepsTag(name: string, nonce: string, x: string, m: Match)
    requires Base64(nonce) && Quoted(name) && ClosedTag(name, x)
    requires 0 < m.open <= m.close < |x| && x[m.open - 1] == '"' && x[m.close] == '"'
    ensures ClosedTag(name, OneValue(Some(m), nonce, x))
  {
    var z := OneValue(Some(m), nonce, x);
    NoneCreated(name, nonce, x, m);
    forall i | 0 <= i < |z| ensures (i < |z| - 1 ==> z[i] != '>') && (0 < i ==> z[i] != '<') {
      if i < m.open {
        assert 0 < i ==> x[1..][i - 1] == x[i];
      } else if m.open + |nonce| <= i {
        var q := i - |nonce| - m.open + m.close;
        assert z[i] == x[q] == x[1..][q - 1];
      } else {
        assert z[i] in nonce;
      }
    }
    assert z[|z| - 1] == x[|x| - 1];
  }

  /** What is left of a tag after the script pattern. */
  function AfterScript(ps: Patterns, nonce: string, x: string): string {
    OneValue(Find(ps.script, x), nonce, x)
  }

  lemma AfterScriptIsTag(ps: Patterns, nonce: string, x: string)
    requires ps.Valid() && Base64(nonce) && ClosedTag(ps.bootstrap.name, x)
    ensures ClosedTag(ps.bootstrap.name, AfterScript(ps, nonce, x))
    ensures ps.meta.name <= AfterScript(ps, nonce, x) ==> AfterScript(ps, nonce, x) == x
  {
    if Find(ps.script, x).Some? {
      ValueIsQuoted(ps.script, x);
      OneValueKeepsTag(ps.bootstrap.name, nonce, x, Find(ps.script, x).value);
      assert AfterScript(ps, nonce, x)[1] == x[1] == ps.script.name[1];
    }
  }

  lemma TagAlone(name: string, tag: Pattern, nonce: string, x: string, t: string)
    requires IsTag(tag) && ClosedTag(name, x) && (tag.name <= x ==> ValuesClosed(tag, x, |x| - 1))
    ensures Replace(tag, nonce, x + t) == OneValue(Find(tag, x), nonce, x) + Replace(tag, nonce, t)
    ensures Replace(tag, nonce, x) == OneValue(Find(tag, x), nonce, x)
  {
    FindInClosedTag(tag, x, t);
    ReplaceInTag(tag, nonce, x, t);
    assert x + "" == x;
    ReplaceInTag(tag, nonce, x, "");
    ReplaceNothing(tag, nonce);
  }

  lemma NoAssignmentInTag(name: string, nonce: string, z: string, y: string)
    requires '>' !in name && ClosedTag(name, z)
    ensures Replace(Assignment(name), nonce, z + y) == z + Replace(Assignment(name), nonce, y)
    ensures Replace(Assignment(name), nonce, z) == z
  {
    NoneStartsBefore(name, z, y);
    NoneStartsSkips(name, nonce, z, y);
    assert z + "" == z;
    NoneStartsSkips(name, nonce, z, "");
    ReplaceNothing(Assignment(name), nonce);
  }

  lemma RewriteTag(ps: Patterns, nonce: string, x: string, t: string)
    requires ps.Valid() && Base64(nonce) && ClosedTag(ps.bootstrap.name, x)
    requires ps.script.name <= x ==> ValuesClosed(ps.script, x, |x| - 1)
    requires ps.meta.name <= x ==> ValuesClosed(ps.meta, x, |x| - 1)
    ensures var z := AfterScript(ps, nonce, x); Rewrite(ps, nonce, x) == OneValue(Find(ps.meta, z), nonce, z)
    ensures Rewrite(ps, nonce, x + t) == Rewrite(ps, nonce, x) + Rewrite(ps, nonce, t)
  {
    var name := ps.bootstrap.name;
    var z := AfterScript(ps, nonce, x);
    var t1 := Replace(ps.script, nonce, t);
    TagAlone(name, ps.script, nonce, x, t);
    AfterScriptIsTag(ps, nonce, x);
    NoAssignmentInTag(name, nonce, z, t1);
    TagAlone(name, ps.meta, nonce, z, Replace(ps.bootstrap, nonce, t1));
  }

  lemma AngleFree(tag: Pattern, nonce: string, w: string, t: string)
    requires IsTag(tag) && '<' !in w
    ensures Replace(tag, nonce, w + t) == w + Replace(tag, nonce, t)
    ensures Replace(tag, nonce, w) == w
  {
    NamelessTextSkipped(tag, nonce, w, t);
    assert w + "" == w;
    NamelessTextSkipped(tag, nonce, w, "");
    ReplaceNothing(tag, nonce);
  }

  lemma ValueReplaced(name: string, nonce: string, x: string)
    requires name <= x && |name| < |x| && x[|x| - 1] == '"'
    ensures OneValue(Some(Match(|name|, |x| - 1)), nonce, x) == name + nonce + ['"']
  {
    assert x[|x| - 1..] == ['"'];
  }

  lemma AssignmentAlone(name: string, nonce: string, x: string, t: string, z: string)
    requires name != "" && name <= x && IndexFrom(x, |name|, '"') == |x| - 1
    requires z == name + nonce + ['"']
    ensures Replace(Assignment(name), nonce, x + t) == z + Replace(Assignment(name), nonce, t)
  {
    IndexInPrefix(x, t, |name|, '"');
    assert Find(Assignment(name), x + t) == Some(Match(|name|, |x| - 1));
    ReplaceFront(Finding(Assignment(name)), nonce, x, t, Match(|name|, |x| - 1));
    ValueReplaced(name, nonce, x);
  }

  lemma AssignmentStages(ps: Patterns, nonce: string, x: string, t: string, z: string)
    requires ps.Valid() && '<' !in x && '<' !in z && z == ps.bootstrap.name + nonce + ['"']
    requires ps.bootstrap.name <= x && IndexFrom(x, |ps.bootstrap.name|, '"') == |x| - 1
    ensures Rewrite(ps, nonce, x + t) == z + Rewrite(ps, nonce, t)
  {
    var t1 := Replace(ps.script, nonce, t);
    AngleFree(ps.script, nonce, x, t);
    AssignmentAlone(ps.bootstrap.name, nonce, x, t1, z);
    AngleFree(ps.meta, nonce, z, Replace(ps.bootstrap, nonce, t1));
  }

  lemma RewriteAssignment(ps: Patterns, nonce: string, x: string, t: string)
    requires ps.Valid() && Base64(nonce) && '<' !in x
    requires ps.bootstrap.name <= x && IndexFrom(x, |ps.bootstrap.name|, '"') == |x| - 1
    ensures Rewrite(ps, nonce, x) == ps.bootstrap.name + nonce + ['"']
    ensures Rewrite(ps, nonce, x + t) == Rewrite(ps, nonce, x) + Rewrite(ps, nonce, t)
  {
    var z := ps.bootstrap.name + nonce + ['"'];
    AssignmentStages(ps, nonce, x, t, z);
    AssignmentStages(ps, nonce, x, "", z);
    assert x + "" == x && z + "" == z;
  }

  // ---------------------------------------------------------------- single characters

  lemma StartsWith(c: char, t: string, name: string)
    requires name != ""
    ensures name <= [c] + t <==> c == name[0] && name[1..] <= t
  {
    assert ([c] + t)[1..] == t;
    if c == name[0] && name[1..] <= t { assert name == [c] + name[1..]; }
  }

  /** A replacement in the rest of the text cannot complete a name that starts with `c`. */
  lemma StartKept(pattern: Pattern, nonce: string, c: char, t: string, name: string)
    requires |pattern.name| >= 2 && name != "" && NoNameIn(pattern.name, name[1..])
    ensures name <= [c] + Replace(pattern, nonce, t) <==> name <= [c] + t
  {
    StartsWith(c, t, name);
    StartsWith(c, Replace(pattern, nonce, t), name);
    ReplaceKeepsPrefix(pattern, nonce, name[1..], t);
  }

  lemma CharacterKept(pattern: Pattern, nonce: string, c: char, t: string)
    requires !(pattern.name <= [c] + t)
    ensures Replace(pattern, nonce, [c] + t) == [c] + Replace(pattern, nonce, t)
  {
    ReplaceMiss(Finding(pattern), nonce, [c] + t);
    assert ([c] + t)[1..] == t;
  }

  /** The rewrite of what follows a character completes no name that starts with it. */
  lemma StartKeptByRewrite(ps: Patterns, nonce: string, c: char, t: string, name: string)
    requires ps.Valid() && name in {ps.script.name, ps.bootstrap.name, ps.meta.name}
    ensures name <= [c] + Replace(ps.script, nonce, t) <==> name <= [c] + t
    ensures name <= [c] + Replace(ps.bootstrap, nonce, Replace(ps.script, nonce, t)) <==> name <= [c] + t
    ensures name <= [c] + Rewrite(ps, nonce, t) <==> name <= [c] + t
  {
    assert forall c | c in name[1..] :: c in name;
    StartKept(ps.script, nonce, c, t, name);
    StartKept(ps.bootstrap, nonce, c, Replace(ps.script, nonce, t), name);
    StartKept(ps.meta, nonce, c, Replace(ps.bootstrap, nonce, Replace(ps.script, nonce, t)), name);
  }

  lemma RewriteCharacter(ps: Patterns, nonce: string, c: char, t: string)
    requires ps.Valid() && !TagStart(ps, [c] + t) && !(ps.bootstrap.name <= [c] + t)
    ensures Rewrite(ps, nonce, [c] + t) == [c] + Rewrite(ps, nonce, t)
  {
    var y := Replace(ps.script, nonce, t);
    StartKeptByRewrite(ps, nonce, c, t, ps.bootstrap.name);
    StartKeptByRewrite(ps, nonce, c, t, ps.meta.name);
    CharacterKept(ps.script, nonce, c, t);
    CharacterKept(ps.bootstrap, nonce, c, y);
    CharacterKept(ps.meta, nonce, c, Replace(ps.bootstrap, nonce, y));
  }
}
