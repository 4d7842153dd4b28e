/** packages/every-plugin/src/version-manifest.ts: the canonical text a version id is hashed from. */
module VersionManifest {
  import opened Collections
  import opened StringOrder

  /** The JavaScript values a manifest input is made of. Objects keep their fields in insertion order. */
  datatype Value =
    | Undefined
    | Null
    | Bool(b: bool)
    | Str(s: string)
    | Arr(elems: seq<Value>)
    | Obj(fields: seq<Field>)

  datatype Field = Field(key: string, value: Value)

  // ---------------------------------------------------------------- JSON strings

  function Hex(d: nat): char
    requires d < 16
  {
    if d < 10 then '0' + d as char else 'a' + (d - 10) as char
  }

  /** How JSON.stringify writes one character of a string. */
  function Escaped(c: char): string {
    if c == '"' then "\\\""
    else if c == '\\' then "\\\\"
    else if c as int == 8 then "\\b"
    else if c as int == 9 then "\\t"
    else if c as int == 10 then "\\n"
    else if c as int == 12 then "\\f"
    else if c as int == 13 then "\\r"
    else if c as int < 32 then ['\\', 'u', '0', '0', Hex(c as int / 16), Hex(c as int % 16)]
    else [c]
  }

  function EscapedAll(s: string): string {
    if s == "" then "" else Escaped(s[0]) + EscapedAll(s[1..])
  }

  function Quoted(s: string): string {
    ['"'] + EscapedAll(s) + ['"']
  }

  lemma HexInjective(d: nat, e: nat)
    requires d < 16 && e < 16 && Hex(d) == Hex(e)
    ensures d == e
  {
  }

  lemma EscapedApart(c: char, d: char, x: string, y: string)
    requires Escaped(c) + x == Escaped(d) + y
    ensures c == d && x == y
  {
    var a, b := Escaped(c) + x, Escaped(d) + y;
    assert a[0] == b[0];
    if a[0] == '\\' {
      assert a[1] == b[1];
      if a[1] == 'u' {
        assert a[4] == b[4] && a[5] == b[5];
        HexInjective(c as int / 16, d as int / 16);
        HexInjective(c as int % 16, d as int % 16);
      }
    }
    assert c == d;
    assert a[|Escaped(c)|..] == x && b[|Escaped(d)|..] == y;
  }

  lemma EscapedUnfolds(s: string, v: string)
    requires s != ""
    ensures EscapedAll(s) + v == Escaped(s[0]) + (EscapedAll(s[1..]) + v)
    ensures EscapedAll(s) != "" && EscapedAll(s)[0] != '"'
  {
  }

  lemma AfterFirst(c: char, w: string)
    ensures ([c] + w)[0] == c && ([c] + w)[1..] == w
  {
  }

  lemma EscapedEmptyApart(s: string, t: string, x: string, y: string)
    requires EscapedAll(s) + (['"'] + x) == EscapedAll(t) + (['"'] + y) && s == ""
    ensures t == "" && x == y
  {
    var v, w := ['"'] + x, ['"'] + y;
    assert "" + v == v;
    AfterFirst('"', x);
    AfterFirst('"', y);
    if t != "" { EscapedUnfolds(t, w); }
    assert "" + w == w;
  }

  /** A quoted string shows where it ends. */
  lemma {:induction false} EscapedAllApart(s: string, t: string, x: string, y: string)
    requires EscapedAll(s) + (['"'] + x) == EscapedAll(t) + (['"'] + y)
    ensures s == t && x == y
    decreases |s|
  {
    if s == "" {
      EscapedEmptyApart(s, t, x, y);
    } else if t == "" {
      EscapedEmptyApart(t, s, y, x);
    } else {
      var v, w := ['"'] + x, ['"'] + y;
      EscapedUnfolds(s, v);
      EscapedUnfolds(t, w);
      EscapedApart(s[0], t[0], EscapedAll(s[1..]) + v, EscapedAll(t[1..]) + w);
      EscapedAllApart(s[1..], t[1..], x, y);
      assert s == [s[0]] + s[1..] && t == [t[0]] + t[1..];
    }
  }

  lemma QuotedTail(s: string, x: string)
    ensures (Quoted(s) + x)[1..] == EscapedAll(s) + (['"'] + x)
  {
  }

  lemma QuotedApart(s: string, t: string, x: string, y: string)
    requires Quoted(s) + x == Quoted(t) + y
    ensures s == t && x == y
  {
    QuotedTail(s, x);
    QuotedTail(t, y);
    EscapedAllApart(s, t, x, y);
  }

  // ---------------------------------------------------------------- the canonical text

  function Join(parts: seq<string>): string {
    if parts == [] then ""
    else if |parts| == 1 then parts[0]
    else parts[0] + [','] + Join(parts[1..])
  }

  function StableStringify(v: Value): string
    decreases v, 1
  {
    match v
    case Undefined => "null"
    case Null => "null"
    case Bool(b) => if b then "true" else "false"
    case Str(s) => Quoted(s)
    case Arr(elems) => ['['] + Join(Texts(elems)) + [']']
    case Obj(fields) => ['{'] + Join(Sort(Entries(fields))) + ['}']
  }

  function Texts(elems: seq<Value>): (texts: seq<string>)
    ensures |texts| == |elems|
    ensures forall i | 0 <= i < |elems| :: texts[i] == StableStringify(elems[i])
    decreases elems, 0
  {
    if elems == [] then [] else [StableStringify(elems[0])] + Texts(elems[1..])
  }

  function Entry(f: Field): string
    decreases f, 2
  {
    Quoted(f.key) + ([':'] + StableStringify(f.value))
  }

  predicate DefinedField(fields: seq<Field>, i: int) {
    0 <= i < |fields| && !fields[i].value.Undefined?
  }

  function Butlast(fields: seq<Field>): seq<Field>
    requires fields != []
  {
    fields[..|fields| - 1]
  }

  predicate EntryAt(fields: seq<Field>, i: int, e: string)
    decreases fields, 3
  {
    DefinedField(fields, i) && e == Entry(fields[i])
  }

  /** The entries of the defined fields, in field order. */
  function Entries(fields: seq<Field>): seq<string>
    decreases fields, 3
  {
    if fields == [] then []
    else
      var last := fields[|fields| - 1];
      Entries(Butlast(fields)) + (if last.value.Undefined? then [] else [Entry(last)])
  }

  // ---------------------------------------------------------------- no text is the start of another

  /** Neither text is a proper start of the other. */
  predicate Apart(a: string, b: string) {
    a <= b || b <= a ==> a == b
  }

  lemma ApartSplits(a: string, b: string, x: string, y: string)
    requires Apart(a, b) && a + x == b + y
    ensures a == b && x == y
  {
    var w := a + x;
    assert a == w[..|a|] && b == w[..|b|];
    assert |a| <= |b| ==> a == b[..|a|];
    assert |b| <= |a| ==> b == a[..|b|];
    assert x == w[|a|..] && y == w[|b|..];
  }

  lemma ApartIfSplits(a: string, b: string)
    requires forall x, y | a + x == b + y :: a == b
    ensures Apart(a, b)
  {
    if a <= b { assert a + b[|a|..] == b + ""; }
    if b <= a { assert b + a[|b|..] == a + ""; }
  }

  predicate AllApart(la: seq<string>, lb: seq<string>) {
    forall i, j | 0 <= i < |la| && 0 <= j < |lb| :: Apart(la[i], lb[j])
  }

  /** What no part of a list may start with, so that the list shows where it ends. */
  predicate NoneStartsWith(parts: seq<string>, c: char) {
    forall i | 0 <= i < |parts| :: parts[i] != "" && parts[i][0] != c
  }

  function ListRest(parts: seq<string>, c: char, x: string): string
    requires parts != []
  {
    if |parts| == 1 then [c] + x else [','] + (Join(parts[1..]) + ([c] + x))
  }

  lemma JoinHead(parts: seq<string>, c: char, x: string)
    requires parts != []
    ensures Join(parts) + ([c] + x) == parts[0] + ListRest(parts, c, x)
  {
  }

  lemma JoinEmptySplits(la: seq<string>, lb: seq<string>, c: char, x: string, y: string)
    requires la == [] && Join(la) + ([c] + x) == Join(lb) + ([c] + y) && NoneStartsWith(lb, c)
    ensures lb == [] && x == y
  {
    var v, w := [c] + x, [c] + y;
    assert "" + v == v && "" + w == w;
    AfterFirst(c, x);
    AfterFirst(c, y);
    if lb != [] { JoinHead(lb, c, y); }
  }

  lemma RestSplits(la: seq<string>, lb: seq<string>, c: char, x: string, y: string)
    requires la != [] && lb != [] && c != ',' && ListRest(la, c, x) == ListRest(lb, c, y)
    ensures |la| == 1 <==> |lb| == 1
    ensures |la| == 1 ==> x == y
    ensures |la| != 1 ==> Join(la[1..]) + ([c] + x) == Join(lb[1..]) + ([c] + y)
  {
    AfterFirst(c, x);
    AfterFirst(c, y);
    AfterFirst(',', Join(la[1..]) + ([c] + x));
    AfterFirst(',', Join(lb[1..]) + ([c] + y));
  }

  lemma TailsApart(la: seq<string>, lb: seq<string>, c: char)
    requires la != [] && lb != [] && AllApart(la, lb) && NoneStartsWith(la, c) && NoneStartsWith(lb, c)
    ensures AllApart(la[1..], lb[1..]) && NoneStartsWith(la[1..], c) && NoneStartsWith(lb[1..], c)
              && Apart(la[0], lb[0])
    ensures la == [la[0]] + la[1..] && lb == [lb[0]] + lb[1..]
  {
  }

  /** A closed list of parts that are apart determines its parts. */
  lemma {:induction false} JoinSplits(la: seq<string>, lb: seq<string>, c: char, x: string, y: string)
    requires Join(la) + ([c] + x) == Join(lb) + ([c] + y)
    requires AllApart(la, lb) && NoneStartsWith(la, c) && NoneStartsWith(lb, c) && c != ','
    ensures la == lb && x == y
    decreases |la|
  {
    if la == [] {
      JoinEmptySplits(la, lb, c, x, y);
    } else if lb == [] {
      JoinEmptySplits(lb, la, c, y, x);
    } else {
      TailsApart(la, lb, c);
      JoinHead(la, c, x);
      JoinHead(lb, c, y);
      ApartSplits(la[0], lb[0], ListRest(la, c, x), ListRest(lb, c, y));
      RestSplits(la, lb, c, x, y);
      if |la| != 1 { JoinSplits(la[1..], lb[1..], c, x, y); }
    }
  }

  lemma {:induction false} EntryOrigin(fields: seq<Field>, e: string) returns (i: int)
    requires e in Entries(fields)
    ensures EntryAt(fields, i, e)
  {
    var last := fields[|fields| - 1];
    if e in Entries(Butlast(fields)) {
      i := EntryOrigin(Butlast(fields), e);
    } else {
      i := |fields| - 1;
    }
  }

  lemma {:induction false} EntryPresent(fields: seq<Field>, i: int)
    requires DefinedField(fields, i)
    ensures Entry(fields[i]) in Entries(fields)
  {
    if i < |fields| - 1 { EntryPresent(Butlast(fields), i); }
  }

  lemma FirstCharacter(v: Value)
    ensures var t := StableStringify(v); t != "" && t[0] == match v
      case Undefined => 'n'
      case Null => 'n'
      case Bool(b) => if b then 't' else 'f'
      case Str(_) => '"'
      case Arr(_) => '['
      case Obj(_) => '{'
  {
  }

  lemma TextsStart(elems: seq<Value>)
    ensures NoneStartsWith(Texts(elems), ']')
  {
    forall i | 0 <= i < |elems| ensures Texts(elems)[i] != "" && Texts(elems)[i][0] != ']' {
      FirstCharacter(elems[i]);
    }
  }

  lemma SortedEntry(fields: seq<Field>, i: nat) returns (j: int)
    requires i < |Sort(Entries(fields))|
    ensures EntryAt(fields, j, Sort(Entries(fields))[i])
  {
    var e := Sort(Entries(fields))[i];
    assert e in multiset(Sort(Entries(fields)));
    j := EntryOrigin(fields, e);
  }

  lemma EntriesStart(fields: seq<Field>)
    ensures NoneStartsWith(Sort(Entries(fields)), '}')
  {
    var sorted := Sort(Entries(fields));
    forall i | 0 <= i < |sorted| ensures sorted[i] != "" && sorted[i][0] != '}' {
      var j := SortedEntry(fields, i);
      assert Entry(fields[j])[0] == '"';
    }
  }

  lemma EntryRegroups(quoted: string, c: char, text: string, x: string)
    ensures (quoted + ([c] + text)) + x == quoted + ([c] + (text + x))
  {
  }

  lemma EntrySplits(k: string, l: string, s: string, t: string, x: string, y: string)
    requires Apart(s, t) && (Quoted(k) + ([':'] + s)) + x == (Quoted(l) + ([':'] + t)) + y
    ensures k == l && s == t
  {
    EntryRegroups(Quoted(k), ':', s, x);
    EntryRegroups(Quoted(l), ':', t, y);
    QuotedApart(k, l, [':'] + (s + x), [':'] + (t + y));
    AfterFirst(':', s + x);
    AfterFirst(':', t + y);
    ApartSplits(s, t, x, y);
  }

  lemma EntryApart(f: Field, g: Field)
    requires Apart(StableStringify(f.value), StableStringify(g.value))
    ensures Apart(Entry(f), Entry(g))
    ensures Entry(f) == Entry(g) ==> f.key == g.key && StableStringify(f.value) == StableStringify(g.value)
  {
    var s, t, a, b := StableStringify(f.value), StableStringify(g.value), Entry(f), Entry(g);
    forall x, y | a + x == b + y ensures f.key == g.key && s == t {
      EntrySplits(f.key, g.key, s, t, x, y);
    }
    ApartIfSplits(a, b);
    assert a == b ==> a + "" == b + "";
  }

  lemma BracketTail(open: char, body: string, close: char, x: string)
    ensures ([open] + body + [close] + x)[1..] == body + ([close] + x)
  {
  }

  lemma ListApart(la: seq<string>, lb: seq<string>, open: char, close: char)
    requires AllApart(la, lb) && NoneStartsWith(la, close) && NoneStartsWith(lb, close) && close != ','
    ensures Apart([open] + Join(la) + [close], [open] + Join(lb) + [close])
    ensures [open] + Join(la) + [close] == [open] + Join(lb) + [close] ==> la == lb
  {
    var a, b := [open] + Join(la) + [close], [open] + Join(lb) + [close];
    forall x, y | a + x == b + y ensures la == lb {
      BracketTail(open, Join(la), close, x);
      BracketTail(open, Join(lb), close, y);
      JoinSplits(la, lb, close, x, y);
    }
    ApartIfSplits(a, b);
    assert a == b ==> a + "" == b + "";
  }

  /** No canonical text is a proper start of another one. */
  lemma {:induction false} StringifyApart(v: Value, w: Value)
    ensures Apart(StableStringify(v), StableStringify(w))
    decreases v
  {
    FirstCharacter(v);
    FirstCharacter(w);
    match v
    case Str(s) =>
      if w.Str? {
        forall x, y | Quoted(s) + x == Quoted(w.s) + y ensures s == w.s { QuotedApart(s, w.s, x, y); }
        ApartIfSplits(Quoted(s), Quoted(w.s));
      }
    case Arr(elems) =>
      if w.Arr? {
        forall i, j | 0 <= i < |elems| && 0 <= j < |w.elems| ensures Apart(Texts(elems)[i], Texts(w.elems)[j]) {
          StringifyApart(elems[i], w.elems[j]);
        }
        TextsStart(elems);
        TextsStart(w.elems);
        ListApart(Texts(elems), Texts(w.elems), '[', ']');
      }
    case Obj(fields) =>
      if w.Obj? {
        var la, lb := Sort(Entries(fields)), Sort(Entries(w.fields));
        forall i, j | 0 <= i < |la| && 0 <= j < |lb| ensures Apart(la[i], lb[j]) {
          var k := SortedEntry(fields, i);
          var l := SortedEntry(w.fields, j);
          StringifyApart(fields[k].value, w.fields[l].value);
          EntryApart(fields[k], w.fields[l]);
        }
        EntriesStart(fields);
        EntriesStart(w.fields);
        ListApart(la, lb, '{', '}');
      }
    case _ =>
  }

  // ---------------------------------------------------------------- what the text says

  /** A value up to key order and dropped undefined fields. */
  datatype Meaning =
    | MNull
    | MBool(b: bool)
    | MStr(s: string)
    | MArr(elems: seq<Meaning>)
    | MObj(fields: map<string, Meaning>)

  predicate UniqueKeys(v: Value)
    decreases v
  {
    match v
    case Arr(elems) => forall e | e in elems :: UniqueKeys(e)
    case Obj(fields) =>
      && DistinctKeys(fields)
      && (forall f | f in fields :: UniqueKeys(f.value))
    case _ => true
  }

  function MeaningOf(v: Value): Meaning
    decreases v, 1
  {
    match v
    case Undefined => MNull
    case Null => MNull
    case Bool(b) => MBool(b)
    case Str(s) => MStr(s)
    case Arr(elems) => MArr(MeaningsOf(elems))
    case Obj(fields) => MObj(FieldMeanings(fields))
  }

  function MeaningsOf(elems: seq<Value>): (ms: seq<Meaning>)
    ensures |ms| == |elems| && forall i | 0 <= i < |elems| :: ms[i] == MeaningOf(elems[i])
    decreases elems, 0
  {
    if elems == [] then [] else [MeaningOf(elems[0])] + MeaningsOf(elems[1..])
  }

  function FieldMeanings(fields: seq<Field>): map<string, Meaning>
    decreases fields, 0
  {
    if fields == [] then map[]
    else
      var last := fields[|fields| - 1];
      if last.value.Undefined? then FieldMeanings(Butlast(fields))
      else FieldMeanings(Butlast(fields))[last.key := MeaningOf(last.value)]
  }

  predicate Keyed(fields: seq<Field>, i: int, k: string, m: Meaning) {
    DefinedField(fields, i) && fields[i].key == k && MeaningOf(fields[i].value) == m
  }

  lemma {:induction false} FieldOrigin(fields: seq<Field>, k: string) returns (i: int)
    requires k in FieldMeanings(fields)
    ensures Keyed(fields, i, k, FieldMeanings(fields)[k])
  {
    var last := fields[|fields| - 1];
    if !last.value.Undefined? && last.key == k {
      i := |fields| - 1;
    } else {
      i := FieldOrigin(Butlast(fields), k);
    }
  }

  predicate DistinctKeys(fields: seq<Field>) {
    forall i, j | 0 <= i < j < |fields| :: fields[i].key != fields[j].key
  }

  lemma {:induction false} FieldMeaning(fields: seq<Field>, i: int)
    requires DistinctKeys(fields) && DefinedField(fields, i)
    ensures fields[i].key in FieldMeanings(fields) && FieldMeanings(fields)[fields[i].key] == MeaningOf(fields[i].value)
  {
    if i < |fields| - 1 { FieldMeaning(Butlast(fields), i); }
  }

  /** Every entry of one object is an entry of the other, under the same key. */
  lemma MatchingField(a: seq<Field>, b: seq<Field>, i: int) returns (j: int)
    requires DefinedField(a, i) && Sort(Entries(a)) == Sort(Entries(b))
    ensures DefinedField(b, j) && b[j].key == a[i].key && StableStringify(a[i].value) == StableStringify(b[j].value)
  {
    EntryPresent(a, i);
    assert Entry(a[i]) in multiset(Entries(a));
    assert Entry(a[i]) in multiset(Entries(b));
    j := EntryOrigin(b, Entry(a[i]));
    StringifyApart(a[i].value, b[j].value);
    EntryApart(a[i], b[j]);
  }

  lemma ObjectTextsSame(a: seq<Field>, b: seq<Field>)
    requires StableStringify(Obj(a)) == StableStringify(Obj(b))
    ensures Sort(Entries(a)) == Sort(Entries(b))
  {
    var la, lb := Sort(Entries(a)), Sort(Entries(b));
    forall i, j | 0 <= i < |la| && 0 <= j < |lb| ensures Apart(la[i], lb[j]) {
      var k := SortedEntry(a, i);
      var l := SortedEntry(b, j);
      StringifyApart(a[k].value, b[l].value);
      EntryApart(a[k], b[l]);
    }
    EntriesStart(a);
    EntriesStart(b);
    ListApart(la, lb, '{', '}');
  }

  lemma ArrayTextsSame(a: seq<Value>, b: seq<Value>)
    requires StableStringify(Arr(a)) == StableStringify(Arr(b))
    ensures Texts(a) == Texts(b)
  {
    forall i, j | 0 <= i < |a| && 0 <= j < |b| ensures Apart(Texts(a)[i], Texts(b)[j]) {
      StringifyApart(a[i], b[j]);
    }
    TextsStart(a);
    TextsStart(b);
    ListApart(Texts(a), Texts(b), '[', ']');
  }

  lemma {:induction false} TextDeterminesElements(v: Value, w: Value)
    requires v.Arr? && w.Arr? && UniqueKeys(v) && UniqueKeys(w) && StableStringify(v) == StableStringify(w)
    ensures MeaningOf(v) == MeaningOf(w)
    decreases v, 0
  {
    ArrayTextsSame(v.elems, w.elems);
    forall i | 0 <= i < |v.elems| ensures MeaningOf(v.elems[i]) == MeaningOf(w.elems[i]) {
      assert Texts(v.elems)[i] == Texts(w.elems)[i];
      TextDeterminesMeaning(v.elems[i], w.elems[i]);
    }
    assert MeaningsOf(v.elems) == MeaningsOf(w.elems);
  }

  lemma {:induction false} TextDeterminesField(v: Value, w: Value, k: string)
    requires v.Obj? && w.Obj? && UniqueKeys(v) && UniqueKeys(w) && Sort(Entries(v.fields)) == Sort(Entries(w.fields))
    ensures k in FieldMeanings(v.fields) ==>
              k in FieldMeanings(w.fields) && FieldMeanings(w.fields)[k] == FieldMeanings(v.fields)[k]
    decreases v, 0
  {
    if k in FieldMeanings(v.fields) {
      var i := FieldOrigin(v.fields, k);
      var j := MatchingField(v.fields, w.fields, i);
      assert v.fields[i] in v.fields && w.fields[j] in w.fields;
      TextDeterminesMeaning(v.fields[i].value, w.fields[j].value);
      FieldMeaning(w.fields, j);
    }
  }

  lemma KeyInBoth(a: seq<Field>, b: seq<Field>, k: string)
    requires DistinctKeys(a) && Sort(Entries(a)) == Sort(Entries(b)) && k in FieldMeanings(b)
    ensures k in FieldMeanings(a)
  {
    var j := FieldOrigin(b, k);
    var i := MatchingField(b, a, j);
    FieldMeaning(a, i);
  }

  lemma {:induction false} TextDeterminesFields(v: Value, w: Value)
    requires v.Obj? && w.Obj? && UniqueKeys(v) && UniqueKeys(w) && StableStringify(v) == StableStringify(w)
    ensures MeaningOf(v) == MeaningOf(w)
    decreases v, 1
  {
    ObjectTextsSame(v.fields, w.fields);
    var m, n := FieldMeanings(v.fields), FieldMeanings(w.fields);
    forall k | k in m ensures k in n && n[k] == m[k] { TextDeterminesField(v, w, k); }
    forall k | k in n ensures k in m { KeyInBoth(v.fields, w.fields, k); }
    assert m == n;
  }

  /** Unambiguous: the text determines the value up to key order and dropped fields. */
  lemma {:induction false} TextDeterminesMeaning(v: Value, w: Value)
    requires UniqueKeys(v) && UniqueKeys(w) && StableStringify(v) == StableStringify(w)
    ensures MeaningOf(v) == MeaningOf(w)
    decreases v, 2
  {
    FirstCharacter(v);
    FirstCharacter(w);
    match v
    case Str(s) =>
      assert Quoted(s) + "" == Quoted(w.s) + "";
      QuotedApart(s, w.s, "", "");
    case Arr(_) => TextDeterminesElements(v, w);
    case Obj(_) => TextDeterminesFields(v, w);
    case _ =>
  }

  lemma SameElements(a: seq<string>, b: seq<string>)
    requires NoDuplicates(a) && NoDuplicates(b) && forall x :: x in a <==> x in b
    ensures multiset(a) == multiset(b)
  {
    CountsAtMostOne(a);
    CountsAtMostOne(b);
    forall x ensures multiset(a)[x] == multiset(b)[x] {
      assert x in a <==> x in multiset(a);
      assert x in b <==> x in multiset(b);
    }
  }

  lemma {:induction false} EntriesDistinct(fields: seq<Field>)
    requires DistinctKeys(fields)
    ensures NoDuplicates(Entries(fields))
  {
    if fields != [] {
      EntriesDistinct(Butlast(fields));
      var last := fields[|fields| - 1];
      forall e | e in Entries(Butlast(fields)) ensures e != Entry(last) {
        var i := EntryOrigin(Butlast(fields), e);
        StringifyApart(last.value, fields[i].value);
        EntryApart(last, fields[i]);
      }
      var rest := Entries(Butlast(fields));
      assert forall i | 0 <= i < |rest| :: rest[i] in rest;
    }
  }

  lemma MatchingEntry(a: seq<Field>, b: seq<Field>, e: string) returns (i: int, j: int)
    requires DistinctKeys(a) && FieldMeanings(a) == FieldMeanings(b) && e in Entries(a)
    ensures EntryAt(a, i, e) && DefinedField(b, j)
    ensures b[j].key == a[i].key && MeaningOf(b[j].value) == MeaningOf(a[i].value)
  {
    i := EntryOrigin(a, e);
    FieldMeaning(a, i);
    j := FieldOrigin(b, a[i].key);
  }

  /** Canonical: values that agree up to key order and dropped fields have the same text. */
  lemma {:induction false} MeaningDeterminesText(v: Value, w: Value)
    requires UniqueKeys(v) && UniqueKeys(w) && MeaningOf(v) == MeaningOf(w)
    ensures StableStringify(v) == StableStringify(w)
    decreases v
  {
    match v
    case Arr(elems) =>
      forall i | 0 <= i < |elems| ensures Texts(elems)[i] == Texts(w.elems)[i] {
        assert MeaningsOf(elems)[i] == MeaningsOf(w.elems)[i];
        MeaningDeterminesText(elems[i], w.elems[i]);
      }
      assert |MeaningsOf(elems)| == |MeaningsOf(w.elems)|;
      assert Texts(elems) == Texts(w.elems);
    case Obj(fields) =>
      forall e | e in Entries(fields) ensures e in Entries(w.fields) {
        var i, j := MatchingEntry(fields, w.fields, e);
        assert fields[i] in fields && w.fields[j] in w.fields;
        MeaningDeterminesText(fields[i].value, w.fields[j].value);
        EntryPresent(w.fields, j);
      }
      forall e | e in Entries(w.fields) ensures e in Entries(fields) {
        var j, i := MatchingEntry(w.fields, fields, e);
        assert fields[i] in fields && w.fields[j] in w.fields;
        MeaningDeterminesText(fields[i].value, w.fields[j].value);
        EntryPresent(fields, i);
      }
      EntriesDistinct(fields);
      EntriesDistinct(w.fields);
      SameElements(Entries(fields), Entries(w.fields));
      SortIgnoresOrder(Entries(fields), Entries(w.fields));
    case _ =>
  }

  // ---------------------------------------------------------------- manifests

  /** `{ builtAt, ...hashedInputs } = input` */
  function HashedInputs(input: seq<Field>): (rest: seq<Field>)
    ensures forall f :: f in rest <==> f in input && f.key != "builtAt"
  {
    if input == [] then []
    else
      var last := input[|input| - 1];
      assert forall f :: f in input <==> f in Butlast(input) || f == last;
      HashedInputs(Butlast(input)) + (if last.key == "builtAt" then [] else [last])
  }

  function HashedText(input: seq<Field>): string {
    StableStringify(Obj(HashedInputs(input)))
  }

  /** The coordinates of a manifest: everything defined in it but the build time. */
  function Coordinates(input: seq<Field>): map<string, Meaning> {
    FieldMeanings(input) - {"builtAt"}
  }

  lemma {:induction false} HashedInputsDistinct(input: seq<Field>)
    requires DistinctKeys(input)
    ensures DistinctKeys(HashedInputs(input))
  {
    if input != [] {
      HashedInputsDistinct(Butlast(input));
      assert forall f | f in HashedInputs(Butlast(input)) :: f.key != input[|input| - 1].key;
    }
  }

  function WithField(m: map<string, Meaning>, f: Field): map<string, Meaning> {
    if f.value.Undefined? then m else m[f.key := MeaningOf(f.value)]
  }

  lemma FieldMeaningsSnoc(fields: seq<Field>, last: Field)
    ensures FieldMeanings(fields + [last]) == WithField(FieldMeanings(fields), last)
  {
    assert Butlast(fields + [last]) == fields;
  }

  lemma WithFieldMinus(m: map<string, Meaning>, f: Field, k: string)
    ensures WithField(m, f) - {k} == if f.key == k then m - {k} else WithField(m - {k}, f)
  {
  }

  lemma {:induction false} HashedCoordinates(input: seq<Field>)
    ensures FieldMeanings(HashedInputs(input)) == Coordinates(input)
  {
    if input != [] {
      HashedCoordinates(Butlast(input));
      var last, rest := input[|input| - 1], HashedInputs(Butlast(input));
      FieldMeaningsSnoc(rest, last);
      assert rest + [] == rest;
      WithFieldMinus(FieldMeanings(Butlast(input)), last, "builtAt");
    }
  }

  /** The hashed text tells two manifests apart exactly when some coordinate differs; build time and
      field order never matter. */
  lemma HashedTextIdentifies(a: seq<Field>, b: seq<Field>)
    requires UniqueKeys(Obj(a)) && UniqueKeys(Obj(b))
    ensures HashedText(a) == HashedText(b) <==> Coordinates(a) == Coordinates(b)
  {
    var x, y := Obj(HashedInputs(a)), Obj(HashedInputs(b));
    HashedInputsDistinct(a);
    HashedInputsDistinct(b);
    HashedCoordinates(a);
    HashedCoordinates(b);
    if HashedText(a) == HashedText(b) { TextDeterminesMeaning(x, y); }
    if Coordinates(a) == Coordinates(b) { MeaningDeterminesText(x, y); }
  }

  /** The version id: sixteen characters of the digest of the hashed text. */
  function Version(digest: string -> string, input: seq<Field>): string
    requires |digest(HashedText(input))| >= 16
  {
    digest(HashedText(input))[..16]
  }

  /** Republishing the same coordinates is a no-op, whenever and in whatever order they are written. */
  lemma SameCoordinatesSameVersion(digest: string -> string, a: seq<Field>, b: seq<Field>)
    requires UniqueKeys(Obj(a)) && UniqueKeys(Obj(b)) && Coordinates(a) == Coordinates(b)
    requires |digest(HashedText(a))| >= 16 && |digest(HashedText(b))| >= 16
    ensures Version(digest, a) == Version(digest, b)
  {
    HashedTextIdentifies(a, b);
  }
}
