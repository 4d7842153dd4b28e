/** JavaScript's default order of strings (by UTF-16 code units) and sorting with it. */
module StringOrder {
  import opened Collections

  /** Orders characters as their UTF-16 code units compare: the characters above U+FFFF are written
      with surrogates, which stand between U+D7FF and U+E000. */
  function Rank(c: char): int {
    var n := c as int;
    if n < 0xD800 then n
    else if n >= 0x10000 then n - 0x10000 + 0xD800
    else n + 0x100000
  }

  lemma RankInjective(a: char, b: char)
    requires Rank(a) == Rank(b)
    ensures a == b
  {
  }

  predicate Before(a: string, b: string)
    decreases |a|
  {
    b != "" && (a == "" || Rank(a[0]) < Rank(b[0]) || (a[0] == b[0] && Before(a[1..], b[1..])))
  }

  lemma {:induction false} BeforeIrreflexive(a: string)
    ensures !Before(a, a)
    decreases |a|
  {
    if a != "" { BeforeIrreflexive(a[1..]); }
  }

  lemma {:induction false} BeforeTransitive(a: string, b: string, c: string)
    requires Before(a, b) && Before(b, c)
    ensures Before(a, c)
    decreases |a|
  {
    if a != "" && a[0] == b[0] == c[0] { BeforeTransitive(a[1..], b[1..], c[1..]); }
  }

  lemma {:induction false} BeforeTotal(a: string, b: string)
    ensures a == b || Before(a, b) || Before(b, a)
    decreases |a|
  {
    if a != "" && b != "" && Rank(a[0]) == Rank(b[0]) {
      RankInjective(a[0], b[0]);
      BeforeTotal(a[1..], b[1..]);
      assert a == [a[0]] + a[1..] && b == [b[0]] + b[1..];
    }
  }

  /** All in one, for proofs about sorted sequences. */
  lemma BeforeIsStrictTotal()
    ensures forall a :: !Before(a, a)
    ensures forall a, b, c :: Before(a, b) && Before(b, c) ==> Before(a, c)
    ensures forall a, b :: a == b || Before(a, b) || Before(b, a)
  {
    forall a ensures !Before(a, a) { BeforeIrreflexive(a); }
    forall a, b, c | Before(a, b) && Before(b, c) ensures Before(a, c) { BeforeTransitive(a, b, c); }
    forall a, b ensures a == b || Before(a, b) || Before(b, a) { BeforeTotal(a, b); }
  }

  predicate Sorted(s: seq<string>) {
    forall i, j | 0 <= i < j < |s| :: !Before(s[j], s[i])
  }

  function Insert(x: string, s: seq<string>): (r: seq<string>)
    ensures multiset(r) == multiset(s) + multiset{x}
  {
    if s == [] || !Before(s[0], x) then [x] + s
    else
      assert s == [s[0]] + s[1..];
      [s[0]] + Insert(x, s[1..])
  }

  lemma {:induction false} InsertSorted(x: string, s: seq<string>)
    requires Sorted(s)
    ensures Sorted(Insert(x, s))
  {
    BeforeIsStrictTotal();
    if s != [] && Before(s[0], x) {
      InsertSorted(x, s[1..]);
      var t := Insert(x, s[1..]);
      forall j | 0 <= j < |t| ensures !Before(t[j], s[0]) {
        assert t[j] in multiset(t);
        assert t[j] == x || t[j] in s[1..];
      }
    }
  }

  /** The value of `s.sort()`. */
  function Sort(s: seq<string>): (r: seq<string>)
    ensures multiset(r) == multiset(s)
    ensures Sorted(r)
  {
    if s == [] then []
    else
      assert s == [s[0]] + s[1..];
      InsertSorted(s[0], Sort(s[1..]));
      Insert(s[0], Sort(s[1..]))
  }

  lemma FirstOfSorted(a: seq<string>, b: seq<string>)
    requires Sorted(a) && Sorted(b) && multiset(a) == multiset(b) && a != []
    ensures b != [] && a[0] == b[0]
  {
    BeforeIsStrictTotal();
    assert a[0] in multiset(b) && |multiset(a)| == |a|;
    assert b[0] in multiset(a);
  }

  /** There is one sorted arrangement of any collection of strings. */
  lemma {:induction false} SortedUnique(a: seq<string>, b: seq<string>)
    requires Sorted(a) && Sorted(b) && multiset(a) == multiset(b)
    ensures a == b
  {
    if a == [] {
      assert |multiset(b)| == 0;
    } else {
      FirstOfSorted(a, b);
      assert a == [a[0]] + a[1..] && b == [b[0]] + b[1..];
      assert multiset(a[1..]) == multiset(a) - multiset{a[0]} == multiset(b[1..]);
      SortedUnique(a[1..], b[1..]);
    }
  }

  /** Sorting depends on what is sorted, not on the order it comes in. */
  lemma SortIgnoresOrder(a: seq<string>, b: seq<string>)
    requires multiset(a) == multiset(b)
    ensures Sort(a) == Sort(b)
  {
    SortedUnique(Sort(a), Sort(b));
  }

  lemma {:induction false} CountsAtMostOne(a: seq<string>)
    requires NoDuplicates(a)
    ensures forall x :: multiset(a)[x] <= 1
  {
    if a != [] {
      assert a == [a[0]] + a[1..];
      CountsAtMostOne(a[1..]);
      assert a[0] !in a[1..];
    }
  }

  lemma {:induction false} AtMostOneEach(a: seq<string>)
    requires forall x :: multiset(a)[x] <= 1
    ensures NoDuplicates(a)
  {
    if a != [] {
      assert a == [a[0]] + a[1..];
      assert forall x :: multiset(a[1..])[x] <= multiset(a)[x];
      AtMostOneEach(a[1..]);
      assert multiset(a)[a[0]] == 1 + multiset(a[1..])[a[0]];
      assert a[0] !in multiset(a[1..]);
    }
  }

  lemma SortKeeps(a: seq<string>)
    ensures forall x :: x in Sort(a) <==> x in a
    ensures NoDuplicates(a) ==> NoDuplicates(Sort(a))
  {
    forall x ensures x in Sort(a) <==> x in a {
      assert x in Sort(a) <==> x in multiset(Sort(a));
      assert x in a <==> x in multiset(a);
    }
    if NoDuplicates(a) {
      CountsAtMostOne(a);
      AtMostOneEach(Sort(a));
    }
  }
}
