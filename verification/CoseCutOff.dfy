/** What packages/better-near-auth/src/passkey.ts makes of a COSE_Key that was cut off. */
module CoseCutOff {
  import opened Wrappers
  import opened Borsh
  import opened Cose

  // ---------------------------------------------------------------- where the buffer ends

  /** From here on every byte is missing. */
  predicate Past(bytes: Bytes, p: Place) {
    p.Nowhere? || p.i >= |bytes|
  }

  /** The buffer ends inside this part, which starts at `i`. */
  predicate CutIn(bytes: Bytes, i: nat, part: Bytes) {
    i <= |bytes| && |bytes| - i < |part| && bytes[i..] == part[..|bytes| - i]
  }

  const ZERO: CborValue := Num(Int(0))

  /** Either the first part is cut, or it is there and the second one is cut. */
  lemma CutParts(bytes: Bytes, i: nat, a: Bytes, b: Bytes)
    requires CutIn(bytes, i, a + b)
    ensures if |bytes| - i < |a| then CutIn(bytes, i, a) else Holds(bytes, i, a) && CutIn(bytes, i + |a|, b)
  {
    var n := |bytes| - i;
    if n < |a| {
      assert (a + b)[..n] == a[..n];
    } else {
      assert (a + b)[..n] == a + b[..n - |a|];
      assert bytes[i..i + |a|] == bytes[i..][..|a|];
      assert bytes[i + |a|..] == bytes[i..][|a|..];
    }
  }

  lemma CutBytes(bytes: Bytes, i: nat, part: Bytes)
    requires CutIn(bytes, i, part)
    ensures forall k | i <= k < |bytes| :: bytes[k] == part[k - i]
  {
    forall k | i <= k < |bytes| ensures bytes[k] == part[k - i] {
      assert bytes[i..][k - i] == part[..|bytes| - i][k - i];
    }
  }

  /** The missing bytes complete the part. */
  lemma Completed(bytes: Bytes, i: nat, part: Bytes, rest: Bytes)
    requires CutIn(bytes, i, part) && rest == part[|bytes| - i..]
    ensures Holds(bytes + rest, i, part)
  {
    assert part == part[..|bytes| - i] + rest;
    assert (bytes + rest)[i..i + |part|] == bytes[i..] + rest;
  }

  /** Reading an item that is cut, if it does not fail, ends past the end of the buffer. */
  lemma CutItemEndsPast(bytes: Bytes, i: nat, item: Item)
    requires WellFormed(item) && CutIn(bytes, i, Encode(item))
    ensures var r := ReadItem(bytes, At(i)); r.Success? ==> Past(bytes, r.value.1)
  {
    var r := ReadItem(bytes, At(i));
    if r.Success? && Inside(bytes, r.value.1) {
      var rest := Encode(item)[|bytes| - i..];
      Completed(bytes, i, Encode(item), rest);
      ReadsSame(bytes, rest, At(i));
      ReadsBack(bytes + rest, i, item);
    }
  }

  // ---------------------------------------------------------------- what is left of an item

  /** What a cut item may still read as. A cut byte string is shorter, and a cut small number loses its value. */
  predicate StillReads(item: Item, v: CborValue) {
    match item
    case UInt(n, _) => n < 0x100 ==> v == Undefined || v == Num(NaN) || v == ZERO
    case NegInt(n, _) => n < 0x100 ==> v == Num(NaN) || v == Num(Int(-1))
    case ByteString(b, _) => v.Binary? && v.bytes <= b && (v.bytes == b ==> b == [])
    case MapItem(_, _) => v.Map?
  }

  lemma FirstByte(bytes: Bytes, i: nat, major: nat, n: nat, w: Width, part: Bytes)
    requires i < |bytes| && major < 8 && Fits(n, w) && Head(major, n, w) <= part && CutIn(bytes, i, part)
    ensures bytes[i] / 32 == major
    ensures bytes[i] % 32 == match w case Direct => n case One => 24 case Two => 25 case Four => 26
  {
    CutBytes(bytes, i, part);
    assert part[0] == Head(major, n, w)[0];
  }

  /** What is left of the length of an item whose head is cut. */
  lemma CutLength(bytes: Bytes, i: nat, major: nat, n: nat, w: Width)
    requires i < |bytes| && major < 8 && Fits(n, w) && CutIn(bytes, i, Head(major, n, w))
    ensures var r := ReadLength(bytes, bytes[i] % 32, i + 1);
            && r.Success? && r.value.1 > |bytes|
            && (n < 0x100 ==> r.value.0 == Undefined || r.value.0 == Num(NaN) || r.value.0 == ZERO)
            && (r.value.0 == Undefined || r.value.0 == Num(NaN) || Known(r.value.0).Some?)
  {
    var h := Head(major, n, w);
    FirstByte(bytes, i, major, n, w, h);
    CutBytes(bytes, i, h);
    if i + 1 < |bytes| { assert bytes[i + 1] == h[1]; }
    if i + 2 < |bytes| { assert bytes[i + 2] == h[2]; }
    if i + 3 < |bytes| { assert bytes[i + 3] == h[3]; }
  }

  /** What is left of a byte string of which `n` bytes of encoding are left. */
  function LeftOf(b: Bytes, w: Width, n: nat): Bytes
    requires Fits(|b|, w)
  {
    var h := |Head(2, |b|, w)|;
    if n <= h then [] else if n - h <= |b| then b[..n - h] else b
  }

  lemma CutStringHead(bytes: Bytes, i: nat, b: Bytes, w: Width)
    requires i < |bytes| && Fits(|b|, w) && CutIn(bytes, i, Head(2, |b|, w))
    ensures var r := ReadItem(bytes, At(i)); r.Success? && r.value.0 == Binary([])
  {
    FirstByte(bytes, i, 2, |b|, w, Head(2, |b|, w));
    CutLength(bytes, i, 2, |b|, w);
  }

  lemma CutStringBody(bytes: Bytes, i: nat, b: Bytes, w: Width, next: nat)
    requires Fits(|b|, w) && Holds(bytes, i, Head(2, |b|, w)) && next == i + |Head(2, |b|, w)| && CutIn(bytes, next, b)
    ensures var r := ReadItem(bytes, At(i)); r.Success? && r.value.0 == Binary(b[..|bytes| - next])
  {
    ItemWithHead(bytes, i, 2, |b|, w);
    assert Slice(bytes, next, next + |b|) == bytes[next..];
  }

  lemma CutByteString(bytes: Bytes, i: nat, b: Bytes, w: Width)
    requires i < |bytes| && Fits(|b|, w) && CutIn(bytes, i, Encode(ByteString(b, w)))
    ensures var r := ReadItem(bytes, At(i)); r.Success? && r.value.0 == Binary(LeftOf(b, w, |bytes| - i))
  {
    var h := Head(2, |b|, w);
    CutParts(bytes, i, h, b);
    if |bytes| - i < |h| {
      CutStringHead(bytes, i, b, w);
    } else {
      CutStringBody(bytes, i, b, w, i + |h|);
    }
  }

  lemma CutItemReads(bytes: Bytes, i: nat, item: Item)
    requires WellFormed(item) && i < |bytes| && CutIn(bytes, i, Encode(item))
    ensures var r := ReadItem(bytes, At(i)); r.Success? ==> StillReads(item, r.value.0) && Past(bytes, r.value.1)
  {
    CutItemEndsPast(bytes, i, item);
    match item
    case UInt(n, w) =>
      FirstByte(bytes, i, 0, n, w, Encode(item));
      CutLength(bytes, i, 0, n, w);
    case NegInt(n, w) =>
      FirstByte(bytes, i, 1, n, w, Encode(item));
      CutLength(bytes, i, 1, n, w);
    case ByteString(b, w) => CutByteString(bytes, i, b, w);
    case MapItem(entries, w) => FirstByte(bytes, i, 5, |entries|, w, Encode(item));
  }

  // ---------------------------------------------------------------- what is left of a map

  lemma CutPair(bytes: Bytes, i: nat, p: Pair)
    requires WellFormedPair(p) && CutIn(bytes, i, EncodePair(p))
    ensures var r := ReadPair(bytes, At(i));
            r.Success? ==>
              && Past(bytes, r.value.2)
              && (r.value.1 == ZERO ||
                  (r.value.0 == KeyNumber(p.key) && i + |Encode(p.key)| < |bytes| && StillReads(p.value, r.value.1)))
  {
    CutParts(bytes, i, Encode(p.key), Encode(p.value));
    var next := i + |Encode(p.key)|;
    if |bytes| < next {
      if i < |bytes| { CutItemReads(bytes, i, p.key); }
    } else {
      ReadsBack(bytes, i, p.key);
      assert ReadItem(bytes, At(i)) == Success((ValueOf(p.key), At(next)));
      if next < |bytes| { CutItemReads(bytes, next, p.value); }
    }
  }

  /** Past the end of the buffer every pair reads as zero and zero. */
  lemma {:induction false} ZeroPairs(bytes: Bytes, p: Place, count: nat, m: map<Number, CborValue>)
    requires Past(bytes, p)
    ensures var r := ReadPairs(bytes, p, count, m);
            r.Success? && r.value.0 == if count == 0 then m else m[Int(0) := ZERO]
    decreases count
  {
    if count > 0 {
      assert ReadPair(bytes, p) == Success((Int(0), ZERO, Plus(Plus(p, 1), 1)));
      ZeroPairs(bytes, Plus(Plus(p, 1), 1), count - 1, m[Int(0) := ZERO]);
    }
  }

  function KeyLength(p: Pair): nat
    requires WellFormedPair(p)
  {
    |Encode(p.key)|
  }

  /** Where the value of an entry starts in the encoding of all entries. */
  function ValueStart(entries: seq<Pair>, i: nat): nat
    requires WellFormedPairs(entries) && i < |entries|
  {
    if i == 0 then KeyLength(entries[0]) else |EncodePair(entries[0])| + ValueStart(entries[1..], i - 1)
  }

  /** The entry has this key, its value has started before the end of the buffer, and it reads, or still reads,
      as this. */
  predicate StillThere(bytes: Bytes, cursor: nat, entries: seq<Pair>, i: nat, key: Number, v: CborValue)
    requires WellFormedPairs(entries)
  {
    && i < |entries| && WellFormedPair(entries[i]) && KeyNumber(entries[i].key) == key
    && cursor + ValueStart(entries, i) < |bytes|
    && (PairValue(entries[i]) == v || StillReads(entries[i].value, v))
  }

  lemma ThereInRest(bytes: Bytes, cursor: nat, entries: seq<Pair>, i: nat, key: Number, v: CborValue)
    requires entries != [] && WellFormedPairs(entries)
    requires StillThere(bytes, cursor + |EncodePair(entries[0])|, entries[1..], i, key, v)
    ensures StillThere(bytes, cursor, entries, i + 1, key, v)
  {
    assert entries[i + 1] == entries[1..][i];
  }

  /** Whatever a cut map holds, apart from zeros, is there already or comes from an entry whose value has
      started. */
  lemma {:induction false} CutPairs(bytes: Bytes, cursor: nat, entries: seq<Pair>, m: map<Number, CborValue>,
                                    key: Number, v: CborValue)
    requires WellFormedPairs(entries) && CutIn(bytes, cursor, EncodePairs(entries)) && v != ZERO
    requires var r := ReadPairs(bytes, At(cursor), |entries|, m); r.Success? && Get(r.value.0, key) == Some(v)
    ensures Get(m, key) == Some(v) || exists i: nat :: StillThere(bytes, cursor, entries, i, key, v)
    decreases |entries|
  {
    PairsUnfold(entries, m);
    var p, rest := entries[0], entries[1..];
    CutParts(bytes, cursor, EncodePair(p), EncodePairs(rest));
    var next := cursor + |EncodePair(p)|;
    if |bytes| < next {
      CutFirstPair(bytes, cursor, entries, m, key, v);
    } else {
      FirstPairRead(bytes, cursor, |entries|, p, m);
      CutPairs(bytes, next, rest, m[KeyNumber(p.key) := PairValue(p)], key, v);
      if i: nat :| StillThere(bytes, next, rest, i, key, v) {
        ThereInRest(bytes, cursor, entries, i, key, v);
      } else if key == KeyNumber(p.key) {
        PairParts(bytes, cursor, p);
        assert StillThere(bytes, cursor, entries, 0, key, v);
      }
    }
  }

  lemma CutFirstPair(bytes: Bytes, cursor: nat, entries: seq<Pair>, m: map<Number, CborValue>, key: Number,
                     v: CborValue)
    requires entries != [] && WellFormedPairs(entries) && CutIn(bytes, cursor, EncodePair(entries[0])) && v != ZERO
    requires var r := ReadPairs(bytes, At(cursor), |entries|, m); r.Success? && Get(r.value.0, key) == Some(v)
    ensures Get(m, key) == Some(v) || StillThere(bytes, cursor, entries, 0, key, v)
  {
    CutPair(bytes, cursor, entries[0]);
    var (k, value, end) := ReadPair(bytes, At(cursor)).value;
    ZeroPairs(bytes, end, |entries| - 1, m[k := value]);
  }

  // ---------------------------------------------------------------- what is left of a key

  /** A map whose head is cut holds nothing but zeros. */
  lemma CutHead(bytes: Bytes, entries: seq<Pair>, w: Width, key: Number, v: CborValue)
    requires Fits(|entries|, w) && CutIn(bytes, 0, Head(5, |entries|, w))
    requires var r := ReadItem(bytes, At(0)); r.Success? && r.value.0.Map? && Get(r.value.0.entries, key) == Some(v)
    ensures v == ZERO
  {
    if bytes != [] {
      FirstByte(bytes, 0, 5, |entries|, w, Head(5, |entries|, w));
      CutLength(bytes, 0, 5, |entries|, w);
      var (length, next) := ReadLength(bytes, bytes[0] % 32, 1).value;
      ZeroPairs(bytes, At(next), Turns(length), map[]);
    }
  }

  /** Whatever a cut map holds, apart from zeros, comes from an entry whose value has started. */
  lemma CutMap(bytes: Bytes, entries: seq<Pair>, w: Width, key: Number, v: CborValue)
    requires WellFormed(MapItem(entries, w)) && CutIn(bytes, 0, Encode(MapItem(entries, w))) && v != ZERO
    requires var r := ReadItem(bytes, At(0)); r.Success? && r.value.0.Map? && Get(r.value.0.entries, key) == Some(v)
    ensures exists i: nat :: StillThere(bytes, |Head(5, |entries|, w)|, entries, i, key, v)
  {
    var h := Head(5, |entries|, w);
    CutParts(bytes, 0, h, EncodePairs(entries));
    if |bytes| < |h| {
      CutHead(bytes, entries, w, key, v);
    } else {
      ItemWithHead(bytes, 0, 5, |entries|, w);
      CutPairs(bytes, |h|, entries, map[], key, v);
    }
  }

  /** What the key of a carried entry still reads as. */
  lemma CutEntry(bytes: Bytes, entries: seq<Pair>, w: Width, j: nat, v: CborValue)
    requires WellFormed(MapItem(entries, w)) && CutIn(bytes, 0, Encode(MapItem(entries, w))) && v != ZERO
    requires DistinctKeys(entries) && j < |entries|
    requires var r := ReadItem(bytes, At(0));
             r.Success? && r.value.0.Map? && Get(r.value.0.entries, KeyNumber(entries[j].key)) == Some(v)
    ensures StillThere(bytes, |Head(5, |entries|, w)|, entries, j, KeyNumber(entries[j].key), v)
  {
    CutMap(bytes, entries, w, KeyNumber(entries[j].key), v);
    var i: nat :| StillThere(bytes, |Head(5, |entries|, w)|, entries, i, KeyNumber(entries[j].key), v);
  }

  lemma NumberItem(p: Pair, c: int, d: int)
    requires WellFormedPair(p) && PairValue(p) == Num(Int(c)) && -0x100 <= c < 0x100 && d != 0 && d != -1
    ensures !StillReads(p.value, Num(Int(d)))
  {
  }

  lemma BytesItem(p: Pair, b: Bytes, a: Bytes)
    requires WellFormedPair(p) && PairValue(p) == Binary(b) && StillReads(p.value, Binary(a))
    ensures a <= b
  {
  }

  /** A small number that is still read, other than 0 and -1, is the one that was carried. */
  lemma NumberStays(bytes: Bytes, entries: seq<Pair>, w: Width, key: Number, c: int, d: int)
    requires WellFormed(MapItem(entries, w)) && CutIn(bytes, 0, Encode(MapItem(entries, w))) && DistinctKeys(entries)
    requires Carries(entries, key, Num(Int(c))) && -0x100 <= c < 0x100 && d != 0 && d != -1
    requires var r := ReadItem(bytes, At(0));
             r.Success? && r.value.0.Map? && Get(r.value.0.entries, key) == Some(Num(Int(d)))
    ensures c == d
  {
    var j :| 0 <= j < |entries| && EntryIs(entries, j, key, Num(Int(c)));
    CutEntry(bytes, entries, w, j, Num(Int(d)));
    NumberItem(entries[j], c, d);
  }

  /** Of a byte string a first part is still read. */
  lemma BytesStay(bytes: Bytes, entries: seq<Pair>, w: Width, key: Number, a: Bytes, b: Bytes)
    requires WellFormed(MapItem(entries, w)) && CutIn(bytes, 0, Encode(MapItem(entries, w))) && DistinctKeys(entries)
    requires Carries(entries, key, Binary(b))
    requires var r := ReadItem(bytes, At(0));
             r.Success? && r.value.0.Map? && Get(r.value.0.entries, key) == Some(Binary(a))
    ensures a <= b
  {
    var j :| 0 <= j < |entries| && EntryIs(entries, j, key, Binary(b));
    CutEntry(bytes, entries, w, j, Binary(a));
    if PairValue(entries[j]) != Binary(a) { BytesItem(entries[j], b, a); }
  }

  /** An EC2 key that is cut off, whatever the order of its entries, gives no key or its own x; only the parity may
      be another one. */
  lemma CutEc2Key(entries: seq<Pair>, w: Width, x: Bytes, y: Bytes, bytes: Bytes)
    requires WellFormed(MapItem(entries, w)) && CutIn(bytes, 0, Encode(MapItem(entries, w))) && DistinctKeys(entries)
    requires CarriesParts(entries, 2, -7, 1, x) && Carries(entries, Int(-3), Binary(y))
    ensures Parsed(bytes).Some? ==> exists y' | y' <= y :: Parsed(bytes) == Some(PublicKey(P256, [Parity(y')] + x))
  {
    if Parsed(bytes).Some? {
      var m := ReadItem(bytes, At(0)).value.0.entries;
      if Get(m, Int(1)) == Some(Num(Int(1))) {
        NumberStays(bytes, entries, w, Int(1), 2, 1);
      }
      var x', y' := Get(m, Int(-2)).value.bytes, Get(m, Int(-3)).value.bytes;
      BytesStay(bytes, entries, w, Int(-2), x', x);
      BytesStay(bytes, entries, w, Int(-3), y', y);
      assert x' == x;
    }
  }

  /** An OKP key that is cut off gives no key or the same key. */
  lemma CutOkpKey(entries: seq<Pair>, w: Width, x: Bytes, bytes: Bytes)
    requires WellFormed(MapItem(entries, w)) && CutIn(bytes, 0, Encode(MapItem(entries, w))) && DistinctKeys(entries)
    requires CarriesParts(entries, 1, -8, 6, x)
    ensures Parsed(bytes).Some? ==> Parsed(bytes) == Some(PublicKey(Ed25519, x))
  {
    if Parsed(bytes).Some? {
      var m := ReadItem(bytes, At(0)).value.0.entries;
      if Get(m, Int(1)) == Some(Num(Int(2))) {
        NumberStays(bytes, entries, w, Int(1), 1, 2);
      }
      var x' := Get(m, Int(-2)).value.bytes;
      BytesStay(bytes, entries, w, Int(-2), x', x);
      assert x' == x;
    }
  }

  // ---------------------------------------------------------------- a key whose y comes last

  /** The first entries are read as in the whole map. */
  lemma {:induction false} FrontRead(bytes: Bytes, cursor: nat, front: seq<Pair>, count: nat, m: map<Number, CborValue>)
    requires WellFormedPairs(front) && Holds(bytes, cursor, EncodePairs(front)) && count >= |front|
    ensures ReadPairs(bytes, At(cursor), count, m)
         == ReadPairs(bytes, At(cursor + |EncodePairs(front)|), count - |front|, Collect(m, front))
    decreases |front|, 1
  {
    if front != [] {
      PairsHeld(bytes, cursor, front);
      FirstPairRead(bytes, cursor, count, front[0], m);
      FrontRestRead(bytes, cursor + |EncodePair(front[0])|, front, count, m);
    }
  }

  lemma {:induction false} FrontRestRead(bytes: Bytes, cursor: nat, front: seq<Pair>, count: nat,
                                         m: map<Number, CborValue>)
    requires front != [] && WellFormedPairs(front) && Holds(bytes, cursor, EncodePairs(front[1..])) && count >= |front|
    ensures ReadPairs(bytes, At(cursor), count - 1, m[KeyNumber(front[0].key) := PairValue(front[0])])
         == ReadPairs(bytes, At(cursor + |EncodePairs(front[1..])|), count - |front|, Collect(m, front))
    decreases |front|, 0
  {
    PairsUnfold(front, m);
    FrontRead(bytes, cursor, front[1..], count - 1, m[KeyNumber(front[0].key) := PairValue(front[0])]);
  }

  lemma {:induction false} LastPair(front: seq<Pair>, p: Pair)
    requires WellFormedPairs(front + [p])
    ensures WellFormedPairs(front) && WellFormedPair(p)
    ensures EncodePairs(front + [p]) == EncodePairs(front) + EncodePair(p)
    ensures ValueStart(front + [p], |front|) == |EncodePairs(front)| + KeyLength(p)
    decreases |front|
  {
    var all := front + [p];
    PairsUnfold(all, map[]);
    if front == [] {
      assert all[1..] == [];
    } else {
      assert all[1..] == front[1..] + [p];
      LastPair(front[1..], p);
      PairsUnfold(front, map[]);
    }
  }

  /** The end of the buffer falls into a byte string that is the last value. */
  lemma CutLastPair(bytes: Bytes, start: nat, p: Pair, b: Bytes, w: Width)
    requires WellFormedPair(p) && Fits(|b|, w) && p.value == ByteString(b, w)
    requires CutIn(bytes, start, EncodePair(p)) && start + KeyLength(p) < |bytes|
    ensures var r := ReadPair(bytes, At(start));
            && r.Success? && r.value.0 == KeyNumber(p.key)
            && r.value.1 == Binary(LeftOf(b, w, |bytes| - start - KeyLength(p)))
  {
    var next := start + KeyLength(p);
    CutParts(bytes, start, Encode(p.key), Encode(p.value));
    KeyReadsBack(bytes, start, p);
    CutByteString(bytes, next, b, w);
    var end := ReadItem(bytes, At(next)).value.1;
    PairFromItems(bytes, At(start), KeyNumber(p.key), At(next), Binary(LeftOf(b, w, |bytes| - next)), end);
  }

  lemma KeyReadsBack(bytes: Bytes, start: nat, p: Pair)
    requires WellFormedPair(p) && Holds(bytes, start, Encode(p.key))
    ensures ReadItem(bytes, At(start)) == Success((Num(KeyNumber(p.key)), At(start + KeyLength(p))))
  {
    ReadsBack(bytes, start, p.key);
  }

  lemma CutInLast(bytes: Bytes, cursor: nat, front: seq<Pair>, p: Pair, start: nat, left: Bytes)
    requires WellFormedPairs(front) && Holds(bytes, cursor, EncodePairs(front))
              && start == cursor + |EncodePairs(front)|
    requires var r := ReadPair(bytes, At(start));
             r.Success? && r.value.0 == KeyNumber(p.key) && r.value.1 == Binary(left)
    ensures var r := ReadPairs(bytes, At(cursor), |front| + 1, map[]);
            r.Success? && r.value.0 == Collect(map[], front)[KeyNumber(p.key) := Binary(left)]
  {
    FrontRead(bytes, cursor, front, |front| + 1, map[]);
  }

  lemma CarriedInFront(front: seq<Pair>, p: Pair, key: Number, v: CborValue)
    requires WellFormedPairs(front) && WellFormedPairs(front + [p]) && Carries(front, key, v)
    ensures Carries(front + [p], key, v)
  {
    var i :| 0 <= i < |front| && EntryIs(front, i, key, v);
    assert EntryIs(front + [p], i, key, v);
  }

  lemma KeyFromParts(front: seq<Pair>, x: Bytes, y: Bytes)
    requires WellFormedPairs(front) && DistinctKeys(front) && CarriesParts(front, 2, -7, 1, x)
    ensures KeyOf(Map(Collect(map[], front)[Int(-3) := Binary(y)])) == Some(PublicKey(P256, [Parity(y)] + x))
  {
    CarriedExactly(front, Int(1), Num(Int(2)));
    CarriedExactly(front, Int(3), Num(Int(-7)));
    CarriedExactly(front, Int(-1), Num(Int(1)));
    CarriedExactly(front, Int(-2), Binary(x));
  }

  /** The entries of an EC2 key whose y comes last. */
  predicate YLast(entries: seq<Pair>, front: seq<Pair>, p: Pair, x: Bytes, y: Bytes, v: Width) {
    && entries == front + [p] && WellFormedPairs(entries) && DistinctKeys(entries)
    && WellFormedPairs(front) && CarriesParts(front, 2, -7, 1, x)
    && WellFormedPair(p) && KeyNumber(p.key) == Int(-3) && p.value == ByteString(y, v) && |y| == 32 && Fits(|y|, v)
  }

  lemma KeyBeforeY(entries: seq<Pair>, front: seq<Pair>, p: Pair, w: Width, x: Bytes, y: Bytes, v: Width, bytes: Bytes)
    requires YLast(entries, front, p, x, y, v) && Fits(|entries|, w) && CutIn(bytes, 0, Encode(MapItem(entries, w)))
    requires |bytes| <= |Encode(MapItem(entries, w))| - |Encode(ByteString(y, v))|
    ensures Parsed(bytes) == None
  {
    if Parsed(bytes).Some? {
      var m := ReadItem(bytes, At(0)).value.0.entries;
      if Get(m, Int(1)) == Some(Num(Int(1))) {
        CarriedInFront(front, p, Int(1), Num(Int(2)));
        NumberStays(bytes, entries, w, Int(1), 2, 1);
      }
      CutEntry(bytes, entries, w, |front|, Get(m, Int(-3)).value);
      LastPair(front, p);
    }
  }

  /** The parts of the encoding that are there, and the one that is cut. */
  lemma YCut(entries: seq<Pair>, front: seq<Pair>, p: Pair, w: Width, y: Bytes, v: Width, bytes: Bytes, start: nat)
    requires entries == front + [p] && WellFormedPairs(entries) && Fits(|entries|, w)
    requires WellFormedPairs(front) && WellFormedPair(p) && p.value == ByteString(y, v) && Fits(|y|, v)
    requires CutIn(bytes, 0, Encode(MapItem(entries, w))) && start == |Head(5, |entries|, w)| + |EncodePairs(front)|
    requires |bytes| > |Encode(MapItem(entries, w))| - |Encode(ByteString(y, v))|
    ensures Holds(bytes, 0, Head(5, |entries|, w)) && Holds(bytes, |Head(5, |entries|, w)|, EncodePairs(front))
    ensures CutIn(bytes, start, EncodePair(p)) && 0 < |bytes| - start - KeyLength(p) < |Encode(ByteString(y, v))|
  {
    var h := Head(5, |entries|, w);
    LastPair(front, p);
    CutParts(bytes, 0, h, EncodePairs(entries));
    CutParts(bytes, |h|, EncodePairs(front), EncodePair(p));
  }

  /** The front is read whole and the last pair with what is left of y. */
  lemma YRead(front: seq<Pair>, p: Pair, w: Width, bytes: Bytes, h: Bytes, start: nat, left: Bytes)
    requires WellFormedPairs(front) && Fits(|front| + 1, w) && h == Head(5, |front| + 1, w)
    requires Holds(bytes, 0, h) && Holds(bytes, |h|, EncodePairs(front)) && start == |h| + |EncodePairs(front)|
    requires var r := ReadPair(bytes, At(start));
             r.Success? && r.value.0 == KeyNumber(p.key) && r.value.1 == Binary(left)
    ensures Parsed(bytes) == KeyOf(Map(Collect(map[], front)[KeyNumber(p.key) := Binary(left)]))
  {
    CutInLast(bytes, |h|, front, p, start, left);
    ItemWithHead(bytes, 0, 5, |front| + 1, w);
  }

  lemma FrontDistinct(front: seq<Pair>, p: Pair)
    requires DistinctKeys(front + [p])
    ensures DistinctKeys(front)
  {
    assert forall i | 0 <= i < |front| :: front[i] == (front + [p])[i];
  }

  lemma KeyWithLeft(entries: seq<Pair>, front: seq<Pair>, p: Pair, w: Width, y: Bytes, v: Width, bytes: Bytes)
      returns (left: Bytes)
    requires entries == front + [p] && WellFormedPairs(entries) && Fits(|entries|, w)
    requires WellFormedPairs(front) && WellFormedPair(p) && p.value == ByteString(y, v) && Fits(|y|, v)
    requires CutIn(bytes, 0, Encode(MapItem(entries, w)))
    requires |bytes| > |Encode(MapItem(entries, w))| - |Encode(ByteString(y, v))|
    ensures |left| <= |y| && (|left| == |y| ==> y == [])
    ensures Parsed(bytes) == KeyOf(Map(Collect(map[], front)[KeyNumber(p.key) := Binary(left)]))
  {
    var start := |Head(5, |entries|, w)| + |EncodePairs(front)|;
    YCut(entries, front, p, w, y, v, bytes, start);
    left := LeftOf(y, v, |bytes| - start - KeyLength(p));
    CutLastPair(bytes, start, p, y, v);
    YRead(front, p, w, bytes, Head(5, |entries|, w), start, left);
  }

  lemma KeyInY(entries: seq<Pair>, front: seq<Pair>, p: Pair, w: Width, x: Bytes, y: Bytes, v: Width, bytes: Bytes)
    requires YLast(entries, front, p, x, y, v) && Fits(|entries|, w) && CutIn(bytes, 0, Encode(MapItem(entries, w)))
    requires |bytes| > |Encode(MapItem(entries, w))| - |Encode(ByteString(y, v))|
    ensures Parsed(bytes) == Some(PublicKey(P256, [2] + x))
  {
    var left := KeyWithLeft(entries, front, p, w, y, v, bytes);
    FrontDistinct(front, p);
    KeyFromParts(front, x, left);
  }

  /** An EC2 key whose y comes last still gives a key exactly from the first byte of y's encoding on, and always
      with even parity. */
  lemma CutInY(entries: seq<Pair>, front: seq<Pair>, p: Pair, w: Width, x: Bytes, y: Bytes, v: Width, bytes: Bytes)
    requires YLast(entries, front, p, x, y, v) && Fits(|entries|, w) && CutIn(bytes, 0, Encode(MapItem(entries, w)))
    ensures Parsed(bytes) ==
            if |bytes| > |Encode(MapItem(entries, w))| - |Encode(ByteString(y, v))| then Some(PublicKey(P256, [2] + x))
            else None
  {
    if |bytes| > |Encode(MapItem(entries, w))| - |Encode(ByteString(y, v))| {
      KeyInY(entries, front, p, w, x, y, v, bytes);
    } else {
      KeyBeforeY(entries, front, p, w, x, y, v, bytes);
    }
  }
}
