/** The CBOR reader and the COSE_Key parser of packages/better-near-auth/src/passkey.ts, against an
    encoder after section 3.1 of RFC 8949 (any width of argument up to four bytes). */
module Cose {
  import opened Wrappers
  import opened Borsh

  // ---------------------------------------------------------------- the encoding

  /** Where the argument of an item is written: in the initial byte, or in one, two or four bytes. */
  datatype Width = Direct | One | Two | Four

  datatype Item =
    | UInt(n: nat, w: Width)
    | NegInt(n: nat, w: Width) // stands for -1 - n
    | ByteString(bytes: Bytes, w: Width)
    | MapItem(entries: seq<Pair>, w: Width)

  datatype Pair = Pair(key: Item, value: Item)

  predicate Fits(n: nat, w: Width) {
    match w
    case Direct => n < 24
    case One => n < 0x100
    case Two => n < 0x1_0000
    case Four => n < TWO_32
  }

  function Head(major: nat, n: nat, w: Width): Bytes
    requires major < 8 && Fits(n, w)
  {
    match w
    case Direct => [major * 32 + n]
    case One => [major * 32 + 24, n]
    case Two => [major * 32 + 25, n / 0x100, n % 0x100]
    case Four => [major * 32 + 26, n / 0x100_0000, n / 0x1_0000 % 0x100, n / 0x100 % 0x100, n % 0x100]
  }

  /** Arguments fit their width and map keys are integers. */
  predicate WellFormed(item: Item)
    decreases item, 1
  {
    match item
    case UInt(n, w) => Fits(n, w)
    case NegInt(n, w) => Fits(n, w)
    case ByteString(bytes, w) => Fits(|bytes|, w)
    case MapItem(entries, w) => Fits(|entries|, w) && WellFormedPairs(entries)
  }

  predicate WellFormedPairs(entries: seq<Pair>)
    decreases entries, 0
  {
    entries == [] || (WellFormedPair(entries[0]) && WellFormedPairs(entries[1..]))
  }

  predicate WellFormedPair(p: Pair)
    decreases p, 0
  {
    (p.key.UInt? || p.key.NegInt?) && WellFormed(p.key) && WellFormed(p.value)
  }

  function Encode(item: Item): (bytes: Bytes)
    requires WellFormed(item)
    ensures |bytes| >= 1
    decreases item, 1
  {
    match item
    case UInt(n, w) => Head(0, n, w)
    case NegInt(n, w) => Head(1, n, w)
    case ByteString(bytes, w) => Head(2, |bytes|, w) + bytes
    case MapItem(entries, w) => Head(5, |entries|, w) + EncodePairs(entries)
  }

  function EncodePairs(entries: seq<Pair>): Bytes
    requires WellFormedPairs(entries)
    decreases entries, 0
  {
    if entries == [] then [] else EncodePair(entries[0]) + EncodePairs(entries[1..])
  }

  function EncodePair(p: Pair): Bytes
    requires WellFormedPair(p)
    decreases p, 0
  {
    Encode(p.key) + Encode(p.value)
  }

  // ---------------------------------------------------------------- the values

  /** A JavaScript number, as far as the reader computes any. */
  datatype Number = Int(n: int) | NaN

  datatype CborValue = Num(n: Number) | Undefined | Binary(bytes: Bytes) | Map(entries: map<Number, CborValue>)

  function ValueOf(item: Item): CborValue
    requires WellFormed(item)
    decreases item, 1
  {
    match item
    case UInt(n, _) => Num(Int(n))
    case NegInt(n, _) => Num(Int(-1 - n))
    case ByteString(bytes, _) => Binary(bytes)
    case MapItem(entries, _) => Map(Collect(map[], entries))
  }

  function KeyNumber(key: Item): Number {
    if key.UInt? then Int(key.n) else if key.NegInt? then Int(-1 - key.n) else NaN
  }

  /** `map.set` for one pair after the other. */
  function Collect(m: map<Number, CborValue>, entries: seq<Pair>): map<Number, CborValue>
    requires WellFormedPairs(entries)
    decreases entries, 0
  {
    if entries == [] then m
    else Collect(m[KeyNumber(entries[0].key) := PairValue(entries[0])], entries[1..])
  }

  function PairValue(p: Pair): CborValue
    requires WellFormedPair(p)
    decreases p, 0
  {
    ValueOf(p.value)
  }

  // ---------------------------------------------------------------- the reader

  datatype ReadError = UnsupportedLength | UnsupportedMajor(major: nat) | NonIntegerKey

  /** An offset, which is not a number once a length of that kind was added to it. */
  datatype Place = At(i: nat) | Nowhere

  function Plus(p: Place, n: nat): Place {
    if p.At? then At(p.i + n) else Nowhere
  }

  /** `bytes[offset]`; past the end that is undefined, which counts as zero in bit operations. */
  function Bits(bytes: Bytes, i: nat): byte {
    if i < |bytes| then bytes[i] else 0
  }

  /** What follows the initial byte, as the source computes it: an undefined byte stays undefined, and a
      product with it is not a number. */
  function ReadLength(bytes: Bytes, info: nat, i: nat): Result<(CborValue, nat), ReadError> {
    if info < 24 then Success((Num(Int(info)), i))
    else if info == 24 then Success((if i < |bytes| then Num(Int(bytes[i])) else Undefined, i + 1))
    else if info == 25 then
      var a: nat, b: nat := Bits(bytes, i), Bits(bytes, i + 1);
      Success((Num(Int(a * 0x100 + b)), i + 2))
    else if info == 26 then
      var b: nat, c: nat, d: nat := Bits(bytes, i + 1), Bits(bytes, i + 2), Bits(bytes, i + 3);
      if i >= |bytes| then Success((Num(NaN), i + 4))
      else
        var a: nat := bytes[i];
        Success((Num(Int(a * 0x100_0000 + (b * 0x1_0000 + c * 0x100 + d))), i + 4))
    else Failure(UnsupportedLength)
  }

  /** A length that is a number after all. */
  function Known(length: CborValue): Option<nat> {
    if length.Num? && length.n.Int? && length.n.n >= 0 then Some(length.n.n) else None
  }

  /** How often `for (let i = 0; i < length; i++)` turns. */
  function Turns(length: CborValue): nat {
    if Known(length).Some? then Known(length).value else 0
  }

  /** `-1 - value` */
  function Negated(value: CborValue): CborValue {
    Num(if value.Num? && value.n.Int? then Int(-1 - value.n.n) else NaN)
  }

  /** `bytes.slice(from, to)`, which stops at the end of the buffer. */
  function Slice(bytes: Bytes, from: nat, to: nat): Bytes
    requires from <= to
  {
    if from >= |bytes| then [] else if to >= |bytes| then bytes[from..] else bytes[from..to]
  }

  /** A slice of a length, and where it ends. Where the length is no number the slice is empty and the end is
      nowhere. */
  function Sliced(bytes: Bytes, next: nat, length: CborValue): (CborValue, Place) {
    match Known(length)
    case Some(n) => (Binary(Slice(bytes, next, next + n)), At(next + n))
    case None => (Binary([]), Nowhere)
  }

  function Left(bytes: Bytes, p: Place): nat {
    if p.At? && p.i < |bytes| then |bytes| - p.i else 0
  }

  /** Reading only goes on, and never comes back from nowhere. */
  predicate After(p: Place, end: Place) {
    end.At? ==> p.At? && p.i < end.i
  }

  /** One item, and where it ends. Past the end of the buffer every item is a zero of one byte. */
  function ReadItem(bytes: Bytes, p: Place): (r: Result<(CborValue, Place), ReadError>)
    ensures r.Success? ==> Left(bytes, r.value.1) <= Left(bytes, p) && After(p, r.value.1)
    decreases Left(bytes, p), 0, 0
  {
    if p.Nowhere? || p.i >= |bytes| then Success((Num(Int(0)), Plus(p, 1)))
    else
      var initial: nat := bytes[p.i];
      var major, info := initial / 32, initial % 32;
      if major == 7 && info < 20 then Success((Num(Int(info)), At(p.i + 1)))
      else if major !in {0, 1, 2, 5} then Failure(UnsupportedMajor(major))
      else
        match ReadLength(bytes, info, p.i + 1)
        case Failure(e) => Failure(e)
        case Success((length, next)) =>
          if major == 0 then Success((length, At(next)))
          else if major == 1 then Success((Negated(length), At(next)))
          else if major == 2 then Success(Sliced(bytes, next, length))
          else
            match ReadPairs(bytes, At(next), Turns(length), map[])
            case Failure(e) => Failure(e)
            case Success((m, end)) => Success((Map(m), end))
  }

  /** A key and its value: one turn of the loop over a map's entries. */
  function ReadPair(bytes: Bytes, p: Place): (r: Result<(Number, CborValue, Place), ReadError>)
    ensures r.Success? ==> Left(bytes, r.value.2) <= Left(bytes, p) && After(p, r.value.2)
    decreases Left(bytes, p), 1, 0
  {
    match ReadItem(bytes, p)
    case Failure(e) => Failure(e)
    case Success((key, afterKey)) =>
      match ReadItem(bytes, afterKey)
      case Failure(e) => Failure(e)
      case Success((value, afterValue)) =>
        if !key.Num? then Failure(NonIntegerKey) else Success((key.n, value, afterValue))
  }

  /** As many pairs as the head announces; no loop turns where that is no number. */
  function ReadPairs(bytes: Bytes, p: Place, count: nat, m: map<Number, CborValue>)
      : (r: Result<(map<Number, CborValue>, Place), ReadError>)
    ensures r.Success? ==> Left(bytes, r.value.1) <= Left(bytes, p) && (r.value.1 == p || After(p, r.value.1))
    decreases Left(bytes, p), 2, count
  {
    if count == 0 then Success((m, p))
    else
      match ReadPair(bytes, p)
      case Failure(e) => Failure(e)
      case Success((key, value, next)) => ReadPairs(bytes, next, count - 1, m[key := value])
  }

  /** The reader as the source runs it: a cursor and a map filled in a loop. */
  method ReadCborItem(bytes: Bytes, start: Place) returns (r: Result<(CborValue, Place), ReadError>)
    ensures r == ReadItem(bytes, start)
    decreases Left(bytes, start)
  {
    if start.Nowhere? || start.i >= |bytes| { return Success((Num(Int(0)), Plus(start, 1))); }
    var initial: nat := bytes[start.i];
    var major, info := initial / 32, initial % 32;
    var offset := start.i + 1;
    if major == 7 && info < 20 { return Success((Num(Int(info)), At(offset))); }
    if major !in {0, 1, 2, 5} { return Failure(UnsupportedMajor(major)); }
    var head := ReadLength(bytes, info, offset);
    if head.Failure? { return Failure(head.error); }
    var (length, next) := head.value;
    if major == 0 { return Success((length, At(next))); }
    if major == 1 { return Success((Negated(length), At(next))); }
    if major == 2 { return Success(Sliced(bytes, next, length)); }
    var count := Turns(length);
    var m: map<Number, CborValue> := map[];
    var cursor := At(next);
    for i := 0 to count
      invariant Left(bytes, cursor) <= Left(bytes, At(next))
      invariant ReadPairs(bytes, At(next), count, map[]) == ReadPairs(bytes, cursor, count - i, m)
    {
      var key := ReadCborItem(bytes, cursor);
      if key.Failure? { return Failure(key.error); }
      var value := ReadCborItem(bytes, key.value.1);
      if value.Failure? { return Failure(value.error); }
      if !key.value.0.Num? { return Failure(NonIntegerKey); }
      m := m[key.value.0.n := value.value.0];
      cursor := value.value.1;
    }
    return Success((Map(m), cursor));
  }

  // ---------------------------------------------------------------- reading back what was encoded

  predicate Holds(bytes: Bytes, offset: nat, part: Bytes) {
    offset + |part| <= |bytes| && bytes[offset..offset + |part|] == part
  }

  lemma HoldsParts(bytes: Bytes, offset: nat, a: Bytes, b: Bytes)
    requires Holds(bytes, offset, a + b)
    ensures Holds(bytes, offset, a) && Holds(bytes, offset + |a|, b)
  {
    var w := bytes[offset..offset + |a + b|];
    assert bytes[offset..offset + |a|] == w[..|a|] == a;
    assert bytes[offset + |a|..offset + |a| + |b|] == w[|a|..] == b;
  }

  lemma HoldsAt(bytes: Bytes, offset: nat, part: Bytes)
    requires Holds(bytes, offset, part)
    ensures forall i | 0 <= i < |part| :: bytes[offset + i] == part[i]
  {
    forall i | 0 <= i < |part| ensures bytes[offset + i] == part[i] {
      assert bytes[offset..offset + |part|][i] == part[i];
    }
  }

  lemma HeadReadsBack(bytes: Bytes, offset: nat, major: nat, n: nat, w: Width)
    requires major < 8 && Fits(n, w) && Holds(bytes, offset, Head(major, n, w))
    ensures offset < |bytes| && bytes[offset] / 32 == major
    ensures ReadLength(bytes, bytes[offset] % 32, offset + 1) == Success((Num(Int(n)), offset + |Head(major, n, w)|))
  {
    var h := Head(major, n, w);
    HoldsAt(bytes, offset, h);
    assert bytes[offset + 0] == h[0];
    match w
    case Direct =>
    case One => assert bytes[offset + 1] == h[1];
    case Two => assert bytes[offset + 1] == h[1] && bytes[offset + 2] == h[2];
    case Four =>
      assert bytes[offset + 1] == h[1] && bytes[offset + 2] == h[2] && bytes[offset + 3] == h[3]
          && bytes[offset + 4] == h[4];
      FourBytes(n);
  }

  lemma FourBytes(n: nat)
    requires n < TWO_32
    ensures n == n / 0x100_0000 * 0x100_0000 + (n / 0x1_0000 % 0x100 * 0x1_0000 + n / 0x100 % 0x100 * 0x100 + n % 0x100)
    ensures n / 0x100_0000 < 0x100
  {
    FourDigits(n);
  }

  /** What an item with a given head reads as. */
  lemma ItemWithHead(bytes: Bytes, offset: nat, major: nat, n: nat, w: Width)
    requires major in {0, 1, 2, 5} && Fits(n, w) && Holds(bytes, offset, Head(major, n, w))
    ensures var next := offset + |Head(major, n, w)|;
            && (major == 0 ==> ReadItem(bytes, At(offset)) == Success((Num(Int(n)), At(next))))
            && (major == 1 ==> ReadItem(bytes, At(offset)) == Success((Num(Int(-1 - n)), At(next))))
            && (major == 2 ==>
                  ReadItem(bytes, At(offset)) == Success((Binary(Slice(bytes, next, next + n)), At(next + n))))
            && (major == 5 ==>
                  ReadItem(bytes, At(offset)) ==
                  match ReadPairs(bytes, At(next), n, map[])
                  case Failure(e) => Failure(e)
                  case Success((m, cursor)) => Success((Map(m), cursor)))
  {
    HeadReadsBack(bytes, offset, major, n, w);
  }

  lemma ByteStringReadsBack(bytes: Bytes, offset: nat, b: Bytes, w: Width)
    requires Fits(|b|, w) && Holds(bytes, offset, Head(2, |b|, w) + b)
    ensures ReadItem(bytes, At(offset)) == Success((Binary(b), At(offset + |Head(2, |b|, w) + b|)))
  {
    var head := Head(2, |b|, w);
    HoldsParts(bytes, offset, head, b);
    ItemWithHead(bytes, offset, 2, |b|, w);
    SliceIs(bytes, offset + |head|, b);
  }

  lemma MapHeld(bytes: Bytes, offset: nat, entries: seq<Pair>, w: Width)
    requires Fits(|entries|, w) && WellFormedPairs(entries) && Holds(bytes, offset, Encode(MapItem(entries, w)))
    ensures var head := Head(5, |entries|, w);
            && Holds(bytes, offset, head) && Holds(bytes, offset + |head|, EncodePairs(entries))
            && |Encode(MapItem(entries, w))| == |head| + |EncodePairs(entries)|
  {
    HoldsParts(bytes, offset, Head(5, |entries|, w), EncodePairs(entries));
  }

  lemma MapReadsBack(bytes: Bytes, offset: nat, entries: seq<Pair>, w: Width)
    requires Fits(|entries|, w) && WellFormedPairs(entries) && Holds(bytes, offset, Encode(MapItem(entries, w)))
    requires var next := offset + |Head(5, |entries|, w)|;
             ReadPairs(bytes, At(next), |entries|, map[]) ==
                 Success((Collect(map[], entries), At(next + |EncodePairs(entries)|)))
    ensures ReadItem(bytes, At(offset)) ==
              Success((ValueOf(MapItem(entries, w)), At(offset + |Encode(MapItem(entries, w))|)))
  {
    MapHeld(bytes, offset, entries, w);
    ItemWithHead(bytes, offset, 5, |entries|, w);
  }

  lemma ScalarReadsBack(bytes: Bytes, offset: nat, item: Item)
    requires WellFormed(item) && !item.MapItem? && Holds(bytes, offset, Encode(item))
    ensures ReadItem(bytes, At(offset)) == Success((ValueOf(item), At(offset + |Encode(item)|)))
  {
    match item
    case UInt(n, w) => ItemWithHead(bytes, offset, 0, n, w);
    case NegInt(n, w) => ItemWithHead(bytes, offset, 1, n, w);
    case ByteString(b, w) => ByteStringReadsBack(bytes, offset, b, w);
  }

  /** The reader inverts the encoding, at any place in any buffer, and stops exactly at its end. */
  lemma {:induction false} ReadsBack(bytes: Bytes, offset: nat, item: Item)
    requires WellFormed(item) && Holds(bytes, offset, Encode(item))
    ensures ReadItem(bytes, At(offset)) == Success((ValueOf(item), At(offset + |Encode(item)|)))
    decreases item, 1
  {
    if item.MapItem? {
      MapHeld(bytes, offset, item.entries, item.w);
      PairsReadBack(bytes, offset + |Head(5, |item.entries|, item.w)|, item.entries, map[]);
      MapReadsBack(bytes, offset, item.entries, item.w);
    } else {
      ScalarReadsBack(bytes, offset, item);
    }
  }

  lemma PairsUnfold(entries: seq<Pair>, m: map<Number, CborValue>)
    requires entries != [] && WellFormedPairs(entries)
    ensures WellFormedPair(entries[0]) && WellFormedPairs(entries[1..])
    ensures EncodePairs(entries) == EncodePair(entries[0]) + EncodePairs(entries[1..])
    ensures Collect(m, entries) == Collect(m[KeyNumber(entries[0].key) := PairValue(entries[0])], entries[1..])
  {
  }

  lemma PairsHeld(bytes: Bytes, cursor: nat, entries: seq<Pair>)
    requires entries != [] && WellFormedPairs(entries) && Holds(bytes, cursor, EncodePairs(entries))
    ensures WellFormedPair(entries[0]) && WellFormedPairs(entries[1..])
    ensures Holds(bytes, cursor, EncodePair(entries[0]))
    ensures Holds(bytes, cursor + |EncodePair(entries[0])|, EncodePairs(entries[1..]))
    ensures |EncodePairs(entries)| == |EncodePair(entries[0])| + |EncodePairs(entries[1..])|
  {
    PairsUnfold(entries, map[]);
    HoldsParts(bytes, cursor, EncodePair(entries[0]), EncodePairs(entries[1..]));
  }

  lemma {:induction false} PairsReadBack(bytes: Bytes, cursor: nat, entries: seq<Pair>, m: map<Number, CborValue>)
    requires WellFormedPairs(entries) && Holds(bytes, cursor, EncodePairs(entries))
    ensures ReadPairs(bytes, At(cursor), |entries|, m) ==
              Success((Collect(m, entries), At(cursor + |EncodePairs(entries)|)))
    decreases entries, 1
  {
    if entries != [] {
      PairsHeld(bytes, cursor, entries);
      FirstPairRead(bytes, cursor, |entries|, entries[0], m);
      RestReadBack(bytes, cursor + |EncodePair(entries[0])|, entries, m);
    }
  }

  lemma {:induction false} RestReadBack(bytes: Bytes, cursor: nat, entries: seq<Pair>, m: map<Number, CborValue>)
    requires entries != [] && WellFormedPairs(entries) && Holds(bytes, cursor, EncodePairs(entries[1..]))
    ensures ReadPairs(bytes, At(cursor), |entries| - 1, m[KeyNumber(entries[0].key) := PairValue(entries[0])])
         == Success((Collect(m, entries), At(cursor + |EncodePairs(entries[1..])|)))
    decreases entries, 0
  {
    PairsUnfold(entries, m);
    PairsReadBack(bytes, cursor, entries[1..], m[KeyNumber(entries[0].key) := PairValue(entries[0])]);
  }

  lemma {:induction false} FirstPairRead(bytes: Bytes, cursor: nat, count: nat, p: Pair, m: map<Number, CborValue>)
    requires count > 0 && WellFormedPair(p) && Holds(bytes, cursor, EncodePair(p))
    ensures ReadPairs(bytes, At(cursor), count, m)
         == ReadPairs(bytes, At(cursor + |EncodePair(p)|), count - 1, m[KeyNumber(p.key) := PairValue(p)])
    decreases p, 1
  {
    PairReadsBack(bytes, cursor, p);
  }

  lemma PairParts(bytes: Bytes, cursor: nat, p: Pair)
    requires WellFormedPair(p) && Holds(bytes, cursor, EncodePair(p))
    ensures WellFormed(p.key) && WellFormed(p.value)
    ensures Holds(bytes, cursor, Encode(p.key)) && Holds(bytes, cursor + |Encode(p.key)|, Encode(p.value))
    ensures ValueOf(p.key) == Num(KeyNumber(p.key)) && ValueOf(p.value) == PairValue(p)
    ensures |EncodePair(p)| == |Encode(p.key)| + |Encode(p.value)|
  {
    HoldsParts(bytes, cursor, Encode(p.key), Encode(p.value));
  }

  lemma PairFromItems(bytes: Bytes, p: Place, key: Number, afterKey: Place, value: CborValue, end: Place)
    requires ReadItem(bytes, p) == Success((Num(key), afterKey)) && ReadItem(bytes, afterKey) == Success((value, end))
    ensures ReadPair(bytes, p) == Success((key, value, end))
  {
  }

  lemma {:induction false} PairReadsBack(bytes: Bytes, cursor: nat, p: Pair)
    requires WellFormedPair(p) && Holds(bytes, cursor, EncodePair(p))
    ensures ReadPair(bytes, At(cursor)) == Success((KeyNumber(p.key), PairValue(p), At(cursor + |EncodePair(p)|)))
    decreases p, 0
  {
    PairParts(bytes, cursor, p);
    var afterKey := cursor + |Encode(p.key)|;
    ReadsBack(bytes, cursor, p.key);
    ReadsBack(bytes, afterKey, p.value);
    PairFromItems(bytes, At(cursor), KeyNumber(p.key), At(afterKey), PairValue(p), At(cursor + |EncodePair(p)|));
  }

  lemma SliceIs(bytes: Bytes, offset: nat, part: Bytes)
    requires Holds(bytes, offset, part)
    ensures Slice(bytes, offset, offset + |part|) == part
  {
  }

  // ---------------------------------------------------------------- buffers that end too early

  /** The place is not past the end of the buffer. */
  predicate Inside(bytes: Bytes, p: Place) {
    p.At? && p.i <= |bytes|
  }

  lemma LengthReadsSame(bytes: Bytes, more: Bytes, info: nat, i: nat)
    requires var r := ReadLength(bytes, info, i); r.Success? && r.value.1 <= |bytes|
    ensures ReadLength(bytes + more, info, i) == ReadLength(bytes, info, i)
  {
  }

  lemma SliceSame(bytes: Bytes, more: Bytes, from: nat, to: nat)
    requires from <= to <= |bytes|
    ensures Slice(bytes + more, from, to) == Slice(bytes, from, to)
  {
  }

  /** The head of an item that ends inside the buffer. */
  lemma HeadReadsSame(bytes: Bytes, more: Bytes, i: nat)
    requires i < |bytes| && bytes[i] / 32 in {0, 1, 2, 5}
    requires var r := ReadItem(bytes, At(i)); r.Success? && Inside(bytes, r.value.1)
    ensures var r := ReadLength(bytes, bytes[i] % 32, i + 1);
            r.Success? && ReadLength(bytes + more, bytes[i] % 32, i + 1) == r && (bytes + more)[i] == bytes[i]
  {
    assert (bytes + more)[i] == bytes[i];
    LengthReadsSame(bytes, more, bytes[i] % 32, i + 1);
  }

  lemma OtherReadsSame(bytes: Bytes, more: Bytes, i: nat)
    requires i < |bytes| && bytes[i] / 32 != 5
    requires var r := ReadItem(bytes, At(i)); r.Success? && Inside(bytes, r.value.1)
    ensures ReadItem(bytes + more, At(i)) == ReadItem(bytes, At(i))
  {
    if bytes[i] / 32 in {0, 1, 2} {
      HeadReadsSame(bytes, more, i);
      var (length, next) := ReadLength(bytes, bytes[i] % 32, i + 1).value;
      if bytes[i] / 32 == 2 { SliceSame(bytes, more, next, next + Turns(length)); }
    } else {
      assert (bytes + more)[i] == bytes[i];
    }
  }

  /** What was read inside the buffer does not depend on what follows it. */
  lemma {:induction false} ReadsSame(bytes: Bytes, more: Bytes, p: Place)
    requires var r := ReadItem(bytes, p); r.Success? && Inside(bytes, r.value.1)
    ensures ReadItem(bytes + more, p) == ReadItem(bytes, p)
    decreases Left(bytes, p), 0, 0
  {
    if bytes[p.i] / 32 == 5 {
      HeadReadsSame(bytes, more, p.i);
      var (length, next) := ReadLength(bytes, bytes[p.i] % 32, p.i + 1).value;
      PairsReadSame(bytes, more, At(next), Turns(length), map[]);
    } else {
      OtherReadsSame(bytes, more, p.i);
    }
  }

  lemma {:induction false} PairReadsSame(bytes: Bytes, more: Bytes, p: Place)
    requires var r := ReadPair(bytes, p); r.Success? && Inside(bytes, r.value.2)
    ensures ReadPair(bytes + more, p) == ReadPair(bytes, p)
    decreases Left(bytes, p), 1, 0
  {
    ReadsSame(bytes, more, p);
    ReadsSame(bytes, more, ReadItem(bytes, p).value.1);
  }

  lemma {:induction false} PairsReadSame(bytes: Bytes, more: Bytes, p: Place, count: nat, m: map<Number, CborValue>)
    requires var r := ReadPairs(bytes, p, count, m); r.Success? && Inside(bytes, r.value.1)
    ensures ReadPairs(bytes + more, p, count, m) == ReadPairs(bytes, p, count, m)
    decreases Left(bytes, p), 2, count
  {
    if count > 0 {
      PairReadsSame(bytes, more, p);
      var (key, value, next) := ReadPair(bytes, p).value;
      PairsReadSame(bytes, more, next, count - 1, m[key := value]);
    }
  }

  /** Where an encoding was cut off, the reader fails or ends past the end of the buffer. The parser does not
      look at where it ends. */
  lemma CutOffShows(item: Item, k: nat)
    requires WellFormed(item) && k < |Encode(item)|
    ensures var r := ReadItem(Encode(item)[..k], At(0)); r.Success? ==> !Inside(Encode(item)[..k], r.value.1)
  {
    var bytes, rest := Encode(item)[..k], Encode(item)[k..];
    var r := ReadItem(bytes, At(0));
    if r.Success? && Inside(bytes, r.value.1) {
      ReadsSame(bytes, rest, At(0));
      assert bytes + rest == Encode(item);
      ReadsBack(bytes + rest, 0, item);
    }
  }

  // ---------------------------------------------------------------- COSE keys

  datatype Curve = P256 | Ed25519

  datatype PublicKey = PublicKey(curve: Curve, bytes: Bytes)

  function Get(m: map<Number, CborValue>, key: Number): Option<CborValue> {
    if key in m then Some(m[key]) else None
  }

  /** `0x02 | (y[31]! & 1)`: a missing byte counts as zero. */
  function Parity(y: Bytes): byte {
    if |y| > 31 && y[31] % 2 == 1 then 3 else 2
  }

  predicate Shaped(key: PublicKey) {
    match key.curve
    case P256 => |key.bytes| == 33 && (key.bytes[0] == 2 || key.bytes[0] == 3)
    case Ed25519 => |key.bytes| == 32
  }

  /** The key a COSE_Key map stands for (section 7 of RFC 8152; EC2 keys after section 13.1.1 as the
      compressed point of section 2.3.3 of SEC 1, OKP keys after section 13.2). */
  function KeyOf(value: CborValue): (key: Option<PublicKey>)
    ensures key.Some? ==> Shaped(key.value)
  {
    if !value.Map? then None
    else
      var m := value.entries;
      var kty, alg := Get(m, Int(1)), Get(m, Int(3));
      if kty == Some(Num(Int(2))) && alg == Some(Num(Int(-7))) then
        if Get(m, Int(-1)) != Some(Num(Int(1))) then None
        else
          match (Get(m, Int(-2)), Get(m, Int(-3)))
          case (Some(Binary(x)), Some(Binary(y))) =>
            if |x| == 32 then Some(PublicKey(P256, [Parity(y)] + x)) else None
          case _ => None
      else if kty == Some(Num(Int(1))) && alg == Some(Num(Int(-8))) then
        if Get(m, Int(-1)) != Some(Num(Int(6))) then None
        else
          match Get(m, Int(-2))
          case Some(Binary(x)) => if |x| == 32 then Some(PublicKey(Ed25519, x)) else None
          case _ => None
      else None
  }

  /** What the parser makes of a buffer; every reading error means no key. */
  function Parsed(cose: Bytes): (key: Option<PublicKey>)
    ensures key.Some? ==> Shaped(key.value)
  {
    match ReadItem(cose, At(0)) case Success((value, _)) => KeyOf(value) case Failure(_) => None
  }

  method ParseCosePublicKey(cose: Bytes) returns (key: Option<PublicKey>)
    ensures key == Parsed(cose)
  {
    var r := ReadCborItem(cose, At(0));
    if r.Failure? { return None; }
    return KeyOf(r.value.0);
  }

  lemma ParsedIsKeyOf(item: Item, trailing: Bytes)
    requires WellFormed(item)
    ensures Parsed(Encode(item) + trailing) == KeyOf(ValueOf(item))
  {
    var bytes := Encode(item) + trailing;
    assert bytes[0..0 + |Encode(item)|] == Encode(item);
    ReadsBack(bytes, 0, item);
  }

  predicate EntryIs(entries: seq<Pair>, i: int, key: Number, value: CborValue)
    requires WellFormedPairs(entries)
  {
    && 0 <= i < |entries| && WellFormedPair(entries[i]) && KeyNumber(entries[i].key) == key
    && PairValue(entries[i]) == value
  }

  predicate DistinctKeys(entries: seq<Pair>) {
    forall i, j | 0 <= i < j < |entries| :: KeyNumber(entries[i].key) != KeyNumber(entries[j].key)
  }

  lemma {:induction false} CollectKeeps(m: map<Number, CborValue>, entries: seq<Pair>, key: Number)
    requires WellFormedPairs(entries)
    requires forall i | 0 <= i < |entries| :: KeyNumber(entries[i].key) != key
    ensures Get(Collect(m, entries), key) == Get(m, key)
    decreases |entries|
  {
    if entries != [] {
      assert forall i | 0 <= i < |entries| - 1 :: entries[1..][i] == entries[i + 1];
      CollectKeeps(m[KeyNumber(entries[0].key) := PairValue(entries[0])], entries[1..], key);
    }
  }

  /** With distinct keys every entry is found, wherever it stands. */
  lemma {:induction false} CollectFinds(m: map<Number, CborValue>, entries: seq<Pair>, i: nat)
    requires WellFormedPairs(entries)
    requires DistinctKeys(entries) && i < |entries|
    ensures WellFormedPair(entries[i])
    ensures Get(Collect(m, entries), KeyNumber(entries[i].key)) == Some(PairValue(entries[i]))
    decreases |entries|
  {
    var m1 := m[KeyNumber(entries[0].key) := PairValue(entries[0])];
    assert forall j | 0 <= j < |entries| - 1 :: entries[1..][j] == entries[j + 1];
    if i == 0 {
      CollectKeeps(m1, entries[1..], KeyNumber(entries[0].key));
    } else {
      CollectFinds(m1, entries[1..], i - 1);
    }
  }

  predicate Carries(entries: seq<Pair>, key: Number, value: CborValue)
    requires WellFormedPairs(entries)
  {
    exists i | 0 <= i < |entries| :: EntryIs(entries, i, key, value)
  }

  /** With distinct keys the map holds exactly what the entries carry. */
  lemma CarriedExactly(entries: seq<Pair>, key: Number, value: CborValue)
    requires WellFormedPairs(entries)
    requires DistinctKeys(entries)
    ensures Get(Collect(map[], entries), key) == Some(value) <==> Carries(entries, key, value)
  {
    if i :| 0 <= i < |entries| && KeyNumber(entries[i].key) == key {
      CollectFinds(map[], entries, i);
      assert EntryIs(entries, i, key, PairValue(entries[i]));
    } else {
      CollectKeeps(map[], entries, key);
    }
  }

  predicate CarriesParts(entries: seq<Pair>, kty: int, alg: int, curve: int, x: Bytes)
    requires WellFormedPairs(entries)
  {
    && Carries(entries, Int(1), Num(Int(kty))) && Carries(entries, Int(3), Num(Int(alg)))
    && Carries(entries, Int(-1), Num(Int(curve))) && Carries(entries, Int(-2), Binary(x)) && |x| == 32
  }

  /** The entries make up this key. */
  predicate Describes(entries: seq<Pair>, x: Bytes, y: Bytes, key: PublicKey)
    requires WellFormedPairs(entries)
  {
    match key.curve
    case P256 =>
      && CarriesParts(entries, 2, -7, 1, x) && Carries(entries, Int(-3), Binary(y))
      && key.bytes == [Parity(y)] + x
    case Ed25519 => CarriesParts(entries, 1, -8, 6, x) && key.bytes == x
  }

  /** Exactly the keys that the entries describe are parsed, whatever the order and widths of the entries, and
      whatever else they carry. */
  lemma KeysExactly(entries: seq<Pair>, w: Width, trailing: Bytes, key: PublicKey)
    requires WellFormed(MapItem(entries, w))
    requires DistinctKeys(entries)
    ensures Parsed(Encode(MapItem(entries, w)) + trailing) == Some(key) <==>
              exists x, y :: Describes(entries, x, y, key)
  {
    ParsedIsKeyOf(MapItem(entries, w), trailing);
    forall k: Number, v: CborValue
      ensures Get(Collect(map[], entries), k) == Some(v) <==> Carries(entries, k, v)
    {
      CarriedExactly(entries, k, v);
    }
    var m := Collect(map[], entries);
    if KeyOf(Map(m)) == Some(key) {
      var x := Get(m, Int(-2)).value.bytes;
      var y := if key.curve == P256 then Get(m, Int(-3)).value.bytes else [];
      assert Describes(entries, x, y, key);
    }
  }

  /** An EC2 key: x and the parity of y come back, from any order of entries, any widths and any
      further entries. */
  lemma Ec2KeyRecovered(entries: seq<Pair>, w: Width, x: Bytes, y: Bytes, trailing: Bytes)
    requires WellFormed(MapItem(entries, w))
    requires DistinctKeys(entries) && |x| == 32 && |y| == 32
    requires Carries(entries, Int(1), Num(Int(2))) && Carries(entries, Int(3), Num(Int(-7)))
              && Carries(entries, Int(-1), Num(Int(1)))
    requires Carries(entries, Int(-2), Binary(x)) && Carries(entries, Int(-3), Binary(y))
    ensures Parsed(Encode(MapItem(entries, w)) + trailing) ==
              Some(PublicKey(P256, [if y[31] % 2 == 0 then 2 else 3] + x))
  {
    ParsedIsKeyOf(MapItem(entries, w), trailing);
    CarriedExactly(entries, Int(1), Num(Int(2)));
    CarriedExactly(entries, Int(3), Num(Int(-7)));
    CarriedExactly(entries, Int(-1), Num(Int(1)));
    CarriedExactly(entries, Int(-2), Binary(x));
    CarriedExactly(entries, Int(-3), Binary(y));
  }

  lemma OkpKeyRecovered(entries: seq<Pair>, w: Width, x: Bytes, trailing: Bytes)
    requires WellFormed(MapItem(entries, w))
    requires DistinctKeys(entries) && |x| == 32
    requires Carries(entries, Int(1), Num(Int(1))) && Carries(entries, Int(3), Num(Int(-8)))
              && Carries(entries, Int(-1), Num(Int(6)))
    requires Carries(entries, Int(-2), Binary(x))
    ensures Parsed(Encode(MapItem(entries, w)) + trailing) == Some(PublicKey(Ed25519, x))
  {
    ParsedIsKeyOf(MapItem(entries, w), trailing);
    CarriedExactly(entries, Int(1), Num(Int(1)));
    CarriedExactly(entries, Int(3), Num(Int(-8)));
    CarriedExactly(entries, Int(-1), Num(Int(6)));
    CarriedExactly(entries, Int(-2), Binary(x));
  }
}
