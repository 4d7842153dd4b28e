/** The Borsh serialisers of packages/better-near-auth: the writer and the wallet state of
    src/passkey.ts, and both NEP-413 serialisers (src/passkey.ts and src/index.ts).
    Strings are taken as their UTF-8 bytes. */
module Borsh {
  import opened Wrappers

  type byte = x: int | 0 <= x < 256
  type Bytes = seq<byte>

  const TWO_32: nat := 0x1_0000_0000
  const NEP413_TAG: nat := 2147484061
  const DEFAULT_TIMEOUT_SECS: nat := 3600

  // ---------------------------------------------------------------- the format

  /** `setUint32(0, value, true)`: four bytes, least significant first. */
  function U32(value: nat): (bytes: Bytes)
    ensures |bytes| == 4
  {
    [value % 256, value / 0x100 % 256, value / 0x1_0000 % 256, value / 0x100_0000 % 256]
  }

  /** `setBigUint64(0, value, true)` */
  function U64(value: nat): (bytes: Bytes)
    ensures |bytes| == 8
  {
    U32(value % TWO_32) + U32(value / TWO_32)
  }

  /** A length-prefixed byte string. */
  function Prefixed(bytes: Bytes): Bytes {
    U32(|bytes|) + bytes
  }

  function WalletState(key: Bytes): Bytes {
    [1] + U32(0) + key + (U32(DEFAULT_TIMEOUT_SECS) + U64(0) + U32(0) + U32(0) + U32(0))
  }

  function StateInit(key: Bytes, factoryId: Bytes): Bytes {
    [0, 1] + (Prefixed(factoryId) + (U32(1) + U32(0) + Prefixed(WalletState(key))))
  }

  function Preimage(message: Bytes, recipient: Bytes, nonce: Bytes): Bytes {
    U32(NEP413_TAG) + (Prefixed(message) + (nonce + (Prefixed(recipient) + [0])))
  }

  /** An absent and an empty callback URL are both written as absent. */
  function CallbackBytes(callbackUrl: Option<Bytes>): Bytes {
    if callbackUrl.Some? && callbackUrl.value != [] then U32(1) + Prefixed(callbackUrl.value) else U32(0)
  }

  function Message(message: Bytes, nonce: Bytes, recipient: Bytes, callbackUrl: Option<Bytes>): Bytes {
    U32(NEP413_TAG) + (Prefixed(message) + (nonce + (Prefixed(recipient) + CallbackBytes(callbackUrl))))
  }

  // ---------------------------------------------------------------- reading it back

  function ReadU32(bytes: Bytes): Option<(nat, Bytes)> {
    if |bytes| < 4 then None
    else
      var a: nat, b: nat, c: nat, d: nat := bytes[0], bytes[1], bytes[2], bytes[3];
      Some((a + b * 0x100 + c * 0x1_0000 + d * 0x100_0000, bytes[4..]))
  }

  function ReadFixed(bytes: Bytes, n: nat): Option<(Bytes, Bytes)> {
    if |bytes| < n then None else Some((bytes[..n], bytes[n..]))
  }

  function ReadPrefixed(bytes: Bytes): Option<(Bytes, Bytes)> {
    match ReadU32(bytes)
    case None => None
    case Some((n, rest)) => ReadFixed(rest, n)
  }

  lemma FourDigits(n: nat)
    requires n < TWO_32
    ensures n % 256 + n / 0x100 % 256 * 0x100 + n / 0x1_0000 % 256 * 0x1_0000 + n / 0x100_0000 % 256 * 0x100_0000 == n
  {
    var p, q, r := n / 0x100, n / 0x1_0000, n / 0x100_0000;
    assert q == p / 0x100;
    assert r == q / 0x100;
    assert r < 256;
  }

  lemma U32Bytes(value: nat, rest: Bytes)
    requires value < TWO_32
    ensures var b := U32(value) + rest;
            && |b| >= 4 && b[4..] == rest && b[0] == value % 256 && b[1] == value / 0x100 % 256
            && b[2] == value / 0x1_0000 % 256 && b[3] == value / 0x100_0000 % 256
  {
  }

  lemma U32ReadsBack(value: nat, rest: Bytes)
    requires value < TWO_32
    ensures ReadU32(U32(value) + rest) == Some((value, rest))
  {
    U32Bytes(value, rest);
    FourDigits(value);
  }

  lemma FixedReadsBack(bytes: Bytes, rest: Bytes)
    ensures ReadFixed(bytes + rest, |bytes|) == Some((bytes, rest))
  {
  }

  lemma PrefixedReadsBack(bytes: Bytes, rest: Bytes)
    requires |bytes| < TWO_32
    ensures ReadPrefixed(Prefixed(bytes) + rest) == Some((bytes, rest))
  {
    assert Prefixed(bytes) + rest == U32(|bytes|) + (bytes + rest);
    U32ReadsBack(|bytes|, bytes + rest);
    FixedReadsBack(bytes, rest);
  }

  // ---------------------------------------------------------------- readers, and what the bytes determine

  /** Reads what both NEP-413 layouts share: message, nonce and recipient, and what follows them. */
  function ReadSigned(bytes: Bytes): Option<(Bytes, Bytes, Bytes, Bytes)> {
    match ReadU32(bytes)
    case None => None
    case Some((tag, a)) =>
      match ReadPrefixed(a)
      case None => None
      case Some((message, b)) =>
        match ReadFixed(b, 32)
        case None => None
        case Some((nonce, c)) =>
          match ReadPrefixed(c)
          case None => None
          case Some((recipient, d)) => if tag == NEP413_TAG then Some((message, nonce, recipient, d)) else None
  }

  lemma SignedReadsBack(message: Bytes, nonce: Bytes, recipient: Bytes, rest: Bytes)
    requires |message| < TWO_32 && |nonce| == 32 && |recipient| < TWO_32
    ensures ReadSigned(U32(NEP413_TAG) + (Prefixed(message) + (nonce + (Prefixed(recipient) + rest))))
         == Some((message, nonce, recipient, rest))
  {
    var d := Prefixed(recipient) + rest;
    U32ReadsBack(NEP413_TAG, Prefixed(message) + (nonce + d));
    PrefixedReadsBack(message, nonce + d);
    FixedReadsBack(nonce, d);
    PrefixedReadsBack(recipient, rest);
  }

  /** The bytes behind the signing challenge determine everything that is signed. */
  lemma PreimageInjective(m1: Bytes, r1: Bytes, n1: Bytes, m2: Bytes, r2: Bytes, n2: Bytes)
    requires |m1| < TWO_32 && |r1| < TWO_32 && |n1| == 32
    requires |m2| < TWO_32 && |r2| < TWO_32 && |n2| == 32
    ensures Preimage(m1, r1, n1) == Preimage(m2, r2, n2) <==> m1 == m2 && r1 == r2 && n1 == n2
  {
    SignedReadsBack(m1, n1, r1, [0]);
    SignedReadsBack(m2, n2, r2, [0]);
  }

  /** An empty callback URL counts as none. */
  function Normalised(callbackUrl: Option<Bytes>): Option<Bytes> {
    if callbackUrl == Some([]) then None else callbackUrl
  }

  function ReadCallback(bytes: Bytes): Option<Bytes> {
    match ReadU32(bytes)
    case Some((1, rest)) => (match ReadPrefixed(rest) case Some((url, _)) => Some(url) case None => None)
    case _ => None
  }

  lemma CallbackReadsBack(callbackUrl: Option<Bytes>)
    requires callbackUrl.Some? ==> |callbackUrl.value| < TWO_32
    ensures ReadCallback(CallbackBytes(callbackUrl)) == Normalised(callbackUrl)
  {
    match Normalised(callbackUrl)
    case None =>
      U32ReadsBack(0, []);
      assert U32(0) + [] == U32(0);
    case Some(url) =>
      U32ReadsBack(1, Prefixed(url));
      PrefixedReadsBack(url, []);
      assert Prefixed(url) + [] == Prefixed(url);
  }

  /** The message bytes of index.ts determine everything but an empty callback URL, which they drop. */
  lemma MessageInjective(m1: Bytes, n1: Bytes, r1: Bytes, c1: Option<Bytes>,
                         m2: Bytes, n2: Bytes, r2: Bytes, c2: Option<Bytes>)
    requires |m1| < TWO_32 && |r1| < TWO_32 && |n1| == 32 && (c1.Some? ==> |c1.value| < TWO_32)
    requires |m2| < TWO_32 && |r2| < TWO_32 && |n2| == 32 && (c2.Some? ==> |c2.value| < TWO_32)
    ensures Message(m1, n1, r1, c1) == Message(m2, n2, r2, c2)
       <==> m1 == m2 && n1 == n2 && r1 == r2 && Normalised(c1) == Normalised(c2)
  {
    SignedReadsBack(m1, n1, r1, CallbackBytes(c1));
    SignedReadsBack(m2, n2, r2, CallbackBytes(c2));
    CallbackReadsBack(c1);
    CallbackReadsBack(c2);
  }

  /** The two serialisers never agree: the callback option has a one-byte tag in passkey.ts and a
      four-byte tag in index.ts. */
  lemma SerialisersDiffer(m1: Bytes, r1: Bytes, n1: Bytes, m2: Bytes, n2: Bytes, r2: Bytes, c2: Option<Bytes>)
    requires |m1| < TWO_32 && |r1| < TWO_32 && |n1| == 32
    requires |m2| < TWO_32 && |r2| < TWO_32 && |n2| == 32
    ensures Preimage(m1, r1, n1) != Message(m2, n2, r2, c2)
    ensures Message(m1, n1, r1, None) == Preimage(m1, r1, n1) + [0, 0, 0]
  {
    SignedReadsBack(m1, n1, r1, [0]);
    SignedReadsBack(m2, n2, r2, CallbackBytes(c2));
    Regroup(U32(NEP413_TAG), Prefixed(m1), n1, Prefixed(r1), [0]);
    Regroup(U32(NEP413_TAG), Prefixed(m1), n1, Prefixed(r1), U32(0));
    ExtendTail(U32(NEP413_TAG) + Prefixed(m1) + n1 + Prefixed(r1));
  }

  lemma ExtendTail(front: Bytes)
    ensures front + U32(0) == front + [0] + [0, 0, 0]
  {
  }

  lemma Regroup(a: Bytes, b: Bytes, c: Bytes, d: Bytes, e: Bytes)
    ensures a + (b + (c + (d + e))) == a + b + c + d + e
  {
  }

  function ReadStateInit(bytes: Bytes): Option<(Bytes, Bytes)> {
    match ReadFixed(bytes, 2)
    case None => None
    case Some((_, a)) =>
      match ReadPrefixed(a)
      case None => None
      case Some((factoryId, b)) =>
        match ReadFixed(b, 8)
        case None => None
        case Some((_, c)) =>
          match ReadPrefixed(c)
          case None => None
          case Some((state, _)) => if |state| < 29 then None else Some((factoryId, state[5..|state| - 24]))
  }

  lemma WalletStateHolds(key: Bytes)
    ensures var state := WalletState(key); |state| == |key| + 29 && state[5..|state| - 24] == key
  {
    var tail := U32(DEFAULT_TIMEOUT_SECS) + U64(0) + U32(0) + U32(0) + U32(0);
    assert |tail| == 24 && WalletState(key) == [1] + U32(0) + key + tail && |[1] + U32(0)| == 5;
  }

  lemma StateInitReadsBack(key: Bytes, factoryId: Bytes)
    requires |key| + 29 < TWO_32 && |factoryId| < TWO_32
    ensures ReadStateInit(StateInit(key, factoryId)) == Some((factoryId, key))
  {
    var state := WalletState(key);
    var b := U32(1) + U32(0) + Prefixed(state);
    WalletStateHolds(key);
    FixedReadsBack([0, 1], Prefixed(factoryId) + b);
    PrefixedReadsBack(factoryId, b);
    FixedReadsBack(U32(1) + U32(0), Prefixed(state));
    assert Prefixed(state) + [] == Prefixed(state);
    PrefixedReadsBack(state, []);
  }

  /** The bytes a wallet account id is hashed from determine the factory and the key. */
  lemma StateInitInjective(k1: Bytes, f1: Bytes, k2: Bytes, f2: Bytes)
    requires |k1| + 29 < TWO_32 && |f1| < TWO_32 && |k2| + 29 < TWO_32 && |f2| < TWO_32
    ensures StateInit(k1, f1) == StateInit(k2, f2) <==> k1 == k2 && f1 == f2
  {
    StateInitReadsBack(k1, f1);
    StateInitReadsBack(k2, f2);
  }

  // ---------------------------------------------------------------- the writer

  function Flatten(parts: seq<Bytes>): Bytes {
    if parts == [] then [] else parts[0] + Flatten(parts[1..])
  }

  lemma {:induction false} FlattenSnoc(parts: seq<Bytes>, last: Bytes)
    ensures Flatten(parts + [last]) == Flatten(parts) + last
  {
    if parts == [] {
      assert parts + [last] == [last] && [last][1..] == [];
    } else {
      assert (parts + [last])[1..] == parts[1..] + [last];
      FlattenSnoc(parts[1..], last);
    }
  }

  lemma FlattenUpTo(parts: seq<Bytes>, i: nat)
    requires i < |parts|
    ensures Flatten(parts[..i + 1]) == Flatten(parts[..i]) + parts[i]
  {
    assert parts[..i + 1] == parts[..i] + [parts[i]];
    FlattenSnoc(parts[..i], parts[i]);
  }

  lemma {:induction false} FlattenGrows(parts: seq<Bytes>, i: nat)
    requires i <= |parts|
    ensures |Flatten(parts[..i])| <= |Flatten(parts)|
    decreases |parts| - i
  {
    if i == |parts| {
      assert parts[..i] == parts;
    } else {
      FlattenUpTo(parts, i);
      FlattenGrows(parts, i + 1);
    }
  }

  /** `out.set(part, offset)` */
  method SetBytes(out: array<byte>, part: Bytes, offset: nat)
    requires offset + |part| <= out.Length
    modifies out
    ensures out[..] == old(out[..offset]) + part + old(out[offset + |part|..])
  {
    for k := 0 to |part|
      invariant forall i | 0 <= i < out.Length ::
        out[i] == if offset <= i < offset + k then part[i - offset] else old(out[i])
    {
      out[offset + k] := part[k];
    }
  }

  /** The two buffer-filling loops of the sources (`toBytes` and `concatUint8Arrays`). */
  method ConcatBytes(parts: seq<Bytes>) returns (out: array<byte>)
    ensures fresh(out) && out[..] == Flatten(parts)
  {
    var total := 0;
    for i := 0 to |parts|
      invariant total == |Flatten(parts[..i])|
    {
      FlattenUpTo(parts, i);
      total := total + |parts[i]|;
    }
    assert parts[..|parts|] == parts;
    out := new byte[total](_ => 0);
    var offset := 0;
    for i := 0 to |parts|
      invariant offset == |Flatten(parts[..i])| && out.Length == |Flatten(parts)|
      invariant offset <= out.Length && out[..offset] == Flatten(parts[..i])
    {
      FlattenUpTo(parts, i);
      FlattenGrows(parts, i + 1);
      ghost var before := out[..offset];
      SetBytes(out, parts[i], offset);
      offset := offset + |parts[i]|;
      assert out[..offset] == before + parts[i];
    }
    assert out[..offset] == out[..];
  }

  class BorshWriter {
    var parts: seq<Bytes>

    ghost function Contents(): Bytes
      reads this
    {
      Flatten(parts)
    }

    constructor ()
      ensures Contents() == []
    {
      parts := [];
    }

    method WriteU8(value: int)
      modifies this
      ensures Contents() == old(Contents()) + [value % 256]
    {
      FlattenSnoc(parts, [value % 256]);
      parts := parts + [[value % 256]];
    }

    method WriteU32(value: nat)
      modifies this
      ensures Contents() == old(Contents()) + U32(value)
    {
      FlattenSnoc(parts, U32(value));
      parts := parts + [U32(value)];
    }

    method WriteU64(value: nat)
      modifies this
      ensures Contents() == old(Contents()) + U64(value)
    {
      FlattenSnoc(parts, U64(value));
      parts := parts + [U64(value)];
    }

    method WriteFixedBytes(bytes: Bytes)
      modifies this
      ensures Contents() == old(Contents()) + bytes
    {
      FlattenSnoc(parts, bytes);
      parts := parts + [bytes];
    }

    method WriteBytes(bytes: Bytes)
      modifies this
      ensures Contents() == old(Contents()) + Prefixed(bytes)
    {
      WriteU32(|bytes|);
      FlattenSnoc(parts, bytes);
      parts := parts + [bytes];
    }

    method ToBytes() returns (out: array<byte>)
      ensures fresh(out) && out[..] == Contents()
    {
      out := ConcatBytes(parts);
    }
  }

  /** The writer's calls, one after the other, give the format. */
  lemma StateInitInOrder(f: Bytes, n: Bytes, state: Bytes)
    ensures [] + [0] + [1] + f + U32(1) + U32(0) + n + state == [0, 1] + (f + (U32(1) + U32(0) + (n + state)))
  {
  }

  lemma WalletStateInOrder(key: Bytes)
    ensures [] + [1] + U32(0) + key + U32(DEFAULT_TIMEOUT_SECS) + U64(0) + U32(0) + U32(0) + U32(0) == WalletState(key)
  {
    var a, b, c, d := U32(DEFAULT_TIMEOUT_SECS), U64(0), U32(0), [1] + U32(0) + key;
    assert [] + [1] + U32(0) + key == d;
    assert d + (a + b + c + c + c) == d + a + b + c + c + c;
  }

  method SerializeDefaultWalletState(key: Bytes) returns (out: array<byte>)
    ensures out[..] == WalletState(key)
  {
    WalletStateInOrder(key);
    var w := new BorshWriter();
    w.WriteU8(1);
    w.WriteU32(0);
    w.WriteFixedBytes(key);
    w.WriteU32(DEFAULT_TIMEOUT_SECS);
    w.WriteU64(0);
    w.WriteU32(0);
    w.WriteU32(0);
    w.WriteU32(0);
    out := w.ToBytes();
  }

  method SerializeDefaultStateInit(key: Bytes, factoryId: Bytes) returns (out: array<byte>)
    ensures out[..] == StateInit(key, factoryId)
  {
    var w := new BorshWriter();
    w.WriteU8(0);
    w.WriteU8(1);
    w.WriteBytes(factoryId);
    var state := SerializeDefaultWalletState(key);
    w.WriteU32(1);
    w.WriteU32(0);
    w.WriteU32(state.Length);
    w.WriteFixedBytes(state[..]);
    StateInitInOrder(Prefixed(factoryId), U32(state.Length), state[..]);
    out := w.ToBytes();
  }

  datatype NonceError = WrongLength(length: nat)

  lemma PreimageInOrder(tag: Bytes, m: Bytes, n: Bytes, r: Bytes)
    ensures [] + tag + m + n + r + [0] == tag + (m + (n + (r + [0])))
  {
  }

  /** The bytes whose hash is the signing challenge; any other nonce length is refused. */
  method Nep413Preimage(message: Bytes, recipient: Bytes, nonce: Bytes) returns (r: Result<Bytes, NonceError>)
    ensures r == if |nonce| == 32 then Success(Preimage(message, recipient, nonce)) else Failure(WrongLength(|nonce|))
  {
    if |nonce| != 32 { return Failure(WrongLength(|nonce|)); }
    PreimageInOrder(U32(NEP413_TAG), Prefixed(message), nonce, Prefixed(recipient));
    var w := new BorshWriter();
    w.WriteU32(NEP413_TAG);
    w.WriteBytes(message);
    w.WriteFixedBytes(nonce);
    w.WriteBytes(recipient);
    w.WriteU8(0);
    var out := w.ToBytes();
    r := Success(out[..]);
  }

  method SerializeNep413Message(message: Bytes, nonce: Bytes, recipient: Bytes, callbackUrl: Option<Bytes>)
      returns (r: Result<Bytes, NonceError>)
    ensures r == if |nonce| == 32 then Success(Message(message, nonce, recipient, callbackUrl))
                 else Failure(WrongLength(|nonce|))
  {
    if |nonce| != 32 { return Failure(WrongLength(|nonce|)); }
    var callback := CallbackBytes(callbackUrl);
    var parts := [U32(NEP413_TAG), Prefixed(message), nonce, Prefixed(recipient), callback];
    var out := ConcatBytes(parts);
    FlattenFive(U32(NEP413_TAG), Prefixed(message), nonce, Prefixed(recipient), callback);
    r := Success(out[..]);
  }

  lemma FlattenFive(a: Bytes, b: Bytes, c: Bytes, d: Bytes, e: Bytes)
    ensures Flatten([a, b, c, d, e]) == a + (b + (c + (d + e)))
  {
    assert Flatten([e]) == e + [] == e;
    FlattenCons(d, [e]);
    FlattenCons(c, [d, e]);
    FlattenCons(b, [c, d, e]);
    FlattenCons(a, [b, c, d, e]);
    assert [d] + [e] == [d, e] && [c] + [d, e] == [c, d, e];
    assert [b] + [c, d, e] == [b, c, d, e] && [a] + [b, c, d, e] == [a, b, c, d, e];
  }

  lemma FlattenCons(a: Bytes, rest: seq<Bytes>)
    ensures Flatten([a] + rest) == a + Flatten(rest)
  {
    assert ([a] + rest)[1..] == rest;
  }
}
