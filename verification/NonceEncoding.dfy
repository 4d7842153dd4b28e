/** Nonces that a base64 encoder produces (section 4 of RFC 4648): for these the rewrite is idempotent. */
module NonceEncoding {
  import opened Collections
  import opened NonceRewrite
  import opened NonceSegments
  import opened NonceIdempotence

  predicate IsDigit(c: char) {
    'a' <= c <= 'z' || 'A' <= c <= 'Z' || '0' <= c <= '9' || c == '+' || c == '/'
  }

  function Digit(n: nat): (c: char)
    requires n < 64
    ensures IsDigit(c) && (c == 't' <==> n == 45)
  {
    if n < 26 then 'A' + n as char
    else if n < 52 then 'a' + (n - 26) as char
    else if n < 62 then '0' + (n - 52) as char
    else if n == 62 then '+' else '/'
  }

  /** Four characters, and before a single padding character a digit with two zero bits, so not a `t`. */
  predicate Group(s: string) {
    |s| == 4 && Base64(s) && (s[3] == '=' ==> s[2] != 't')
  }

  function One(a: nat): (s: string)
    requires a < 256
    ensures Group(s)
  {
    [Digit(a / 4), Digit(a % 4 * 16), '=', '=']
  }

  function Two(a: nat, b: nat): (s: string)
    requires a < 256 && b < 256
    ensures Group(s)
  {
    [Digit(a / 4), Digit(a % 4 * 16 + b / 16), Digit(b % 16 * 4), '=']
  }

  function Three(a: nat, b: nat, c: nat): (s: string)
    requires a < 256 && b < 256 && c < 256
    ensures Group(s)
  {
    [Digit(a / 4), Digit(a % 4 * 16 + b / 16), Digit(b % 16 * 4 + c / 64), Digit(c % 64)]
  }

  /** Three bytes are four digits of six bits; a last group of one or two bytes is padded. */
  function Encode(bytes: seq<bv8>): string {
    if bytes == [] then ""
    else if |bytes| == 1 then One(bytes[0] as nat)
    else if |bytes| == 2 then Two(bytes[0] as nat, bytes[1] as nat)
    else Three(bytes[0] as nat, bytes[1] as nat, bytes[2] as nat) + Encode(bytes[3..])
  }

  predicate PaddedRight(s: string) {
    s == "" || (|s| >= 4 && (s[|s| - 1] == '=' ==> s[|s| - 2] != 't'))
  }

  lemma GroupFirst(group: string, rest: string)
    requires Group(group) && Base64(rest) && PaddedRight(rest)
    ensures Base64(group + rest) && PaddedRight(group + rest)
  {
  }

  lemma {:induction false} EncodePads(bytes: seq<bv8>)
    ensures Base64(Encode(bytes)) && PaddedRight(Encode(bytes))
    decreases |bytes|
  {
    if |bytes| >= 3 {
      EncodePads(bytes[3..]);
      GroupFirst(Three(bytes[0] as nat, bytes[1] as nat, bytes[2] as nat), Encode(bytes[3..]));
    }
  }

  lemma EndsPadded(s: string)
    requires EndsWith(s, "content=")
    ensures |s| >= 8 && s[|s| - 2] == 't' && s[|s| - 1] == '='
  {
    var end := s[|s| - 8..];
    assert end[6] == s[|s| - 2] && end[7] == s[|s| - 1];
  }

  /** The nonces for which a second rewrite may differ do not come out of an encoder. */
  lemma {:induction false} EncodedIsIdempotent(bytes: seq<bv8>)
    ensures Base64(Encode(bytes)) && PATTERNS.Valid()
    ensures forall s | Document(PATTERNS, s) ::
              Rewrite(PATTERNS, Encode(bytes), Rewrite(PATTERNS, Encode(bytes), s)) ==
                  Rewrite(PATTERNS, Encode(bytes), s)
  {
    EncodePads(bytes);
    var nonce := Encode(bytes);
    if EndsWith(nonce, "content=") { EndsPadded(nonce); }
    IdempotentExactly(nonce);
  }
}
