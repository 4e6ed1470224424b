/** The foreign libraries the controllers call, reduced to what the
    controllers rely on:
    - bcrypt: a password is stored as a digest; `compare` accepts exactly the
      password the digest was made from;
    - jsonwebtoken: `sign` wraps a claim set with issued-at and expiry times,
      in seconds, `expiresIn` after the issue time;
    - crypto/Buffer: four random bytes rendered as lowercase hexadecimal. */
module Collaborators {

  // ---------------------------------------------------------------- bcrypt

  /** A bcrypt digest. The model's hash is injective; salt and cost are not modelled. */
  datatype Digest = Bcrypt(secret: string)

  function Hash(password: string): Digest
  {
    Bcrypt(password)
  }

  /** `bcrypt.compare(candidate, digest)` */
  predicate Compare(candidate: string, digest: Digest)
  {
    Hash(candidate) == digest
  }

  lemma CompareAcceptsOnlyTheHashedPassword(password: string, candidate: string)
    ensures Compare(candidate, Hash(password)) <==> candidate == password
  {
  }

  // ---------------------------------------------------------- jsonwebtoken

  /** The two payload shapes the controllers sign: `{ user: { id, email } }`
      and `{ admin: { id, email } }`. */
  datatype Claims = UserClaims(id: nat, email: string) | AdminClaims(id: nat, email: string)

  /** The `expiresIn` option: a number is seconds, a string such as '1h' is a span. */
  datatype ExpiresIn = Seconds(n: nat) | Hours(h: nat)

  function TtlSeconds(e: ExpiresIn): (s: nat)
    ensures e.Seconds? ==> s == e.n
    ensures e.Hours? ==> s == 3600 * e.h
  {
    match e
    case Seconds(n) => n
    case Hours(h) => 3600 * h
  }

  /** A signed token: the claims with `iat` and `exp` in whole seconds. */
  datatype Token = Token(claims: Claims, iat: int, exp: int)

  /** `jwt.sign(claims, secret, { expiresIn })` at wall-clock time `nowMs`
      (UTC milliseconds); `iat` is the current time rounded down to seconds. */
  function Sign(claims: Claims, expiresIn: ExpiresIn, nowMs: int): (t: Token)
    ensures t.claims == claims
    ensures t.exp - t.iat == TtlSeconds(expiresIn)
    ensures t.iat * 1000 <= nowMs < t.iat * 1000 + 1000
  {
    var iat := nowMs / 1000;
    Token(claims, iat, iat + TtlSeconds(expiresIn))
  }

  // --------------------------------------------------------- crypto / Buffer

  type Byte = b: int | 0 <= b < 256

  predicate IsHexDigit(c: char)
  {
    '0' <= c <= '9' || 'a' <= c <= 'f'
  }

  /** The lowercase hexadecimal digit for a nibble. */
  function HexDigit(n: nat): (c: char)
    requires n < 16
    ensures IsHexDigit(c)
  {
    if n < 10 then ('0' as int + n) as char else ('a' as int + n - 10) as char
  }

  /** The value of a lowercase hexadecimal digit. */
  function DigitValue(c: char): (n: nat)
    requires IsHexDigit(c)
    ensures n < 16 && HexDigit(n) == c
  {
    if c <= '9' then c as int - '0' as int else c as int - 'a' as int + 10
  }

  /** `buf.toString('hex')`: two lowercase digits per byte, high nibble first. */
  function ToHex(bytes: seq<Byte>): (s: string)
    ensures |s| == 2 * |bytes|
    ensures forall i :: 0 <= i < |s| ==> IsHexDigit(s[i])
  {
    if bytes == [] then ""
    else [HexDigit(bytes[0] / 16), HexDigit(bytes[0] % 16)] + ToHex(bytes[1..])
  }

  /** Reads back the bytes of an even-length lowercase hexadecimal string. */
  function FromHex(s: string): (bytes: seq<Byte>)
    requires |s| % 2 == 0
    requires forall i :: 0 <= i < |s| ==> IsHexDigit(s[i])
    ensures |bytes| * 2 == |s|
  {
    if s == [] then []
    else [16 * DigitValue(s[0]) + DigitValue(s[1])] + FromHex(s[2..])
  }

  /** The hexadecimal rendering loses nothing: the bytes can be read back. */
  lemma {:induction false} FromHexOfToHex(bytes: seq<Byte>)
    ensures FromHex(ToHex(bytes)) == bytes
  {
    if bytes != [] {
      var b := bytes[0];
      var s := ToHex(bytes);
      assert s == [HexDigit(b / 16), HexDigit(b % 16)] + ToHex(bytes[1..]);
      assert s[2..] == ToHex(bytes[1..]);
      DigitIsInverse(b / 16);
      DigitIsInverse(b % 16);
      FromHexOfToHex(bytes[1..]);
    }
  }

  lemma DigitIsInverse(n: nat)
    requires n < 16
    ensures DigitValue(HexDigit(n)) == n
  {
  }

  /** Distinct random bytes give distinct codes. */
  lemma ToHexInjective(a: seq<Byte>, b: seq<Byte>)
    requires ToHex(a) == ToHex(b)
    ensures a == b
  {
    FromHexOfToHex(a);
    FromHexOfToHex(b);
  }
}
