/** The password digest of the user table: SHA-256 rendered the way
    `hexdigest()` renders it (two lowercase hexadecimal characters per octet),
    and the test that decides whether a stored password already has that shape. */
module PasswordHash {

  /** One octet of a digest. */
  type Byte = b: int | 0 <= b < 256

  /** A SHA-256 digest: exactly 32 octets. */
  type Digest = d: seq<Byte> | |d| == 32 witness seq(32, _ => 0)

  /** SHA-256 of the UTF-8 encoding of a password. Its internals are not part
      of the model: the operations take it as a parameter, and all that the
      model relies on is that it yields 32 octets. */
  type Sha256 = string -> Digest

  predicate IsLowerHexDigit(c: char) {
    '0' <= c <= '9' || 'a' <= c <= 'f'
  }

  /** Whether `s` is a full match of the pattern `[0-9a-f]+`. */
  function FullMatchLowerHex(s: string): (r: bool)
    ensures r <==> |s| > 0 && forall i :: 0 <= i < |s| ==> IsLowerHexDigit(s[i])
  {
    if |s| == 0 then false
    else if |s| == 1 then IsLowerHexDigit(s[0])
    else IsLowerHexDigit(s[0]) && FullMatchLowerHex(s[1..])
  }

  /** `is_hashed`: a stored password counts as a digest when it has 64
      characters that all are lowercase hexadecimal digits. An upper-case
      digit makes it false. */
  function IsHashed(pw: string): (r: bool)
    ensures r <==> |pw| == 64 && forall i :: 0 <= i < |pw| ==> IsLowerHexDigit(pw[i])
  {
    |pw| == 64 && FullMatchLowerHex(pw)
  }

  /** The hexadecimal digit of a nibble, lowercase. */
  function HexChar(n: nat): (c: char)
    requires n < 16
    ensures IsLowerHexDigit(c)
  {
    if n < 10 then ('0' as int + n) as char else ('a' as int + n - 10) as char
  }

  /** `hexdigest()`: each octet becomes its high nibble then its low nibble. */
  function HexDigest(d: seq<Byte>): (s: string)
    ensures |s| == 2 * |d|
    ensures forall i :: 0 <= i < |s| ==> IsLowerHexDigit(s[i])
    ensures forall k :: 0 <= k < |d| ==> s[2 * k] == HexChar(d[k] / 16) && s[2 * k + 1] == HexChar(d[k] % 16)
  {
    if d == [] then []
    else [HexChar(d[0] / 16), HexChar(d[0] % 16)] + HexDigest(d[1..])
  }

  /** `hash_password`: the hex digest of the password's SHA-256. Whatever
      the password, the result is a string that `is_hashed` accepts. */
  function HashPassword(sha: Sha256, password: string): (h: string)
    ensures IsHashed(h)
  {
    HexDigest(sha(password))
  }

  /** Comparing two hex digests as strings, as login does, is the same as
      comparing the digests: distinct digests render differently. */
  lemma HexDigestInjective(a: seq<Byte>, b: seq<Byte>)
    requires HexDigest(a) == HexDigest(b)
    ensures a == b
  {
  }

  /** Two passwords have the same stored form exactly when their SHA-256
      digests agree. */
  lemma SameHashIffSameDigest(sha: Sha256, p: string, q: string)
    ensures HashPassword(sha, p) == HashPassword(sha, q) <==> sha(p) == sha(q)
  {
  }
}
