/**
 * The byte preparation in front of bcrypt (thermal_local/utils.py): a
 * password is encoded as UTF-8 (RFC 3629) and cut to the 72 bytes bcrypt
 * reads. bcrypt itself is a foreign library and enters only as a parameter.
 */
module PasswordBytes {

  newtype Byte = x: int | 0 <= x < 256

  /** BCRYPT_MAX_PASSWORD_BYTES. */
  const MaxPasswordBytes: nat := 72

  /** A UTF-8 continuation byte, 10xxxxxx (RFC 3629, section 3). */
  predicate IsContinuation(b: Byte)
  {
    0x80 <= b < 0xC0
  }

  /** The UTF-8 encoding of one Unicode scalar value (RFC 3629, section 3). */
  function EncodeChar(c: char): (r: seq<Byte>)
    ensures 1 <= |r| <= 4
    ensures |r| == 1 <==> c as int < 0x80
    ensures |r| == 1 ==> r[0] as int == c as int
    ensures |r| > 1 ==> !IsContinuation(r[0]) && r[0] >= 0xC0
    ensures forall i | 1 <= i < |r| :: IsContinuation(r[i])
  {
    var n := c as int;
    if n < 0x80 then
      [n as Byte]
    else if n < 0x800 then
      [(0xC0 + n / 64) as Byte, (0x80 + n % 64) as Byte]
    else if n < 0x10000 then
      [(0xE0 + n / 4096) as Byte, (0x80 + (n / 64) % 64) as Byte, (0x80 + n % 64) as Byte]
    else
      [(0xF0 + n / 262144) as Byte, (0x80 + (n / 4096) % 64) as Byte,
       (0x80 + (n / 64) % 64) as Byte, (0x80 + n % 64) as Byte]
  }

  /** `password.encode("utf-8")`. */
  function Encode(s: string): (r: seq<Byte>)
    ensures |s| <= |r| <= 4 * |s|
    decreases |s|
  {
    if s == [] then [] else EncodeChar(s[0]) + Encode(s[1..])
  }

  /** Encoding distributes over concatenation. */
  lemma {:induction false} EncodeAppend(s: string, t: string)
    ensures Encode(s + t) == Encode(s) + Encode(t)
    decreases |s|
  {
    if s == [] {
      assert s + t == t;
    } else {
      assert (s + t)[0] == s[0] && (s + t)[1..] == s[1..] + t;
      EncodeAppend(s[1..], t);
    }
  }

  /** `_to_bcrypt_bytes` on an already encoded password: at most 72 bytes, always a prefix of its input. */
  function Truncate(raw: seq<Byte>): (r: seq<Byte>)
    ensures |r| <= MaxPasswordBytes
    ensures r <= raw
    ensures |raw| <= MaxPasswordBytes ==> r == raw
    ensures |raw| > MaxPasswordBytes ==> |r| == MaxPasswordBytes
  {
    if |raw| > MaxPasswordBytes then raw[..MaxPasswordBytes] else raw
  }

  /** `_to_bcrypt_bytes(password)`. */
  function ToBcryptBytes(password: string): (r: seq<Byte>)
    ensures |r| <= MaxPasswordBytes
    ensures r <= Encode(password)
  {
    Truncate(Encode(password))
  }

  /** Cutting an already cut byte string changes nothing. */
  lemma TruncateIdempotent(raw: seq<Byte>)
    ensures Truncate(Truncate(raw)) == Truncate(raw)
  {
  }

  /** The result depends only on the first 72 bytes of the encoding. */
  lemma SamePrefixSameBytes(p: string, q: string)
    requires |Encode(p)| >= MaxPasswordBytes && |Encode(q)| >= MaxPasswordBytes
    requires Encode(p)[..MaxPasswordBytes] == Encode(q)[..MaxPasswordBytes]
    ensures ToBcryptBytes(p) == ToBcryptBytes(q)
  {
  }

  /** A password of at most 18 characters (at most 4 bytes each) is never cut. */
  lemma ShortPasswordKept(p: string)
    requires |p| <= MaxPasswordBytes / 4
    ensures ToBcryptBytes(p) == Encode(p)
  {
  }

  /** A password of more than 72 characters is always cut, to exactly 72 bytes. */
  lemma LongPasswordCut(p: string)
    requires |p| > MaxPasswordBytes
    ensures |ToBcryptBytes(p)| == MaxPasswordBytes
    ensures ToBcryptBytes(p) == Encode(p)[..MaxPasswordBytes]
  {
  }

  /**
   * The cut can fall inside a multi-byte character: when 71 bytes precede a
   * two-byte character, only its lead byte survives and the result is not
   * valid UTF-8.
   */
  lemma {:induction false} CutMaySplitCharacter(p: string, c: char, rest: string)
    requires |Encode(p)| == MaxPasswordBytes - 1
    requires 0x80 <= c as int < 0x800
    ensures ToBcryptBytes(p + [c] + rest) == Encode(p) + [EncodeChar(c)[0]]
    ensures !IsContinuation(ToBcryptBytes(p + [c] + rest)[MaxPasswordBytes - 1])
  {
    EncodeAppend(p + [c], rest);
    EncodeAppend(p, [c]);
    assert Encode([c]) == EncodeChar(c) by {
      assert [c][1..] == [];
    }
    var whole := Encode(p) + EncodeChar(c) + Encode(rest);
    assert Encode(p + [c] + rest) == whole;
    assert whole[..MaxPasswordBytes] == Encode(p) + [EncodeChar(c)[0]];
  }

  /** `Hasher.verify_password`, with bcrypt's `checkpw` as a parameter. */
  function VerifyPassword(plain: string, hashed: string, checkpw: (seq<Byte>, seq<Byte>) -> bool): bool
  {
    checkpw(ToBcryptBytes(plain), Encode(hashed))
  }

  /** `Hasher.get_password_hash`, with bcrypt's salted `hashpw` as a parameter. */
  function PasswordHash(password: string, hashpw: seq<Byte> -> string): string
  {
    hashpw(ToBcryptBytes(password))
  }

  /**
   * Whatever bcrypt does, two passwords whose encodings agree on the first
   * 72 bytes get the same hash and pass or fail every check alike.
   */
  lemma {:induction false} LongPasswordsIndistinguishable(p: string, q: string, hashed: string,
                                                          checkpw: (seq<Byte>, seq<Byte>) -> bool,
                                                          hashpw: seq<Byte> -> string)
    requires |Encode(p)| >= MaxPasswordBytes && |Encode(q)| >= MaxPasswordBytes
    requires Encode(p)[..MaxPasswordBytes] == Encode(q)[..MaxPasswordBytes]
    ensures VerifyPassword(p, hashed, checkpw) == VerifyPassword(q, hashed, checkpw)
    ensures PasswordHash(p, hashpw) == PasswordHash(q, hashpw)
  {
    SamePrefixSameBytes(p, q);
  }

  /** A password and its own 72-byte cut are indistinguishable to verification. */
  lemma VerifyAgainstCut(p: string, hashed: string, checkpw: (seq<Byte>, seq<Byte>) -> bool)
    ensures VerifyPassword(p, hashed, checkpw) == checkpw(Truncate(ToBcryptBytes(p)), Encode(hashed))
  {
    TruncateIdempotent(Encode(p));
  }
}
