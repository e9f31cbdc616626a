/**
  The stored password format: the hex-encoded 64-byte key derived from the
  password and the hex text of a 16-byte random salt, a ".", and that salt
  text. The key derivation function (scrypt) is a parameter, a deterministic
  function of the password and the salt text; the salt bytes are an input.
 */
module Credentials {
  import opened Wrappers
  import opened Text

  /** The 64 bytes the key derivation yields. */
  type Key = b: seq<Byte> | |b| == 64 witness seq(64, _ => 0)

  /** The 16 random bytes of a salt. */
  type Salt = b: seq<Byte> | |b| == 16 witness seq(16, _ => 0)

  /** `scrypt(password, saltText, 64)`. */
  type Kdf = (string, string) -> Key

  /** `hashPassword`: the key as hex, ".", the salt as hex. */
  function HashPassword(password: string, salt: Salt, kdf: Kdf): (r: string)
    ensures |r| == 128 + 1 + 32 && r[128] == '.'
    ensures forall i :: 0 <= i < |r| && i != 128 ==> IsHexDigit(r[i])
    ensures r[129..] == HexEncode(salt)
  {
    HexEncode(kdf(password, HexEncode(salt))) + "." + HexEncode(salt)
  }

  /**
    `comparePasswords`: split the stored text at ".", decode the first part
    as hex, derive a key from the supplied password and the second part, and
    compare. None is a thrown error: there is no second part (the salt is
    undefined), or the decoded part and the key differ in length
    (`timingSafeEqual` refuses buffers of different lengths).
   */
  function ComparePasswords(supplied: string, stored: string, kdf: Kdf): (r: Option<bool>)
    ensures r.Some? ==> '.' in stored && |stored| >= 128
  {
    var parts := Split(stored, '.');
    FirstPartPrefix(stored, '.');
    if '.' !in stored then
      SplitNoSeparator(stored, '.');
      None
    else if |parts| < 2 then None
    else
      var hashed := HexDecode(parts[0]);
      var derived := kdf(supplied, parts[1]);
      if |hashed| != |derived| then None else Some(hashed == derived)
  }

  /**
    Against a stored hash, the comparison is exactly "the supplied password
    derives the same key with that salt".
   */
  lemma CompareHashed(supplied: string, password: string, salt: Salt, kdf: Kdf)
    ensures ComparePasswords(supplied, HashPassword(password, salt, kdf), kdf)
         == Some(kdf(supplied, HexEncode(salt)) == kdf(password, HexEncode(salt)))
  {
    var key := kdf(password, HexEncode(salt));
    var k, s := HexEncode(key), HexEncode(salt);
    assert '.' !in k && '.' !in s;
    SplitAtSeparator(k, '.', s);
    SplitNoSeparator(s, '.');
    assert HashPassword(password, salt, kdf) == k + ['.'] + s;
    HexRoundTrip(key);
  }

  /** The password a hash was made from compares equal to it. */
  lemma ComparePasswordsRoundTrip(password: string, salt: Salt, kdf: Kdf)
    ensures ComparePasswords(password, HashPassword(password, salt, kdf), kdf) == Some(true)
  {
    CompareHashed(password, password, salt, kdf);
  }

  /** The first part of a split is a prefix of the text. */
  lemma {:induction false} FirstPartPrefix(s: string, c: char)
    ensures |Split(s, c)[0]| <= |s|
    decreases |s|
  {
    if |s| > 0 {
      FirstPartPrefix(s[1..], c);
    }
  }

  /**
    A stored value that is not a hash (a plain password, say) makes the
    comparison throw: without a "." there is no salt, and a text shorter than
    128 characters cannot hold a 64-byte key.
   */
  lemma NotAHashThrows(supplied: string, stored: string, kdf: Kdf)
    requires '.' !in stored || |stored| < 128
    ensures ComparePasswords(supplied, stored, kdf) == None
  {
  }
}
