/** Password hashing through passlib's bcrypt context (`pwd_context`), as a
    symbolic term: a hash records its salt and the key bcrypt actually
    consumes, which is the first 72 octets of the UTF-8 password. The model
    states what `verify` accepts and nothing about cryptographic strength. */
module Hasher {
  import Utf8

  /** bcrypt's key-length ceiling, in octets. */
  const MaxKeyBytes: nat := 72

  datatype PasswordHash = Bcrypt(salt: string, key: seq<Utf8.Byte>)

  /** The octets of `p` that bcrypt uses. */
  function KeyOf(p: string): (k: seq<Utf8.Byte>)
    ensures |k| <= MaxKeyBytes
    ensures |k| == if Utf8.ByteLength(p) <= MaxKeyBytes then Utf8.ByteLength(p) else MaxKeyBytes
  {
    Utf8.EncodeLength(p);
    var e := Utf8.Encode(p);
    if |e| <= MaxKeyBytes then e else e[..MaxKeyBytes]
  }

  /** `pwd_context.hash(p)` with the salt it drew. */
  function Hash(p: string, salt: string): PasswordHash
  {
    Bcrypt(salt, KeyOf(p))
  }

  /** `pwd_context.verify(p, h)`. */
  function Verify(p: string, h: PasswordHash): bool
  {
    KeyOf(p) == h.key
  }

  /** A password verifies against its own hash, whatever the salt. */
  lemma VerifyOwnHash(p: string, salt: string)
    ensures Verify(p, Hash(p, salt))
  {
  }

  /** Under the ceiling the hash pins the password down: a password shorter
      than 72 octets verifies against exactly one password's hash. */
  lemma VerifyExact(p: string, q: string, salt: string)
    requires Utf8.ByteLength(p) < MaxKeyBytes
    ensures Verify(q, Hash(p, salt)) <==> q == p
  {
    Utf8.EncodeLength(p);
    Utf8.EncodeLength(q);
    if Verify(q, Hash(p, salt)) {
      assert |KeyOf(q)| == |KeyOf(p)| < MaxKeyBytes;
      assert Utf8.Encode(q) == Utf8.Encode(p);
      Utf8.EncodeInjective(q, p);
    }
  }

  /** Two passwords that both fit in 72 octets verify against each other's
      hash only when they are equal. */
  lemma VerifyExactWithinCeiling(p: string, q: string, salt: string)
    requires Utf8.ByteLength(p) <= MaxKeyBytes && Utf8.ByteLength(q) <= MaxKeyBytes
    ensures Verify(q, Hash(p, salt)) <==> q == p
  {
    Utf8.EncodeLength(p);
    Utf8.EncodeLength(q);
    if Verify(q, Hash(p, salt)) {
      Utf8.EncodeInjective(q, p);
    }
  }

  /** Beyond the ceiling bcrypt ignores the rest: any password that extends
      a 72-octet password verifies against its hash. */
  lemma ExtensionVerifies(p: string, suffix: string, salt: string)
    requires Utf8.ByteLength(p) == MaxKeyBytes
    ensures Verify(p + suffix, Hash(p, salt))
  {
    Utf8.EncodeAppend(p, suffix);
    Utf8.EncodeLength(p);
    Utf8.EncodeLength(p + suffix);
    Utf8.ByteLengthAppend(p, suffix);
    assert Utf8.Encode(p + suffix)[..MaxKeyBytes] == Utf8.Encode(p);
  }
}
