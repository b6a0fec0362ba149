/** Salted password digests: `hash_password` and `verify_password`. */
module Passwords {
  import opened Common
  import Hex
  import Utf8

  /** `hashlib.pbkdf2_hmac(hash_name, password, salt, iterations)`, a deterministic key
      derivation whose internals are not modelled. */
  type Pbkdf2 = (string, Bytes, Bytes, nat) -> Bytes

  /** The fixed parameters both `hash_password` and `verify_password` pass to PBKDF2. */
  const HashName := "sha256"
  const Iterations := 100000

  /** The key PBKDF2-HMAC-SHA256 with 100000 rounds derives from the UTF-8 bytes of a
      password and a salt. */
  function DerivedKey(kdf: Pbkdf2, password: string, salt: Bytes): Bytes
  {
    kdf(HashName, Utf8.Encode(password), salt, Iterations)
  }

  /** What `hash_password` returns: the digest and the salt, each as hex text. */
  datatype Hashed = Hashed(digest: string, salt: string)

  /** `hash_password(password, salt)`. The random salt of a call without one is the
      caller's `salt` argument here. Both texts are hex that decodes back to the derived
      key and to the salt. */
  function HashPassword(kdf: Pbkdf2, password: string, salt: Bytes): (h: Hashed)
    ensures Hex.Decode(h.salt) == Some(salt)
    ensures Hex.Decode(h.digest) == Some(DerivedKey(kdf, password, salt))
  {
    Hex.DecodeEncode(salt);
    Hex.DecodeEncode(DerivedKey(kdf, password, salt));
    Hashed(Hex.Encode(DerivedKey(kdf, password, salt)), Hex.Encode(salt))
  }

  /** `verify_password(stored_hash, stored_salt, password)`. A salt text that is not hex
      makes `bytes.fromhex` raise, modelled as `None`. A password is accepted only when
      the stored digest is the hex text of the key re-derived with the stored salt. */
  function VerifyPassword(kdf: Pbkdf2, storedHash: string, storedSalt: string, password: string): (r: Option<bool>)
    ensures r.None? <==> Hex.Decode(storedSalt).None?
    ensures r == Some(true) ==>
      Hex.Decode(storedHash) == Some(DerivedKey(kdf, password, Hex.Decode(storedSalt).value))
  {
    match Hex.Decode(storedSalt)
    case None => None
    case Some(salt) =>
      var key := DerivedKey(kdf, password, salt);
      Hex.DecodeEncode(key);
      Some(Hex.Encode(key) == storedHash)
  }

  /** A password always verifies against the digest and salt `hash_password` made from it. */
  lemma HashThenVerify(kdf: Pbkdf2, password: string, salt: Bytes)
    ensures var h := HashPassword(kdf, password, salt);
      VerifyPassword(kdf, h.digest, h.salt, password) == Some(true)
  {
  }

  /** Another password is rejected against the digest made from a password, provided the
      two passwords' keys do not collide for this salt: the case that a collision-resistant
      PBKDF2 makes all but certain. */
  lemma OtherPasswordRejected(kdf: Pbkdf2, password: string, other: string, salt: Bytes)
    requires Utf8.Encode(other) != Utf8.Encode(password) ==>
      DerivedKey(kdf, other, salt) != DerivedKey(kdf, password, salt)
    requires other != password
    ensures var h := HashPassword(kdf, password, salt);
      VerifyPassword(kdf, h.digest, h.salt, other) == Some(false)
  {
    Hex.DecodeEncode(salt);
    Hex.EncodeInjective(DerivedKey(kdf, other, salt), DerivedKey(kdf, password, salt));
    Utf8.EncodeInjective(other, password);
  }
}
