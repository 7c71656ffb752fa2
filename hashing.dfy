/**
 * Password and client-secret hashing (PasswordHasher, ClientSecretHasher).
 * PBKDF2 is modelled as an injective digest: `Pbkdf2(secret, salt)`;
 * the random salt is a parameter.
 */
module Hashing {
  import opened Wrappers
  import opened Entities

  /** `PasswordHasher.VerifyPassword`: false without a stored salt, else a digest comparison. */
  predicate VerifyPassword(password: string, storedHash: Digest, storedSalt: Option<string>) {
    && storedSalt.Some?
    && |storedSalt.value| > 0
    && storedHash == Pbkdf2(password, storedSalt.value)
  }

  /**
   * `PasswordHasher.HashPassword`: the digest and the salt to store next to it.
   * The salt is the Base64 text of 16 random bytes, so never empty.
   */
  function HashPassword(password: string, salt: string): (r: (Digest, string))
    requires |salt| > 0
    ensures r.1 == salt
    ensures VerifyPassword(password, r.0, Some(r.1))
    ensures forall other :: VerifyPassword(other, r.0, Some(r.1)) ==> other == password
  {
    (Pbkdf2(password, salt), salt)
  }

  /** A user row without a salt (or with an empty one) can never be signed in to. */
  lemma NoSaltNeverVerifies(password: string, storedHash: Digest)
    ensures !VerifyPassword(password, storedHash, None)
    ensures !VerifyPassword(password, storedHash, Some(""))
  {
  }

  /** `ClientSecretHasher.Hash`: the client id serves as the salt. */
  function HashClientSecret(clientSecret: string, clientId: string): (r: Digest)
    ensures r.salt == clientId
    ensures forall other :: other != clientSecret ==> Pbkdf2(other, clientId) != r
  {
    Pbkdf2(clientSecret, clientId)
  }

  /** `ClientSecretHasher.Verify`: recompute under the client id and compare. */
  predicate VerifyClientSecret(clientSecret: string, clientId: string, storedHash: Digest) {
    HashClientSecret(clientSecret, clientId) == storedHash
  }

  /** Verification accepts exactly the secret that was hashed, under the same client id. */
  lemma ClientSecretRoundTrip(secret: string, other: string, clientId: string, otherId: string)
    ensures VerifyClientSecret(secret, clientId, HashClientSecret(secret, clientId))
    ensures VerifyClientSecret(other, otherId, HashClientSecret(secret, clientId)) <==> other == secret && otherId == clientId
  {
  }
}
