/**
 * The two cryptographic collaborators of the authentication flows, kept
 * abstract: the salted password hasher and the signed-token service.
 * Neither is computed; each is a constructor whose equality is what the
 * flows observe.
 */
module Crypto {
  import opened Wrappers

  /** Length of every salt the flows draw (a fresh one per password set). */
  const SaltLength := 32

  /** A salt as the generator hands it out: a string of exactly SaltLength characters. */
  type Salt = s: string | |s| == SaltLength
    witness "00000000000000000000000000000000"

  /**
   * A salted one-way password hash. Equal (password, salt) pairs give equal
   * digests and different pairs give different ones; the flows only ever
   * compare digests, they never take one apart.
   */
  datatype Digest = Hash(password: string, salt: string)

  /** Whether `password` is the one `digest` was made from under `salt`. */
  predicate Verify(password: string, digest: Digest, salt: string)
  {
    digest == Hash(password, salt)
  }

  /** Hashing then verifying with the same password and salt always succeeds. */
  lemma VerifyHash(password: string, salt: string)
    ensures Verify(password, Hash(password, salt), salt)
  {
  }

  /** A digest never verifies a password other than the one it was made from. */
  lemma VerifyRejectsOtherPassword(password: string, other: string, salt: string)
    requires other != password
    ensures !Verify(other, Hash(password, salt), salt)
  {
  }

  /** The same password hashed under two different salts gives two different digests. */
  lemma DistinctSaltsDistinctDigests(password: string, s1: string, s2: string)
    requires s1 != s2
    ensures Hash(password, s1) != Hash(password, s2)
  {
  }

  /** The process-wide signing key the tokens are signed and checked with. */
  const SigningSecret := "secret"

  /** The one signing algorithm used to issue tokens and accepted when decoding. */
  const SigningAlgorithm := "HS256"

  /** The claims a token carries: an optional subject (a user id). */
  datatype Claims = Claims(sub: Option<nat>)

  /**
   * A bearer token as presented by a client: either a structurally sound JWT
   * with the key and algorithm it was signed with, or any other string.
   */
  datatype Token = Jwt(claims: Claims, key: string, alg: string) | Malformed(text: string)

  /**
   * Signature and algorithm check: the claims of a JWT signed with the
   * process key under the accepted algorithm, and nothing for any other token.
   */
  function Decode(t: Token): (r: Option<Claims>)
  {
    match t
    case Jwt(claims, key, alg) =>
      if key == SigningSecret && alg == SigningAlgorithm then Some(claims) else None
    case Malformed(_) => None
  }

  /** Issues a token whose only claim is the subject `sub`; it decodes back to that subject. */
  function Issue(sub: nat): (t: Token)
    ensures Decode(t) == Some(Claims(Some(sub)))
  {
    Jwt(Claims(Some(sub)), SigningSecret, SigningAlgorithm)
  }

  /** A token that does not decode is malformed, or signed with another key, or under another algorithm. */
  lemma DecodeRejects(t: Token)
    ensures Decode(t).None? <==>
      t.Malformed? || t.key != SigningSecret || t.alg != SigningAlgorithm
  {
  }
}
