/**
 * The password and refresh-secret hasher, abstracted. A stored hash is modelled by the
 * secret it was computed from, so that verification holds exactly for that secret; the
 * per-call salt and the memory-hard function are not modelled. `Malformed` stands for a
 * stored string that is not a valid hash, on which verification answers false instead of
 * throwing.
 */
module Hashing {

  datatype Digest = Argon2(preimage: string) | Malformed(raw: string)

  /** Verification of a candidate against a stored hash; never fails, false on any mismatch. */
  predicate Verify(d: Digest, candidate: string) {
    match d
    case Argon2(p) => p == candidate
    case Malformed(_) => false
  }

  /** Hashing a secret yields a digest that verifies that secret and no other. */
  function Hash(secret: string): (d: Digest)
    ensures Verify(d, secret)
    ensures forall other :: Verify(d, other) ==> other == secret
  {
    Argon2(secret)
  }

  /** Two stored hashes that some common secret verifies. */
  predicate SameSecret(a: Digest, b: Digest) {
    a.Argon2? && b.Argon2? && a.preimage == b.preimage
  }

  /** A stored hash that cannot be parsed verifies nothing; verify never fails loudly. */
  lemma MalformedNeverVerifies(raw: string, x: string)
    ensures !Verify(Malformed(raw), x)
  {
  }

  /** Number of random bytes in a refresh secret; it is sent hex-encoded. */
  const SecretBytes: nat := 64

  predicate IsHexDigit(c: char) {
    '0' <= c <= '9' || 'a' <= c <= 'f'
  }

  /** The shape of a generated refresh secret: 64 random bytes as 128 lower-case hex digits. */
  predicate WellFormedSecret(x: string) {
    |x| == 2 * SecretBytes && forall i :: 0 <= i < |x| ==> IsHexDigit(x[i])
  }

  lemma WellFormedSecretNonEmpty(x: string)
    requires WellFormedSecret(x)
    ensures x != ""
  {
  }
}
