/**
 * Elliptic-curve Diffie-Hellman keys, seen from outside: a key knows its curve,
 * and everything else (generation, the public half, the shared secret) is
 * foreign code supplied as function values together with the facts the
 * program relies on.
 */
module Keys {
  import opened Wrappers
  import opened Octets
  import opened Curves

  /** A private scalar on a named curve. */
  datatype PrivateKey = PrivateKey(curve: NamedCurve, scalar: Bytes)

  /** A public point on a named curve. */
  datatype PublicKey = PublicKey(curve: NamedCurve, point: Bytes)

  /** Length in bytes of the shared secret on each curve (the x-coordinate of the shared point). */
  function SecretSize(c: NamedCurve): (n: nat)
    ensures n >= 32
  {
    match c
    case P256 => 32
    case P384 => 48
    case P521 => 66
  }

  /**
   * The key operations of the ECDH library: `generate` draws a key on a curve
   * from the random bytes it is given (`None` when randomness fails),
   * `publicOf` projects the public half, `ecdh` computes the shared secret.
   */
  datatype KeyOps = KeyOps(
    generate: (NamedCurve, Bytes) -> Option<PrivateKey>,
    publicOf: PrivateKey -> PublicKey,
    ecdh: (PrivateKey, PublicKey) -> Option<Bytes>)
  {
    /**
     * What the program relies on: keys stay on their curve; Alice's private key with
     * Bob's public key gives the same secret as Bob's private key with Alice's public
     * key; a secret has the curve's size.
     */
    ghost predicate Valid() {
      && (forall c, seed :: generate(c, seed).Some? ==> generate(c, seed).value.curve == c)
      && (forall k :: publicOf(k).curve == k.curve)
      && (forall a: PrivateKey, b: PrivateKey :: a.curve == b.curve ==> ecdh(a, publicOf(b)) == ecdh(b, publicOf(a)))
      && (forall k, p :: ecdh(k, p).Some? ==> |ecdh(k, p).value| == SecretSize(k.curve))
    }
  }
}
