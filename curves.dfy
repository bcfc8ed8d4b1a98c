/**
 * Choosing the elliptic curve for a new request: one random byte, reduced
 * modulo the number of supported curves.
 */
module Curves {
  import opened Wrappers
  import opened Octets

  /** The curve enumeration, in declaration order. */
  datatype Curve = P256 | P384 | P521 | InvalidCurve

  /** A curve a key can actually live on. */
  type NamedCurve = c: Curve | c != InvalidCurve witness P256

  /** The numeric value of each constant; `InvalidCurve` doubles as the number of real curves. */
  function Ordinal(c: Curve): (n: nat)
    ensures n < 4
  {
    match c
    case P256 => 0
    case P384 => 1
    case P521 => 2
    case InvalidCurve => 3
  }

  function FromOrdinal(n: nat): (c: Curve)
    requires n < 4
    ensures Ordinal(c) == n
  {
    if n == 0 then P256 else if n == 1 then P384 else if n == 2 then P521 else InvalidCurve
  }

  lemma OrdinalInjective(a: Curve, b: Curve)
    ensures Ordinal(a) == Ordinal(b) <==> a == b
  {
  }

  datatype CurveError =
    | RandomReadFailed     // no random byte could be read; the program aborts
    | UnreadableByte       // the reduced byte named no curve; the program aborts

  /**
   * `RandomCurve` with the random byte as a parameter (`None` when reading it
   * failed). Both fatal log calls become failures.
   */
  function RandomCurve(random: Option<byte>): (r: Result<Curve, CurveError>)
    ensures random.None? <==> r == Failure(RandomReadFailed)
    ensures r.Success? ==> r.value != InvalidCurve
  {
    match random
    case None => Failure(RandomReadFailed)
    case Some(b) =>
      var c := FromOrdinal(b as nat % Ordinal(InvalidCurve));
      if c == InvalidCurve then Failure(UnreadableByte) else Success(c)
  }

  /** The curve the byte with value `n` selects. */
  function Pick(n: nat): (c: NamedCurve)
    ensures Ordinal(c) == n % 3
  {
    FromOrdinal(n % 3)
  }

  /** Every byte names a curve: the residue is below three, so the second fatal branch is dead. */
  lemma RandomCurveTotal(b: byte)
    ensures RandomCurve(Some(b)) == Success(Pick(b as nat))
  {
  }

  /** How many of the byte values `0 .. n-1` select curve `c`. */
  function Hits(c: Curve, n: nat): (k: nat)
    ensures k <= n
  {
    if n == 0 then 0 else Hits(c, n - 1) + (if Pick(n - 1) == c then 1 else 0)
  }

  /** Three consecutive byte values from a multiple of three select each real curve once. */
  lemma HitsStep(c: Curve, n: nat)
    requires n % 3 == 0
    ensures Hits(c, n + 3) == Hits(c, n) + if c == InvalidCurve then 0 else 1
  {
    assert Ordinal(Pick(n)) == 0 && Ordinal(Pick(n + 1)) == 1 && Ordinal(Pick(n + 2)) == 2;
    OrdinalInjective(Pick(n), c);
    OrdinalInjective(Pick(n + 1), c);
    OrdinalInjective(Pick(n + 2), c);
    assert Hits(c, n + 1) == Hits(c, n) + (if Pick(n) == c then 1 else 0);
    assert Hits(c, n + 2) == Hits(c, n + 1) + (if Pick(n + 1) == c then 1 else 0);
    assert Hits(c, n + 3) == Hits(c, n + 2) + (if Pick(n + 2) == c then 1 else 0);
  }

  lemma {:induction false} HitsPerThree(c: Curve, k: nat)
    ensures Hits(c, 3 * k) == if c == InvalidCurve then 0 else k
  {
    if k > 0 {
      HitsPerThree(c, k - 1);
      HitsStep(c, 3 * (k - 1));
      assert 3 * k == 3 * (k - 1) + 3;
    }
  }

  /**
   * Over all 256 byte values (`RandomCurveTotal` ties `Pick` to the bytes) P-256 is
   * chosen 86 times, P-384 and P-521 85 times each, and the invalid curve never.
   */
  lemma Distribution()
    ensures Hits(P256, 256) == 86 && Hits(P384, 256) == 85 && Hits(P521, 256) == 85
    ensures Hits(InvalidCurve, 256) == 0
  {
    HitsPerThree(P256, 85);
    HitsPerThree(P384, 85);
    HitsPerThree(P521, 85);
    HitsPerThree(InvalidCurve, 85);
    assert Pick(255) == P256;
  }
}
