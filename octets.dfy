/** Byte strings and the byte-wise XOR that the cipher code relies on. */
module Octets {

  type byte = bv8
  type Bytes = seq<byte>

  /** `a` XORed position by position with the equally long `b`. */
  function XorBytes(a: Bytes, b: Bytes): (r: Bytes)
    requires |a| == |b|
    ensures |r| == |a|
    ensures forall i :: 0 <= i < |r| ==> r[i] == a[i] ^ b[i]
  {
    seq(|a|, i requires 0 <= i < |a| => a[i] ^ b[i])
  }

  /** XOR with a fixed pad is its own inverse: the reason OFB decryption undoes encryption. */
  lemma XorInvolution(a: Bytes, pad: Bytes)
    requires |a| == |pad|
    ensures XorBytes(XorBytes(a, pad), pad) == a
  {
    var once := XorBytes(a, pad);
    var twice := XorBytes(once, pad);
    assert forall i :: 0 <= i < |a| ==> twice[i] == a[i];
  }
}
