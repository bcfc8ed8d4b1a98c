/**
 * Requests and responses: the requester keeps a private request, publishes its
 * public half, and the responder answers with a fresh key of its own and the
 * message encrypted under the key both sides can agree on.
 */
module Requests {
  import opened Wrappers
  import opened Octets
  import opened Curves
  import opened Keys
  import opened Cipher

  /** A 16-byte universally unique identifier, drawn at random by the caller. */
  type Uuid = b: Bytes | |b| == 16 witness seq(16, _ => 0)

  /** What the requester keeps to itself. */
  datatype PrivateRequest = PrivateRequest(id: Uuid, key: PrivateKey, description: string)

  /** What the requester publishes. */
  datatype PublicRequest = PublicRequest(id: Uuid, key: PublicKey, description: string)

  /** The responder's answer: its own public key and the encrypted message. */
  datatype Response = Response(id: Uuid, key: PublicKey, data: Bytes)

  datatype Error =
    | CurveAborted(curveError: CurveError) // no curve could be chosen; the program aborts
    | KeyFailed                        // key generation failed
    | CipherFailed(cipherError: Cipher.Error)
    | EncryptFailed(encryptError: Cipher.Error)

  /** The public request: the same identifier and description, and the public half of the key. */
  function Public(ops: KeyOps, r: PrivateRequest): (p: PublicRequest)
    ensures p.id == r.id && p.description == r.description
    ensures p.key == ops.publicOf(r.key)
    ensures ops.Valid() ==> p.key.curve == r.key.curve
  {
    PublicRequest(r.id, ops.publicOf(r.key), r.description)
  }

  /**
   * The responder's side: a fresh key on the request's curve from `seed`, the
   * cipher it shares with the request's key, and the message sealed under the
   * IV `iv` (`None` when no IV could be read). Any failure yields no response.
   */
  function Encode(ops: KeyOps, aes: BlockFunction, req: PublicRequest, data: Bytes, seed: Bytes, iv: Option<Block>): (r: Result<Response, Error>)
    requires ops.Valid()
    ensures ops.generate(req.key.curve, seed).None? ==> r == Failure(KeyFailed)
    ensures (ops.generate(req.key.curve, seed).Some? && ops.ecdh(ops.generate(req.key.curve, seed).value, req.key).None?)
              ==> r == Failure(CipherFailed(SecretFailed))
    ensures r.Success? <==>
              && ops.generate(req.key.curve, seed).Some?
              && ops.ecdh(ops.generate(req.key.curve, seed).value, req.key).Some?
              && iv.Some?
    ensures r.Success? ==>
              && r.value.id == req.id
              && r.value.key == ops.publicOf(ops.generate(req.key.curve, seed).value)
              && r.value.key.curve == req.key.curve
              && |r.value.data| == BlockSize + |data|
              && r.value.data[..BlockSize] == iv.value
              && r.value.data != data
    ensures r.Success? ==>
              r.value.data == Sealed(SharedCipher(ops, aes, ops.generate(req.key.curve, seed).value, req.key).value, iv.value, data)
  {
    match ops.generate(req.key.curve, seed)
    case None => Failure(KeyFailed)
    case Some(eph) =>
      var c := SharedCipher(ops, aes, eph, req.key);
      if c.Failure? then Failure(CipherFailed(c.error))
      else if iv.None? then Failure(EncryptFailed(RandomFailed))
      else Success(Response(req.id, ops.publicOf(eph), Sealed(c.value, iv.value, data)))
  }

  /**
   * The requester's side: the cipher shared by the request's private key and the
   * response's public key, then the response data opened with it. Data shorter
   * than one block makes the source panic once the cipher exists, so that case is
   * excluded.
   */
  function Decode(ops: KeyOps, aes: BlockFunction, r: PrivateRequest, resp: Response): (m: Result<Bytes, Error>)
    requires ops.Valid()
    requires ops.ecdh(r.key, resp.key).Some? ==> |resp.data| >= BlockSize
    ensures m.Failure? <==> ops.ecdh(r.key, resp.key).None?
    ensures m.Failure? ==> m.error == CipherFailed(SecretFailed)
    ensures m.Success? ==> |m.value| == |resp.data| - BlockSize
  {
    var c := SharedCipher(ops, aes, r.key, resp.key);
    if c.Failure? then Failure(CipherFailed(c.error))
    else Success(Opened(c.value, resp.data))
  }

  /** The response's identifier plays no part in decoding. */
  lemma DecodeIgnoresId(ops: KeyOps, aes: BlockFunction, r: PrivateRequest, resp: Response, other: Uuid)
    requires ops.Valid()
    requires ops.ecdh(r.key, resp.key).Some? ==> |resp.data| >= BlockSize
    ensures Decode(ops, aes, r, resp.(id := other)) == Decode(ops, aes, r, resp)
  {
  }

  /**
   * Whatever the message, seed and IV, the holder of the private request recovers
   * the message from any response built for its public request.
   */
  lemma RoundTrip(ops: KeyOps, aes: BlockFunction, r: PrivateRequest, m: Bytes, seed: Bytes, iv: Option<Block>, resp: Response)
    requires ops.Valid()
    requires Encode(ops, aes, Public(ops, r), m, seed, iv) == Success(resp)
    ensures |resp.data| >= BlockSize
    ensures Decode(ops, aes, r, resp) == Success(m)
  {
    var pub := Public(ops, r);
    var eph := ops.generate(pub.key.curve, seed).value;
    assert eph.curve == r.key.curve;
    assert ops.ecdh(eph, ops.publicOf(r.key)) == ops.ecdh(r.key, ops.publicOf(eph));
    var c := SharedCipher(ops, aes, eph, pub.key).value;
    assert SharedCipher(ops, aes, r.key, resp.key) == Success(c);
    assert resp.data == Sealed(c, iv.value, m);
    OpenSealed(c, iv.value, m);
  }

  /**
   * A new private request: the curve from the random byte `curveByte` (`None`
   * when it could not be read), a key on that curve from `seed`, the caller's
   * identifier `id` and the description verbatim.
   */
  function NewRequest(ops: KeyOps, description: string, id: Uuid, curveByte: Option<byte>, seed: Bytes): (r: Result<PrivateRequest, Error>)
    ensures curveByte.None? ==> r == Failure(CurveAborted(RandomReadFailed))
    ensures r.Success? <==> curveByte.Some? && ops.generate(Pick(curveByte.value as nat), seed).Some?
    ensures r.Success? ==> r.value.id == id && r.value.description == description
    ensures r.Success? ==> r.value.key == ops.generate(Pick(curveByte.value as nat), seed).value
    ensures r.Success? && ops.Valid() ==> r.value.key.curve == Pick(curveByte.value as nat)
  {
    match RandomCurve(curveByte)
    case Failure(e) => Failure(CurveAborted(e))
    case Success(c) =>
      RandomCurveTotal(curveByte.value);
      match ops.generate(c, seed)
      case None => Failure(KeyFailed)
      case Some(k) => Success(PrivateRequest(id, k, description))
  }
}
