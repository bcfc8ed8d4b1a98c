/**
 * The symmetric layer: a 32-byte AES key folded out of the ECDH secret, and
 * AES in output-feedback mode (section 6.4 of NIST SP 800-38A) with the IV
 * sent in front of the ciphertext.
 */
module Cipher {
  import opened Wrappers
  import opened Octets
  import opened Keys

  /** Length of the derived AES key: AES-256. */
  const KeySize: nat := 32

  /** The AES block length, which is also the IV length. */
  const BlockSize: nat := 16

  type Block = b: Bytes | |b| == BlockSize witness seq(16, _ => 0)

  /** AES encryption of one block under a key (FIPS 197); foreign code. */
  type BlockFunction = (Bytes, Block) -> Block

  datatype Error =
    | SecretFailed          // key agreement failed
    | BadKeySize(size: nat) // `aes.NewCipher` rejected the key length
    | RandomFailed          // no random IV could be read

  /** The `cipher.Block` that `aes.NewCipher` returns: the block function bound to a key. */
  datatype BlockCipher = BlockCipher(aes: BlockFunction, key: Bytes)

  /** `aes.NewCipher`: accepts keys of 16, 24 or 32 bytes only. */
  function NewCipher(aes: BlockFunction, key: Bytes): (r: Result<BlockCipher, Error>)
    ensures r.Success? <==> |key| == 16 || |key| == 24 || |key| == 32
    ensures r.Success? ==> r.value.key == key && r.value.aes == aes
    ensures r.Failure? ==> r.error == BadKeySize(|key|)
  {
    if |key| == 16 || |key| == 24 || |key| == 32 then Success(BlockCipher(aes, key))
    else Failure(BadKeySize(|key|))
  }

  // ---------------------------------------------------------------- key derivation

  function Pow2(k: nat): (p: nat)
    ensures p >= 1
  {
    if k == 0 then 1 else 2 * Pow2(k - 1)
  }

  /** `s` written `n` times in a row. */
  function Repeat(s: Bytes, n: nat): (r: Bytes)
    ensures |r| == |s| * n
  {
    if n == 0 then [] else s + Repeat(s, n - 1)
  }

  /** The number of doublings a secret of length `n` goes through. */
  function Doublings(n: nat): nat
    requires n > 0
    decreases KeySize - n
  {
    if n >= KeySize then 0 else 1 + Doublings(2 * n)
  }

  /** The secret after the doubling loop: appended to itself until it is at least a key long. */
  function Doubled(s: Bytes): (d: Bytes)
    requires |s| > 0
    ensures |d| >= KeySize
    decreases KeySize - |s|
  {
    if |s| >= KeySize then s else Doubled(s + s)
  }

  lemma {:induction false} RepeatTwice(s: Bytes, m: nat)
    ensures Repeat(s + s, m) == Repeat(s, 2 * m)
  {
    if m > 0 {
      RepeatTwice(s, m - 1);
      assert Repeat(s, 2 * m) == s + (s + Repeat(s, 2 * (m - 1)));
    }
  }

  /**
   * The doubling loop yields the secret repeated 2^k times for the least k that
   * reaches the key length.
   */
  lemma {:induction false} DoubledIsRepetition(s: Bytes)
    requires |s| > 0
    ensures Doubled(s) == Repeat(s, Pow2(Doublings(|s|)))
    ensures |s| * Pow2(Doublings(|s|)) >= KeySize
    ensures Doublings(|s|) > 0 ==> |s| * Pow2(Doublings(|s|) - 1) < KeySize
    decreases KeySize - |s|
  {
    var n := |s|;
    if n >= KeySize {
      assert Repeat(s, 1) == s + [];
    } else {
      var t := s + s;
      DoubledIsRepetition(t);
      var k := Doublings(2 * n);
      assert Doublings(n) == k + 1;
      RepeatTwice(s, Pow2(k));
      assert Pow2(k + 1) == 2 * Pow2(k);
      assert n * Pow2(k + 1) == (2 * n) * Pow2(k) by {
        MulShift(n, Pow2(k));
      }
      if k > 0 {
        assert Pow2(k) == 2 * Pow2(k - 1);
        assert n * Pow2(k) == (2 * n) * Pow2(k - 1) by {
          MulShift(n, Pow2(k - 1));
        }
      }
    }
  }

  lemma MulShift(n: nat, p: nat)
    ensures n * (2 * p) == (2 * n) * p
  {
  }

  /** The XOR of every byte of `s` whose position is `j` modulo the key length. */
  function SlotXor(s: Bytes, j: nat): byte
  {
    if s == [] then 0
    else SlotXor(s[..|s| - 1], j) ^ (if (|s| - 1) % KeySize == j then s[|s| - 1] else 0)
  }

  /** The key `cipherFromKeys` derives from a non-empty secret. */
  function DerivedKey(secret: Bytes): (key: Bytes)
    requires |secret| > 0
    ensures |key| == KeySize
  {
    var s := Doubled(secret);
    seq(KeySize, j requires 0 <= j < KeySize => SlotXor(s, j))
  }

  lemma {:induction false} SlotXorShort(s: Bytes, j: nat)
    requires |s| <= KeySize && j < KeySize
    ensures SlotXor(s, j) == if j < |s| then s[j] else 0
  {
    if s != [] {
      var init := s[..|s| - 1];
      SlotXorShort(init, j);
      if j < |init| {
        assert init[j] == s[j];
      }
    }
  }

  /** One more byte of the secret changes only the slot it falls into. */
  lemma SlotXorStep(s: Bytes, i: nat)
    requires i < |s|
    ensures forall j :: SlotXor(s[..i + 1], j) == SlotXor(s[..i], j) ^ (if i % KeySize == j then s[i] else 0)
  {
    assert s[..i + 1][..i] == s[..i];
  }

  /** A secret of exactly 32 bytes, the P-256 case, is the key itself. */
  lemma ExactSecretIsKey(s: Bytes)
    requires |s| == KeySize
    ensures DerivedKey(s) == s
  {
    forall j | 0 <= j < KeySize ensures DerivedKey(s)[j] == s[j] {
      SlotXorShort(s, j);
    }
  }

  /**
   * `cipherFromKeys`, key part: double the secret until it is at least 32 bytes,
   * then XOR byte `i` into slot `i mod 32` of a zeroed key.
   */
  method DeriveKey(secret: Bytes) returns (k: Bytes)
    requires |secret| > 0
    ensures k == DerivedKey(secret)
  {
    var s := secret;
    while |s| < KeySize
      invariant |s| > 0 && Doubled(s) == Doubled(secret)
      decreases KeySize - |s|
    {
      s := s + s;
    }
    var key := new byte[KeySize](_ => 0);
    var i := 0;
    while i < |s|
      invariant 0 <= i <= |s|
      invariant forall j :: 0 <= j < KeySize ==> key[j] == SlotXor(s[..i], j)
    {
      SlotXorStep(s, i);
      key[i % KeySize] := key[i % KeySize] ^ s[i];
      i := i + 1;
    }
    assert s[..i] == s;
    k := key[..];
  }

  /** The block cipher both ends derive from one side's private key and the other's public key. */
  function SharedCipher(ops: KeyOps, aes: BlockFunction, priv: PrivateKey, pub: PublicKey): (r: Result<BlockCipher, Error>)
    requires ops.Valid()
    ensures r.Failure? <==> ops.ecdh(priv, pub).None?
    ensures r.Failure? ==> r.error == SecretFailed
    ensures r.Success? ==> r.value == BlockCipher(aes, DerivedKey(ops.ecdh(priv, pub).value))
  {
    match ops.ecdh(priv, pub)
    case None => Failure(SecretFailed)
    case Some(secret) => NewCipher(aes, DerivedKey(secret))
  }

  /** `cipherFromKeys`: shared secret, derived key, AES block cipher. */
  method CipherFromKeys(ops: KeyOps, aes: BlockFunction, priv: PrivateKey, pub: PublicKey) returns (r: Result<BlockCipher, Error>)
    requires ops.Valid()
    ensures r == SharedCipher(ops, aes, priv, pub)
  {
    var secret := ops.ecdh(priv, pub);
    if secret.None? {
      return Failure(SecretFailed);
    }
    var key := DeriveKey(secret.value);
    r := NewCipher(aes, key);
  }

  // ---------------------------------------------------------------- output feedback mode

  function EncryptBlock(c: BlockCipher, b: Block): Block {
    c.aes(c.key, b)
  }

  /**
   * The first `n` bytes of the OFB keystream from `iv`: the IV encrypted, that
   * block encrypted, and so on.
   */
  function Keystream(c: BlockCipher, iv: Block, n: nat): (ks: Bytes)
    ensures |ks| == n
    decreases n
  {
    if n == 0 then []
    else
      var o := EncryptBlock(c, iv);
      if n <= BlockSize then o[..n] else o + Keystream(c, o, n - BlockSize)
  }

  /** The wire form `encrypt` produces: the IV, then the data XORed with the keystream. */
  function Sealed(c: BlockCipher, iv: Block, data: Bytes): (out: Bytes)
    ensures |out| == BlockSize + |data| && out[..BlockSize] == iv
  {
    iv + XorBytes(data, Keystream(c, iv, |data|))
  }

  /** What `decrypt` recovers: the IV is the first block, the rest is XORed with its keystream. */
  function Opened(c: BlockCipher, data: Bytes): (plain: Bytes)
    requires |data| >= BlockSize
    ensures |plain| == |data| - BlockSize
  {
    var iv: Block := data[..BlockSize];
    XorBytes(data[BlockSize..], Keystream(c, iv, |data| - BlockSize))
  }

  /** Decryption undoes encryption under the same block cipher, whatever the IV. */
  lemma OpenSealed(c: BlockCipher, iv: Block, data: Bytes)
    ensures Opened(c, Sealed(c, iv, data)) == data
  {
    var out := Sealed(c, iv, data);
    assert out[BlockSize..] == XorBytes(data, Keystream(c, iv, |data|));
    XorInvolution(data, Keystream(c, iv, |data|));
  }

  /**
   * The stream copy both directions share: `data` XORed byte by byte with the
   * keystream `ks`, written after what the buffer already holds.
   */
  method StreamXor(buffer: Bytes, data: Bytes, ks: Bytes) returns (out: Bytes)
    requires |ks| == |data|
    ensures out == buffer + XorBytes(data, ks)
  {
    out := buffer;
    var i := 0;
    while i < |data|
      invariant 0 <= i <= |data|
      invariant |out| == |buffer| + i && out[..|buffer|] == buffer
      invariant forall k :: 0 <= k < i ==> out[|buffer| + k] == data[k] ^ ks[k]
    {
      out := out + [data[i] ^ ks[i]];
      i := i + 1;
    }
    var x := XorBytes(data, ks);
    assert forall k :: 0 <= k < |data| ==> out[|buffer| + k] == x[k];
    assert out == buffer + x;
  }

  /**
   * `encrypt`: write a random IV, then stream the data through the OFB keystream
   * into the same buffer. `random` is the IV read from the random source, `None`
   * when that read fails.
   */
  method Encrypt(data: Bytes, c: BlockCipher, random: Option<Block>) returns (r: Result<Bytes, Error>)
    ensures random.None? ==> r == Failure(RandomFailed)
    ensures random.Some? ==> r == Success(Sealed(c, random.value, data))
  {
    if random.None? {
      return Failure(RandomFailed);
    }
    var iv := random.value;
    var out := StreamXor(iv, data, Keystream(c, iv, |data|));
    return Success(out);
  }

  /**
   * `decrypt`: the first block is the IV, the remainder is streamed through the
   * keystream it seeds. Shorter input than one block makes the source panic at
   * the slice, so it is excluded here.
   */
  method Decrypt(data: Bytes, c: BlockCipher) returns (plain: Bytes)
    requires |data| >= BlockSize
    ensures plain == Opened(c, data)
  {
    var iv: Block := data[..BlockSize];
    var body := data[BlockSize..];
    plain := StreamXor([], body, Keystream(c, iv, |body|));
    assert [] + XorBytes(body, Keystream(c, iv, |body|)) == Opened(c, data);
  }
}
