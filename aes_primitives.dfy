/** The cryptographic primitives the transform takes from OpenSSL, kept abstract.
 *
 *  AES itself and SHA-512 are not modelled: a caller supplies them as total
 *  functions (`Aes`, and a `seq<byte> -> Digest` for the hash).  What is written
 *  out is the cipher-block-chaining mode that `AES_cbc_encrypt` applies on top
 *  of the block cipher, so that the one assumption the round trip needs can be
 *  made at block level (`Inverts`) and the CBC round trip is proved from it.
 */
module AesPrimitives {

  /** uint8_t */
  type byte = x: int | 0 <= x < 256

  function Pow2(n: nat): nat {
    if n == 0 then 1 else 2 * Pow2(n - 1)
  }

  /** Exclusive or of the low n bits of a and b, bit by bit from the least
   *  significant one. */
  function XorBits(a: nat, b: nat, n: nat): (r: nat)
    ensures r < Pow2(n)
    decreases n
  {
    if n == 0 then 0 else (if a % 2 == b % 2 then 0 else 1) + 2 * XorBits(a / 2, b / 2, n - 1)
  }

  /** The low bit and the remaining bits of low + 2 * q.  Stated apart so
   *  that the induction below does not have to rediscover it. */
  lemma LowBitAndRest(low: nat, q: nat)
    requires low < 2
    ensures (low + 2 * q) % 2 == low && (low + 2 * q) / 2 == q
  {
  }

  /** Xoring twice with the same value gives back every value of n bits. */
  lemma {:induction false} XorBitsInvolution(a: nat, b: nat, n: nat)
    requires a < Pow2(n)
    ensures XorBits(XorBits(a, b, n), b, n) == a
    decreases n
  {
    if n > 0 {
      var q := XorBits(a / 2, b / 2, n - 1);
      var low := if a % 2 == b % 2 then 0 else 1;
      LowBitAndRest(low, q);
      assert XorBits(a, b, n) == low + 2 * q;
      assert a / 2 < Pow2(n - 1);
      XorBitsInvolution(a / 2, b / 2, n - 1);
      assert (if low == b % 2 then 0 else 1) == a % 2;
    }
  }

  /** The C operator ^ on two uint8_t values. */
  function XorByte(a: byte, b: byte): byte {
    assert Pow2(8) == 256;
    XorBits(a, b, 8)
  }

  const AesBlockSize: nat := 16
  const Sha512DigestLength: nat := 64

  /** One AES block. */
  type Block = s: seq<byte> | |s| == AesBlockSize witness seq(16, _ => 0)

  /** A SHA-512 digest. */
  type Digest = s: seq<byte> | |s| == Sha512DigestLength witness seq(64, _ => 0)

  /** The three key lengths AES accepts, in bytes. */
  predicate IsAesKeyBytes(n: nat) {
    n == 16 || n == 24 || n == 32
  }

  /** An `AES_KEY` schedule, represented by what it is expanded from.
   *  `Unset` is the all-zero structure left by `calloc` or `memset`;
   *  `EncryptSchedule(k)` is what `AES_set_encrypt_key(k, 8 * |k|, …)` builds,
   *  `DecryptSchedule(k)` what `AES_set_decrypt_key(k, 8 * |k|, …)` builds. */
  datatype AesKey = Unset | EncryptSchedule(userKey: seq<byte>) | DecryptSchedule(userKey: seq<byte>)

  /** `AES_set_encrypt_key` and `AES_set_decrypt_key` read only the first
   *  `bits / 8` bytes of the key they are given. */
  function SetEncryptKey(userKey: seq<byte>, bits: nat): AesKey
    requires bits / 8 <= |userKey|
  {
    EncryptSchedule(userKey[..bits / 8])
  }

  function SetDecryptKey(userKey: seq<byte>, bits: nat): AesKey
    requires bits / 8 <= |userKey|
  {
    DecryptSchedule(userKey[..bits / 8])
  }

  /** Single-block AES: `AES_ecb_encrypt(in, out, key, AES_ENCRYPT)` and
   *  the same call with `AES_DECRYPT`. */
  datatype Aes = Aes(encryptBlock: (AesKey, Block) -> Block, decryptBlock: (AesKey, Block) -> Block)

  /** The hypothesis under which decryption undoes encryption: a block
   *  encrypted under the schedule `AES_set_encrypt_key` builds from a key is
   *  recovered by decrypting under the schedule `AES_set_decrypt_key` builds
   *  from the same key. */
  ghost predicate Inverts(aes: Aes) {
    forall k: seq<byte>, b: Block ::
      IsAesKeyBytes(|k|) ==> aes.decryptBlock(DecryptSchedule(k), aes.encryptBlock(EncryptSchedule(k), b)) == b
  }

  function XorBlock(a: Block, b: Block): (r: Block)
  {
    seq(16, i requires 0 <= i < 16 => XorByte(a[i], b[i]))
  }

  lemma XorBlockInvolution(a: Block, b: Block)
    ensures XorBlock(XorBlock(a, b), b) == a
  {
    var r := XorBlock(XorBlock(a, b), b);
    forall i | 0 <= i < AesBlockSize
      ensures r[i] == a[i]
    {
      assert Pow2(8) == 256;
      XorBitsInvolution(a[i], b[i], 8);
    }
  }

  /** `AES_cbc_encrypt(in, out, |data|, key, iv, AES_ENCRYPT)` on whole blocks:
   *  each plaintext block is xored with the previous ciphertext block (the IV
   *  for the first one) and then encrypted. */
  function CbcEncrypt(aes: Aes, key: AesKey, iv: Block, data: seq<byte>): (r: seq<byte>)
    requires |data| % AesBlockSize == 0
    ensures |r| == |data|
    decreases |data|
  {
    if |data| == 0 then []
    else
      var c := aes.encryptBlock(key, XorBlock(data[..16], iv));
      c + CbcEncrypt(aes, key, c, data[16..])
  }

  /** `AES_cbc_encrypt(in, out, |data|, key, iv, AES_DECRYPT)` on whole blocks:
   *  each ciphertext block is decrypted and xored with the ciphertext block
   *  before it (the IV for the first one). */
  function CbcDecrypt(aes: Aes, key: AesKey, iv: Block, data: seq<byte>): (r: seq<byte>)
    requires |data| % AesBlockSize == 0
    ensures |r| == |data|
    decreases |data|
  {
    if |data| == 0 then []
    else
      var c: Block := data[..16];
      XorBlock(aes.decryptBlock(key, c), iv) + CbcDecrypt(aes, key, c, data[16..])
  }

  /** CBC decryption under the decryption schedule of a key inverts CBC
   *  encryption under the encryption schedule of the same key and the same IV. */
  lemma {:induction false} CbcRoundTrip(aes: Aes, k: seq<byte>, iv: Block, data: seq<byte>)
    requires Inverts(aes) && IsAesKeyBytes(|k|)
    requires |data| % AesBlockSize == 0
    ensures CbcDecrypt(aes, DecryptSchedule(k), iv, CbcEncrypt(aes, EncryptSchedule(k), iv, data)) == data
    decreases |data|
  {
    if |data| != 0 {
      var p: Block := data[..16];
      var c := aes.encryptBlock(EncryptSchedule(k), XorBlock(p, iv));
      var rest := CbcEncrypt(aes, EncryptSchedule(k), c, data[16..]);
      var ct: seq<byte> := c + rest;
      assert CbcEncrypt(aes, EncryptSchedule(k), iv, data) == ct;
      assert ct[..16] == c && ct[16..] == rest;
      assert aes.decryptBlock(DecryptSchedule(k), c) == XorBlock(p, iv);
      XorBlockInvolution(p, iv);
      CbcRoundTrip(aes, k, c, data[16..]);
      assert CbcDecrypt(aes, DecryptSchedule(k), iv, ct) == p + data[16..];
      assert p + data[16..] == data;
    }
  }
}
