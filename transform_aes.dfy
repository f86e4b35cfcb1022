/** The AES-CBC packet transform of n2n (transform_aes.c).
 *
 *  Wire packet: [V|SSSS|IIIIIIII|ciphertext], a version byte, a 4-byte
 *  security-association number (always 0), the 8-byte IV seed in clear, then
 *  the CBC encryption of nonce(4) ++ payload ++ padding, whose last byte
 *  counts the padding bytes (1..16).
 *
 *  The pure functions below say what each C function computes; the class
 *  `TransopAes` is the private state `transop_aes_t`, and its methods do what
 *  the C functions do, step by step on arrays, proved against those functions.
 */
module TransformAes {
  import opened AesPrimitives
  import opened Buffers

  const TransformVersion: byte := 1      // N2N_AES_TRANSFORM_VERSION
  const IvecSize: nat := 32              // N2N_AES_IVEC_SIZE

  const Aes256KeyBytes: nat := 32
  const Aes192KeyBytes: nat := 24
  const Aes128KeyBytes: nat := 16

  // Clear-text preamble.
  const VerSize: nat := 1
  const SaSize: nat := 4
  const IvSeedSize: nat := 8
  const PreambleSize: nat := VerSize + SaSize + IvSeedSize

  // Encrypted preamble.
  const NonceSize: nat := 4

  /** N2N_PKT_BUF_SIZE, the size of the assembly buffers (from n2n.h). */
  const PktBufSize: nat := 2048

  /** size_t arithmetic wraps modulo 2^64. */
  const SizeTModulus: nat := 0x1_0000_0000_0000_0000

  type SizeT = n: nat | n < SizeTModulus

  // ---------------------------------------------------------------- key size

  /** aes_best_keysize: the largest AES key length the secret's length
   *  reaches, and at least AES-128. */
  function BestKeySize(numBytes: nat): (r: nat)
    ensures IsAesKeyBytes(r)
    ensures r <= numBytes || r == Aes128KeyBytes
    ensures forall k: nat :: IsAesKeyBytes(k) && k <= numBytes ==> k <= r
  {
    if numBytes >= Aes256KeyBytes then Aes256KeyBytes
    else if numBytes >= Aes192KeyBytes then Aes192KeyBytes
    else Aes128KeyBytes
  }

  // ---------------------------------------------------------- key derivation

  /** struct sha512_keybuf laid over a SHA-512 digest. */
  datatype KeyBuf = KeyBuf(encDecKey: seq<byte>, ivEncKey: seq<byte>, ivExtVal: seq<byte>)

  /** The three fields of sha512_keybuf are consecutive, disjoint and cover
   *  the whole digest. */
  function KeyBufOf(d: Digest): (kb: KeyBuf)
    ensures |kb.encDecKey| == Aes256KeyBytes
    ensures |kb.ivEncKey| == Aes128KeyBytes && |kb.ivExtVal| == Aes128KeyBytes
    ensures kb.encDecKey + kb.ivEncKey + kb.ivExtVal == d
  {
    assert d[..32] + d[32..48] + d[48..] == d;
    KeyBuf(d[..32], d[32..48], d[48..])
  }

  /** The key material held in transop_aes_t. */
  datatype KeyMaterial = KeyMaterial(encKey: AesKey, decKey: AesKey, ivEncKey: AesKey, ivExtVal: seq<byte>)

  /** The CBC encryption and decryption schedules come from one AES key. */
  predicate Paired(km: KeyMaterial) {
    km.encKey.EncryptSchedule? && km.decKey.DecryptSchedule? &&
    km.encKey.userKey == km.decKey.userKey && IsAesKeyBytes(|km.encKey.userKey|)
  }

  /** What setup_aes_key derives from a secret: the CBC key is the first
   *  BestKeySize(|secret|) bytes of the digest, the IV key bytes 32..47 and
   *  the IV extension bytes 48..63. */
  function DerivedKeys(sha512: seq<byte> -> Digest, secret: seq<byte>): (km: KeyMaterial)
    ensures Paired(km) && |km.ivExtVal| == Aes128KeyBytes
    ensures km.encKey.userKey == sha512(secret)[..BestKeySize(|secret|)]
    ensures km.ivEncKey == EncryptSchedule(sha512(secret)[32..48])
    ensures km.ivExtVal == sha512(secret)[48..]
  {
    var d := sha512(secret);
    var kb := KeyBufOf(d);
    var bits := 8 * BestKeySize(|secret|);
    assert kb.encDecKey == d[..32] && kb.ivEncKey == d[32..48] && kb.ivExtVal == d[48..] by {
      assert d == kb.encDecKey + kb.ivEncKey + kb.ivExtVal;
    }
    assert kb.ivEncKey[..8 * Aes128KeyBytes / 8] == kb.ivEncKey;
    KeyMaterial(SetEncryptKey(kb.encDecKey, bits), SetDecryptKey(kb.encDecKey, bits),
                SetEncryptKey(kb.ivEncKey, 8 * Aes128KeyBytes), kb.ivExtVal)
  }

  // -------------------------------------------------------------------- IV

  /** iv_full in set_aes_cbc_iv: eight bytes of the extension value, then the
   *  eight bytes of the seed. */
  function IvFull(ivExtVal: seq<byte>, ivSeed: seq<byte>): Block
    requires |ivExtVal| >= IvSeedSize && |ivSeed| == IvSeedSize
  {
    ivExtVal[..IvSeedSize] + ivSeed
  }

  /** The CBC IV of a packet: iv_full encrypted under the IV key. */
  function CbcIv(aes: Aes, km: KeyMaterial, ivSeed: seq<byte>): Block
    requires |km.ivExtVal| == Aes128KeyBytes && |ivSeed| == IvSeedSize
  {
    aes.encryptBlock(km.ivEncKey, IvFull(km.ivExtVal, ivSeed))
  }

  // ---------------------------------------------------------------- encode

  /** len2 in transop_encode_aes: the next multiple of the block size
   *  strictly above len, so that 1 to 16 bytes of padding are added. */
  function PaddedLen(len: nat): (len2: nat)
    ensures len2 % AesBlockSize == 0
    ensures len < len2 <= len + AesBlockSize
  {
    (len / AesBlockSize + 1) * AesBlockSize
  }

  /** The plaintext that is CBC-encrypted: nonce, payload, zero padding, and
   *  a last byte holding the number of padding bytes. */
  function Assembly(nonce: seq<byte>, payload: seq<byte>): seq<byte>
    requires |nonce| == NonceSize
  {
    var len := NonceSize + |payload|;
    var len2 := PaddedLen(len);
    nonce + payload + seq(len2 - len - 1, _ => 0) + [(len2 - len) as byte]
  }

  /** The clear-text preamble: version, SA number 0, seed. */
  function Preamble(ivSeed: seq<byte>): seq<byte>
    requires |ivSeed| == IvSeedSize
  {
    [TransformVersion, 0, 0, 0, 0] + ivSeed
  }

  /** The packet transop_encode_aes emits for a payload. */
  function WirePacket(aes: Aes, km: KeyMaterial, ivSeed: seq<byte>, nonce: seq<byte>, payload: seq<byte>): seq<byte>
    requires |km.ivExtVal| == Aes128KeyBytes && |ivSeed| == IvSeedSize && |nonce| == NonceSize
  {
    Preamble(ivSeed) + CbcEncrypt(aes, km.encKey, CbcIv(aes, km, ivSeed), Assembly(nonce, payload))
  }

  /** The two size checks transop_encode_aes makes before it writes anything. */
  predicate EncodeAccepts(inLen: nat, outLen: nat) {
    inLen + NonceSize <= PktBufSize && inLen + NonceSize + PreambleSize <= outLen
  }

  // ---------------------------------------------------------------- decode

  function SizeSub(a: nat, b: nat): nat {
    (a - b) % SizeTModulus
  }

  /** The length check of transop_decode_aes, with its size_t subtraction. */
  predicate DecodeLengthOk(inLen: nat) {
    SizeSub(inLen, PreambleSize) <= PktBufSize && inLen >= PreambleSize + NonceSize
  }

  /** What transop_decode_aes does with a packet: drop it (return 0), reject its
   *  padding byte (return in_len - 13 without writing the output), or deliver
   *  a payload (return its length, after copying it to the output). */
  datatype DecodeOutcome = Rejected | PaddingRejected(len: nat) | Decoded(payload: seq<byte>)

  function ReturnedLength(o: DecodeOutcome): nat {
    match o
    case Rejected => 0
    case PaddingRejected(len) => len
    case Decoded(payload) => |payload|
  }

  function DecodeSpec(aes: Aes, km: KeyMaterial, packet: seq<byte>): DecodeOutcome
    requires |km.ivExtVal| == Aes128KeyBytes
  {
    if !DecodeLengthOk(|packet|) then Rejected
    else if packet[0] != TransformVersion then Rejected
    else
      var len := |packet| - PreambleSize;
      if len % AesBlockSize != 0 then Rejected
      else
        var ivSeed := packet[VerSize + SaSize..PreambleSize];
        Unpad(CbcDecrypt(aes, km.decKey, CbcIv(aes, km, ivSeed), packet[PreambleSize..]))
  }

  /** The padding check of transop_decode_aes on the decrypted assembly: the
   *  last byte counts the padding, and nonce and padding are stripped when
   *  they fit in the assembly. */
  function Unpad(plain: seq<byte>): DecodeOutcome
    requires |plain| > 0
  {
    var len := |plain|;
    var padding := plain[len - 1] as nat;
    if len >= padding + NonceSize then Decoded(plain[NonceSize..len - padding])
    else PaddingRejected(len)
  }

  /** An array that holds the nonce, then the payload, then zeros, with the
   *  padding count at index PaddedLen - 1, starts with Assembly(nonce, payload). */
  lemma AssemblyFilled(a: seq<byte>, nonce: seq<byte>, payload: seq<byte>)
    requires |nonce| == NonceSize
    requires PaddedLen(NonceSize + |payload|) <= |a|
    requires a[..NonceSize] == nonce
    requires a[NonceSize..NonceSize + |payload|] == payload
    requires forall k :: NonceSize + |payload| <= k < PaddedLen(NonceSize + |payload|) - 1 ==> a[k] == 0
    requires a[PaddedLen(NonceSize + |payload|) - 1] as int == PaddedLen(NonceSize + |payload|) - (NonceSize + |payload|)
    ensures a[..PaddedLen(NonceSize + |payload|)] == Assembly(nonce, payload)
  {
    var len := NonceSize + |payload|;
    var len2 := PaddedLen(len);
    var zeros: seq<byte> := seq(len2 - len - 1, _ => 0);
    assert a[len..len2 - 1] == zeros;
    assert a[..len2] == a[..NonceSize] + a[NonceSize..len] + a[len..len2 - 1] + [a[len2 - 1]];
  }

  /** The encode_uint8, encode_uint32 and encode_buf calls of
   *  transop_encode_aes, writing through an advancing index. */
  method EncodePreamble(outbuf: array<byte>, ivSeed: seq<byte>)
    requires |ivSeed| == IvSeedSize && PreambleSize <= outbuf.Length
    modifies outbuf
    ensures outbuf[..PreambleSize] == Preamble(ivSeed)
    ensures outbuf[PreambleSize..] == old(outbuf[PreambleSize..])
  {
    var idx := 0;
    // encode_uint8: the format version
    outbuf[idx] := TransformVersion;
    idx := idx + VerSize;
    // encode_uint32: the SA number, always 0
    Store(outbuf, idx, [0, 0, 0, 0]);
    idx := idx + SaSize;
    // encode_buf: the IV seed
    Store(outbuf, idx, ivSeed);
    idx := idx + IvSeedSize;
    assert outbuf[..PreambleSize] == Preamble(ivSeed);
  }

  /** The assembly of transop_encode_aes: a zeroed buffer, the nonce, the
   *  payload, and the padding count written at assembly[len2 - 1]. */
  method FillAssembly(nonce: seq<byte>, inbuf: array<byte>, inLen: nat) returns (assembly: array<byte>, len2: nat)
    requires |nonce| == NonceSize && inLen <= inbuf.Length
    requires PaddedLen(inLen + NonceSize) <= PktBufSize
    ensures fresh(assembly) && assembly.Length == PktBufSize
    ensures len2 == PaddedLen(inLen + NonceSize)
    ensures assembly[..len2] == Assembly(nonce, inbuf[..inLen])
    ensures forall k :: len2 <= k < assembly.Length ==> assembly[k] == 0
  {
    var len := inLen + NonceSize;
    assembly := new byte[PktBufSize](_ => 0);
    Store(assembly, 0, nonce);
    Store(assembly, NonceSize, inbuf[..inLen]);
    assert assembly[..NonceSize] == nonce;
    assert forall k :: len <= k < PktBufSize ==> assembly[k] == 0;

    len2 := (len / AesBlockSize + 1) * AesBlockSize;
    assert len2 == PaddedLen(len);
    var padding := (len2 - len) as byte;
    ghost var before := assembly[..];
    assembly[len2 - 1] := padding;
    assert assembly[..len2 - 1] == before[..len2 - 1];
    AssemblyFilled(assembly[..], nonce, inbuf[..inLen]);
  }

  /** The padding check and the copy to the output of transop_decode_aes,
   *  on the first len bytes of the decrypted assembly. */
  method StripPadding(assembly: array<byte>, len0: nat, outbuf: array<byte>) returns (len: int)
    requires 0 < len0 <= assembly.Length && assembly != outbuf
    requires Unpad(assembly[..len0]).Decoded? ==> |Unpad(assembly[..len0]).payload| <= outbuf.Length
    modifies outbuf
    ensures var o := Unpad(assembly[..len0]);
      len == ReturnedLength(o) &&
      if o.Decoded? then outbuf[..len] == o.payload && outbuf[len..] == old(outbuf[len..])
      else outbuf[..] == old(outbuf[..])
  {
    len := len0;
    // the pad count is the last decrypted byte
    var padding := assembly[len - 1];
    if len >= padding as int + NonceSize {
      len := len - padding as int;
      len := len - NonceSize;
      // step over the nonce
      assert assembly[NonceSize..NonceSize + len] == assembly[..len0][NonceSize..len0 - padding as int];
      Store(outbuf, 0, assembly[NonceSize..NonceSize + len]);
      assert outbuf[len..] == old(outbuf[len..]);
    }
  }

  // ------------------------------------------------------------ the object

  /** transop_aes_t: the key material of one transform instance. */
  class TransopAes {
    var encKey: AesKey
    var decKey: AesKey
    var ivEncKey: AesKey
    const ivExtVal: array<byte>

    ghost predicate Valid() {
      ivExtVal.Length == Aes128KeyBytes
    }

    ghost function Material(): (km: KeyMaterial)
      reads this, ivExtVal
    {
      KeyMaterial(encKey, decKey, ivEncKey, ivExtVal[..])
    }

    /** The zeroed structure calloc returns in n2n_transop_aes_cbc_init. */
    constructor ()
      ensures Valid() && fresh(ivExtVal)
      ensures encKey == Unset && decKey == Unset && ivEncKey == Unset
      ensures ivExtVal[..] == seq(Aes128KeyBytes, _ => 0)
    {
      encKey, decKey, ivEncKey := Unset, Unset, Unset;
      ivExtVal := new byte[Aes128KeyBytes](_ => 0);
    }

    /** setup_aes_key: hash the secret, split the digest, load the key schedules. */
    method SetupAesKey(sha512: seq<byte> -> Digest, key: array<byte>, keySize: nat) returns (r: int)
      requires Valid() && keySize <= key.Length && key != ivExtVal
      modifies this, ivExtVal
      ensures Valid() && r == 0
      ensures Material() == DerivedKeys(sha512, key[..keySize])
    {
      // reset every key schedule and iv_ext_val
      encKey, decKey, ivEncKey := Unset, Unset, Unset;
      Store(ivExtVal, 0, seq(Aes128KeyBytes, _ => 0));

      var keysizeBytes := BestKeySize(keySize);
      var keysizeBits := 8 * keysizeBytes;
      var keybuf := KeyBufOf(sha512(key[..keySize]));

      encKey := SetEncryptKey(keybuf.encDecKey, keysizeBits);
      decKey := SetDecryptKey(keybuf.encDecKey, keysizeBits);
      ivEncKey := SetEncryptKey(keybuf.ivEncKey, |keybuf.ivEncKey| * 8);
      Store(ivExtVal, 0, keybuf.ivExtVal);
      assert ivExtVal[..] == keybuf.ivExtVal;
      r := 0;
    }

    /** set_aes_cbc_iv: writes the packet's CBC IV into the first block of ivec. */
    method SetAesCbcIv(aes: Aes, ivec: array<byte>, ivSeed: seq<byte>)
      requires Valid() && ivec.Length == IvecSize && |ivSeed| == IvSeedSize
      modifies ivec
      ensures ivec[..AesBlockSize] == CbcIv(aes, Material(), ivSeed)
      ensures ivec[AesBlockSize..] == old(ivec[AesBlockSize..])
    {
      var ivFull := new byte[AesBlockSize];
      Store(ivFull, 0, ivExtVal[..IvSeedSize]);
      Store(ivFull, IvSeedSize, ivSeed);
      assert ivFull[..] == IvFull(ivExtVal[..], ivSeed);
      Store(ivec, 0, aes.encryptBlock(ivEncKey, ivFull[..]));
      assert ivec[AesBlockSize..] == old(ivec[AesBlockSize..]);
    }

    /** transop_encode_aes.  The seed and the nonce that the C code draws from
     *  rand() are parameters, given as the bytes memcpy takes from them. */
    method EncodeAes(aes: Aes, outbuf: array<byte>, outLen: SizeT, inbuf: array<byte>, inLen: SizeT,
                     ivSeed: seq<byte>, nonce: seq<byte>) returns (len2: int)
      requires Valid()
      requires inLen <= inbuf.Length && |ivSeed| == IvSeedSize && |nonce| == NonceSize
      requires outbuf != inbuf && outbuf != ivExtVal
      // assembly[len2 - 1] and the CBC input stay inside the assembly buffer
      requires EncodeAccepts(inLen, outLen) ==> PaddedLen(inLen + NonceSize) <= PktBufSize
      // the whole packet fits the output buffer (out_len alone does not ensure it)
      requires EncodeAccepts(inLen, outLen) ==> PreambleSize + PaddedLen(inLen + NonceSize) <= outbuf.Length
      modifies outbuf
      ensures !EncodeAccepts(inLen, outLen) ==> len2 == -1 && outbuf[..] == old(outbuf[..])
      ensures EncodeAccepts(inLen, outLen) ==>
        var packet := WirePacket(aes, Material(), ivSeed, nonce, inbuf[..inLen]);
        len2 == |packet| && outbuf[..len2] == packet && outbuf[len2..] == old(outbuf[len2..])
    {
      len2 := -1;
      if inLen + NonceSize <= PktBufSize {
        if inLen + NonceSize + PreambleSize <= outLen {
          EncodePreamble(outbuf, ivSeed);
          var assembly;
          assembly, len2 := FillAssembly(nonce, inbuf, inLen);

          var encIvec := new byte[IvecSize](_ => 0);
          SetAesCbcIv(aes, encIvec, ivSeed);

          ghost var beforeCbc := outbuf[..];
          var ct := CbcEncrypt(aes, encKey, encIvec[..AesBlockSize], assembly[..len2]);
          assert ct == CbcEncrypt(aes, Material().encKey, CbcIv(aes, Material(), ivSeed), Assembly(nonce, inbuf[..inLen]));
          Store(outbuf, PreambleSize, ct);
          assert outbuf[..PreambleSize] == beforeCbc[..PreambleSize];
          assert outbuf[PreambleSize + len2..] == beforeCbc[PreambleSize + len2..];
          len2 := len2 + PreambleSize;
          assert outbuf[..len2] == outbuf[..PreambleSize] + outbuf[PreambleSize..len2];
        }
      }
    }

    /** The IV reconstruction and CBC decryption of transop_decode_aes: the
     *  first len bytes of the assembly are the decrypted ciphertext region. */
    method DecryptAssembly(aes: Aes, inbuf: array<byte>, len: nat, ivSeed: seq<byte>) returns (assembly: array<byte>)
      requires Valid() && |ivSeed| == IvSeedSize
      requires len % AesBlockSize == 0 && len <= PktBufSize && PreambleSize + len <= inbuf.Length
      ensures fresh(assembly) && assembly.Length == PktBufSize
      ensures assembly[..len] == CbcDecrypt(aes, decKey, CbcIv(aes, Material(), ivSeed), inbuf[PreambleSize..PreambleSize + len])
    {
      var decIvec := new byte[IvecSize](_ => 0);
      SetAesCbcIv(aes, decIvec, ivSeed);
      assembly := new byte[PktBufSize];
      Store(assembly, 0, CbcDecrypt(aes, decKey, decIvec[..AesBlockSize], inbuf[PreambleSize..PreambleSize + len]));
    }

    /** transop_decode_aes.  out_len is accepted and, as in the C code, never
     *  consulted. */
    method DecodeAes(aes: Aes, outbuf: array<byte>, outLen: SizeT, inbuf: array<byte>, inLen: SizeT)
      returns (len: int)
      requires Valid() && inLen <= inbuf.Length && outbuf != ivExtVal
      // the copied payload fits the output buffer (the C code does not check it)
      requires DecodeSpec(aes, Material(), inbuf[..inLen]).Decoded? ==>
        |DecodeSpec(aes, Material(), inbuf[..inLen]).payload| <= outbuf.Length
      modifies outbuf
      ensures var o := DecodeSpec(aes, Material(), old(inbuf[..inLen]));
        len == ReturnedLength(o) &&
        if o.Decoded? then outbuf[..len] == o.payload && outbuf[len..] == old(outbuf[len..])
        else outbuf[..] == old(outbuf[..])
    {
      ghost var packet := inbuf[..inLen];
      ghost var km := Material();
      len := 0;
      if SizeSub(inLen, PreambleSize) <= PktBufSize && inLen >= PreambleSize + NonceSize {
        var idx := 0;
        // decode_uint8: the format version
        var aesEncVer := inbuf[idx];
        idx := idx + VerSize;
        if aesEncVer == TransformVersion {
          // decode_uint32: the SA number, read and not used
          idx := idx + SaSize;
          // decode_buf: the IV seed
          var ivSeed := inbuf[idx..idx + IvSeedSize];
          idx := idx + IvSeedSize;
          assert ivSeed == packet[VerSize + SaSize..PreambleSize];

          len := inLen - PreambleSize;
          if len % AesBlockSize == 0 {
            assert inbuf[PreambleSize..PreambleSize + len] == packet[PreambleSize..];
            var assembly := DecryptAssembly(aes, inbuf, len, ivSeed);
            assert DecodeSpec(aes, km, packet) == Unpad(assembly[..len]);
            len := StripPadding(assembly, len, outbuf);
          } else {
            assert DecodeSpec(aes, km, packet) == Rejected;
            len := 0;
          }
        } else {
          assert DecodeSpec(aes, km, packet) == Rejected;
        }
      } else {
        assert DecodeSpec(aes, km, packet) == Rejected;
      }
    }
  }
}
