/** Properties of the AES-CBC transform: key-size policy, padding, packet
 *  layout, the decode gates, the bounds the C code leaves to its callers, and
 *  the round trip decode(encode(payload)) == payload. */
module TransformAesProps {
  import opened AesPrimitives
  import opened Buffers
  import opened TransformAes

  // ---------------------------------------------------------------- key size

  /** The key-size table of aes_best_keysize. */
  lemma BestKeySizeTable(numBytes: nat)
    ensures numBytes >= 32 ==> BestKeySize(numBytes) == 32
    ensures 24 <= numBytes < 32 ==> BestKeySize(numBytes) == 24
    ensures numBytes < 24 ==> BestKeySize(numBytes) == 16
  {
  }

  /** A longer secret never selects a weaker key. */
  lemma BestKeySizeMonotone(a: nat, b: nat)
    requires a <= b
    ensures BestKeySize(a) <= BestKeySize(b)
  {
  }

  // ---------------------------------------------------------- key derivation

  /** The CBC cipher is keyed by the first BestKeySize(key_size) bytes of
   *  the digest only: digests that agree there and on bytes 32..63 give the
   *  same key material, whatever bytes BestKeySize..31 hold. */
  lemma DerivedKeysIgnoreUnusedBytes(sha512: seq<byte> -> Digest, s1: seq<byte>, s2: seq<byte>)
    requires |s1| == |s2|
    requires sha512(s1)[..BestKeySize(|s1|)] == sha512(s2)[..BestKeySize(|s2|)]
    requires sha512(s1)[32..] == sha512(s2)[32..]
    ensures DerivedKeys(sha512, s1) == DerivedKeys(sha512, s2)
  {
    var d1, d2 := sha512(s1), sha512(s2);
    assert d1[32..48] == d1[32..][..16] == d2[32..][..16] == d2[32..48];
    assert d1[48..] == d1[32..][16..] == d2[32..][16..] == d2[48..];
  }

  // -------------------------------------------------------------------- IV

  /** Bytes 8..15 of iv_ext_val never affect the IV. */
  lemma IvIgnoresExtensionTail(aes: Aes, km1: KeyMaterial, km2: KeyMaterial, ivSeed: seq<byte>)
    requires |km1.ivExtVal| == Aes128KeyBytes && |km2.ivExtVal| == Aes128KeyBytes && |ivSeed| == IvSeedSize
    requires km1.ivEncKey == km2.ivEncKey && km1.ivExtVal[..IvSeedSize] == km2.ivExtVal[..IvSeedSize]
    ensures CbcIv(aes, km1, ivSeed) == CbcIv(aes, km2, ivSeed)
  {
  }

  /** The block that is encrypted into the IV is the first half of
   *  iv_ext_val followed by the seed. */
  lemma IvFullLayout(ivExtVal: seq<byte>, ivSeed: seq<byte>)
    requires |ivExtVal| == Aes128KeyBytes && |ivSeed| == IvSeedSize
    ensures IvFull(ivExtVal, ivSeed)[..IvSeedSize] == ivExtVal[..IvSeedSize]
    ensures IvFull(ivExtVal, ivSeed)[IvSeedSize..] == ivSeed
  {
  }

  // ---------------------------------------------------------------- padding

  /** len2 is the least multiple of the block size above len. */
  lemma PaddedLenIsLeast(len: nat, m: nat)
    requires m % AesBlockSize == 0 && len < m
    ensures PaddedLen(len) <= m
  {
    var q := m / AesBlockSize;
    assert m == q * AesBlockSize;
    assert len / AesBlockSize < q;
  }

  /** The plaintext assembly: nonce, payload, zero bytes, and a last byte
   *  that counts the padding; it fills whole blocks and pads by 1..16 bytes. */
  lemma AssemblyLayout(nonce: seq<byte>, payload: seq<byte>)
    requires |nonce| == NonceSize
    ensures var a, len := Assembly(nonce, payload), NonceSize + |payload|;
      |a| == PaddedLen(len) && |a| % AesBlockSize == 0 &&
      1 <= |a| - len <= AesBlockSize &&
      a[..NonceSize] == nonce && a[NonceSize..len] == payload &&
      (forall i :: len <= i < |a| - 1 ==> a[i] == 0) &&
      a[|a| - 1] as int == |a| - len
  {
    var len := NonceSize + |payload|;
    var len2 := PaddedLen(len);
    var zeros: seq<byte> := seq(len2 - len - 1, _ => 0);
    var head := nonce + payload;
    var a := Assembly(nonce, payload);
    assert a == head + (zeros + [(len2 - len) as byte]);
    assert a[|a| - 1] == (len2 - len) as byte;
    assert a[..len] == head;
    assert head[..NonceSize] == nonce && head[NonceSize..] == payload;
    forall i | len <= i < |a| - 1
      ensures a[i] == 0
    {
      assert a[i] == zeros[i - len];
    }
  }

  // ---------------------------------------------------------------- packets

  /** The wire packet: version 1, a zero SA field, the seed, and the
   *  ciphertext of the assembly from offset 13 on. */
  lemma WirePacketLayout(aes: Aes, km: KeyMaterial, ivSeed: seq<byte>, nonce: seq<byte>, payload: seq<byte>)
    requires |km.ivExtVal| == Aes128KeyBytes && |ivSeed| == IvSeedSize && |nonce| == NonceSize
    ensures var p := WirePacket(aes, km, ivSeed, nonce, payload);
      |p| == PreambleSize + PaddedLen(|payload| + NonceSize) &&
      p[0] == TransformVersion && p[VerSize..VerSize + SaSize] == [0, 0, 0, 0] &&
      p[VerSize + SaSize..PreambleSize] == ivSeed &&
      p[PreambleSize..] == CbcEncrypt(aes, km.encKey, CbcIv(aes, km, ivSeed), Assembly(nonce, payload))
  {
    AssemblyLayout(nonce, payload);
  }

  // ---------------------------------------------------------- encode gates

  /** With out_len == in_len + 17, the capacity check passes, yet the packet
   *  written is 1 to 16 bytes longer than out_len: the check ignores padding. */
  lemma EncodeCapacityCheckIgnoresPadding(inLen: nat)
    requires inLen + NonceSize <= PktBufSize
    ensures EncodeAccepts(inLen, inLen + NonceSize + PreambleSize)
    ensures var written := PreambleSize + PaddedLen(inLen + NonceSize);
      inLen + NonceSize + PreambleSize < written <= inLen + NonceSize + PreambleSize + AesBlockSize
  {
  }

  /** Once encode accepts a payload, assembly[len2 - 1] lies inside the
   *  assembly buffer exactly when in_len + 4 < N2N_PKT_BUF_SIZE, so the
   *  payload size the check lets through last (in_len + 4 == 2048) writes
   *  past it. */
  lemma EncodeAssemblyBound(inLen: nat, outLen: nat)
    requires EncodeAccepts(inLen, outLen)
    ensures PaddedLen(inLen + NonceSize) <= PktBufSize <==> inLen + NonceSize < PktBufSize
    ensures inLen + NonceSize == PktBufSize ==> PaddedLen(inLen + NonceSize) == PktBufSize + AesBlockSize
  {
    if inLen + NonceSize < PktBufSize {
      PaddedLenIsLeast(inLen + NonceSize, PktBufSize);
    }
  }

  // ---------------------------------------------------------- decode gates

  /** The length test with its size_t subtraction accepts exactly the
   *  lengths 17..2061: for in_len < 13 the subtraction wraps to a huge value. */
  lemma DecodeLengthGate(inLen: SizeT)
    ensures DecodeLengthOk(inLen) <==> PreambleSize + NonceSize <= inLen <= PktBufSize + PreambleSize
    ensures inLen < PreambleSize ==> SizeSub(inLen, PreambleSize) > PktBufSize
  {
  }

  /** A packet whose version byte is not 1 is dropped, whatever else it holds. */
  lemma DecodeVersionGate(aes: Aes, km: KeyMaterial, packet: seq<byte>)
    requires |km.ivExtVal| == Aes128KeyBytes
    requires |packet| > 0 && packet[0] != TransformVersion
    ensures DecodeSpec(aes, km, packet) == Rejected
  {
  }

  /** A ciphertext region that is not whole blocks is dropped. */
  lemma DecodeAlignmentGate(aes: Aes, km: KeyMaterial, packet: seq<byte>)
    requires |km.ivExtVal| == Aes128KeyBytes
    requires |packet| >= PreambleSize && (|packet| - PreambleSize) % AesBlockSize != 0
    ensures DecodeSpec(aes, km, packet) == Rejected
  {
  }

  /** What decode returns.  A packet that is not dropped is at least
   *  preamble plus one block long.  A delivered payload is at most in_len - 17 bytes,
   *  taken from after the nonce.  A rejected padding byte returns in_len - 13,
   *  a positive multiple of 16, without writing the output: the caller sees a
   *  non-zero length just as for a delivered payload.  A return value of 0
   *  means a dropped packet or an empty payload. */
  lemma DecodeOutcomes(aes: Aes, km: KeyMaterial, packet: seq<byte>)
    requires |km.ivExtVal| == Aes128KeyBytes && |packet| < SizeTModulus
    ensures var o := DecodeSpec(aes, km, packet);
      (!o.Rejected? ==> |packet| >= PreambleSize + AesBlockSize) &&
      (o.Decoded? ==> |o.payload| + NonceSize + PreambleSize <= |packet| <= PktBufSize + PreambleSize) &&
      (o.PaddingRejected? ==> o.len == |packet| - PreambleSize && o.len >= AesBlockSize &&
                              o.len % AesBlockSize == 0 && ReturnedLength(o) > 0) &&
      (ReturnedLength(o) == 0 <==> o == Rejected || o == Decoded([]))
  {
    var o := DecodeSpec(aes, km, packet);
    if !o.Rejected? {
      DecodeLengthGate(|packet|);
    }
  }

  // ------------------------------------------------------------ round trip

  /** Decoding the packet encode produces gives back the payload, under the
   *  block-level hypothesis that AES decryption inverts AES encryption. */
  lemma DecodeOfEncode(aes: Aes, km: KeyMaterial, ivSeed: seq<byte>, nonce: seq<byte>, payload: seq<byte>)
    requires Inverts(aes) && Paired(km)
    requires |km.ivExtVal| == Aes128KeyBytes && |ivSeed| == IvSeedSize && |nonce| == NonceSize
    requires |payload| + NonceSize < PktBufSize
    ensures DecodeSpec(aes, km, WirePacket(aes, km, ivSeed, nonce, payload)) == Decoded(payload)
  {
    var packet := WirePacket(aes, km, ivSeed, nonce, payload);
    var len := |payload| + NonceSize;
    var a := Assembly(nonce, payload);
    WirePacketLayout(aes, km, ivSeed, nonce, payload);
    AssemblyLayout(nonce, payload);
    PaddedLenIsLeast(len, PktBufSize);
    DecodeLengthGate(|packet|);
    var k := km.encKey.userKey;
    assert km.encKey == EncryptSchedule(k) && km.decKey == DecryptSchedule(k);
    CbcRoundTrip(aes, k, CbcIv(aes, km, ivSeed), a);
    assert packet[PreambleSize..] == CbcEncrypt(aes, km.encKey, CbcIv(aes, km, ivSeed), a);
    var padding := a[|a| - 1] as nat;
    assert |a| - padding == len;
    assert a[NonceSize..|a| - padding] == payload;
  }

  /** An instance whose keys come from one secret decodes what it encodes:
   *  encode the payload into a packet buffer, decode that buffer, and get the
   *  payload and its length back. */
  method EncodeDecode(priv: TransopAes, aes: Aes, payload: seq<byte>, ivSeed: seq<byte>, nonce: seq<byte>)
    returns (encodedLen: int, decodedLen: int, recovered: seq<byte>)
    requires priv.Valid() && Paired(priv.Material())
    requires Inverts(aes)
    requires |ivSeed| == IvSeedSize && |nonce| == NonceSize
    requires |payload| + NonceSize < PktBufSize
    ensures encodedLen == PreambleSize + PaddedLen(|payload| + NonceSize)
    ensures decodedLen == |payload| && recovered == payload
  {
    ghost var km := priv.Material();
    var inbuf := new byte[|payload|];
    Store(inbuf, 0, payload);
    assert inbuf[..|payload|] == payload;
    var outLen := |payload| + NonceSize + PreambleSize + AesBlockSize;
    var packetBuf := new byte[outLen];
    encodedLen := priv.EncodeAes(aes, packetBuf, outLen, inbuf, |payload|, ivSeed, nonce);
    assert priv.Material() == km;
    ghost var packet := WirePacket(aes, km, ivSeed, nonce, payload);
    WirePacketLayout(aes, km, ivSeed, nonce, payload);
    assert packetBuf[..encodedLen] == packet;

    DecodeOfEncode(aes, km, ivSeed, nonce, payload);
    var outbuf := new byte[|payload|];
    decodedLen := priv.DecodeAes(aes, outbuf, |payload|, packetBuf, encodedLen);
    recovered := outbuf[..decodedLen];
  }

  /** The whole life of a transform instance on one payload: set the key up
   *  from any secret, then encode and decode the payload. */
  method SetupEncodeDecode(aes: Aes, sha512: seq<byte> -> Digest, secret: seq<byte>, payload: seq<byte>,
                           ivSeed: seq<byte>, nonce: seq<byte>)
    returns (encodedLen: int, decodedLen: int, recovered: seq<byte>)
    requires Inverts(aes)
    requires |ivSeed| == IvSeedSize && |nonce| == NonceSize
    requires |payload| + NonceSize < PktBufSize
    ensures encodedLen == PreambleSize + PaddedLen(|payload| + NonceSize)
    ensures decodedLen == |payload| && recovered == payload
  {
    var priv := new TransopAes();
    var key := new byte[|secret|];
    Store(key, 0, secret);
    assert key[..|secret|] == secret;
    var setup := priv.SetupAesKey(sha512, key, |secret|);
    encodedLen, decodedLen, recovered := EncodeDecode(priv, aes, payload, ivSeed, nonce);
  }
}
