# n2n AES-CBC packet transform, modelled in Dafny

This project models the AES-CBC transport transform of the n2n peer-to-peer
VPN (`transform_aes.c`) and proves properties of it. The transform turns a
cleartext frame into a wire packet and back:

    [V|SSSS|IIIIIIII|ciphertext]
     1   4      8     CBC( nonce(4) ++ payload ++ zeros ++ padcount )

The source's parts map onto the model like this:

- **Key derivation** (`setup_aes_key`, `aes_best_keysize`). The 64-byte
  SHA-512 digest of the secret is split into three disjoint regions: bytes
  0..31 for the CBC key, 32..47 for the IV key and 48..63 for the IV
  extension. Only the first `BestKeySize(key_size)` bytes of the CBC region
  (16, 24 or 32) key the cipher.
- **IV construction** (`set_aes_cbc_iv`). Eight bytes of the IV extension
  plus the eight seed bytes form one block, which is encrypted under the IV
  key.
- **Encode and decode** (`transop_encode_aes`, `transop_decode_aes`). These
  are methods over arrays on the class `TransopAes`, the private state
  `transop_aes_t`. Each one is proved against a pure function:
  `WirePacket` for encode and `DecodeSpec` for decode.

OpenSSL stays abstract. AES single-block encryption and decryption are the
two function fields of `Aes`. An `AES_KEY` schedule is represented by the
key bytes it is expanded from. SHA-512 is a function parameter. The CBC
chaining that `AES_cbc_encrypt` performs is written out over the abstract
block cipher. The round trip rests on one block-level hypothesis,
`Inverts(aes)`: decrypting with the schedule `AES_set_decrypt_key` builds
from a key undoes encrypting with the schedule `AES_set_encrypt_key` builds
from the same key. The CBC round trip (`CbcRoundTrip`) and the packet round
trip (`DecodeOfEncode`, `SetupEncodeDecode`) are proved from that
hypothesis.

The code is modelled as written. Where it relies on its callers, the model
states the bound as an explicit precondition, and a lemma shows the gap:

- When both size checks pass, `EncodeAes` requires
  `PaddedLen(in_len + 4) <= N2N_PKT_BUF_SIZE`. The
  size check admits `in_len + 4 == N2N_PKT_BUF_SIZE`, and then
  `assembly[len2 - 1]` lies 16 bytes past the buffer
  (`EncodeAssemblyBound`).
- When both size checks pass, `EncodeAes` requires the output buffer to
  hold `13 + len2` bytes. The
  check `in_len + 17 <= out_len` ignores the padding, so the packet can be
  1 to 16 bytes longer than `out_len` (`EncodeCapacityCheckIgnoresPadding`).
- `DecodeAes` requires the output buffer to hold the payload it copies.
  The C code never reads `out_len`. A delivered payload has at most
  `in_len - 17` bytes, so an output of that size always suffices
  (`DecodeOutcomes`).
- When the padding check fails, `DecodeAes` returns `in_len - 13`, a
  positive multiple of 16, and writes nothing (`DecodeOutcomes`).

The short-packet test in decode is `in_len >= 17`. The alignment test then
rejects every length from 17 to 28, so every packet not dropped is at least
29 bytes long (`DecodeOutcomes`).

Files: `aes_primitives.dfy` (bytes, bytewise xor, blocks, abstract AES,
CBC mode),
`buffers.dfy` (byte stores at an offset: `memcpy`, `memset`,
`encode_buf`), `transform_aes.dfy` (constants, specification functions,
the `TransopAes` class), `transform_aes_props.dfy` (lemmas and an
end-to-end client).

## Model

| member | source | states |
|---|---|---|
| `AesPrimitives.CbcEncrypt` | transform_aes.c:168-171 | CBC encryption of whole blocks produces exactly as many bytes as it is given |
| `AesPrimitives.CbcDecrypt` | transform_aes.c:223-227 | CBC decryption of whole blocks produces exactly as many bytes as it is given |
| `AesPrimitives.CbcRoundTrip` | transform_aes.c:223-227 | CBC decryption under the decrypt schedule of a key inverts CBC encryption under the encrypt schedule of the same key with the same IV, given only the block-level inverse hypothesis |
| `TransformAes.BestKeySize` | transform_aes.c:67-86 | the result is an AES key length (16, 24 or 32); it never exceeds the secret's length unless it is the minimum 16; and it is at least every AES key length the secret's length reaches |
| `TransformAesProps.BestKeySizeTable` | transform_aes.c:72-86 | 32 bytes for secrets of 32 or more bytes, 24 for 24..31, 16 below 24 |
| `TransformAesProps.BestKeySizeMonotone` | transform_aes.c:72-86 | a longer secret never selects a shorter key |
| `TransformAes.KeyBufOf` | transform_aes.c:52-56 | the three sha512_keybuf fields are 32, 16 and 16 bytes long, and concatenated they are the digest, so they are disjoint and cover it |
| `TransformAes.DerivedKeys` | transform_aes.c:276-288 | the CBC encrypt and decrypt schedules both come from digest bytes 0..BestKeySize-1, the IV key from bytes 32..47, and the IV extension is bytes 48..63 |
| `TransformAesProps.DerivedKeysIgnoreUnusedBytes` | transform_aes.c:276-284 | digest bytes BestKeySize..31 never reach the key material |
| `TransformAes.TransopAes.constructor` | transform_aes.c:312 | a fresh, zeroed transop_aes_t: every key schedule unset and iv_ext_val all zero |
| `TransformAes.TransopAes.SetupAesKey` | transform_aes.c:261-294 | after setup the object holds exactly DerivedKeys of the first key_size bytes of the key, and the result is 0 |
| `TransformAes.TransopAes.SetAesCbcIv` | transform_aes.c:88-102 | the first 16 bytes of ivec are the IV-key encryption of iv_ext_val[0..8) ++ seed; bytes 16..31 of ivec are unchanged |
| `TransformAesProps.IvIgnoresExtensionTail` | transform_aes.c:91-93 | two key sets with the same IV key and the same first 8 bytes of iv_ext_val give the same IV for every seed |
| `TransformAesProps.IvFullLayout` | transform_aes.c:91-93 | the block encrypted into the IV is iv_ext_val[0..8) followed by the 8 seed bytes |
| `TransformAes.PaddedLen` | transform_aes.c:160-162 | len2 is a multiple of 16 and len < len2 <= len + 16, so 1 to 16 padding bytes are always added |
| `TransformAesProps.PaddedLenIsLeast` | transform_aes.c:160-161 | len2 is the least multiple of 16 strictly above len |
| `TransformAes.AssemblyFilled` | transform_aes.c:156-163 | a buffer holding the nonce, the payload, zeros and the padding count at len2 - 1 starts with Assembly(nonce, payload) |
| `TransformAesProps.AssemblyLayout` | transform_aes.c:153-163 | the assembly is nonce ++ payload ++ zero bytes, with last byte len2 - len; it fills whole blocks and pads by 1..16 bytes |
| `TransformAes.EncodePreamble` | transform_aes.c:137-148 | the first 13 output bytes become version 1, a zero 4-byte SA number and the 8 seed bytes; the rest of the output is unchanged |
| `TransformAes.FillAssembly` | transform_aes.c:123-163 | returns len2 = PaddedLen(in_len + 4) and a fresh buffer of N2N_PKT_BUF_SIZE bytes whose first len2 bytes are Assembly(nonce, payload) and whose remaining bytes are zero, as the zero initialiser leaves them |
| `TransformAesProps.WirePacketLayout` | transform_aes.c:104-113 | the packet is 13 + len2 bytes: version 1, zero SA field, the seed, then the CBC encryption of the assembly under the packet's IV |
| `TransformAes.TransopAes.EncodeAes` | transform_aes.c:114-180 | returns -1 and writes nothing when in_len + 4 > N2N_PKT_BUF_SIZE or in_len + 17 > out_len; otherwise writes WirePacket to the output, leaves the rest of the output unchanged and returns its length 13 + len2 |
| `TransformAesProps.EncodeCapacityCheckIgnoresPadding` | transform_aes.c:127-173 | with out_len = in_len + 17 the check passes, yet the packet is 1 to 16 bytes longer than out_len |
| `TransformAesProps.EncodeAssemblyBound` | transform_aes.c:126-163 | among accepted payloads, assembly[len2 - 1] stays within N2N_PKT_BUF_SIZE exactly when in_len + 4 < N2N_PKT_BUF_SIZE; at in_len + 4 == N2N_PKT_BUF_SIZE, len2 is 16 bytes too large |
| `TransformAes.TransopAes.DecryptAssembly` | transform_aes.c:218-227 | the first len bytes of the assembly are the CBC decryption of the ciphertext region under the IV rebuilt from the received seed |
| `TransformAes.StripPadding` | transform_aes.c:229-246 | when the last decrypted byte p satisfies len >= p + 4, the bytes after the nonce and before the padding are copied to the output and their count is returned; otherwise len is returned and the output is unchanged |
| `TransformAes.TransopAes.DecodeAes` | transform_aes.c:183-259 | returns ReturnedLength(DecodeSpec(packet)); copies the payload to the output only when the packet decodes, and otherwise leaves the output unchanged |
| `TransformAesProps.DecodeLengthGate` | transform_aes.c:193-194 | with the size_t subtraction, the length test accepts exactly 17 <= in_len <= N2N_PKT_BUF_SIZE + 13; below 13 the subtraction wraps to a value above the limit |
| `TransformAesProps.DecodeVersionGate` | transform_aes.c:204-206 | a packet whose first byte is not 1 is dropped, whatever else it holds |
| `TransformAesProps.DecodeAlignmentGate` | transform_aes.c:215-217 | a packet whose ciphertext region is not whole blocks is dropped |
| `TransformAesProps.DecodeOutcomes` | transform_aes.c:229-248 | a delivered payload has at most in_len - 17 bytes; a packet that is not dropped has at least 29 bytes; a failed padding check returns in_len - 13, a positive multiple of 16; a return of 0 means a dropped packet or an empty payload |
| `TransformAesProps.DecodeOfEncode` | transform_aes.c:229-246 | under the block inverse hypothesis, decoding the packet encode builds for a payload with in_len + 4 < N2N_PKT_BUF_SIZE delivers exactly that payload |
| `TransformAesProps.EncodeDecode` | transform_aes.c:114-259 | an instance whose encrypt and decrypt keys come from the same key bytes returns the packet length 13 + len2 from encode, and decode of that packet returns the payload's length and the payload itself |
| `TransformAesProps.SetupEncodeDecode` | transform_aes.c:114-259 | key setup, encode into a buffer, then decode of that buffer return the packet length 13 + len2, the payload's length and the payload itself |

## Left out

- AES and SHA-512 are not modelled. The AES block functions (under
  `AES_ecb_encrypt` and `AES_cbc_encrypt`) and `SHA512` are supplied by the
  caller. `AES_set_encrypt_key` and `AES_set_decrypt_key` are represented by
  the key prefix they read (`SetEncryptKey`, `SetDecryptKey`). The round
  trip needs only the block-level inverse hypothesis `Inverts`.
- `AES_cbc_encrypt` writes the last chaining block back into its `ivec`
  argument. The model does not do this: both `ivec` buffers are local and
  discarded afterwards.
- `rand()` is not modelled. The seed and the nonce are parameters, given as
  the 8 and 4 native-order bytes that `memcpy` and the nonce store take from
  them. Both peers copy these bytes unchanged, so byte order never matters.
  How `iv_seed` is built from two `rand()` calls is left out.
- `traceEvent` logging is left out.
- `n2n_transop_aes_cbc_init` and `transop_deinit_aes` are left out: they
  wire up function pointers, call `calloc` and `free`, and take `strlen` of
  the configured secret. The `TransopAes` constructor models the zeroed
  `calloc` result. `SetupEncodeDecode` passes the secret's length as
  `key_size`, as `strlen` does.
- `transop_tick_aes` is left out: its body is empty.
- `encode_uint8`, `encode_uint32`, `encode_buf` and the `decode_*` helpers
  are modelled as plain byte writes and reads at an advancing index. Their
  file is not part of this model. The `rem` bookkeeping of the `decode_*`
  helpers is not modelled: `in_len >= 17` keeps it from ever failing.
- `peer_mac` is not modelled: neither function reads it.
- The additions `in_len + 4` and `in_len + 17` are modelled without size_t
  wrap-around. They wrap only for `in_len` within 17 of 2^64, which no
  buffer reaches. The subtraction `in_len - 13` in decode is modelled with
  its wrap-around.
- `EncodeAes` requires the input and output arrays to be distinct. The C
  code does not forbid overlap. If they did overlap, the preamble writes
  would change the payload before it is copied.
- n2n.h is not part of this model. `N2N_PKT_BUF_SIZE` is taken as 2048,
  the value n2n defines.
- The decode assembly buffer is uninitialised in C and its contents are
  unspecified in the model as well. Only bytes that were just decrypted are
  read from it.
- Key independence of the three sub-keys (the avalanche property of
  SHA-512) cannot be stated: the hash is abstract. What is proved is that
  the three regions are disjoint.
- Concurrency is left out: the transform keeps no mutable state across
  calls.
