/** Byte writes into a caller's buffer at an offset: the `memcpy`, `memset`
 *  and `encode_buf`/`encode_uint32` steps of the transform all reduce to this. */
module Buffers {
  import opened AesPrimitives

  /** Copies `data` into `dst` starting at `off`; every other byte of `dst`
   *  keeps its old value. */
  method Store(dst: array<byte>, off: nat, data: seq<byte>)
    requires off + |data| <= dst.Length
    modifies dst
    ensures forall k :: 0 <= k < dst.Length ==>
      dst[k] == if off <= k < off + |data| then data[k - off] else old(dst[k])
    ensures dst[off..off + |data|] == data
  {
    var i := 0;
    while i < |data|
      invariant 0 <= i <= |data|
      invariant forall k :: 0 <= k < dst.Length ==>
        dst[k] == if off <= k < off + i then data[k - off] else old(dst[k])
    {
      dst[off + i] := data[i];
      i := i + 1;
    }
  }
}
