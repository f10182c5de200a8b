/**
  The count reply's payload: the 64-bit counter copied byte for byte from
  kernel memory, which on a little-endian host is its little-endian encoding.
 */
module Wire {
  import opened SessionTypes

  function Pow256(n: nat): (r: nat)
    ensures r > 0
  {
    if n == 0 then 1 else 256 * Pow256(n - 1)
  }

  /** The `len` low-order bytes of `x`, least significant first. */
  function EncodeLE(x: nat, len: nat): (bs: seq<byte>)
    requires x < Pow256(len)
    ensures |bs| == len
  {
    if len == 0 then [] else [x % 256] + EncodeLE(x / 256, len - 1)
  }

  /** The number whose little-endian encoding is `bs`. */
  function DecodeLE(bs: seq<byte>): (x: nat)
    ensures x < Pow256(|bs|)
  {
    if |bs| == 0 then 0 else bs[0] + 256 * DecodeLE(bs[1..])
  }

  lemma {:induction false} DecodeEncode(x: nat, len: nat)
    requires x < Pow256(len)
    ensures DecodeLE(EncodeLE(x, len)) == x
    decreases len
  {
    if len > 0 {
      var bs := EncodeLE(x, len);
      assert bs[1..] == EncodeLE(x / 256, len - 1);
      DecodeEncode(x / 256, len - 1);
    }
  }

  lemma {:induction false} EncodeDecode(bs: seq<byte>)
    ensures EncodeLE(DecodeLE(bs), |bs|) == bs
    decreases |bs|
  {
    if |bs| > 0 {
      var x := DecodeLE(bs);
      assert x % 256 == bs[0] && x / 256 == DecodeLE(bs[1..]);
      EncodeDecode(bs[1..]);
      assert bs == [bs[0]] + bs[1..];
    }
  }

  /** The eight bytes a u64 occupies in memory on a little-endian host. */
  function U64Bytes(n: u64): (bs: seq<byte>)
    ensures |bs| == 8
    ensures DecodeLE(bs) == n
  {
    assert Pow256(8) == 0x1_0000_0000_0000_0000;
    DecodeEncode(n, 8);
    EncodeLE(n, 8)
  }
}
