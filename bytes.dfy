/** Bytes and the big-endian integers of the payload header. */
module Bytes {

  /** A Rust `u8`. */
  type Byte = b: int | 0 <= b < 256

  function Pow256(n: nat): (r: nat)
    ensures r > 0
  {
    if n == 0 then 1 else 256 * Pow256(n - 1)
  }

  /** The unsigned integer that `bs` spells in big-endian byte order. */
  function FromBE(bs: seq<Byte>): (r: nat)
    ensures r < Pow256(|bs|)
  {
    if |bs| == 0 then 0
    else
      var high := FromBE(bs[..|bs| - 1]);
      assert high * 256 <= (Pow256(|bs| - 1) - 1) * 256;
      high * 256 + bs[|bs| - 1]
  }

  /** The `n`-byte big-endian encoding of `x`; `FromBE` inverts it. */
  function ToBE(x: nat, n: nat): (r: seq<Byte>)
    requires x < Pow256(n)
    ensures |r| == n && FromBE(r) == x
  {
    if n == 0 then []
    else
      var high := ToBE(x / 256, n - 1);
      assert (high + [x % 256])[..n - 1] == high;
      high + [x % 256]
  }

  function Zeros(n: nat): (r: seq<Byte>)
    ensures |r| == n && forall i :: 0 <= i < n ==> r[i] == 0
  {
    seq(n, _ => 0)
  }
}
