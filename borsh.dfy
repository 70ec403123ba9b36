/** Borsh serialization of `u64`: eight bytes, least significant first. */
module Borsh {
  import opened Types

  /** The `n` least significant base-256 digits of `x`, least significant first. */
  function LeBytes(x: nat, n: nat): (r: Bytes)
    ensures |r| == n
  {
    if n == 0 then [] else [x % 256] + LeBytes(x / 256, n - 1)
  }

  /** The number a little-endian byte string denotes. */
  function LeValue(bs: Bytes): nat {
    if bs == [] then 0 else bs[0] + 256 * LeValue(bs[1..])
  }

  /** `x.try_to_vec()` for `x: u64`. */
  function U64ToBytes(x: u64): (r: Bytes)
    ensures |r| == 8
  {
    LeBytes(x, 8)
  }

  /** Reading `n` little-endian digits back gives `x` when `x` fits in them. */
  lemma {:induction false} LeRoundTrip(x: nat, n: nat)
    requires x < Pow256(n)
    ensures LeValue(LeBytes(x, n)) == x
  {
    if n > 0 {
      assert x / 256 < Pow256(n - 1);
      LeRoundTrip(x / 256, n - 1);
      assert LeBytes(x, n)[1..] == LeBytes(x / 256, n - 1);
    }
  }

  /** The serialization of a `u64` determines it. */
  lemma U64ToBytesInjective(x: u64, y: u64)
    requires U64ToBytes(x) == U64ToBytes(y)
    ensures x == y
  {
    assert Pow256(8) == U64_LIMIT;
    LeRoundTrip(x, 8);
    LeRoundTrip(y, 8);
  }
}
