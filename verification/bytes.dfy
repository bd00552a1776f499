/** Byte-level vocabulary shared by the payment-code model: Go's `byte`,
    fixed-width `[32]byte` arrays, and runs of zero bytes. */
module Bytes {

  /** Go's `byte`: an unsigned 8-bit value, so `^` is bitwise XOR. */
  type byte = bv8

  /** Go's `[32]byte`: the length is part of the type. */
  type Bytes32 = s: seq<byte> | |s| == 32 witness seq(32, _ => 0 as byte)

  /** `n` zero bytes. */
  function Zeros(n: nat): (z: seq<byte>)
    ensures |z| == n
    ensures forall i :: 0 <= i < n ==> z[i] == 0
  {
    seq(n, _ => 0 as byte)
  }

  /** True when every byte of `s` at an index in `[lo, hi)` is zero. */
  predicate ZeroBetween(s: seq<byte>, lo: nat, hi: nat)
    requires lo <= hi <= |s|
  {
    forall k :: lo <= k < hi ==> s[k] == 0
  }
}
