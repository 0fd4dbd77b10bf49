/** Exclusive-or of natural numbers, bit by bit. */
module Bits {
  import opened Buffers

  /** Exclusive-or of the n lowest bits. */
  function XorBits(a: nat, b: nat, n: nat): (r: nat)
    ensures r < Pow2(n)
    decreases b, n
  {
    if n == 0 then 0 else (if a % 2 != b % 2 then 1 else 0) + 2 * XorBits(a / 2, b / 2, n - 1)
  }

  /** Bit i of v, lowest first. */
  function Bit(v: nat, i: nat): (b: nat)
    ensures b < 2
  {
    if i == 0 then v % 2 else Bit(v / 2, i - 1)
  }

  /** Every bit is the sum of the two bits, without the carry. */
  lemma {:induction false} XorAddsBits(a: nat, b: nat, n: nat, i: nat)
    requires i < n
    ensures Bit(XorBits(a, b, n), i) == (Bit(a, i) + Bit(b, i)) % 2
    decreases n
  {
    if i > 0 {
      XorAddsBits(a / 2, b / 2, n - 1, i - 1);
    }
  }

  lemma {:induction false} XorBitsTwice(a: nat, k: nat, n: nat)
    requires a < Pow2(n)
    ensures XorBits(XorBits(a, k, n), k, n) == a
    decreases n
  {
    if n > 0 {
      XorBitsTwice(a / 2, k / 2, n - 1);
    }
  }

  lemma {:induction false} XorBitsCommutes(a: nat, b: nat, n: nat)
    ensures XorBits(a, b, n) == XorBits(b, a, n)
    decreases n
  {
    if n > 0 {
      XorBitsCommutes(a / 2, b / 2, n - 1);
    }
  }

  /** Either operand can be told from the result and the other. */
  lemma XorBitsCancels(a: nat, b: nat, c: nat, n: nat)
    requires b < Pow2(n) && c < Pow2(n)
    ensures XorBits(a, b, n) == XorBits(a, c, n) <==> b == c
  {
    XorBitsCommutes(a, b, n);
    XorBitsCommutes(a, c, n);
    XorBitsTwice(b, a, n);
    XorBitsTwice(c, a, n);
  }
}
