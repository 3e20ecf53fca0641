/**
  Fixed-width bitwise arithmetic on natural numbers. The proxy works on `u8`
  and `u32` words; here a word is a number and its bits are read by division,
  so that the same number can also be cut into bytes.
 */
module Bits {

  datatype Op = And | Or | Xor | AndNot

  function Apply(op: Op, p: bool, q: bool): bool {
    match op
    case And => p && q
    case Or => p || q
    case Xor => p != q
    case AndNot => p && !q
  }

  function Pow2(w: nat): (p: nat)
    ensures p > 0
  {
    if w == 0 then 1 else 2 * Pow2(w - 1)
  }

  lemma Pow2Byte(w: nat)
    ensures Pow2(w + 8) == 0x100 * Pow2(w)
  {
    assert Pow2(w + 8) == 2 * Pow2(w + 7) && Pow2(w + 7) == 2 * Pow2(w + 6);
    assert Pow2(w + 6) == 2 * Pow2(w + 5) && Pow2(w + 5) == 2 * Pow2(w + 4);
    assert Pow2(w + 4) == 2 * Pow2(w + 3) && Pow2(w + 3) == 2 * Pow2(w + 2);
    assert Pow2(w + 2) == 2 * Pow2(w + 1) && Pow2(w + 1) == 2 * Pow2(w);
  }

  lemma Pow2Values()
    ensures Pow2(8) == 0x100 && Pow2(32) == 0x1_0000_0000
  {
    Pow2Byte(0);
    Pow2Byte(8);
    Pow2Byte(16);
    Pow2Byte(24);
  }

  /** Bit `k` of `x`, the lowest being bit 0. */
  predicate Bit(x: nat, k: nat) {
    if k == 0 then x % 2 == 1 else Bit(x / 2, k - 1)
  }

  /** `op` applied to the `width` lowest bits of the two words. */
  function Bitwise(op: Op, a: nat, b: nat, width: nat): (r: nat)
    ensures r < Pow2(width)
  {
    if width == 0 then 0 else
      (if Apply(op, a % 2 == 1, b % 2 == 1) then 1 else 0) + 2 * Bitwise(op, a / 2, b / 2, width - 1)
  }

  lemma {:induction false} BitwiseBit(op: Op, a: nat, b: nat, width: nat, k: nat)
    requires k < width
    ensures Bit(Bitwise(op, a, b, width), k) <==> Apply(op, Bit(a, k), Bit(b, k))
  {
    if k > 0 {
      BitwiseBit(op, a / 2, b / 2, width - 1, k - 1);
    }
  }

  lemma {:induction false} ZeroHasNoBits(k: nat)
    ensures !Bit(0, k)
  {
    if k > 0 {
      ZeroHasNoBits(k - 1);
    }
  }

  lemma {:induction false} Pow2Bit(n: nat, k: nat)
    ensures Bit(Pow2(n), k) <==> n == k
  {
    if n == 0 {
      if k > 0 {
        ZeroHasNoBits(k - 1);
      }
    } else if k > 0 {
      assert Pow2(n) / 2 == Pow2(n - 1);
      Pow2Bit(n - 1, k - 1);
    }
  }

  /** A word is determined by its bits. */
  lemma {:induction false} SameBits(a: nat, b: nat, width: nat)
    requires a < Pow2(width) && b < Pow2(width)
    requires forall k: nat | k < width :: Bit(a, k) == Bit(b, k)
    ensures a == b
  {
    if width > 0 {
      assert Bit(a, 0) == Bit(b, 0);
      forall k: nat | k < width - 1 ensures Bit(a / 2, k) == Bit(b / 2, k) {
        assert Bit(a, k + 1) == Bit(b, k + 1);
      }
      SameBits(a / 2, b / 2, width - 1);
    }
  }

  lemma {:induction false} BitwiseRightZero(op: Op, a: nat, b: nat, width: nat)
    requires a < Pow2(width) && b < Pow2(width)
    ensures op.Xor? ==> (Bitwise(op, a, b, width) == 0 <==> a == b)
    ensures op.Or? ==> (Bitwise(op, a, b, width) == 0 <==> a == 0 && b == 0)
  {
    if width > 0 {
      BitwiseRightZero(op, a / 2, b / 2, width - 1);
    }
  }

  lemma XorInvolution(a: nat, b: nat, width: nat)
    requires a < Pow2(width)
    ensures Bitwise(Xor, Bitwise(Xor, a, b, width), b, width) == a
  {
    var x := Bitwise(Xor, a, b, width);
    forall k: nat | k < width ensures Bit(Bitwise(Xor, x, b, width), k) == Bit(a, k) {
      BitwiseBit(Xor, a, b, width, k);
      BitwiseBit(Xor, x, b, width, k);
    }
    SameBits(Bitwise(Xor, x, b, width), a, width);
  }
}
