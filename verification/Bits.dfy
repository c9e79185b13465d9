/** Bitwise operations on the binary digits of natural numbers. */
module Bits {
  import opened Arith

  type BitFunction = (bool, bool) -> bool

  const XOR: BitFunction := (a, b) => a != b
  const OR: BitFunction := (a, b) => a || b
  const AND: BitFunction := (a, b) => a && b

  /** The operation applied to the lowest `bits` digits. */
  function BitOp(op: BitFunction, x: nat, y: nat, bits: nat): (r: nat) {
    if bits == 0 then 0
    else (if op(x % 2 == 1, y % 2 == 1) then 1 else 0) + 2 * BitOp(op, x / 2, y / 2, bits - 1)
  }

  lemma {:induction false} BitOpBelow(op: BitFunction, x: nat, y: nat, bits: nat)
    ensures BitOp(op, x, y, bits) < Pow(2, bits)
  {
    if bits == 0 {
    } else {
      BitOpBelow(op, x / 2, y / 2, bits - 1);
    }
  }

  /** The two ways to take a number apart: its lowest digit, or its highest. */
  lemma LowestDigit(op: BitFunction, x: nat, y: nat, bits: nat)
    requires bits > 0
    ensures BitOp(op, x, y, bits) / 2 == BitOp(op, x / 2, y / 2, bits - 1)
    ensures (BitOp(op, x, y, bits) % 2 == 1) == op(x % 2 == 1, y % 2 == 1)
  {
    var rest, digit := BitOp(op, x / 2, y / 2, bits - 1), if op(x % 2 == 1, y % 2 == 1) then 1 else 0;
    ModIs(BitOp(op, x, y, bits), rest, digit, 2);
  }

  lemma {:induction false} HighestDigit(op: BitFunction, x: nat, y: nat, bits: nat)
    requires bits > 0 && x < Pow(2, bits) && y < Pow(2, bits)
    ensures BitOp(op, x, y, bits) >= Pow(2, bits - 1) <==> op(x >= Pow(2, bits - 1), y >= Pow(2, bits - 1))
  {
    if bits == 1 {
      assert Pow(2, 1) == 2 * Pow(2, 0);
      assert BitOp(op, x / 2, y / 2, 0) == 0;
    } else {
      HighestDigit(op, x / 2, y / 2, bits - 1);
      assert Pow(2, bits - 1) == 2 * Pow(2, bits - 2);
    }
  }

  /** Applying the same mask twice restores the bits. */
  lemma {:induction false} XorTwice(x: nat, k: nat, bits: nat)
    requires x < Pow(2, bits)
    ensures BitOp(XOR, BitOp(XOR, x, k, bits), k, bits) == x
  {
    if bits == 0 {
    } else {
      XorTwice(x / 2, k / 2, bits - 1);
      LowestDigit(XOR, x, k, bits);
    }
  }

  /** Applying the masked bits as a mask gives the mask. */
  lemma {:induction false} XorGivesMask(x: nat, k: nat, bits: nat)
    requires k < Pow(2, bits)
    ensures BitOp(XOR, x, BitOp(XOR, x, k, bits), bits) == k
  {
    if bits == 0 {
    } else {
      XorGivesMask(x / 2, k / 2, bits - 1);
      LowestDigit(XOR, x, k, bits);
    }
  }

  lemma {:induction false} XorZero(x: nat, y: nat, bits: nat)
    requires x < Pow(2, bits) && y < Pow(2, bits)
    ensures BitOp(XOR, x, y, bits) == 0 <==> x == y
  {
    if bits == 0 {
    } else {
      XorZero(x / 2, y / 2, bits - 1);
      LowestDigit(XOR, x, y, bits);
    }
  }

  /** All ones is neutral for AND, zero is neutral for OR. */
  lemma {:induction false} Neutral(x: nat, bits: nat)
    requires x < Pow(2, bits)
    ensures BitOp(AND, x, Pow(2, bits) - 1, bits) == x && BitOp(AND, Pow(2, bits) - 1, x, bits) == x
    ensures BitOp(AND, x, 0, bits) == 0 && BitOp(AND, 0, x, bits) == 0
    ensures BitOp(OR, x, 0, bits) == x && BitOp(OR, 0, x, bits) == x
  {
    if bits == 0 {
    } else {
      Neutral(x / 2, bits - 1);
      assert (Pow(2, bits) - 1) / 2 == Pow(2, bits - 1) - 1 && (Pow(2, bits) - 1) % 2 == 1;
    }
  }
}
