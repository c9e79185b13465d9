/** Arithmetic modulo Q on 256-bit words, as ElementModQ's global functions compute it. */
module ElementQ {
  import opened Arith

  /** One more than the largest 256-bit word. */
  const W: nat := 0x1_00000000_00000000_00000000_00000000_00000000_00000000_00000000_00000000

  /** One more than the largest value of the fixed-width integers. */
  const UINT32: nat := 0x1_0000_0000
  const UINT64: nat := 0x1_00000000_00000000

  /** The standard small prime, 2^256 - 189. */
  const Q: nat := W - 189

  /** W - Q: what a carry out of 256 bits is worth modulo Q. */
  const Q_INVERSE_OFFSET: nat := 0xbd

  type Word = n: int | 0 <= n < W witness 0

  datatype Result<+T> = Ok(value: T) | Err(reason: string)

  // ------------------------------------------------------------- specification

  /** When `add_mod_q` returns the sum modulo Q. */
  predicate AddExact(a: Word, b: Word) {
    (a <= Q && b <= Q) || a + b < W - 1
  }

  /** The value of `add_mod_q`, including what its branches for operands above Q really compute. */
  function AddModQ(a: Word, b: Word): (r: nat)
    ensures r < Q
  {
    if AddExact(a, b) then (a + b) % Q
    else if a > Q && b > Q then (a + b + 2) % Q
    else if a + b == W - 1 + Q then 0
    else (a + b + 1) % Q
  }

  predicate SubExact(a: Word, b: Word) {
    b <= a || b <= Q
  }

  function SubModQ(a: Word, b: Word): (r: nat)
    ensures r < Q
  {
    if SubExact(a, b) then (a - b) % Q
    else if b - a < Q then (a - b - 1) % Q
    else (a - b + 188) % Q
  }

  /** The guards of the extra branches are exactly where the sum and the difference go wrong. */
  lemma AddSubExactness(a: Word, b: Word)
    ensures AddModQ(a, b) == (a + b) % Q <==> AddExact(a, b)
    ensures SubModQ(a, b) == (a - b) % Q <==> SubExact(a, b)
  {
    if !AddExact(a, b) {
      ModDiffZero(a + b + 2, a + b, Q);
      ModDiffZero(a + b + 1, a + b, Q);
    }
    if !SubExact(a, b) {
      ModDiffZero(a - b - 1, a - b, Q);
      ModDiffZero(a - b + 188, a - b, Q);
    }
  }

  /** Sum and difference of reduced operands without division; Q itself may be the minuend. */
  lemma SmallOperands(a: Word, b: Word)
    requires a <= Q && b < Q
    ensures SubModQ(a, b) == if a < b then a - b + Q else if a - b == Q then 0 else a - b
    ensures AddModQ(a, b) == if a + b < Q then a + b else a + b - Q
  {
    ModIs(a - b, if a < b then -1 else if a - b == Q then 1 else 0,
          if a < b then a - b + Q else if a - b == Q then 0 else a - b, Q);
    ModIs(a + b, if a + b < Q then 0 else 1, if a + b < Q then a + b else a + b - Q, Q);
  }

  function APlusBCModQ(a: Word, b: Word, c: Word): (r: nat)
    ensures r < Q
  {
    (a + b * c) % Q
  }

  /** `sub_from_q`, for the operands it is called with; zero is sent to Q itself. */
  function SubFromQ(a: Word): Word
    requires a <= Q
  {
    Q - a
  }

  function SumModQ(xs: seq<Word>): (r: nat)
    ensures r < Q
  {
    if xs == [] then 0 else AddModQ(SumModQ(xs[..|xs| - 1]), xs[|xs| - 1])
  }

  function Sum(xs: seq<int>): int {
    if xs == [] then 0 else Sum(xs[..|xs| - 1]) + xs[|xs| - 1]
  }

  /** The list form is the mathematical sum modulo Q. */
  lemma {:induction false} SumModQIsSum(xs: seq<Word>)
    requires forall i :: 0 <= i < |xs| ==> xs[i] <= Q
    ensures SumModQ(xs) == Sum(xs) % Q
  {
    if xs == [] {
    } else {
      SumModQIsSum(xs[..|xs| - 1]);
      ModAdd(Sum(xs[..|xs| - 1]), xs[|xs| - 1], Q);
    }
  }

  // ------------------------------------------------------------------ the code

  /** Bignum256::add: the low 256 bits and the carry. */
  method WordAdd(a: Word, b: Word) returns (low: Word, carry: nat)
    ensures low + carry * W == a + b && carry <= 1
  {
    low, carry := if a + b < W then a + b else a + b - W, if a + b < W then 0 else 1;
  }

  /** Bignum256::sub: the low 256 bits and the borrow. */
  method WordSub(a: Word, b: Word) returns (low: Word, borrow: nat)
    ensures low - borrow * W == a - b && borrow <= 1
  {
    low, borrow := if a < b then a - b + W else a - b, if a < b then 1 else 0;
  }

  method AddModQWords(lhs: Word, rhs: Word) returns (result: nat)
    ensures result == AddModQ(lhs, rhs)
    ensures lhs <= Q && rhs <= Q ==> result == (lhs + rhs) % Q
  {
    var addResult, carry := WordAdd(lhs, rhs);
    if carry > 0 || addResult == W - 1 {
      var bigA, bigB := Q < lhs, Q < rhs;
      if bigA || bigB {
        var offset, lost := 0, 0;
        if bigA {
          offset, lost := WordAdd(offset, Q_INVERSE_OFFSET);
          offset, lost := WordAdd(offset, 1);
        }
        if bigB {
          offset, lost := WordAdd(offset, Q_INVERSE_OFFSET);
          offset, lost := WordAdd(offset, 1);
        }
        assert offset == if bigA && bigB then 380 else 190;
        addResult, lost := WordAdd(addResult, offset);
        assert bigA && bigB ==> lost == 1;
      } else {
        var lost;
        addResult, lost := WordAdd(addResult, Q_INVERSE_OFFSET);
      }
    }
    result := addResult % Q;
    AddReduced(lhs, rhs, addResult);
  }

  /** The adjusted word is the specified value up to multiples of Q. */
  lemma AddReduced(a: Word, b: Word, w: Word)
    requires AddExact(a, b) ==> w == a + b || w == a + b - Q
    requires !AddExact(a, b) ==>
      w == if a > Q && b > Q then a + b + 2 - 2 * Q else if a + b == W - 1 + Q then 0 else a + b + 1 - Q
    ensures w % Q == AddModQ(a, b)
  {
    ModShift(a + b, -1, Q);
    ModShift(a + b + 1, -1, Q);
    ModShift(a + b + 2, -2, Q);
    ModIs(0, 0, 0, Q);
  }

  method AddModQList(elements: seq<Word>) returns (result: Result<nat>)
    ensures result.Err? <==> elements == []
    ensures result.Ok? ==> result.value == SumModQ(elements)
  {
    if elements == [] {
      return Err("must have one or more elements");
    }
    var total := 0;
    for i := 0 to |elements|
      invariant total < Q && total == SumModQ(elements[..i])
    {
      assert elements[..i + 1][..i] == elements[..i];
      total := AddModQWords(total, elements[i]);
    }
    assert elements[..|elements|] == elements;
    return Ok(total);
  }

  method SubModQWords(a: Word, b: Word) returns (result: nat)
    ensures result == SubModQ(a, b)
    ensures b <= Q ==> result == (a - b) % Q
  {
    var subResult, borrow := WordSub(a, b);
    if borrow > 0 {
      var bigA, bigB := Q < a, Q < b;
      if bigA || bigB {
        var offset, lost := WordAdd(0, Q_INVERSE_OFFSET);
        offset, lost := WordAdd(offset, 1);
        assert offset == 190;
        subResult, lost := WordSub(subResult, offset);
      } else {
        var lost;
        subResult, lost := WordSub(subResult, Q_INVERSE_OFFSET);
      }
    }
    result := subResult % Q;
    SubReduced(a, b, subResult);
  }

  lemma SubReduced(a: Word, b: Word, w: Word)
    requires SubExact(a, b) ==> w == a - b || w == a - b + Q
    requires !SubExact(a, b) ==> w == if b - a < Q then a - b - 1 + Q else a - b + 188 + 2 * Q
    ensures w % Q == SubModQ(a, b)
  {
    ModShift(a - b, 1, Q);
    ModShift(a - b - 1, 1, Q);
    ModShift(a - b + 188, 2, Q);
  }

  /** The product is reduced first; the carry of the sum becomes a fifth word before the last reduction. */
  method APlusBCModQWords(a: Word, b: Word, c: Word) returns (result: nat)
    ensures result == APlusBCModQ(a, b, c)
  {
    var bc := b * c;
    var bcModQ := bc % Q;
    var low, carry := WordAdd(a, bcModQ);
    var fiveWords := low + carry * W;
    result := fiveWords % Q;
    ModAdd(a, bc, Q);
  }

  method SubFromQWords(a: Word) returns (result: Word)
    ensures a <= Q ==> result == SubFromQ(a)
    ensures a > Q ==> result == W + Q - a
  {
    var lost;
    result, lost := WordSub(Q, a);
  }
}
