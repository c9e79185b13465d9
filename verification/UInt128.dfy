/** 128-bit arithmetic on two 64-bit words: include/karamel/FStar_UInt128_Verified.h. */
module UInt128Words {
  import opened Arith
  import opened Bits

  const B: nat := 0x1_00000000_00000000
  const S: nat := 0x1_00000000
  const WIDE: nat := 0x1_00000000_00000000_00000000_00000000

  type U64 = n: int | 0 <= n < B witness 0

  // ------------------------------------------------------------- words of the machine

  function AddW(a: U64, b: U64): U64 { (a + b) % B }

  function SubW(a: U64, b: U64): U64 { (a - b) % B }

  function MulW(a: U64, b: U64): U64 { a * b % B }

  function NotW(a: U64): U64 { B - 1 - a }

  function BitW(op: BitFunction, a: U64, b: U64): U64 {
    BitOpBelow(op, a, b, 64);
    WordPowers();
    BitOp(op, a, b, 64)
  }

  function Two(s: nat): (p: nat)
    ensures p > 0
  {
    PowPositive(2, s);
    Pow(2, s)
  }

  function ShlW(a: U64, s: nat): U64
    requires s < 64
  {
    a * Two(s) % B
  }

  function ShrW(a: U64, s: nat): (r: U64)
    requires s < 64
  {
    QuotientBound(a, Two(s));
    a / Two(s)
  }

  lemma QuotientBound(a: nat, p: int)
    requires p > 0
    ensures 0 <= a / p <= a
  {
    var k := a / p;
    assert a == p * k + a % p;
    assert k >= 0;
    MulOrder(1, p, k);
  }

  lemma WordPowers()
    ensures Pow(2, 64) == B && Pow(2, 63) == B / 2
  {
    PowAdd(2, 8, 8);
    PowAdd(2, 16, 16);
    PowAdd(2, 32, 32);
    assert Pow(2, 8) == 256;
    assert Pow(2, 64) == 2 * Pow(2, 63);
  }

  // --------------------------------------------------- carries and masks, bit by bit

  function ConstantTimeCarry(a: U64, b: U64): U64 {
    ShrW(BitW(XOR, a, BitW(OR, BitW(XOR, a, b), BitW(XOR, SubW(a, b), b))), 63)
  }

  /** FStar_UInt64_eq_mask of include/karamel/FStar_UInt_8_16_32_64.h. */
  function EqMask64(a: U64, b: U64): U64 {
    var x := BitW(XOR, a, b);
    var minusX := AddW(NotW(x), 1);
    SubW(ShrW(BitW(OR, x, minusX), 63), 1)
  }

  function GteMask64(a: U64, b: U64): U64 {
    var q := BitW(OR, BitW(XOR, a, b), BitW(XOR, SubW(a, b), b));
    SubW(ShrW(BitW(XOR, a, q), 63), 1)
  }

  /** The sign bit of a bitwise operation is the operation on the sign bits. */
  lemma SignBit(op: BitFunction, a: U64, b: U64)
    ensures BitW(op, a, b) >= B / 2 <==> op(a >= B / 2, b >= B / 2)
    ensures ShrW(BitW(op, a, b), 63) == if op(a >= B / 2, b >= B / 2) then 1 else 0
  {
    WordPowers();
    HighestDigit(op, a, b, 64);
    var x := BitW(op, a, b);
    ModIs(x, if x >= B / 2 then 1 else 0, if x >= B / 2 then x - B / 2 else x, B / 2);
  }

  lemma Difference(a: U64, b: U64)
    ensures SubW(a, b) == if a < b then a - b + B else a - b
  {
    ModIs(a - b, if a < b then -1 else 0, if a < b then a - b + B else a - b, B);
  }

  /** One exactly when a < b, without a branch. */
  lemma CarryIsLess(a: U64, b: U64)
    ensures ConstantTimeCarry(a, b) == if a < b then 1 else 0
  {
    hide BitW, ShrW, SubW;
    Difference(a, b);
    var d := SubW(a, b);
    SignBit(XOR, a, b);
    SignBit(XOR, d, b);
    SignBit(OR, BitW(XOR, a, b), BitW(XOR, d, b));
    SignBit(XOR, a, BitW(OR, BitW(XOR, a, b), BitW(XOR, d, b)));
  }

  lemma MasksMean(a: U64, b: U64)
    ensures EqMask64(a, b) == if a == b then B - 1 else 0
    ensures GteMask64(a, b) == if a >= b then B - 1 else 0
  {
    CarryIsLess(a, b);
    EqMaskMeans(a, b);
    Difference(0, 1);
    Difference(1, 1);
  }

  lemma EqMaskMeans(a: U64, b: U64)
    ensures EqMask64(a, b) == if a == b then B - 1 else 0
  {
    var x := BitW(XOR, a, b);
    WordPowers();
    XorZero(a, b, 64);
    hide BitW, ShrW, SubW;
    var minusX := AddW(NotW(x), 1);
    assert minusX == if x == 0 then 0 else B - x;
    SignBit(OR, x, minusX);
    Difference(0, 1);
    Difference(1, 1);
  }

  // ----------------------------------------------------------------------- two words

  datatype UInt128 = UInt128(low: U64, high: U64) {
    function Value(): nat {
      high * B + low
    }
  }

  function Add(a: UInt128, b: UInt128): UInt128 {
    var low := AddW(a.low, b.low);
    UInt128(low, AddW(AddW(a.high, b.high), ConstantTimeCarry(low, b.low)))
  }

  function Sub(a: UInt128, b: UInt128): UInt128 {
    var low := SubW(a.low, b.low);
    UInt128(low, SubW(SubW(a.high, b.high), ConstantTimeCarry(a.low, low)))
  }

  lemma AddIsExact(a: UInt128, b: UInt128)
    ensures Add(a, b).Value() == (a.Value() + b.Value()) % WIDE
  {
    hide ConstantTimeCarry;
    WordSum(a.low, b.low);
    var low := AddW(a.low, b.low);
    CarryIsLess(low, b.low);
    var carry := if a.low + b.low >= B then 1 else 0;
    WordSum(a.high, b.high);
    WordSum(AddW(a.high, b.high), carry);
    hide AddW;
    var high := a.high + b.high + carry;
    ModIs(a.Value() + b.Value(), if high >= B then 1 else 0, Add(a, b).Value(), WIDE);
  }

  lemma WordSum(a: U64, b: U64)
    ensures AddW(a, b) == if a + b < B then a + b else a + b - B
  {
    ModIs(a + b, if a + b < B then 0 else 1, if a + b < B then a + b else a + b - B, B);
  }

  lemma SubIsExact(a: UInt128, b: UInt128)
    ensures Sub(a, b).Value() == (a.Value() - b.Value()) % WIDE
  {
    hide ConstantTimeCarry, SubW;
    var low := SubW(a.low, b.low);
    Difference(a.low, b.low);
    CarryIsLess(a.low, low);
    var borrow := if a.low < b.low then 1 else 0;
    Difference(a.high, b.high);
    Difference(SubW(a.high, b.high), borrow);
    var high := a.high - b.high - borrow;
    ModIs(a.Value() - b.Value(), if high < 0 then -1 else 0, Sub(a, b).Value(), WIDE);
  }

  // --------------------------------------------------------------------------- shifts

  function ShiftLeft(a: UInt128, s: nat): UInt128
    requires s < 128
  {
    if s == 0 then a
    else if s < 64 then UInt128(ShlW(a.low, s), AddW(ShlW(a.high, s), ShrW(a.low, 64 - s)))
    else UInt128(0, ShlW(a.low, s - 64))
  }

  function ShiftRight(a: UInt128, s: nat): UInt128
    requires s < 128
  {
    if s == 0 then a
    else if s < 64 then UInt128(AddW(ShrW(a.low, s), ShlW(a.high, 64 - s)), ShrW(a.high, s))
    else UInt128(ShrW(a.high, s - 64), 0)
  }

  /** A word split at a bit position: shifting up keeps the lower part, shifting down the upper. */
  lemma SplitWord(w: U64, p: nat, q: nat)
    requires p * q == B && p > 0 && q > 0
    ensures w * p == (w / q) * B + (w % q) * p
    ensures (w % q) * p <= B - p && w / q < p
  {
    var h, l := w / q, w % q;
    assert w == q * h + l;
    MulDistributes(q * h, l, p);
    MulShuffle(q, h, p, 1);
    assert l * p <= (q - 1) * p == B - p;
    assert h >= p ==> q * h >= q * p;
  }

  lemma MulDistributes(x: int, y: int, z: int)
    ensures (x + y) * z == x * z + y * z
  {
  }

  /** Both words multiplied: the carried part of the low word lands in the gap of the high one. */
  lemma Assemble(product: int, high: int, low: int, hh: nat, hl: nat, lh: nat, ll: nat)
    requires product == high * B + low && high == hh * B + hl && low == lh * B + ll
    requires ll < B && hl + lh < B
    ensures product % WIDE == (hl + lh) * B + ll
    ensures high % B == hl % B && low % B == ll
  {
    ModIs(product, hh, (hl + lh) * B + ll, WIDE);
    ModShift(hl, hh, B);
    ModIs(low, lh, ll, B);
  }

  lemma ShiftLeftIsExact(a: UInt128, s: nat)
    requires s < 128
    ensures ShiftLeft(a, s).Value() == a.Value() * Two(s) % WIDE
  {
    hide Pow, Two;
    if s == 0 {
      TwoAdds(0, 64);
      ModIs(a.Value(), 0, a.Value(), WIDE);
    } else if s < 64 {
      TwoAdds(s, 64 - s);
      LeftSmall(a.high, a.low, Two(s), Two(64 - s));
      SmallWord(a.high * Two(s) % B + a.low / Two(64 - s));
    } else {
      var t := Two(s - 64);
      TwoAdds(64, s - 64);
      LeftLarge(a.high, a.low, t);
    }
  }

  lemma LeftSmall(high: U64, low: U64, p: nat, q: nat)
    requires p * q == B && p > 0 && q > 0
    ensures high * p % B + low / q < B
    ensures (high * B + low) * p % WIDE == (high * p % B + low / q) * B + low * p % B
  {
    SplitWord(low, p, q);
    SplitWord(high, p, q);
    LeftWords(high, low, p, high / q, (high % q) * p, low / q, (low % q) * p);
  }

  lemma LeftWords(high: U64, low: U64, p: nat, hh: nat, hl: nat, lh: nat, ll: nat)
    requires high * p == hh * B + hl && low * p == lh * B + ll
    requires ll < B && hl + lh < B
    ensures high * p % B == hl && low * p % B == ll
    ensures (high * B + low) * p % WIDE == (hl + lh) * B + ll
  {
    MulDistributes(high * B, low, p);
    MulShuffle(high, B, p, 1);
    Assemble((high * B + low) * p, high * p, low * p, hh, hl, lh, ll);
    SmallWord(hl);
  }

  lemma LeftLarge(high: U64, low: U64, t: nat)
    ensures (high * B + low) * (B * t) % WIDE == low * t % B * B
  {
    var x, y := high * t, low * t;
    assert (high * B + low) * (B * t) == x * WIDE + y * B by {
      MulDistributes(high * B, low, B * t);
      MulShuffle(high, B, B, t);
      MulShuffle(high, B, t, B);
      assert low * (B * t) == (low * t) * B;
    }
    ModIs((high * B + low) * (B * t), x + y / B, y % B * B, WIDE);
  }

  lemma SmallWord(x: nat)
    ensures x < B ==> x % B == x
  {
    if x < B {
      ModIs(x, 0, x, B);
    }
  }

  lemma TwoAdds(s: nat, t: nat)
    ensures Two(s) * Two(t) == Two(s + t)
    ensures Two(64) == B && Two(0) == 1
  {
    PowAdd(2, s, t);
    WordPowers();
  }

  lemma ShiftRightIsExact(a: UInt128, s: nat)
    requires s < 128
    ensures ShiftRight(a, s).Value() == a.Value() / Two(s)
  {
    hide Pow, Two;
    if s == 0 {
      TwoAdds(0, 64);
    } else if s < 64 {
      TwoAdds(s, 64 - s);
      RightWords(a, Two(s), Two(64 - s));
      RightSmall(a.high, a.low, Two(s), Two(64 - s));
    } else {
      var t := Two(s - 64);
      TwoAdds(64, s - 64);
      RightLarge(a.high, a.low, t);
    }
  }

  lemma RightWords(a: UInt128, p: nat, q: nat)
    requires p * q == B && p > 0 && q > 0
    ensures a.low / p + (a.high % p) * q < B
    ensures (a.low / p + a.high * q % B) % B == a.low / p + (a.high % p) * q
  {
    SplitWord(a.high, q, p);
    SplitWord(a.low, q, p);
    ModIs(a.high * q, a.high / p, (a.high % p) * q, B);
    SmallWord(a.low / p + (a.high % p) * q);
  }

  lemma RightSmall(high: U64, low: U64, p: nat, q: nat)
    requires p * q == B && p > 0 && q > 0
    ensures (high * B + low) / p == (high / p) * B + ((high % p) * q + low / p)
  {
    var hh, hl, lh, ll := high / p, high % p, low / p, low % p;
    assert high == hh * p + hl && low == lh * p + ll;
    assert (hh * B) * p == (hh * p) * B;
    assert (hl * q) * p == hl * B by {
      MulShuffle(hl, q, p, 1);
    }
    MulDistributes(hh * B, hl * q + lh, p);
    MulDistributes(hl * q, lh, p);
    DivIs(high * B + low, hh * B + (hl * q + lh), ll, p);
  }

  lemma RightLarge(high: U64, low: U64, t: nat)
    requires t > 0
    ensures (high * B + low) / (B * t) == high / t
  {
    var k, r := high / t, high % t;
    assert high == t * k + r;
    assert (t * k) * B == k * (B * t);
    assert r * B + low < t * B;
    DivIs(high * B + low, k, r * B + low, B * t);
  }

  lemma DivIs(x: int, k: int, r: int, m: int)
    requires 0 < m && 0 <= r < m && x == k * m + r
    ensures x / m == k
  {
    ModIs(x, k, r, m);
    assert x == m * (x / m) + x % m;
    assert m * (x / m - k) == 0;
  }

  // ---------------------------------------------------------------------- comparisons

  predicate Eq(a: UInt128, b: UInt128) {
    a.low == b.low && a.high == b.high
  }

  predicate Gt(a: UInt128, b: UInt128) {
    a.high > b.high || (a.high == b.high && a.low > b.low)
  }

  predicate Lt(a: UInt128, b: UInt128) {
    a.high < b.high || (a.high == b.high && a.low < b.low)
  }

  predicate Gte(a: UInt128, b: UInt128) {
    a.high > b.high || (a.high == b.high && a.low >= b.low)
  }

  predicate Lte(a: UInt128, b: UInt128) {
    a.high < b.high || (a.high == b.high && a.low <= b.low)
  }

  function EqMask(a: UInt128, b: UInt128): UInt128 {
    var mask := BitW(AND, EqMask64(a.low, b.low), EqMask64(a.high, b.high));
    UInt128(mask, mask)
  }

  function GteMask(a: UInt128, b: UInt128): UInt128 {
    var mask := BitW(OR,
                     BitW(AND, GteMask64(a.high, b.high), NotW(EqMask64(a.high, b.high))),
                     BitW(AND, EqMask64(a.high, b.high), GteMask64(a.low, b.low)));
    UInt128(mask, mask)
  }

  /** Comparisons agree with the values, and a mask is all ones exactly when its comparison holds. */
  lemma ComparisonsAreExact(a: UInt128, b: UInt128)
    ensures Eq(a, b) <==> a.Value() == b.Value()
    ensures Gt(a, b) <==> a.Value() > b.Value()
    ensures Lt(a, b) <==> a.Value() < b.Value()
    ensures Gte(a, b) <==> a.Value() >= b.Value()
    ensures Lte(a, b) <==> a.Value() <= b.Value()
    ensures EqMask(a, b).Value() == if a.Value() == b.Value() then WIDE - 1 else 0
    ensures GteMask(a, b).Value() == if a.Value() >= b.Value() then WIDE - 1 else 0
  {
    hide EqMask64, GteMask64, BitW;
    MasksMean(a.low, b.low);
    MasksMean(a.high, b.high);
    MaskLaws(EqMask64(a.low, b.low));
    MaskLaws(GteMask64(a.low, b.low));
    MaskLaws(NotW(EqMask64(a.high, b.high)));
    MaskLaws(BitW(AND, GteMask64(a.high, b.high), NotW(EqMask64(a.high, b.high))));
  }

  lemma MaskLaws(x: U64)
    ensures BitW(AND, x, B - 1) == x && BitW(AND, B - 1, x) == x
    ensures BitW(AND, x, 0) == 0 && BitW(AND, 0, x) == 0
    ensures BitW(OR, x, 0) == x && BitW(OR, 0, x) == x
  {
    WordPowers();
    Neutral(x, 64);
  }

  // ------------------------------------------------------------------------- products

  function Combine(hi: U64, lo: U64): U64 {
    AddW(lo, hi * S % B)
  }

  function Mul32(x: U64, y: U64): UInt128
    requires y < S
  {
    var t := MulW(x % S, y);
    var u := AddW(MulW(x / S, y), t / S);
    UInt128(Combine(u, t % S), u / S)
  }

  function MulWide(x: U64, y: U64): UInt128 {
    WideFromHalves(x / S, x % S, y / S, y % S)
  }

  function WideFromHalves(xh: U64, xl: U64, yh: U64, yl: U64): UInt128 {
    var t := MulW(xl, yl);
    var t1 := AddW(MulW(xh, yl), t / S);
    var u := AddW(MulW(xl, yh), t1 % S);
    UInt128(Combine(u, t % S), AddW(AddW(MulW(xh, yh), t1 / S), u / S))
  }

  /** A product of half words leaves room for a half word. */
  lemma HalfProduct(x: nat, y: nat, carry: nat)
    requires x < S && y < S && carry < S
    ensures x * y + carry < B - S + 1 && MulW(x, y) == x * y && AddW(x * y, carry) == x * y + carry
  {
    assert x * y <= (S - 1) * y by {
      MulOrder(x, S - 1, y);
    }
    SmallWord(x * y);
    SmallWord(x * y + carry);
  }

  lemma MulOrder(x: nat, x': nat, y: nat)
    requires x <= x'
    ensures x * y <= x' * y
  {
  }

  lemma CombineIs(hi: U64, lo: nat)
    requires lo < S
    ensures Combine(hi, lo) == hi % S * S + lo
  {
    assert hi * S == hi / S * B + hi % S * S by {
      assert hi == hi / S * S + hi % S;
    }
    ModIs(hi * S, hi / S, hi % S * S, B);
    ModIs(lo + hi % S * S, 0, lo + hi % S * S, B);
  }

  lemma Mul32IsExact(x: U64, y: U64)
    requires y < S
    ensures Mul32(x, y).Value() == x * y
  {
    var xh, xl := x / S, x % S;
    var t := xl * y;
    HalfProduct(xl, y, 0);
    HalfProduct(xh, y, t / S);
    var u := xh * y + t / S;
    CombineIs(u, t % S);
    assert x * y == xh * y * S + t by {
      assert x == xh * S + xl;
    }
  }

  /** Nothing overflows on the way: the words are those of the schoolbook product. */
  lemma WordsFromHalves(xh: U64, xl: U64, yh: U64, yl: U64, ll: int, hl: int, lh: int, hh: int)
    requires xh < S && xl < S && yh < S && yl < S
    requires ll == xl * yl && hl == xh * yl && lh == xl * yh && hh == xh * yh
    ensures var t1 := hl + ll / S;
            var u := lh + t1 % S;
            && WideFromHalves(xh, xl, yh, yl).low == u % S * S + ll % S
            && WideFromHalves(xh, xl, yh, yl).high == hh + t1 / S + u / S
  {
    hide MulW, AddW, Combine, Two, Pow;
    SmallProduct(xl, yl, 0, ll);
    SmallProduct(xh, yl, ll / S, hl);
    var t1 := hl + ll / S;
    SmallProduct(xl, yh, t1 % S, lh);
    var u := lh + t1 % S;
    CombineIs(u, ll % S);
    SmallProduct(xh, yh, t1 / S, hh);
    SmallSum(hh + t1 / S, u / S);
  }

  /** HalfProduct for a product that has a name, so that nothing is multiplied where several meet. */
  lemma SmallProduct(x: nat, y: nat, carry: nat, product: int)
    requires x < S && y < S && carry < S && product == x * y
    ensures 0 <= product && product + carry < B - S + 1
    ensures MulW(x, y) == product && AddW(product, carry) == product + carry
  {
    hide MulW, AddW;
    HalfProduct(x, y, carry);
  }

  /** The two words are the exact product. */
  lemma MulWideIsExact(x: U64, y: U64)
    ensures MulWide(x, y).Value() == x * y
  {
    hide WideFromHalves;
    var xh, xl, yh, yl := x / S, x % S, y / S, y % S;
    assert x == xh * S + xl && y == yh * S + yl;
    Schoolbook(xh, xl, yh, yl);
    WordsFromHalves(xh, xl, yh, yl, xl * yl, xh * yl, xl * yh, xh * yh);
    CarriesAddUp(xl * yl, xh * yl, xl * yh, xh * yh);
  }

  /** Moving the upper halves of the partial products into the next column loses nothing. */
  lemma CarriesAddUp(ll: nat, hl: nat, lh: nat, hh: nat)
    ensures var t1 := hl + ll / S;
            var u := lh + t1 % S;
            (hh + t1 / S + u / S) * B + (u % S * S + ll % S) == hh * B + (hl + lh) * S + ll
  {
    var t1 := hl + ll / S;
    var u := lh + t1 % S;
    assert ll == ll / S * S + ll % S;
    assert t1 == t1 / S * S + t1 % S;
    assert u == u / S * S + u % S;
  }

  lemma Schoolbook(xh: nat, xl: nat, yh: nat, yl: nat)
    ensures (xh * S + xl) * (yh * S + yl) == xh * yh * B + (xh * yl + xl * yh) * S + xl * yl
  {
    var y := yh * S + yl;
    MulDistributes(xh * S, xl, y);
    assert (xh * S) * y == (xh * y) * S;
    assert xh * y == xh * yh * S + xh * yl;
    assert xl * y == xl * yh * S + xl * yl;
  }

  lemma SmallSum(a: U64, b: U64)
    ensures a + b < B ==> AddW(a, b) == a + b
  {
    if a + b < B {
      ModIs(a + b, 0, a + b, B);
    }
  }
}
