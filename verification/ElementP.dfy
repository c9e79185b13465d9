/** Arithmetic modulo P as ElementModP's global functions compute it: src/electionguard/group.cpp. */
module ElementP {
  import opened Arith
  import opened ModGroup
  import opened ElementQ

  /** The group with the standard small prime: P - 1 = Q * R, and P is far above 320 bits. */
  ghost predicate Standard(grp: Group) {
    && grp.IsGroup()
    && grp.q == Q
    && grp.p == Q * grp.cofactor + 1
    && TWO_TO_320 < grp.p
  }

  lemma StandardGives(grp: Group)
    requires Standard(grp)
    ensures grp.IsGroup() && grp.q == Q && TWO_TO_320 < grp.p
  {
  }

  /** No product of a 256-bit and a 64-bit value reaches it. */
  const TWO_TO_320: nat := 0x1_00000000_00000000_00000000_00000000_00000000_00000000_00000000_00000000_00000000_00000000

  /** modExp is told that the exponent has MAX_P_SIZE = 512 bits: higher bits are not read. */
  const EXPONENT_RANGE: nat :=
    0x1_00000000_00000000_00000000_00000000_00000000_00000000_00000000_00000000_00000000_00000000_00000000_00000000_00000000_00000000_00000000_00000000

  function PowModPWide(grp: Group, base: nat, exponent: nat): nat
    requires 1 < grp.p
  {
    if exponent == 0 then 1 else Pow(base, exponent % EXPONENT_RANGE) % grp.p
  }

  /** The overload for ElementModQ exponents. */
  function PowModP(grp: Group, base: nat, exponent: Word): nat
    requires 1 < grp.p
  {
    PowModPWide(grp, base, exponent)
  }

  lemma PowModPExact(grp: Group, base: nat, exponent: nat)
    requires 1 < grp.p && exponent < EXPONENT_RANGE
    ensures PowModPWide(grp, base, exponent) == Pow(base, exponent) % grp.p
  {
    ModIs(exponent, 0, exponent, EXPONENT_RANGE);
    ModIs(1, 0, 1, grp.p);
  }

  /** Of any exponent the low 512 bits are read. */
  lemma PowModPReads(grp: Group, base: nat, exponent: nat)
    requires grp.IsGroup() && grp.IsResidue(base)
    ensures PowModPWide(grp, base, exponent) == grp.Exp(base, exponent % EXPONENT_RANGE)
  {
    PowModPExact(grp, base, exponent % EXPONENT_RANGE);
    grp.PowPeriod(base, exponent % EXPONENT_RANGE);
    ModIs(exponent % EXPONENT_RANGE, 0, exponent % EXPONENT_RANGE, EXPONENT_RANGE);
    if exponent == 0 {
      ModIs(0, 0, 0, EXPONENT_RANGE);
    } else {
      ModIs(1, 0, 1, grp.p);
    }
  }

  /** On subgroup elements pow_mod_p is exponentiation with the exponent modulo q. */
  lemma PowModPIsExp(grp: Group, base: nat, exponent: nat)
    requires grp.IsGroup() && grp.IsResidue(base) && exponent < EXPONENT_RANGE
    ensures PowModPWide(grp, base, exponent) == grp.Exp(base, exponent)
  {
    PowModPExact(grp, base, exponent);
    grp.PowPeriod(base, exponent);
  }

  /** ElementModP::isValidResidue raises to the power Q by pow_mod_p. */
  predicate IsValidResidue(grp: Group, x: nat)
    requires 1 < grp.p
  {
    0 < x < grp.p && PowModP(grp, x, Q) == 1
  }

  lemma ValidResidueIsResidue(grp: Group, x: nat)
    requires 1 < grp.p && grp.q == Q
    ensures IsValidResidue(grp, x) <==> grp.IsResidue(x)
  {
    PowModPExact(grp, x, Q);
  }

  /** ElementModQ::isInBounds is strict at both ends. */
  predicate InBounds(x: Word) {
    0 < x < Q
  }

  function Product(xs: seq<nat>): nat {
    if xs == [] then 1 else Product(xs[..|xs| - 1]) * xs[|xs| - 1]
  }

  /** The list form multiplies into a running product that is reduced at every step. */
  method MulModPList(grp: Group, elems: seq<nat>) returns (product: nat)
    requires 1 < grp.p
    ensures product == Product(elems) % grp.p
  {
    product := 1;
    ModIs(1, 0, 1, grp.p);
    for i := 0 to |elems|
      invariant product == Product(elems[..i]) % grp.p
    {
      assert elems[..i + 1][..i] == elems[..i];
      ModMul(Product(elems[..i]), elems[i], grp.p);
      product := grp.Mul(product, elems[i]);
    }
    assert elems[..|elems|] == elems;
  }
}
