/** The values generated ahead of time by src/electionguard/precompute_buffers.cpp. */
module Precomputed {
  import opened Arith
  import opened ModGroup
  import opened ElementQ
  import opened ElementP

  datatype Triple = Triple(exp: Word, gToExp: nat, pubkeyToExp: nat)

  datatype Quadruple = Quadruple(exp1: Word, exp2: Word, gToExp1: nat, gToExp2MultByPubkeyToExp1: nat)

  datatype TwoTriplesAndAQuadruple = Bundle(triple1: Triple, triple2: Triple, quad: Quadruple)

  function GenerateTriple(grp: Group, publicKey: nat, rho: Word): Triple
    requires 1 < grp.p
  {
    Triple(rho, PowModP(grp, grp.g, rho), PowModP(grp, publicKey, rho))
  }

  function GenerateQuadruple(grp: Group, publicKey: nat, sigma: Word, rho: Word): Quadruple
    requires 1 < grp.p
  {
    Quadruple(sigma, rho, PowModP(grp, grp.g, sigma),
              grp.Mul(PowModP(grp, grp.g, rho), PowModP(grp, publicKey, sigma)))
  }

  /** The relations a consumer relies on. */
  predicate TripleFor(grp: Group, k: nat, t: Triple)
    requires 1 < grp.p
  {
    t.exp < Q && t.gToExp == Pow(grp.g, t.exp) % grp.p && t.pubkeyToExp == Pow(k, t.exp) % grp.p
  }

  predicate QuadrupleFor(grp: Group, k: nat, t: Quadruple)
    requires 1 < grp.p
  {
    && t.exp1 < Q && t.exp2 < Q
    && t.gToExp1 == Pow(grp.g, t.exp1) % grp.p
    && t.gToExp2MultByPubkeyToExp1 == Pow(grp.g, t.exp2) * Pow(k, t.exp1) % grp.p
  }

  predicate BundleFor(grp: Group, k: nat, b: TwoTriplesAndAQuadruple)
    requires 1 < grp.p
  {
    TripleFor(grp, k, b.triple1) && TripleFor(grp, k, b.triple2) && QuadrupleFor(grp, k, b.quad)
  }

  lemma GeneratedAreFor(grp: Group, k: nat, x: Word, y: Word)
    requires 1 < grp.p && x < Q && y < Q
    ensures TripleFor(grp, k, GenerateTriple(grp, k, x))
    ensures QuadrupleFor(grp, k, GenerateQuadruple(grp, k, x, y))
  {
    PowModPExact(grp, grp.g, x);
    PowModPExact(grp, grp.g, y);
    PowModPExact(grp, k, x);
    ModMul(Pow(grp.g, y), Pow(k, x), grp.p);
    ModMul(PowModP(grp, grp.g, y), Pow(k, x), grp.p);
  }

  /** Values that satisfy the relations are the generated ones. */
  lemma ForMeansGenerated(grp: Group, k: nat, b: TwoTriplesAndAQuadruple)
    requires 1 < grp.p && BundleFor(grp, k, b)
    ensures b == Bundle(GenerateTriple(grp, k, b.triple1.exp), GenerateTriple(grp, k, b.triple2.exp),
                        GenerateQuadruple(grp, k, b.quad.exp1, b.quad.exp2))
  {
    GeneratedAreFor(grp, k, b.triple1.exp, 0);
    GeneratedAreFor(grp, k, b.triple2.exp, 0);
    GeneratedAreFor(grp, k, b.quad.exp1, b.quad.exp2);
  }
}
