/** The zero-or-one proof and the selection-limit proof: src/electionguard/chaum_pedersen.cpp. */
module ChaumPedersen {
  import opened Arith
  import opened ModGroup
  import opened ElementQ
  import opened ElementP
  import opened ElGamal
  import opened Hashing
  import opened Precomputed
  import opened NonceSequence

  /** Everything the proofs share: the group, SHA-256 and the extended base hash q. */
  datatype Context = Context(grp: Group, sha: Sha, q: Word)

  ghost predicate GoodContext(ctx: Context, k: nat) {
    Standard(ctx.grp) && ctx.grp.IsResidue(k)
  }

  // ======================================================== zero-or-one proof

  datatype DisjunctiveProof = DisjunctiveProof(
    a0: nat, b0: nat, a1: nat, b1: nat, c0: Word, c1: Word, c: Word, v0: Word, v1: Word)

  function DisjunctiveChallenge(ctx: Context, m: Ciphertext, a0: nat, b0: nat, a1: nat, b1: nat): (c: nat)
    ensures c < Q
  {
    HashElems(ctx.sha, [Element(ctx.q), Element(m.pad), Element(m.data),
                        Element(a0), Element(b0), Element(a1), Element(b1)])
  }

  /** Everything the verifier checks apart from recomputing the challenge. */
  predicate DisjunctiveAccepts(grp: Group, proof: DisjunctiveProof, message: Ciphertext, k: nat)
    requires 1 < grp.p
  {
    var alpha, beta := message.pad, message.data;
    && IsValidResidue(grp, alpha) && IsValidResidue(grp, beta)
    && IsValidResidue(grp, proof.a0) && IsValidResidue(grp, proof.b0)
    && IsValidResidue(grp, proof.a1) && IsValidResidue(grp, proof.b1)
    && InBounds(proof.c0) && InBounds(proof.c1) && InBounds(proof.v0) && InBounds(proof.v1)
    && AddModQ(proof.c0, proof.c1) == proof.c
    && PowModP(grp, grp.g, proof.v0) == grp.Mul(proof.a0, PowModP(grp, alpha, proof.c0))
    && PowModP(grp, grp.g, proof.v1) == grp.Mul(proof.a1, PowModP(grp, alpha, proof.c1))
    && PowModP(grp, k, proof.v0) == grp.Mul(proof.b0, PowModP(grp, beta, proof.c0))
    && grp.Mul(PowModP(grp, grp.g, proof.c1), PowModP(grp, k, proof.v1))
       == grp.Mul(proof.b1, PowModP(grp, beta, proof.c1))
  }

  predicate DisjunctiveIsValid(ctx: Context, proof: DisjunctiveProof, message: Ciphertext, k: nat)
    requires 1 < ctx.grp.p
  {
    && DisjunctiveAccepts(ctx.grp, proof, message, k)
    && proof.c == DisjunctiveChallenge(ctx, message, proof.a0, proof.b0, proof.a1, proof.b1)
  }

  // -------------------------------------------------- the six constructors

  function MakeZero(ctx: Context, message: Ciphertext, r: Word, k: nat, u: Word, v: Word, w: Word): DisjunctiveProof
    requires 1 < ctx.grp.p
  {
    var grp := ctx.grp;
    MakeZeroFrom(ctx, message, r, u, v, w, PowModP(grp, grp.g, u), PowModP(grp, k, u), PowModP(grp, grp.g, v),
                 grp.Mul(PowModP(grp, grp.g, w), PowModP(grp, k, v)))
  }

  function MakeZeroWithPrecomputed(ctx: Context, message: Ciphertext, pre: TwoTriplesAndAQuadruple): DisjunctiveProof {
    MakeZeroFrom(ctx, message, pre.triple1.exp, pre.triple2.exp, pre.quad.exp1, pre.quad.exp2,
                 pre.triple2.gToExp, pre.triple2.pubkeyToExp, pre.quad.gToExp1, pre.quad.gToExp2MultByPubkeyToExp1)
  }

  function MakeZeroFrom(ctx: Context, message: Ciphertext, r: Word, u: Word, v: Word, w: Word,
                        a0: nat, b0: nat, a1: nat, b1: nat): DisjunctiveProof
  {
    var c := DisjunctiveChallenge(ctx, message, a0, b0, a1, b1);
    var c0 := SubModQ(c, w);
    var v0 := APlusBCModQ(u, c0, r);
    var v1 := APlusBCModQ(v, w, r);
    DisjunctiveProof(a0, b0, a1, b1, c0, w, c, v0, v1)
  }

  function MakeOne(ctx: Context, message: Ciphertext, r: Word, k: nat, u: Word, v: Word, w: Word): DisjunctiveProof
    requires 1 < ctx.grp.p
  {
    var grp := ctx.grp;
    MakeOneFrom(ctx, message, r, u, v, w, PowModP(grp, grp.g, v),
                grp.Mul(PowModP(grp, grp.g, w), PowModP(grp, k, v)), PowModP(grp, grp.g, u), PowModP(grp, k, u))
  }

  function MakeOneWithPrecomputed(ctx: Context, message: Ciphertext, pre: TwoTriplesAndAQuadruple): DisjunctiveProof {
    MakeOneFrom(ctx, message, pre.triple1.exp, pre.triple2.exp, pre.quad.exp1, pre.quad.exp2,
                pre.quad.gToExp1, pre.quad.gToExp2MultByPubkeyToExp1, pre.triple2.gToExp, pre.triple2.pubkeyToExp)
  }

  function MakeOneFrom(ctx: Context, message: Ciphertext, r: Word, u: Word, v: Word, w: Word,
                       a0: nat, b0: nat, a1: nat, b1: nat): DisjunctiveProof
  {
    var c := DisjunctiveChallenge(ctx, message, a0, b0, a1, b1);
    var c0 := SubModQ(Q, w);
    var c1 := AddModQ(c, w);
    var v0 := APlusBCModQ(v, c0, r);
    var v1 := APlusBCModQ(u, c1, r);
    DisjunctiveProof(a0, b0, a1, b1, c0, c1, c, v0, v1)
  }

  /** The seeded variants draw the simulated branch's challenge and response from the nonces. */
  function MakeZeroSeeded(ctx: Context, message: Ciphertext, r: Word, k: nat, c1: Word, v1: Word,
                          u0: Word): DisjunctiveProof
    requires 1 < ctx.grp.p && c1 <= Q
  {
    var grp := ctx.grp;
    var a0 := PowModP(grp, grp.g, u0);
    var b0 := PowModP(grp, k, u0);
    var qMinusC1 := SubFromQ(c1);
    var a1 := grp.Mul(PowModP(grp, grp.g, v1), PowModP(grp, message.pad, qMinusC1));
    var b1 := grp.Mul(grp.Mul(PowModP(grp, k, v1), PowModP(grp, grp.g, c1)), PowModP(grp, message.data, qMinusC1));
    var c := DisjunctiveChallenge(ctx, message, a0, b0, a1, b1);
    var c0 := SubModQ(c, c1);
    var v0 := APlusBCModQ(u0, c0, r);
    DisjunctiveProof(a0, b0, a1, b1, c0, c1, c, v0, v1)
  }

  function MakeOneSeeded(ctx: Context, message: Ciphertext, r: Word, k: nat, c0: Word, v0: Word,
                         u1: Word): DisjunctiveProof
    requires 1 < ctx.grp.p && c0 <= Q
  {
    var grp := ctx.grp;
    var qMinusC0 := SubFromQ(c0);
    var a0 := grp.Mul(PowModP(grp, grp.g, v0), PowModP(grp, message.pad, qMinusC0));
    var b0 := grp.Mul(PowModP(grp, k, v0), PowModP(grp, message.data, qMinusC0));
    var a1 := PowModP(grp, grp.g, u1);
    var b1 := PowModP(grp, k, u1);
    var c := DisjunctiveChallenge(ctx, message, a0, b0, a1, b1);
    var c1 := SubModQ(c, c0);
    var v1 := APlusBCModQ(u1, c1, r);
    DisjunctiveProof(a0, b0, a1, b1, c0, c1, c, v0, v1)
  }

  // ------------------------------------------------------ one branch of a proof

  /**
   * A branch for the plaintext i with commitments (g^x, g^y * K^x) and response x + c * r:
   * the first equation always holds, the second exactly when the g-exponents balance.
   */
  lemma BranchBalance(grp: Group, k: nat, message: Ciphertext, m: int, r: int, i: int,
                      x: int, y: int, c: int, v: int, a: nat, b: nat)
    requires grp.IsGroup() && grp.IsResidue(k) && Encrypts(grp, k, message, m, r)
    requires a == grp.Exp(grp.g, x) && b == grp.Form(k, y, x)
    requires v % grp.q == (x + c * r) % grp.q
    ensures grp.Exp(grp.g, v) == grp.Mul(a, grp.Exp(message.pad, c))
    ensures grp.Form(k, i * c, v) == grp.Mul(b, grp.Exp(message.data, c)) <==> (i * c - (y + m * c)) % grp.q == 0
  {
    hide Group.Mul, Group.Exp;
    assert r * c == c * r;
    grp.ExpExp(grp.g, r, c);
    grp.ExpAdd(grp.g, x, r * c);
    grp.ExpCong(grp.g, v, x + r * c);
    grp.FormExp(k, m, r, c);
    grp.FormAdd(k, y, x, m * c, r * c);
    grp.FormInjective(k, i * c, y + m * c, v, x + r * c);
  }

  /** What the bounds checks amount to. */
  ghost predicate ResponsesInBounds(proof: DisjunctiveProof) {
    0 < proof.c0 < Q && 0 < proof.c1 < Q && 0 < proof.v0 < Q && 0 < proof.v1 < Q
  }

  /** The shape every constructor produces: openings x0, y0, x1, y1 of the commitments. */
  ghost predicate Opened(ctx: Context, proof: DisjunctiveProof, message: Ciphertext, k: nat, r: int,
                         x0: int, y0: int, x1: int, y1: int)
    requires 1 < ctx.grp.p && 0 < ctx.grp.q
  {
    var grp := ctx.grp;
    && proof.a0 == grp.Exp(grp.g, x0) && proof.b0 == grp.Form(k, y0, x0)
    && proof.a1 == grp.Exp(grp.g, x1) && proof.b1 == grp.Form(k, y1, x1)
    && proof.v0 % Q == (x0 + proof.c0 * r) % Q
    && proof.v1 % Q == (x1 + proof.c1 * r) % Q
    && proof.c0 < Q && proof.c1 < Q && (proof.c0 + proof.c1) % Q == proof.c
    && proof.c == DisjunctiveChallenge(ctx, message, proof.a0, proof.b0, proof.a1, proof.b1)
  }

  /** The verifier's equations with exponentiation read in the subgroup. */
  ghost predicate BranchChecks(grp: Group, message: Ciphertext, k: nat, i: int, a: nat, b: nat, c: int, v: int)
    requires 1 < grp.p && 0 < grp.q
  {
    && grp.Exp(grp.g, v) == grp.Mul(a, grp.Exp(message.pad, c))
    && grp.Form(k, i * c, v) == grp.Mul(b, grp.Exp(message.data, c))
  }

  ghost predicate AllResidues(grp: Group, proof: DisjunctiveProof, message: Ciphertext)
    requires 1 < grp.p
  {
    && grp.IsResidue(message.pad) && grp.IsResidue(message.data)
    && grp.IsResidue(proof.a0) && grp.IsResidue(proof.b0) && grp.IsResidue(proof.a1) && grp.IsResidue(proof.b1)
  }

  lemma AcceptsMeans(grp: Group, proof: DisjunctiveProof, message: Ciphertext, k: nat)
    requires Standard(grp) && grp.IsResidue(k)
    ensures DisjunctiveAccepts(grp, proof, message, k) <==>
            && AllResidues(grp, proof, message)
            && ResponsesInBounds(proof)
            && AddModQ(proof.c0, proof.c1) == proof.c
            && BranchChecks(grp, message, k, 0, proof.a0, proof.b0, proof.c0, proof.v0)
            && BranchChecks(grp, message, k, 1, proof.a1, proof.b1, proof.c1, proof.v1)
  {
    hide Group.Mul, Group.Exp, Group.IsResidue, PowModPWide, AddModQ, IsValidResidue, Standard;
    var g := grp.g;
    StandardGives(grp);
    ValidResidueIsResidue(grp, message.pad);
    ValidResidueIsResidue(grp, message.data);
    ValidResidueIsResidue(grp, proof.a0);
    ValidResidueIsResidue(grp, proof.b0);
    ValidResidueIsResidue(grp, proof.a1);
    ValidResidueIsResidue(grp, proof.b1);
    if AllResidues(grp, proof, message) {
      PowModPIsExp(grp, g, proof.v0);
      PowModPIsExp(grp, g, proof.v1);
      PowModPIsExp(grp, g, proof.c1);
      PowModPIsExp(grp, k, proof.v0);
      PowModPIsExp(grp, k, proof.v1);
      PowModPIsExp(grp, message.pad, proof.c0);
      PowModPIsExp(grp, message.pad, proof.c1);
      PowModPIsExp(grp, message.data, proof.c0);
      PowModPIsExp(grp, message.data, proof.c1);
      grp.FormBase(k, proof.v0);
    }
  }

  lemma OpenedIsValid(ctx: Context, proof: DisjunctiveProof, message: Ciphertext, k: nat, m: int, r: int,
                      x0: int, y0: int, x1: int, y1: int)
    requires GoodContext(ctx, k) && Encrypts(ctx.grp, k, message, m, r)
    requires Opened(ctx, proof, message, k, r, x0, y0, x1, y1)
    ensures DisjunctiveIsValid(ctx, proof, message, k) <==>
            && ResponsesInBounds(proof)
            && (y0 + m * proof.c0) % Q == 0
            && (proof.c1 - (y1 + m * proof.c1)) % Q == 0
  {
    hide Group.Mul, Group.Exp, Group.IsResidue, DisjunctiveAccepts, HashElems, Standard;
    var grp, g := ctx.grp, ctx.grp.g;
    StandardGives(grp);
    BranchBalance(grp, k, message, m, r, 0, x0, y0, proof.c0, proof.v0, proof.a0, proof.b0);
    BranchBalance(grp, k, message, m, r, 1, x1, y1, proof.c1, proof.v1, proof.a1, proof.b1);
    NegatedZero(y0 + m * proof.c0);
    EncryptsModulo(grp, k, message, m, r);
    grp.ExpExp(g, x0, 0);
    grp.ExpExp(g, x1, 0);
    grp.FormExp(k, y0, x0, 0);
    grp.FormExp(k, y1, x1, 0);
    AcceptsMeans(grp, proof, message, k);
  }

  lemma NegatedZero(x: int)
    ensures (0 - x) % Q == 0 <==> x % Q == 0
  {
    ModDiffZero(0, x, Q);
  }

  // ------------------------------------- completeness, and rejection of a wrong claim

  /** Honest commitments (g^u, K^u) and (g^v, g^w * K^v) as forms. */
  lemma CommitmentForms(grp: Group, k: nat, u: Word, v: Word, w: Word)
    requires Standard(grp) && grp.IsResidue(k)
    ensures PowModP(grp, grp.g, u) == grp.Exp(grp.g, u)
    ensures PowModP(grp, k, u) == grp.Form(k, 0, u)
    ensures PowModP(grp, grp.g, v) == grp.Exp(grp.g, v)
    ensures grp.Mul(PowModP(grp, grp.g, w), PowModP(grp, k, v)) == grp.Form(k, w, v)
  {
    hide Group.Mul, Group.Exp, PowModPWide;
    PowModPIsExp(grp, grp.g, u);
    PowModPIsExp(grp, k, u);
    PowModPIsExp(grp, grp.g, v);
    PowModPIsExp(grp, grp.g, w);
    PowModPIsExp(grp, k, v);
    grp.FormBase(k, u);
  }

  /** The random zero proof verifies exactly for encryptions of zero whose challenges and responses are non-zero. */
  lemma MakeZeroIsValid(ctx: Context, message: Ciphertext, m: int, r: Word, k: nat, u: Word, v: Word, w: Word)
    requires GoodContext(ctx, k) && Encrypts(ctx.grp, k, message, m, r) && w < Q
    ensures var proof := MakeZero(ctx, message, r, k, u, v, w);
            DisjunctiveIsValid(ctx, proof, message, k) <==> m % Q == 0 && ResponsesInBounds(proof)
  {
    hide Group.Mul, Group.Exp, Group.IsResidue, DisjunctiveIsValid, HashElems, Standard, PowModPWide, IsPrime,
         APlusBCModQ, SubModQ, AddModQ;
    StandardGives(ctx.grp);
    var proof := MakeZero(ctx, message, r, k, u, v, w);
    CommitmentForms(ctx.grp, k, u, v, w);
    ChallengesAddUp(proof.c, w);
    ResponseReduced(u, proof.c0, r);
    ResponseReduced(v, w, r);
    OpenedIsValid(ctx, proof, message, k, m, r, u, 0, v, w);
    NegatedZero(m * w);
    NoZeroDivisors(m, proof.c0, Q);
    NoZeroDivisors(m, w, Q);
    SmallWord(proof.c0);
  }

  /** The random one proof verifies exactly for encryptions of one whose challenges and responses are non-zero. */
  lemma MakeOneIsValid(ctx: Context, message: Ciphertext, m: int, r: Word, k: nat, u: Word, v: Word, w: Word)
    requires GoodContext(ctx, k) && Encrypts(ctx.grp, k, message, m, r) && w < Q
    ensures var proof := MakeOne(ctx, message, r, k, u, v, w);
            DisjunctiveIsValid(ctx, proof, message, k) <==> (m - 1) % Q == 0 && ResponsesInBounds(proof)
  {
    hide Group.Mul, Group.Exp, Group.IsResidue, DisjunctiveIsValid, HashElems, Standard, PowModPWide, IsPrime,
         APlusBCModQ, SubModQ, AddModQ;
    StandardGives(ctx.grp);
    var proof := MakeOne(ctx, message, r, k, u, v, w);
    CommitmentForms(ctx.grp, k, u, v, w);
    ChallengesAddUp(proof.c, w);
    ResponseReduced(v, proof.c0, r);
    ResponseReduced(u, proof.c1, r);
    OpenedIsValid(ctx, proof, message, k, m, r, v, w, u, 0);
    // the zero branch balances when w + m * c0 vanishes, that is when c0 * (m - 1) does
    assert w + m * proof.c0 == (w + proof.c0) + (m - 1) * proof.c0;
    ModAdd(w + proof.c0, (m - 1) * proof.c0, Q);
    assert proof.c1 - m * proof.c1 == 0 - (m - 1) * proof.c1;
    NegatedZero((m - 1) * proof.c1);
    NoZeroDivisors(m - 1, proof.c0, Q);
    NoZeroDivisors(m - 1, proof.c1, Q);
    SmallWord(proof.c0);
  }

  /** The two challenges of each constructor add up to the total one. */
  lemma ChallengesAddUp(c: Word, w: Word)
    requires c < Q && w < Q
    ensures (SubModQ(c, w) + w) % Q == c && (w + SubModQ(c, w)) % Q == c
    ensures (SubModQ(Q, w) + AddModQ(c, w)) % Q == c
    ensures (w + SubModQ(Q, w)) % Q == 0
  {
    SmallOperands(c, w);
    SmallOperands(Q, w);
    var c0, c1 := SubModQ(Q, w), AddModQ(c, w);
    ModIs(w + SubModQ(c, w), if w <= c then 0 else 1, c, Q);
    ModIs(w + c0, if w == 0 then 0 else 1, 0, Q);
    ModIs(c0 + c1, if w == 0 || c + w >= Q then 0 else 1, c, Q);
  }

  lemma SmallWord(c: Word)
    requires c < Q
    ensures c % Q == c
  {
    ModIs(c, 0, c, Q);
  }

  lemma ResponseReduced(x: Word, c: Word, r: Word)
    ensures APlusBCModQ(x, c, r) % Q == (x + c * r) % Q
  {
    SmallWord((x + c * r) % Q);
  }

  /** Well-formed precomputed values make the very proof that fresh exponents would. */
  lemma PrecomputedProofs(ctx: Context, message: Ciphertext, k: nat, pre: TwoTriplesAndAQuadruple)
    requires 1 < ctx.grp.p && BundleFor(ctx.grp, k, pre)
    ensures MakeZeroWithPrecomputed(ctx, message, pre)
            == MakeZero(ctx, message, pre.triple1.exp, k, pre.triple2.exp, pre.quad.exp1, pre.quad.exp2)
    ensures MakeOneWithPrecomputed(ctx, message, pre)
            == MakeOne(ctx, message, pre.triple1.exp, k, pre.triple2.exp, pre.quad.exp1, pre.quad.exp2)
  {
    hide HashElems, PowModPWide, Group.Mul;
    ForMeansGenerated(ctx.grp, k, pre);
  }

  /** A simulated branch: dividing by alpha^c and beta^c through the exponent Q - c, even when c is zero. */
  lemma SimulatedForms(grp: Group, k: nat, message: Ciphertext, m: int, r: int, y: int, v: Word, c: Word)
    requires Standard(grp) && grp.IsResidue(k) && Encrypts(grp, k, message, m, r) && c <= Q
    ensures grp.Mul(PowModP(grp, grp.g, v), PowModP(grp, message.pad, SubFromQ(c))) == grp.Exp(grp.g, v - c * r)
    ensures grp.Mul(grp.Form(k, y, v), PowModP(grp, message.data, SubFromQ(c))) == grp.Form(k, y - m * c, v - c * r)
  {
    hide Group.Mul, Group.Exp, Group.IsResidue, Standard, PowModPWide, IsPrime;
    StandardGives(grp);
    var e := Q - c;
    EncryptsModulo(grp, k, message, m, r);
    PowModPIsExp(grp, grp.g, v);
    PowModPIsExp(grp, message.pad, e);
    PowModPIsExp(grp, message.data, e);
    grp.ExpExp(grp.g, r, e);
    grp.ExpAdd(grp.g, v, r * e);
    grp.FormExp(k, m, r, e);
    grp.FormAdd(k, y, v, m * e, r * e);
    WrapExponent(v, r, c);
    WrapExponent(y, m, c);
    grp.ExpCong(grp.g, v + r * e, v - c * r);
    grp.ExpCong(grp.g, y + m * e, y - m * c);
    grp.ExpCong(k, v + r * e, v - c * r);
  }

  lemma WrapExponent(x: int, r: int, c: int)
    ensures (x + r * (Q - c)) % Q == (x - c * r) % Q == (x - r * c) % Q
  {
    ModShift(x - c * r, r, Q);
    assert r * (Q - c) == r * Q - r * c;
    assert r * c == c * r;
  }

  lemma MakeZeroSeededIsValid(ctx: Context, message: Ciphertext, m: int, r: Word, k: nat, c1: Word, v1: Word, u0: Word)
    requires GoodContext(ctx, k) && Encrypts(ctx.grp, k, message, m, r) && c1 < Q
    ensures var proof := MakeZeroSeeded(ctx, message, r, k, c1, v1, u0);
            DisjunctiveIsValid(ctx, proof, message, k) <==> m % Q == 0 && ResponsesInBounds(proof)
  {
    hide Group.Mul, Group.Exp, Group.IsResidue, DisjunctiveIsValid, HashElems, Standard, PowModPWide, IsPrime,
         APlusBCModQ, SubModQ, AddModQ;
    StandardGives(ctx.grp);
    var grp := ctx.grp;
    var proof := MakeZeroSeeded(ctx, message, r, k, c1, v1, u0);
    CommitmentForms(grp, k, u0, v1, c1);
    grp.MulAssoc(PowModP(grp, k, v1), PowModP(grp, grp.g, c1), 1);
    SimulatedForms(grp, k, message, m, r, c1, v1, c1);
    ChallengesAddUp(proof.c, c1);
    ResponseReduced(u0, proof.c0, r);
    OpenedIsValid(ctx, proof, message, k, m, r, u0, 0, v1 - c1 * r, c1 - m * c1);
    NoZeroDivisors(m, proof.c0, Q);
    SmallWord(proof.c0);
  }

  lemma MakeOneSeededIsValid(ctx: Context, message: Ciphertext, m: int, r: Word, k: nat, c0: Word, v0: Word, u1: Word)
    requires GoodContext(ctx, k) && Encrypts(ctx.grp, k, message, m, r) && c0 < Q
    ensures var proof := MakeOneSeeded(ctx, message, r, k, c0, v0, u1);
            DisjunctiveIsValid(ctx, proof, message, k) <==> (m - 1) % Q == 0 && ResponsesInBounds(proof)
  {
    hide Group.Mul, Group.Exp, Group.IsResidue, DisjunctiveIsValid, HashElems, Standard, PowModPWide, IsPrime,
         APlusBCModQ, SubModQ, AddModQ;
    StandardGives(ctx.grp);
    var grp := ctx.grp;
    var proof := MakeOneSeeded(ctx, message, r, k, c0, v0, u1);
    CommitmentForms(grp, k, u1, v0, 0);
    CommitmentForms(grp, k, v0, v0, 0);
    SimulatedForms(grp, k, message, m, r, 0, v0, c0);
    ChallengesAddUp(proof.c, c0);
    ResponseReduced(u1, proof.c1, r);
    OpenedIsValid(ctx, proof, message, k, m, r, v0 - c0 * r, 0 - m * c0, u1, 0);
    assert proof.c1 - m * proof.c1 == 0 - (m - 1) * proof.c1;
    NegatedZero((m - 1) * proof.c1);
    NoZeroDivisors(m - 1, proof.c1, Q);
    SmallWord(proof.c1);
  }

  /** The three entry points: random values, a seed, or precomputed values. Plaintexts above one are refused. */
  datatype Source =
    | Random(u: Word, v: Word, w: Word)
    | Seeded(seed: Word)
    | FromBuffer(pre: TwoTriplesAndAQuadruple)

  /** The three secrets of a seeded proof. */
  function SeededSecrets(sha: Sha, seed: Word): (r: (nat, nat, nat))
    ensures r.0 < Q && r.1 < Q && r.2 < Q
  {
    var s := SeedWith(sha, seed, Text("disjoint-chaum-pedersen-proof"));
    (NonceAt(sha, s, 0), NonceAt(sha, s, 1), NonceAt(sha, s, 2))
  }

  /** No two of them are equal, unless the two texts hashed for them collide. */
  lemma SeededSecretsDiffer(sha: Sha, seed: Word)
    ensures var (x, y, z) := SeededSecrets(sha, seed);
            var s := SeedWith(sha, seed, Text("disjoint-chaum-pedersen-proof"));
            && (x == y ==> Collide(sha, NonceTexts(sha, s, 0), NonceTexts(sha, s, 1)))
            && (x == z ==> Collide(sha, NonceTexts(sha, s, 0), NonceTexts(sha, s, 2)))
            && (y == z ==> Collide(sha, NonceTexts(sha, s, 1), NonceTexts(sha, s, 2)))
  {
    hide NonceAt, SeedWith, NonceTexts, Collide;
    var s := SeedWith(sha, seed, Text("disjoint-chaum-pedersen-proof"));
    NonceBinds(sha, s, 0, s, 1);
    NonceBinds(sha, s, 0, s, 2);
    NonceBinds(sha, s, 1, s, 2);
  }

  /** None of them is used for two seeds, unless texts hashed for the two collide. */
  lemma SeededSecretsBind(sha: Sha, seed: Word, seed': Word)
    ensures var (x, y, z) := SeededSecrets(sha, seed);
            var (x', y', z') := SeededSecrets(sha, seed');
            var header := Text("disjoint-chaum-pedersen-proof");
            (x == x' || y == y' || z == z') ==>
              || seed == seed'
              || Collide(sha, SeedTexts(sha, seed, header), SeedTexts(sha, seed', header))
              || exists i :: 0 <= i < 3 && Collide(sha, NonceTexts(sha, SeedWith(sha, seed, header), i),
                                                   NonceTexts(sha, SeedWith(sha, seed', header), i))
  {
    hide NonceAt, SeedWith, NonceTexts, SeedTexts, Collide, Render;
    var header := Text("disjoint-chaum-pedersen-proof");
    var s, s' := SeedWith(sha, seed, header), SeedWith(sha, seed', header);
    SeedBinds(sha, seed, header, seed', header);
    NonceBinds(sha, s, 0, s', 0);
    NonceBinds(sha, s, 1, s', 1);
    NonceBinds(sha, s, 2, s', 2);
  }

  function Make(ctx: Context, message: Ciphertext, r: Word, k: nat, source: Source,
                plaintext: nat): Result<DisjunctiveProof>
    requires 1 < ctx.grp.p
  {
    if plaintext > 1 then Err("DisjunctiveChaumPedersenProof::make:: only supports plaintexts of 0 or 1")
    else
      match source
      case Random(u, v, w) =>
        Ok(if plaintext == 1 then MakeOne(ctx, message, r, k, u, v, w) else MakeZero(ctx, message, r, k, u, v, w))
      case Seeded(seed) =>
        var (x, y, z) := SeededSecrets(ctx.sha, seed);
        Ok(if plaintext == 1 then MakeOneSeeded(ctx, message, r, k, x, y, z)
           else MakeZeroSeeded(ctx, message, r, k, x, y, z))
      case FromBuffer(pre) =>
        Ok(if plaintext == 1 then MakeOneWithPrecomputed(ctx, message, pre)
           else MakeZeroWithPrecomputed(ctx, message, pre))
  }

  /**
   * What a caller has to provide: reduced random values, or values generated for this key and used for this message.
   */
  ghost predicate GoodSource(ctx: Context, k: nat, r: Word, source: Source)
    requires 1 < ctx.grp.p
  {
    match source
    case Random(_, _, w) => w < Q
    case Seeded(_) => true
    case FromBuffer(pre) => BundleFor(ctx.grp, k, pre) && r == pre.triple1.exp
  }

  /**
   * On every construction path and for a ciphertext of any message m, the proof verifies exactly when the
   * claimed plaintext is the message and no challenge or response came out as zero.
   */
  lemma MakeIsValid(ctx: Context, message: Ciphertext, m: int, r: Word, k: nat, source: Source, plaintext: nat)
    requires GoodContext(ctx, k) && Encrypts(ctx.grp, k, message, m, r) && GoodSource(ctx, k, r, source)
    ensures var proof := Make(ctx, message, r, k, source, plaintext);
            && (proof.Ok? <==> plaintext <= 1)
            && (proof.Ok? ==> (DisjunctiveIsValid(ctx, proof.value, message, k) <==>
                               (m - plaintext) % Q == 0 && ResponsesInBounds(proof.value)))
  {
    hide MakeZero, MakeOne, MakeZeroSeeded, MakeOneSeeded, DisjunctiveIsValid, Standard, HashElems;
    match source
    case Random(u, v, w) =>
      MakeZeroIsValid(ctx, message, m, r, k, u, v, w);
      MakeOneIsValid(ctx, message, m, r, k, u, v, w);
    case Seeded(seed) =>
      var (x, y, z) := SeededSecrets(ctx.sha, seed);
      MakeZeroSeededIsValid(ctx, message, m, r, k, x, y, z);
      MakeOneSeededIsValid(ctx, message, m, r, k, x, y, z);
    case FromBuffer(pre) =>
      PrecomputedProofs(ctx, message, k, pre);
      MakeZeroIsValid(ctx, message, m, r, k, pre.triple2.exp, pre.quad.exp1, pre.quad.exp2);
      MakeOneIsValid(ctx, message, m, r, k, pre.triple2.exp, pre.quad.exp1, pre.quad.exp2);
  }

  // ------------------------------------------------------------ special soundness

  /** Two accepting answers to different challenges c, c' give a logarithm of the target to the base b. */
  lemma ExtractLogarithm(grp: Group, b: nat, target: nat, a: nat, c: int, v: int, c': int, v': int, d: int)
    requires grp.IsGroup() && grp.IsResidue(b) && grp.IsResidue(target) && a < grp.p
    requires grp.Exp(b, v) == grp.Mul(a, grp.Exp(target, c))
    requires grp.Exp(b, v') == grp.Mul(a, grp.Exp(target, c'))
    requires ((c - c') * d) % grp.q == 1
    ensures target == grp.Exp(b, (v - v') * d)
  {
    hide Group.Mul, Group.Exp, Group.IsResidue;
    // a * target^(c + c') written in two ways
    grp.MulAssoc(a, grp.Exp(target, c), grp.Exp(target, c'));
    grp.MulAssoc(a, grp.Exp(target, c'), grp.Exp(target, c));
    grp.ExpAdd(target, c, c');
    grp.ExpAdd(target, c', c);
    assert grp.Mul(grp.Exp(b, v), grp.Exp(target, c')) == grp.Mul(grp.Exp(b, v'), grp.Exp(target, c));
    CrossDivide(grp, b, target, v, v', c, c');
    grp.ExpExp(b, v - v', d);
    grp.ExpExp(target, c - c', d);
    grp.ExpBase(target);
    ModIs(1, 0, 1, grp.q);
    grp.ExpCong(target, (c - c') * d, 1);
  }

  lemma CrossDivide(grp: Group, b: nat, t: nat, v: int, v': int, c: int, c': int)
    requires grp.IsGroup() && grp.IsResidue(b) && grp.IsResidue(t)
    requires grp.Mul(grp.Exp(b, v), grp.Exp(t, c')) == grp.Mul(grp.Exp(b, v'), grp.Exp(t, c))
    ensures grp.Exp(b, v - v') == grp.Exp(t, c - c')
  {
    hide Group.Mul, Group.Exp, Group.IsResidue;
    var x, y := grp.Exp(b, -v'), grp.Exp(t, -c');
    grp.MulSwap(grp.Exp(b, v), grp.Exp(t, c'), x, y);
    grp.MulSwap(grp.Exp(b, v'), grp.Exp(t, c), x, y);
    grp.ExpAdd(b, v, -v');
    grp.ExpAdd(t, c', -c');
    grp.ExpAdd(b, v', -v');
    grp.ExpAdd(t, c, -c');
    grp.ExpBase(b);
    grp.ExpBase(t);
    ExpSmall(grp, b, v - v');
    ExpSmall(grp, t, c - c');
    grp.MulOne(grp.Exp(b, v - v'));
    grp.MulOne(grp.Exp(t, c - c'));
  }

  lemma ExpSmall(grp: Group, b: nat, x: int)
    requires grp.IsGroup()
    ensures grp.Exp(b, x) < grp.p
  {
  }

  /** The same for the data equation g^(i*c) * K^v = b * beta^c: beta is g^i times a power of K. */
  lemma ExtractData(grp: Group, k: nat, i: int, beta: nat, b: nat, c: int, v: int, c': int, v': int, d: int)
    requires grp.IsGroup() && grp.IsResidue(k) && grp.IsResidue(beta) && b < grp.p
    requires grp.Form(k, i * c, v) == grp.Mul(b, grp.Exp(beta, c))
    requires grp.Form(k, i * c', v') == grp.Mul(b, grp.Exp(beta, c'))
    requires ((c - c') * d) % grp.q == 1
    ensures beta == grp.Form(k, i, (v - v') * d)
  {
    hide Group.Mul, Group.Exp, Group.IsResidue;
    var target := grp.Mul(beta, grp.Exp(grp.g, -i));
    grp.ExpExp(grp.g, -i, c);
    grp.ExpExp(grp.g, -i, c');
    grp.MulResidue(beta, grp.Exp(grp.g, -i), c);
    grp.MulResidue(beta, grp.Exp(grp.g, -i), c');
    ShiftEquation(grp, k, i, beta, b, c, v);
    ShiftEquation(grp, k, i, beta, b, c', v');
    ExtractLogarithm(grp, k, target, b, c, v, c', v', d);
    grp.MulAssoc(beta, grp.Exp(grp.g, -i), grp.Exp(grp.g, i));
    grp.ExpInverse(grp.g, i);
    ResidueSmall(grp, beta);
    grp.MulOne(beta);
    grp.MulAssoc(target, grp.Exp(grp.g, i), 1);
  }

  lemma ResidueSmall(grp: Group, x: nat)
    requires 1 < grp.p && grp.IsResidue(x)
    ensures x < grp.p
  {
  }

  /** Moving g^(i*c) to the other side of the data equation. */
  lemma ShiftEquation(grp: Group, k: nat, i: int, beta: nat, b: nat, c: int, v: int)
    requires grp.IsGroup() && grp.IsResidue(k) && grp.IsResidue(beta)
    requires grp.Form(k, i * c, v) == grp.Mul(b, grp.Exp(beta, c))
    ensures grp.Exp(k, v) == grp.Mul(b, grp.Exp(grp.Mul(beta, grp.Exp(grp.g, -i)), c))
  {
    hide Group.Mul, Group.Exp, Group.IsResidue;
    var g := grp.g;
    grp.ExpExp(g, -i, c);
    grp.MulResidue(beta, grp.Exp(g, -i), c);
    assert (-i) * c == -(i * c);
    grp.MulAssoc(b, grp.Exp(beta, c), grp.Exp(g, -(i * c)));
    grp.FormBase(k, v);
    grp.FormBase(k, -(i * c));
    FormCancelG(grp, k, i * c, v);
  }

  lemma FormCancelG(grp: Group, k: nat, x: int, v: int)
    requires grp.IsGroup() && grp.IsResidue(k)
    ensures grp.Mul(grp.Form(k, x, v), grp.Exp(grp.g, -x)) == grp.Exp(k, v)
  {
    hide Group.Mul, Group.Exp, Group.IsResidue;
    grp.FormBase(k, -x);
    grp.FormBase(k, v);
    grp.FormAdd(k, x, v, -x, 0);
  }

  /**
   * Special soundness of the zero-or-one verifier. Two transcripts with the same commitments that both pass the
   * bounds, the residue tests and the four equations, with different total challenges, yield a nonce that
   * explains the ciphertext as an encryption of zero or of one.
   */
  lemma DisjunctiveSpecialSoundness(ctx: Context, message: Ciphertext, k: nat, s: DisjunctiveProof, t: DisjunctiveProof)
      returns (bit: int, nonce: int)
    requires GoodContext(ctx, k)
    requires s.a0 == t.a0 && s.b0 == t.b0 && s.a1 == t.a1 && s.b1 == t.b1
    requires DisjunctiveAccepts(ctx.grp, s, message, k) && DisjunctiveAccepts(ctx.grp, t, message, k)
    requires s.c != t.c
    ensures (bit == 0 || bit == 1) && Encrypts(ctx.grp, k, message, bit, nonce)
  {
    hide Group.Mul, Group.Exp, Group.IsResidue, Standard, PowModPWide, DisjunctiveAccepts;
    var grp := ctx.grp;
    StandardGives(grp);
    AcceptsMeans(grp, s, message, k);
    AcceptsMeans(grp, t, message, k);
    if s.c0 != t.c0 {
      var d := InverseOfDifference(s.c0, t.c0);
      bit, nonce := 0, (s.v0 - t.v0) * d;
      ResidueSmall(grp, s.a0);
      ResidueSmall(grp, s.b0);
      ExtractLogarithm(grp, grp.g, message.pad, s.a0, s.c0, s.v0, t.c0, t.v0, d);
      ExtractData(grp, k, 0, message.data, s.b0, s.c0, s.v0, t.c0, t.v0, d);
    } else {
      assert s.c1 != t.c1;
      var d := InverseOfDifference(s.c1, t.c1);
      bit, nonce := 1, (s.v1 - t.v1) * d;
      ResidueSmall(grp, s.a1);
      ResidueSmall(grp, s.b1);
      ExtractLogarithm(grp, grp.g, message.pad, s.a1, s.c1, s.v1, t.c1, t.v1, d);
      ExtractData(grp, k, 1, message.data, s.b1, s.c1, s.v1, t.c1, t.v1, d);
    }
  }

  lemma InverseOfDifference(c: Word, c': Word) returns (d: nat)
    requires IsPrime(Q) && c < Q && c' < Q && c != c'
    ensures ((c - c') * d) % Q == 1
  {
    ModDiffZero(c, c', Q);
    SmallWord(c);
    SmallWord(c');
    d := Inverse(c - c', Q);
  }

  // --------------------------------------------------- what the challenge commits to

  function ChallengeItems(q: Word, m: Ciphertext, commitments: seq<nat>): (items: seq<Item>)
    ensures |items| == |commitments| + 3
  {
    [Element(q), Element(m.pad), Element(m.data)]
    + seq(|commitments|, i requires 0 <= i < |commitments| => Element(commitments[i]))
  }

  lemma ChallengeItemsFixed(sha: Sha, q: Word, m: Ciphertext, commitments: seq<nat>,
                            q': Word, m': Ciphertext, commitments': seq<nat>)
    requires |commitments| == |commitments'|
    requires HashElems(sha, ChallengeItems(q, m, commitments)) == HashElems(sha, ChallengeItems(q', m', commitments'))
    ensures || (q == q' && m == m' && commitments == commitments')
            || Collide(sha, RenderAll(sha, ChallengeItems(q, m, commitments)),
                       RenderAll(sha, ChallengeItems(q', m', commitments')))
  {
    hide HashElems, RenderAll, Collide;
    var items, items' := ChallengeItems(q, m, commitments), ChallengeItems(q', m', commitments');
    NumericItemsFixed(sha, items, items');
    if items == items' {
      assert items[0] == Element(q) && items'[0] == Element(q');
      assert items[1] == Element(m.pad) && items'[1] == Element(m'.pad);
      assert items[2] == Element(m.data) && items'[2] == Element(m'.data);
      forall i | 0 <= i < |commitments| ensures commitments[i] == commitments'[i] {
        assert items[i + 3] == Element(commitments[i]) && items'[i + 3] == Element(commitments'[i]);
      }
    }
  }

  /**
   * The challenge of the zero-or-one proof commits to everything it is taken over: for equal challenges the base hash,
   * the ciphertext and all four commitments are equal, or the two hashed texts collide.
   */
  lemma DisjunctiveChallengeBinds(ctx: Context, m: Ciphertext, a0: nat, b0: nat, a1: nat, b1: nat,
                                  ctx': Context, m': Ciphertext, a0': nat, b0': nat, a1': nat, b1': nat)
    requires ctx.sha == ctx'.sha
    requires DisjunctiveChallenge(ctx, m, a0, b0, a1, b1) == DisjunctiveChallenge(ctx', m', a0', b0', a1', b1')
    ensures || (ctx.q == ctx'.q && m == m' && a0 == a0' && b0 == b0' && a1 == a1' && b1 == b1')
            || Collide(ctx.sha, RenderAll(ctx.sha, ChallengeItems(ctx.q, m, [a0, b0, a1, b1])),
                       RenderAll(ctx.sha, ChallengeItems(ctx'.q, m', [a0', b0', a1', b1'])))
  {
    hide HashElems, RenderAll, Collide;
    assert ChallengeItems(ctx.q, m, [a0, b0, a1, b1])
           == [Element(ctx.q), Element(m.pad), Element(m.data), Element(a0), Element(b0), Element(a1), Element(b1)];
    assert ChallengeItems(ctx'.q, m', [a0', b0', a1', b1'])
           == [Element(ctx'.q), Element(m'.pad), Element(m'.data),
               Element(a0'), Element(b0'), Element(a1'), Element(b1')];
    ChallengeItemsFixed(ctx.sha, ctx.q, m, [a0, b0, a1, b1], ctx'.q, m', [a0', b0', a1', b1']);
  }

  /** So two accepted proofs with one challenge are about one ciphertext and hold the same commitments. */
  lemma AcceptedProofsBind(ctx: Context, proof: DisjunctiveProof, m: Ciphertext, k: nat,
                           proof': DisjunctiveProof, m': Ciphertext, k': nat)
    requires 1 < ctx.grp.p
    requires DisjunctiveIsValid(ctx, proof, m, k) && DisjunctiveIsValid(ctx, proof', m', k') && proof.c == proof'.c
    ensures || (m == m' && proof.a0 == proof'.a0 && proof.b0 == proof'.b0
                && proof.a1 == proof'.a1 && proof.b1 == proof'.b1)
            || Collide(ctx.sha,
                       RenderAll(ctx.sha, ChallengeItems(ctx.q, m, [proof.a0, proof.b0, proof.a1, proof.b1])),
                       RenderAll(ctx.sha, ChallengeItems(ctx.q, m', [proof'.a0, proof'.b0, proof'.a1, proof'.b1])))
  {
    hide HashElems, DisjunctiveAccepts, RenderAll, Collide, DisjunctiveChallenge, ChallengeItems;
    DisjunctiveChallengeBinds(ctx, m, proof.a0, proof.b0, proof.a1, proof.b1,
                              ctx, m', proof'.a0, proof'.b0, proof'.a1, proof'.b1);
  }

  // ========================================================= selection-limit proof

  datatype ConstantProof = ConstantProof(a: nat, b: nat, c: Word, v: Word, constant: nat)

  function ConstantChallenge(ctx: Context, m: Ciphertext, a: nat, b: nat): (c: nat)
    ensures c < Q
  {
    HashElems(ctx.sha, [Element(ctx.q), Element(m.pad), Element(m.data), Element(a), Element(b)])
  }

  /** u, a and b come from a precomputed triple if there is one, else from a nonce. */
  function MakeConstant(ctx: Context, message: Ciphertext, r: Word, k: nat, seed: Word,
                        triple: Triple, buffered: bool, constant: nat): ConstantProof
    requires 1 < ctx.grp.p
  {
    var t := if buffered then triple
             else GenerateTriple(ctx.grp, k,
                                 NonceAt(ctx.sha, SeedWith(ctx.sha, seed, Text("constant-chaum-pedersen-proof")), 0));
    var c := ConstantChallenge(ctx, message, t.gToExp, t.pubkeyToExp);
    ConstantProof(t.gToExp, t.pubkeyToExp, c, APlusBCModQ(t.exp, c, r), constant)
  }

  /** The exponent c * L is formed modulo P and passed as an ElementModP. */
  predicate ConstantAccepts(grp: Group, proof: ConstantProof, message: Ciphertext, k: nat)
    requires 1 < grp.p
  {
    var alpha, beta := message.pad, message.data;
    && IsValidResidue(grp, alpha) && IsValidResidue(grp, beta)
    && IsValidResidue(grp, proof.a) && IsValidResidue(grp, proof.b)
    && InBounds(proof.c) && InBounds(proof.v)
    && PowModP(grp, grp.g, proof.v) == grp.Mul(proof.a, PowModP(grp, alpha, proof.c))
    && grp.Mul(PowModPWide(grp, grp.g, Product([proof.c, proof.constant]) % grp.p), PowModP(grp, k, proof.v))
       == grp.Mul(proof.b, PowModP(grp, beta, proof.c))
  }

  predicate ConstantIsValid(ctx: Context, proof: ConstantProof, message: Ciphertext, k: nat)
    requires 1 < ctx.grp.p
  {
    && ConstantAccepts(ctx.grp, proof, message, k)
    && proof.c == ConstantChallenge(ctx, message, proof.a, proof.b)
  }

  /** c * L stays below P and within the width given to modExp, so it is the true integer exponent. */
  lemma LimitExponent(grp: Group, c: Word, limit: nat)
    requires Standard(grp) && limit < UINT64
    ensures Product([c, limit]) % grp.p == limit * c < EXPONENT_RANGE
  {
    hide Standard;
    StandardGives(grp);
    assert [c, limit][..1] == [c] && [c][..0] == [];
    assert Product([c]) == 1 * c;
    assert Product([c, limit]) == c * limit == limit * c;
    MulMonotone(c, limit, 0xFFFFFFFF_FFFFFFFF);
    assert limit * c <= c * 0xFFFFFFFF_FFFFFFFF < TWO_TO_320;
    ModIs(limit * c, 0, limit * c, grp.p);
  }

  lemma MulMonotone(k: nat, x: int, y: int)
    requires x <= y
    ensures k * x <= k * y
  {
  }

  lemma ConstantAcceptsMeans(grp: Group, proof: ConstantProof, message: Ciphertext, k: nat)
    requires Standard(grp) && grp.IsResidue(k) && proof.constant < UINT64
    ensures ConstantAccepts(grp, proof, message, k) <==>
            && grp.IsResidue(message.pad) && grp.IsResidue(message.data)
            && grp.IsResidue(proof.a) && grp.IsResidue(proof.b)
            && 0 < proof.c < Q && 0 < proof.v < Q
            && BranchChecks(grp, message, k, proof.constant, proof.a, proof.b, proof.c, proof.v)
  {
    hide Group.Mul, Group.Exp, Group.IsResidue, PowModPWide, IsValidResidue, Standard, Product;
    StandardGives(grp);
    ValidResidueIsResidue(grp, message.pad);
    ValidResidueIsResidue(grp, message.data);
    ValidResidueIsResidue(grp, proof.a);
    ValidResidueIsResidue(grp, proof.b);
    LimitExponent(grp, proof.c, proof.constant);
    if grp.IsResidue(message.pad) && grp.IsResidue(message.data) {
      PowModPIsExp(grp, grp.g, proof.v);
      PowModPIsExp(grp, grp.g, proof.constant * proof.c);
      PowModPIsExp(grp, k, proof.v);
      PowModPIsExp(grp, message.pad, proof.c);
      PowModPIsExp(grp, message.data, proof.c);
    }
  }

  /** A selection-limit proof with an opening u of its commitments. */
  lemma ConstantOpened(ctx: Context, proof: ConstantProof, message: Ciphertext, k: nat, m: int, r: int, u: int)
    requires GoodContext(ctx, k) && Encrypts(ctx.grp, k, message, m, r) && proof.constant < UINT64
    requires proof.a == ctx.grp.Exp(ctx.grp.g, u) && proof.b == ctx.grp.Form(k, 0, u)
    requires proof.v % Q == (u + proof.c * r) % Q
    ensures ConstantAccepts(ctx.grp, proof, message, k) <==>
            && 0 < proof.c < Q && 0 < proof.v < Q
            && (proof.constant * proof.c - (0 + m * proof.c)) % Q == 0
  {
    hide Group.Mul, Group.Exp, Group.IsResidue, ConstantAccepts, Standard;
    var grp := ctx.grp;
    StandardGives(grp);
    BranchBalance(grp, k, message, m, r, proof.constant, u, 0, proof.c, proof.v, proof.a, proof.b);
    EncryptsModulo(grp, k, message, m, r);
    grp.ExpExp(grp.g, u, 0);
    grp.FormExp(k, 0, u, 0);
    ConstantAcceptsMeans(grp, proof, message, k);
  }

  /**
   * The selection-limit proof verifies exactly when the ciphertext encrypts the limit and neither the
   * challenge nor the response is zero.
   */
  lemma MakeConstantIsValid(ctx: Context, message: Ciphertext, m: int, r: Word, k: nat, seed: Word,
                            triple: Triple, buffered: bool, constant: nat)
    requires GoodContext(ctx, k) && Encrypts(ctx.grp, k, message, m, r) && constant < UINT64
    requires buffered ==> TripleFor(ctx.grp, k, triple)
    ensures var proof := MakeConstant(ctx, message, r, k, seed, triple, buffered, constant);
            ConstantIsValid(ctx, proof, message, k) <==>
            (m - constant) % Q == 0 && 0 < proof.c < Q && 0 < proof.v < Q
  {
    hide Group.Mul, Group.Exp, Group.IsResidue, ConstantAccepts, HashElems, Standard, PowModPWide, IsPrime, APlusBCModQ;
    var grp := ctx.grp;
    StandardGives(grp);
    var proof := MakeConstant(ctx, message, r, k, seed, triple, buffered, constant);
    var u := if buffered then triple.exp
             else NonceAt(ctx.sha, SeedWith(ctx.sha, seed, Text("constant-chaum-pedersen-proof")), 0);
    GeneratedAreFor(grp, k, u, 0);
    CommitmentForms(grp, k, u, 0, 0);
    ResponseReduced(u, proof.c, r);
    ConstantOpened(ctx, proof, message, k, m, r, u);
    assert constant * proof.c - (0 + m * proof.c) == 0 - (m - constant) * proof.c;
    NegatedZero((m - constant) * proof.c);
    NoZeroDivisors(m - constant, proof.c, Q);
    SmallWord(proof.c);
  }

  /** Special soundness of the selection-limit verifier. */
  lemma ConstantSpecialSoundness(ctx: Context, message: Ciphertext, k: nat, s: ConstantProof, t: ConstantProof)
      returns (nonce: int)
    requires GoodContext(ctx, k)
    requires s.a == t.a && s.b == t.b && s.constant == t.constant < UINT64
    requires ConstantAccepts(ctx.grp, s, message, k) && ConstantAccepts(ctx.grp, t, message, k)
    requires s.c != t.c
    ensures Encrypts(ctx.grp, k, message, s.constant, nonce)
  {
    hide Group.Mul, Group.Exp, Group.IsResidue, Standard, PowModPWide, ConstantAccepts;
    var grp := ctx.grp;
    StandardGives(grp);
    ConstantAcceptsMeans(grp, s, message, k);
    ConstantAcceptsMeans(grp, t, message, k);
    ResidueSmall(grp, s.a);
    ResidueSmall(grp, s.b);
    var d := InverseOfDifference(s.c, t.c);
    nonce := (s.v - t.v) * d;
    ExtractLogarithm(grp, grp.g, message.pad, s.a, s.c, s.v, t.c, t.v, d);
    ExtractData(grp, k, s.constant, message.data, s.b, s.c, s.v, t.c, t.v, d);
  }

  /** The challenge of the selection-limit proof commits to the base hash, the ciphertext and both commitments. */
  lemma ConstantChallengeBinds(ctx: Context, m: Ciphertext, a: nat, b: nat,
                               ctx': Context, m': Ciphertext, a': nat, b': nat)
    requires ctx.sha == ctx'.sha
    requires ConstantChallenge(ctx, m, a, b) == ConstantChallenge(ctx', m', a', b')
    ensures || (ctx.q == ctx'.q && m == m' && a == a' && b == b')
            || Collide(ctx.sha, RenderAll(ctx.sha, ChallengeItems(ctx.q, m, [a, b])),
                       RenderAll(ctx.sha, ChallengeItems(ctx'.q, m', [a', b'])))
  {
    hide HashElems, RenderAll, Collide;
    assert ChallengeItems(ctx.q, m, [a, b])
           == [Element(ctx.q), Element(m.pad), Element(m.data), Element(a), Element(b)];
    assert ChallengeItems(ctx'.q, m', [a', b'])
           == [Element(ctx'.q), Element(m'.pad), Element(m'.data), Element(a'), Element(b')];
    ChallengeItemsFixed(ctx.sha, ctx.q, m, [a, b], ctx'.q, m', [a', b']);
  }

  lemma AcceptedLimitsBind(ctx: Context, proof: ConstantProof, m: Ciphertext, k: nat,
                           proof': ConstantProof, m': Ciphertext, k': nat)
    requires 1 < ctx.grp.p
    requires ConstantIsValid(ctx, proof, m, k) && ConstantIsValid(ctx, proof', m', k') && proof.c == proof'.c
    ensures || (m == m' && proof.a == proof'.a && proof.b == proof'.b)
            || Collide(ctx.sha, RenderAll(ctx.sha, ChallengeItems(ctx.q, m, [proof.a, proof.b])),
                       RenderAll(ctx.sha, ChallengeItems(ctx.q, m', [proof'.a, proof'.b])))
  {
    hide HashElems, ConstantAccepts, RenderAll, Collide, ConstantChallenge, ChallengeItems;
    ConstantChallengeBinds(ctx, m, proof.a, proof.b, ctx, m', proof'.a, proof'.b);
  }

  /** No two limit proofs from different seeds open the same commitment, unless texts hashed for the seeds collide. */
  lemma LimitSecretBinds(ctx: Context, m: Ciphertext, r: Word, k: nat, seed: Word, constant: nat, t: Triple,
                         m': Ciphertext, r': Word, k': nat, seed': Word, constant': nat, t': Triple)
    requires Standard(ctx.grp)
    requires MakeConstant(ctx, m, r, k, seed, t, false, constant).a
             == MakeConstant(ctx, m', r', k', seed', t', false, constant').a
    ensures var header := Text("constant-chaum-pedersen-proof");
            || seed == seed'
            || Collide(ctx.sha, SeedTexts(ctx.sha, seed, header), SeedTexts(ctx.sha, seed', header))
            || Collide(ctx.sha, NonceTexts(ctx.sha, SeedWith(ctx.sha, seed, header), 0),
                       NonceTexts(ctx.sha, SeedWith(ctx.sha, seed', header), 0))
  {
    hide NonceAt, SeedWith, NonceTexts, SeedTexts, Collide, Render, HashElems, Standard, PowModPWide, Group.Exp,
         APlusBCModQ;
    var sha, header := ctx.sha, Text("constant-chaum-pedersen-proof");
    var u, u' := NonceAt(sha, SeedWith(sha, seed, header), 0), NonceAt(sha, SeedWith(sha, seed', header), 0);
    StandardGives(ctx.grp);
    GeneratorIsResidue(ctx.grp);
    PowModPIsExp(ctx.grp, ctx.grp.g, u);
    PowModPIsExp(ctx.grp, ctx.grp.g, u');
    ctx.grp.ExpInjective(ctx.grp.g, u, u');
    ModDiffZero(u, u', Q);
    ModIs(u, 0, u, Q);
    ModIs(u', 0, u', Q);
    NonceBinds(sha, SeedWith(sha, seed, header), 0, SeedWith(sha, seed', header), 0);
    SeedBinds(sha, seed, header, seed', header);
  }

  lemma GeneratorIsResidue(grp: Group)
    requires grp.IsGroup()
    ensures grp.IsResidue(grp.g)
  {
  }
}
