/** The order-q subgroup modulo p that ElementModP and ElementModQ live in. */
module ModGroup {
  import opened Arith

  /** Modulus p, subgroup order q, generator g and cofactor, as in include/electionguard/constants.h. */
  datatype Group = Group(p: nat, q: nat, g: nat, cofactor: nat) {

    /** What the proofs about exponents need. */
    ghost predicate IsGroup() {
      && 1 < p
      && IsPrime(q)
      && g != 1
      && IsResidue(g)
    }

    /** ElementModP::isValidResidue: strictly inside (0, p) and of order dividing q. */
    predicate IsResidue(x: nat)
      requires 1 < p
    {
      0 < x < p && Pow(x, q) % p == 1
    }

    function Mul(a: nat, b: nat): (r: nat)
      requires 1 < p
    {
      a * b % p
    }

    /** Exponentiation with the exponent read modulo q, so negative exponents are inverses. */
    function Exp(b: nat, x: int): (r: nat)
      requires 1 < p && 0 < q
    {
      Pow(b, x % q) % p
    }

    /** g^x * k^y: every value an honest prover handles has this form. */
    function Form(k: nat, x: int, y: int): (r: nat)
      requires 1 < p && 0 < q
    {
      Mul(Exp(g, x), Exp(k, y))
    }

    // --------------------------------------------------------------- exponent laws

    lemma MulAssoc(a: nat, b: nat, c: nat)
      requires 1 < p
      ensures Mul(Mul(a, b), c) == Mul(a, Mul(b, c))
      ensures Mul(a, b) == Mul(b, a)
    {
      ModMul(a * b, c, p);
      ModMul(a, b * c, p);
      assert a * b * c == a * (b * c);
      assert a * b == b * a;
    }

    lemma MulSwap(a: nat, b: nat, c: nat, d: nat)
      requires 1 < p
      ensures Mul(Mul(a, b), Mul(c, d)) == Mul(Mul(a, c), Mul(b, d))
    {
      ModMul(a * b, c * d, p);
      ModMul(Mul(a, b), c * d, p);
      ModMul(a * c, b * d, p);
      ModMul(Mul(a, c), b * d, p);
      MulShuffle(a, b, c, d);
    }

    lemma MulOne(a: nat)
      requires 1 < p
      ensures a < p ==> Mul(a, 1) == a && Mul(1, a) == a
    {
      if a < p {
        ModIs(a, 0, a, p);
      }
    }

    /** An exponent of a subgroup element only matters modulo q. */
    lemma PowPeriod(b: nat, e: nat)
      requires IsGroup() && IsResidue(b)
      ensures Pow(b, e) % p == Exp(b, e)
    {
      hide Pow;
      Euclid(e, q);
      PowWraps(b, q, e / q, e % q, p);
    }

    lemma ExpCong(b: nat, x: int, y: int)
      requires 1 < p && 0 < q && x % q == y % q
      ensures Exp(b, x) == Exp(b, y)
    {
    }

    lemma ExpAdd(b: nat, x: int, y: int)
      requires IsGroup() && IsResidue(b)
      ensures Mul(Exp(b, x), Exp(b, y)) == Exp(b, x + y)
    {
      PowAdd(b, x % q, y % q);
      ModMulCong(Exp(b, x), Pow(b, x % q), Exp(b, y), Pow(b, y % q), p) by {
        ModIs(Exp(b, x), 0, Exp(b, x), p);
        ModIs(Exp(b, y), 0, Exp(b, y), p);
      }
      PowPeriod(b, x % q + y % q);
      ModAdd(x % q, y, q);
      ModAdd(x, y, q);
    }

    lemma ExpBase(b: nat)
      requires IsGroup() && IsResidue(b)
      ensures Exp(b, 0) == 1 && Exp(b, 1) == b && Exp(b, q) == 1
    {
      ModIs(0, 0, 0, q);
      ModIs(1, 0, 1, q);
      ModIs(1, 0, 1, p);
      ModIs(b, 0, b, p);
      assert Pow(b, 1) == b * Pow(b, 0);
      PowPeriod(b, q);
    }

    /** Powers of subgroup elements are subgroup elements. */
    lemma ExpExp(b: nat, x: int, y: int)
      requires IsGroup() && IsResidue(b)
      ensures IsResidue(Exp(b, x))
      ensures Exp(Exp(b, x), y) == Exp(b, x * y)
    {
      ExpPow(b, x, y % q);
      ModMul(x, y, q);
      ExpCong(b, x * (y % q), x * y);
      ExpPow(b, x, q);
      ModIs(x * q, x, 0, q);
      ModIs(0, 0, 0, q);
      ExpCong(b, x * q, 0);
      ExpBase(b);
      if Exp(b, x) == 0 {
        ZeroPow(q);
      }
    }

    lemma ZeroPow(e: nat)
      requires 1 < p && 0 < e
      ensures Pow(0, e) % p == 0
    {
      assert Pow(0, e) == 0 * Pow(0, e - 1);
      ModIs(0, 0, 0, p);
    }

    /** Raising g^x to a plain natural power, as modExp does. */
    lemma ExpPow(b: nat, x: int, e: nat)
      requires IsGroup() && IsResidue(b)
      ensures Pow(Exp(b, x), e) % p == Exp(b, x * e)
    {
      PowMod(Pow(b, x % q), e, p);
      PowProduct(b, x % q, e);
      PowPeriod(b, (x % q) * e);
      ModMul(x, e, q);
    }

    lemma MulResidue(a: nat, b: nat, x: int)
      requires IsGroup() && IsResidue(a) && IsResidue(b)
      ensures IsResidue(Mul(a, b))
      ensures Exp(Mul(a, b), x) == Mul(Exp(a, x), Exp(b, x))
    {
      MulPow(a, b, x % q);
      MulPow(a, b, q);
      ModIs(1, 0, 1, p);
      ExpBase(a);
      if Mul(a, b) == 0 {
        ZeroPow(q);
      }
    }

    lemma MulPow(a: nat, b: nat, e: nat)
      requires 1 < p
      ensures Pow(Mul(a, b), e) % p == Mul(Pow(a, e) % p, Pow(b, e) % p)
    {
      PowMod(a * b, e, p);
      PowOfProduct(a, b, e);
      ModMul(Pow(a, e), Pow(b, e), p);
      ModMul(Pow(a, e) % p, Pow(b, e), p);
    }

    // ------------------------------------------------------- inverses and logarithms

    lemma ExpInverse(b: nat, x: int)
      requires IsGroup() && IsResidue(b)
      ensures Mul(Exp(b, x), Exp(b, -x)) == 1 && Mul(Exp(b, -x), Exp(b, x)) == 1
    {
      ExpAdd(b, x, -x);
      ExpAdd(b, -x, x);
      ExpBase(b);
    }

    /** A factor from the subgroup cancels. */
    lemma Cancel(a: nat, b: nat, k: nat, x: int)
      requires IsGroup() && IsResidue(k) && a < p && b < p
      ensures Mul(a, Exp(k, x)) == Mul(b, Exp(k, x)) <==> a == b
    {
      if Mul(a, Exp(k, x)) == Mul(b, Exp(k, x)) {
        MulAssoc(a, Exp(k, x), Exp(k, -x));
        MulAssoc(b, Exp(k, x), Exp(k, -x));
        ExpInverse(k, x);
        MulOne(a);
        MulOne(b);
      }
    }

    /** Discrete logarithms of a non-trivial subgroup element are unique modulo q. */
    lemma ExpInjective(b: nat, x: int, y: int)
      requires IsGroup() && IsResidue(b) && b != 1
      ensures Exp(b, x) == Exp(b, y) <==> (x - y) % q == 0
    {
      ModDiffZero(x, y, q);
      if Exp(b, x) == Exp(b, y) && (x - y) % q != 0 {
        ExpAdd(b, x, -y);
        ExpAdd(b, y, -y);
        ExpBase(b);
        assert Exp(b, x - y) == 1;
        var e := Inverse(x - y, q);
        ExpExp(b, x - y, e);
        ModIs(1, 0, 1, q);
        ExpCong(b, (x - y) * e, 1);
        ExpOfOne(e);
        assert false;
      }
    }

    lemma ExpOfOne(e: int)
      requires IsGroup()
      ensures Exp(1, e) == 1
    {
      PowOne(e % q);
      ModIs(1, 0, 1, p);
    }

    // ------------------------------------------------------- the two-generator form

    lemma FormExp(k: nat, x: int, y: int, e: int)
      requires IsGroup() && IsResidue(k)
      ensures IsResidue(Form(k, x, y))
      ensures Exp(Form(k, x, y), e) == Form(k, x * e, y * e)
    {
      ExpExp(g, x, e);
      ExpExp(k, y, e);
      MulResidue(Exp(g, x), Exp(k, y), e);
    }

    lemma FormAdd(k: nat, x: int, y: int, x': int, y': int)
      requires IsGroup() && IsResidue(k)
      ensures Mul(Form(k, x, y), Form(k, x', y')) == Form(k, x + x', y + y')
    {
      MulSwap(Exp(g, x), Exp(k, y), Exp(g, x'), Exp(k, y'));
      ExpAdd(g, x, x');
      ExpAdd(k, y, y');
    }

    lemma FormBase(k: nat, x: int)
      requires IsGroup() && IsResidue(k)
      ensures Form(k, x, 0) == Exp(g, x)
      ensures Form(k, 0, x) == Exp(k, x)
    {
      ExpBase(g);
      ExpBase(k);
      MulOne(Exp(g, x));
      MulOne(Exp(k, x));
    }

    /** With equal k-exponents, two forms agree exactly when their g-exponents do modulo q. */
    lemma FormInjective(k: nat, x: int, x': int, y: int, y': int)
      requires IsGroup() && IsResidue(k) && y % q == y' % q
      ensures Form(k, x, y) == Form(k, x', y') <==> (x - x') % q == 0
    {
      ExpCong(k, y, y');
      Cancel(Exp(g, x), Exp(g, x'), k, y);
      ExpInjective(g, x, x');
    }
  }
}
