/** Exponential ElGamal: src/electionguard/elgamal.cpp. */
module ElGamal {
  import opened Arith
  import opened ModGroup
  import opened ElementQ
  import opened ElementP
  import opened Permutations

  datatype Ciphertext = Ciphertext(pad: nat, data: nat)

  const MAX_UINT64: nat := UINT64 - 1

  /** What a ciphertext of m under `nonce` is: (g^nonce, g^m * K^nonce). */
  ghost predicate Encrypts(grp: Group, k: nat, c: Ciphertext, m: int, nonce: int)
    requires 1 < grp.p && 0 < grp.q
  {
    c.pad == grp.Exp(grp.g, nonce) && c.data == grp.Form(k, m, nonce)
  }

  // ---------------------------------------------------------------- encryption

  /** Every message other than 1 is treated as 0. */
  function ElGamalEncrypt(grp: Group, m: nat, nonce: Word, publicKey: nat): (r: Result<Ciphertext>)
    requires 1 < grp.p
    ensures r.Err? <==> nonce == 0
  {
    if nonce == 0 then Err("elgamalEncrypt encryption requires a non-zero nonce")
    else
      Ok(EncryptWithPrecomputed(grp, m, PowModP(grp, grp.g, nonce), PowModP(grp, publicKey, nonce)))
  }

  function EncryptWithPrecomputed(grp: Group, m: nat, gToRho: nat, pubkeyToRho: nat): Ciphertext
    requires 1 < grp.p
  {
    Ciphertext(gToRho, if m == 1 then grp.Mul(grp.g, pubkeyToRho) else pubkeyToRho)
  }

  /** Both entry points encrypt the bit, and encrypt nothing else correctly when m is not a bit. */
  lemma EncryptIsEncryption(grp: Group, m: nat, nonce: Word, k: nat)
    requires grp.IsGroup() && grp.IsResidue(k) && grp.q == Q
    ensures var c := EncryptWithPrecomputed(grp, m, PowModP(grp, grp.g, nonce), PowModP(grp, k, nonce));
            && Encrypts(grp, k, c, if m == 1 then 1 else 0, nonce)
            && (Encrypts(grp, k, c, m, nonce) <==> m % Q == if m == 1 then 1 else 0)
            && grp.IsResidue(c.pad) && grp.IsResidue(c.data)
  {
    var bit := if m == 1 then 1 else 0;
    PowModPIsExp(grp, grp.g, nonce);
    PowModPIsExp(grp, k, nonce);
    grp.ExpBase(grp.g);
    grp.FormBase(k, nonce);
    grp.FormExp(k, bit, nonce, 1);
    grp.ExpExp(grp.g, nonce, 1);
    grp.FormInjective(k, m, bit, nonce, nonce);
    ModDiffZero(m, bit, Q);
  }

  // -------------------------------------------------------------- accumulation

  function Pads(cs: seq<Ciphertext>): seq<nat> {
    Map((c: Ciphertext) => c.pad, cs)
  }

  function Datas(cs: seq<Ciphertext>): seq<nat> {
    Map((c: Ciphertext) => c.data, cs)
  }

  /** The componentwise product that elgamalAdd computes. */
  function Accumulated(grp: Group, cs: seq<Ciphertext>): Ciphertext
    requires 1 < grp.p
  {
    Ciphertext(Product(Pads(cs)) % grp.p, Product(Datas(cs)) % grp.p)
  }

  method ElGamalAdd(grp: Group, ciphertexts: seq<Ciphertext>) returns (r: Result<Ciphertext>)
    requires 1 < grp.p
    ensures r.Err? <==> ciphertexts == []
    ensures r.Ok? ==> r.value == Accumulated(grp, ciphertexts)
  {
    if ciphertexts == [] {
      return Err("must have one or more ciphertexts");
    }
    var resultPad, resultData := 1, 1;
    ModIs(1, 0, 1, grp.p);
    for i := 0 to |ciphertexts|
      invariant Ciphertext(resultPad, resultData) == Accumulated(grp, ciphertexts[..i])
    {
      AccumulateStep(grp, ciphertexts[..i], ciphertexts[i]);
      assert ciphertexts[..i + 1] == ciphertexts[..i] + [ciphertexts[i]];
      resultPad := grp.Mul(resultPad, ciphertexts[i].pad);
      resultData := grp.Mul(resultData, ciphertexts[i].data);
    }
    assert ciphertexts[..|ciphertexts|] == ciphertexts;
    return Ok(Ciphertext(resultPad, resultData));
  }

  lemma AccumulateStep(grp: Group, cs: seq<Ciphertext>, c: Ciphertext)
    requires 1 < grp.p
    ensures Accumulated(grp, cs + [c]).pad == grp.Mul(Accumulated(grp, cs).pad, c.pad)
    ensures Accumulated(grp, cs + [c]).data == grp.Mul(Accumulated(grp, cs).data, c.data)
  {
    assert Pads(cs + [c])[..|cs|] == Pads(cs) && Datas(cs + [c])[..|cs|] == Datas(cs);
    ModMul(Product(Pads(cs)), c.pad, grp.p);
    ModMul(Product(Datas(cs)), c.data, grp.p);
  }

  /** The accumulation of encryptions encrypts the sum of the messages under the sum of the nonces. */
  lemma {:induction false} AccumulationIsHomomorphic(grp: Group, k: nat, cs: seq<Ciphertext>,
                                                     ms: seq<int>, nonces: seq<int>)
    requires grp.IsGroup() && grp.IsResidue(k) && |cs| == |ms| == |nonces|
    requires forall i :: 0 <= i < |cs| ==> Encrypts(grp, k, cs[i], ms[i], nonces[i])
    ensures Encrypts(grp, k, Accumulated(grp, cs), Sum(ms), Sum(nonces))
  {
    if cs == [] {
      ModIs(1, 0, 1, grp.p);
      grp.ExpBase(grp.g);
      grp.FormBase(k, 0);
    } else {
      var n := |cs| - 1;
      AccumulationIsHomomorphic(grp, k, cs[..n], ms[..n], nonces[..n]);
      AccumulateStep(grp, cs[..n], cs[n]);
      assert cs == cs[..n] + [cs[n]];
      grp.ExpAdd(grp.g, Sum(nonces[..n]), nonces[n]);
      grp.FormAdd(k, Sum(ms[..n]), Sum(nonces[..n]), ms[n], nonces[n]);
    }
  }

  /** Encryption only depends on the message and the nonce modulo q. */
  lemma EncryptsModulo(grp: Group, k: nat, c: Ciphertext, m: int, nonce: int)
    requires grp.IsGroup() && grp.IsResidue(k)
    ensures Encrypts(grp, k, c, m, nonce) <==> Encrypts(grp, k, c, m, nonce % grp.q)
    ensures Encrypts(grp, k, c, m, nonce) ==> grp.IsResidue(c.pad) && grp.IsResidue(c.data)
  {
    ModIs(nonce % grp.q, 0, nonce % grp.q, grp.q);
    grp.FormExp(k, m, nonce, 1);
    grp.ExpExp(grp.g, nonce, 1);
  }

  /** Products do not depend on the order of their factors, so neither does accumulation. */
  lemma {:induction false} ProductPermuted(xs: seq<nat>, ys: seq<nat>)
    requires multiset(xs) == multiset(ys)
    ensures Product(xs) == Product(ys)
  {
    if xs == [] {
      EmptyPermutation(ys);
    } else {
      var j := RemoveLast(xs, ys);
      ProductPermuted(xs[..|xs| - 1], ys[..j] + ys[j + 1..]);
      ProductWithout(ys, j);
    }
  }

  lemma ProductWithout(ys: seq<nat>, j: nat)
    requires j < |ys|
    ensures Product(ys) == Product(ys[..j] + ys[j + 1..]) * ys[j]
  {
    var before, after := Product(ys[..j]), Product(ys[j + 1..]);
    assert ys == ys[..j] + [ys[j]] + ys[j + 1..];
    assert (ys[..j] + [ys[j]])[..j] == ys[..j];
    ProductSplit(ys[..j] + [ys[j]], ys[j + 1..]);
    ProductSplit(ys[..j], ys[j + 1..]);
    MulShuffle(before, ys[j], after, 1);
  }

  lemma {:induction false} ProductSplit(xs: seq<nat>, ys: seq<nat>)
    ensures Product(xs + ys) == Product(xs) * Product(ys)
  {
    if ys == [] {
      assert xs + ys == xs;
    } else {
      var n := |ys| - 1;
      ProductSplit(xs, ys[..n]);
      assert (xs + ys)[..|xs| + n] == xs + ys[..n];
    }
  }

  lemma AccumulationIgnoresOrder(grp: Group, cs: seq<Ciphertext>, ds: seq<Ciphertext>)
    requires 1 < grp.p && multiset(cs) == multiset(ds)
    ensures Accumulated(grp, cs) == Accumulated(grp, ds)
  {
    MapPermuted((c: Ciphertext) => c.pad, cs, ds);
    MapPermuted((c: Ciphertext) => c.data, cs, ds);
    ProductPermuted(Pads(cs), Pads(ds));
    ProductPermuted(Datas(cs), Datas(ds));
  }

  // ---------------------------------------------------------------- decryption

  /** mod_inv_prime: the power P - 2. */
  function ModInversePrime(grp: Group, x: nat): nat
    requires 2 < grp.p
  {
    Pow(x, grp.p - 2) % grp.p
  }

  /** Divides by pad^secret and recognises 1 and g; anything else is reported as MAX_UINT64. */
  function Decrypt(grp: Group, c: Ciphertext, secret: Word): nat
    requires 2 < grp.p
  {
    var divisor := PowModP(grp, c.pad, secret);
    var result := grp.Mul(c.data, ModInversePrime(grp, divisor));
    if result == 1 then 0 else if result == grp.g then 1 else MAX_UINT64
  }

  lemma MultipleLessOne(x: int, q: int, n: int)
    ensures x * (q * n - 1) == -x + (x * n) * q
  {
    assert x * (q * n - 1) == x * (q * n) - x;
    assert x * (q * n) == (x * n) * q;
  }

  /** In the subgroup x^(P-2) is the inverse, because Q divides P - 1. */
  lemma InverseInSubgroup(grp: Group, x: int)
    requires Standard(grp)
    ensures ModInversePrime(grp, grp.Exp(grp.g, x)) == grp.Exp(grp.g, -x)
  {
    var g, q := grp.g, grp.q;
    grp.ExpPow(g, x, grp.p - 2);
    MultipleLessOne(x, q, grp.cofactor);
    ModShift(-x, x * grp.cofactor, q);
    grp.ExpCong(g, x * (grp.p - 2), -x);
  }

  /** Decryption with the matching key recovers a bit, and reports every other message as a failure. */
  lemma DecryptRecovers(grp: Group, secret: Word, c: Ciphertext, m: int, nonce: int)
    requires Standard(grp)
    requires Encrypts(grp, grp.Exp(grp.g, secret), c, m, nonce)
    ensures Decrypt(grp, c, secret) == if m % Q == 0 then 0 else if m % Q == 1 then 1 else MAX_UINT64
  {
    var g, k := grp.g, grp.Exp(grp.g, secret);
    grp.ExpExp(g, secret, nonce);
    grp.ExpExp(g, nonce, secret);
    PowModPIsExp(grp, c.pad, secret);
    assert secret * nonce == nonce * secret;
    InverseInSubgroup(grp, nonce * secret);
    grp.ExpInverse(g, nonce * secret);
    grp.ExpExp(g, m, 1);
    grp.MulAssoc(grp.Exp(g, m), grp.Exp(k, nonce), grp.Exp(g, -(nonce * secret)));
    grp.MulOne(grp.Exp(g, m));
    grp.ExpBase(g);
    grp.ExpInjective(g, m, 0);
    grp.ExpInjective(g, m, 1);
    ModDiffZero(m, 0, Q);
    ModDiffZero(m, 1, Q);
  }
}
