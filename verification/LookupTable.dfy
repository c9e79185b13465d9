/** Fixed-base exponentiation from precomputed tables in Montgomery form: src/electionguard/lookup_table.hpp. */
module FixedBase {
  import opened Arith
  import opened ElementQ
  import opened Hex
  import opened ModGroup
  import ElementP

  const ORDER_BITS := 256
  const TABLE_LENGTH := 32

  /** A modulus with a Montgomery radix r and its inverse. */
  datatype Montgomery = Montgomery(p: nat, r: nat, rInverse: nat) {

    predicate Valid() {
      1 < p && r * rInverse % p == 1
    }

    function To(a: nat): (m: nat)
      requires Valid()
    {
      a * r % p
    }

    function From(m: nat): (a: nat)
      requires Valid()
    {
      m * rInverse % p
    }

    /** montgomery_mod_mul_stay_in_mont_form */
    function MulMont(a: nat, b: nat): (m: nat)
      requires Valid()
    {
      a * b * rInverse % p
    }

    lemma RoundTrip(a: nat)
      requires Valid()
      ensures From(To(a)) == a % p
    {
      ModMul(a * r, rInverse, p);
      assert a * r * rInverse == a * (r * rInverse);
      ModMul(a, r * rInverse, p);
    }

    /** Products of Montgomery forms are Montgomery forms of products. */
    lemma Homomorphic(a: nat, b: nat)
      requires Valid()
      ensures MulMont(To(a), To(b)) == To(a * b)
    {
      ModIs(To(a), 0, To(a), p);
      ModIs(To(b), 0, To(b), p);
      ModMulCong(To(a), a * r, To(b), b * r, p);
      ModIs(rInverse % p, 0, rInverse % p, p);
      ModMulCong(To(a) * To(b), (a * r) * (b * r), rInverse, rInverse, p);
      MulShuffle(a, r, b, r);
      assert (a * b) * (r * r) * rInverse == (a * b * r) * (r * rInverse) by {
        assert (a * b) * (r * r) == (a * b * r) * r;
        assert (a * b * r) * r * rInverse == (a * b * r) * (r * rInverse);
      }
      ModMul(a * b * r, r * rInverse, p);
    }
  }

  /** Digits base 256: what byte i of an exponent contributes. */
  lemma {:induction false} LittleValueAppend(bytes: seq<Byte>, b: Byte)
    ensures LittleValue(bytes + [b]) == LittleValue(bytes) + b * Pow(256, |bytes|)
  {
    if bytes == [] {
      assert [b][1..] == [];
    } else {
      LittleValueAppend(bytes[1..], b);
      assert (bytes + [b])[1..] == bytes[1..] + [b];
      assert b * (256 * Pow(256, |bytes| - 1)) == 256 * (b * Pow(256, |bytes| - 1));
    }
  }

  function Reversed<T>(s: seq<T>): (r: seq<T>) {
    seq(|s|, i requires 0 <= i < |s| => s[|s| - 1 - i])
  }

  lemma {:induction false} ReversedBigEndian(n: nat, size: nat)
    ensures |BigEndian(n, size)| == size
    ensures Reversed(BigEndian(n, size)) == LittleEndian(n, size)
  {
    LittleEndianSize(n, size);
    if size == 0 {
    } else {
      ReversedBigEndian(n / 256, size - 1);
      assert Reversed(BigEndian(n, size)) == [n % 256] + Reversed(BigEndian(n / 256, size - 1));
    }
  }

  lemma {:induction false} LittleEndianValue(n: nat, size: nat)
    requires n < Pow(256, size)
    ensures LittleValue(LittleEndian(n, size)) == n
  {
    if size == 0 {
    } else {
      LittleEndianValue(n / 256, size - 1);
      assert LittleEndian(n, size)[1..] == LittleEndian(n / 256, size - 1);
    }
  }

  lemma WordFitsTable(e: Word)
    ensures e < Pow(256, TABLE_LENGTH)
  {
    PowAdd(256, 16, 16);
    PowAdd(256, 8, 8);
    assert Pow(256, 8) == 0x1_00000000_00000000;
  }

  function Step(mont: Montgomery, base: nat, i: nat, j: nat): nat
    requires mont.Valid()
  {
    mont.To(Pow(base, j * Pow(256, i)))
  }

  lemma FirstStep(mont: Montgomery, base: nat)
    requires mont.Valid()
    ensures Step(mont, base, 0, 1) == mont.To(base)
  {
    assert Pow(256, 0) == 1 && Pow(base, 1) == base * Pow(base, 0);
  }

  /** Multiplying by the first entry of a row moves one column on; column 256 is the next row's first entry. */
  lemma NextStep(mont: Montgomery, base: nat, i: nat, j: nat)
    requires mont.Valid()
    ensures mont.MulMont(Step(mont, base, i, j), Step(mont, base, i, 1)) == Step(mont, base, i, j + 1)
    ensures Step(mont, base, i, ORDER_BITS) == Step(mont, base, i + 1, 1)
  {
    var w := Pow(256, i);
    assert 1 * w == w && (j + 1) * w == j * w + w;
    PowAdd(base, j * w, w);
    mont.Homomorphic(Pow(base, j * w), Pow(base, w));
    assert Pow(256, i + 1) == 256 * w;
  }

  class LookupTable {
    const mont: Montgomery
    const base: nat
    const table: array2<nat>
    const oneInMontgomeryForm: nat

    /** Entry (i, j) is the Montgomery form of base^(j * 256^i). */
    ghost predicate Valid()
      reads table
    {
      && mont.Valid()
      && table.Length0 == TABLE_LENGTH && table.Length1 == ORDER_BITS
      && oneInMontgomeryForm == mont.To(1)
      && forall i, j :: 0 <= i < TABLE_LENGTH && 1 <= j < ORDER_BITS ==> table[i, j] == Step(mont, base, i, j)
    }

    /** generateTable: each row ends with the base of the next one. */
    constructor (mont: Montgomery, base: nat)
      requires mont.Valid()
      ensures Valid() && fresh(table) && this.mont == mont && this.base == base
    {
      this.mont, this.base := mont, base;
      this.table := new nat[TABLE_LENGTH, ORDER_BITS]((i, j) => 0);
      this.oneInMontgomeryForm := mont.To(1);
      new;
      hide Step, Montgomery.To, Montgomery.MulMont;
      var rowBase := mont.To(base);
      var runningBase := rowBase;
      FirstStep(mont, base);
      for i := 0 to TABLE_LENGTH
        invariant runningBase == rowBase == Step(mont, base, i, 1)
        invariant forall r, c :: 0 <= r < i && 1 <= c < ORDER_BITS ==> table[r, c] == Step(mont, base, r, c)
      {
        for j := 1 to ORDER_BITS
          invariant rowBase == Step(mont, base, i, 1)
          invariant runningBase == Step(mont, base, i, j)
          invariant forall r, c :: 0 <= r < i && 1 <= c < ORDER_BITS ==> table[r, c] == Step(mont, base, r, c)
          invariant forall c :: 1 <= c < j ==> table[i, c] == Step(mont, base, i, c)
        {
          table[i, j] := runningBase;
          NextStep(mont, base, i, j);
          runningBase := mont.MulMont(runningBase, rowBase);
        }
        NextStep(mont, base, i, 1);
        rowBase := runningBase;
      }
    }

    /** The product of one entry per non-zero exponent byte is the power. */
    method PowModP(exponent: Word) returns (result: nat)
      requires Valid()
      ensures result == Pow(base, exponent) % mont.p
    {
      hide Step, Montgomery.To, Montgomery.From, Montgomery.MulMont, LittleValue, LittleEndian, Pow;
      ReversedBigEndian(exponent, TABLE_LENGTH);
      var exponentBytes := Reversed(BigEndian(exponent, TABLE_LENGTH));
      var montgomeryResult := oneInMontgomeryForm;
      EmptyPower(mont, base);
      for i := 0 to TABLE_LENGTH
        invariant montgomeryResult == mont.To(Pow(base, LittleValue(exponentBytes[..i])))
      {
        var slice := exponentBytes[i];
        assert exponentBytes[..i + 1] == exponentBytes[..i] + [slice];
        NextByte(mont, base, exponentBytes[..i], slice);
        if slice == 0 {
          continue;
        }
        montgomeryResult := mont.MulMont(montgomeryResult, table[i, slice]);
      }
      assert exponentBytes[..TABLE_LENGTH] == exponentBytes;
      WordFitsTable(exponent);
      LittleEndianValue(exponent, TABLE_LENGTH);
      mont.RoundTrip(Pow(base, exponent));
      result := mont.From(montgomeryResult);
    }
  }

  lemma EmptyPower(mont: Montgomery, base: nat)
    requires mont.Valid()
    ensures mont.To(Pow(base, LittleValue([]))) == mont.To(1)
  {
  }

  /** One more exponent byte multiplies by the entry it selects, and a zero byte changes nothing. */
  lemma NextByte(mont: Montgomery, base: nat, bytes: seq<Byte>, b: Byte)
    requires mont.Valid()
    ensures mont.MulMont(mont.To(Pow(base, LittleValue(bytes))), Step(mont, base, |bytes|, b))
            == mont.To(Pow(base, LittleValue(bytes + [b])))
    ensures b == 0 ==> LittleValue(bytes + [b]) == LittleValue(bytes)
  {
    hide Montgomery.To, Montgomery.MulMont, LittleValue;
    LittleValueAppend(bytes, b);
    PowAdd(base, LittleValue(bytes), b * Pow(256, |bytes|));
    mont.Homomorphic(Pow(base, LittleValue(bytes)), Pow(base, b * Pow(256, |bytes|)));
  }

  /** The cache of tables, keyed by the hex form of the base. */
  class LookupTableContext {
    const mont: Montgomery
    var keyMap: map<string, LookupTable>

    constructor (mont: Montgomery)
      ensures this.mont == mont && keyMap == map[]
    {
      this.mont, keyMap := mont, map[];
    }

    ghost predicate Valid()
      reads this, set k | k in keyMap :: keyMap[k].table
    {
      && mont.Valid()
      && forall k :: k in keyMap ==> keyMap[k].Valid() && keyMap[k].mont == mont && k == ToHex(keyMap[k].base)
    }

    method GetBaseLookupTable(key: string, base: nat) returns (table: LookupTable)
      requires Valid() && key == ToHex(base)
      modifies this
      ensures Valid() && table.Valid() && table.mont == mont && table.base == base
      ensures forall k :: k in old(keyMap) ==> k in keyMap && keyMap[k] == old(keyMap)[k]
      ensures key in keyMap && keyMap[key] == table
    {
      if key in keyMap {
        table := keyMap[key];
        ToHexInjective(table.base, base);
        return;
      }
      table := new LookupTable(mont, base);
      keyMap := keyMap[key := table];
    }

    /** Whatever was cached before, the answer is the power of the requested base. */
    method PowModP(base: nat, exponent: Word) returns (result: nat)
      requires Valid()
      modifies this
      ensures Valid() && result == Pow(base, exponent) % mont.p
    {
      var table := GetBaseLookupTable(ToHex(base), base);
      result := table.PowModP(exponent);
    }
  }

  /**
   * pow_mod_p for a 256-bit exponent: by the tables if the base is marked as fixed, by modular exponentiation if not.
   * The mark and the tables decide nothing but the way the power is found.
   */
  method PowModP(grp: Group, base: nat, isFixedBase: bool, exponent: Word, tables: LookupTableContext)
      returns (result: nat)
    requires 1 < grp.p && tables.Valid() && tables.mont.p == grp.p
    modifies tables
    ensures tables.Valid() && result == ElementP.PowModP(grp, base, exponent)
  {
    if exponent == 0 {
      return 1;
    }
    if isFixedBase {
      result := tables.PowModP(base, exponent);
      ElementP.PowModPExact(grp, base, exponent);
      return;
    }
    result := ElementP.PowModPWide(grp, base, exponent);
  }
}
