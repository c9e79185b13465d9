/** Integer facts the group code rests on: powers, remainders, primes and inverses modulo a prime. */
module Arith {

  function Pow(b: int, e: nat): (r: int)
    ensures 0 <= b ==> 0 <= r
  {
    if e == 0 then 1 else b * Pow(b, e - 1)
  }

  ghost predicate IsPrime(n: int) {
    2 <= n && forall m :: 2 <= m < n ==> n % m != 0
  }

  // ---------------------------------------------------------------- remainders

  lemma ModIs(x: int, k: int, r: int, m: int)
    requires 0 < m && 0 <= r < m && x == k * m + r
    ensures x % m == r
  {
    var d := x / m - k;
    assert x == m * (x / m) + x % m;
    assert m * d == r - x % m by {
      assert m * d == m * (x / m) - m * k;
    }
    assert d >= 1 ==> m * d >= m;
    assert d <= -1 ==> m * d <= -m;
  }

  lemma Euclid(x: nat, m: nat)
    requires 0 < m
    ensures x == m * (x / m) + x % m && 0 <= x / m && 0 <= m * (x / m)
  {
    assert x / m >= 0;
  }

  lemma ModShift(x: int, k: int, m: int)
    requires 0 < m
    ensures (x + k * m) % m == x % m
  {
    assert x == m * (x / m) + x % m;
    assert x + k * m == (x / m + k) * m + x % m;
    ModIs(x + k * m, x / m + k, x % m, m);
  }

  /** Replacing a summand by its remainder does not change the remainder of the sum. */
  lemma ModAdd(x: int, y: int, m: int)
    requires 0 < m
    ensures (x + y % m) % m == (x + y) % m
    ensures (x % m + y) % m == (x + y) % m
  {
    ModShift(x + y % m, y / m, m);
    ModShift(x % m + y, x / m, m);
    assert y == y / m * m + y % m && x == x / m * m + x % m;
  }

  lemma ModMul(x: int, y: int, m: int)
    requires 0 < m
    ensures (x * (y % m)) % m == (x * y) % m
    ensures ((x % m) * y) % m == (x * y) % m
  {
    assert y == y / m * m + y % m && x == x / m * m + x % m;
    assert x * y == x * (y % m) + (x * (y / m)) * m by {
      assert x * y == x * (y / m * m + y % m);
    }
    ModShift(x * (y % m), x * (y / m), m);
    assert x * y == (x % m) * y + (y * (x / m)) * m by {
      assert x * y == (x / m * m + x % m) * y;
    }
    ModShift((x % m) * y, y * (x / m), m);
  }

  /** Equal remainders survive multiplication. */
  lemma ModMulCong(x: int, x': int, y: int, y': int, m: int)
    requires 0 < m && x % m == x' % m && y % m == y' % m
    ensures (x * y) % m == (x' * y') % m
  {
    ModMul(x, y, m);
    ModMul(x % m, y, m);
    ModMul(x', y', m);
    ModMul(x' % m, y', m);
  }

  lemma ModDiffZero(x: int, y: int, m: int)
    requires 0 < m
    ensures x % m == y % m <==> (x - y) % m == 0
  {
    if x % m == y % m {
      assert x - y == (x / m - y / m) * m + 0 by {
        assert x == m * (x / m) + x % m && y == m * (y / m) + y % m;
      }
      ModIs(x - y, x / m - y / m, 0, m);
    }
    if (x - y) % m == 0 {
      ModShift(y, (x - y) / m, m);
      assert x - y == (x - y) / m * m;
    }
  }

  // ------------------------------------------------------------------- powers

  lemma {:induction false} PowAdd(b: int, x: nat, y: nat)
    ensures Pow(b, x + y) == Pow(b, x) * Pow(b, y)
  {
    if x == 0 {
      assert Pow(b, 0) == 1;
    } else {
      PowAdd(b, x - 1, y);
      PowStep(b, x);
      PowStep(b, x + y);
      hide Pow;
      MulAssociates(b, Pow(b, x - 1), Pow(b, y));
    }
  }

  lemma PowStep(b: int, e: nat)
    requires 0 < e
    ensures Pow(b, e) == b * Pow(b, e - 1)
  {
  }

  lemma MulAssociates(x: int, y: int, z: int)
    ensures x * (y * z) == (x * y) * z
  {
  }

  lemma {:induction false} PowProduct(b: int, x: nat, y: nat)
    ensures Pow(b, x * y) == Pow(Pow(b, x), y)
  {
    if y == 0 {
      assert x * y == 0;
    } else {
      PowProduct(b, x, y - 1);
      assert x * y == x + x * (y - 1);
      PowAdd(b, x, x * (y - 1));
    }
  }

  /** If b^q is one modulo p, exponents only matter modulo q. */
  lemma PowWraps(b: nat, q: nat, k: nat, r: nat, p: nat)
    requires 1 < p && Pow(b, q) % p == 1
    ensures q * k >= 0 && Pow(b, q * k + r) % p == Pow(b, r) % p
  {
    hide Pow;
    var whole, rest := Pow(b, q * k), Pow(b, r);
    PowAdd(b, q * k, r);
    PowProduct(b, q, k);
    PowMod(Pow(b, q), k, p);
    PowOne(k);
    ModIs(1, 0, 1, p);
    ModMulCong(whole, 1, rest, rest, p);
  }

  lemma MulShuffle(a: int, b: int, c: int, d: int)
    ensures (a * b) * (c * d) == (a * c) * (b * d)
  {
    assert (a * b) * (c * d) == a * (b * (c * d));
    assert b * (c * d) == c * (b * d);
    assert a * (c * (b * d)) == (a * c) * (b * d);
  }

  lemma {:induction false} PowOfProduct(a: int, b: int, e: nat)
    ensures Pow(a * b, e) == Pow(a, e) * Pow(b, e)
  {
    if e == 0 {
    } else {
      PowOfProduct(a, b, e - 1);
      MulShuffle(a, b, Pow(a, e - 1), Pow(b, e - 1));
    }
  }

  lemma {:induction false} PowOne(e: nat)
    ensures Pow(1, e) == 1
  {
    if e == 0 {
    } else {
      PowOne(e - 1);
    }
  }

  lemma {:induction false} PowPositive(b: int, e: nat)
    requires 0 < b
    ensures 0 < Pow(b, e)
  {
    if e == 0 {
    } else {
      PowPositive(b, e - 1);
    }
  }

  lemma {:induction false} PowMod(b: int, e: nat, m: int)
    requires 0 < m
    ensures Pow(b % m, e) % m == Pow(b, e) % m
  {
    if e == 0 {
    } else {
      PowMod(b, e - 1, m);
      ModIs(b % m, 0, b % m, m);
      ModMulCong(b % m, b, Pow(b % m, e - 1), Pow(b, e - 1), m);
    }
  }

  // ------------------------------------------------- Bezout and primes

  /** Extended Euclid: `x * a + y * b` is a common divisor of `a` and `b`. */
  lemma {:induction false} Bezout(a: nat, b: nat) returns (x: int, y: int, d: nat)
    requires a > 0 || b > 0
    ensures d == x * a + y * b && d > 0 && a % d == 0 && b % d == 0
    decreases b
  {
    if b == 0 {
      x, y, d := 1, 0, a;
    } else {
      var x', y';
      x', y', d := Bezout(b, a % b);
      x, y := y', x' - a / b * y';
      assert a == b * (a / b) + a % b;
      calc {
        x * a + y * b;
        y' * a + x' * b - (a / b * y') * b;
        { assert (a / b * y') * b == y' * (b * (a / b)); }
        x' * b + y' * a - y' * (b * (a / b));
        x' * b + y' * (a - b * (a / b));
      }
      assert b == d * (b / d) && a % b == d * (a % b / d);
      assert a == ((b / d) * (a / b) + a % b / d) * d + 0 by {
        assert b * (a / b) == (d * (b / d)) * (a / b);
        assert (d * (b / d)) * (a / b) == ((b / d) * (a / b)) * d;
      }
      ModIs(a, (b / d) * (a / b) + a % b / d, 0, d);
    }
  }

  /** Every non-zero residue modulo a prime has an inverse. */
  lemma Inverse(a: int, q: int) returns (e: nat)
    requires IsPrime(q) && a % q != 0
    ensures (a * e) % q == 1
  {
    var x, y, d := Bezout(a % q, q);
    assert d <= a % q by {
      assert a % q == d * (a % q / d);
      if d > a % q {
        ModIs(a % q, 0, a % q, d);
      }
    }
    assert d == 1;
    e := x % q;
    assert x * (a % q) == (-y) * q + 1;
    ModIs(x * (a % q), -y, 1, q);
    ModMul(x, a, q);
    ModMul(a, x, q);
    assert a * x == x * a;
  }

  /** Euclid's lemma: a prime modulus has no zero divisors. */
  lemma NoZeroDivisors(a: int, b: int, q: int)
    requires IsPrime(q)
    ensures (a * b) % q == 0 <==> a % q == 0 || b % q == 0
  {
    if a % q == 0 {
      ModMulCong(a, 0, b, b, q);
    } else if b % q == 0 {
      ModMulCong(a, a, b, 0, q);
    } else {
      var e := Inverse(a, q);
      Unfactor(a, b, e, q);
    }
  }

  /** With an inverse of a at hand, a * b cannot vanish unless b does. */
  lemma Unfactor(a: int, b: int, e: int, q: int)
    requires 2 <= q && (a * e) % q == 1
    ensures (a * b) % q == 0 ==> b % q == 0
  {
    assert (a * e) * b == (a * b) * e;
    ModIs(1, 0, 1, q);
    ModMulCong(a * e, 1, b, b, q);
    if (a * b) % q == 0 {
      ModIs(0, 0, 0, q);
      ModMulCong(a * b, 0, e, e, q);
    }
  }
}
