/**
 The number theory the blind-signature protocol rests on: residues, powers, Euclid's
 algorithm, primes, Fermat's little theorem and the RSA identity. Everything is proved from
 the integers up, so a key is nothing more than two primes and two exponents.
 */
module NumberTheory {

  // ---------------------------------------------------------------- residues

  /** Division with remainder determines quotient and remainder. */
  lemma DivModUnique(y: int, n: int, q: int, r: int)
    requires n > 0 && 0 <= r < n && y == q * n + r
    ensures y / n == q && y % n == r
  {
    var d := y / n - q;
    assert d * n == r - y % n by {
      assert y == (y / n) * n + y % n;
      assert (y / n) * n - q * n == d * n;
    }
    assert d >= 1 ==> d * n >= n;
    assert d <= -1 ==> d * n <= -n;
  }

  lemma ModAddMultiple(x: int, k: int, n: int)
    requires n > 0
    ensures (x + k * n) % n == x % n
  {
    assert x + k * n == (x / n + k) * n + x % n by {
      assert x == (x / n) * n + x % n;
      assert (x / n + k) * n == (x / n) * n + k * n;
    }
    DivModUnique(x + k * n, n, x / n + k, x % n);
  }

  /** Residues are equal exactly when the difference is a multiple. */
  lemma ModEqIffDivides(a: int, b: int, n: int)
    requires n > 0
    ensures a % n == b % n <==> (a - b) % n == 0
  {
    if a % n == b % n {
      assert a - b == 0 + (a / n - b / n) * n by {
        assert a == (a / n) * n + a % n && b == (b / n) * n + b % n;
        assert (a / n - b / n) * n == (a / n) * n - (b / n) * n;
      }
      ModAddMultiple(0, a / n - b / n, n);
    }
    if (a - b) % n == 0 {
      assert a == b + ((a - b) / n) * n;
      ModAddMultiple(b, (a - b) / n, n);
    }
  }

  lemma MulModLeft(a: int, b: int, n: int)
    requires n > 0
    ensures ((a % n) * b) % n == (a * b) % n
  {
    assert a * b == (a % n) * b + ((a / n) * b) * n by {
      assert a == (a / n) * n + a % n;
      assert a * b == ((a / n) * n) * b + (a % n) * b;
      assert ((a / n) * n) * b == ((a / n) * b) * n;
    }
    ModAddMultiple((a % n) * b, (a / n) * b, n);
  }

  lemma MulMod(a: int, b: int, n: int)
    requires n > 0
    ensures ((a % n) * (b % n)) % n == (a * b) % n
  {
    MulModLeft(a, b % n, n);
    assert a * (b % n) == (b % n) * a;
    MulModLeft(b, a, n);
    assert b * a == a * b;
  }

  /** Congruent factors give congruent products. */
  lemma MulCongruent(a: int, a': int, b: int, b': int, n: int)
    requires n > 0 && a % n == a' % n && b % n == b' % n
    ensures (a * b) % n == (a' * b') % n
  {
    MulMod(a, b, n);
    MulMod(a', b', n);
  }

  lemma AddCongruent(a: int, a': int, b: int, b': int, n: int)
    requires n > 0 && a % n == a' % n && b % n == b' % n
    ensures (a + b) % n == (a' + b') % n
  {
    ModEqIffDivides(a, a', n);
    ModEqIffDivides(b, b', n);
    var x, y := (a - a') / n, (b - b') / n;
    assert (a + b) == (a' + b') + (x + y) * n by {
      assert a - a' == x * n && b - b' == y * n;
      assert (x + y) * n == x * n + y * n;
    }
    ModAddMultiple(a' + b', x + y, n);
  }

  lemma DividesMul(x: int, k: int, n: int)
    requires n > 0 && x % n == 0
    ensures (k * x) % n == 0
  {
    assert k * x == 0 + (k * (x / n)) * n;
    ModAddMultiple(0, k * (x / n), n);
  }

  lemma DividesSum(x: int, y: int, n: int)
    requires n > 0 && x % n == 0 && y % n == 0
    ensures (x + y) % n == 0 && (x - y) % n == 0
  {
    AddCongruent(x, 0, y, 0, n);
    assert -y == (-1) * y;
    DividesMul(y, -1, n);
    AddCongruent(x, 0, -y, 0, n);
  }

  // ---------------------------------------------------------------- powers

  function Pow(b: int, e: nat): (r: int)
  {
    if e == 0 then 1 else b * Pow(b, e - 1)
  }

  lemma {:induction false} PowAdd(b: int, x: nat, y: nat)
    ensures Pow(b, x + y) == Pow(b, x) * Pow(b, y)
  {
    if x > 0 {
      PowAdd(b, x - 1, y);
      assert b * (Pow(b, x - 1) * Pow(b, y)) == (b * Pow(b, x - 1)) * Pow(b, y);
    }
  }

  lemma {:induction false} PowMul(b: int, x: nat, y: nat)
    ensures 0 <= x * y
    ensures Pow(b, x * y) == Pow(Pow(b, x), y)
  {
    assert 0 <= x * y;
    if y > 0 {
      PowMul(b, x, y - 1);
      assert x * y == x + x * (y - 1);
      PowAdd(b, x, x * (y - 1));
    }
  }

  lemma Interchange(a: int, b: int, x: int, y: int)
    ensures (a * b) * (x * y) == (a * x) * (b * y)
  {
    assert (a * b) * (x * y) == a * (b * (x * y));
    assert b * (x * y) == x * (b * y);
    assert a * (x * (b * y)) == (a * x) * (b * y);
  }

  lemma {:induction false} PowOfProduct(a: int, b: int, e: nat)
    ensures Pow(a * b, e) == Pow(a, e) * Pow(b, e)
  {
    if e > 0 {
      PowOfProduct(a, b, e - 1);
      Interchange(a, b, Pow(a, e - 1), Pow(b, e - 1));
    }
  }

  lemma {:induction false} PowOne(e: nat)
    ensures Pow(1, e) == 1
  {
    if e > 0 {
      PowOne(e - 1);
    }
  }

  lemma {:induction false} PowCongruent(a: int, b: int, e: nat, n: int)
    requires n > 0 && a % n == b % n
    ensures Pow(a, e) % n == Pow(b, e) % n
  {
    if e > 0 {
      PowCongruent(a, b, e - 1, n);
      MulCongruent(a, b, Pow(a, e - 1), Pow(b, e - 1), n);
    }
  }

  // ---------------------------------------------------------------- greatest common divisor

  /** Euclid's algorithm, as `math.gcd` computes it on non-negative integers. */
  function Gcd(a: nat, b: nat): (g: nat)
    ensures a > 0 || b > 0 ==> g > 0
    decreases b
  {
    if b == 0 then a else Gcd(b, a % b)
  }

  lemma {:induction false} GcdDivides(a: nat, b: nat)
    requires a > 0 || b > 0
    ensures a % Gcd(a, b) == 0 && b % Gcd(a, b) == 0
    decreases b
  {
    var g := Gcd(a, b);
    if b == 0 {
      DivModUnique(a, a, 1, 0);
    } else {
      GcdDivides(b, a % b);
      DividesMul(b, a / b, g);
      DividesSum((a / b) * b, a % b, g);
      assert a == (a / b) * b + a % b;
    }
  }

  /** Bezout: the greatest common divisor is an integer combination. */
  lemma {:induction false} Bezout(a: nat, b: nat) returns (s: int, t: int)
    requires a > 0 || b > 0
    ensures Gcd(a, b) == a * s + b * t
    decreases b
  {
    if b == 0 {
      s, t := 1, 0;
    } else {
      var s', t' := Bezout(b, a % b);
      s, t := t', s' - (a / b) * t';
      assert a % b == a - b * (a / b);
      assert b * s' + (a - b * (a / b)) * t' == a * t' + b * (s' - (a / b) * t') by {
        assert (a - b * (a / b)) * t' == a * t' - b * ((a / b) * t');
        assert b * (s' - (a / b) * t') == b * s' - b * ((a / b) * t');
      }
    }
  }

  /** A residue is a unit when something multiplies it to one. */
  ghost predicate Unit(a: int, n: int)
    requires n > 0
  {
    exists x: int :: IsInverse(a, x, n)
  }

  predicate IsInverse(a: int, x: int, n: int)
    requires n > 0
  {
    (a * x) % n == 1 % n
  }

  /** The server's gcd test decides exactly invertibility. */
  lemma GcdOneIffUnit(a: nat, n: nat)
    requires n > 0
    ensures Gcd(a, n) == 1 <==> Unit(a, n)
  {
    if Gcd(a, n) == 1 {
      var s, t := Bezout(a, n);
      assert a * s == 1 + (-t) * n by {
        assert (-t) * n == -(n * t);
      }
      ModAddMultiple(1, -t, n);
      assert IsInverse(a, s, n);
    }
    if Unit(a, n) {
      var x: int :| IsInverse(a, x, n);
      var g := Gcd(a, n);
      GcdDivides(a, n);
      ModEqIffDivides(a * x, 1, n);
      var k := (a * x - 1) / n;
      assert 1 == a * x - k * n;
      DividesMul(a, x, g);
      assert x * a == a * x;
      DividesMul(n, k, g);
      DividesSum(a * x, k * n, g);
      assert 1 % g == 0;
      if g > 1 {
        DivModUnique(1, g, 0, 1);
      }
    }
  }

  lemma UnitOfCongruent(a: int, b: int, n: int)
    requires n > 0 && a % n == b % n && Unit(a, n)
    ensures Unit(b, n)
  {
    var x: int :| IsInverse(a, x, n);
    MulCongruent(a, b, x, x, n);
    assert IsInverse(b, x, n);
  }

  /** A product is a unit exactly when both factors are. */
  lemma UnitProduct(a: int, b: int, n: int)
    requires n > 0
    ensures Unit(a * b, n) <==> Unit(a, n) && Unit(b, n)
  {
    if Unit(a * b, n) {
      var x: int :| IsInverse(a * b, x, n);
      assert (a * b) * x == a * (b * x) == b * (a * x);
      assert IsInverse(a, b * x, n);
      assert IsInverse(b, a * x, n);
    }
    if Unit(a, n) && Unit(b, n) {
      var x: int :| IsInverse(a, x, n);
      var y: int :| IsInverse(b, y, n);
      MulCongruent(a * x, 1, b * y, 1, n);
      Interchange(a, b, x, y);
      assert IsInverse(a * b, x * y, n);
    }
  }

  lemma {:induction false} UnitPower(a: int, e: nat, n: int)
    requires n > 0 && e > 0
    ensures Unit(Pow(a, e), n) <==> Unit(a, n)
  {
    UnitProduct(a, Pow(a, e - 1), n);
    if e == 1 {
      assert Pow(a, 1) == a;
    } else {
      UnitPower(a, e - 1, n);
    }
  }

  /** Units cancel. */
  lemma CancelUnit(u: int, a: int, b: int, n: int)
    requires n > 0 && Unit(u, n) && (u * a) % n == (u * b) % n
    ensures a % n == b % n
  {
    var x: int :| IsInverse(u, x, n);
    MulCongruent(x, x, u * a, u * b, n);
    assert x * (u * a) == (u * x) * a && x * (u * b) == (u * x) * b;
    MulCongruent(u * x, 1, a, a, n);
    MulCongruent(u * x, 1, b, b, n);
  }

  // ---------------------------------------------------------------- primes

  ghost predicate Prime(p: nat)
  {
    p > 1 && forall d: nat :: 1 < d < p ==> p % d != 0
  }

  lemma PrimeGcd(p: nat, a: nat)
    requires Prime(p)
    ensures Gcd(a, p) == 1 || Gcd(a, p) == p
  {
    var g := Gcd(a, p);
    GcdDivides(a, p);
    if g > p {
      DivModUnique(p, g, 0, p);
    }
  }

  /** Euclid's lemma. */
  lemma PrimeDividesProduct(p: nat, a: int, b: int)
    requires Prime(p) && (a * b) % p == 0
    ensures a % p == 0 || b % p == 0
  {
    if a % p != 0 {
      var a' := a % p;
      PrimeGcd(p, a');
      if Gcd(a', p) == p {
        GcdDivides(a', p);
        DivModUnique(a', p, 0, a');
      }
      GcdOneIffUnit(a', p);
      DivModUnique(a', p, 0, a');
      UnitOfCongruent(a', a, p);
      CancelUnit(a, b, 0, p);
    }
  }

  // ---------------------------------------------------------------- Fermat

  /** Binomial coefficients by Pascal's rule. */
  function Choose(n: nat, k: nat): (c: nat)
  {
    if k == 0 then 1
    else if n == 0 then 0
    else Choose(n - 1, k - 1) + Choose(n - 1, k)
  }

  lemma {:induction false} ChooseBeyond(n: nat, k: nat)
    requires k > n
    ensures Choose(n, k) == 0
  {
    if n > 0 {
      ChooseBeyond(n - 1, k - 1);
      ChooseBeyond(n - 1, k);
    }
  }

  lemma {:induction false} ChooseAll(n: nat)
    ensures Choose(n, n) == 1
  {
    if n > 0 {
      ChooseAll(n - 1);
      ChooseBeyond(n - 1, n);
    }
  }

  lemma AbsorbStep(n: int, k: int, a: int, b: int, c: int, c': int)
    requires (k - 1) * a == (n - 1) * c && k * b == (n - 1) * c' && a == c + c'
    ensures k * (a + b) == n * a
  {
    assert k * (a + b) == (k - 1) * a + a + k * b;
    assert (n - 1) * c + (n - 1) * c' == (n - 1) * a;
  }

  /** The absorption identity: k * C(n, k) = n * C(n-1, k-1). */
  lemma {:induction false} ChooseAbsorb(n: nat, k: nat)
    requires n > 0 && k > 0
    ensures k * Choose(n, k) == n * Choose(n - 1, k - 1)
  {
    if k > n {
      ChooseBeyond(n, k);
      ChooseBeyond(n - 1, k - 1);
    } else if n > 1 {
      ChooseAbsorb(n - 1, k);
      if k > 1 {
        ChooseAbsorb(n - 1, k - 1);
        AbsorbStep(n, k, Choose(n - 1, k - 1), Choose(n - 1, k), Choose(n - 2, k - 2), Choose(n - 2, k - 1));
      }
    }
  }

  lemma PrimeDividesCofactor(p: nat, k: nat, c: int, c': int)
    requires Prime(p) && 0 < k < p && k * c == p * c'
    ensures c % p == 0
  {
    ModAddMultiple(0, c', p);
    DivModUnique(k, p, 0, k);
    PrimeDividesProduct(p, k, c);
  }

  lemma PrimeDividesChoose(p: nat, k: nat)
    requires Prime(p) && 0 < k < p
    ensures Choose(p, k) % p == 0
  {
    ChooseAbsorb(p, k);
    PrimeDividesCofactor(p, k, Choose(p, k), Choose(p - 1, k - 1));
  }

  /** The first `k` terms of the binomial expansion of (a + 1)^n. */
  function BinomialTerms(a: int, n: nat, k: nat): (r: int)
  {
    if k == 0 then 0 else BinomialTerms(a, n, k - 1) + Choose(n, k - 1) * Pow(a, k - 1)
  }

  lemma PascalStep(a: int, t: int, t': int, c: int, c': int, w: int)
    ensures t + a * t' + (c + c') * (a * w) == (t + c' * (a * w)) + a * (t' + c * w)
  {
    assert (c + c') * (a * w) == c * (a * w) + c' * (a * w);
    assert a * (t' + c * w) == a * t' + a * (c * w);
    assert a * (c * w) == c * (a * w);
  }

  lemma {:induction false} BinomialPascal(a: int, n: nat, k: nat)
    ensures BinomialTerms(a, n + 1, k + 1) == BinomialTerms(a, n, k + 1) + a * BinomialTerms(a, n, k)
  {
    if k == 0 {
      assert BinomialTerms(a, n + 1, 1) == BinomialTerms(a, n, 1) == 1;
    } else {
      BinomialPascal(a, n, k - 1);
      PascalStep(a, BinomialTerms(a, n, k), BinomialTerms(a, n, k - 1),
                 Choose(n, k - 1), Choose(n, k), Pow(a, k - 1));
    }
  }

  /** The binomial theorem. */
  lemma {:induction false} Binomial(a: int, n: nat)
    ensures Pow(a + 1, n) == BinomialTerms(a, n, n + 1)
  {
    if n == 0 {
      assert BinomialTerms(a, 0, 1) == 1;
    } else {
      Binomial(a, n - 1);
      BinomialPascal(a, n - 1, n);
      ChooseBeyond(n - 1, n);
      var t := BinomialTerms(a, n - 1, n);
      assert BinomialTerms(a, n - 1, n + 1) == t;
      assert (a + 1) * t == t + a * t;
    }
  }

  /** Every middle term of the p-th expansion vanishes modulo p. */
  lemma {:induction false} MiddleTermsVanish(a: int, p: nat, k: nat)
    requires Prime(p) && 1 <= k <= p
    ensures BinomialTerms(a, p, k) % p == 1 % p
  {
    if k == 1 {
      assert BinomialTerms(a, p, 1) == 1;
    } else {
      MiddleTermsVanish(a, p, k - 1);
      PrimeDividesChoose(p, k - 1);
      DividesMul(Choose(p, k - 1), Pow(a, k - 1), p);
      assert Pow(a, k - 1) * Choose(p, k - 1) == Choose(p, k - 1) * Pow(a, k - 1);
      AddCongruent(BinomialTerms(a, p, k - 1), 1, Choose(p, k - 1) * Pow(a, k - 1), 0, p);
    }
  }

  lemma {:induction false} FermatNat(a: nat, p: nat)
    requires Prime(p)
    ensures Pow(a, p) % p == a % p
  {
    if a == 0 {
      assert Pow(0, p) == 0 * Pow(0, p - 1);
    } else {
      FermatNat(a - 1, p);
      Binomial(a - 1, p);
      MiddleTermsVanish(a - 1, p, p);
      ChooseAll(p);
      assert Pow(a, p) == BinomialTerms(a - 1, p, p) + Pow(a - 1, p);
      AddCongruent(BinomialTerms(a - 1, p, p), 1, Pow(a - 1, p), a - 1, p);
    }
  }

  /** Fermat's little theorem, for every integer base. */
  lemma Fermat(a: int, p: nat)
    requires Prime(p)
    ensures Pow(a, p) % p == a % p
  {
    DivModUnique(a % p, p, 0, a % p);
    FermatNat(a % p, p);
    PowCongruent(a, a % p, p, p);
  }

  lemma FermatUnit(a: int, p: nat)
    requires Prime(p) && a % p != 0
    ensures Pow(a, p - 1) % p == 1 % p
  {
    Fermat(a, p);
    var w := Pow(a, p - 1);
    assert Pow(a, p) - a == a * (w - 1) by {
      assert a * (w - 1) == a * w - a;
    }
    ModEqIffDivides(Pow(a, p), a, p);
    PrimeDividesProduct(p, a, w - 1);
    ModEqIffDivides(w, 1, p);
  }

  // ---------------------------------------------------------------- RSA

  /** An exponent that is one modulo p - 1 acts as the identity modulo p. */
  lemma PowIdentityModPrime(a: int, p: nat, k: nat)
    requires Prime(p) && k > 0 && k % (p - 1) == 1 % (p - 1)
    ensures Pow(a, k) % p == a % p
  {
    ModEqIffDivides(k, 1, p - 1);
    var j := (k - 1) / (p - 1);
    assert k - 1 == (p - 1) * j;
    if a % p == 0 {
      assert Pow(a, k) == a * Pow(a, k - 1);
      assert Pow(a, k - 1) * a == a * Pow(a, k - 1);
      DividesMul(a, Pow(a, k - 1), p);
    } else {
      FermatUnit(a, p);
      PowMul(a, p - 1, j);
      PowCongruent(Pow(a, p - 1), 1, j, p);
      PowOne(j);
      assert Pow(a, k) == a * Pow(a, k - 1);
      MulCongruent(a, a, Pow(a, k - 1), 1, p);
    }
  }

  /** Two different primes that divide a number divide it together. */
  lemma PrimePairDivides(p: nat, q: nat, x: int)
    requires Prime(p) && Prime(q) && p != q && x % p == 0 && x % q == 0
    ensures p * q > 0 && x % (p * q) == 0
  {
    var y := x / p;
    assert x == p * y;
    PrimeDividesProduct(q, p, y);
    if p % q == 0 {
      if p < q {
        DivModUnique(p, q, 0, p);
      }
      assert false;
    }
    var z := y / q;
    assert y == q * z;
    assert x == 0 + z * (p * q);
    assert p * q > 0;
    ModAddMultiple(0, z, p * q);
  }

  /** The RSA identity: an exponent that is one modulo p - 1 and modulo q - 1 fixes every residue mod p * q. */
  lemma RsaIdentity(a: int, p: nat, q: nat, k: nat)
    requires Prime(p) && Prime(q) && p != q
    requires k > 0 && k % (p - 1) == 1 % (p - 1) && k % (q - 1) == 1 % (q - 1)
    ensures p * q > 0 && Pow(a, k) % (p * q) == a % (p * q)
  {
    PowIdentityModPrime(a, p, k);
    PowIdentityModPrime(a, q, k);
    var x := Pow(a, k) - a;
    ModEqIffDivides(Pow(a, k), a, p);
    ModEqIffDivides(Pow(a, k), a, q);
    PrimePairDivides(p, q, x);
    ModEqIffDivides(Pow(a, k), a, p * q);
  }
}
