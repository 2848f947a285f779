/** Primes: Euclid's lemma, Fermat's little theorem, square roots of one. */
module Fermat {
  import opened Numbers
  import opened NumberTheory

  ghost predicate Prime(p: int) {
    p >= 2 && forall d: int :: 1 < d < p ==> !Divides(d, p)
  }

  /** A number the prime does not divide is coprime to it. */
  lemma PrimeCoprime(p: int, a: nat)
    requires Prime(p) && !Divides(p, a)
    ensures Gcd(a, p) == 1
  {
    var g := Gcd(a, p);
    GcdIsGcd(a, p);
    DividesLe(g, p);
  }

  /** A prime dividing a product divides a factor. */
  lemma EuclidLemma(p: int, a: nat, b: int)
    requires Prime(p) && Divides(p, a * b)
    ensures Divides(p, a) || Divides(p, b)
  {
    if !Divides(p, a) {
      PrimeCoprime(p, a);
      var u, v := Bezout(a, p);
      // b == u*a*b + v*p*b
      DividesScale(p, a * b, u);
      DividesIntro(p, v * b * p, v * b);
      DividesSum(p, u * (a * b), v * b * p);
      assert u * (a * b) + v * b * p == b by {
        MulAssoc(u, a, b);
        MulAssoc(v, b, p);
        MulComm(b, p);
        MulAssoc(v, p, b);
        assert (u * a + v * p) * b == (u * a) * b + (v * p) * b;
      }
    }
  }

  /** Modulo a prime, only 1 and -1 square to 1. */
  lemma SquareRootsOfOne(p: int, x: int)
    requires Prime(p) && 0 <= x < p && Cong(x * x, 1, p)
    ensures x == 1 || x == p - 1
  {
    if x == 0 {
      var k := CongElim(0, 1, p);
      DividesIntro(p, 1, -k);
      DividesLe(p, 1);
    } else {
      var k := CongElim(x * x, 1, p);
      assert (x - 1) * (x + 1) == x * x - 1;
      DividesIntro(p, (x - 1) * (x + 1), k);
      EuclidLemma(p, x - 1, x + 1);
      if Divides(p, x - 1) {
        if x > 1 { DividesLe(p, x - 1); }
      } else {
        DividesLe(p, x + 1);
      }
    }
  }

  // ------------------------------------------------ binomial coefficients

  function Choose(n: nat, k: nat): nat {
    if k == 0 then 1
    else if n == 0 then 0
    else Choose(n - 1, k - 1) + Choose(n - 1, k)
  }

  lemma {:induction false} ChooseAbove(n: nat, k: nat)
    requires k > n
    ensures Choose(n, k) == 0
  {
    if n > 0 {
      ChooseAbove(n - 1, k - 1);
      ChooseAbove(n - 1, k);
    }
  }

  lemma {:induction false} ChooseAll(n: nat)
    ensures Choose(n, n) == 1
  {
    if n > 0 {
      ChooseAll(n - 1);
      ChooseAbove(n - 1, n);
    }
  }

  /** k * C(n, k) == n * C(n-1, k-1) */
  lemma {:induction false} Absorption(n: nat, k: nat)
    requires n >= 1 && k >= 1
    ensures k * Choose(n, k) == n * Choose(n - 1, k - 1)
  {
    if n == 1 {
      if k > 1 {
        ChooseAbove(1, k);
        ChooseAbove(0, k - 1);
      } else {
        assert Choose(1, 1) == Choose(0, 0) + Choose(0, 1) == 1;
      }
    } else {
      var a, b := Choose(n - 1, k - 1), Choose(n - 1, k);
      Absorption(n - 1, k);
      MulDist(k, a, b);
      if k == 1 {
        assert a == 1;
      } else {
        Absorption(n - 1, k - 1);
        var c, d := Choose(n - 2, k - 2), Choose(n - 2, k - 1);
        assert a == c + d;
        MulDist(n - 1, c, d);
        assert k * a == (k - 1) * a + a;
        assert n * a == (n - 1) * a + a;
      }
    }
  }

  /** The inner coefficients of a prime row are multiples of the prime. */
  lemma PrimeRow(p: int, k: nat)
    requires Prime(p) && 1 <= k < p
    ensures Divides(p, Choose(p, k))
  {
    Absorption(p, k);
    MulComm(p, Choose(p - 1, k - 1));
    DividesIntro(p, k * Choose(p, k), Choose(p - 1, k - 1));
    EuclidLemma(p, k, Choose(p, k));
    if Divides(p, k) { DividesLe(p, k); }
  }

  /** Sum of C(n, i) * a^i for i < k. */
  function BinomialSum(a: int, n: nat, k: nat): int {
    if k == 0 then 0 else BinomialSum(a, n, k - 1) + Choose(n, k - 1) * Pow(a, k - 1)
  }

  lemma SumStep(a: int, n: nat, k: nat)
    ensures BinomialSum(a, n, k + 1) == BinomialSum(a, n, k) + Choose(n, k) * Pow(a, k)
    ensures BinomialSum(a, n, 0) == 0 && BinomialSum(a, n, 1) == 1
  {
    assert BinomialSum(a, n, 1) == BinomialSum(a, n, 0) + Choose(n, 0) * Pow(a, 0);
  }

  lemma Pascal(n: nat, k: nat)
    requires n >= 1 && k >= 1
    ensures Choose(n, k) == Choose(n - 1, k - 1) + Choose(n - 1, k)
  {
  }

  /** Pascal's rule for partial sums. */
  lemma {:induction false} BinomialStep(a: int, n: nat, k: nat)
    requires n >= 1 && k >= 1
    ensures BinomialSum(a, n, k) == BinomialSum(a, n - 1, k) + a * BinomialSum(a, n - 1, k - 1)
  {
    hide BinomialSum, Choose, Pow;
    if k == 1 {
      SumStep(a, n, 0);
      SumStep(a, n - 1, 0);
    } else {
      BinomialStep(a, n, k - 1);
      SumStep(a, n, k - 1);
      SumStep(a, n - 1, k - 1);
      SumStep(a, n - 1, k - 2);
      Pascal(n, k - 1);
      PowStep(a, k - 2);
      PascalTerm(a, Choose(n - 1, k - 2), Choose(n - 1, k - 1), Pow(a, k - 2), BinomialSum(a, n - 1, k - 2));
    }
  }

  lemma PascalTerm(a: int, x: int, y: int, Q: int, S: int)
    ensures a * S + (x + y) * (a * Q) == y * (a * Q) + a * (S + x * Q)
  {
    MulDist(a, S, x * Q);
    assert (x + y) * (a * Q) == x * (a * Q) + y * (a * Q);
    MulAssoc(x, a, Q);
    MulComm(x, a);
    MulAssoc(a, x, Q);
  }

  lemma {:induction false} BinomialTheorem(a: int, n: nat)
    ensures Pow(a + 1, n) == BinomialSum(a, n, n + 1)
  {
    hide BinomialSum, Choose, Pow;
    if n == 0 {
      SumStep(a, 0, 0);
      PowStep(a + 1, 0);
    } else {
      BinomialTheorem(a, n - 1);
      BinomialStep(a, n, n + 1);
      SumStep(a, n - 1, n);
      ChooseAbove(n - 1, n);
      PowStep(a + 1, n - 1);
      var S := BinomialSum(a, n - 1, n);
      assert (a + 1) * S == a * S + S;
    }
  }

  /** In a prime row everything between the ends vanishes modulo the prime. */
  lemma {:induction false} InnerTermsVanish(a: int, p: int, k: nat)
    requires Prime(p) && 1 <= k <= p
    ensures Cong(BinomialSum(a, p, k), 1, p)
  {
    if k == 1 {
      assert BinomialSum(a, p, 1) == BinomialSum(a, p, 0) + Choose(p, 0) * Pow(a, 0) == 1;
      CongRefl(1, p);
    } else {
      InnerTermsVanish(a, p, k - 1);
      PrimeRow(p, k - 1);
      DividesScale(p, Choose(p, k - 1), Pow(a, k - 1));
      DividesCong(p, Choose(p, k - 1) * Pow(a, k - 1));
      CongAdd(BinomialSum(a, p, k - 1), 1, Choose(p, k - 1) * Pow(a, k - 1), 0, p);
    }
  }

  lemma FreshmansDream(a: int, p: int)
    requires Prime(p)
    ensures Cong(Pow(a + 1, p), Pow(a, p) + 1, p)
  {
    BinomialTheorem(a, p);
    InnerTermsVanish(a, p, p);
    ChooseAll(p);
    assert BinomialSum(a, p, p + 1) == BinomialSum(a, p, p) + Choose(p, p) * Pow(a, p);
    CongRefl(Pow(a, p), p);
    CongAdd(BinomialSum(a, p, p), 1, Pow(a, p), Pow(a, p), p);
  }

  lemma {:induction false} FermatPower(a: nat, p: int)
    requires Prime(p)
    ensures Cong(Pow(a, p), a, p)
  {
    if a == 0 {
      assert Pow(0, p) == 0;
      CongRefl(0, p);
    } else {
      FermatPower(a - 1, p);
      FreshmansDream(a - 1, p);
      CongRefl(1, p);
      CongAdd(Pow(a - 1, p), a - 1, 1, 1, p);
      CongTrans(Pow(a, p), Pow(a - 1, p) + 1, a, p);
    }
  }

  /** Fermat's little theorem. */
  lemma LittleTheorem(a: nat, p: int)
    requires Prime(p) && 0 < a < p
    ensures Cong(Pow(a, p - 1), 1, p)
  {
    FermatPower(a, p);
    var k := CongElim(Pow(a, p), a, p);
    PowStep(a, p - 1);
    var m := Pow(a, p - 1) - 1;
    MulDist(a, Pow(a, p - 1), 1);
    assert a * m == k * p;
    DividesIntro(p, a * m, k);
    EuclidLemma(p, a, m);
    if Divides(p, a) { DividesLe(p, a); }
    DividesCong(p, m);
    var j := CongElim(m, 0, p);
    CongIntro(Pow(a, p - 1), 1, p, j);
  }
}
