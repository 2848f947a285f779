/** Divisibility, greatest common divisors, primes. */
module NumberTheory {
  import opened Numbers

  ghost predicate Divides(d: int, x: int) {
    exists k: int :: Times(k, d) == x
  }

  lemma DividesIntro(d: int, x: int, k: int)
    requires x == k * d
    ensures Divides(d, x)
  {
    assert Times(k, d) == x;
  }

  lemma DividesElim(d: int, x: int) returns (k: int)
    requires Divides(d, x)
    ensures x == k * d
  {
    k :| Times(k, d) == x;
  }

  lemma DividesZero(d: int)
    ensures Divides(d, 0) && Divides(d, d) && Divides(1, d)
  {
    DividesIntro(d, 0, 0);
    DividesIntro(d, d, 1);
    DividesIntro(1, d, d);
  }

  lemma DividesSum(d: int, x: int, y: int)
    requires Divides(d, x) && Divides(d, y)
    ensures Divides(d, x + y) && Divides(d, x - y)
  {
    var i := DividesElim(d, x);
    var j := DividesElim(d, y);
    assert (i + j) * d == i * d + j * d;
    assert (i - j) * d == i * d - j * d;
    DividesIntro(d, x + y, i + j);
    DividesIntro(d, x - y, i - j);
  }

  lemma DividesScale(d: int, x: int, c: int)
    requires Divides(d, x)
    ensures Divides(d, c * x) && Divides(d, x * c)
  {
    var i := DividesElim(d, x);
    MulAssoc(c, i, d);
    MulComm(c, x);
    DividesIntro(d, c * x, c * i);
  }

  lemma DividesTrans(d: int, x: int, y: int)
    requires Divides(d, x) && Divides(x, y)
    ensures Divides(d, y)
  {
    var i := DividesElim(d, x);
    var j := DividesElim(x, y);
    MulAssoc(j, i, d);
    DividesIntro(d, y, j * i);
  }

  lemma DividesLe(d: int, x: int)
    requires Divides(d, x) && x > 0
    ensures d <= x
  {
    var k := DividesElim(d, x);
    if d > 0 {
      if k <= 0 { MulMono(d, k, 0); MulComm(d, k); }
      MulMono(d, 1, k);
      MulComm(d, k);
    }
  }

  lemma DividesCong(d: int, x: int)
    ensures Divides(d, x) <==> Cong(x, 0, d)
  {
    if Divides(d, x) {
      var k := DividesElim(d, x);
      CongIntro(x, 0, d, k);
    }
    if Cong(x, 0, d) {
      var k := CongElim(x, 0, d);
      DividesIntro(d, x, k);
    }
  }

  lemma DividesAbs(d: int, x: int)
    ensures Divides(d, x) <==> Divides(d, -x)
  {
    if Divides(d, x) { DividesScale(d, x, -1); }
    if Divides(d, -x) { DividesScale(d, -x, -1); }
  }

  // --------------------------------------------------------------- gcd

  /** Euclid's algorithm; the reference the binary algorithms are compared with. */
  ghost function Gcd(a: nat, b: nat): nat
    decreases b
  {
    if b == 0 then a else Gcd(b, a % b)
  }

  /** g is a common divisor that every common divisor divides. */
  ghost predicate IsGcd(g: int, a: int, b: int) {
    Divides(g, a) && Divides(g, b) && forall d: int :: Divides(d, a) && Divides(d, b) ==> Divides(d, g)
  }

  lemma {:induction false} GcdIsGcd(a: nat, b: nat)
    ensures IsGcd(Gcd(a, b), a, b)
    ensures a > 0 || b > 0 ==> Gcd(a, b) > 0
    decreases b
  {
    if b == 0 {
      DividesZero(a);
    } else {
      var g, q := Gcd(b, a % b), a / b;
      DivModProps(a, b);
      GcdIsGcd(b, a % b);
      DividesScale(g, b, q);
      DividesSum(g, q * b, a % b);
      forall d: int | Divides(d, a) && Divides(d, b) ensures Divides(d, g) {
        DividesScale(d, b, q);
        DividesSum(d, a, q * b);
      }
    }
  }

  lemma GcdUnique(g: nat, h: nat, a: int, b: int)
    requires IsGcd(g, a, b) && IsGcd(h, a, b)
    ensures g == h
  {
    if g == 0 || h == 0 {
      var i := DividesElim(g, h);
      var j := DividesElim(h, g);
    } else {
      DividesLe(g, h);
      DividesLe(h, g);
    }
  }

  lemma GcdDetermined(g: nat, a: nat, b: nat)
    requires IsGcd(g, a, b)
    ensures g == Gcd(a, b)
  {
    GcdIsGcd(a, b);
    GcdUnique(g, Gcd(a, b), a, b);
  }

  /** The gcd is an integer combination of its arguments. */
  lemma {:induction false} Bezout(a: nat, b: nat) returns (u: int, v: int)
    ensures Gcd(a, b) == u * a + v * b
    decreases b
  {
    if b == 0 {
      return 1, 0;
    }
    var x, y := Bezout(b, a % b);
    DivModProps(a, b);
    var q := a / b;
    u, v := y, x - y * q;
    assert y * (a % b) == y * a - (y * q) * b by {
      MulDist(y, a, q * b);
      MulAssoc(y, q, b);
    }
    assert (x - y * q) * b == x * b - (y * q) * b;
  }

  lemma GcdSymmetric(a: nat, b: nat)
    ensures Gcd(a, b) == Gcd(b, a)
  {
    GcdIsGcd(b, a);
    GcdDetermined(Gcd(b, a), a, b);
  }

  lemma GcdSubtract(a: nat, b: nat)
    requires a >= b
    ensures Gcd(a - b, b) == Gcd(a, b)
  {
    var g := Gcd(a - b, b);
    GcdIsGcd(a - b, b);
    DividesSum(g, a - b, b);
    forall d: int | Divides(d, a) && Divides(d, b) ensures Divides(d, g) {
      DividesSum(d, a, b);
    }
    GcdDetermined(g, a, b);
  }

  /** An odd number dividing 2x divides x. */
  lemma OddDividesHalf(d: int, x: int)
    requires d % 2 == 1 && Divides(d, 2 * x)
    ensures Divides(d, x)
  {
    var k := DividesElim(d, 2 * x);
    var h := d / 2;
    assert k * d == 2 * (k * h) + k by { MulDist(k, 2 * h, 1); MulAssoc(k, 2, h); MulComm(k, 2); MulAssoc(2, k, h); }
    assert k % 2 == 0;
    MulAssoc(2, k / 2, d);
    DividesIntro(d, x, k / 2);
  }

  lemma DivisorOfOdd(d: int, y: int)
    requires Divides(d, y) && y % 2 == 1
    ensures d % 2 == 1
  {
    var k := DividesElim(d, y);
    if d % 2 == 0 {
      MulAssoc(k, 2, d / 2);
      MulComm(k, 2);
      MulAssoc(2, k, d / 2);
    }
  }

  /** A factor 2 on one side does not matter when the other side is odd. */
  lemma GcdHalve(x: nat, y: nat)
    requires y % 2 == 1
    ensures Gcd(2 * x, y) == Gcd(x, y)
  {
    var g := Gcd(x, y);
    GcdIsGcd(x, y);
    DividesScale(g, x, 2);
    forall d: int | Divides(d, 2 * x) && Divides(d, y) ensures Divides(d, g) {
      DivisorOfOdd(d, y);
      OddDividesHalf(d, x);
    }
    GcdDetermined(g, 2 * x, y);
  }

  lemma {:induction false} GcdShift(x: nat, y: nat, c: nat)
    requires y % 2 == 1
    ensures Pow(2, c) * x >= 0 && Gcd(Pow(2, c) * x, y) == Gcd(x, y)
  {
    PowPos(2, c);
    MulNonneg(Pow(2, c), x);
    if c > 0 {
      PowPos(2, c - 1);
      MulNonneg(Pow(2, c - 1), x);
      GcdShift(x, y, c - 1);
      GcdHalve(Pow(2, c - 1) * x, y);
      PowStep(2, c - 1);
      MulAssoc(2, Pow(2, c - 1), x);
    }
  }

  /** A common factor comes out of the gcd. */
  lemma GcdCommonFactor(k: nat, a: nat, b: nat)
    ensures k * a >= 0 && k * b >= 0 && k * Gcd(a, b) >= 0
    ensures Gcd(k * a, k * b) == k * Gcd(a, b)
  {
    var g := Gcd(a, b);
    GcdIsGcd(a, b);
    MulNonneg(k, a);
    MulNonneg(k, b);
    MulNonneg(k, g);
    ScaleDivides(k, g, a);
    ScaleDivides(k, g, b);
    var u, v := Bezout(a, b);
    forall d: int | Divides(d, k * a) && Divides(d, k * b) ensures Divides(d, k * g) {
      DividesScale(d, k * a, u);
      DividesScale(d, k * b, v);
      DividesSum(d, u * (k * a), v * (k * b));
      ScaledCombination(k, u, a, v, b);
    }
    GcdDetermined(k * g, k * a, k * b);
  }

  lemma ScaleDivides(k: int, d: int, x: int)
    requires Divides(d, x)
    ensures Divides(k * d, k * x)
  {
    var i := DividesElim(d, x);
    MulAssoc(k, i, d);
    MulComm(k, i);
    MulAssoc(i, k, d);
    DividesIntro(k * d, k * x, i);
  }

  lemma ScaledCombination(k: int, u: int, a: int, v: int, b: int)
    ensures u * (k * a) + v * (k * b) == k * (u * a + v * b)
  {
    MulDist(k, u * a, v * b);
    MulAssoc(u, k, a);
    MulComm(u, k);
    MulAssoc(k, u, a);
    MulAssoc(v, k, b);
    MulComm(v, k);
    MulAssoc(k, v, b);
  }

  /** Divisors of one argument inherit coprimality. */
  lemma CoprimeDivisor(a: nat, b: nat, c: nat)
    requires Gcd(a, b) == 1 && Divides(c, a)
    ensures Gcd(c, b) == 1
  {
    var g := Gcd(c, b);
    GcdIsGcd(c, b);
    GcdIsGcd(a, b);
    DividesTrans(g, c, a);
    DividesLe(g, 1);
    if g == 0 { var k := DividesElim(0, 1); }
  }

  lemma CoprimeNotBothEven(a: nat, b: nat)
    requires Gcd(a, b) == 1
    ensures a % 2 == 1 || b % 2 == 1
  {
    if a % 2 == 0 && b % 2 == 0 {
      GcdIsGcd(a, b);
      DividesIntro(2, a, a / 2);
      DividesIntro(2, b, b / 2);
      DividesLe(2, 1);
    }
  }

  /** The gcd with the modulus only depends on the residue. */
  lemma GcdMod(a: int, b: nat)
    requires b > 0
    ensures Gcd(a % b, b) == Gcd(if a < 0 then -a else a, b)
  {
    var r, m: nat := a % b, if a < 0 then -a else a;
    DivModProps(a, b);
    var g := Gcd(r, b);
    GcdIsGcd(r, b);
    DividesScale(g, b, a / b);
    DividesSum(g, (a / b) * b, r);
    DividesAbs(g, a);
    forall d: int | Divides(d, m) && Divides(d, b) ensures Divides(d, g) {
      DividesAbs(d, a);
      DividesScale(d, b, a / b);
      DividesSum(d, a, (a / b) * b);
    }
    GcdDetermined(g, m, b);
  }
}
