/** Integer facts used throughout: powers, quotient and remainder, congruence. */
module Numbers {

  // ---------------------------------------------------------------- powers

  function Pow(b: int, e: nat): int {
    if e == 0 then 1 else b * Pow(b, e - 1)
  }

  lemma PowStep(b: int, e: nat)
    ensures Pow(b, e + 1) == b * Pow(b, e)
    ensures Pow(b, 0) == 1 && Pow(b, 1) == b
  {
    assert Pow(b, 1) == b * Pow(b, 0);
  }

  lemma {:induction false} PowAdd(b: int, i: nat, j: nat)
    ensures Pow(b, i + j) == Pow(b, i) * Pow(b, j)
  {
    if i == 0 {
    } else {
      PowAdd(b, i - 1, j);
      assert Pow(b, i + j) == b * Pow(b, i - 1 + j);
      MulAssoc(b, Pow(b, i - 1), Pow(b, j));
    }
  }

  lemma {:induction false} PowPos(b: int, e: nat)
    requires b >= 1
    ensures Pow(b, e) >= 1
  {
    if e > 0 {
      PowPos(b, e - 1);
      MulMono(b, 1, Pow(b, e - 1));
    }
  }

  lemma {:induction false} PowMono(b: int, i: nat, j: nat)
    requires b >= 1 && i <= j
    ensures 1 <= Pow(b, i) <= Pow(b, j)
  {
    PowAdd(b, i, j - i);
    PowPos(b, i);
    PowPos(b, j - i);
    MulMono(Pow(b, i), 1, Pow(b, j - i));
  }

  lemma {:induction false} PowStrict(b: int, i: nat, j: nat)
    requires b >= 2 && i < j
    ensures 1 <= Pow(b, i) < Pow(b, j)
  {
    PowMono(b, i, j - 1);
    PowPos(b, j - 1);
    assert Pow(b, j) == b * Pow(b, j - 1);
    MulMono(Pow(b, j - 1), 2, b);
  }

  /** Scaling a value below b^e by b^j keeps it below b^len when e + j <= len. */
  lemma PowShiftBound(b: int, z: int, e: nat, j: nat, len: nat)
    requires b >= 1 && z < Pow(b, e) && e + j <= len
    ensures z * Pow(b, j) < Pow(b, len)
  {
    PowPos(b, j);
    MulStrictLeft(z, Pow(b, e), Pow(b, j));
    PowAdd(b, e, j);
    PowMono(b, e + j, len);
  }

  lemma PowProductBound(b: int, x: int, y: int, m: nat, n: nat)
    requires b >= 1 && 0 <= x < Pow(b, m) && 0 <= y < Pow(b, n)
    ensures 0 <= x * y < Pow(b, m + n)
  {
    MulNonneg(x, y);
    MulMono(x, y, Pow(b, n));
    PowPos(b, n);
    MulStrictLeft(x, Pow(b, m), Pow(b, n));
    PowAdd(b, m, n);
  }

  lemma {:induction false} PowPow(b: int, i: nat, j: nat)
    ensures 0 <= i * j && Pow(Pow(b, i), j) == Pow(b, i * j)
  {
    MulNonneg(i, j);
    if j == 0 {
      assert i * j == 0;
    } else {
      PowPow(b, i, j - 1);
      assert i * j == i + i * (j - 1);
      PowAdd(b, i, i * (j - 1));
    }
  }

  // ------------------------------------------- multiplication, quotient, remainder

  lemma MulAssoc(x: int, y: int, z: int)
    ensures (x * y) * z == x * (y * z)
  {
  }

  lemma MulComm(x: int, y: int)
    ensures x * y == y * x
  {
  }

  lemma MulDist(x: int, y: int, z: int)
    ensures x * (y + z) == x * y + x * z
    ensures x * (y - z) == x * y - x * z
  {
  }

  lemma MulNonneg(x: int, y: int)
    requires x >= 0 && y >= 0
    ensures x * y >= 0
  {
  }

  lemma MulMono(x: int, y: int, z: int)
    requires x >= 0 && y <= z
    ensures x * y <= x * z
  {
    MulNonneg(x, z - y);
    MulDist(x, z, y);
  }

  lemma MulStrict(x: int, y: int, z: int)
    requires x > 0 && y < z
    ensures x * y < x * z
  {
    MulMono(x, y + 1, z);
    MulDist(x, y, 1);
  }

  lemma MulStrictLeft(x: int, y: int, z: int)
    requires z > 0 && x < y
    ensures x * z < y * z
  {
    MulStrict(z, x, y);
  }

  /** The order of two products with a common positive factor is the order of the cofactors. */
  lemma MulCancelLt(x: int, y: int, z: int)
    requires x > 0 && x * y < x * z
    ensures y < z
  {
    if z <= y { MulMono(x, z, y); }
  }

  lemma MulCancelEq(x: int, y: int, z: int)
    requires x != 0 && x * y == x * z
    ensures y == z
  {
    if x > 0 {
      if y < z { MulStrict(x, y, z); } else if z < y { MulStrict(x, z, y); }
    } else {
      assert (-x) * y == (-x) * z;
      if y < z { MulStrict(-x, y, z); } else if z < y { MulStrict(-x, z, y); }
    }
  }

  /** A quotient and remainder are determined by the division equation. */
  lemma DivModUnique(x: int, n: int, q: int, r: int)
    requires n > 0 && 0 <= r < n && x == q * n + r
    ensures x / n == q && x % n == r
  {
    var q', r' := x / n, x % n;
    assert x == n * q' + r' && 0 <= r' < n;
    assert n * (q' - q) == r - r';
    if q' > q { MulMono(n, 1, q' - q); } else if q' < q { MulMono(n, q' - q, -1); }
  }

  lemma DivModProps(x: int, n: int)
    requires n > 0
    ensures x == (x / n) * n + x % n && 0 <= x % n < n
    ensures x >= 0 ==> 0 <= x / n
  {
  }

  /** Dividing twice is dividing by the product. */
  lemma DivDiv(x: nat, a: nat, b: nat)
    requires a > 0 && b > 0
    ensures a * b > 0 && x / a / b == x / (a * b)
  {
    MulStrict(a, 0, b);
    DivModProps(x, a);
    DivModProps(x / a, b);
    var q, r := x / a / b, x / a % b;
    assert x == (q * b + r) * a + x % a;
    assert (q * b + r) * a == q * (a * b) + r * a by { MulAssoc(q, b, a); MulDist(a, q * b, r); }
    MulMono(a, r, b - 1);
    MulDist(a, b, 1);
    MulNonneg(r, a);
    DivModUnique(x, a * b, q, r * a + x % a);
  }

  lemma MulSigns(x: int, y: int)
    ensures (-x) * y == -(x * y) && x * (-y) == -(x * y) && (-x) * (-y) == x * y
  {
  }

  lemma DivBounds(x: int, n: int, m: int)
    requires n > 0 && 0 <= x < m * n
    ensures 0 <= x / n < m
  {
    DivModProps(x, n);
    MulCancelLt(n, x / n, m);
  }

  // ------------------------------------------------------------- congruence

  ghost function Times(k: int, n: int): int { k * n }

  /** x and y differ by a multiple of n. */
  ghost predicate Cong(x: int, y: int, n: int) {
    exists k: int :: Times(k, n) == x - y
  }

  lemma CongIntro(x: int, y: int, n: int, k: int)
    requires x - y == k * n
    ensures Cong(x, y, n)
  {
    assert Times(k, n) == x - y;
  }

  lemma CongElim(x: int, y: int, n: int) returns (k: int)
    requires Cong(x, y, n)
    ensures x == y + k * n
  {
    k :| Times(k, n) == x - y;
  }

  lemma CongRefl(x: int, n: int)
    ensures Cong(x, x, n)
  {
    CongIntro(x, x, n, 0);
  }

  lemma CongSym(x: int, y: int, n: int)
    requires Cong(x, y, n)
    ensures Cong(y, x, n)
  {
    var k := CongElim(x, y, n);
    assert (-k) * n == -(k * n);
    CongIntro(y, x, n, -k);
  }

  lemma CongTrans(x: int, y: int, z: int, n: int)
    requires Cong(x, y, n) && Cong(y, z, n)
    ensures Cong(x, z, n)
  {
    var k := CongElim(x, y, n);
    var j := CongElim(y, z, n);
    assert (k + j) * n == k * n + j * n;
    CongIntro(x, z, n, k + j);
  }

  lemma CongAdd(x: int, y: int, u: int, v: int, n: int)
    requires Cong(x, y, n) && Cong(u, v, n)
    ensures Cong(x + u, y + v, n) && Cong(x - u, y - v, n)
  {
    var k := CongElim(x, y, n);
    var j := CongElim(u, v, n);
    assert (k + j) * n == k * n + j * n;
    assert (k - j) * n == k * n - j * n;
    CongIntro(x + u, y + v, n, k + j);
    CongIntro(x - u, y - v, n, k - j);
  }

  lemma CongScale(x: int, y: int, c: int, n: int)
    requires Cong(x, y, n)
    ensures Cong(c * x, c * y, n) && Cong(x * c, y * c, n)
  {
    var k := CongElim(x, y, n);
    assert c * x == c * y + (c * k) * n by {
      MulDist(c, y, k * n);
      MulAssoc(c, k, n);
    }
    CongIntro(c * x, c * y, n, c * k);
    assert c * x == x * c && c * y == y * c;
  }

  lemma CongMul(x: int, y: int, u: int, v: int, n: int)
    requires Cong(x, y, n) && Cong(u, v, n)
    ensures Cong(x * u, y * v, n)
  {
    CongScale(x, y, u, n);
    CongScale(u, v, y, n);
    CongTrans(x * u, y * u, y * v, n);
  }

  lemma CongMod(x: int, n: int)
    requires n > 0
    ensures Cong(x, x % n, n) && 0 <= x % n < n
  {
    DivModProps(x, n);
    CongIntro(x, x % n, n, x / n);
  }

  /** Two congruent residues are equal. */
  lemma CongUnique(x: int, y: int, n: int)
    requires Cong(x, y, n) && 0 <= x < n && 0 <= y < n
    ensures x == y
  {
    var k := CongElim(x, y, n);
    if k >= 1 { MulMono(n, 1, k); } else if k <= -1 { MulMono(n, k, -1); }
  }

  /** A residue congruent to x is the remainder of x. */
  lemma CongIsMod(x: int, r: int, n: int)
    requires Cong(r, x, n) && 0 <= r < n
    ensures r == x % n
  {
    CongMod(x, n);
    CongTrans(r, x, x % n, n);
    CongUnique(r, x % n, n);
  }
}
