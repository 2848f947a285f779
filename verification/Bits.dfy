/** Bits of natural numbers: length, single bits, bitwise or. */
module Bits {
  import opened Numbers

  function Bit(x: nat, k: nat): (r: int)
    ensures r == 0 || r == 1
  {
    PowPos(2, k);
    x / Pow(2, k) % 2
  }

  /** Number of bits in the binary form of v. */
  function BitLen(v: nat): nat {
    if v == 0 then 0 else 1 + BitLen(v / 2)
  }

  lemma {:induction false} BitLenBounds(v: nat)
    ensures v < Pow(2, BitLen(v))
    ensures v > 0 ==> Pow(2, BitLen(v) - 1) <= v
  {
    if v > 0 {
      BitLenBounds(v / 2);
      assert v == 2 * (v / 2) + v % 2;
      if v / 2 == 0 {
        assert v == 1 && BitLen(v) == 1;
        assert Pow(2, 0) == 1 && Pow(2, 1) == 2;
      } else {
        assert Pow(2, BitLen(v)) == 2 * Pow(2, BitLen(v) - 1);
        assert Pow(2, BitLen(v) - 1) == 2 * Pow(2, BitLen(v) - 2);
      }
    }
  }

  lemma BitLenUnique(v: nat, n: nat)
    requires v < Pow(2, n)
    requires n > 0 ==> Pow(2, n - 1) <= v
    ensures BitLen(v) == n
  {
    BitLenBounds(v);
    var m := BitLen(v);
    if n < m {
      PowMono(2, n, m - 1);
    } else if m < n {
      PowMono(2, m, n - 1);
    }
  }

  lemma BitLenLe(v: nat, n: nat)
    requires v < Pow(2, n)
    ensures BitLen(v) <= n
  {
    BitLenBounds(v);
    var m := BitLen(v);
    PowMono(2, n, if m > n then m - 1 else n);
  }

  /** Leading bits d above k low bits. */
  lemma BitLenScaled(v: nat, low: int, d: nat, k: nat)
    requires v == low + d * Pow(2, k) && 0 <= low < Pow(2, k) && d > 0
    ensures BitLen(v) == k + BitLen(d)
  {
    BitLenBounds(d);
    var W, L := Pow(2, k), BitLen(d);
    PowAdd(2, k, L);
    PowAdd(2, k, L - 1);
    MulMono(W, d + 1, Pow(2, L));
    MulMono(W, Pow(2, L - 1), d);
    assert W * (d + 1) == d * W + W;
    BitLenUnique(v, k + L);
  }

  /** Bitwise or. */
  function Or(x: nat, y: nat): nat {
    if x == 0 then y
    else if y == 0 then x
    else (if x % 2 == 1 || y % 2 == 1 then 1 else 0) + 2 * Or(x / 2, y / 2)
  }

  /** Or of a multiple of 2^t and a number below 2^t is their sum. */
  lemma {:induction false} OrDisjoint(x: nat, r: nat, t: nat)
    requires r < Pow(2, t)
    ensures x * Pow(2, t) >= 0
    ensures Or(x * Pow(2, t), r) == x * Pow(2, t) + r
    ensures Or(r, x * Pow(2, t)) == x * Pow(2, t) + r
  {
    PowPos(2, t);
    MulNonneg(x, Pow(2, t));
    if t == 0 {
      assert r == 0;
    } else {
      var P := Pow(2, t - 1);
      assert Pow(2, t) == 2 * P;
      var y := x * Pow(2, t);
      assert y == 2 * (x * P);
      PowPos(2, t - 1);
      MulNonneg(x, P);
      assert y / 2 == x * P && y % 2 == 0;
      OrDisjoint(x, r / 2, t - 1);
      if y == 0 || r == 0 {
      } else {
        assert Or(y, r) == r % 2 + 2 * Or(y / 2, r / 2);
        assert Or(r, y) == r % 2 + 2 * Or(r / 2, y / 2);
      }
    }
  }

  /** Shifting x left by T within T*K: x/K leaves at the top, (x mod K)*T stays. */
  lemma ShiftSplit(x: int, T: int, K: int)
    requires T > 0 && K > 0 && 0 <= x < T * K
    ensures 0 <= x / K < T && 0 <= x % K < K
    ensures 0 <= x % K * T && x % K * T + T <= T * K
    ensures x * T == x / K * (T * K) + x % K * T
    ensures x * T >= 0 && x * T % (T * K) == x % K * T
  {
    var q, m := x / K, x % K;
    DivModProps(x, K);
    DivBounds(x, K, T);
    assert (q * K + m) * T == (q * K) * T + m * T;
    assert (q * K) * T == q * (T * K) by { MulAssoc(q, K, T); }
    MulMono(T, m, K - 1);
    MulDist(T, K, 1);
    MulNonneg(m, T);
    MulNonneg(x, T);
    DivModUnique(x * T, T * K, q, m * T);
  }

  /** Dropping the low bits of x below T while m0 comes in at the top. */
  lemma ShiftDown(x: int, m0: int, T: int, K: int)
    requires T > 0 && K > 0 && 0 <= x < T * K && 0 <= m0 < T
    ensures 0 <= m0 * K && 0 <= x / T < K && x / T + m0 * K < T * K
    ensures x + m0 * (T * K) == T * (x / T + m0 * K) + x % T
  {
    assert x < K * T;
    DivBounds(x, T, K);
    DivModProps(x, T);
    MulMono(K, m0, T - 1);
    MulDist(K, T, 1);
    MulNonneg(m0, K);
    MulDist(T, x / T, m0 * K);
    assert T * (m0 * K) == m0 * (T * K) by { MulAssoc(T, m0, K); MulAssoc(m0, T, K); }
  }
}
