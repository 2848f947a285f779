/** Binary gcd and modular inverse (algorithms 14.54, 14.61 and 14.64 of the same handbook). */
module MpiGcd {
  import opened Numbers
  import opened NumberTheory
  import opened Digits
  import opened Mpis
  import opened MpiAdd
  import opened MpiShift
  import MpiDiv
  import ExpMod

  // ------------------------------------------------------------------ gcd

  /** What gcd returns: the gcd, except that a zero second argument always gives 0. */
  ghost function GcdResult(a: int, b: int): nat {
    if b == 0 then 0 else Gcd(Abs(a), Abs(b))
  }

  lemma GcdCorrectExactly(a: int, b: int)
    ensures GcdResult(a, b) == Gcd(Abs(a), Abs(b)) <==> b != 0 || a == 0
  {
  }

  /** Shifts out all factors of two of a nonzero number; leaves zero alone. */
  method MakeOdd(T: Mpi)
    modifies T
    ensures Val(old(T.p)) == 0 ==> Val(T.p) == 0
    ensures Val(old(T.p)) > 0 ==> Val(T.p) % 2 == 1 && 0 < Val(T.p) <= Val(old(T.p))
    ensures Val(old(T.p)) > 0 ==> exists c: nat :: Val(old(T.p)) == Pow(2, c) * Val(T.p)
    ensures T.s == old(T.s) || Val(T.p) == 0
  {
    hide Pow, Eval;
    var c, m := Lsb(T);
    ShiftR(T, c);
    PowStep(2, 0);
    if Val(old(T.p)) > 0 {
      MulComm(Pow(2, c), m);
      DivModUnique(Val(old(T.p)), Pow(2, c), m, 0);
      MulMono(m, 1, Pow(2, c));
    }
  }

  lemma MakeOddGcd(x: nat, x': nat, y: nat)
    requires y % 2 == 1
    requires x == x' || exists c: nat :: x == Pow(2, c) * x'
    ensures Gcd(x, y) == Gcd(x', y) && Gcd(y, x) == Gcd(y, x')
  {
    if x != x' {
      var c: nat :| x == Pow(2, c) * x';
      GcdShift(x', y, c);
    }
    GcdSymmetric(x, y);
    GcdSymmetric(x', y);
  }

  /** The binary loop, on numbers of which at least one is odd (or the second is zero). */
  method GcdLoop(TA: Mpi, TB: Mpi)
    requires TA != TB && TA.s == 1 && TB.s == 1
    requires Val(TB.p) > 0 ==> Val(TA.p) == 0 || Val(TA.p) % 2 == 1 || Val(TB.p) % 2 == 1
    modifies TA, TB
    ensures TB.s == 1 || Val(TB.p) == 0
    ensures Val(TB.p) == if Val(old(TB.p)) == 0 then 0 else Gcd(Val(old(TA.p)), Val(old(TB.p)))
  {
    hide Pow, Eval, Gcd;
    ghost var a, b := Val(TA.p), Val(TB.p);
    var c := CmpInt(TA, 0);
    while c != 0
      invariant c == Sgn(TA.Value()) && TA.Value() == Val(TA.p) && TB.Value() == Val(TB.p)
      invariant b == 0 ==> Val(TB.p) == 0
      invariant b > 0 ==> Val(TB.p) > 0 && Gcd(Val(TA.p), Val(TB.p)) == Gcd(a, b)
      invariant b > 0 ==> Val(TA.p) == 0 || Val(TA.p) % 2 == 1 || Val(TB.p) % 2 == 1
      decreases Val(TA.p) + Val(TB.p)
    {
      GcdRound(TA, TB);
      c := CmpInt(TA, 0);
    }
    if b > 0 {
      GcdZero(Val(TB.p));
    }
  }

  lemma GcdZero(b: nat)
    ensures Gcd(0, b) == b
  {
    GcdSymmetric(0, b);
  }

  /** One round: make both odd, replace the larger by half the difference. */
  method GcdRound(TA: Mpi, TB: Mpi)
    requires TA != TB && TA.Value() == Val(TA.p) > 0 && TB.Value() == Val(TB.p)
    requires Val(TB.p) > 0 ==> Val(TA.p) % 2 == 1 || Val(TB.p) % 2 == 1
    modifies TA, TB
    ensures TA.Value() == Val(TA.p) && TB.Value() == Val(TB.p)
    ensures Val(TA.p) + Val(TB.p) < Val(old(TA.p)) + Val(old(TB.p))
    ensures Val(old(TB.p)) == 0 ==> Val(TB.p) == 0
    ensures Val(old(TB.p)) > 0 ==> Val(TB.p) > 0
    ensures Val(old(TB.p)) > 0 ==> Gcd(Val(TA.p), Val(TB.p)) == Gcd(Val(old(TA.p)), Val(old(TB.p)))
    ensures Val(old(TB.p)) > 0 ==> Val(TA.p) % 2 == 1 || Val(TB.p) % 2 == 1
  {
    hide Pow, Eval, Gcd;
    ghost var a, b := Val(TA.p), Val(TB.p);
    MakeOdd(TA);
    MakeOdd(TB);
    ghost var x, y := Val(TA.p), Val(TB.p);
    if b > 0 { OddStep(a, b, x, y); }
    var c := CmpMpi(TA, TB);
    if c >= 0 {
      LargerIsLonger(TA.p, TB.p);
      var _ := SubAbs(TA, TA, TB);
      HalveNonneg(TA);
      if b > 0 { DifferenceStep(x, y); }
    } else {
      LargerIsLonger(TB.p, TA.p);
      var _ := SubAbs(TB, TB, TA);
      HalveNonneg(TB);
      if b > 0 {
        DifferenceStep(y, x);
        GcdSymmetric(x, y);
        GcdSymmetric(x, Val(TB.p));
      }
    }
  }

  /** X := floor(X / 2) for X of sign 1. */
  method HalveNonneg(X: Mpi)
    requires X.s == 1
    modifies X
    ensures Val(X.p) == Val(old(X.p)) / 2 && X.Value() == Val(X.p)
  {
    ShiftR(X, 1);
    PowStep(2, 0);
  }

  lemma OddStep(a: nat, b: nat, x: nat, y: nat)
    requires a > 0 && b > 0 && (a % 2 == 1 || b % 2 == 1)
    requires x % 2 == 1 && y % 2 == 1
    requires exists c: nat :: a == Pow(2, c) * x
    requires exists c: nat :: b == Pow(2, c) * y
    ensures Gcd(x, y) == Gcd(a, b)
  {
    hide Gcd;
    if a % 2 == 1 {
      MakeOddGcd(b, y, a);
      MakeOddGcd(a, x, y);
    } else {
      MakeOddGcd(a, x, b);
      MakeOddGcd(b, y, x);
    }
  }

  /** Half the difference of two odd numbers. */
  lemma DifferenceStep(x: nat, y: nat)
    requires x >= y && x % 2 == 1 && y % 2 == 1
    ensures Gcd((x - y) / 2, y) == Gcd(x, y)
  {
    hide Gcd;
    assert x - y == 2 * ((x - y) / 2);
    GcdHalve((x - y) / 2, y);
    GcdSubtract(x, y);
  }

  /** Shifting out lz of the i factors of two. */
  lemma PartialShift(a: nat, i: nat, m: int, lz: nat)
    requires a > 0 && a == Pow(2, i) * m && m % 2 == 1 && lz <= i
    ensures Pow(2, lz) > 0 && a == Pow(2, lz) * (a / Pow(2, lz)) && a / Pow(2, lz) > 0
    ensures i == lz ==> (a / Pow(2, lz)) % 2 == 1
  {
    hide Pow;
    PowPos(2, lz);
    PowAdd(2, lz, i - lz);
    var q := Pow(2, i - lz) * m;
    MulAssoc(Pow(2, lz), Pow(2, i - lz), m);
    MulComm(Pow(2, lz), q);
    DivModUnique(a, Pow(2, lz), q, 0);
    if q <= 0 { MulMono(Pow(2, lz), q, 0); }
    PowStep(2, 0);
  }

  /** Takes the common power of two out of both numbers. */
  method ShiftOutCommon(TA: Mpi, TB: Mpi) returns (lz: nat)
    requires TA != TB
    modifies TA, TB
    ensures TA.s == 1 && TB.s == 1 && (Val(TB.p) > 0 <==> Val(old(TB.p)) > 0)
    ensures Val(TB.p) > 0 ==> Val(TA.p) == 0 || Val(TA.p) % 2 == 1 || Val(TB.p) % 2 == 1
    ensures Val(TB.p) > 0 ==> Val(old(TA.p)) == Pow(2, lz) * Val(TA.p)
    ensures Val(TB.p) > 0 ==> Val(old(TB.p)) == Pow(2, lz) * Val(TB.p)
  {
    hide Pow, Eval;
    ghost var a, b := Val(TA.p), Val(TB.p);
    ghost var m, n;
    var lzt;
    lz, m := Lsb(TA);
    lzt, n := Lsb(TB);
    ghost var i, j := lz, lzt;
    if lzt < lz { lz := lzt; }
    PowPos(2, lz);
    DivModUnique(0, Pow(2, lz), 0, 0);
    if a > 0 && b > 0 {
      PartialShift(a, i, m, lz);
      PartialShift(b, j, n, lz);
    } else {
      PowStep(2, 0);
    }
    ShiftR(TA, lz);
    ShiftR(TB, lz);
    TA.s, TB.s := 1, 1;
  }

  /** G = gcd(A, B) whenever B is nonzero; G may be A or B. */
  method GcdMpi(G: Mpi, A: Mpi, B: Mpi)
    modifies G
    ensures G.Value() == GcdResult(old(A.Value()), old(B.Value()))
  {
    hide Pow, Eval, Gcd;
    ghost var a, b := Val(A.p), Val(B.p);
    var TA := new Mpi();
    var TB := new Mpi();
    Copy(TA, A);
    Copy(TB, B);
    var lz := ShiftOutCommon(TA, TB);
    if b > 0 { UnshiftGcd(a, b, lz, Val(TA.p), Val(TB.p)); }
    GcdLoop(TA, TB);
    ShiftL(TB, lz);
    Copy(G, TB);
  }

  lemma UnshiftGcd(a: nat, b: nat, lz: nat, a': nat, b': nat)
    requires a == Pow(2, lz) * a' && b == Pow(2, lz) * b'
    ensures Gcd(a', b') * Pow(2, lz) == Gcd(a, b)
  {
    hide Pow, Gcd;
    PowPos(2, lz);
    GcdCommonFactor(Pow(2, lz), a', b');
    MulComm(Pow(2, lz), Gcd(a', b'));
  }

  // ------------------------------------------------------------- inverse

  /** u1 * ta + u2 * tb == tu */
  ghost predicate Combination(u1: int, u2: int, ta: int, tb: int, tu: int) {
    u1 * ta + u2 * tb == tu
  }

  /** Halving a combination of an even number, after making both coefficients even. */
  lemma HalveCombination(u1: int, u2: int, ta: int, tb: int, tu: int)
    requires Combination(u1, u2, ta, tb, tu) && tu % 2 == 0 && (ta % 2 == 1 || tb % 2 == 1)
    ensures u1 % 2 == 0 && u2 % 2 == 0 ==> Combination(u1 / 2, u2 / 2, ta, tb, tu / 2)
    ensures u1 % 2 == 1 || u2 % 2 == 1 ==>
      (u1 + tb) % 2 == 0 && (u2 - ta) % 2 == 0 && Combination((u1 + tb) / 2, (u2 - ta) / 2, ta, tb, tu / 2)
  {
    if u1 % 2 == 0 && u2 % 2 == 0 {
      HalfSum(u1 / 2, u2 / 2, ta, tb);
    } else {
      ParityOfCombination(u1, u2, ta, tb, tu);
      CrossTerms(u1, u2, ta, tb);
      HalfSum((u1 + tb) / 2, (u2 - ta) / 2, ta, tb);
    }
  }

  lemma HalfSum(x: int, y: int, ta: int, tb: int)
    ensures (2 * x) * ta + (2 * y) * tb == 2 * (x * ta + y * tb)
  {
    MulAssoc(2, x, ta);
    MulAssoc(2, y, tb);
  }

  lemma CrossTerms(u1: int, u2: int, ta: int, tb: int)
    ensures (u1 + tb) * ta + (u2 - ta) * tb == u1 * ta + u2 * tb
  {
    assert (u1 + tb) * ta == u1 * ta + tb * ta;
    assert (u2 - ta) * tb == u2 * tb - ta * tb;
    MulComm(ta, tb);
  }

  lemma ParityOfProduct(x: int, y: int)
    ensures (x * y) % 2 == if x % 2 == 1 && y % 2 == 1 then 1 else 0
  {
    var h, r := x / 2, x % 2;
    assert x * y == 2 * (h * y) + r * y by { MulAssoc(2, h, y); }
    if r == 1 { assert r * y == y; } else { assert r * y == 0; }
  }

  lemma ParityOfCombination(u1: int, u2: int, ta: int, tb: int, tu: int)
    requires Combination(u1, u2, ta, tb, tu) && tu % 2 == 0 && (ta % 2 == 1 || tb % 2 == 1)
    requires u1 % 2 == 1 || u2 % 2 == 1
    ensures (u1 + tb) % 2 == 0 && (u2 - ta) % 2 == 0
  {
    ParityOfProduct(u1, ta);
    ParityOfProduct(u2, tb);
    ParityCases(u1, u2, ta, tb, u1 * ta, u2 * tb);
  }

  lemma ParityCases(u1: int, u2: int, ta: int, tb: int, x: int, y: int)
    requires x % 2 == if u1 % 2 == 1 && ta % 2 == 1 then 1 else 0
    requires y % 2 == if u2 % 2 == 1 && tb % 2 == 1 then 1 else 0
    requires (x + y) % 2 == 0 && (ta % 2 == 1 || tb % 2 == 1) && (u1 % 2 == 1 || u2 % 2 == 1)
    ensures (u1 + tb) % 2 == 0 && (u2 - ta) % 2 == 0
  {
  }

  /** The value is odd exactly when the low limb is. */
  lemma ValueParity(X: Mpi)
    requires |X.p| > 0
    ensures X.p[0] % 2 == X.Value() % 2 == Val(X.p) % 2
  {
    ExpMod.Parity(X.p);
  }

  /** Divides TU by two while it is even, keeping U1 * ta + U2 * tb == TU. */
  method HalveWhileEven(TU: Mpi, U1: Mpi, U2: Mpi, TA: Mpi, TB: Mpi)
    requires TU != U1 && TU != U2 && U1 != U2
    requires TA != TU && TA != U1 && TA != U2 && TB != TU && TB != U1 && TB != U2
    requires |TU.p| > 0 && |U1.p| > 0 && |U2.p| > 0 && TU.Value() > 0
    requires TA.Value() % 2 == 1 || TB.Value() % 2 == 1
    requires Combination(U1.Value(), U2.Value(), TA.Value(), TB.Value(), TU.Value())
    modifies TU, U1, U2
    ensures |TU.p| > 0 && |U1.p| > 0 && |U2.p| > 0 && 0 < TU.Value() <= old(TU.Value())
    ensures TU.Value() % 2 == 1 && Divides(TU.Value(), old(TU.Value()))
    ensures Combination(U1.Value(), U2.Value(), TA.Value(), TB.Value(), TU.Value())
  {
    hide Pow, Eval, Combination;
    ValueParity(TU);
    DividesZero(TU.Value());
    while TU.p[0] % 2 == 0
      invariant |TU.p| > 0 && |U1.p| > 0 && |U2.p| > 0 && 0 < TU.Value() <= old(TU.Value())
      invariant TU.p[0] % 2 == TU.Value() % 2 == Val(TU.p) % 2
      invariant Divides(TU.Value(), old(TU.Value()))
      invariant Combination(U1.Value(), U2.Value(), TA.Value(), TB.Value(), TU.Value())
      decreases TU.Value()
    {
      ghost var tu, u1, u2 := TU.Value(), U1.Value(), U2.Value();
      HalveEven(TU);
      DividesIntro(tu / 2, tu, 2);
      DividesTrans(tu / 2, tu, old(TU.Value()));
      HalveCombination(u1, u2, TA.Value(), TB.Value(), tu);
      HalveCoefficients(U1, U2, TA, TB);
      ValueParity(TU);
    }
  }

  /** Halves both coefficients, adding and subtracting the crossed moduli first when one is odd. */
  method HalveCoefficients(U1: Mpi, U2: Mpi, TA: Mpi, TB: Mpi)
    requires U1 != U2 && TA != U1 && TA != U2 && TB != U1 && TB != U2
    requires |U1.p| > 0 && |U2.p| > 0
    requires U1.Value() % 2 == 1 || U2.Value() % 2 == 1 ==>
      (U1.Value() + TB.Value()) % 2 == 0 && (U2.Value() - TA.Value()) % 2 == 0
    modifies U1, U2
    ensures |U1.p| > 0 && |U2.p| > 0
    ensures var odd := old(U1.Value()) % 2 == 1 || old(U2.Value()) % 2 == 1;
      U1.Value() == (if odd then (old(U1.Value()) + TB.Value()) / 2 else old(U1.Value()) / 2)
      && U2.Value() == (if odd then (old(U2.Value()) - TA.Value()) / 2 else old(U2.Value()) / 2)
  {
    hide Pow, Eval;
    ValueParity(U1);
    ValueParity(U2);
    if U1.p[0] % 2 != 0 || U2.p[0] % 2 != 0 {
      AddMpi(U1, U1, TB);
      SubMpi(U2, U2, TA);
    }
    ValueParity(U1);
    ValueParity(U2);
    HalveEven(U1);
    HalveEven(U2);
  }

  lemma SubtractCombinations(u1: int, u2: int, v1: int, v2: int, ta: int, tb: int, tu: int, tv: int)
    requires Combination(u1, u2, ta, tb, tu) && Combination(v1, v2, ta, tb, tv)
    ensures Combination(u1 - v1, u2 - v2, ta, tb, tu - tv)
  {
    assert (u1 - v1) * ta == u1 * ta - v1 * ta;
    assert (u2 - v2) * tb == u2 * tb - v2 * tb;
  }

  /** U := U - V in all three components. */
  method SubtractRow(TU: Mpi, U1: Mpi, U2: Mpi, TV: Mpi, V1: Mpi, V2: Mpi, ghost ta: int, ghost tb: int)
    requires TU != U1 && TU != U2 && U1 != U2
    requires TV != TU && TV != U1 && TV != U2 && V1 != TU && V1 != U1 && V1 != U2
    requires V2 != TU && V2 != U1 && V2 != U2
    requires |TU.p| > 0 && |U1.p| > 0 && |U2.p| > 0
    requires Combination(U1.Value(), U2.Value(), ta, tb, TU.Value())
    requires Combination(V1.Value(), V2.Value(), ta, tb, TV.Value())
    modifies TU, U1, U2
    ensures |TU.p| > 0 && |U1.p| > 0 && |U2.p| > 0
    ensures TU.Value() == old(TU.Value()) - TV.Value()
    ensures Combination(U1.Value(), U2.Value(), ta, tb, TU.Value())
  {
    hide Pow, Eval, Combination;
    SubtractCombinations(U1.Value(), U2.Value(), V1.Value(), V2.Value(), ta, tb, TU.Value(), TV.Value());
    SubMpi(TU, TU, TV);
    SubMpi(U1, U1, V1);
    SubMpi(U2, U2, V2);
  }

  /** Subtracting keeps the pair coprime. */
  lemma CoprimeDifference(x: nat, y: nat)
    requires Gcd(x, y) == 1
    ensures x >= y ==> Gcd(x - y, y) == 1
    ensures x < y ==> Gcd(x, y - x) == 1
  {
    hide Gcd;
    if x >= y {
      GcdSubtract(x, y);
    } else {
      GcdSymmetric(x, y);
      GcdSubtract(y, x);
      GcdSymmetric(x, y - x);
    }
  }

  /** A pair stays coprime when each member is replaced by a divisor of it. */
  lemma CoprimeDivisors(x: nat, y: nat, x': nat, y': nat)
    requires Gcd(x, y) == 1 && Divides(x', x) && Divides(y', y)
    ensures Gcd(x', y') == 1
  {
    hide Gcd;
    CoprimeDivisor(x, y, x');
    GcdSymmetric(x', y);
    CoprimeDivisor(y, x', y');
    GcdSymmetric(y', x');
  }

  /** The extended binary gcd: on exit V1 * ta + V2 * tb == 1. */
  method InverseLoop(TU: Mpi, U1: Mpi, U2: Mpi, TV: Mpi, V1: Mpi, V2: Mpi, TA: Mpi, TB: Mpi)
    requires TU != U1 && TU != U2 && U1 != U2 && TV != V1 && TV != V2 && V1 != V2
    requires TV != TU && TV != U1 && TV != U2 && V1 != TU && V1 != U1 && V1 != U2
    requires V2 != TU && V2 != U1 && V2 != U2
    requires TA != TU && TA != U1 && TA != U2 && TA != TV && TA != V1 && TA != V2
    requires TB != TU && TB != U1 && TB != U2 && TB != TV && TB != V1 && TB != V2
    requires |TU.p| > 0 && |U1.p| > 0 && |U2.p| > 0 && |TV.p| > 0 && |V1.p| > 0 && |V2.p| > 0
    requires TU.Value() > 0 && TV.Value() > 0 && Gcd(TU.Value(), TV.Value()) == 1
    requires TA.Value() % 2 == 1 || TB.Value() % 2 == 1
    requires Combination(U1.Value(), U2.Value(), TA.Value(), TB.Value(), TU.Value())
    requires Combination(V1.Value(), V2.Value(), TA.Value(), TB.Value(), TV.Value())
    modifies TU, U1, U2, TV, V1, V2
    ensures Combination(V1.Value(), V2.Value(), TA.Value(), TB.Value(), 1)
    ensures |V1.p| > 0
  {
    hide Pow, Eval, Combination, Gcd;
    ghost var ta, tb := TA.Value(), TB.Value();
    var go := true;
    while go
      invariant |TU.p| > 0 && |U1.p| > 0 && |U2.p| > 0 && |TV.p| > 0 && |V1.p| > 0 && |V2.p| > 0
      invariant TU.Value() >= 0 && TV.Value() > 0 && Gcd(TU.Value(), TV.Value()) == 1
      invariant go <==> TU.Value() > 0
      invariant Combination(U1.Value(), U2.Value(), ta, tb, TU.Value())
      invariant Combination(V1.Value(), V2.Value(), ta, tb, TV.Value())
      decreases TU.Value() + TV.Value()
    {
      ghost var x, y := TU.Value(), TV.Value();
      HalveWhileEven(TU, U1, U2, TA, TB);
      HalveWhileEven(TV, V1, V2, TA, TB);
      CoprimeDivisors(x, y, TU.Value(), TV.Value());
      CoprimeDifference(TU.Value(), TV.Value());
      var c := CmpMpi(TU, TV);
      if c >= 0 {
        SubtractRow(TU, U1, U2, TV, V1, V2, ta, tb);
      } else {
        SubtractRow(TV, V1, V2, TU, U1, U2, ta, tb);
      }
      c := CmpInt(TU, 0);
      go := c != 0;
    }
    GcdZero(TV.Value());
  }

  /** v1 * (a mod n) + v2 * n == 1 makes v1 an inverse of a. */
  lemma InverseFromCombination(v1: int, v2: int, a: int, n: int, x: int)
    requires n > 0 && Combination(v1, v2, a % n, n, 1) && Cong(x, v1, n)
    ensures Cong(x * a, 1, n)
  {
    hide Cong;
    CongMod(a, n);
    CongMul(x, v1, a, a % n, n);
    assert v1 * (a % n) - 1 == (-v2) * n;
    CongIntro(v1 * (a % n), 1, n, -v2);
    CongTrans(x * a, v1 * (a % n), 1, n);
  }

  /** The start rows 1*ta + 0*tb == ta and 0*ta + 1*tb == tb. */
  lemma StartRows(ta: int, tb: int)
    ensures Combination(1, 0, ta, tb, ta) && Combination(0, 1, ta, tb, tb)
  {
  }

  /** A fresh number of the given value with room for at least one limb. */
  method Cell(z: Sint) returns (X: Mpi)
    ensures fresh(X) && X.Value() == z && |X.p| > 0
  {
    X := new Mpi();
    Lset(X, z);
  }

  method CopyOf(Y: Mpi) returns (X: Mpi)
    requires |Y.p| > 0
    ensures fresh(X) && X.Value() == Y.Value() && |X.p| > 0
  {
    X := new Mpi();
    Copy(X, Y);
  }

  /** Runs the extended gcd on a residue and the modulus. */
  method CombinationFor(TA: Mpi, N: Mpi) returns (V1: Mpi, ghost v2: int)
    requires TA.Value() > 0 && N.Value() > 0 && Gcd(TA.Value(), N.Value()) == 1
    requires |TA.p| > 0 && |N.p| > 0
    ensures fresh(V1) && |V1.p| > 0
    ensures Combination(V1.Value(), v2, TA.Value(), N.Value(), 1)
  {
    hide Pow, Eval, Combination, Gcd;
    var TU := CopyOf(TA);
    var TB := CopyOf(N);
    var TV := CopyOf(N);
    var U1 := Cell(1);
    var U2 := Cell(0);
    V1 := Cell(0);
    var V2 := Cell(1);
    CoprimeNotBothEven(TA.Value(), N.Value());
    StartRows(TA.Value(), N.Value());
    InverseLoop(TU, U1, U2, TV, V1, V2, TA, TB);
    v2 := V2.Value();
  }

  /** The coefficient of A, before it is brought into range. */
  method InverseCoefficient(A: Mpi, N: Mpi) returns (V1: Mpi, ghost v2: int)
    requires N.Value() > 1 && Gcd(Abs(A.Value()), N.Value()) == 1
    ensures fresh(V1) && |V1.p| > 0
    ensures Combination(V1.Value(), v2, A.Value() % N.Value(), N.Value(), 1)
  {
    hide Pow, Eval, Combination, Gcd;
    GcdMod(A.Value(), N.Value());
    ZeroNotCoprime(N.Value());
    var TA := new Mpi();
    var _ := MpiDiv.ModMpi(TA, A, N);
    NonzeroHasLimbs(TA);
    NonzeroHasLimbs(N);
    V1, v2 := CombinationFor(TA, N);
  }

  lemma ZeroNotCoprime(n: nat)
    requires n > 1
    ensures Gcd(0, n) != 1
  {
    GcdZero(n);
  }

  lemma NonzeroHasLimbs(X: Mpi)
    requires X.Value() != 0
    ensures |X.p| > 0
  {
    if |X.p| == 0 { ValEmpty(); }
  }

  /** X = A^-1 mod N, for even and odd N. */
  method InvModMpi(X: Mpi, A: Mpi, N: Mpi) returns (ret: Status)
    modifies X
    ensures ret == if old(N.Value()) <= 1 then BadInput
                   else if Gcd(Abs(old(A.Value())), old(N.Value())) == 1 then Ok else NotAcceptable
    ensures ret == Ok ==> 0 <= X.Value() < old(N.Value())
    ensures ret == Ok ==> Cong(X.Value() * old(A.Value()), 1, old(N.Value()))
    ensures ret != Ok ==> X.s == old(X.s) && X.p == old(X.p)
  {
    hide Pow, Eval, Combination, Gcd, Cong;
    var c := CmpInt(N, 1);
    if c <= 0 { return BadInput; }
    ghost var a, n := A.Value(), N.Value();
    var G := new Mpi();
    GcdMpi(G, A, N);
    c := CmpInt(G, 1);
    if c != 0 { return NotAcceptable; }
    ghost var v2;
    var V1;
    V1, v2 := InverseCoefficient(A, N);
    ghost var v1 := V1.Value();
    MpiDiv.ReduceByAddSub(V1, N);
    InverseFromCombination(v1, v2, a, n, V1.Value());
    Copy(X, V1);
    return Ok;
  }

  /** No residue is inverse to a number that shares a factor with the modulus. */
  lemma InverseNeedsCoprime(a: int, n: nat, x: int)
    requires n > 1 && Cong(x * a, 1, n)
    ensures Gcd(Abs(a), n) == 1
  {
    hide Gcd, Cong;
    var g := Gcd(Abs(a), n);
    GcdIsGcd(Abs(a), n);
    DividesAbs(g, a);
    var k := CongElim(x * a, 1, n);
    DividesScale(g, a, x);
    DividesScale(g, n, k);
    DividesSum(g, x * a, k * n);
    DividesLe(g, 1);
  }

  /** The inverse in [0, N) is unique. */
  lemma InverseUnique(a: int, n: nat, x: int, y: int)
    requires n > 1 && Cong(x * a, 1, n) && Cong(y * a, 1, n) && 0 <= x < n && 0 <= y < n
    ensures x == y
  {
    hide Cong;
    CongScale(y * a, 1, x, n);
    CongScale(x * a, 1, y, n);
    assert x * (y * a) == y * (x * a) by { MulAssoc(x, y, a); MulComm(x, y); MulAssoc(y, x, a); }
    CongSym(x * (y * a), x, n);
    CongTrans(x, y * (x * a), y, n);
    CongUnique(x, y, n);
  }
}
