/** Long division (algorithm 14.20 of the Handbook of Applied Cryptography) and remainders. */
module MpiDiv {
  import opened Numbers
  import opened Bits
  import opened Digits
  import opened Mpis
  import opened MpiAdd
  import opened MpiMul
  import opened MpiShift
  import IntDiv

  // ------------------------------------------- what division computes

  /** Quotient rounded toward zero. */
  function Quot(a: int, b: int): int
    requires b != 0
  {
    if (a < 0) == (b < 0) then Abs(a) / Abs(b) else -(Abs(a) / Abs(b))
  }

  /** Remainder with the sign of the dividend. */
  function Rem(a: int, b: int): int
    requires b != 0
  {
    if a < 0 then -(Abs(a) % Abs(b)) else Abs(a) % Abs(b)
  }

  lemma DivisionLaw(a: int, b: int)
    requires b != 0
    ensures a == Quot(a, b) * b + Rem(a, b)
    ensures Abs(Rem(a, b)) < Abs(b)
    ensures a >= 0 ==> Rem(a, b) >= 0
    ensures a <= 0 ==> Rem(a, b) <= 0
  {
    DivModProps(Abs(a), Abs(b));
    MulSigns(Abs(a) / Abs(b), Abs(b));
  }

  // --------------------------------------------- estimating one digit

  function Below(ds: seq<Limb>, k: nat, j: nat): Limb
    requires k < |ds|
  {
    if j <= k then ds[k - j] else 0
  }

  /** The top two digits bracket the value. */
  lemma TopTwo(b: int, ds: seq<int>, k: nat)
    requires b >= 2 && IsDigits(b, ds) && k < |ds| && SigLen(ds) <= k + 1
    ensures var lead := ds[k] * b + if k >= 1 then ds[k - 1] else 0;
      Pow(b, k) * lead <= b * Eval(b, ds) < Pow(b, k) * (lead + 1)
  {
    EvalSig(b, ds, k + 1);
    EvalStep(b, ds, k);
    var v := Eval(b, ds);
    if k == 0 {
      assert ds[..0] == [] && Pow(b, 0) == 1;
      MulComm(b, ds[0]);
    } else {
      EvalStep(b, ds, k - 1);
      EvalBound(b, ds[..k - 1]);
      LeadTwo(b, v, Eval(b, ds[..k - 1]), ds[k], ds[k - 1], Pow(b, k - 1), Pow(b, k));
    }
  }

  lemma LeadTwo(b: int, v: int, low: int, d1: int, d0: int, P: int, W: int)
    requires b >= 2 && W == b * P && v == low + d0 * P + d1 * W && 0 <= low < P
    ensures W * (d1 * b + d0) <= b * v < W * (d1 * b + d0 + 1)
  {
    MulDist(b, low + d0 * P, d1 * W);
    MulDist(b, low, d0 * P);
    assert b * (d0 * P) == W * d0 by { MulAssoc(b, d0, P); MulComm(b, d0); MulAssoc(d0, b, P); MulComm(d0, W); }
    assert b * (d1 * W) == W * (d1 * b) by { MulAssoc(b, d1, W); MulComm(b, d1); MulComm(d1 * b, W); }
    MulDist(W, d1 * b, d0);
    MulDist(W, d1 * b + d0, 1);
    MulNonneg(b, low);
    MulStrict(b, low, P);
  }

  /** The top three digits bracket the value, one power of the base finer. */
  lemma TopThree(b: int, ds: seq<int>, k: nat)
    requires b >= 2 && IsDigits(b, ds) && 1 <= k < |ds| && SigLen(ds) <= k + 1
    ensures var lead := (ds[k] * b + ds[k - 1]) * b + if k >= 2 then ds[k - 2] else 0;
      Pow(b, k - 1) * lead <= b * Eval(b, ds) < Pow(b, k - 1) * (lead + 1)
  {
    TwoOnTop(b, ds, k);
    var top := ds[k] * b + ds[k - 1];
    if k == 1 {
      assert ds[..0] == [] && Pow(b, 0) == 1;
      MulComm(b, top);
    } else {
      EvalStep(b, ds, k - 2);
      EvalBound(b, ds[..k - 2]);
      LeadTwo(b, Eval(b, ds), Eval(b, ds[..k - 2]), top, ds[k - 2], Pow(b, k - 2), Pow(b, k - 1));
    }
  }

  lemma TwoOnTop(b: int, ds: seq<int>, k: nat)
    requires 1 <= k < |ds| && SigLen(ds) <= k + 1
    ensures Eval(b, ds) == Eval(b, ds[..k - 1]) + (ds[k] * b + ds[k - 1]) * Pow(b, k - 1)
  {
    EvalSig(b, ds, k + 1);
    EvalStep(b, ds, k);
    EvalStep(b, ds, k - 1);
    var P := Pow(b, k - 1);
    assert Pow(b, k) == b * P;
    MulAssoc(ds[k], b, P);
    assert (ds[k] * b + ds[k - 1]) * P == (ds[k] * b) * P + ds[k - 1] * P;
  }

  /** The two-by-one estimate is not below the digit. */
  lemma EstimateAbove(b: int, P: int, x: int, u2: int, y: int, v1: int, q: int)
    requires P > 0 && v1 > 0 && q >= 0
    requires x < P * (u2 + 1) && P * v1 <= y && q * y <= x
    ensures q <= u2 / v1
  {
    MulMono(q, P * v1, y);
    assert q * (P * v1) == P * (q * v1) by { MulAssoc(q, P, v1); MulComm(q, P); MulAssoc(P, q, v1); }
    MulCancelLt(P, q * v1, u2 + 1);
    if q > u2 / v1 {
      DivModProps(u2, v1);
      MulMono(v1, u2 / v1 + 1, q);
      MulDist(v1, u2 / v1, 1);
      MulComm(v1, u2 / v1);
      MulComm(v1, q);
    }
  }

  /** A digit never fails the three-by-two test. */
  lemma DigitPassesTest(M: int, X: int, u3: int, D: int, v2: int, q: int)
    requires M > 0 && q >= 0
    requires X < M * (u3 + 1) && M * v2 <= D && q * D <= X
    ensures q * v2 <= u3
  {
    MulMono(q, M * v2, D);
    assert q * (M * v2) == M * (q * v2) by { MulAssoc(q, M, v2); MulComm(q, M); MulAssoc(M, q, v2); }
    MulCancelLt(M, q * v2, u3 + 1);
  }

  /** An estimate that passes the three-by-two test is at most one too large. */
  lemma AtMostOneTooLarge(b: int, M: int, X: int, u3: int, D: int, v2: int, q: int, z: int)
    requires M > 0 && b >= 2 && 0 <= q < b <= v2
    requires M * u3 <= X && X < (q + 1) * D && D < M * (v2 + 1)
    requires z * v2 <= u3
    ensures z <= q + 1
  {
    if z >= q + 2 {
      MulMono(v2, q + 2, z);
      MulComm(v2, z);
      MulMono(M, v2 * (q + 2), u3);
      MulStrict(q + 1, D, M * (v2 + 1));
      assert (q + 1) * (M * (v2 + 1)) == M * ((q + 1) * (v2 + 1)) by {
        MulAssoc(q + 1, M, v2 + 1);
        MulComm(q + 1, M);
        MulAssoc(M, q + 1, v2 + 1);
      }
      SmallDigit(q, v2);
      MulCancelLt(M, v2 * (q + 2), (q + 1) * (v2 + 1));
    }
  }

  lemma SmallDigit(q: int, v2: int)
    requires q + 1 <= v2
    ensures (q + 1) * (v2 + 1) <= v2 * (q + 2)
  {
    assert (q + 1) * (v2 + 1) == q * v2 + v2 + q + 1;
    assert v2 * (q + 2) == q * v2 + 2 * v2;
  }

  /** The facts one round of the division loop works with. */
  ghost predicate Round(x: seq<Limb>, y: seq<Limb>, t: nat, i: nat) {
    && t < i < |x| && t < |y|
    && SigLen(y) == t + 1
    && Val(x) < Val(y) * Pow(Base(), i - t)
  }

  function U3(x: seq<Limb>, i: nat): int
    requires 1 <= i < |x|
  {
    (x[i] * Base() + x[i - 1]) * Base() + Below(x, i, 2)
  }

  function V2(y: seq<Limb>, t: nat): int
    requires t < |y|
  {
    y[t] * Base() + Below(y, t, 1)
  }

  /** The divisor moved under the limb the round works on. */
  ghost function Shifted(y: seq<Limb>, t: nat, i: nat): int
    requires t < i
  {
    Val(y) * Pow(Base(), i - t - 1)
  }

  /** The exact digit of the round. */
  ghost function TrueDigit(x: seq<Limb>, y: seq<Limb>, t: nat, i: nat): int
    requires t < i
  {
    var D := Shifted(y, t, i);
    if D > 0 then Val(x) / D else 0
  }

  lemma RoundSizes(x: seq<Limb>, y: seq<Limb>, t: nat, i: nat)
    requires Round(x, y, t, i)
    ensures y[t] > 0 && Val(y) > 0 && Shifted(y, t, i) > 0 && SigLen(x) <= i + 1
    ensures Val(x) < Base() * Shifted(y, t, i)
    ensures 0 <= TrueDigit(x, y, t, i) < Base()
    ensures TrueDigit(x, y, t, i) * Shifted(y, t, i) <= Val(x) < (TrueDigit(x, y, t, i) + 1) * Shifted(y, t, i)
  {
    hide Pow, Eval;
    var b := Base();
    ZeroSig(y);
    PowPos(b, i - t - 1);
    MulStrict(Val(y), 0, Pow(b, i - t - 1));
    var D := Shifted(y, t, i);
    assert Val(x) < b * D by {
      PowStep(b, i - t - 1);
      MulAssoc(Val(y), b, Pow(b, i - t - 1));
      MulComm(Val(y), b);
      MulAssoc(b, Val(y), Pow(b, i - t - 1));
    }
    QuotientBracket(Val(x), D, b);
    RoundLength(x, y, t, i);
  }

  lemma QuotientBracket(x: int, D: int, b: int)
    requires D > 0 && 0 <= x < b * D
    ensures 0 <= x / D < b && x / D * D <= x < (x / D + 1) * D
  {
    DivModProps(x, D);
    MulComm(D, x / D);
    DivBounds(x, D, b);
    MulComm(D, x / D + 1);
    MulDist(D, x / D, 1);
  }

  lemma RoundLength(x: seq<Limb>, y: seq<Limb>, t: nat, i: nat)
    requires Round(x, y, t, i)
    ensures SigLen(x) <= i + 1
  {
    hide Pow, Eval;
    var b := Base();
    SigBounds(b, y);
    PowShiftBound(b, Val(y), t + 1, i - t, i + 1);
    SigLenLe(b, x, i + 1);
  }

  /** Leading limbs of dividend and divisor, scaled alike. */
  lemma RoundLeads(x: seq<Limb>, y: seq<Limb>, t: nat, i: nat)
    requires Round(x, y, t, i)
    ensures Pow(Base(), i - 1) > 0 && Base() <= V2(y, t)
    ensures Pow(Base(), i - 1) * U3(x, i) <= Base() * Val(x) < Pow(Base(), i - 1) * (U3(x, i) + 1)
    ensures Pow(Base(), i - 1) * V2(y, t) <= Base() * Shifted(y, t, i) < Pow(Base(), i - 1) * (V2(y, t) + 1)
  {
    hide Pow, Eval;
    var b := Base();
    RoundSizes(x, y, t, i);
    TopThree(b, x, i);
    TopTwo(b, y, t);
    PowPos(b, i - 1);
    MulMono(b, 1, y[t]);
    MulComm(b, y[t]);
    ScaleBracket(b, Val(y), V2(y, t), Pow(b, t), Pow(b, i - t - 1));
    PowPos(b, i - t - 1);
    PowAdd(b, t, i - t - 1);
  }

  lemma ScaleBracket(b: int, v: int, lead: int, P: int, W: int)
    requires P * lead <= b * v < P * (lead + 1)
    ensures W > 0 ==> (P * W) * lead <= b * (v * W) < (P * W) * (lead + 1)
  {
    hide Pow, Eval;
    if W > 0 {
      MulMono(W, P * lead, b * v);
      MulStrict(W, b * v, P * (lead + 1));
      assert W * (P * lead) == (P * W) * lead by { MulAssoc(W, P, lead); MulComm(W, P); }
      assert W * (P * (lead + 1)) == (P * W) * (lead + 1) by { MulAssoc(W, P, lead + 1); MulComm(W, P); }
      assert W * (b * v) == b * (v * W) by { MulComm(W, b * v); MulAssoc(b, v, W); }
    }
  }

  /** First estimate of the digit, from two limbs by one. */
  method EstimateDigit(x: seq<Limb>, y: seq<Limb>, t: nat, i: nat) returns (z: Limb)
    requires Round(x, y, t, i)
    ensures TrueDigit(x, y, t, i) <= z
  {
    RoundSizes(x, y, t, i);
    if x[i] >= y[t] {
      z := Base() - 1;
    } else {
      var r;
      z, r := IntDiv.DivHalves(x[i], x[i - 1], y[t]);
      TwoByOne(x, y, t, i);
    }
  }

  lemma TwoByOne(x: seq<Limb>, y: seq<Limb>, t: nat, i: nat)
    requires Round(x, y, t, i) && y[t] > 0
    ensures TrueDigit(x, y, t, i) <= (x[i] * Base() + x[i - 1]) / y[t]
  {
    hide Pow, Eval;
    var b := Base();
    RoundSizes(x, y, t, i);
    TopTwo(b, x, i);
    EvalSig(b, y, t + 1);
    EvalStep(b, y, t);
    EvalBound(b, y[..t]);
    MulComm(Pow(b, t), y[t]);
    PowPos(b, i - t - 1);
    PowPos(b, i - 1);
    var D, W, P := Shifted(y, t, i), Pow(b, i - t - 1), Pow(b, i - 1);
    assert P * y[t] <= D by {
      MulMono(W, Pow(b, t) * y[t], Val(y));
      PowAdd(b, t, i - t - 1);
      MulAssoc(W, Pow(b, t), y[t]);
      MulComm(W, Pow(b, t));
      MulComm(W, Val(y));
    }
    var u2 := x[i] * b + x[i - 1];
    assert Val(x) < P * (u2 + 1) by {
      PowStep(b, i - 1);
      MulAssoc(b, P, u2 + 1);
      MulCancelLt(b, Val(x), P * (u2 + 1));
    }
    EstimateAbove(b, P, Val(x), u2, D, y[t], TrueDigit(x, y, t, i));
  }

  /** The correction loop brings the estimate to the digit or one above it. */
  method CorrectEstimate(x: seq<Limb>, y: seq<Limb>, t: nat, i: nat, z0: Limb, T1: Mpi) returns (z: Limb)
    requires Round(x, y, t, i) && TrueDigit(x, y, t, i) <= z0 && |T1.p| >= 2
    modifies T1
    ensures TrueDigit(x, y, t, i) <= z <= TrueDigit(x, y, t, i) + 1
    ensures |T1.p| >= 2
  {
    hide Pow, Eval;
    RoundSizes(x, y, t, i);
    RoundLeads(x, y, t, i);
    ghost var q, b, M := TrueDigit(x, y, t, i), Base(), Pow(Base(), i - 1);
    ghost var D := b * Shifted(y, t, i);
    ScaledDigit(b, Val(x), Shifted(y, t, i), q);
    DigitPassesTest(M, b * Val(x), U3(x, i), D, V2(y, t), q);
    var T2 := new Mpi();
    T2.p := [Below(x, i, 2), x[i - 1], x[i]];
    ValThree(T2.p);
    z := WrapAdd(z0, 1);
    var go := true;
    while go
      invariant T2.Value() == U3(x, i) && |T1.p| >= 2
      invariant go ==> q <= WrapSub(z, 1)
      invariant !go ==> q <= z && z * V2(y, t) <= U3(x, i)
      decreases go, WrapSub(z, 1)
    {
      z := WrapSub(z, 1);
      Lset(T1, 0);
      T1.p := T1.p[0 := Below(y, t, 1)];
      T1.p := T1.p[1 := y[t]];
      ValTwo(T1.p);
      MulInt(T1, T1, z);
      MulComm(V2(y, t), z);
      var cmp := CmpMpi(T1, T2);
      go := cmp > 0;
      if go { StillBelow(q, z, V2(y, t), U3(x, i)); }
    }
    AtMostOneTooLarge(b, M, b * Val(x), U3(x, i), D, V2(y, t), q, z);
  }

  lemma StillBelow(q: int, z: int, v2: int, u3: int)
    requires v2 > 0 && q * v2 <= u3 < z * v2
    ensures q < z
  {
    MulComm(q, v2);
    MulComm(z, v2);
    MulCancelLt(v2, q, z);
  }

  lemma ScaledDigit(b: int, v: int, D: int, q: int)
    requires b > 0 && q * D <= v < (q + 1) * D
    ensures q * (b * D) <= b * v < (q + 1) * (b * D)
  {
    MulMono(b, q * D, v);
    MulStrict(b, v, (q + 1) * D);
    assert b * (q * D) == q * (b * D) by { MulAssoc(b, q, D); MulComm(b, q); MulAssoc(q, b, D); }
    assert b * ((q + 1) * D) == (q + 1) * (b * D) by {
      MulAssoc(b, q + 1, D);
      MulComm(b, q + 1);
      MulAssoc(q + 1, b, D);
    }
  }

  lemma ValTwo(p: seq<Limb>)
    requires |p| >= 2 && forall k :: 2 <= k < |p| ==> p[k] == 0
    ensures Val(p) == p[1] * Base() + p[0]
  {
    var b := Base();
    EvalSig(b, p, Max(2, SigLen(p)));
    assert Max(2, SigLen(p)) == 2;
    EvalStep(b, p, 1);
    EvalStep(b, p, 0);
    assert p[..0] == [];
    assert Pow(b, 0) == 1 && Pow(b, 1) == b * Pow(b, 0) == b;
  }

  lemma ValThree(p: seq<Limb>)
    requires |p| == 3
    ensures Val(p) == (p[2] * Base() + p[1]) * Base() + p[0]
  {
    EvalCons(Base(), p);
    ValTwo(p[1..]);
    MulComm(Base(), p[2] * Base() + p[1]);
  }

  // ------------------------------------------------------- the division

  /** After a left shift the top limb is nonzero when it was before. */
  lemma ShiftedTop(p: seq<Limb>, p': seq<Limb>, k: nat)
    requires SigLen(p) == |p| > 0 && k < BIL
    requires Val(p') == Val(p) * Pow(2, k)
    requires |p'| == (if |p| * BIL < BitLen(Val(p)) + k
                      then BitsToLimbs(BitLen(Val(p)) + k) else |p|)
    ensures SigLen(p') == |p'| && |p| <= |p'| <= |p| + 1
  {
    hide Pow, Eval;
    var v, n := Val(p), BitLen(Val(p));
    ZeroSig(p);
    BitLenBounds(v);
    PowPos(2, k);
    BitLenScaled(Val(p'), 0, v, k);
    BitLenVsLimbs(p, n);
    BitLenVsLimbs(p', n + k);
    var m := |p|;
    MulDist(BIL, m, 1);
    MulComm(BIL, m);
    LimbCount(n + k, if m * BIL < n + k then m + 1 else m);
  }

  /** Significant limbs and bit length tell the same story. */
  lemma BitLenVsLimbs(p: seq<Limb>, n: nat)
    requires n == BitLen(Val(p)) > 0
    ensures SigLen(p) == BitsToLimbs(n) && SigLen(p) > 0
    ensures BIL * (SigLen(p) - 1) < n <= BIL * SigLen(p)
  {
    hide Pow, Eval;
    var m := SigLen(p);
    SigBounds(Base(), p);
    BasePow(m);
    BasePow(m - 1);
    BitLenLe(Val(p), BIL * m);
    BitLenBounds(Val(p));
    if n <= BIL * (m - 1) { PowMono(2, n, BIL * (m - 1)); }
    LimbCount(n, m);
  }

  lemma LimbCount(n: nat, m: nat)
    requires BIL * (m - 1) < n <= BIL * m
    ensures BitsToLimbs(n) == m
  {
    MulDist(BIL, m, 1);
    MulComm(BIL, m);
    MulComm(BIL, m - 1);
    if n == BIL * m {
      DivModUnique(n, BIL, m, 0);
    } else {
      DivModUnique(n, BIL, m - 1, n - BIL * (m - 1));
    }
  }

  /** T := |Y| * z * Base^k, a positive number. */
  method ScaledDivisor(T: Mpi, Y: Mpi, z: Limb, k: nat)
    requires T != Y && Y.s == 1
    modifies T
    ensures T.s == 1 && Val(T.p) == z * (Val(Y.p) * Pow(Base(), k)) && |T.p| >= |old(T.p)|
  {
    hide Pow, Eval;
    MulInt(T, Y, z);
    ShiftL(T, BIL * k);
    BasePow(k);
    var y, P := Val(Y.p), Pow(Base(), k);
    assert (y * z) * P == z * (y * P) by { MulComm(y, z); MulAssoc(z, y, P); }
  }

  /** One round: limb i of X is eliminated, the digit goes to Z. */
  method DivideRound(X: Mpi, Y: Mpi, Z: Mpi, T1: Mpi, t: nat, i: nat) returns (digit: Limb)
    requires X != Y && X != Z && X != T1 && Y != Z && Y != T1 && Z != T1
    requires Round(X.p, Y.p, t, i) && Y.s == 1 && X.Value() == Val(X.p)
    requires i - t - 1 < |Z.p| && |T1.p| >= 2
    modifies X, Z, T1
    ensures |T1.p| >= 2 && |X.p| >= |old(X.p)| && Z.s == old(Z.s)
    ensures X.Value() == Val(X.p) < Shifted(Y.p, t, i)
    ensures Z.p == old(Z.p)[i - t - 1 := digit]
    ensures Val(old(X.p)) == digit * Shifted(Y.p, t, i) + Val(X.p)
  {
    hide Pow, Eval;
    ghost var x, D, q := X.p, Shifted(Y.p, t, i), TrueDigit(X.p, Y.p, t, i);
    RoundSizes(X.p, Y.p, t, i);
    var z := EstimateDigit(X.p, Y.p, t, i);
    z := CorrectEstimate(X.p, Y.p, t, i, z, T1);
    ScaledDivisor(T1, Y, z, i - t - 1);
    SubMpi(X, X, T1);
    var cmp := CmpInt(X, 0);
    OneTooMany(Val(x), D, q, z);
    if cmp < 0 {
      AddBack(X, Y, T1, i - t - 1);
      z := z - 1;
    }
    Z.p := Z.p[i - t - 1 := z];
    return z;
  }

  /** What is left after subtracting an estimate that is exact or one too large. */
  lemma OneTooMany(x: int, D: int, q: int, z: int)
    requires q * D <= x < (q + 1) * D && q <= z <= q + 1 && q >= 0
    ensures x - z * D < 0 <==> z == q + 1
    ensures 0 <= x - q * D < D && (q + 1) * D == q * D + D
  {
    assert (q + 1) * D == q * D + D;
  }

  /** The single correction: one divisor is added back. */
  method AddBack(X: Mpi, Y: Mpi, T1: Mpi, k: nat)
    requires X != Y && X != T1 && Y != T1 && Y.s == 1 && |X.p| > 0
    requires -(Val(Y.p) * Pow(Base(), k)) <= X.Value()
    modifies X, T1
    ensures X.Value() == old(X.Value()) + Val(Y.p) * Pow(Base(), k) == Val(X.p)
    ensures |X.p| >= |old(X.p)| && (|T1.p| >= |old(T1.p)| || |Y.p| == 0)
  {
    hide Pow, Eval;
    Copy(T1, Y);
    ShiftL(T1, BIL * k);
    BasePow(k);
    AddMpi(X, X, T1);
  }

  /** Subtracts the divisor aligned with the top limb until it no longer goes. */
  method TopDigitBySubtraction(X: Mpi, Y: Mpi, Z: Mpi, k: nat) returns (digit: Limb)
    requires X != Y && X != Z && Y != Z
    requires Y.s == 1 && X.s == 1 && Val(X.p) < Base() * Val(Y.p)
    requires k < |Z.p| && Z.p[k] == 0
    modifies X, Z
    ensures X.Value() == Val(X.p) < Val(Y.p) && |X.p| >= |old(X.p)| && Z.s == old(Z.s)
    ensures Z.p == old(Z.p)[k := digit] && Val(old(X.p)) == digit * Val(Y.p) + Val(X.p)
  {
    hide Pow, Eval;
    ghost var x, y := Val(X.p), Val(Y.p);
    var cmp := CmpMpi(X, Y);
    var z: Limb := 0;
    assert Z.p == Z.p[k := 0];
    while cmp >= 0
      invariant X.Value() == Val(X.p) && cmp == Sgn(Val(X.p) - y)
      invariant |X.p| >= |old(X.p)| && Z.s == old(Z.s)
      invariant k < |old(Z.p)| && Z.p == old(Z.p)[k := z] && z * y + Val(X.p) == x
      decreases Val(X.p), cmp
    {
      assert (z + 1) * y == z * y + y;
      if z + 1 >= Base() { MulMono(y, Base(), z + 1); MulComm(y, Base()); MulComm(y, z + 1); }
      z := z + 1;
      Z.p := Z.p[k := WrapAdd(Z.p[k], 1)];
      SubMpi(X, X, Y);
      cmp := CmpMpi(X, Y);
    }
    return z;
  }

  /** The rounds from limb n down to limb t + 1. */
  method DivideRounds(X: Mpi, Y: Mpi, Z: Mpi, n: nat, t: nat)
    requires X != Y && X != Z && Y != Z
    requires t <= n < |X.p| && t < |Y.p| && SigLen(Y.p) == t + 1 && Y.s == 1
    requires X.Value() == Val(X.p) < Val(Y.p) * Pow(Base(), n - t)
    requires n - t < |Z.p| && forall j :: 0 <= j < n - t ==> Z.p[j] == 0
    modifies X, Z
    ensures X.Value() == Val(X.p) < Val(Y.p) && Z.s == old(Z.s) && |X.p| > n
    ensures Val(Z.p) * Val(Y.p) + Val(X.p) == Val(old(Z.p)) * Val(Y.p) + Val(old(X.p))
  {
    hide Pow, Eval;
    var T1 := new Mpi();
    Grow(T1, 2);
    ghost var total := Val(Z.p) * Val(Y.p) + Val(X.p);
    var i := n;
    while i > t
      invariant t <= i <= n < |X.p| && |T1.p| >= 2
      invariant X.Value() == Val(X.p) < Val(Y.p) * Pow(Base(), i - t)
      invariant n - t < |Z.p| && Z.s == old(Z.s)
      invariant forall j :: 0 <= j < i - t ==> Z.p[j] == 0
      invariant Val(Z.p) * Val(Y.p) + Val(X.p) == total
      decreases i
    {
      ghost var zp, v := Z.p, Val(X.p);
      var z := DivideRound(X, Y, Z, T1, t, i);
      ValUpdate(zp, i - t - 1, z);
      DigitMoves(Val(zp), z, Pow(Base(), i - t - 1), Val(Y.p));
      i := i - 1;
    }
    PowStep(Base(), 0);
  }

  lemma DigitMoves(v: int, z: int, W: int, y: int)
    ensures (v + z * W) * y == v * y + z * (y * W)
  {
    assert (v + z * W) * y == v * y + (z * W) * y;
    MulAssoc(z, W, y);
    MulComm(W, y);
  }

  /** The aligned divisor is at least one limb short of the dividend's length. */
  lemma AlignedDivisor(x: seq<Limb>, y: seq<Limb>, k: nat)
    requires SigLen(y) > 0 && |x| == SigLen(y) + k
    ensures Val(x) < Base() * (Val(y) * Pow(Base(), k))
  {
    hide Pow, Eval;
    var b, m := Base(), SigLen(y) - 1;
    SigBounds(b, y);
    PowPos(b, k);
    MulMono(Pow(b, k), Pow(b, m), Val(y));
    MulComm(Pow(b, k), Pow(b, m));
    MulComm(Pow(b, k), Val(y));
    PowAdd(b, m, k);
    PowStep(b, m + k);
    MulMono(b, Pow(b, m + k), Val(y) * Pow(b, k));
  }

  /** Divides the nonnegative X by the positive Y, already normalised. */
  method DivideNormalised(X: Mpi, Y: Mpi, Z: Mpi)
    requires X != Y && X != Z && Y != Z
    requires X.s == 1 && Y.s == 1 && |Y.p| > 0 && SigLen(Y.p) == |Y.p| <= |X.p|
    requires |X.p| - |Y.p| < |Z.p| && Val(Z.p) == 0 && forall j :: 0 <= j < |Z.p| ==> Z.p[j] == 0
    modifies X, Y, Z
    ensures X.Value() == Val(X.p) < Val(old(Y.p)) && Z.s == old(Z.s) && |X.p| > 0
    ensures Val(old(X.p)) == Val(Z.p) * Val(old(Y.p)) + Val(X.p)
  {
    hide Pow, Eval;
    var n, t := |X.p| - 1, |Y.p| - 1;
    ghost var x, y, zp := Val(X.p), Val(Y.p), Z.p;
    AlignedDivisor(X.p, Y.p, n - t);
    ShiftL(Y, BIL * (n - t));
    BasePow(n - t);
    ghost var W := Pow(Base(), n - t);
    var z := TopDigitBySubtraction(X, Y, Z, n - t);
    ValUpdate(zp, n - t, z);
    DigitMoves(0, z, W, y);
    ShiftR(Y, BIL * (n - t));
    PowPos(2, BIL * (n - t));
    DivModUnique(y * W, W, y, 0);
    SigOfValue(Y.p, old(Y.p));
    ghost var x1 := Val(X.p);
    DivideRounds(X, Y, Z, n, t);
  }

  /** Brings |B| to one bit short of a full top limb, and |A| along with it. */
  method Normalise(X: Mpi, Y: Mpi) returns (k: nat)
    requires X != Y && X.s == 1 && Y.s == 1
    requires |X.p| > 0 && SigLen(X.p) == |X.p| && |Y.p| > 0 && SigLen(Y.p) == |Y.p|
    requires Val(X.p) >= Val(Y.p)
    modifies X, Y
    ensures k < BIL && X.s == 1 && Y.s == 1
    ensures Val(X.p) == Val(old(X.p)) * Pow(2, k) && Val(Y.p) == Val(old(Y.p)) * Pow(2, k)
    ensures SigLen(Y.p) == |Y.p| > 0 && |Y.p| <= |X.p| <= |old(X.p)| + 1
    ensures BitLen(Val(Y.p)) % BIL == BIL - 1
  {
    hide Pow, Eval;
    var n := BitlenOf(Y);
    ghost var y := Val(Y.p);
    k := n % BIL;
    if k < BIL - 1 {
      k := BIL - 1 - k;
      ghost var x0, y0 := X.p, Y.p;
      ShiftL(X, k);
      ShiftL(Y, k);
      ShiftedTop(x0, X.p, k);
      ShiftedTop(y0, Y.p, k);
      PowPos(2, k);
      ZeroSig(y0);
      BitLenScaled(Val(Y.p), 0, y, k);
      OneShort(n, k);
      MulMono(Pow(2, k), y, Val(x0));
      MulComm(Pow(2, k), y);
      MulComm(Pow(2, k), Val(x0));
    } else {
      k := 0;
      PowStep(2, 0);
    }
    LargerIsLonger(X.p, Y.p);
  }

  lemma OneShort(n: nat, k: nat)
    requires n % BIL < BIL - 1 && k == BIL - 1 - n % BIL
    ensures (n + k) % BIL == BIL - 1
  {
    DivModProps(n, BIL);
    MulComm(BIL, n / BIL);
    DivModUnique(n + k, BIL, n / BIL, BIL - 1);
  }

  /** The scaled division gives back the division of the original magnitudes. */
  lemma Unscale(a: int, b: int, K: int, z: int, x: int)
    requires K > 0 && b > 0 && a >= 0 && a * K == z * (b * K) + x && 0 <= x < b * K
    ensures z == a / b && x / K == a % b
  {
    var r := a - z * b;
    assert x == r * K by {
      MulAssoc(z, b, K);
      assert (a - z * b) * K == a * K - (z * b) * K;
    }
    MulComm(r, K);
    MulComm(b, K);
    if r < 0 { MulMono(K, r, -1); }
    MulCancelLt(K, r, b);
    DivModUnique(a, b, z, r);
    DivModUnique(x, K, r, 0);
  }

  /** A trimmed, positive copy. */
  method MagnitudeOf(X: Mpi, A: Mpi)
    requires X != A && |X.p| == 0 && Val(A.p) > 0
    modifies X
    ensures X.s == 1 && Val(X.p) == Val(A.p) && SigLen(X.p) == |X.p| && 0 < |X.p| <= |A.p|
  {
    hide Pow, Eval;
    Copy(X, A);
    SigOfValue(X.p, A.p);
    ZeroSig(A.p);
    X.s := 1;
  }

  /** The long division proper, on magnitudes; the remainder is still scaled by 2^k. */
  method DivideMagnitudes(A: Mpi, B: Mpi) returns (X: Mpi, Z: Mpi, k: nat)
    requires Val(A.p) >= Val(B.p) > 0
    ensures fresh(X) && fresh(Z) && X != Z && Z.s == 1 && |X.p| > 0
    ensures Pow(2, k) > 0
    ensures Val(Z.p) == Val(A.p) / Val(B.p) && Val(X.p) / Pow(2, k) == Val(A.p) % Val(B.p)
  {
    hide Pow, Eval;
    X := new Mpi();
    var Y := new Mpi();
    Z := new Mpi();
    MagnitudeOf(X, A);
    MagnitudeOf(Y, B);
    Grow(Z, |A.p| + 2);
    Lset(Z, 0);
    k := Normalise(X, Y);
    DivideNormalised(X, Y, Z);
    PowPos(2, k);
    Unscale(Val(A.p), Val(B.p), Pow(2, k), Val(Z.p), Val(X.p));
  }

  /** Undoes the scaling and gives the remainder the sign of the dividend; zero is positive. */
  method StoreRemainder(R: Mpi, X: Mpi, k: nat, s: Sign)
    requires R != X
    modifies R, X
    ensures Pow(2, k) > 0 && Val(R.p) == Val(old(X.p)) / Pow(2, k)
    ensures s == 1 ==> R.s == 1
    ensures |old(X.p)| > 0 ==> |R.p| >= Max(1, |old(R.p)|)
    ensures R.Value() == if s == 1 then Val(R.p) else -Val(R.p)
  {
    ShiftR(X, k);
    X.s := s;
    Copy(R, X);
    var c := CmpInt(R, 0);
    if c == 0 { R.s := 1; }
  }

  /**
   * A = Q * B + R.  Either result may be omitted.  The quotient may only share its object
   * with an operand whose sign is no longer read after it is stored.
   */
  method DivMpi(Q: Mpi?, R: Mpi?, A: Mpi, B: Mpi) returns (ret: Status)
    requires Q != null ==> Q != R && (Q == A ==> R == null && A.s == 1) && (Q == B ==> B.s == 1)
    modifies if Q != null then {Q} else {}, if R != null then {R} else {}
    ensures ret == if old(B.Value()) == 0 then DivisionByZero else Ok
    ensures ret == Ok && Q != null ==> Q.Value() == Quot(old(A.Value()), old(B.Value()))
    ensures ret == Ok && R != null ==> R.Value() == Rem(old(A.Value()), old(B.Value()))
    ensures ret == Ok && R != null && old(A.s) == 1 ==> R.s == 1
    ensures ret == Ok && R != null && |old(A.p)| > 0 ==> |R.p| >= Max(1, |old(R.p)|)
    ensures ret != Ok && Q != null ==> Q.s == old(Q.s) && Q.p == old(Q.p)
    ensures ret != Ok && R != null ==> R.s == old(R.s) && R.p == old(R.p)
  {
    hide Pow, Eval;
    var zero := CmpInt(B, 0);
    if zero == 0 { return DivisionByZero; }
    ghost var a, b := A.Value(), B.Value();
    assert Val(A.p) == Abs(a) && Val(B.p) == Abs(b);
    var cmp := CmpAbs(A, B);
    if cmp < 0 {
      DivModUnique(Abs(a), Abs(b), 0, Abs(a));
      if Q != null { Lset(Q, 0); }
      if R != null { Copy(R, A); }
      return Ok;
    }
    var X, Z, k := DivideMagnitudes(A, B);
    var asign: int := A.s;
    if Q != null {
      StoreQuotient(Q, Z, A, B);
    }
    if R != null {
      StoreRemainder(R, X, k, asign);
    }
    return Ok;
  }

  /** Stores Z with the product of the operands' signs. */
  method StoreQuotient(Q: Mpi, Z: Mpi, A: Mpi, B: Mpi)
    requires Q != Z && Z != A && Z != B && (Q == A ==> A.s == 1) && (Q == B ==> B.s == 1)
    requires Z.s == 1 && A.Value() != 0 && B.Value() != 0
    modifies Q
    ensures Val(Q.p) == Val(Z.p)
    ensures Q.s == (if old(A.s) == old(B.s) then 1 else -1)
  {
    Copy(Q, Z);
    var s: int := A.s;
    Q.s := if s == B.s then 1 else -1;
  }

  method DivInt(Q: Mpi?, R: Mpi?, A: Mpi, b: Sint) returns (ret: Status)
    requires Q != null ==> Q != R && (Q == A ==> R == null && A.s == 1)
    modifies if Q != null then {Q} else {}, if R != null then {R} else {}
    ensures ret == if b == 0 then DivisionByZero else Ok
    ensures ret == Ok && Q != null ==> Q.Value() == Quot(old(A.Value()), b)
    ensures ret == Ok && R != null ==> R.Value() == Rem(old(A.Value()), b)
  {
    var B := new Mpi.OfInt(b);
    ret := DivMpi(Q, R, A, B);
  }

  /** The nonnegative remainder, for a positive modulus. */
  method ModMpi(R: Mpi, A: Mpi, B: Mpi) returns (ret: Status)
    requires R != B
    modifies R
    ensures ret == if B.Value() < 0 then NegativeValue else if B.Value() == 0 then DivisionByZero else Ok
    ensures ret == Ok ==> R.Value() == old(A.Value()) % B.Value()
    ensures ret == Ok ==> Val(R.p) == R.Value()
    ensures ret == Ok && old(A.s) == 1 ==> R.s == 1
    ensures ret == Ok && |old(A.p)| > 0 ==> |R.p| >= Max(1, |old(R.p)|)
  {
    var c := CmpInt(B, 0);
    if c < 0 { return NegativeValue; }
    ghost var a, b := A.Value(), B.Value();
    ret := DivMpi(null, R, A, B);
    if ret != Ok { return; }
    DivisionLaw(a, b);
    CongIntro(a, R.Value(), b, Quot(a, b));
    CongSym(a, R.Value(), b);
    ReduceByAddSub(R, B);
    CongMod(a, b);
    CongTrans(R.Value(), Rem(a, b), a, b);
    CongIsMod(a, R.Value(), b);
  }

  /** Brings R into [0, N) by adding and subtracting N. */
  method ReduceByAddSub(R: Mpi, N: Mpi)
    requires R != N && N.Value() > 0
    modifies R
    ensures 0 <= R.Value() < N.Value() && Cong(R.Value(), old(R.Value()), N.Value())
    ensures Val(R.p) == R.Value()
    ensures 0 <= old(R.Value()) < N.Value() ==> R.s == old(R.s)
    ensures |old(R.p)| > 0 ==> |R.p| >= |old(R.p)|
  {
    ghost var a, n, k := R.Value(), N.Value(), 0;
    var c := CmpInt(R, 0);
    while c < 0
      invariant c == Sgn(R.Value()) && a == k * n + R.Value()
      invariant a >= 0 ==> R.s == old(R.s) && R.Value() == a
      invariant |old(R.p)| > 0 ==> |R.p| >= |old(R.p)|
      decreases n - R.Value()
    {
      assert (k - 1) * n == k * n - n;
      k := k - 1;
      AddMpi(R, R, N);
      c := CmpInt(R, 0);
    }
    c := CmpMpi(R, N);
    while c >= 0
      invariant c == Sgn(R.Value() - n) && 0 <= R.Value() && a == k * n + R.Value()
      invariant 0 <= a < n ==> R.s == old(R.s) && R.Value() == a
      invariant |old(R.p)| > 0 ==> |R.p| >= |old(R.p)|
      decreases R.Value()
    {
      assert (k + 1) * n == k * n + n;
      k := k + 1;
      SubMpi(R, R, N);
      c := CmpMpi(R, N);
    }
    CongIntro(a, R.Value(), n, k);
    CongSym(a, R.Value(), n);
  }
}
