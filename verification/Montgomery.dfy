/** Montgomery arithmetic (algorithm 14.36 of the Handbook of Applied Cryptography). */
module Montgomery {
  import opened Numbers
  import opened Digits
  import opened Mpis
  import opened MpiAdd
  import opened MpiMul
  import opened MpiShift
  import opened IntDiv

  // ------------------------------------------------ inverse of one limb

  /** The starting value is inverse to m modulo 16, for every odd m. */
  lemma FirstInverse(m: int)
    requires m >= 0 && m % 2 == 1
    ensures Cong(m * (m + 8 * ((m + 2) / 4 % 2)), 1, 16)
  {
    var k, r := m / 8, m % 8;
    var c := (m + 2) / 4 % 2;
    var q := if r == 1 then 0 else if r == 3 then 2 else if r == 5 then 4 else 3;
    assert r == 1 || r == 3 || r == 5 || r == 7;
    assert c == if r == 3 || r == 5 then 1 else 0;
    ResidueSquare(k, r, c);
    CongIntro(m * (m + 8 * c), 1, 16, 4 * (k * k) + k * r + 4 * (k * c) + q);
  }

  lemma ResidueSquare(k: int, r: int, c: int)
    ensures (8 * k + r) * (8 * k + r + 8 * c) == 16 * (4 * (k * k) + k * r + 4 * (k * c)) + r * (r + 8 * c)
  {
    var a := 8 * k;
    MulDist(a + r, a + r, 8 * c);
    assert (a + r) * (a + r) == a * a + 2 * (a * r) + r * r;
    assert a * a == 64 * (k * k) && a * r == 8 * (k * r);
    assert (a + r) * (8 * c) == 64 * (k * c) + 8 * (r * c);
    assert r * (r + 8 * c) == r * r + 8 * (r * c);
  }

  /** One Newton step squares the error, so it doubles the number of correct bits. */
  lemma NewtonStep(m: int, x: int, n: int)
    requires Cong(m * x, 1, n)
    ensures Cong(m * (x * (2 - m * x)), 1, n * n)
  {
    var k := CongElim(m * x, 1, n);
    var e := m * x - 1;
    assert m * (x * (2 - m * x)) == (m * x) * (2 - m * x) by { MulAssoc(m, x, 2 - m * x); }
    assert (1 + e) * (1 - e) == 1 - e * e;
    assert e * e == (k * k) * (n * n) by {
      MulAssoc(k * n, k, n);
      assert (k * n) * (k * n) == (k * k) * (n * n);
    }
    assert (-(k * k)) * (n * n) == -((k * k) * (n * n));
    CongIntro(m * (x * (2 - m * x)), 1, n * n, -(k * k));
  }

  /** Congruence modulo a multiple is congruence modulo a divisor. */
  lemma CongDivisor(x: int, y: int, n: int, m: int)
    requires Cong(x, y, n * m)
    ensures Cong(x, y, n)
  {
    var k := CongElim(x, y, n * m);
    MulAssoc(k, m, n);
    MulComm(n, m);
    CongIntro(x, y, n, k * m);
  }

  /** Number of correct bits after the remaining steps. */
  lemma WrapKeeps(m: int, x: int, bits: nat, e: int)
    requires bits <= BIL && Cong(m * e, 1, Pow(2, bits)) && Cong(x, e, Base())
    ensures Cong(m * x, 1, Pow(2, bits))
  {
    hide Pow;
    BaseSplit(bits);
    CongDivisor(x, e, Pow(2, bits), Pow(2, BIL - bits));
    CongScale(x, e, m, Pow(2, bits));
    CongTrans(m * x, m * e, 1, Pow(2, bits));
  }

  lemma BaseMod8()
    ensures Base() % 8 == 0
  {
    PowStep(2, BIL - 1);
    PowStep(2, BIL - 2);
    PowStep(2, BIL - 3);
  }

  /** Bit 2 of m0 + 2 survives the wrap-around. */
  lemma WrapBit2(m0: Limb)
    requires m0 % 2 == 1
    ensures Wrap(m0 + 2) / 4 % 2 == (m0 + 2) / 4 % 2
  {
    hide Pow;
    BaseMod8();
    if m0 + 2 < Base() {
      CongRefl(m0 + 2, Base());
      WrapExact(m0 + 2, m0 + 2);
    } else {
      CongIntro(m0 + 2, m0 + 2 - Base(), Base(), 1);
      WrapExact(m0 + 2, m0 + 2 - Base());
    }
  }

  /** The limb computation of a Newton step agrees with the integer one modulo the base. */
  lemma NewtonWraps(m: int, x: int)
    ensures Cong(Wrap(x * Wrap(2 - Wrap(m * x))), x * (2 - m * x), Base())
  {
    hide Pow;
    var B := Base();
    CongRefl(2, B);
    CongAdd(2, 2, Wrap(m * x), m * x, B);
    CongTrans(Wrap(2 - Wrap(m * x)), 2 - Wrap(m * x), 2 - m * x, B);
    CongScale(Wrap(2 - Wrap(m * x)), 2 - m * x, x, B);
    CongTrans(Wrap(x * Wrap(2 - Wrap(m * x))), x * Wrap(2 - Wrap(m * x)), x * (2 - m * x), B);
  }

  /** The complement of an inverse is an inverse of -1. */
  lemma NegatedInverse(m: int, x: int, mm: int, n: int)
    requires Cong(m * x, 1, n) && Cong(mm, n - x, n)
    ensures Cong(mm * m, -1, n)
  {
    CongIntro(n - x, -x, n, 1);
    CongTrans(mm, n - x, -x, n);
    CongScale(mm, -x, m, n);
    CongScale(m * x, 1, -1, n);
    assert (-x) * m == (-1) * (m * x);
    CongTrans(mm * m, (-x) * m, -1, n);
  }

  /** Computes mm with mm * N == -1 modulo the base, by Newton iteration. */
  method MontgInit(N: Mpi) returns (mm: Limb)
    requires |N.p| > 0 && N.p[0] % 2 == 1
    ensures Cong(mm * N.p[0], -1, Base())
  {
    hide Pow;
    var m0 := N.p[0];
    var x := Wrap(m0 + (Wrap(m0 + 2) / 4 % 2 * 4) * 2);
    WrapBit2(m0);
    FirstInverse(m0);
    assert Pow(2, 4) == 16 by { PowStep(2, 0); PowStep(2, 1); PowStep(2, 2); PowStep(2, 3); }
    WrapKeeps(m0, x, 4, m0 + 8 * ((m0 + 2) / 4 % 2));
    var i := BIL;
    ghost var bits := 4;
    while i >= 8
      invariant BIL == 32 || BIL == 64
      invariant (bits == 4 && i == BIL) || (bits == 8 && i == BIL / 2) || (bits == 16 && i == BIL / 4)
             || (bits == 32 && i == BIL / 8) || (bits == 64 && i == BIL / 16 && BIL == 64)
      invariant Cong(m0 * x, 1, Pow(2, bits))
    {
      ghost var y := x * (2 - m0 * x);
      NewtonStep(m0, x, Pow(2, bits));
      PowAdd(2, bits, bits);
      NewtonWraps(m0, x);
      x := Wrap(x * Wrap(2 - Wrap(m0 * x)));
      WrapKeeps(m0, x, 2 * bits, y);
      i := i / 2;
      bits := 2 * bits;
    }
    mm := Wrap((Base() - 1 - x) + 1);
    NegatedInverse(m0, x, mm, Base());
  }

  // ------------------------------------------------ one reduction step

  /** The multiple of N that clears the lowest limb. */
  lemma ClearsLowLimb(d0: int, u0: int, b0: int, n0: int, mm: int, u1: int)
    requires Cong(mm * n0, -1, Base())
    requires Cong(u1, (d0 + u0 * b0) * mm, Base())
    ensures Cong(d0 + u0 * b0 + u1 * n0, 0, Base())
  {
    var B, w := Base(), d0 + u0 * b0;
    CongScale(u1, w * mm, n0, B);
    CongScale(mm * n0, -1, w, B);
    MulAssoc(w, mm, n0);
    assert w * (-1) == -w;
    CongTrans(u1 * n0, (w * mm) * n0, -w, B);
    CongRefl(w, B);
    CongAdd(w, w, u1 * n0, -w, B);
  }

  /** The running value stays below B + N. */
  lemma StaysBelow(D: int, u0: int, b: int, u1: int, n: int, B: int, D': int)
    requires 0 <= D < b + n && 0 <= u0 < B && 0 <= u1 < B && b >= 0 && n > 0 && B > 0
    requires B * D' == D + u0 * b + u1 * n
    ensures D' < b + n && D + u0 * b + u1 * n < B * (b + n)
  {
    MulMono(b, u0, B - 1);
    MulMono(n, u1, B - 1);
    MulDist(b, B, 1);
    MulDist(n, B, 1);
    MulComm(u0, b);
    MulComm(u1, n);
    MulDist(B, b, n);
    MulComm(B, b);
    MulComm(B, n);
    MulCancelLt(B, D', b + n);
  }

  /** After i + 1 steps the accumulated congruence gains one limb of A. */
  lemma StepCongruence(D: int, D': int, a: int, u0: int, b: int, u1: int, n: int, B: int, P: int, k: int)
    requires B * D' == D + u0 * b + u1 * n
    requires D * P == a * b + k * n
    ensures D' * (B * P) == (a + u0 * P) * b + (k + u1 * P) * n
  {
    assert D' * (B * P) == (B * D') * P by { MulAssoc(D', B, P); MulComm(D', B); }
    assert (D + u0 * b + u1 * n) * P == D * P + (u0 * b) * P + (u1 * n) * P by {
      MulComm(D + u0 * b + u1 * n, P);
      MulDist(P, D + u0 * b, u1 * n);
      MulDist(P, D, u0 * b);
      MulComm(P, D);
      MulComm(P, u0 * b);
      MulComm(P, u1 * n);
    }
    assert (u0 * b) * P == (u0 * P) * b by { MulAssoc(u0, b, P); MulComm(b, P); MulAssoc(u0, P, b); }
    assert (u1 * n) * P == (u1 * P) * n by { MulAssoc(u1, n, P); MulComm(n, P); MulAssoc(u1, P, n); }
    assert (a + u0 * P) * b == a * b + (u0 * P) * b by {
      MulComm(a + u0 * P, b); MulDist(b, a, u0 * P); MulComm(b, a); MulComm(b, u0 * P);
    }
    assert (k + u1 * P) * n == k * n + (u1 * P) * n by {
      MulComm(k + u1 * P, n); MulDist(n, k, u1 * P); MulComm(n, k); MulComm(n, u1 * P);
    }
  }

  /** The lowest limb is the value modulo the base. */
  lemma LowLimb(p: seq<Limb>)
    requires |p| > 0
    ensures Val(p) == p[0] + Base() * Val(p[1..]) && Cong(Val(p), p[0], Base())
  {
    hide Pow, Eval;
    EvalCons(Base(), p);
    MulComm(Base(), Val(p[1..]));
    CongIntro(Val(p), p[0], Base(), Val(p[1..]));
  }

  /** Limbs of a value below b^n above limb n are zero. */
  lemma HighLimbsZero(p: seq<Limb>, n: nat)
    requires Val(p) < Pow(Base(), n)
    ensures SigLen(p) <= n && (n <= |p| ==> Val(p[..n]) == Val(p))
  {
    hide Pow, Eval;
    SigLenLe(Base(), p, n);
    if n <= |p| { EvalSig(Base(), p, n); }
  }

  /** Twice an n-limb value fits in n + 1 limbs. */
  lemma TwiceFits(n: nat)
    ensures 2 * Pow(Base(), n) <= Pow(Base(), n + 1) && Base() * Pow(Base(), n + 1) == Pow(Base(), n + 2)
    ensures Pow(Base(), n) >= 1
  {
    hide Pow;
    PowPos(Base(), n);
    PowStep(Base(), n);
    PowStep(Base(), n + 1);
    MulMono(Pow(Base(), n), 2, Base());
    MulComm(Pow(Base(), n), Base());
  }

  /** d + u0 * B + u1 * N with u1 chosen to make it a multiple of the base. */
  method MontAccumulate(d0: seq<Limb>, u0: Limb, b: seq<Limb>, m: nat, N: seq<Limb>, mm: Limb)
    returns (d: seq<Limb>, u1: Limb)
    requires 0 < |b| && m <= |b| && 0 < m <= |N| && Val(N) > 0 && Val(b[..m]) == Val(b) <= Val(N)
    requires Cong(mm * N[0], -1, Base())
    requires |d0| >= |N| + 3 && Val(d0) < Val(b) + Val(N)
    ensures |d| == |d0|
    ensures Val(d) == Val(d0) + u0 * Val(b) + u1 * Val(N)
    ensures Cong(Val(d), 0, Base())
  {
    hide Pow, Eval;
    var n := |N|;
    u1 := Wrap(Wrap(d0[0] + Wrap(u0 * b[0])) * mm);
    StepWraps(d0[0], u0, b[0], mm);
    StepFits(d0, u0, Val(b), u1, N);
    LowLimbClears(d0, u0, b, u1, N, mm);
    PowStep(Base(), 0);
    assert N[..n] == N;
    d := MulHlp(m, b, d0, 0, u0);
    d := MulHlp(n, N, d, 0, u1);
  }

  /** d := (d + u0 * B + u1 * N) / base, one limb shorter. */
  method MontStep(d0: seq<Limb>, u0: Limb, b: seq<Limb>, m: nat, N: seq<Limb>, mm: Limb)
    returns (d: seq<Limb>, ghost u1: Limb)
    requires 0 < |b| && m <= |b| && 0 < m <= |N| && Val(N) > 0 && Val(b[..m]) == Val(b) <= Val(N)
    requires Cong(mm * N[0], -1, Base())
    requires |d0| >= |N| + 3 && Val(d0) < Val(b) + Val(N)
    ensures |d| == |d0| - 1
    ensures Base() * Val(d) == Val(d0) + u0 * Val(b) + u1 * Val(N)
    ensures Val(d) < Val(b) + Val(N)
  {
    hide Pow, Eval, Cong;
    var n := |N|;
    var w;
    d, w := MontAccumulate(d0, u0, b, m, N, mm);
    u1 := w;
    ClearLowLimb(d);
    d := d[1..];
    StaysBelow(Val(d0), u0, Val(b), w, Val(N), Base(), Val(d));
    TwiceFits(n);
    HighLimbsZero(d, n + 1);
    assert d[n + 1 := 0] == d;
    d := d[n + 1 := 0];
  }

  /** A multiple of the base has a zero low limb, so dropping it divides exactly. */
  lemma ClearLowLimb(d: seq<Limb>)
    requires |d| > 0 && Cong(Val(d), 0, Base())
    ensures Val(d) == Base() * Val(d[1..])
  {
    hide Pow, Eval;
    LowLimb(d);
    CongSym(Val(d), d[0], Base());
    CongTrans(d[0], Val(d), 0, Base());
    CongUnique(d[0], 0, Base());
  }

  lemma StepWraps(d0: int, u0: int, b0: int, mm: int)
    ensures Cong(Wrap(Wrap(d0 + Wrap(u0 * b0)) * mm), (d0 + u0 * b0) * mm, Base())
  {
    hide Pow;
    var B := Base();
    CongRefl(d0, B);
    CongAdd(d0, d0, Wrap(u0 * b0), u0 * b0, B);
    CongTrans(Wrap(d0 + Wrap(u0 * b0)), d0 + Wrap(u0 * b0), d0 + u0 * b0, B);
    CongScale(Wrap(d0 + Wrap(u0 * b0)), d0 + u0 * b0, mm, B);
    CongTrans(Wrap(Wrap(d0 + Wrap(u0 * b0)) * mm), Wrap(d0 + Wrap(u0 * b0)) * mm, (d0 + u0 * b0) * mm, B);
  }

  lemma StepFits(d: seq<Limb>, u0: Limb, b: int, u1: Limb, N: seq<Limb>)
    requires |d| >= |N| + 3 && 0 <= b <= Val(N) && Val(N) > 0 && Val(d) < b + Val(N)
    ensures 0 <= u0 * b && 0 <= u1 * Val(N)
    ensures Val(d) + u0 * b + u1 * Val(N) < Pow(Base(), |d|)
  {
    hide Pow, Eval;
    var B, n := Base(), |N|;
    MulNonneg(u0, b);
    MulNonneg(u1, Val(N));
    StepSum(Val(d), u0, b, u1, Val(N), B);
    TwiceFits(n);
    MulStrict(B, b + Val(N), Pow(B, n + 1));
    PowMono(B, n + 2, |d|);
  }

  lemma StepSum(D: int, u0: int, b: int, u1: int, n: int, B: int)
    requires 0 <= D < b + n && 0 <= u0 < B && 0 <= u1 < B && b >= 0 && n > 0
    ensures D + u0 * b + u1 * n < B * (b + n)
  {
    MulMono(b, u0, B - 1);
    MulMono(n, u1, B - 1);
    MulDist(b, B, 1);
    MulDist(n, B, 1);
    MulComm(u0, b);
    MulComm(u1, n);
    MulDist(B, b, n);
    MulComm(B, b);
    MulComm(B, n);
  }

  lemma LowLimbClears(d: seq<Limb>, u0: Limb, b: seq<Limb>, u1: Limb, N: seq<Limb>, mm: Limb)
    requires |d| > 0 && |b| > 0 && |N| > 0 && Cong(mm * N[0], -1, Base())
    requires Cong(u1, (d[0] + u0 * b[0]) * mm, Base())
    ensures Cong(Val(d) + u0 * Val(b) + u1 * Val(N), 0, Base())
  {
    hide Pow, Eval;
    var B := Base();
    LowLimb(d);
    LowLimb(b);
    LowLimb(N);
    CongScale(Val(b), b[0], u0, B);
    CongScale(Val(N), N[0], u1, B);
    CongAdd(Val(d), d[0], u0 * Val(b), u0 * b[0], B);
    CongAdd(Val(d) + u0 * Val(b), d[0] + u0 * b[0], u1 * Val(N), u1 * N[0], B);
    ClearsLowLimb(d[0], u0, b[0], N[0], mm, u1);
    CongTrans(Val(d) + u0 * Val(b) + u1 * Val(N), d[0] + u0 * b[0] + u1 * N[0], 0, B);
  }

  /** The n interleaved multiply-and-reduce steps. */
  method MontLoop(a: seq<Limb>, b: seq<Limb>, m: nat, N: seq<Limb>, mm: Limb, t: seq<Limb>)
    returns (used: seq<Limb>, d: seq<Limb>)
    requires 0 < |b| && m <= |b| && 0 < m <= |N| <= |a| && Val(N) > 0 && Val(b[..m]) == Val(b) <= Val(N)
    requires Cong(mm * N[0], -1, Base())
    requires |t| >= 2 * (|N| + 1) && Val(t) == 0
    ensures |used| == |N| && |used| + |d| == |t|
    ensures Val(d) < Val(b) + Val(N)
    ensures Cong(Val(d) * Pow(Base(), |N|), Val(a[..|N|]) * Val(b), Val(N))
  {
    hide Pow, Eval;
    var n := |N|;
    used, d := [], t;
    var i := 0;
    ghost var k := 0;
    assert a[..0] == [];
    ValEmpty();
    PowStep(Base(), 0);
    while i < n
      invariant 0 <= i <= n && |used| == i && |d| == |t| - i
      invariant Val(d) < Val(b) + Val(N)
      invariant Val(d) * Pow(Base(), i) == Val(a[..i]) * Val(b) + k * Val(N)
    {
      var u0 := a[i];
      ghost var D := Val(d);
      ghost var u1;
      d, u1 := MontStep(d, u0, b, m, N, mm);
      used := used + [u0];
      StepCongruence(D, Val(d), Val(a[..i]), u0, Val(b), u1, Val(N), Base(), Pow(Base(), i), k);
      EvalStep(Base(), a, i);
      PowStep(Base(), i);
      k := k + u1 * Pow(Base(), i);
      i := i + 1;
    }
    CongIntro(Val(d) * Pow(Base(), n), Val(a[..n]) * Val(b), Val(N), k);
  }

  /** dest := src when assign is 1, unchanged when it is 0. */
  method SafeCondAssign(n: nat, dest0: seq<Limb>, src: seq<Limb>, assign: int) returns (dest: seq<Limb>)
    requires n <= |dest0| && n <= |src| && (assign == 0 || assign == 1)
    ensures |dest| == |dest0| && dest[n..] == dest0[n..]
    ensures dest[..n] == if assign == 1 then src[..n] else dest0[..n]
  {
    dest := dest0;
    var i := 0;
    while i < n
      invariant 0 <= i <= n && |dest| == |dest0| && dest[i..] == dest0[i..]
      invariant forall k :: 0 <= k < i ==> dest[k] == if assign == 1 then src[k] else dest0[k]
    {
      assert dest[i] == dest0[i..][0];
      dest := dest[i := dest[i] * (1 - assign) + src[i] * assign];
      i := i + 1;
      assert dest[i..] == dest0[i..];
    }
  }

  /** The last step: subtract N exactly when the result is not yet reduced. */
  method FinalReduce(d0: seq<Limb>, N: seq<Limb>) returns (d: seq<Limb>, sel: int)
    requires |N| > 0 && |d0| >= |N| + 2 && Val(d0) < 2 * Val(N)
    ensures |d| == |d0| && (sel == 0 || sel == 1)
    ensures Val(if sel == 1 then d[..|N|] else d0[..|N|]) == if Val(d0) < Val(N) then Val(d0) else Val(d0) - Val(N)
  {
    hide Pow, Eval;
    var n := |N|;
    TwiceFits(n);
    HighLimbsZero(d0, n + 1);
    EvalStep(Base(), d0, n);
    SmallTop(Val(d0[..n]), d0[n], Pow(Base(), n), Val(d0));
    d := d0[n := WrapAdd(d0[n], 1)];
    var top := d[n];
    assert d[..n] == d0[..n];
    var c;
    d, c := SubHlp(n, d, N);
    assert N[..n] == N;
    assert top == d[n..][0];
    Selector(Val(d0[..n]), d0[n], Pow(Base(), n), Val(N), Val(d[..n]), c);
    d := d[n := WrapSub(d[n], c)];
    sel := d[n];
  }

  lemma SmallTop(low: int, top: int, W: int, v: int)
    requires v == low + top * W && 0 <= low && 0 <= top && W > 0 && v < 2 * W
    ensures top == 0 || top == 1
  {
    MulMono(W, if top > 1 then 2 else 0, top);
    MulComm(W, top);
  }

  /** The selector is 1 exactly when the value reached N. */
  lemma Selector(low: int, top: int, W: int, n: int, diff: int, c: int)
    requires 0 <= low < W && (top == 0 || top == 1) && 0 < n < W && low + top * W < 2 * n
    requires 0 <= diff < W && 0 <= c <= 1 && diff - c * W == low - n
    ensures top + 1 - c == if low + top * W < n then 0 else 1
    ensures low + top * W < n ==> low == low + top * W
    ensures low + top * W >= n ==> diff == low + top * W - n
  {
  }

  /**
   * A := A * B * R^-1 mod N with R = base^n, fully reduced, for any n-limb A and any B
   * not above N.
   * A and B may be the same object.
   */
  method MontMul(A: Mpi, B: Mpi, N: Mpi, mm: Limb, T: Mpi)
    requires A != N && A != T && B != T && N != T
    requires 0 < |N.p| <= |A.p| && 0 < |B.p| && |T.p| >= 2 * (|N.p| + 1)
    requires Cong(mm * N.p[0], -1, Base()) && Val(B.p) <= Val(N.p) && Val(N.p) > 0
    modifies A, T
    ensures A.s == old(A.s) && |A.p| == |old(A.p)| && |T.p| == |old(T.p)|
    ensures A.p[|N.p|..] == old(A.p)[|N.p|..]
    ensures Val(A.p[..|N.p|]) < Val(N.p)
    ensures Cong(Val(A.p[..|N.p|]) * Pow(Base(), |N.p|),
                 Val(old(A.p)[..|N.p|]) * Val(old(B.p)), Val(N.p))
  {
    hide Pow, Eval;
    var n := |N.p|;
    T.p := Zeros(|T.p|);
    ValZeros(|T.p|);
    var m := if |B.p| < n then |B.p| else n;
    assert B.p[..|B.p|] == B.p;
    HighLimbsZero(B.p, n);
    ghost var a, b := A.p, B.p;
    var used, d := MontLoop(A.p, B.p, m, N.p, mm, T.p);
    ghost var v := Val(d);
    A.p := d[..n] + A.p[n..];
    var d', sel := FinalReduce(d, N.p);
    T.p := used + d';
    assert A.p[..n] == d[..n];
    var r := SafeCondAssign(n, A.p, d', sel);
    assert A.p[n..] == a[n..];
    A.p := r;
    SubtractedOnce(v, Val(A.p[..n]), Val(N.p), Pow(Base(), n), Val(a[..n]) * Val(b));
  }

  lemma SubtractedOnce(v: int, r: int, n: int, R: int, target: int)
    requires Cong(v * R, target, n) && r == if v < n then v else v - n
    ensures Cong(r * R, target, n)
  {
    if v >= n {
      MulComm(v - n, R);
      MulDist(R, v, n);
      MulComm(R, v);
      assert (-R) * n == -(R * n);
      CongIntro(r * R, v * R, n, -R);
      CongTrans(r * R, v * R, target, n);
    }
  }

  /** Montgomery reduction, A := A * R^-1 mod N. */
  method MontRed(A: Mpi, N: Mpi, mm: Limb, T: Mpi)
    requires A != N && A != T && N != T
    requires 0 < |N.p| <= |A.p| && |T.p| >= 2 * (|N.p| + 1)
    requires Cong(mm * N.p[0], -1, Base()) && Val(N.p) > 0
    modifies A, T
    ensures A.s == old(A.s) && |A.p| == |old(A.p)| && |T.p| == |old(T.p)|
    ensures A.p[|N.p|..] == old(A.p)[|N.p|..]
    ensures Val(A.p[..|N.p|]) < Val(N.p)
    ensures Cong(Val(A.p[..|N.p|]) * Pow(Base(), |N.p|), Val(old(A.p)[..|N.p|]), Val(N.p))
  {
    var U := new Mpi.OfInt(1);
    MontMul(A, U, N, mm, T);
  }
}
