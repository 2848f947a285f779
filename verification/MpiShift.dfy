/** Bit lengths, trailing zeros and the two shifts. */
module MpiShift {
  import opened Numbers
  import opened Bits
  import opened Digits
  import opened Mpis

  /** Splitting the base at t bits. */
  lemma BaseSplit(t: nat)
    requires t <= BIL
    ensures Base() == Pow(2, t) * Pow(2, BIL - t)
  {
    PowAdd(2, t, BIL - t);
  }

  lemma BasePow(n: nat)
    ensures Pow(Base(), n) == Pow(2, BIL * n)
  {
    PowPow(2, BIL, n);
  }

  // ------------------------------------------------------- bit counts

  /** Leading zero bits of a limb. */
  method Clz(x: Limb) returns (j: nat)
    ensures j <= BIL && BitLen(x) == BIL - j
  {
    j := 0;
    assert Base() == Pow(2, BIL);
    while j < BIL && Bit(x, BIL - 1 - j) == 0
      invariant j <= BIL && x < Pow(2, BIL - j)
    {
      TopBit(x, BIL - 1 - j);
      j := j + 1;
    }
    if j < BIL { TopBit(x, BIL - 1 - j); }
    BitLenUnique(x, BIL - j);
  }

  /** Below 2^(k+1), bit k tells whether x reaches 2^k. */
  lemma TopBit(x: nat, k: nat)
    requires x < Pow(2, k + 1)
    ensures Bit(x, k) == 0 <==> x < Pow(2, k)
  {
    PowPos(2, k);
    assert Pow(2, k + 1) == 2 * Pow(2, k);
    if x < Pow(2, k) {
      DivModUnique(x, Pow(2, k), 0, x);
    } else {
      DivModUnique(x, Pow(2, k), 1, x - Pow(2, k));
    }
  }

  lemma TopSplit(p: seq<Limb>, i: nat)
    requires i < |p| && SigLen(p) == i + 1
    ensures Val(p) == Val(p[..i]) + p[i] * Pow(2, BIL * i) && Val(p[..i]) < Pow(2, BIL * i)
  {
    hide Pow, Eval;
    EvalSig(Base(), p, i + 1);
    EvalStep(Base(), p, i);
    BasePow(i);
  }

  /** Bit length from the top limb. */
  lemma BitLenTop(p: seq<Limb>, i: nat)
    requires i < |p| && SigLen(p) == i + 1
    ensures BitLen(Val(p)) == BIL * i + BitLen(p[i])
  {
    hide Pow, Eval;
    var low, d := Val(p[..i]), p[i];
    TopSplit(p, i);
    BitLenScaled(low + d * Pow(2, BIL * i), low, d, BIL * i);
  }

  method BitlenOf(X: Mpi) returns (n: nat)
    ensures n == BitLen(Val(X.p))
  {
    if |X.p| == 0 { return 0; }
    var i := |X.p| - 1;
    while i > 0 && X.p[i] == 0
      invariant 0 <= i < |X.p|
      invariant forall k :: i < k < |X.p| ==> X.p[k] == 0
    {
      i := i - 1;
    }
    var c := Clz(X.p[i]);
    var j := BIL - c;
    if X.p[i] == 0 {
      SigLenUnique(X.p, 0);
      ZeroSig(X.p);
      assert i * BIL == 0;
    } else {
      SigLenUnique(X.p, i + 1);
      BitLenTop(X.p, i);
    }
    return i * BIL + j;
  }

  method SizeOf(X: Mpi) returns (n: nat)
    ensures n == (BitLen(Val(X.p)) + 7) / 8
  {
    var b := BitlenOf(X);
    return (b + 7) / 8;
  }

  /** A nonzero limb at i above zero limbs fixes the power of two dividing the value. */
  lemma LsbValue(p: seq<Limb>, i: nat, j: nat, o: int) returns (m: int)
    requires i < |p| && j < BIL && o % 2 == 1
    requires forall k :: 0 <= k < i ==> p[k] == 0
    requires p[i] == Pow(2, j) * o
    ensures Val(p) == Pow(2, BIL * i + j) * m && m % 2 == 1
  {
    hide Pow, Eval;
    var P, K := Pow(2, j), Pow(2, BIL - j);
    var rest := Val(p[i + 1..]);
    LowZeros(p, i);
    BaseSplit(j);
    PowStep(2, BIL - j - 1);
    m := o + K * rest;
    assert K * rest == 2 * (Pow(2, BIL - j - 1) * rest) by { MulAssoc(2, Pow(2, BIL - j - 1), rest); }
    MulAssoc(P, K, rest);
    MulDist(P, o, K * rest);
    assert p[i] + Base() * rest == P * m;
    PowAdd(2, BIL * i, j);
    MulAssoc(Pow(2, BIL * i), P, m);
  }

  /** Zero limbs below limb i. */
  lemma LowZeros(p: seq<Limb>, i: nat)
    requires i < |p|
    requires forall k :: 0 <= k < i ==> p[k] == 0
    ensures Val(p) == Pow(2, BIL * i) * (p[i] + Base() * Val(p[i + 1..]))
  {
    hide Pow, Eval;
    assert p == p[..i] + p[i..];
    EvalShift(Base(), p[..i], p[i..]);
    EvalCons(Base(), p[i..]);
    assert p[i..][1..] == p[i + 1..];
    BasePow(i);
  }

  /** Lowest set bit of one limb, if it has any. */
  method LimbLsb(x: Limb) returns (j: nat, ghost o: int)
    ensures j <= BIL && (j == BIL <==> x == 0)
    ensures j < BIL ==> x == Pow(2, j) * o && o % 2 == 1
  {
    j, o := 0, x;
    while j < BIL
      invariant j <= BIL && o >= 0 && x == Pow(2, j) * o
    {
      PowPos(2, j);
      DivModUnique(x, Pow(2, j), o, 0);
      if Bit(x, j) != 0 {
        return;
      }
      MulAssoc(Pow(2, j), 2, o / 2);
      o := o / 2;
      j := j + 1;
    }
    MulMono(Base(), if o > 0 then 1 else 0, o);
  }

  /** Position of the lowest set bit; zero for a zero value. */
  method Lsb(X: Mpi) returns (count: nat, ghost m: int)
    ensures Val(X.p) == 0 ==> count == 0
    ensures Val(X.p) > 0 ==> Val(X.p) == Pow(2, count) * m && m % 2 == 1
  {
    count, m := 0, 0;
    var i := 0;
    while i < |X.p|
      invariant i <= |X.p| && count == BIL * i
      invariant forall k :: 0 <= k < i ==> X.p[k] == 0
    {
      var j, o := LimbLsb(X.p[i]);
      count := count + j;
      if j < BIL {
        m := LsbValue(X.p, i, j, o);
        PowPos(2, count);
        LsbNonzero(Val(X.p), Pow(2, count), m);
        return;
      }
      i := i + 1;
    }
    EvalZeros(Base(), X.p);
    return 0, 0;
  }

  lemma LsbNonzero(v: int, P: int, m: int)
    requires P > 0 && v == P * m && m % 2 == 1 && v >= 0
    ensures v > 0
  {
    if v == 0 { MulCancelEq(P, m, 0); }
  }

  // ------------------------------------------------------- shift left

  /** A limb shifted left by t bits: what stays and what leaves at the top. */
  lemma ShlParts(x: Limb, t: nat, r: int)
    requires t <= BIL && 0 <= r < Pow(2, t)
    ensures Pow(2, t) > 0 && Pow(2, BIL - t) > 0 && x * Pow(2, t) >= 0
    ensures 0 <= x / Pow(2, BIL - t) < Pow(2, t)
    ensures 0 <= Or(x * Pow(2, t) % Base(), r) < Base()
    ensures Or(x * Pow(2, t) % Base(), r) + x / Pow(2, BIL - t) * Base() == x * Pow(2, t) + r
  {
    hide Pow, Eval;
    PowPos(2, t);
    PowPos(2, BIL - t);
    BaseSplit(t);
    ShiftSplit(x, Pow(2, t), Pow(2, BIL - t));
    OrDisjoint(x % Pow(2, BIL - t), r, t);
  }

  /** Whole limbs: everything moves up by v, zeros come in below. */
  method ShlLimbs(p0: seq<Limb>, v: nat) returns (p: seq<Limb>)
    requires SigLen(p0) + v <= |p0| || SigLen(p0) == 0
    ensures |p| == |p0| && Val(p) == Val(p0) * Pow(Base(), v)
    ensures forall k :: 0 <= k < v && k < |p| ==> p[k] == 0
  {
    hide Pow, Eval;
    p := p0;
    var i := |p|;
    while i > v
      invariant 0 <= i <= |p| == |p0|
      invariant i < |p| ==> i >= v
      invariant forall k :: i <= k < |p| ==> p[k] == p0[k - v]
      invariant forall k :: 0 <= k < i ==> p[k] == p0[k]
    {
      p := p[i - 1 := p[i - v - 1]];
      i := i - 1;
    }
    ghost var top := i;
    while i > 0
      invariant 0 <= i <= top <= |p| == |p0| && top <= v
      invariant forall k :: v <= k < |p| ==> p[k] == p0[k - v]
      invariant forall k :: i <= k < top ==> p[k] == 0
    {
      p := p[i - 1 := 0];
      i := i - 1;
    }
    ShlLimbsValue(p0, p, v);
  }

  /** Zero limbs below the limbs of p0 that matter. */
  lemma ShiftedUp(z: seq<Limb>, p0: seq<Limb>)
    requires |z| <= |p0| && SigLen(p0) <= |p0| - |z|
    requires forall k :: 0 <= k < |z| ==> z[k] == 0
    ensures Val(z + p0[..|p0| - |z|]) == Val(p0) * Pow(Base(), |z|)
  {
    EvalShiftedUp(Base(), z, p0);
  }

  lemma ShlLimbsValue(p0: seq<Limb>, p: seq<Limb>, v: nat)
    requires SigLen(p0) + v <= |p0| || SigLen(p0) == 0
    requires |p| == |p0|
    requires forall k :: v <= k < |p| ==> p[k] == p0[k - v]
    requires forall k :: 0 <= k < v && k < |p| ==> p[k] == 0
    ensures Val(p) == Val(p0) * Pow(Base(), v)
  {
    hide Pow, Eval;
    if v <= |p0| {
      assert p == p[..v] + p0[..|p0| - v];
      ShiftedUp(p[..v], p0);
    } else {
      EvalZeros(Base(), p);
      ZeroSig(p0);
      MulComm(0, Pow(Base(), v));
    }
  }

  /** Fewer than a limb's worth of bits. */
  method ShlBits(p0: seq<Limb>, v: nat, t: nat) returns (p: seq<Limb>)
    requires 0 < t < BIL
    requires forall k :: 0 <= k < v && k < |p0| ==> p0[k] == 0
    requires Val(p0) * Pow(2, t) < Pow(Base(), |p0|)
    ensures |p| == |p0| && Val(p) == Val(p0) * Pow(2, t)
  {
    hide Pow, Eval;
    p := p0;
    PowPos(2, t);
    if |p0| <= v {
      EvalZeros(Base(), p0);
      return;
    }
    EvalZeros(Base(), p0[..v]);
    var r0: Limb := 0;
    var i := v;
    while i < |p|
      invariant v <= i <= |p| == |p0| && p[i..] == p0[i..]
      invariant 0 <= r0 < Pow(2, t)
      invariant Val(p[..i]) + r0 * Pow(Base(), i) == Val(p0[..i]) * Pow(2, t)
    {
      p, r0 := ShlBitsLimb(p, p0, i, t, r0);
      i := i + 1;
    }
    assert p[..i] == p && p0[..i] == p0;
    PowPos(Base(), |p0|);
    NothingLost(Val(p), r0, Pow(Base(), |p0|));
  }

  /** The loop body of the bit shift: limb i of p is shifted and takes in r0. */
  method ShlBitsLimb(p: seq<Limb>, ghost p0: seq<Limb>, i: nat, t: nat, r0: Limb)
    returns (p': seq<Limb>, r1: Limb)
    requires 0 < t < BIL && i < |p| == |p0| && p[i..] == p0[i..]
    requires 0 <= r0 < Pow(2, t)
    requires Val(p[..i]) + r0 * Pow(Base(), i) == Val(p0[..i]) * Pow(2, t)
    ensures |p'| == |p| && p'[i + 1..] == p0[i + 1..] && 0 <= r1 < Pow(2, t)
    ensures Val(p'[..i + 1]) + r1 * Pow(Base(), i + 1) == Val(p0[..i + 1]) * Pow(2, t)
  {
    hide Pow, Eval;
    var x := p[i];
    assert x == p[i..][0] == p0[i];
    ShlParts(x, t, r0);
    PowMono(2, t, BIL);
    r1 := x / Pow(2, BIL - t);
    var y := Or(x * Pow(2, t) % Base(), r0);
    EvalStep(Base(), p0, i);
    ShlStep(p, i, y, Val(p0[..i]), x, r0, r1, Pow(2, t));
    p' := p[i := y];
    assert p'[i + 1..] == p[i..][1..] == p0[i + 1..];
  }

  lemma NothingLost(v: int, r: int, W: int)
    requires v >= 0 && W > 0 && r >= 0 && v + r * W < W
    ensures r == 0
  {
    MulMono(W, if r > 0 then 1 else 0, r);
  }

  lemma ShlStep(p: seq<Limb>, i: nat, y: Limb, v: int, x: int, r0: int, r1: int, T: int)
    requires i < |p|
    requires y + r1 * Base() == x * T + r0
    requires Val(p[..i]) + r0 * Pow(Base(), i) == v * T
    ensures Val(p[i := y][..i + 1]) + r1 * Pow(Base(), i + 1) == (v + x * Pow(Base(), i)) * T
  {
    hide Pow, Eval;
    var W := Pow(Base(), i);
    EvalStep(Base(), p[i := y], i);
    assert p[i := y][..i] == p[..i];
    PowStep(Base(), i);
    MulAssoc(r1, Base(), W);
    assert (y + r1 * Base()) * W == y * W + (r1 * Base()) * W;
    assert (x * T + r0) * W == (x * T) * W + r0 * W;
    assert (x * T) * W == (x * W) * T by { MulAssoc(x, T, W); MulAssoc(x, W, T); }
    assert (v + x * W) * T == v * T + (x * W) * T;
  }

  function BitsToLimbs(i: nat): nat {
    i / BIL + if i % BIL != 0 then 1 else 0
  }

  lemma BitsToLimbsFit(i: nat, n: nat)
    requires n >= BitsToLimbs(i)
    ensures i <= BIL * n
  {
    DivModProps(i, BIL);
    MulMono(BIL, BitsToLimbs(i), n);
    MulDist(BIL, i / BIL, 1);
  }

  /** What fits in n limbs after a left shift of count bits. */
  lemma ShiftFits(v: nat, count: nat, n: nat)
    requires BitLen(v) + count <= BIL * n
    ensures v * Pow(2, count) < Pow(Base(), n)
  {
    BitLenBounds(v);
    PowShiftBound(2, v, BitLen(v), count, BIL * n);
    BasePow(n);
  }

  /** Left shift: |X| is multiplied by 2^count. */
  method ShiftL(X: Mpi, count: nat)
    modifies X
    ensures X.s == old(X.s)
    ensures Val(X.p) == Val(old(X.p)) * Pow(2, count)
    ensures |X.p| == (if |old(X.p)| * BIL < BitLen(Val(old(X.p))) + count
                      then BitsToLimbs(BitLen(Val(old(X.p))) + count) else |old(X.p)|)
    ensures |X.p| >= |old(X.p)|
  {
    hide Pow, Eval;
    var v0, t1 := count / BIL, count % BIL;
    var b := BitlenOf(X);
    var i := b + count;
    ghost var v := Val(X.p);
    if |X.p| * BIL < i {
      BitsToLimbsFit(i, BitsToLimbs(i));
      GrowsTo(|X.p|, i);
      Grow(X, BitsToLimbs(i));
    }
    ShiftFits(v, count, |X.p|);
    DivModProps(count, BIL);
    LimbRoom(X.p, v0, t1);
    ShiftParts(v, v0, t1);
    var p := X.p;
    if v0 > 0 { p := ShlLimbs(p, v0); }
    if t1 > 0 { p := ShlBits(p, v0, t1); }
    X.p := p;
  }

  /** A shift is a whole-limb shift followed by a shorter one. */
  lemma ShiftParts(v: int, v0: nat, t: nat)
    ensures v * Pow(2, BIL * v0 + t) == (v * Pow(Base(), v0)) * Pow(2, t)
    ensures Pow(Base(), 0) == 1 && Pow(2, 0) == 1
  {
    hide Pow, Eval;
    PowAdd(2, BIL * v0, t);
    BasePow(v0);
    MulAssoc(v, Pow(2, BIL * v0), Pow(2, t));
    PowStep(2, 0);
    PowStep(Base(), 0);
  }

  lemma GrowsTo(n: nat, i: nat)
    requires n * BIL < i
    ensures n < BitsToLimbs(i)
  {
    if BitsToLimbs(i) <= n {
      BitsToLimbsFit(i, n);
    }
  }

  /** A shift that fits leaves room for its whole limbs. */
  lemma LimbRoom(p: seq<Limb>, v: nat, t: nat)
    requires Val(p) * Pow(2, BIL * v + t) < Pow(Base(), |p|)
    ensures SigLen(p) + v <= |p| || SigLen(p) == 0
  {
    hide Pow, Eval;
    var n := SigLen(p);
    if n > 0 {
      SigBounds(Base(), p);
      BasePow(v);
      PowMono(2, BIL * v, BIL * v + t);
      PowPos(Base(), n - 1);
      MulMono(Val(p), Pow(Base(), v), Pow(2, BIL * v + t));
      PowPos(Base(), v);
      MulMono(Pow(Base(), v), Pow(Base(), n - 1), Val(p));
      PowAdd(Base(), n - 1, v);
      if n + v > |p| {
        PowMono(Base(), |p|, n - 1 + v);
      }
    }
  }

  // ------------------------------------------------------ shift right

  /** A limb shifted right by t bits, with the bits that leave at the bottom. */
  lemma ShrParts(x: Limb, t: nat, m0: int)
    requires t <= BIL && 0 <= m0 < Pow(2, t)
    ensures Pow(2, t) > 0 && 0 <= x % Pow(2, t) < Pow(2, t)
    ensures x * Pow(2, BIL - t) >= 0 && 0 <= m0 * Pow(2, BIL - t)
    ensures x * Pow(2, BIL - t) % Base() == x % Pow(2, t) * Pow(2, BIL - t)
    ensures 0 <= x / Pow(2, t)
    ensures Or(x / Pow(2, t), m0 * Pow(2, BIL - t)) == x / Pow(2, t) + m0 * Pow(2, BIL - t) < Base()
    ensures x + m0 * Base() == Pow(2, t) * (x / Pow(2, t) + m0 * Pow(2, BIL - t)) + x % Pow(2, t)
  {
    hide Pow, Eval;
    PowPos(2, t);
    PowPos(2, BIL - t);
    BaseSplit(t);
    MulComm(Pow(2, BIL - t), Pow(2, t));
    ShiftSplit(x, Pow(2, BIL - t), Pow(2, t));
    ShiftDown(x, m0, Pow(2, t), Pow(2, BIL - t));
    OrDisjoint(m0, x / Pow(2, t), BIL - t);
  }

  method ShrLimbs(p0: seq<Limb>, v: nat) returns (p: seq<Limb>)
    requires v <= |p0|
    ensures |p| == |p0| && Pow(Base(), v) > 0
    ensures Val(p) == Val(p0) / Pow(Base(), v)
  {
    p := p0;
    var i := 0;
    while i < |p| - v
      invariant 0 <= i <= |p| - v && |p| == |p0|
      invariant forall k :: 0 <= k < i ==> p[k] == p0[k + v]
      invariant forall k :: i <= k < |p| ==> p[k] == p0[k]
    {
      p := p[i := p[i + v]];
      i := i + 1;
    }
    while i < |p|
      invariant |p0| - v <= i <= |p| == |p0|
      invariant forall k :: 0 <= k < |p0| - v ==> p[k] == p0[k + v]
      invariant forall k :: |p0| - v <= k < i ==> p[k] == 0
    {
      p := p[i := 0];
      i := i + 1;
    }
    ShrLimbsValue(p0, p, v);
  }

  lemma ShrLimbsValue(p0: seq<Limb>, p: seq<Limb>, v: nat)
    requires v <= |p0| == |p|
    requires forall k :: 0 <= k < |p0| - v ==> p[k] == p0[k + v]
    requires forall k :: |p0| - v <= k < |p| ==> p[k] == 0
    ensures Pow(Base(), v) > 0 && Val(p) == Val(p0) / Pow(Base(), v)
  {
    hide Pow, Eval;
    var keep := p0[v..];
    assert p == keep + p[|p0| - v..];
    EvalPad(Base(), keep, p[|p0| - v..]);
    EvalSplit(Base(), p0, v);
    PowPos(Base(), v);
    MulComm(Pow(Base(), v), Val(keep));
    DivModUnique(Val(p0), Pow(Base(), v), Val(keep), Val(p0[..v]));
  }

  method ShrBits(p0: seq<Limb>, t: nat) returns (p: seq<Limb>)
    requires 0 < t < BIL
    ensures |p| == |p0| && Pow(2, t) > 0
    ensures Val(p) == Val(p0) / Pow(2, t)
  {
    hide Pow, Eval;
    p := p0;
    PowPos(2, t);
    PowPos(2, BIL - t);
    var r0: Limb := 0;
    ghost var m := 0;
    var i := |p|;
    assert p[i..] == [] && p0[i..] == [];
    ValEmpty();
    while i > 0
      invariant 0 <= i <= |p| == |p0| && p[..i] == p0[..i]
      invariant 0 <= m < Pow(2, t) && r0 == m * Pow(2, BIL - t)
      invariant Val(p0[i..]) == Pow(2, t) * Val(p[i..]) + m
    {
      var x := p[i - 1];
      assert x == p0[i - 1];
      ShrParts(x, t, m);
      var r1 := x * Pow(2, BIL - t) % Base();
      var y := Or(x / Pow(2, t), r0);
      ShrStep(p, p0, i - 1, y, x, m, x % Pow(2, t), Pow(2, t));
      p := p[i - 1 := y];
      m := x % Pow(2, t);
      r0 := r1;
      i := i - 1;
      assert p[..i] == p0[..i];
    }
    assert p[0..] == p && p0[0..] == p0;
    DivModUnique(Val(p0), Pow(2, t), Val(p), m);
  }

  lemma ShrStep(p: seq<Limb>, p0: seq<Limb>, i: nat, y: Limb, x: int, m: int, m': int, T: int)
    requires i < |p| == |p0| && x == p0[i]
    requires x + m * Base() == T * y + m'
    requires Val(p0[i + 1..]) == T * Val(p[i + 1..]) + m
    ensures Val(p0[i..]) == T * Val(p[i := y][i..]) + m'
  {
    hide Pow, Eval;
    EvalCons(Base(), p0[i..]);
    EvalCons(Base(), p[i := y][i..]);
    assert p0[i..][1..] == p0[i + 1..];
    assert p[i := y][i..][1..] == p[i + 1..];
    var B, N := Base(), Val(p[i + 1..]);
    assert B * (T * N + m) == T * (B * N) + m * B by {
      MulDist(B, T * N, m);
      MulAssoc(B, T, N);
      MulAssoc(T, B, N);
    }
    MulDist(T, y, B * N);
  }

  /** Right shift: |X| is divided by 2^count, rounding down. */
  method ShiftR(X: Mpi, count: nat)
    modifies X
    ensures Pow(2, count) > 0 && Val(X.p) == Val(old(X.p)) / Pow(2, count)
    ensures X.s == old(X.s) || Val(X.p) == 0
    ensures |X.p| == |old(X.p)| || (|old(X.p)| == 0 && |X.p| == 1)
  {
    hide Pow, Eval;
    var v0, v1 := count / BIL, count % BIL;
    ghost var v := Val(X.p);
    DivModProps(count, BIL);
    DivParts(v, v0, v1);
    if v0 > |X.p| || (v0 == |X.p| && v1 > 0) {
      AllShiftedOut(X.p, v0, v1);
      Lset(X, 0);
      return;
    }
    var p := X.p;
    if v0 > 0 { p := ShrLimbs(p, v0); }
    if v1 > 0 { p := ShrBits(p, v1); }
    X.p := p;
  }

  /** A right shift is a whole-limb shift followed by a shorter one. */
  lemma DivParts(v: nat, v0: nat, v1: nat)
    ensures Pow(2, BIL * v0 + v1) > 0 && Pow(Base(), v0) > 0 && Pow(2, v1) > 0
    ensures v / Pow(2, BIL * v0 + v1) == v / Pow(Base(), v0) / Pow(2, v1)
    ensures v / Pow(Base(), 0) == v && v / Pow(2, 0) == v
    ensures forall w: int :: w / Pow(2, 0) == w
  {
    hide Pow;
    PowPos(2, v1);
    PowPos(Base(), v0);
    BasePow(v0);
    PowAdd(2, BIL * v0, v1);
    DivDiv(v, Pow(Base(), v0), Pow(2, v1));
    PowStep(2, 0);
    PowStep(Base(), 0);
  }

  lemma AllShiftedOut(p: seq<Limb>, v0: nat, v1: nat)
    requires v0 >= |p|
    ensures Pow(Base(), v0) > 0 && Pow(2, v1) > 0
    ensures Val(p) / Pow(Base(), v0) / Pow(2, v1) == 0
  {
    hide Pow, Eval;
    PowMono(Base(), |p|, v0);
    PowPos(2, v1);
    DivModUnique(Val(p), Pow(Base(), v0), 0, Val(p));
    DivModUnique(0, Pow(2, v1), 0, 0);
  }

  /** Halving an even magnitude halves the signed value. */
  method HalveEven(X: Mpi)
    requires Val(X.p) % 2 == 0
    modifies X
    ensures 2 * X.Value() == old(X.Value())
    ensures |X.p| == |old(X.p)| || (|old(X.p)| == 0 && |X.p| == 1)
  {
    ShiftR(X, 1);
    assert Pow(2, 1) == 2 * Pow(2, 0) == 2;
  }
}
