/** Sliding-window exponentiation (algorithm 14.85 of the Handbook of Applied Cryptography). */
module ExpMod {
  import opened Numbers
  import opened Bits
  import opened Digits
  import opened Mpis
  import opened MpiAdd
  import opened MpiShift
  import opened Montgomery
  import MpiDiv

  /** The largest window the library is configured for. */
  type WindowSize = w: nat | 1 <= w <= 6 witness 6

  const WINDOW_SIZE: WindowSize

  // -------------------------------------------------- residues in R-form

  /** The Montgomery radix for a modulus of n limbs. */
  ghost function Radix(n: nat): int { Pow(Base(), n) }

  /** The buffer holds the reduced residue of v, with nothing above the modulus' limbs. */
  ghost predicate Holds(p: seq<Limb>, N: seq<Limb>, v: int) {
    && |N| <= |p|
    && (forall i :: |N| <= i < |p| ==> p[i] == 0)
    && Val(p[..|N|]) < Val(N)
    && Cong(Val(p[..|N|]), v, Val(N))
  }

  lemma HoldsValue(p: seq<Limb>, N: seq<Limb>, v: int)
    requires Holds(p, N, v)
    ensures Val(p) == Val(p[..|N|]) < Val(N) && Cong(Val(p), v, Val(N))
  {
    hide Pow, Eval, Cong;
    SigLenUpTo(p, |N|);
    EvalSig(Base(), p, |N|);
  }

  lemma SigLenUpTo(p: seq<Limb>, n: nat)
    requires n <= |p| && forall i :: n <= i < |p| ==> p[i] == 0
    ensures SigLen(p) <= n
  {
  }

  lemma ValueHolds(p: seq<Limb>, N: seq<Limb>, v: int)
    requires |N| <= |p| && Val(p) < Val(N) && Cong(Val(p), v, Val(N))
    ensures Holds(p, N, v)
  {
    hide Pow, Eval, Cong;
    HighLimbsZero(p, |N|);
  }

  /** The base is invertible modulo N: the Montgomery constant shows how. */
  lemma BaseInverse(N: seq<Limb>, mm: Limb) returns (j: int)
    requires |N| > 0 && Cong(mm * N[0], -1, Base())
    ensures Cong(Base() * j, 1, Val(N))
  {
    hide Pow, Eval;
    var B, n := Base(), Val(N);
    LowLimb(N);
    CongScale(n, N[0], mm, B);
    CongTrans(mm * n, mm * N[0], -1, B);
    j := CongElim(mm * n, -1, B);
    MulComm(j, B);
    CongIntro(B * j, 1, n, mm);
  }

  lemma {:induction false} RadixInverse(N: seq<Limb>, mm: Limb, k: nat) returns (j: int)
    requires |N| > 0 && Cong(mm * N[0], -1, Base())
    ensures Cong(Radix(k) * j, 1, Val(N))
  {
    hide Eval, Cong;
    var B, n := Base(), Val(N);
    if k == 0 {
      CongRefl(1, n);
      return 1;
    }
    var i := RadixInverse(N, mm, k - 1);
    var h := BaseInverse(N, mm);
    CongMul(B * h, 1, Pow(B, k - 1) * i, 1, n);
    j := h * i;
    RegroupInverse(B, Pow(B, k - 1), h, i);
  }

  lemma RegroupInverse(B: int, P: int, h: int, i: int)
    ensures (B * h) * (P * i) == (B * P) * (h * i)
  {
    MulAssoc(B, h, P * i);
    MulAssoc(h, P, i);
    MulComm(h, P);
    MulAssoc(P, h, i);
    MulAssoc(B, P, h * i);
  }

  /** The radix cancels from a congruence. */
  lemma CancelRadix(x: int, y: int, N: seq<Limb>, mm: Limb, k: nat)
    requires |N| > 0 && Cong(mm * N[0], -1, Base())
    requires Cong(x * Radix(k), y * Radix(k), Val(N))
    ensures Cong(x, y, Val(N))
  {
    hide Pow, Eval, Cong;
    var n, R := Val(N), Radix(k);
    var j := RadixInverse(N, mm, k);
    CongScale(x * R, y * R, j, n);
    MulAssoc(x, R, j);
    MulAssoc(y, R, j);
    CongScale(R * j, 1, x, n);
    CongScale(R * j, 1, y, n);
    CongSym(x * (R * j), x, n);
    CongTrans(x, x * (R * j), y * (R * j), n);
    CongTrans(x, y * (R * j), y, n);
  }

  /** A Montgomery product of x*R and y*R is x*y*R. */
  lemma ProductInRForm(r: int, xr: int, yr: int, x: int, y: int, N: seq<Limb>, mm: Limb)
    requires |N| > 0 && Cong(mm * N[0], -1, Base())
    requires Cong(r * Radix(|N|), xr * yr, Val(N))
    requires Cong(xr, x * Radix(|N|), Val(N)) && Cong(yr, y * Radix(|N|), Val(N))
    ensures Cong(r, (x * y) * Radix(|N|), Val(N))
  {
    hide Pow, Eval, Cong;
    var n, R := Val(N), Radix(|N|);
    CongMul(xr, x * R, yr, y * R, n);
    CongTrans(r * R, xr * yr, (x * R) * (y * R), n);
    RegroupRadix(x, y, R);
    CancelRadix(r, (x * y) * R, N, mm, |N|);
  }

  lemma RegroupRadix(x: int, y: int, R: int)
    ensures (x * R) * (y * R) == ((x * y) * R) * R
  {
    MulAssoc(x, R, y * R);
    MulAssoc(R, y, R);
    MulComm(R, y);
    MulAssoc(x, y * R, R);
    MulAssoc(x, y, R);
  }

  /** X := X * B in R-form; the two may be one object. */
  method MulInRForm(X: Mpi, B: Mpi, N: Mpi, mm: Limb, T: Mpi, ghost x: int, ghost y: int)
    requires X != N && X != T && B != T && N != T
    requires 0 < |N.p| && |T.p| >= 2 * (|N.p| + 1)
    requires Cong(mm * N.p[0], -1, Base())
    requires Holds(X.p, N.p, x * Radix(|N.p|)) && Holds(B.p, N.p, y * Radix(|N.p|))
    modifies X, T
    ensures Holds(X.p, N.p, (x * y) * Radix(|N.p|))
    ensures |X.p| == |old(X.p)| && X.s == old(X.s) && |T.p| == |old(T.p)|
  {
    hide Pow, Eval, Cong;
    ghost var xr, yr, old_p := Val(X.p[..|N.p|]), Val(B.p), X.p;
    HoldsValue(B.p, N.p, y * Radix(|N.p|));
    MontMul(X, B, N, mm, T);
    assert forall i :: |N.p| <= i < |X.p| ==> X.p[i] == X.p[|N.p|..][i - |N.p|] == old_p[i];
    ProductInRForm(Val(X.p[..|N.p|]), xr, yr, x, y, N.p, mm);
  }

  // ---------------------------------------------------- bits of the exponent

  /** The leading bits of e, all but the last r. */
  ghost function Prefix(e: nat, r: nat): (p: int)
    ensures p >= 0
  {
    PowPos(2, r);
    e / Pow(2, r)
  }

  lemma PrefixStep(e: nat, r: nat)
    ensures Prefix(e, r) == 2 * Prefix(e, r + 1) + Bit(e, r)
  {
    hide Pow;
    PowPos(2, r);
    PowStep(2, r);
    DivDiv(e, Pow(2, r), 2);
    MulComm(Pow(2, r), 2);
  }

  /** Bits below a limb's width do not see the limbs above it. */
  lemma LowBits(x: int, rest: int, j: nat)
    requires x >= 0 && rest >= 0 && j < BIL
    ensures x + Base() * rest >= 0 && Bit(x + Base() * rest, j) == Bit(x, j)
  {
    hide Pow;
    var P, h := Pow(2, j), Pow(2, BIL - j - 1) * rest;
    PowPos(2, j);
    PowPos(2, BIL - j - 1);
    MulNonneg(Pow(2, BIL - j - 1), rest);
    BaseSplit(j);
    PowStep(2, BIL - j - 1);
    assert Base() * rest == (2 * h) * P by {
      MulAssoc(P, 2 * Pow(2, BIL - j - 1), rest);
      MulAssoc(2, Pow(2, BIL - j - 1), rest);
      MulComm(P, 2 * h);
    }
    DivShifted(x, 2 * h, P);
  }

  lemma DivShifted(x: int, k: int, P: int)
    requires P > 0
    ensures (x + k * P) / P == x / P + k
  {
    DivModProps(x, P);
    var q := x / P;
    assert (q + k) * P == q * P + k * P by {
      MulComm(q + k, P); MulDist(P, q, k); MulComm(P, q); MulComm(P, k);
    }
    DivModUnique(x + k * P, P, q + k, x % P);
  }

  /** Dropping k whole limbs. */
  lemma DropLimbs(p: seq<Limb>, k: nat)
    requires k < |p|
    ensures Pow(2, BIL * k) > 0 && Val(p) / Pow(2, BIL * k) == p[k] + Base() * Val(p[k + 1..])
  {
    hide Pow, Eval;
    var W := Pow(2, BIL * k);
    EvalSplit(Base(), p, k);
    EvalCons(Base(), p[k..]);
    assert p[k..][1..] == p[k + 1..];
    BasePow(k);
    PowPos(2, BIL * k);
    MulComm(W, Val(p[k..]));
    DivModUnique(Val(p), W, Val(p[k..]), Val(p[..k]));
  }

  /** Bits of a number are bits of its limbs. */
  lemma BitOfLimb(p: seq<Limb>, k: nat, j: nat)
    requires k < |p| && j < BIL
    ensures Bit(Val(p), BIL * k + j) == Bit(p[k], j)
  {
    hide Pow, Eval;
    DropLimbs(p, k);
    PowAdd(2, BIL * k, j);
    PowPos(2, j);
    DivDiv(Val(p), Pow(2, BIL * k), Pow(2, j));
    LowBits(p[k], Val(p[k + 1..]), j);
  }

  // ------------------------------------------------------------- powers

  lemma SquarePower(a: int, k: nat)
    ensures Pow(a, k) * Pow(a, k) == Pow(a, 2 * k)
  {
    hide Pow;
    PowAdd(a, k, k);
  }

  /** Number of table slots. */
  function Slots(): (n: nat)
    ensures n == Pow(2, WINDOW_SIZE + 1)
  {
    PowPos(2, WINDOW_SIZE + 1);
    Pow(2, WINDOW_SIZE + 1)
  }

  function WindowFor(bits: nat): (w: nat)
    ensures 1 <= w <= WINDOW_SIZE
  {
    var w := if bits > 671 then 6 else if bits > 239 then 5 else if bits > 79 then 4
             else if bits > 23 then 3 else 1;
    if w > WINDOW_SIZE then WINDOW_SIZE else w
  }

  /** The table entries a window of w bits may ask for, each the matching power of a. */
  ghost predicate Table(W: seq<Mpi?>, N: seq<Limb>, w: nat, a: int)
    reads set i | 0 <= i < |W| && W[i] != null :: W[i]
  {
    && w >= 1 && |W| == Slots() && Pow(2, w) <= |W| && |W| > 1
    && W[1] != null && Holds(W[1].p, N, a * Radix(|N|))
    && forall i :: Pow(2, w - 1) <= i < Pow(2, w) && 0 <= i < |W| ==>
        W[i] != null && Holds(W[i].p, N, Pow(a, i) * Radix(|N|))
  }

  /** Squares X k times. */
  method SquareTimes(X: Mpi, k: nat, N: Mpi, mm: Limb, T: Mpi, ghost a: int, ghost e: nat)
    requires X != N && X != T && N != T
    requires 0 < |N.p| && |T.p| >= 2 * (|N.p| + 1) && Cong(mm * N.p[0], -1, Base())
    requires Holds(X.p, N.p, Pow(a, e) * Radix(|N.p|))
    modifies X, T
    ensures e * Pow(2, k) >= 0 && Holds(X.p, N.p, Pow(a, e * Pow(2, k)) * Radix(|N.p|))
    ensures |X.p| == |old(X.p)| && X.s == old(X.s) && |T.p| == |old(T.p)|
  {
    hide Pow, Holds, Cong, Radix;
    var i := 0;
    PowStep(2, 0);
    while i < k
      invariant 0 <= i <= k
      invariant e * Pow(2, i) >= 0 && Holds(X.p, N.p, Pow(a, e * Pow(2, i)) * Radix(|N.p|))
      invariant |X.p| == |old(X.p)| && X.s == old(X.s) && |T.p| == |old(T.p)|
    {
      ghost var f := e * Pow(2, i);
      MulInRForm(X, X, N, mm, T, Pow(a, f), Pow(a, f));
      SquarePower(a, f);
      PowStep(2, i);
      assert e * Pow(2, i + 1) == 2 * f by { MulAssoc(e, 2, Pow(2, i)); MulAssoc(2, e, Pow(2, i)); }
      i := i + 1;
    }
  }

  /** W[2^(w-1)] by squaring, then each entry from the one below it. */
  method BuildTable(W1: Mpi, N: Mpi, w: nat, mm: Limb, T: Mpi, ghost a: int) returns (W: seq<Mpi?>)
    requires W1 != N && W1 != T && N != T && 1 <= w <= WINDOW_SIZE
    requires 0 < |N.p| && |T.p| >= 2 * (|N.p| + 1) && Cong(mm * N.p[0], -1, Base())
    requires Holds(W1.p, N.p, a * Radix(|N.p|)) && |W1.p| > |N.p|
    modifies T
    ensures forall i :: 0 <= i < |W| && W[i] != null ==> W[i] == W1 || fresh(W[i])
    ensures Table(W, N.p, w, a)
    ensures |T.p| == |old(T.p)|
  {
    hide Pow, Holds, Cong, Radix, Eval;
    WindowPowers(w);
    W := seq(Slots(), i => null);
    W := W[1 := W1];
    PowStep(a, 0);
    assert Pow(a, 1) * Radix(|N.p|) == a * Radix(|N.p|);
    if w == 1 { return; }
    var j := Pow(2, w - 1);
    var Wj := new Mpi();
    CopyGrown(Wj, W1, N, a * Radix(|N.p|));
    SquareTimes(Wj, w - 1, N, mm, T, a, 1);
    W := W[j := Wj];
    var i := j + 1;
    while i < Pow(2, w)
      invariant j < i <= Pow(2, w) <= |W| == Slots()
      invariant W[1] == W1
      invariant forall k :: 0 <= k < |W| && W[k] != null ==> W[k] == W1 || fresh(W[k])
      invariant forall k :: j <= k < i ==>
        W[k] != null && W[k] != T && Holds(W[k].p, N.p, Pow(a, k) * Radix(|N.p|))
      invariant |T.p| == |old(T.p)|
    {
      var Wi := new Mpi();
      CopyGrown(Wi, W[i - 1], N, Pow(a, i - 1) * Radix(|N.p|));
      MulInRForm(Wi, W1, N, mm, T, Pow(a, i - 1), a);
      PowStep(a, i - 1);
      MulComm(Pow(a, i - 1), a);
      W := W[i := Wi];
      i := i + 1;
    }
  }

  lemma WindowPowers(w: nat)
    requires 1 <= w <= WINDOW_SIZE
    ensures 1 <= Pow(2, w - 1) < Pow(2, w) <= Slots() && Slots() >= 4
    ensures w == 1 ==> Pow(2, w - 1) == 1 && Pow(2, w) == 2
    ensures w > 1 ==> Pow(2, w - 1) > 1
  {
    PowStrict(2, w - 1, w);
    PowMono(2, w, WINDOW_SIZE + 1);
    PowMono(2, 2, WINDOW_SIZE + 1);
    PowStep(2, 0);
    if w > 1 { PowMono(2, 1, w - 1); }
  }

  /** grow to one limb above the modulus, then copy. */
  method CopyGrown(X: Mpi, Y: Mpi, N: Mpi, ghost v: int)
    requires X != Y && X != N && |X.p| == 0 && Holds(Y.p, N.p, v) && |N.p| > 0
    modifies X
    ensures Holds(X.p, N.p, v) && |X.p| == |N.p| + 1
  {
    hide Pow, Cong, Eval;
    Grow(X, |N.p| + 1);
    HoldsValue(Y.p, N.p, v);
    HighLimbsZero(Y.p, |N.p|);
    Copy(X, Y);
    ValueHolds(X.p, N.p, v);
  }

  // ------------------------------------------------- scanning the exponent

  /**
   * Where the scan stands with the last rem bits of e unread: done is the exponent X already
   * holds, win the nbits pending bits, kept left-aligned in wbits.
   */
  ghost predicate Scanned(e: nat, rem: nat, w: nat, state: nat, nbits: nat, wbits: int, done: nat, win: nat) {
    && nbits <= w && state <= 2
    && Prefix(e, rem) == done * Pow(2, nbits) + win
    && wbits == win * Pow(2, w - nbits)
    && win < Pow(2, nbits)
    && (state == 0 ==> done == 0)
    && (state <= 1 ==> nbits == 0)
    && (state == 2 ==> nbits >= 1 && Pow(2, nbits - 1) <= win)
  }

  lemma ScanStart(e: nat, rem: nat, w: nat)
    requires e < Pow(2, rem)
    ensures Scanned(e, rem, w, 0, 0, 0, 0, 0)
  {
    DivModUnique(e, Pow(2, rem), 0, e);
  }

  /** A zero bit outside a window. */
  lemma ScanZero(e: nat, rem: nat, w: nat, state: nat, wbits: int, done: nat, win: nat)
    requires Scanned(e, rem + 1, w, state, 0, wbits, done, win) && state <= 1 && Bit(e, rem) == 0
    ensures Scanned(e, rem, w, state, 0, wbits, 2 * done, 0) && win == 0 && wbits == 0
  {
    hide Prefix, Bit;
    PrefixStep(e, rem);
    PowStep(2, 0);
  }

  /** A bit that opens or extends a window. */
  lemma ScanBit(e: nat, rem: nat, w: nat, state: nat, nbits: nat, wbits: int, done: nat, win: nat, ei: int)
    requires Scanned(e, rem + 1, w, state, nbits, wbits, done, win) && nbits < w
    requires ei == Bit(e, rem) && (state == 2 || ei == 1)
    ensures wbits >= 0 && ei * Pow(2, w - (nbits + 1)) >= 0
    ensures Scanned(e, rem, w, 2, nbits + 1, Or(wbits, ei * Pow(2, w - (nbits + 1))), done, 2 * win + ei)
  {
    hide Prefix, Bit, Pow, Or;
    PrefixStep(e, rem);
    PowStep(2, nbits);
    if nbits > 0 { PowStep(2, nbits - 1); } else { PowStep(2, 0); }
    var k := w - (nbits + 1);
    PowPos(2, k);
    PowStep(2, k);
    MulNonneg(ei, Pow(2, k));
    MulNonneg(win, Pow(2, k + 1));
    assert ei * Pow(2, k) < Pow(2, k + 1) by { MulMono(Pow(2, k), ei, 1); MulComm(Pow(2, k), ei); }
    OrDisjoint(win, ei * Pow(2, k), k + 1);
    assert (2 * win + ei) * Pow(2, k) == win * Pow(2, k + 1) + ei * Pow(2, k) by {
      MulAssoc(win, 2, Pow(2, k));
      MulComm(2 * win + ei, Pow(2, k));
      MulDist(Pow(2, k), 2 * win, ei);
      MulComm(Pow(2, k), 2 * win);
      MulComm(Pow(2, k), ei);
    }
    assert 2 * (done * Pow(2, nbits)) == done * Pow(2, nbits + 1) by {
      MulAssoc(done, 2, Pow(2, nbits));
      MulAssoc(2, done, Pow(2, nbits));
    }
  }

  lemma ScanNbits(e: nat, rem: nat, w: nat, state: nat, nbits: nat, wbits: int, done: nat, win: nat)
    requires Scanned(e, rem, w, state, nbits, wbits, done, win)
    ensures state <= 2 && (state <= 1 ==> nbits == 0) && (state == 0 ==> done == 0)
  {
  }

  lemma ScanEnd(e: nat, w: nat, state: nat, nbits: nat, wbits: int, done: nat, win: nat)
    requires Scanned(e, 0, w, state, nbits, wbits, done, win)
    ensures e == done * Pow(2, nbits) + win && win < Pow(2, nbits)
    ensures nbits <= w && wbits == win * Pow(2, w - nbits)
  {
    PowStep(2, 0);
  }

  /** A full window names a table entry, and folding it in makes it part of what is done. */
  lemma ScanFull(e: nat, rem: nat, w: nat, wbits: int, done: nat, win: nat)
    requires w >= 1 && Scanned(e, rem, w, 2, w, wbits, done, win)
    ensures Pow(2, w - 1) <= wbits < Pow(2, w) && done * Pow(2, w) >= 0
    ensures Scanned(e, rem, w, 1, 0, 0, done * Pow(2, w) + wbits, 0)
  {
    hide Prefix, Pow;
    PowStep(2, 0);
    PowPos(2, w);
    MulNonneg(done, Pow(2, w));
  }

  /** X := X^(2^w) * W[wbits]. */
  method FoldWindow(X: Mpi, W: seq<Mpi?>, wbits: nat, w: nat, N: Mpi, mm: Limb, T: Mpi,
                    ghost a: int, ghost done: nat)
    requires X != N && X != T && N != T && 0 < |N.p| && |T.p| >= 2 * (|N.p| + 1)
    requires Cong(mm * N.p[0], -1, Base())
    requires forall i :: 0 <= i < |W| && W[i] != null ==> W[i] != X && W[i] != T
    requires Table(W, N.p, w, a) && Pow(2, w - 1) <= wbits < Pow(2, w)
    requires Holds(X.p, N.p, Pow(a, done) * Radix(|N.p|))
    modifies X, T
    ensures Table(W, N.p, w, a)
    ensures done * Pow(2, w) >= 0
    ensures Holds(X.p, N.p, Pow(a, done * Pow(2, w) + wbits) * Radix(|N.p|))
    ensures |X.p| == |old(X.p)| && X.s == old(X.s) && |T.p| == |old(T.p)|
  {
    hide Pow, Holds, Cong, Radix;
    SquareTimes(X, w, N, mm, T, a, done);
    ghost var f := done * Pow(2, w);
    MulInRForm(X, W[wbits], N, mm, T, Pow(a, f), Pow(a, wbits));
    PowAdd(a, f, wbits);
  }

  /** The main loop: all bits of E are read, the last few may still be pending. */
  method ScanExponent(X: Mpi, E: Mpi, W: seq<Mpi?>, w: nat, N: Mpi, mm: Limb, T: Mpi, ghost a: int)
    returns (nbits: nat, wbits: nat, ghost done: nat, ghost win: nat)
    requires X != N && X != T && N != T && E != X && E != T
    requires 0 < |N.p| && |T.p| >= 2 * (|N.p| + 1) && Cong(mm * N.p[0], -1, Base())
    requires forall i :: 0 <= i < |W| && W[i] != null ==> W[i] != X && W[i] != T
    requires Table(W, N.p, w, a) && w >= 1
    requires Holds(X.p, N.p, Radix(|N.p|))
    modifies X, T
    ensures Table(W, N.p, w, a)
    ensures nbits < w && win < Pow(2, nbits) && wbits == win * Pow(2, w - nbits)
    ensures Val(E.p) == done * Pow(2, nbits) + win
    ensures Holds(X.p, N.p, Pow(a, done) * Radix(|N.p|))
    ensures |X.p| == |old(X.p)| && X.s == old(X.s) && |T.p| == |old(T.p)|
  {
    hide Pow, Holds, Cong, Radix, Eval, Prefix, Bit, Or, Scanned, Table;
    var nblimbs, bufsize := |E.p|, 0;
    var state := 0;
    nbits, wbits, done, win := 0, 0, 0, 0;
    ghost var e := Val(E.p);
    BasePow(|E.p|);
    ScanStart(e, BIL * |E.p|, w);
    PowStep(a, 0);
    while true
      invariant 0 <= nblimbs <= |E.p| && 0 <= bufsize <= BIL && (nblimbs == |E.p| ==> bufsize == 0)
      invariant Scanned(e, BIL * nblimbs + bufsize, w, state, nbits, wbits, done, win) && nbits < w
      invariant Holds(X.p, N.p, Pow(a, done) * Radix(|N.p|)) && Table(W, N.p, w, a)
      invariant |X.p| == |old(X.p)| && X.s == old(X.s) && |T.p| == |old(T.p)|
      decreases nblimbs, bufsize
    {
      if bufsize == 0 {
        if nblimbs == 0 { break; }
        nblimbs := nblimbs - 1;
        bufsize := BIL;
      }
      bufsize := bufsize - 1;
      var ei := Bit(E.p[nblimbs], bufsize);
      BitOfLimb(E.p, nblimbs, bufsize);
      ghost var rem := BIL * nblimbs + bufsize;
      if ei == 0 && state == 0 {
        ScanNbits(e, rem + 1, w, state, nbits, wbits, done, win);
        ScanZero(e, rem, w, state, wbits, done, win);
        done, win := 2 * done, 0;
        continue;
      }
      if ei == 0 && state == 1 {
        ScanNbits(e, rem + 1, w, state, nbits, wbits, done, win);
        ScanZero(e, rem, w, state, wbits, done, win);
        MulInRForm(X, X, N, mm, T, Pow(a, done), Pow(a, done));
        SquarePower(a, done);
        done, win := 2 * done, 0;
        continue;
      }
      ScanNbits(e, rem + 1, w, state, nbits, wbits, done, win);
      ScanBit(e, rem, w, state, nbits, wbits, done, win, ei);
      state := 2;
      nbits := nbits + 1;
      wbits := Or(wbits, ei * Pow(2, w - nbits));
      win := 2 * win + ei;
      if nbits == w {
        ScanFull(e, rem, w, wbits, done, win);
        FoldWindow(X, W, wbits, w, N, mm, T, a, done);
        done, win := done * Pow(2, w) + wbits, 0;
        state := state - 1;
        nbits := 0;
        wbits := 0;
      }
    }
    ScanEnd(e, w, state, nbits, wbits, done, win);
  }

  /** Bit wsize of the left-aligned window after i + 1 shifts is bit nbits-1-i of the window. */
  lemma TailBit(win: nat, w: nat, nbits: nat, i: nat)
    requires i < nbits < w && win < Pow(2, nbits)
    ensures win * Pow(2, w - nbits + i) >= 0
    ensures 2 * (win * Pow(2, w - nbits + i)) == win * Pow(2, w - nbits + i + 1)
    ensures win * Pow(2, w - nbits + i + 1) >= 0
    ensures Bit(win * Pow(2, w - nbits + i + 1), w) == Bit(win, nbits - 1 - i)
  {
    hide Pow;
    var s, r := w - nbits + i + 1, nbits - 1 - i;
    PowPos(2, s);
    PowPos(2, r);
    PowPos(2, w - nbits + i);
    MulNonneg(win, Pow(2, s));
    MulNonneg(win, Pow(2, w - nbits + i));
    PowStep(2, w - nbits + i);
    MulAssoc(win, 2, Pow(2, w - nbits + i));
    MulAssoc(2, win, Pow(2, w - nbits + i));
    PowAdd(2, s, r);
    DivDiv(win * Pow(2, s), Pow(2, s), Pow(2, r));
    DivModUnique(win * Pow(2, s), Pow(2, s), win, 0);
  }

  /** The pending bits, one squaring and at most one multiplication each. */
  method FinishBits(X: Mpi, W1: Mpi, w: nat, nbits: nat, wbits0: nat, N: Mpi, mm: Limb, T: Mpi,
                    ghost a: int, ghost done: nat, ghost win: nat)
    requires X != N && X != T && N != T && W1 != X && W1 != T
    requires 0 < |N.p| && |T.p| >= 2 * (|N.p| + 1) && Cong(mm * N.p[0], -1, Base())
    requires Holds(W1.p, N.p, a * Radix(|N.p|)) && Holds(X.p, N.p, Pow(a, done) * Radix(|N.p|))
    requires nbits < w && win < Pow(2, nbits) && wbits0 == win * Pow(2, w - nbits)
    modifies X, T
    ensures done * Pow(2, nbits) >= 0
    ensures Holds(X.p, N.p, Pow(a, done * Pow(2, nbits) + win) * Radix(|N.p|))
    ensures |X.p| == |old(X.p)| && X.s == old(X.s) && |T.p| == |old(T.p)|
  {
    hide Pow, Holds, Cong, Radix, Eval, Prefix, Bit;
    var wbits, i := wbits0, 0;
    ghost var e := done;
    TailStart(done, win, nbits);
    while i < nbits
      invariant 0 <= i <= nbits
      invariant wbits == win * Pow(2, w - nbits + i)
      invariant e == done * Pow(2, i) + Prefix(win, nbits - i)
      invariant Holds(X.p, N.p, Pow(a, e) * Radix(|N.p|))
      invariant |X.p| == |old(X.p)| && X.s == old(X.s) && |T.p| == |old(T.p)|
    {
      MulInRForm(X, X, N, mm, T, Pow(a, e), Pow(a, e));
      SquarePower(a, e);
      TailBit(win, w, nbits, i);
      wbits := 2 * wbits;
      ghost var f := 2 * e;
      PrefixStep(win, nbits - i - 1);
      TailExponent(done, i);
      if Bit(wbits, w) != 0 {
        MulInRForm(X, W1, N, mm, T, Pow(a, f), a);
        PowStep(a, f);
        MulComm(Pow(a, f), a);
        f := f + 1;
      }
      e := f;
      i := i + 1;
    }
    TailEnd(win);
    PowPos(2, nbits);
    MulNonneg(done, Pow(2, nbits));
  }

  lemma TailStart(done: nat, win: nat, nbits: nat)
    requires win < Pow(2, nbits)
    ensures done == done * Pow(2, 0) + Prefix(win, nbits)
  {
    DivModUnique(win, Pow(2, nbits), 0, win);
  }

  lemma TailEnd(win: nat)
    ensures Prefix(win, 0) == win
  {
  }

  lemma TailExponent(done: nat, i: nat)
    ensures 2 * (done * Pow(2, i)) == done * Pow(2, i + 1) >= 0
  {
    hide Pow;
    PowPos(2, i + 1);
    MulNonneg(done, Pow(2, i + 1));
    PowStep(2, i);
    MulAssoc(done, 2, Pow(2, i));
    MulAssoc(2, done, Pow(2, i));
  }

  // ------------------------------------------------------------ the whole

  /** R^2 mod N, taken from the cache when it is filled and put there otherwise. */
  method SquaredRadix(N: Mpi, cache: Mpi?) returns (RR: Mpi)
    requires N.Value() > 0 && |N.p| > 0
    requires cache != null ==> cache != N
    requires cache != null && |cache.p| > 0 ==>
      cache.Value() == (Radix(|N.p|) * Radix(|N.p|)) % N.Value() && cache.s == 1
    modifies if cache != null then {cache} else {}
    ensures fresh(RR) && |RR.p| > 0 && RR.s == 1
    ensures Val(RR.p) == (Radix(|N.p|) * Radix(|N.p|)) % N.Value()
    ensures cache != null ==> |cache.p| > 0 && cache.s == 1 && cache.Value() == Val(RR.p)
    ensures cache != null && |old(cache.p)| > 0 ==> cache.p == old(cache.p)
  {
    hide Pow, Cong, Eval;
    RR := new Mpi();
    if cache == null || |cache.p| == 0 {
      Lset(RR, 1);
      ShiftL(RR, BIL * (2 * |N.p|));
      BasePow(2 * |N.p|);
      PowAdd(Base(), |N.p|, |N.p|);
      var _ := MpiDiv.ModMpi(RR, RR, N);
      if cache != null {
        cache.s, cache.p := RR.s, RR.p;
      }
    } else {
      RR.s, RR.p := cache.s, cache.p;
    }
  }

  /** What exp_mod leaves in X: the residue, except that a base of sign -1 can give N for 0. */
  function Expected(s: Sign, a: int, e: nat, n: int): int
    requires n > 0
  {
    var r := Pow(a, e) % n;
    if s == -1 && e % 2 == 1 && r == 0 then n else r
  }

  /** It is congruent to the power and in range; N itself exactly in the one case. */
  lemma ExpectedIs(s: Sign, a: int, e: nat, n: int)
    requires n > 0
    ensures var x := Expected(s, a, e, n);
      && Cong(x, Pow(a, e), n) && 0 <= x <= n
      && (x == n <==> s == -1 && e % 2 == 1 && Pow(a, e) % n == 0)
  {
    hide Pow, Cong;
    var p := Pow(a, e);
    CongMod(p, n);
    CongSym(p, p % n, n);
    DivModProps(p, n);
    if p % n == 0 {
      CongIntro(n, 0, n, 1);
      CongTrans(n, 0, p, n);
    }
  }

  /** (-a)^e for odd and even e. */
  lemma {:induction false} NegatedPower(a: int, e: nat)
    ensures Pow(-a, e) == if e % 2 == 1 then -Pow(a, e) else Pow(a, e)
  {
    if e > 0 {
      NegatedPower(a, e - 1);
      MulSigns(a, Pow(a, e - 1));
    }
  }

  /** N - |a|^e is the residue of a negative base's odd power, or N itself. */
  lemma NegativeBase(a: int, e: nat, n: int, x: int)
    requires n > 0 && e % 2 == 1 && 0 <= x < n && Cong(x, Pow(-a, e), n)
    ensures n - x == Expected(-1, a, e, n)
  {
    hide Pow, Cong;
    NegatedPower(a, e);
    CongScale(x, Pow(-a, e), -1, n);
    CongIntro(n - x, -x, n, 1);
    CongTrans(n - x, (-1) * x, (-1) * Pow(-a, e), n);
    if x == 0 {
      CongIntro(0, n, n, -1);
      CongTrans(0, n, Pow(a, e), n);
      CongIsMod(Pow(a, e), 0, n);
    } else {
      CongIsMod(Pow(a, e), n - x, n);
    }
  }

  /** The low limb's low bit is the parity. */
  lemma Parity(p: seq<Limb>)
    ensures |p| > 0 ==> Val(p) % 2 == p[0] % 2
    ensures |p| == 0 ==> Val(p) == 0
  {
    hide Pow, Eval;
    if |p| > 0 {
      EvalCons(Base(), p);
      PowStep(2, BIL - 1);
      var h := Pow(2, BIL - 1) * Val(p[1..]);
      MulAssoc(2, Pow(2, BIL - 1), Val(p[1..]));
      assert Val(p) == p[0] + 2 * h;
    } else {
      ValEmpty();
    }
  }

  /** A reduced base in R-form: W1 = A * R mod N. */
  method BaseInRForm(W1: Mpi, A: Mpi, RR: Mpi, N: Mpi, mm: Limb, T: Mpi)
    requires W1 != A && W1 != RR && W1 != N && W1 != T && RR != T && N != T && A != T
    requires |N.p| > 0 && N.Value() > 0 && A.s == 1 && |A.p| > 0 && |RR.p| > 0
    requires W1.p == Zeros(|N.p| + 1) && |T.p| >= 2 * (|N.p| + 1)
    requires Cong(mm * N.p[0], -1, Base())
    requires Val(RR.p) == (Radix(|N.p|) * Radix(|N.p|)) % N.Value()
    modifies W1, T
    ensures Holds(W1.p, N.p, Val(A.p) * Radix(|N.p|)) && |W1.p| > |N.p| && |T.p| == |old(T.p)|
  {
    hide Pow, Eval, Cong;
    ghost var n, a, R := Val(N.p), Val(A.p), Radix(|N.p|);
    var c := CmpMpi(A, N);
    if c >= 0 {
      var _ := MpiDiv.ModMpi(W1, A, N);
    } else {
      Copy(W1, A);
      DivModUnique(a, n, 0, a);
    }
    CongMod(a, n);
    CongSym(a, a % n, n);
    CongMod(R * R, n);
    CongSym(R * R, (R * R) % n, n);
    ValueHolds(W1.p, N.p, a);
    ghost var w, p0 := Val(W1.p[..|N.p|]), W1.p;
    HoldsValue(W1.p, N.p, a);
    MontMul(W1, RR, N, mm, T);
    assert forall i :: |N.p| <= i < |W1.p| ==> W1.p[i] == W1.p[|N.p|..][i - |N.p|] == p0[i];
    EnterRForm(Val(W1.p[..|N.p|]), w, Val(RR.p), a, N.p, mm);
  }

  /** r*R == a*R^2 gives r == a*R. */
  lemma EnterRForm(r: int, w: int, rr: int, a: int, N: seq<Limb>, mm: Limb)
    requires |N| > 0 && Cong(mm * N[0], -1, Base())
    requires Cong(r * Radix(|N|), w * rr, Val(N))
    requires Cong(w, a, Val(N)) && Cong(rr, Radix(|N|) * Radix(|N|), Val(N))
    ensures Cong(r, a * Radix(|N|), Val(N))
  {
    hide Pow, Eval, Cong;
    var n, R := Val(N), Radix(|N|);
    CongMul(w, a, rr, R * R, n);
    CongTrans(r * R, w * rr, a * (R * R), n);
    MulAssoc(a, R, R);
    CancelRadix(r, a * R, N, mm, |N|);
  }

  /** X = R mod N, the R-form of 1. */
  method OneInRForm(X: Mpi, RR: Mpi, N: Mpi, mm: Limb, T: Mpi)
    requires X != RR && X != N && X != T && RR != T && N != T
    requires |N.p| > 0 && N.Value() > 0 && |RR.p| > 0 && |X.p| > |N.p| && |T.p| >= 2 * (|N.p| + 1)
    requires Cong(mm * N.p[0], -1, Base())
    requires Val(RR.p) == (Radix(|N.p|) * Radix(|N.p|)) % N.Value()
    modifies X, T
    ensures Holds(X.p, N.p, Radix(|N.p|)) && X.s == RR.s && |T.p| == |old(T.p)|
  {
    hide Pow, Eval, Cong;
    ghost var n, R := Val(N.p), Radix(|N.p|);
    DivModProps(R * R, n);
    CongMod(R * R, n);
    CongSym(R * R, (R * R) % n, n);
    Copy(X, RR);
    ValueHolds(X.p, N.p, R * R);
    ghost var p0 := X.p;
    MontRed(X, N, mm, T);
    assert forall i :: |N.p| <= i < |X.p| ==> X.p[i] == X.p[|N.p|..][i - |N.p|] == p0[i];
    ghost var r := Val(X.p[..|N.p|]);
    CongTrans(r * R, Val(p0[..|N.p|]), R * R, n);
    CancelRadix(r, R, N.p, mm, |N.p|);
  }

  /** X := X * R^-1, leaving R-form. */
  method LeaveRForm(X: Mpi, N: Mpi, mm: Limb, T: Mpi, ghost v: int)
    requires X != N && X != T && N != T && 0 < |N.p| && |T.p| >= 2 * (|N.p| + 1)
    requires Cong(mm * N.p[0], -1, Base()) && Holds(X.p, N.p, v * Radix(|N.p|))
    modifies X, T
    ensures Holds(X.p, N.p, v) && X.s == old(X.s)
  {
    hide Pow, Eval, Cong;
    ghost var n, R, p0 := Val(N.p), Radix(|N.p|), X.p;
    MontRed(X, N, mm, T);
    assert forall i :: |N.p| <= i < |X.p| ==> X.p[i] == X.p[|N.p|..][i - |N.p|] == p0[i];
    ghost var r := Val(X.p[..|N.p|]);
    CongTrans(r * R, Val(p0[..|N.p|]), v * R, n);
    CancelRadix(r, v, N.p, mm, |N.p|);
  }

  /** The exponentiation of a nonnegative base, from R-form set-up to the final reduction. */
  method PowerOfNonnegative(X: Mpi, A: Mpi, E: Mpi, N: Mpi, RR: Mpi, mm: Limb)
    requires X != E && X != N && X != RR && A.s == 1 && |A.p| > 0
    requires |N.p| > 0 && N.Value() > 0 && E.Value() >= 0
    requires |RR.p| > 0 && RR.s == 1 && Cong(mm * N.p[0], -1, Base())
    requires Val(RR.p) == (Radix(|N.p|) * Radix(|N.p|)) % N.Value()
    modifies X
    ensures X.s == 1 && 0 <= Val(X.p) < N.Value()
    ensures Cong(Val(X.p), Pow(Val(old(A.p)), Val(E.p)), N.Value())
  {
    hide Pow, Eval, Cong, Table, Holds;
    ghost var a, e, n := Val(A.p), Val(E.p), Val(N.p);
    var bits := BitlenOf(E);
    var wsize := WindowFor(bits);
    var j := |N.p| + 1;
    Grow(X, j);
    var W1 := new Mpi();
    Grow(W1, j);
    var T := new Mpi();
    Grow(T, j * 2);
    BaseInRForm(W1, A, RR, N, mm, T);
    OneInRForm(X, RR, N, mm, T);
    var W := BuildTable(W1, N, wsize, mm, T, a);
    var nbits, wbits, done, win := ScanExponent(X, E, W, wsize, N, mm, T, a);
    TableFirst(W, N.p, wsize, a);
    FinishBits(X, W[1], wsize, nbits, wbits, N, mm, T, a, done, win);
    LeaveRForm(X, N, mm, T, Pow(a, e));
    HoldsValue(X.p, N.p, Pow(a, e));
  }

  lemma TableFirst(W: seq<Mpi?>, N: seq<Limb>, w: nat, a: int)
    requires Table(W, N, w, a)
    ensures |W| > 1 && W[1] != null && Holds(W[1].p, N, a * Radix(|N|))
  {
  }

  /**
   * X = A^E mod N.  A may be X; a filled cache must hold R^2 mod N for this N, and an empty
   * one is filled.
   */
  method ExpModMpi(X: Mpi, A: Mpi, E: Mpi, N: Mpi, cache: Mpi?) returns (ret: Status)
    requires X != E && X != N && cache != X && cache != A && cache != E && cache != N
    requires |A.p| > 0
    requires cache != null && |cache.p| > 0 && N.Value() > 0 ==>
      cache.Value() == (Radix(|N.p|) * Radix(|N.p|)) % N.Value() && cache.s == 1
    modifies X, if cache != null then {cache} else {}
    ensures ret == if N.Value() <= 0 || N.Value() % 2 == 0 || E.Value() < 0 then BadInput else Ok
    ensures ret == Ok ==> X.Value() == Expected(old(A.s), old(A.Value()), E.Value(), N.Value())
    ensures ret == Ok ==> Cong(X.Value(), Pow(old(A.Value()), E.Value()), N.Value()) && 0 <= X.Value() <= N.Value()
    ensures ret == Ok ==>
      (X.Value() == N.Value() <==>
        old(A.s) == -1 && E.Value() % 2 == 1 && Pow(old(A.Value()), E.Value()) % N.Value() == 0)
    ensures ret == Ok && cache != null ==> |cache.p| > 0 && cache.s == 1
    ensures ret == Ok && cache != null ==> cache.Value() == (Radix(|N.p|) * Radix(|N.p|)) % N.Value()
  {
    hide Pow, Eval, Cong, Radix, Expected;
    var c := CmpInt(N, 0);
    Parity(N.p);
    if c <= 0 || N.p[0] % 2 == 0 { return BadInput; }
    c := CmpInt(E, 0);
    if c < 0 { return BadInput; }
    ExpModOdd(X, A, E, N, cache);
    ExpectedIs(old(A.s), old(A.Value()), E.Value(), N.Value());
    return Ok;
  }

  /** The computation once the arguments are found good. */
  method ExpModOdd(X: Mpi, A: Mpi, E: Mpi, N: Mpi, cache: Mpi?)
    requires X != E && X != N && cache != X && cache != A && cache != E && cache != N
    requires |A.p| > 0 && |N.p| > 0 && N.p[0] % 2 == 1 && N.Value() > 0 && E.Value() >= 0
    requires cache != null && |cache.p| > 0 ==>
      cache.Value() == (Radix(|N.p|) * Radix(|N.p|)) % N.Value() && cache.s == 1
    modifies X, if cache != null then {cache} else {}
    ensures X.Value() == Expected(old(A.s), old(A.Value()), E.Value(), N.Value())
    ensures cache != null ==> |cache.p| > 0 && cache.s == 1
    ensures cache != null ==> cache.Value() == (Radix(|N.p|) * Radix(|N.p|)) % N.Value()
  {
    hide Pow, Eval, Cong, Radix, Expected;
    var mm := MontgInit(N);
    var neg := A.s == -1;
    var B := A;
    if neg {
      B := new Mpi();
      Copy(B, A);
      B.s := 1;
    }
    var RR := SquaredRadix(N, cache);
    PowerOfNonnegative(X, B, E, N, RR, mm);
    CompensateSign(X, E, N, neg, old(A.Value()));
  }

  /** Compensates for the sign of the base: X := N - X for an odd power. */
  method CompensateSign(X: Mpi, E: Mpi, N: Mpi, neg: bool, ghost a: int)
    requires X != E && X != N && N.Value() > 0 && E.Value() >= 0
    requires X.s == 1 && Val(X.p) < N.Value() && (if neg then a <= 0 else a >= 0)
    requires Cong(Val(X.p), Pow(Abs(a), Val(E.p)), N.Value())
    modifies X
    ensures X.Value() == Expected(if neg then -1 else 1, a, E.Value(), N.Value())
  {
    hide Pow, Eval, Cong;
    Parity(E.p);
    ghost var e, n := Val(E.p), Val(N.p);
    if neg && |E.p| != 0 && E.p[0] % 2 != 0 {
      NegativeBase(a, e, n, Val(X.p));
      X.s := -1;
      AddMpi(X, N, X);
    } else {
      if neg { NegatedPower(a, e); }
      CongIsMod(Pow(a, e), Val(X.p), n);
    }
  }
}
