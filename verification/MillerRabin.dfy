/** Miller-Rabin (algorithm 4.24 of the Handbook of Applied Cryptography) never rejects a prime. */
module MillerRabin {
  import opened Numbers
  import opened NumberTheory
  import opened Fermat
  import opened Bits
  import opened Digits
  import opened Mpis
  import opened MpiAdd
  import opened MpiMul
  import opened MpiShift
  import MpiDiv
  import ExpMod
  import MpiModInt

  /** n - 1 == 2^s * r with r odd, and a is no witness against the primality of n. */
  ghost predicate Passes(a: int, r: nat, s: nat, n: int) {
    Cong(Pow(a, r), 1, n) || exists j: nat :: j < s && PassesAt(a, r, n, j)
  }

  ghost predicate PassesAt(a: int, r: nat, n: int, j: nat) {
    Cong(Pow(Pow(a, r), Pow2(j)), n - 1, n)
  }

  ghost function Pow2(j: nat): (p: nat)
    ensures p == Pow(2, j) && p > 0
  {
    PowPos(2, j);
    Pow(2, j)
  }

  /** Squaring goes from one test to the next. */
  lemma SquareNext(x: int, j: nat)
    ensures Pow(x, Pow2(j + 1)) == Pow(x, Pow2(j)) * Pow(x, Pow2(j))
  {
    PowStep(2, j);
    PowAdd(x, Pow2(j), Pow2(j));
  }

  /** Walking back from a^(n-1) == 1: the first value that is not 1 is -1. */
  lemma {:induction false} WalkBack(a: int, r: nat, n: int, j: nat)
    requires Prime(n) && Cong(Pow(Pow(a, r), Pow2(j)), 1, n)
    ensures Cong(Pow(a, r), 1, n) || exists i: nat :: i < j && PassesAt(a, r, n, i)
  {
    var x := Pow(a, r);
    if j == 0 {
      PowStep(2, 0);
      PowStep(x, 0);
    } else {
      var y := Pow(x, Pow2(j - 1));
      SquareNext(x, j - 1);
      CongMod(y, n);
      CongMul(y, y % n, y, y % n, n);
      CongSym(y * y, (y % n) * (y % n), n);
      CongTrans((y % n) * (y % n), y * y, 1, n);
      SquareRootsOfOne(n, y % n);
      if y % n == 1 {
        WalkBack(a, r, n, j - 1);
        if !Cong(x, 1, n) {
          var i: nat :| i < j - 1 && PassesAt(a, r, n, i);
          assert i < j;
        }
      } else {
        assert PassesAt(a, r, n, j - 1);
      }
    }
  }

  /** For a prime no base is a witness. */
  lemma PrimePasses(a: nat, r: nat, s: nat, n: int)
    requires Prime(n) && 0 < a < n && n - 1 == Pow(2, s) * r
    ensures Passes(a, r, s, n)
  {
    LittleTheorem(a, n);
    PowPow(a, r, Pow2(s));
    MulComm(r, Pow2(s));
    WalkBack(a, r, n, s);
  }

  /** a^(n - 1) is the last value of the squaring chain. */
  lemma LastOfChain(a: int, r: nat, s: nat, n: nat)
    requires n > 0 && n - 1 == Pow(2, s) * r
    ensures Pow(a, n - 1) == Pow(Pow(a, r), Pow2(s))
  {
    hide Pow;
    PowPow(a, r, Pow2(s));
    MulComm(r, Pow2(s));
  }

  /** -1 turns into 1 and stays 1, and nothing before it has square 1. */
  lemma AroundMinusOne(x: int, n: int, i: nat, j: nat)
    requires n > 2 && Cong(Pow(x, Pow2(j)), n - 1, n)
    ensures i > j ==> Cong(Pow(x, Pow2(i)), 1, n)
    ensures i < j ==> !Cong(Pow(x, Pow2(i)) * Pow(x, Pow2(i)), 1, n)
  {
    hide Pow, Cong;
    var y := Pow(x, Pow2(j));
    if i > j {
      SquareNext(x, j);
      MinusOneSquared(y, n);
      OnesStay(x, n, j + 1, i);
    }
    if i < j && Cong(Pow(x, Pow2(i)) * Pow(x, Pow2(i)), 1, n) {
      SquareNext(x, i);
      OnesStay(x, n, i + 1, j);
      CongSym(y, 1, n);
      CongTrans(1, y, n - 1, n);
      CongUnique(1, n - 1, n);
    }
  }

  lemma MinusOneSquared(y: int, n: int)
    requires n > 2 && Cong(y, n - 1, n)
    ensures Cong(y * y, 1, n)
  {
    hide Cong;
    CongMul(y, n - 1, y, n - 1, n);
    MulDist(n - 1, n, -1);
    assert (n - 1) * (n - 1) == 1 + (n - 2) * n;
    CongIntro((n - 1) * (n - 1), 1, n, n - 2);
    CongTrans(y * y, (n - 1) * (n - 1), 1, n);
  }

  /** From a^(n - 1) == 1 back to the first value, if only 1 and -1 have square 1 along the chain. */
  lemma {:induction false} PassesBack(a: int, r: nat, s: nat, n: int, j: nat)
    requires n > 2 && j <= s && Cong(Pow(Pow(a, r), Pow2(j)), 1, n)
    requires forall i: nat :: i < s && Cong(Pow(Pow(a, r), Pow2(i)) * Pow(Pow(a, r), Pow2(i)), 1, n) ==>
      Cong(Pow(Pow(a, r), Pow2(i)), 1, n) || Cong(Pow(Pow(a, r), Pow2(i)), n - 1, n)
    ensures Passes(a, r, s, n)
  {
    hide Pow, Cong;
    var x := Pow(a, r);
    if j == 0 {
      FirstPower(x);
    } else {
      SquareNext(x, j - 1);
      if Cong(Pow(x, Pow2(j - 1)), 1, n) {
        PassesBack(a, r, s, n, j - 1);
      } else {
        assert PassesAt(a, r, n, j - 1);
      }
    }
  }

  /**
   * What passing means: a^(n - 1) is 1 modulo n, and no value of the squaring chain is a square root of 1
   * other than 1 and -1.
   */
  lemma StrongExactly(a: int, r: nat, s: nat, n: nat)
    requires n > 2 && n - 1 == Pow(2, s) * r
    ensures Passes(a, r, s, n) <==>
      && Cong(Pow(a, n - 1), 1, n)
      && forall j: nat :: j < s && Cong(Pow(Pow(a, r), Pow2(j)) * Pow(Pow(a, r), Pow2(j)), 1, n) ==>
        Cong(Pow(Pow(a, r), Pow2(j)), 1, n) || Cong(Pow(Pow(a, r), Pow2(j)), n - 1, n)
  {
    hide Pow, Cong;
    var x := Pow(a, r);
    LastOfChain(a, r, s, n);
    FirstPower(x);
    if Cong(x, 1, n) {
      forall i: nat ensures Cong(Pow(x, Pow2(i)), 1, n) { OnesStay(x, n, 0, i); }
    } else if Passes(a, r, s, n) {
      var j: nat :| j < s && PassesAt(a, r, n, j);
      AroundMinusOne(x, n, s, j);
      forall i: nat | i < s && Cong(Pow(x, Pow2(i)) * Pow(x, Pow2(i)), 1, n)
        ensures Cong(Pow(x, Pow2(i)), 1, n) || Cong(Pow(x, Pow2(i)), n - 1, n)
      {
        AroundMinusOne(x, n, i, j);
      }
    }
    if Cong(Pow(a, n - 1), 1, n) && forall j: nat :: j < s && Cong(Pow(x, Pow2(j)) * Pow(x, Pow2(j)), 1, n) ==>
        Cong(Pow(x, Pow2(j)), 1, n) || Cong(Pow(x, Pow2(j)), n - 1, n) {
      PassesBack(a, r, s, n, s);
    }
  }

  /** A base that shares a divisor with n, such as a factor of n, always fails. */
  lemma FactorFails(a: int, d: int, r: nat, s: nat, n: nat)
    requires n > 2 && n - 1 == Pow(2, s) * r && d > 1 && Divides(d, a) && Divides(d, n)
    ensures !Passes(a, r, s, n)
  {
    hide Pow, Cong, Passes;
    StrongExactly(a, r, s, n);
    if Cong(Pow(a, n - 1), 1, n) {
      PowStep(a, n - 2);
      DividesScale(d, a, Pow(a, n - 2));
      var k := CongElim(Pow(a, n - 1), 1, n);
      DividesScale(d, n, k);
      DividesSum(d, Pow(a, n - 1), k * n);
      DividesLe(d, 1);
    }
  }

  // -------------------------------------------------------- drawing a base

  /** No mask is needed, or its shift count is not negative: the number to stay below reaches into the top limb. */
  predicate Maskable(x: seq<Limb>, k: nat) {
    |x| > 0 && (BitLen(MagnitudeOf(x)) <= k || BIL * (|x| - 1) < k)
  }

  /** Every draw has n limbs and can be masked. */
  ghost predicate DrawsFit(draw: nat -> seq<Limb>, n: nat, k: nat) {
    n > 0 && forall i: nat :: |draw(i)| == n && Maskable(draw(i), k)
  }

  /** The masking of an over-long candidate: keeps the low m bits of the top limb. */
  function Masked(x: seq<Limb>, k: nat): (y: seq<Limb>)
    requires Maskable(x, k)
    ensures |y| == |x|
  {
    if BitLen(MagnitudeOf(x)) > k
    then PowPos(2, k - (|x| - 1) * BIL - 1);
         var t := x[|x| - 1] % Pow(2, k - (|x| - 1) * BIL - 1);
         assert t <= x[|x| - 1] by { RemainderSmall(x[|x| - 1], Pow(2, k - (|x| - 1) * BIL - 1)); }
         x[|x| - 1 := t]
    else x
  }

  lemma RemainderSmall(x: nat, n: nat)
    requires n > 0
    ensures 0 <= x % n <= x
  {
    DivModProps(x, n);
    MulNonneg(x / n, n);
  }

  function MagnitudeOf(x: seq<Limb>): (v: int)
    ensures v == Val(x) >= 0
  {
    Eval(Base(), x)
  }

  /** A candidate the loop does not accept. */
  ghost predicate Rejected(x: seq<Limb>, k: nat, w: int)
    requires Maskable(x, k)
  {
    Val(Masked(x, k)) >= w || Val(Masked(x, k)) <= 1
  }

  /** Thirty-one unusable draws in a row. */
  ghost predicate Starved(draw: nat -> seq<Limb>, first: nat, n: nat, w: int) {
    && w > 0 && DrawsFit(draw, n, BitLen(w))
    && forall i: nat :: first <= i < first + 31 ==> Rejected(draw(i), BitLen(w), w)
  }

  /**
   * Picks a base between 1 and W.  The random source is an arbitrary sequence of draws, each
   * as long as the modulus; after 31 unusable ones the test gives up.
   */
  method DrawBase(draw: nat -> seq<Limb>, pos0: nat, n: nat, W: Mpi)
    returns (A: Mpi, pos: nat, starved: bool)
    requires W.Value() > 1 && DrawsFit(draw, n, BitLen(Val(W.p)))
    ensures fresh(A) && A.s == 1 && |A.p| == n
    ensures if starved then pos == pos0 + 32 else pos0 < pos <= pos0 + 31
    ensures !starved ==> 1 < A.Value() < W.Value() && A.p == Masked(draw(pos - 1), BitLen(Val(W.p)))
    ensures starved ==> Starved(draw, pos0, n, W.Value())
  {
    hide Pow, Eval, Masked, Maskable, BitLen, SigLen;
    A := new Mpi();
    pos, starved := pos0, false;
    var count := 0;
    var again := true;
    while again
      invariant count == pos - pos0 <= 31 && A.s == 1
      invariant forall i: nat :: pos0 <= i < pos && (again || i < pos - 1) ==>
        Rejected(draw(i), BitLen(Val(W.p)), W.Value())
      invariant !again ==> |A.p| == n && pos > pos0 && 1 < A.Value() < W.Value()
      invariant !again ==> A.p == Masked(draw(pos - 1), BitLen(Val(W.p)))
      decreases 32 - count, again
    {
      A.p := draw(pos);
      pos := pos + 1;
      var j := BitlenOf(A);
      var k := BitlenOf(W);
      A.p := Masked(A.p, k);
      if count > 30 {
        starved := true;
        return;
      }
      count := count + 1;
      var c := CmpMpi(A, W);
      var d := CmpInt(A, 1);
      again := c >= 0 || d <= 0;
    }
  }

  // -------------------------------------------------------------- one round

  lemma ResidueTest(v: int, y: int, n: int, t: int)
    requires n > 0 && 0 <= y < n && Cong(v, y, n) && 0 <= t < n
    ensures Cong(v, t, n) <==> y == t
  {
    hide Cong;
    if Cong(v, t, n) {
      CongSym(v, y, n);
      CongTrans(y, v, t, n);
      CongUnique(y, t, n);
    }
  }

  /** Once a power is 1 every later square is 1. */
  lemma {:induction false} OnesStay(x: int, n: int, i: nat, j: nat)
    requires i <= j && Cong(Pow(x, Pow2(i)), 1, n)
    ensures Cong(Pow(x, Pow2(j)), 1, n)
  {
    hide Pow, Cong;
    if i < j {
      OnesStay(x, n, i, j - 1);
      SquareNext(x, j - 1);
      var y := Pow(x, Pow2(j - 1));
      CongMul(y, 1, y, 1, n);
    }
  }

  /** Reaching 1 without having met -1 decides against the number. */
  lemma OneWithoutMinusOne(a: int, r: nat, s: nat, n: int, j: nat)
    requires n > 2 && Cong(Pow(Pow(a, r), Pow2(j)), 1, n)
    requires forall i: nat :: i < j ==> !PassesAt(a, r, n, i)
    ensures forall i: nat :: !PassesAt(a, r, n, i)
  {
    hide Pow, Cong;
    forall i: nat ensures !PassesAt(a, r, n, i) {
      if i >= j {
        OnesStay(Pow(a, r), n, j, i);
        ResidueTest(Pow(Pow(a, r), Pow2(i)), 1, n, n - 1);
      }
    }
  }

  /** A := A^2 mod X. */
  method SquareMod(A: Mpi, T: Mpi, X: Mpi, ghost v: int)
    requires A != T && A != X && T != X && X.Value() > 0 && Cong(v, A.Value(), X.Value())
    modifies A, T
    ensures 0 <= A.Value() < X.Value() && Cong(v * v, A.Value(), X.Value())
  {
    hide Pow, Eval, Cong;
    ghost var a, n := A.Value(), X.Value();
    MulMpi(T, A, A);
    var _ := MpiDiv.ModMpi(A, T, X);
    CongMul(v, a, v, a, n);
    CongMod(a * a, n);
    CongTrans(v * v, a * a, (a * a) % n, n);
  }

  /** The squaring loop of one round, entered with A == a^r mod n neither 1 nor -1. */
  method SquaringLoop(A: Mpi, W: Mpi, X: Mpi, s: nat, ghost a: int, ghost r: nat) returns (pass: bool)
    requires A != W && A != X && X.Value() > 3 && W.Value() == X.Value() - 1 && s >= 1
    requires Cong(Pow(a, r), A.Value(), X.Value()) && 0 <= A.Value() < X.Value()
    requires A.Value() != 1 && A.Value() != W.Value()
    modifies A
    ensures pass <==> Passes(a, r, s, X.Value())
  {
    hide Pow, Eval, Cong, PassesAt;
    ghost var x, n := Pow(a, r), X.Value();
    ResidueTest(x, A.Value(), n, 1);
    var T := new Mpi();
    var j := 1;
    ghost var i: nat := 0;
    FirstPower(x);
    var c := CmpMpi(A, W);
    var one := CmpInt(A, 1);
    while j < s && c != 0
      invariant 1 <= j <= s && i == j - 1 && c == Sgn(A.Value() - W.Value()) && one != 0
      invariant 0 <= A.Value() < n && Cong(Pow(x, Pow2(i)), A.Value(), n) && one == Sgn(A.Value() - 1)
      invariant forall k: nat :: k < i ==> !PassesAt(a, r, n, k)
      decreases s - j
    {
      TestAt(a, r, n, i, A.Value());
      ghost var v := Pow(x, Pow2(i));
      SquareNext(x, i);
      SquareMod(A, T, X, v);
      c := CmpMpi(A, W);
      one := CmpInt(A, 1);
      if one == 0 {
        OneWithoutMinusOne(a, r, s, n, i + 1);
        return false;
      }
      j := j + 1;
      i := i + 1;
    }
    TestAt(a, r, n, i, A.Value());
    return c == 0;
  }

  lemma FirstPower(x: int)
    ensures Pow(x, Pow2(0)) == x
  {
    PowStep(x, 0);
    PowStep(2, 0);
  }

  lemma TestAt(a: int, r: nat, n: int, i: nat, y: int)
    requires n > 2 && 0 <= y < n && Cong(Pow(Pow(a, r), Pow2(i)), y, n)
    ensures PassesAt(a, r, n, i) <==> y == n - 1
  {
    hide Pow, Cong;
    ResidueTest(Pow(Pow(a, r), Pow2(i)), y, n, n - 1);
  }

  /** One round with base A decides Passes exactly. */
  method Round(A: Mpi, W: Mpi, R: Mpi, X: Mpi, RR: Mpi, s: nat) returns (pass: bool)
    requires A != W && A != R && A != X && A != RR && RR != R && RR != X && RR != W
    requires X.Value() > 3 && X.Value() % 2 == 1 && W.Value() == X.Value() - 1 && R.Value() >= 0 && s >= 1
    requires A.s == 1 && |A.p| > 0 && 1 < A.Value() < W.Value()
    requires |RR.p| > 0 ==>
      RR.Value() == (ExpMod.Radix(|X.p|) * ExpMod.Radix(|X.p|)) % X.Value() && RR.s == 1
    modifies A, RR
    ensures pass <==> Passes(old(A.Value()), R.Value(), s, X.Value())
    ensures X.Value() - 1 == Pow(2, s) * R.Value() ==>
      (pass <==>
        && Cong(Pow(old(A.Value()), X.Value() - 1), 1, X.Value())
        && forall j: nat ::
          (j < s && Cong(Pow(Pow(old(A.Value()), R.Value()), Pow2(j)) * Pow(Pow(old(A.Value()), R.Value()), Pow2(j)), 1,
                         X.Value())) ==>
          || Cong(Pow(Pow(old(A.Value()), R.Value()), Pow2(j)), 1, X.Value())
          || Cong(Pow(Pow(old(A.Value()), R.Value()), Pow2(j)), X.Value() - 1, X.Value()))
    ensures |RR.p| > 0 && RR.s == 1
    ensures RR.Value() == (ExpMod.Radix(|X.p|) * ExpMod.Radix(|X.p|)) % X.Value()
  {
    hide Pow, Eval, Cong, PassesAt, ExpMod.Radix;
    ghost var a, r, n := A.Value(), R.Value(), X.Value();
    if n - 1 == Pow(2, s) * r { StrongExactly(a, r, s, n); }
    var _ := ExpMod.ExpModMpi(A, A, R, X, RR);
    CongMod(Pow(a, r), n);
    var c := CmpMpi(A, W);
    var one := CmpInt(A, 1);
    ResidueTest(Pow(a, r), A.Value(), n, 1);
    if c == 0 || one == 0 {
      FirstPower(Pow(a, r));
      TestAt(a, r, n, 0, A.Value());
      return true;
    }
    pass := SquaringLoop(A, W, X, s, a, r);
  }

  // --------------------------------------------------------------- the test

  /** What the test assumes of its argument: odd and above 3. */
  ghost predicate Testable(X: Mpi)
    reads X
  {
    X.Value() > 3 && X.Value() % 2 == 1
  }

  /** n - 1 keeps the bit length of an odd n. */
  lemma SameBitLen(n: nat)
    requires n > 1 && n % 2 == 1
    ensures BitLen(n - 1) == BitLen(n)
  {
    assert (n - 1) / 2 == n / 2;
  }

  /** The shift count of the mask is not negative exactly for a number without zero limbs on top. */
  lemma FitsExactly(p: seq<Limb>)
    requires Val(p) > 3 && Val(p) % 2 == 1
    ensures |p| > 0 && (BIL * (|p| - 1) < BitLen(Val(p) - 1) <==> SigLen(p) == |p|)
  {
    hide Pow, Eval, BitLen, SigLen;
    ZeroSig(p);
    SameBitLen(Val(p));
    SomeBits(Val(p));
    MpiDiv.BitLenVsLimbs(p, BitLen(Val(p)));
    if SigLen(p) < |p| { MulMono(BIL, SigLen(p), |p| - 1); }
  }

  lemma SomeBits(v: nat)
    requires v > 0
    ensures BitLen(v) > 0
  {
  }

  /** X - 1 == 2^s * R with R odd, and s >= 1. */
  method Decompose(X: Mpi) returns (W: Mpi, R: Mpi, s: nat)
    requires Testable(X)
    ensures fresh(W) && fresh(R) && W != R
    ensures W.Value() == X.Value() - 1 == Val(W.p)
    ensures R.Value() >= 0 && W.Value() == Pow(2, s) * R.Value() && R.Value() % 2 == 1 && s >= 1
  {
    hide Pow, Eval;
    W := new Mpi();
    SubInt(W, X, 1);
    ghost var m;
    s, m := Lsb(W);
    R := new Mpi();
    Copy(R, W);
    ShiftR(R, s);
    PowPos(2, s);
    MulComm(Pow(2, s), m);
    DivModUnique(W.Value(), Pow(2, s), m, 0);
    PowStep(2, 0);
  }

  /**
   * The test.  Every accepted round had a base that is no witness; a rejection shows a witness,
   * unless the random source was unusable 31 times in a row.
   */
  method Test(X: Mpi, rounds: nat, draw: nat -> seq<Limb>)
    returns (ret: Status, ghost s: nat, ghost r: nat, ghost bases: seq<int>, ghost starvedAt: int)
    requires Testable(X) && (rounds > 0 ==> DrawsFit(draw, |X.p|, BitLen(X.Value() - 1)))
    ensures ret == Ok || ret == NotAcceptable
    ensures X.Value() - 1 == Pow(2, s) * r && r % 2 == 1
    ensures forall i :: 0 <= i < |bases| ==> 1 < bases[i] < X.Value() - 1
    ensures forall i :: 0 <= i < |bases| && (ret == Ok || i < |bases| - 1) ==> Passes(bases[i], r, s, X.Value())
    ensures ret == Ok ==> |bases| == rounds
    ensures ret == Ok ==> forall i :: 0 <= i < |bases| ==> Cong(Pow(bases[i], X.Value() - 1), 1, X.Value())
    ensures ret == Ok ==> forall i, j: nat ::
      (0 <= i < |bases| && j < s &&
       Cong(Pow(Pow(bases[i], r), Pow2(j)) * Pow(Pow(bases[i], r), Pow2(j)), 1, X.Value())) ==>
        || Cong(Pow(Pow(bases[i], r), Pow2(j)), 1, X.Value())
        || Cong(Pow(Pow(bases[i], r), Pow2(j)), X.Value() - 1, X.Value())
    ensures forall i, d: int :: 0 <= i < |bases| && d > 1 && Divides(d, bases[i]) && Divides(d, X.Value()) ==> ret != Ok
    ensures ret == NotAcceptable ==>
      (|bases| > 0 && !Passes(bases[|bases| - 1], r, s, X.Value()))
      || (starvedAt >= 0 && Starved(draw, starvedAt, |X.p|, X.Value() - 1))
  {
    hide Pow, Eval, Cong, ExpMod.Radix, Passes, Starved, DrawsFit;
    var W, R, t := Decompose(X);
    s, r, bases, starvedAt := t, R.Value(), [], -1;
    var RR := new Mpi();
    var pos := 0;
    for i := 0 to rounds
      invariant |bases| == i
      invariant W.Value() == X.Value() - 1 == Val(W.p) && R.Value() == r && Testable(X)
      invariant forall k :: 0 <= k < i ==> 1 < bases[k] < X.Value() - 1
      invariant forall k :: 0 <= k < i ==> Passes(bases[k], r, s, X.Value())
      invariant RR != W && RR != R && RR != X && fresh(RR)
      invariant |RR.p| > 0 ==>
        RR.Value() == (ExpMod.Radix(|X.p|) * ExpMod.Radix(|X.p|)) % X.Value() && RR.s == 1
    {
      var A, starved;
      ghost var first := pos;
      A, pos, starved := DrawBase(draw, pos, |X.p|, W);
      if starved {
        starvedAt := first;
        return NotAcceptable, s, r, bases, starvedAt;
      }
      bases := bases + [A.Value()];
      var pass := Round(A, W, R, X, RR, t);
      if !pass {
        return NotAcceptable, s, r, bases, starvedAt;
      }
    }
    AllStrong(bases, r, s, X.Value());
    return Ok, s, r, bases, starvedAt;
  }

  /** What it means that all bases passed. */
  lemma AllStrong(bases: seq<int>, r: nat, s: nat, n: nat)
    requires n > 2 && n - 1 == Pow(2, s) * r && forall i :: 0 <= i < |bases| ==> Passes(bases[i], r, s, n)
    ensures forall i :: 0 <= i < |bases| ==> Cong(Pow(bases[i], n - 1), 1, n)
    ensures forall i, j: nat ::
      (0 <= i < |bases| && j < s &&
       Cong(Pow(Pow(bases[i], r), Pow2(j)) * Pow(Pow(bases[i], r), Pow2(j)), 1, n)) ==>
        Cong(Pow(Pow(bases[i], r), Pow2(j)), 1, n) || Cong(Pow(Pow(bases[i], r), Pow2(j)), n - 1, n)
    ensures forall i, d: int :: 0 <= i < |bases| && d > 1 && Divides(d, bases[i]) ==> !Divides(d, n)
  {
    hide Pow, Cong, Passes;
    forall i | 0 <= i < |bases| ensures Cong(Pow(bases[i], n - 1), 1, n) {
      StrongExactly(bases[i], r, s, n);
    }
    forall i, j: nat | 0 <= i < |bases| && j < s &&
      Cong(Pow(Pow(bases[i], r), Pow2(j)) * Pow(Pow(bases[i], r), Pow2(j)), 1, n)
      ensures Cong(Pow(Pow(bases[i], r), Pow2(j)), 1, n) || Cong(Pow(Pow(bases[i], r), Pow2(j)), n - 1, n)
    {
      StrongExactly(bases[i], r, s, n);
    }
    forall i, d: int | 0 <= i < |bases| && d > 1 && Divides(d, bases[i]) ensures !Divides(d, n) {
      if Divides(d, n) { FactorFails(bases[i], d, r, s, n); }
    }
  }

  /** A prime is only ever turned away by an unusable random source. */
  method TestPrime(X: Mpi, rounds: nat, draw: nat -> seq<Limb>) returns (ret: Status, ghost starvedAt: int)
    requires Testable(X) && Prime(X.Value()) && (rounds > 0 ==> DrawsFit(draw, |X.p|, BitLen(X.Value() - 1)))
    ensures ret == Ok || (ret == NotAcceptable && starvedAt >= 0 && Starved(draw, starvedAt, |X.p|, X.Value() - 1))
  {
    hide Pow, Eval, Cong, Passes, Starved, DrawsFit;
    ghost var s, r, bases;
    ret, s, r, bases, starvedAt := Test(X, rounds, draw);
    if |bases| > 0 {
      PrimePasses(bases[|bases| - 1], r, s, X.Value());
    }
  }

  // ---------------------------------------------------- with small factors

  /** A table of the odd primes up to its last entry, in order. */
  ghost predicate Complete(table: seq<Sint>) {
    && |table| > 0 && (forall i, j :: 0 <= i < j < |table| ==> table[i] < table[j])
    && forall p: int :: Prime(p) && 3 <= p <= Last(table) ==> p in table
  }

  function Last(table: seq<Sint>): int
    requires |table| > 0
  {
    table[|table| - 1]
  }

  /** Numbers below the square of the last entry have no room for two larger factors. */
  function Reach(table: seq<Sint>): int
    requires |table| > 0
  {
    Last(table) * Last(table)
  }

  /** None of the first i entries divides n or is as large. */
  ghost predicate NoFactor(n: int, table: seq<Sint>, i: nat)
    requires i <= |table| && forall k :: 0 <= k < |table| ==> table[k] >= 3
  {
    forall k :: 0 <= k < i ==> n > table[k] && n % table[k] != 0
  }

  /** Trial division by a table of small odd numbers, each at least 3. */
  method CheckSmallFactors(X: Mpi, table: seq<Sint>) returns (ret: Status, certain: bool)
    requires X.Value() > 1 && |X.p| > 0
    requires forall i :: 0 <= i < |table| ==> 3 <= table[i] < 1000
    ensures ret == Ok || ret == NotAcceptable
    ensures X.Value() > 2 && Prime(X.Value()) ==> ret == Ok
    ensures ret == Ok ==> X.Value() % 2 == 1
    ensures ret == Ok && !certain ==> NoFactor(X.Value(), table, |table|)
    ensures ret == Ok && certain ==> exists i :: 0 <= i < |table| && X.Value() <= table[i]
    ensures ret == Ok && certain && Complete(table) ==> Prime(X.Value())
  {
    hide Pow, Eval, Complete, Prime, NoFactor;
    NoneYet(X.Value(), table);
    ExpMod.Parity(X.p);
    if X.p[0] % 2 == 0 {
      EvenNotPrime(X.Value());
      return NotAcceptable, false;
    }
    for i := 0 to |table|
      invariant NoFactor(X.Value(), table, i)
    {
      var c := CmpInt(X, table[i]);
      if c <= 0 {
        if Complete(table) { SmallPrime(X.Value(), table, i); }
        return Ok, true;
      }
      var _, r := MpiModInt.ModInt(X, table[i]);
      if r == 0 {
        FactorNotPrime(X.Value(), table[i]);
        return NotAcceptable, false;
      }
      OneMore(X.Value(), table, i);
    }
    return Ok, false;
  }

  lemma NoneYet(n: int, table: seq<Sint>)
    requires forall k :: 0 <= k < |table| ==> table[k] >= 3
    ensures NoFactor(n, table, 0)
  {
  }

  lemma OneMore(n: int, table: seq<Sint>, i: nat)
    requires (forall k :: 0 <= k < |table| ==> table[k] >= 3) && i < |table|
    requires NoFactor(n, table, i) && n > table[i] && n % table[i] != 0
    ensures NoFactor(n, table, i + 1)
  {
  }

  /** An odd number without a prime factor before its place in the table is a prime. */
  lemma SmallPrime(n: int, table: seq<Sint>, i: nat)
    requires (forall k :: 0 <= k < |table| ==> table[k] >= 3) && Complete(table) && i < |table|
    requires 1 < n <= table[i] && n % 2 == 1 && NoFactor(n, table, i)
    ensures Prime(n)
  {
    hide Prime, Complete, NoFactor;
    if !Prime(n) {
      var q, k := SmallFactor(n);
      OddFactor(n, q, k);
      EarlyEntry(q, table, i);
      NoEntryDivides(n, table, i, q, k);
    }
  }

  /** So is one below the square of the last entry that no entry divides. */
  lemma LargerPrime(n: int, table: seq<Sint>)
    requires (forall k :: 0 <= k < |table| ==> table[k] >= 3) && Complete(table)
    requires 1 < n < Reach(table) && n % 2 == 1 && NoFactor(n, table, |table|)
    ensures Prime(n)
  {
    hide Prime, NoFactor;
    if !Prime(n) {
      var q, k := SmallFactor(n);
      OddFactor(n, q, k);
      RootBelow(q, Last(table));
      EarlyEntry(q, table, |table| - 1);
      Longer(n, table);
      NoEntryDivides(n, table, |table| - 1, q, k);
    }
  }

  lemma Longer(n: int, table: seq<Sint>)
    requires (forall k :: 0 <= k < |table| ==> table[k] >= 3) && |table| > 0 && NoFactor(n, table, |table|)
    ensures NoFactor(n, table, |table| - 1)
  {
  }

  /** A prime below an entry stands before it. */
  lemma EarlyEntry(q: int, table: seq<Sint>, i: nat)
    requires Complete(table) && i < |table| && Prime(q) && 3 <= q < table[i]
    ensures exists m :: 0 <= m < i && table[m] == q
  {
    hide Prime;
    assert table[i] <= Last(table) && q in table;
    var m :| 0 <= m < |table| && table[m] == q;
    assert m < i;
  }

  lemma NoEntryDivides(n: int, table: seq<Sint>, i: nat, q: int, k: int)
    requires (forall j :: 0 <= j < |table| ==> table[j] >= 3) && i <= |table|
    requires NoFactor(n, table, i) && q > 0 && n == k * q
    ensures forall m :: 0 <= m < i ==> table[m] != q
  {
    DivModUnique(n, q, k, 0);
  }

  lemma RootBelow(q: int, last: int)
    requires q > 0 && last > 0 && q * q < last * last
    ensures q < last
  {
    if q >= last {
      MulMono(q, last, q);
      MulMono(last, last, q);
      MulComm(q, last);
    }
  }

  /** A composite number has a prime factor whose square is no larger. */
  lemma SmallFactor(n: int) returns (q: int, k: int)
    requires n > 1 && !Prime(n)
    ensures Prime(q) && 1 < q < n && n == k * q && q * q <= n
  {
    var d: int :| 1 < d < n && Divides(d, n);
    var e := DividesElim(d, n);
    if e <= 1 { MulMono(d, e, 1); MulComm(d, e); }
    var low := if d <= e then d else e;
    var high := if d <= e then e else d;
    MulComm(d, e);
    MulMono(low, low, high);
    var m;
    q, m := PrimeFactor(low);
    MulAssoc(high, m, q);
    k := high * m;
    MulMono(q, q, low);
    MulMono(low, q, low);
    MulComm(q, low);
  }

  lemma {:induction false} PrimeFactor(n: int) returns (q: int, k: int)
    requires n > 1
    ensures Prime(q) && 1 < q <= n && n == k * q
    decreases n
  {
    if Prime(n) {
      q, k := n, 1;
    } else {
      var d: int :| 1 < d < n && Divides(d, n);
      var e := DividesElim(d, n);
      q, k := PrimeFactor(d);
      MulAssoc(e, k, q);
      k := e * k;
    }
  }

  lemma OddFactor(n: int, q: int, k: int)
    requires n % 2 == 1 && q > 1 && n == k * q
    ensures q >= 3
  {
    assert q == 2 ==> n == k * 2;
  }

  lemma EvenNotPrime(n: int)
    requires n > 1 && n % 2 == 0
    ensures n > 2 ==> !Prime(n)
  {
    if n > 2 { DividesIntro(2, n, n / 2); }
  }

  lemma FactorNotPrime(n: int, d: int)
    requires 1 < d < n && n % d == 0
    ensures !Prime(n)
  {
    DivModProps(n, d);
    DividesIntro(d, n, n / d);
  }

  /** The number gets as far as having bases drawn for it. */
  ghost predicate Drawn(n: int, rounds: nat, table: seq<Sint>)
    requires forall k :: 0 <= k < |table| ==> table[k] >= 3
  {
    rounds > 0 && n > 2 && n % 2 == 1 && NoFactor(n, table, |table|)
  }

  /**
   * The public test: small factors first, then Miller-Rabin on |X|.  No prime is rejected
   * while the random source is usable, and up to the square of the last small prime only primes are accepted.
   */
  method IsPrimeExt(X: Mpi, rounds: nat, table: seq<Sint>, draw: nat -> seq<Limb>)
    returns (ret: Status, ghost starvedAt: int)
    requires |table| > 0 && table[0] == 3
    requires forall i :: 0 <= i < |table| ==> 3 <= table[i] < 1000
    requires Drawn(Val(X.p), rounds, table) ==> DrawsFit(draw, |X.p|, BitLen(Val(X.p) - 1))
    ensures ret == Ok || ret == NotAcceptable
    ensures Val(X.p) <= 1 ==> ret == NotAcceptable
    ensures ret == Ok ==> Val(X.p) == 2 || Val(X.p) % 2 == 1
    ensures Prime(Val(X.p)) ==>
      ret == Ok || (starvedAt >= 0 && Starved(draw, starvedAt, |X.p|, Val(X.p) - 1))
    ensures Complete(table) && Val(X.p) <= Last(table) ==> (ret == Ok <==> Prime(Val(X.p)))
    ensures Complete(table) && Val(X.p) < Reach(table) && ret == Ok ==> Prime(Val(X.p))
  {
    hide Pow, Eval, Starved, DrawsFit, Complete, Prime, Reach, Last, NoFactor, Passes;
    starvedAt := -1;
    SmallestPrimes();
    var XX := new Mpi();
    XX.s, XX.p := 1, X.p;
    var c := CmpInt(XX, 0);
    var d := CmpInt(XX, 1);
    if c == 0 || d == 0 { return NotAcceptable, starvedAt; }
    d := CmpInt(XX, 2);
    if d == 0 { return Ok, starvedAt; }
    ZeroSig(XX.p);
    var small, certain := CheckSmallFactors(XX, table);
    if small != Ok || certain { return small, starvedAt; }
    Beyond(Val(X.p), table);
    if Complete(table) && Val(X.p) < Reach(table) { LargerPrime(Val(X.p), table); }
    ghost var s, r, bases;
    ret, s, r, bases, starvedAt := Test(XX, rounds, draw);
    if Prime(Val(X.p)) && |bases| > 0 {
      PrimePasses(bases[|bases| - 1], r, s, Val(X.p));
    }
  }

  lemma Beyond(n: int, table: seq<Sint>)
    requires |table| > 0 && table[0] == 3 && (forall k :: 0 <= k < |table| ==> table[k] >= 3)
    requires NoFactor(n, table, |table|)
    ensures n > 3 && n > Last(table)
  {
  }

  lemma SmallestPrimes()
    ensures Prime(2) && !Prime(0) && !Prime(1)
  {
  }
}
