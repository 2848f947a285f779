/**
 * Division of a two-limb number by one limb: the half-limb path (algorithm D of
 * section 4.3.1 of The Art of Computer Programming) and the double-width path.
 */
module IntDiv {
  import opened Numbers
  import opened Bits
  import opened Mpis
  import opened MpiShift

  lemma HalfFacts()
    ensures Pow(2, BIH) >= 0x1_0000 && Pow(2, BIH) % 2 == 0
    ensures Pow(2, BIH) * Pow(2, BIH) == Base()
  {
    HalfLarge();
    PowAdd(2, BIH, BIH);
    PowStep(2, BIH - 1);
  }

  lemma HalfLarge()
    ensures Pow(2, BIH) >= 0x1_0000
  {
    Pow16();
    PowMono(2, 16, BIH);
  }

  /** The radix of a half limb. */
  function Half(): (h: int)
    ensures h == Pow(2, BIH) && h >= 0x1_0000 && h * h == Base() && h % 2 == 0
  {
    HalfFacts();
    Pow(2, BIH)
  }

  /** Unsigned limb arithmetic keeps results modulo the base. */
  function Wrap(x: int): (r: Limb)
    ensures Cong(r, x, Base())
  {
    CongMod(x, Base());
    CongSym(x, x % Base(), Base());
    x % Base()
  }

  lemma WrapExact(x: int, y: int)
    requires Cong(x, y, Base()) && 0 <= y < Base()
    ensures Wrap(x) == y
  {
    CongTrans(Wrap(x), x, y, Base());
    CongUnique(Wrap(x), y, Base());
  }

  /** The quotient digit of u*h + w by d1*h + d0, all below h except u and d. */
  ghost predicate IsDigit(h: int, u: int, w: int, d: int, q: int) {
    q >= 0 && q * d <= u * h + w < (q + 1) * d
  }

  lemma DigitFits(h: int, u: int, w: int, d: int, q: int)
    requires h > 0 && 0 <= u < d && 0 <= w < h && IsDigit(h, u, w, d, q)
    ensures q < h
  {
    MulMono(h, u + 1, d);
    MulDist(h, u, 1);
    MulComm(h, u);
    MulComm(h, d);
    MulComm(q, d);
    MulCancelLt(d, q, h);
  }

  /** A candidate that is too large for the half-limb test is too large. */
  lemma TestFails(h: int, u: int, w: int, d1: int, d0: int, q: int, r: int)
    requires h > 0 && u == q * d1 + r
    ensures q * d0 > h * r + w <==> q * (d1 * h + d0) > u * h + w
  {
    MulDist(q, d1 * h, d0);
    MulAssoc(q, d1, h);
    assert (q * d1 + r) * h == (q * d1) * h + h * r;
  }

  /** The facts about a candidate digit q with partial remainder r. */
  ghost predicate Candidate(h: int, u: int, w: int, d1: int, d0: int, exact: int, q: int, r: int) {
    && h >= 4 && h <= 2 * d1 && 0 <= d0 < h && 0 <= w < h
    && 0 <= u < d1 * h + d0 && IsDigit(h, u, w, d1 * h + d0, exact) && 0 <= exact < h
    && u == q * d1 + r && r >= 0 && exact <= q <= h + 1
  }

  /** A candidate failing the test can go down by one. */
  lemma CandidateDown(h: int, u: int, w: int, d1: int, d0: int, exact: int, q: int, r: int)
    requires Candidate(h, u, w, d1, d0, exact, q, r)
    requires q >= h || q * d0 > h * r + w
    ensures Candidate(h, u, w, d1, d0, exact, q - 1, r + d1)
  {
    TestFails(h, u, w, d1, d0, q, r);
    Overshoot(h, u, w, d1 * h + d0, q, exact);
    MulDist(d1, q, 1);
    MulComm(d1, q);
    MulComm(d1, q - 1);
  }

  /** A candidate passing the test, or with an overflowing partial remainder, is exact. */
  lemma CandidateExact(h: int, u: int, w: int, d1: int, d0: int, exact: int, q: int, r: int)
    requires Candidate(h, u, w, d1, d0, exact, q, r)
    requires (q < h && !(q * d0 > h * r + w)) || (q <= h && r >= h)
    ensures q == exact
  {
    if r >= h { BreakIsSmall(h, w, d0, q, r); }
    TestFails(h, u, w, d1, d0, q, r);
    AtMost(h, u, w, d1 * h + d0, q, exact);
  }

  /** The test is only evaluated where neither side wraps around. */
  lemma TestInRange(h: int, w: int, d0: int, q: int, r: int)
    requires h * h == Base() && 0 <= d0 < h && 0 <= w < h && 0 <= r < h && 0 <= q
    ensures q < h ==> Wrap(q * d0) == q * d0 && Wrap(h * r + w) == h * r + w
  {
    if q < h {
      MulNonneg(q, d0);
      MulMono(q, d0, h);
      MulMono(h, q, h - 1);
      MulMono(h, r, h - 1);
      MulNonneg(h, r);
      MulDist(h, h, 1);
      MulComm(q, h);
      CongRefl(q * d0, Base());
      CongRefl(h * r + w, Base());
      WrapExact(q * d0, q * d0);
      WrapExact(h * r + w, h * r + w);
    }
  }

  /**
   * Estimates a quotient digit from the leading half limb of the divisor and corrects it
   * downwards, at most twice.  The divisor is normalised: its top bit is set.
   */
  method CorrectedDigit(u: Limb, w: int, d: Limb) returns (q: int, ghost more: nat)
    requires Base() / 2 <= d && u < d && 0 <= w < Half()
    ensures IsDigit(Half(), u, w, d, q) && 0 <= q < Half()
    ensures more <= 2
  {
    var h := Half();
    DivModProps(d, h);
    LeadingHalf(d, h);
    var d1, d0 := d / h, d % h;
    more := 0;
    q := u / d1;
    var r := u - d1 * q;
    DivModProps(u, d1);
    MulComm(d1, q);
    ghost var exact := (u * h + w) / d;
    ExactDigit(h, u, w, d, exact);
    Estimate(h, u, w, d, d1, d0, q, r, exact);
    TestInRange(h, w, d0, q, r);
    while q >= h || Wrap(q * d0) > Wrap(h * r + w)
      invariant q < h ==> Wrap(q * d0) == q * d0 && Wrap(h * r + w) == h * r + w
      invariant Candidate(h, u, w, d1, d0, exact, q, r)
      invariant r < h
      invariant more == 0 || (more == 1 && r >= d1 && q <= h)
      decreases q
    {
      CandidateDown(h, u, w, d1, d0, exact, q, r);
      q := q - 1;
      r := r + d1;
      more := more + 1;
      if r >= h {
        CandidateExact(h, u, w, d1, d0, exact, q, r);
        return;
      }
      TestInRange(h, w, d0, q, r);
    }
    CandidateExact(h, u, w, d1, d0, exact, q, r);
  }

  lemma LeadingHalf(d: int, h: int)
    requires h > 0 && h % 2 == 0 && h * h / 2 <= d < h * h
    ensures h / 2 <= d / h < h
  {
    DivBounds(d, h, h);
    DivModProps(d, h);
    var k := h / 2;
    assert h * h == 2 * (k * h) by { MulAssoc(2, k, h); }
    if d / h < k {
      MulMono(h, d / h + 1, k);
      MulDist(h, d / h, 1);
      MulComm(h, d / h);
      MulComm(h, k);
    }
  }

  lemma ExactDigit(h: int, u: int, w: int, d: int, q: int)
    requires h > 0 && 0 <= u < d && 0 <= w < h && q == (u * h + w) / d
    ensures IsDigit(h, u, w, d, q) && 0 <= q < h
  {
    MulNonneg(u, h);
    DivModProps(u * h + w, d);
    MulDist(d, q, 1);
    MulComm(d, q);
    MulComm(d, q + 1);
    DigitFits(h, u, w, d, q);
  }

  /** The first estimate is never below the digit, and at most h + 1. */
  lemma Estimate(h: int, u: int, w: int, d: int, d1: int, d0: int, q: int, r: int, exact: int)
    requires h >= 4 && h <= 2 * d1 && d == d1 * h + d0 && 0 <= d0 < h && 0 <= u < d && 0 <= w < h
    requires u == q * d1 + r && 0 <= r < d1
    requires IsDigit(h, u, w, d, exact)
    ensures exact <= q <= h + 1
  {
    if exact > q {
      MulMono(d1, q + 1, exact);
      MulDist(d1, q, 1);
      MulComm(d1, q);
      MulComm(d1, exact);
      assert exact * d1 >= u + 1;
      MulMono(h, u + 1, exact * d1);
      MulDist(h, u, 1);
      MulComm(h, u);
      assert exact * d == h * (exact * d1) + exact * d0 by {
        MulDist(exact, d1 * h, d0);
        MulAssoc(exact, d1, h);
        MulComm(h, exact * d1);
      }
      MulNonneg(exact, d0);
    }
    if q >= h + 2 {
      MulMono(d1, h + 2, q);
      MulDist(d1, h, 2);
      MulComm(d1, h);
      MulComm(d1, q);
    }
  }

  lemma Overshoot(h: int, u: int, w: int, d: int, q: int, exact: int)
    requires IsDigit(h, u, w, d, exact) && exact < h && d > 0 && exact <= q
    requires q >= h || q * d > u * h + w
    ensures exact <= q - 1
  {
  }

  lemma BreakIsSmall(h: int, w: int, d0: int, q: int, r: int)
    requires h > 0 && 0 <= d0 < h && 0 <= q <= h && r >= h && w >= 0
    ensures !(q * d0 > h * r + w)
  {
    MulMono(q, d0, h);
    MulMono(h, q, r);
    MulComm(q, h);
  }

  lemma AtMost(h: int, u: int, w: int, d: int, q: int, exact: int)
    requires IsDigit(h, u, w, d, exact) && d > 0 && exact <= q && q * d <= u * h + w
    ensures q == exact
  {
    MulComm(q, d);
    MulComm(exact + 1, d);
    MulCancelLt(d, q, exact + 1);
  }

  /** The half-limb path. */
  method DivHalves(u1: Limb, u0: Limb, d: Limb) returns (quotient: Limb, r: Limb)
    ensures d == 0 || u1 >= d ==> quotient == r == Base() - 1
    ensures u1 < d ==> quotient == (u1 * Base() + u0) / d && r == (u1 * Base() + u0) % d
  {
    hide Pow;
    if d == 0 || u1 >= d {
      return Base() - 1, Base() - 1;
    }
    var h := Half();
    var s := Clz(d);
    ghost var S := Pow(2, s);
    PowPos(2, s);
    NormalisedDivisor(d, s);
    var dn := d * Pow(2, s) % Base();
    DivModUnique(d * S, Base(), 0, d * S);
    NormalisedDividend(u1, u0, d, s);
    var v1: Limb := Or(u1 * Pow(2, s) % Base(), Carried(u0, s));
    var v0: Limb := u0 * Pow(2, s) % Base();
    assert v1 * Base() + v0 == (u1 * Base() + u0) * S && v1 < dn;
    var msw, lsw := v0 / h, v0 % h;
    DivModProps(v0, h);
    DivBounds(v0, h, h);
    var q1, _ := CorrectedDigit(v1, msw, dn);
    var rax := Wrap(Wrap(v1 * h) + Wrap(msw - Wrap(q1 * dn)));
    FirstRemainder(v1, h, msw, q1, dn);
    var q0, _ := CorrectedDigit(rax, lsw, dn);
    var rem := Wrap(Wrap(Wrap(rax * h) + lsw) - Wrap(q0 * dn));
    SecondRemainder(rax, h, lsw, q0, dn);
    MulMono(h, q1, h - 1);
    MulDist(h, h, 1);
    MulComm(h, q1);
    MulNonneg(q1, h);
    TwoSteps((u1 * Base() + u0) * S, dn, v1, h, msw, lsw, q1, q0, rax, rem);
    MulNonneg(u1, Base());
    UndoShift(u1 * Base() + u0, d, S, q1 * h + q0, rem);
    r := rem / Pow(2, s);
    quotient := q1 * h + q0;
  }

  lemma NormalisedDivisor(d: Limb, s: nat)
    requires d > 0 && s <= BIL && BitLen(d) == BIL - s
    ensures Base() / 2 <= d * Pow(2, s) < Base()
  {
    hide Pow;
    BitLenBounds(d);
    PowPos(2, s);
    BaseSplit(s);
    MulStrictLeft(d, Pow(2, BIL - s), Pow(2, s));
    MulComm(Pow(2, BIL - s), Pow(2, s));
    MulMono(Pow(2, s), Pow(2, BIL - s - 1), d);
    MulComm(Pow(2, s), d);
    PowAdd(2, s, BIL - s - 1);
    PowStep(2, BIL - 1);
  }

  /** The bits of u0 that the normalising shift moves into the upper limb. */
  function Carried(u0: Limb, s: nat): (m: int)
    requires s <= BIL
    ensures 0 <= m < Pow(2, s)
  {
    PowPos(2, s);
    PowPos(2, BIL - s);
    BaseSplit(s);
    ShiftSplit(u0, Pow(2, s), Pow(2, BIL - s));
    if s == 0 then 0 else u0 / Pow(2, BIL - s)
  }

  lemma CarriedIs(u0: Limb, s: nat)
    requires s <= BIL
    ensures Pow(2, s) > 0 && u0 * Pow(2, s) >= 0
    ensures u0 * Pow(2, s) == Carried(u0, s) * Base() + u0 * Pow(2, s) % Base()
  {
    PowPos(2, s);
    PowPos(2, BIL - s);
    BaseSplit(s);
    ShiftSplit(u0, Pow(2, s), Pow(2, BIL - s));
    if s == 0 {
      PowStep(2, 0);
      DivModUnique(u0, Base(), 0, u0);
    }
  }

  lemma NormalisedDividend(u1: Limb, u0: Limb, d: Limb, s: nat)
    requires u1 < d && s <= BIL && d * Pow(2, s) < Base()
    ensures u1 * Pow(2, s) >= 0 && u0 * Pow(2, s) >= 0
    ensures var v1 := Or(u1 * Pow(2, s) % Base(), Carried(u0, s));
      v1 * Base() + u0 * Pow(2, s) % Base() == (u1 * Base() + u0) * Pow(2, s)
      && 0 <= v1 < d * Pow(2, s) && v1 < Base()
  {
    hide Pow;
    var S := Pow(2, s);
    CarriedIs(u0, s);
    MulNonneg(u1, S);
    MulMono(S, u1 + 1, d);
    MulDist(S, u1, 1);
    MulComm(S, u1);
    MulComm(S, d);
    DivModUnique(u1 * S, Base(), 0, u1 * S);
    OrDisjoint(u1, Carried(u0, s), s);
    Scaled(u1, u0, S, Carried(u0, s), Base());
  }

  lemma Scaled(u1: int, u0: int, S: int, mask: int, B: int)
    ensures (u1 * B + u0) * S == (u1 * S) * B + u0 * S
    ensures (u1 * S + mask) * B == (u1 * S) * B + mask * B
  {
    assert (u1 * B + u0) * S == (u1 * B) * S + u0 * S;
    MulAssoc(u1, B, S);
    MulComm(B, S);
    MulAssoc(u1, S, B);
  }

  lemma FirstRemainder(v1: int, h: int, w: int, q: int, d: int)
    requires 0 <= d < Base() && IsDigit(h, v1, w, d, q)
    ensures Wrap(Wrap(v1 * h) + Wrap(w - Wrap(q * d))) == v1 * h + w - q * d
    ensures 0 <= v1 * h + w - q * d < d
  {
    var B := Base();
    CongRefl(w, B);
    CongAdd(w, w, Wrap(q * d), q * d, B);
    CongTrans(Wrap(w - Wrap(q * d)), w - Wrap(q * d), w - q * d, B);
    CongAdd(Wrap(v1 * h), v1 * h, Wrap(w - Wrap(q * d)), w - q * d, B);
    MulComm(q + 1, d);
    MulDist(d, q, 1);
    MulComm(q, d);
    WrapExact(Wrap(v1 * h) + Wrap(w - Wrap(q * d)), v1 * h + w - q * d);
  }

  lemma SecondRemainder(v1: int, h: int, w: int, q: int, d: int)
    requires 0 <= d < Base() && IsDigit(h, v1, w, d, q)
    ensures Wrap(Wrap(Wrap(v1 * h) + w) - Wrap(q * d)) == v1 * h + w - q * d
    ensures 0 <= v1 * h + w - q * d < d
  {
    var B := Base();
    CongRefl(w, B);
    CongAdd(Wrap(v1 * h), v1 * h, w, w, B);
    CongTrans(Wrap(Wrap(v1 * h) + w), Wrap(v1 * h) + w, v1 * h + w, B);
    CongAdd(Wrap(Wrap(v1 * h) + w), v1 * h + w, Wrap(q * d), q * d, B);
    MulComm(q + 1, d);
    MulDist(d, q, 1);
    MulComm(q, d);
    WrapExact(Wrap(Wrap(v1 * h) + w) - Wrap(q * d), v1 * h + w - q * d);
  }

  /** The two half-limb steps together divide the normalised dividend. */
  lemma TwoSteps(V: int, D: int, v1: int, h: int, msw: int, lsw: int, q1: int, q0: int, rax: int, rem: int)
    requires V == v1 * (h * h) + (msw * h + lsw)
    requires rax == v1 * h + msw - q1 * D
    requires rem == rax * h + lsw - q0 * D
    ensures V == (q1 * h + q0) * D + rem
  {
    assert rax * h == (v1 * h) * h + msw * h - (q1 * D) * h by {
      MulComm(rax, h);
      MulDist(h, v1 * h + msw, q1 * D);
      MulDist(h, v1 * h, msw);
      MulComm(h, v1 * h);
      MulComm(h, msw);
      MulComm(h, q1 * D);
    }
    MulAssoc(v1, h, h);
    assert (q1 * D) * h == (q1 * h) * D by { MulAssoc(q1, D, h); MulComm(D, h); MulAssoc(q1, h, D); }
    assert (q1 * h + q0) * D == (q1 * h) * D + q0 * D by {
      MulComm(q1 * h + q0, D);
      MulDist(D, q1 * h, q0);
      MulComm(D, q1 * h);
      MulComm(D, q0);
    }
  }

  /** Undoing the shift gives the quotient and remainder of the original dividend. */
  lemma UndoShift(U: int, d: int, S: int, q: int, rem: int)
    requires S > 0 && d > 0 && U >= 0
    requires U * S == q * (d * S) + rem && 0 <= rem < d * S
    ensures q == U / d && rem / S == U % d
  {
    var t := U - q * d;
    assert rem == t * S by {
      MulAssoc(q, d, S);
      MulComm(t, S);
      MulDist(S, U, q * d);
      MulComm(S, U);
      MulComm(S, q * d);
    }
    MulComm(t, S);
    MulComm(d, S);
    if t < 0 { MulMono(S, t, -1); }
    MulCancelLt(S, t, d);
    DivModUnique(U, d, q, t);
    DivModUnique(rem, S, t, 0);
  }

  /** The path for platforms with a double-width type. */
  method DivDouble(u1: Limb, u0: Limb, d: Limb) returns (quotient: Limb, r: Limb)
    ensures d == 0 || u1 >= d ==> quotient == r == Base() - 1
    ensures u1 < d ==> quotient == (u1 * Base() + u0) / d && r == (u1 * Base() + u0) % d
  {
    if d == 0 || u1 >= d {
      return Base() - 1, Base() - 1;
    }
    var dividend := u1 * Base() + u0;
    MulNonneg(u1, Base());
    DivModProps(dividend, d);
    assert dividend < d * Base() by {
      MulMono(Base(), u1 + 1, d);
      MulDist(Base(), u1, 1);
      MulComm(Base(), u1);
      MulComm(Base(), d);
    }
    DivBounds(dividend, d, Base());
    var q := dividend / d;
    if q > Base() - 1 { q := Base() - 1; }
    r := dividend - q * d;
    quotient := q;
  }
}
