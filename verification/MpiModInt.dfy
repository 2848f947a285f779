/** Remainder by a machine word, two half limbs at a time. */
module MpiModInt {
  import opened Numbers
  import opened Bits
  import opened Digits
  import opened Mpis
  import opened MpiAdd
  import opened IntDiv
  import ExpMod

  /** One half-limb step as the machine computes it: shift in h and reduce. */
  function Shifted(y: Limb, h: int): (r: int)
    requires 0 <= h < Half()
    ensures r >= 0
  {
    Or(Wrap(y * Half()), h)
  }

  /** No bits are lost while the partial remainder fits in half a limb. */
  lemma ShiftedExact(y: Limb, h: int)
    requires 0 <= h < Half() && y < Half()
    ensures Shifted(y, h) == y * Half() + h < Base()
  {
    hide Pow, Or;
    var H := Half();
    MulMono(H, y, H - 1);
    MulDist(H, H, 1);
    MulComm(H, y);
    MulNonneg(y, H);
    CongRefl(y * H, Base());
    WrapExact(y * H, y * H);
    OrDisjoint(y, h, BIH);
  }

  /** Appending a digit commutes with taking remainders. */
  lemma RemainderStep(v: int, y: int, h: int, H: int, b: int)
    requires b > 0 && Cong(y, v, b)
    ensures Cong((y * H + h) % b, v * H + h, b)
  {
    hide Cong;
    CongScale(y, v, H, b);
    CongRefl(h, b);
    CongAdd(y * H, v * H, h, h, b);
    CongMod(y * H + h, b);
    CongSym(y * H + h, (y * H + h) % b, b);
    CongTrans((y * H + h) % b, y * H + h, v * H + h, b);
  }

  /** A limb is its two halves, and shifting it left by half a limb leaves the lower one. */
  lemma LimbHalves(x: Limb)
    ensures x == (x / Half()) * Half() + x % Half() && 0 <= x / Half() < Half()
    ensures x * Half() >= 0 && x * Half() % Base() / Half() == x % Half()
  {
    hide Pow;
    var H := Half();
    DivModProps(x, H);
    DivBounds(x, H, H);
    ShiftSplit(x, H, H);
    DivModUnique(x % H * H, H, x % H, 0);
  }

  /** Divisors for which shifting in a half limb loses nothing that matters: small ones, and powers of two. */
  predicate Exact(b: int)
    requires b > 0
  {
    b <= Half() || Base() % b == 0
  }

  /** Shifting in h is appending a digit, as far as remainders by an exact divisor go. */
  lemma ShiftedCong(y: Limb, h: int, b: int)
    requires b > 0 && 0 <= h < Half() && y < b && Exact(b)
    ensures Cong(Shifted(y, h), y * Half() + h, b)
  {
    hide Pow, Or, Cong, Wrap;
    if b <= Half() {
      ShiftedExact(y, h);
      CongRefl(y * Half() + h, b);
    } else {
      ShiftedLow(y, h);
      WrapCong(y * Half(), b);
      CongRefl(h, b);
      CongAdd(Wrap(y * Half()), y * Half(), h, h, b);
    }
  }

  /** Reducing modulo the base first does not change the remainder by a divisor of the base. */
  lemma WrapCong(x: int, b: int)
    requires b > 0 && Base() % b == 0
    ensures Cong(Wrap(x), x, b)
  {
    hide Pow;
    DivModProps(x, Base());
    DivModProps(Base(), b);
    MulAssoc(x / Base(), Base() / b, b);
    CongIntro(Wrap(x), x, b, -(x / Base() * (Base() / b)));
    MulSigns(x / Base() * (Base() / b), b);
  }

  /** The wrapped product is a multiple of half the base, so that or-ing adds. */
  lemma ShiftedLow(y: Limb, h: int)
    requires 0 <= h < Half()
    ensures Shifted(y, h) == Wrap(y * Half()) + h
  {
    hide Pow, Or;
    var H := Half();
    ShiftSplit(y, H, H);
    DivModProps(y, H);
    OrDisjoint(y % H, h, BIH);
  }

  /** What the two half steps of one limb make of a partial remainder. */
  function Stepped(y: Limb, x: Limb, b: Sint): (r: Limb)
    requires b > 0
    ensures r < b
  {
    LimbHalves(x);
    StepRange(Shifted(y, x / Half()), b);
    Shifted(Shifted(y, x / Half()) % b, x * Half() % Base() / Half()) % b
  }

  lemma StepRange(t: int, b: Sint)
    requires b > 0
    ensures 0 <= t % b < Base()
  {
  }

  /** What the loop computes: limbs from the top down. */
  function Reduced(p: seq<Limb>, b: Sint): (r: Limb)
    requires b > 0
    ensures r < b
  {
    if p == [] then 0 else Stepped(Reduced(p[1..], b), p[0], b)
  }

  lemma SteppedCong(y: Limb, x: Limb, b: Sint, v: int)
    requires b > 0 && y < b && Exact(b) && Cong(y, v, b)
    ensures Cong(Stepped(y, x, b), x + Base() * v, b)
  {
    hide Pow, Or, Cong, Exact, Shifted;
    var H := Half();
    LimbHalves(x);
    var t := Shifted(y, x / H);
    HalfStep(y, x / H, b, v);
    StepRange(t, b);
    HalfStep(t % b, x % H, b, v * H + x / H);
    TwoHalves(x, v, H);
  }

  lemma HalfStep(y: Limb, h: int, b: Sint, v: int)
    requires b > 0 && y < b && 0 <= h < Half() && Exact(b) && Cong(y, v, b)
    ensures Cong(Shifted(y, h) % b, v * Half() + h, b)
  {
    hide Pow, Or, Cong, Exact, Shifted;
    ShiftedCong(y, h, b);
    RemainderStep(v, y, h, Half(), b);
    var t, u := Shifted(y, h), y * Half() + h;
    CongMod(t, b);
    CongMod(u, b);
    CongSym(t, t % b, b);
    CongTrans(t % b, t, u, b);
    CongTrans(t % b, u, u % b, b);
    CongTrans(t % b, u % b, v * Half() + h, b);
  }

  lemma {:induction false} ReducedIs(p: seq<Limb>, b: Sint)
    requires b > 0 && Exact(b)
    ensures Reduced(p, b) == Val(p) % b
  {
    hide Pow, Eval, Cong, Exact, Stepped;
    if p == [] {
      ValEmpty();
    } else {
      ReducedIs(p[1..], b);
      CongMod(Val(p[1..]), b);
      CongSym(Val(p[1..]), Val(p[1..]) % b, b);
      SteppedCong(Reduced(p[1..], b), p[0], b, Val(p[1..]));
      EvalCons(Base(), p);
      CongIsMod(Val(p), Reduced(p, b), b);
    }
  }

  /** The limb of one half base turns into itself, and that into nothing. */
  lemma StepsOfHalf(b: Sint)
    requires b > Half()
    ensures Stepped(0, Half(), b) == Half() && Stepped(Half(), 0, b) == 0
  {
    var H := Half();
    ShiftedExact(0, 1);
    ShiftedExact(1, 0);
    ShiftedExact(0, 0);
    ShiftedLow(H, 0);
    hide Pow, Shifted;
    DivModUnique(H, H, 1, 0);
    DivModUnique(0, H, 0, 0);
    DivModUnique(1, b, 0, 1);
    DivModUnique(H, b, 0, H);
    DivModUnique(0, b, 0, 0);
    DivModUnique(H * H, Base(), 1, 0);
    DivModUnique(0, Base(), 0, 0);
    assert Wrap(H * H) == 0;
  }

  /** For any other divisor the routine loses the carry of this number, and returns zero. */
  lemma LostCarry(b: Sint)
    requires b > 0 && !Exact(b)
    ensures Reduced([0, Half()], b) == 0 && Val([0, Half()]) % b != 0
  {
    NotDividing(b);
    StepsOfHalf(b);
    hide Pow, Eval, Stepped;
    var H := Half();
    assert [0, H][1..] == [H] && [H][1..] == [];
    assert Reduced([H], b) == Stepped(Reduced([], b), H, b);
    EvalCons(Base(), [0, H]);
    EvalOne(Base(), H);
    assert Val([0, H]) == Base() * H;
  }

  lemma NotDividing(b: Sint)
    requires b > 0 && !Exact(b)
    ensures Base() * Half() % b != 0
  {
    hide Pow;
    if Base() * Half() % b == 0 {
      PowAdd(2, BIL, BIH);
      DivModProps(Base() * Half(), b);
      PowerDivisor(b, BIL + BIH, BIL);
    }
  }

  /** A divisor of a power of two divides every power of two that is as large as it. */
  lemma {:induction false} PowerDivisor(b: int, k: nat, j: nat)
    requires b > 0 && Pow(2, k) % b == 0 && b <= Pow(2, j)
    ensures Pow(2, j) % b == 0
  {
    hide Pow;
    DivModProps(Pow(2, k), b);
    var m := Pow(2, k) / b;
    if k <= j {
      PowAdd(2, k, j - k);
      MulAssoc(Pow(2, j - k), m, b);
      MulComm(Pow(2, k), Pow(2, j - k));
      DivModUnique(Pow(2, j), b, Pow(2, j - k) * m, 0);
    } else {
      PowStep(2, k - 1);
      if b % 2 == 1 {
        OddFactor(m, b, Pow(2, k - 1));
        DivModUnique(Pow(2, k - 1), b, m / 2, 0);
        PowerDivisor(b, k - 1, j);
      } else {
        PowStep(2, 0);
        if j > 0 {
          PowStep(2, j - 1);
          EvenFactor(m, b, Pow(2, k - 1));
          DivModUnique(Pow(2, k - 1), b / 2, m, 0);
          PowerDivisor(b / 2, k - 1, j - 1);
          DivModProps(Pow(2, j - 1), b / 2);
          DoubleBoth(Pow(2, j - 1) / (b / 2), b, Pow(2, j - 1));
          DivModUnique(Pow(2, j), b, Pow(2, j - 1) / (b / 2), 0);
        }
      }
    }
  }

  lemma OddFactor(m: int, b: int, x: int)
    requires m * b == 2 * x && b % 2 == 1
    ensures x == m / 2 * b
  {
    var h := b / 2;
    MulDist(m, 2 * h, 1);
    MulAssoc(m, 2, h);
    MulComm(m, 2);
    MulAssoc(2, m, h);
    assert m == 2 * (x - m * h);
    MulAssoc(2, m / 2, b);
  }

  lemma EvenFactor(m: int, b: int, x: int)
    requires m * b == 2 * x && b % 2 == 0
    ensures x == m * (b / 2)
  {
    assert m * b == 2 * (m * (b / 2)) by { MulDist(m, b / 2, b / 2); }
  }

  lemma DoubleBoth(q: int, b: int, x: int)
    requires x == q * (b / 2) && b % 2 == 0
    ensures 2 * x == q * b
  {
    MulDist(q, b / 2, b / 2);
  }

  /** The routine is right about every number exactly for the divisors up to half a limb and the powers of two. */
  lemma RightExactly(b: Sint)
    requires b > 0
    ensures (forall p: seq<Limb> :: Reduced(p, b) == Val(p) % b) <==> Exact(b)
  {
    hide Reduced, Exact, Eval, Pow;
    if Exact(b) {
      forall p: seq<Limb> ensures Reduced(p, b) == Val(p) % b { ReducedIs(p, b); }
    } else {
      LostCarry(b);
    }
  }

  /** Both half steps of one limb. */
  method LimbStep(y0: Limb, x: Limb, b: Sint) returns (y: Limb)
    requires b > 0
    ensures y == Stepped(y0, x, b)
  {
    hide Pow, Or, Shifted;
    var H := Half();
    LimbHalves(x);
    var t := Shifted(y0, x / H);
    var z := t / b;
    DivModProps(t, b);
    y := t - z * b;
    var x1 := x * H % Base();
    t := Shifted(y, x1 / H);
    z := t / b;
    DivModProps(t, b);
    y := t - z * b;
  }

  lemma TwoHalves(x: int, v: int, H: int)
    requires H > 0 && H * H == Base() && x == (x / H) * H + x % H
    ensures (v * H + x / H) * H + x % H == x + Base() * v
  {
    MulComm(v * H + x / H, H);
    MulDist(H, v * H, x / H);
    MulComm(H, x / H);
    MulComm(v, H);
    MulAssoc(H, H, v);
  }

  /** r = A mod b for an exact divisor b; for the others the negated or plain result of the loop. */
  method ModInt(A: Mpi, b: Sint) returns (ret: Status, r: Limb)
    requires b == 2 ==> |A.p| > 0
    ensures ret == if b == 0 then DivisionByZero else if b < 0 then NegativeValue else Ok
    ensures b > 0 && Exact(b) ==> r == A.Value() % b
    ensures b > 2 ==> r == if A.s < 0 && Reduced(A.p, b) != 0 then b - Reduced(A.p, b) else Reduced(A.p, b)
  {
    hide Pow, Eval, Cong, Exact;
    if b == 0 { return DivisionByZero, 0; }
    if b < 0 { return NegativeValue, 0; }
    if b == 1 { return Ok, 0; }
    if b == 2 {
      ExpMod.Parity(A.p);
      return Ok, A.p[0] % 2;
    }
    hide Stepped;
    var i := |A.p|;
    var y: Limb := 0;
    assert A.p[i..] == [];
    while i > 0
      invariant 0 <= i <= |A.p| && y == Reduced(A.p[i..], b)
    {
      assert A.p[i - 1..][1..] == A.p[i..];
      y := LimbStep(y, A.p[i - 1], b);
      i := i - 1;
    }
    assert A.p[0..] == A.p;
    if Exact(b) {
      ReducedIs(A.p, b);
      NegativeRemainder(Val(A.p), b, y);
    }
    if A.s < 0 && y != 0 {
      y := b - y;
    }
    return Ok, y;
  }

  lemma NegativeRemainder(v: int, b: int, y: int)
    requires b > 0 && y == v % b
    ensures (-v) % b == if y == 0 then 0 else b - y
  {
    DivModProps(v, b);
    MulSigns(v / b, b);
    if y == 0 {
      DivModUnique(-v, b, -(v / b), 0);
    } else {
      assert (-(v / b) - 1) * b == -((v / b) * b) - b;
      DivModUnique(-v, b, -(v / b) - 1, b - y);
    }
  }
}
