/** Multi-precision integers: a sign and a little-endian buffer of limbs. */
module Mpis {
  import opened Numbers
  import opened Digits

  // ------------------------------------------------------------- limbs

  /** Bytes in a limb; the library is built for 32-bit and for 64-bit limbs. */
  type LimbBytes = n: nat | n == 4 || n == 8 witness 4

  const CIL: LimbBytes
  const BIL: nat := 8 * CIL
  const BIH: nat := 4 * CIL

  /** One more than the largest limb. */
  function Base(): (b: int)
    ensures b == Pow(2, BIL) && b >= 0x1_0000
  {
    PowMono(2, 16, BIL);
    Pow16();
    Pow(2, BIL)
  }

  lemma Pow16()
    ensures Pow(2, 16) == 0x1_0000
  {
    PowAdd(2, 8, 8);
    assert Pow(2, 8) == 256;
  }

  type Limb = x: int | 0 <= x < Base() witness 0

  /** Unsigned addition and subtraction of limbs wrap around. */
  function WrapAdd(x: Limb, y: Limb): Limb {
    if x + y < Base() then x + y else x + y - Base()
  }

  function WrapSub(x: Limb, y: Limb): Limb {
    if x >= y then x - y else x - y + Base()
  }

  /** The magnitude a limb buffer stands for. */
  ghost function Val(p: seq<Limb>): (v: int)
    ensures 0 <= v < Pow(Base(), |p|)
  {
    EvalBound(Base(), p);
    Eval(Base(), p)
  }

  lemma ZeroSig(p: seq<Limb>)
    ensures SigLen(p) == 0 <==> Val(p) == 0
  {
    SigBounds(Base(), p);
  }

  lemma LongerIsLarger(x: seq<Limb>, y: seq<Limb>)
    requires SigLen(x) < SigLen(y)
    ensures Val(x) < Val(y)
  {
    SigLenLess(Base(), x, y);
  }

  type Sign = s: int | s == 1 || s == -1 witness 1

  /** A signed machine word. */
  type Sint = z: int | -(Base() / 2) <= z < Base() / 2 witness 0

  function Sgn(x: int): int {
    if x > 0 then 1 else if x < 0 then -1 else 0
  }

  function Abs(x: int): nat {
    if x < 0 then -x else x
  }

  function Max(x: nat, y: nat): nat {
    if x > y then x else y
  }

  function Zeros(n: nat): (z: seq<Limb>)
    ensures |z| == n && forall i :: 0 <= i < n ==> z[i] == 0
  {
    seq(n, i => 0)
  }

  lemma ValZeros(n: nat)
    ensures Val(Zeros(n)) == 0
  {
    EvalZeros(Base(), Zeros(n));
  }

  lemma ValEmpty()
    ensures Val([]) == 0
  {
  }

  lemma ValOne(x: Limb)
    ensures Val([x]) == x
  {
    EvalOne(Base(), x);
  }

  lemma ValPadded(x: Limb, n: nat)
    ensures Val([x] + Zeros(n)) == x
  {
    hide Pow, Eval;
    EvalPad(Base(), [x], Zeros(n));
    EvalOne(Base(), x);
  }

  /** Significant limbs, but at least one of a nonempty buffer. */
  function KeptLen(p: seq<Limb>): (n: nat)
    ensures n <= |p|
  {
    if |p| == 0 then 0 else Max(1, SigLen(p))
  }

  // ----------------------------------------------------------- the object

  class Mpi {
    var s: Sign
    var p: seq<Limb>

    constructor ()
      ensures s == 1 && p == []
    {
      s, p := 1, [];
    }

    constructor OfInt(z: Sint)
      ensures |p| == 1 && Val(p) == Abs(z) && s == (if z < 0 then -1 else 1) && Value() == z
    {
      s := if z < 0 then -1 else 1;
      p := [Abs(z)];
      ValOne(Abs(z));
    }

    ghost function Value(): int
      reads this
    {
      if s == 1 then Val(p) else -Val(p)
    }
  }

  // ------------------------------------------------ size, assignment

  method Grow(X: Mpi, n: nat)
    modifies X
    ensures X.p == old(X.p) + Zeros(Max(n, |old(X.p)|) - |old(X.p)|)
    ensures |X.p| == Max(n, |old(X.p)|) && X.s == old(X.s)
    ensures Val(X.p) == Val(old(X.p)) && X.Value() == old(X.Value())
  {
    hide Pow, Eval;
    EvalPad(Base(), X.p, Zeros(Max(n, |X.p|) - |X.p|));
    if |X.p| < n {
      X.p := X.p + Zeros(n - |X.p|);
    }
  }

  /** Index one past the top nonzero limb, scanning down as every routine here does. */
  method TopLimb(p: seq<Limb>) returns (n: nat)
    ensures n == SigLen(p)
  {
    n := |p|;
    while n > 0 && p[n - 1] == 0
      invariant n <= |p|
      invariant forall i :: n <= i < |p| ==> p[i] == 0
    {
      n := n - 1;
    }
    SigLenUnique(p, n);
  }

  /** Resize down, keeping at least n limbs and every significant one. */
  method Shrink(X: Mpi, n: nat)
    modifies X
    ensures |X.p| == (if |old(X.p)| <= n then n else Max(n, KeptLen(old(X.p))))
    ensures X.s == old(X.s) && Val(X.p) == Val(old(X.p))
  {
    if |X.p| <= n {
      Grow(X, n);
      return;
    }
    var i := TopLimb(X.p);
    i := Max(n, Max(1, i));
    EvalSig(Base(), X.p, i);
    X.p := X.p[..i];
  }

  method Copy(X: Mpi, Y: Mpi)
    modifies X
    ensures Val(X.p) == Val(old(Y.p)) && X.Value() == old(Y.Value())
    ensures |old(Y.p)| > 0 || X == Y ==> X.s == old(Y.s)
    ensures |old(Y.p)| == 0 && X != Y ==> X.s == 1
    ensures |X.p| == (if X == Y then |old(X.p)|
                      else if |Y.p| == 0 then 0
                      else Max(|old(X.p)|, KeptLen(Y.p)))
  {
    hide Pow, Eval;
    if X == Y { return; }
    if |Y.p| == 0 {
      X.s, X.p := 1, [];
      ValEmpty();
      return;
    }
    var i := TopLimb(Y.p);
    i := Max(1, i);
    X.s := Y.s;
    EvalSig(Base(), Y.p, i);
    var n := Max(i, |X.p|) - i;
    EvalPad(Base(), Y.p[..i], Zeros(n));
    if |X.p| < i {
      Grow(X, i);
      X.p := Y.p[..i];
      assert Zeros(n) == [];
      assert Y.p[..i] + Zeros(n) == X.p;
    } else {
      X.p := Y.p[..i] + Zeros(n);
    }
  }

  method Swap(X: Mpi, Y: Mpi)
    modifies X, Y
    ensures X.s == old(Y.s) && X.p == old(Y.p)
    ensures Y.s == old(X.s) && Y.p == old(X.p)
  {
    var s, p := X.s, X.p;
    X.s, X.p := Y.s, Y.p;
    Y.s, Y.p := s, p;
  }

  method Lset(X: Mpi, z: Sint)
    modifies X
    ensures |X.p| == Max(1, |old(X.p)|)
    ensures X.p == [Abs(z)] + Zeros(|X.p| - 1)
    ensures X.s == (if z < 0 then -1 else 1) && X.Value() == z && Val(X.p) == Abs(z)
  {
    hide Pow, Eval;
    Grow(X, 1);
    X.p := Zeros(|X.p|);
    X.p := X.p[0 := Abs(z)];
    X.s := if z < 0 then -1 else 1;
    assert X.p == [Abs(z)] + Zeros(|X.p| - 1);
    ValPadded(Abs(z), |X.p| - 1);
  }

  // ---------------------------------------------------------- comparison

  /** Compares the significant limbs from the top; the result is signed by the caller. */
  method CmpLimbs(x: seq<Limb>, y: seq<Limb>, n: nat) returns (r: int)
    requires SigLen(x) == SigLen(y) == n
    ensures r == Sgn(Val(x) - Val(y))
  {
    EvalSig(Base(), x, n);
    EvalSig(Base(), y, n);
    var i := n;
    while i > 0
      invariant 0 <= i <= n
      invariant x[i..n] == y[i..n]
    {
      assert x[..n][i..] == x[i..n] && y[..n][i..] == y[i..n];
      if x[i - 1] > y[i - 1] {
        EvalCompare(Base(), y[..n], x[..n], i - 1);
        return 1;
      }
      if x[i - 1] < y[i - 1] {
        EvalCompare(Base(), x[..n], y[..n], i - 1);
        return -1;
      }
      assert x[i - 1..n] == [x[i - 1]] + x[i..n] && y[i - 1..n] == [y[i - 1]] + y[i..n];
      i := i - 1;
    }
    assert x[..n] == x[0..n] && y[..n] == y[0..n];
    return 0;
  }

  method CmpAbs(X: Mpi, Y: Mpi) returns (r: int)
    ensures r == Sgn(Val(X.p) - Val(Y.p))
  {
    var i := TopLimb(X.p);
    var j := TopLimb(Y.p);
    if i == 0 && j == 0 {
      ZeroSig(X.p);
      ZeroSig(Y.p);
      return 0;
    }
    if i > j { LongerIsLarger(Y.p, X.p); return 1; }
    if j > i { LongerIsLarger(X.p, Y.p); return -1; }
    r := CmpLimbs(X.p, Y.p, i);
  }

  method CmpMpi(X: Mpi, Y: Mpi) returns (r: int)
    ensures r == Sgn(X.Value() - Y.Value())
  {
    var xs: int, ys: int := X.s, Y.s;
    var i := TopLimb(X.p);
    var j := TopLimb(Y.p);
    ZeroSig(X.p);
    ZeroSig(Y.p);
    if i == 0 && j == 0 { return 0; }
    if i > j { LongerIsLarger(Y.p, X.p); return xs; }
    if j > i { LongerIsLarger(X.p, Y.p); return -ys; }
    if xs > 0 && ys < 0 { return 1; }
    if ys > 0 && xs < 0 { return -1; }
    var c := CmpLimbs(X.p, Y.p, i);
    return if c > 0 then xs else if c < 0 then -xs else 0;
  }

  method CmpInt(X: Mpi, z: Sint) returns (r: int)
    ensures r == Sgn(X.Value() - z)
  {
    var Y := new Mpi.OfInt(z);
    r := CmpMpi(X, Y);
  }
}
