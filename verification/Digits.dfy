/** Positional notation, least significant digit first, over an arbitrary base. */
module Digits {
  import opened Numbers

  ghost predicate IsDigits(b: int, ds: seq<int>) {
    forall i :: 0 <= i < |ds| ==> 0 <= ds[i] < b
  }

  /** The integer a digit sequence stands for: sum of ds[i] * b^i. */
  function Eval(b: int, ds: seq<int>): int {
    if |ds| == 0 then 0 else Eval(b, ds[..|ds| - 1]) + ds[|ds| - 1] * Pow(b, |ds| - 1)
  }

  lemma EvalStep(b: int, ds: seq<int>, i: nat)
    requires i < |ds|
    ensures Eval(b, ds[..i + 1]) == Eval(b, ds[..i]) + ds[i] * Pow(b, i)
  {
    assert ds[..i + 1][..i] == ds[..i];
  }

  lemma {:induction false} EvalConcat(b: int, x: seq<int>, y: seq<int>)
    ensures Eval(b, x + y) == Eval(b, x) + Pow(b, |x|) * Eval(b, y)
  {
    if |y| == 0 {
      assert x + y == x;
    } else {
      var m, d := |y| - 1, y[|y| - 1];
      EvalConcat(b, x, y[..m]);
      assert (x + y)[..|x| + m] == x + y[..m];
      PowAdd(b, |x|, m);
      var P, E := Pow(b, |x|), Eval(b, y[..m]);
      MulDist(P, E, d * Pow(b, m));
      assert P * (d * Pow(b, m)) == d * (P * Pow(b, m)) by {
        MulAssoc(P, d, Pow(b, m));
        MulAssoc(d, P, Pow(b, m));
      }
    }
  }

  lemma EvalSplit(b: int, ds: seq<int>, i: nat)
    requires i <= |ds|
    ensures Eval(b, ds) == Eval(b, ds[..i]) + Pow(b, i) * Eval(b, ds[i..])
  {
    assert ds == ds[..i] + ds[i..];
    EvalConcat(b, ds[..i], ds[i..]);
  }

  lemma EvalOne(b: int, d: int)
    ensures Eval(b, [d]) == d
  {
    assert [d][..0] == [];
    assert Pow(b, 0) == 1;
  }

  lemma EvalCons(b: int, ds: seq<int>)
    requires |ds| > 0
    ensures Eval(b, ds) == ds[0] + b * Eval(b, ds[1..])
  {
    EvalSplit(b, ds, 1);
    assert ds[..1] == [ds[0]];
    EvalOne(b, ds[0]);
    assert Pow(b, 1) == b * Pow(b, 0) == b;
  }

  lemma {:induction false} EvalBound(b: int, ds: seq<int>)
    requires b >= 1 && IsDigits(b, ds)
    ensures 0 <= Eval(b, ds) < Pow(b, |ds|)
  {
    if |ds| > 0 {
      var m, d := |ds| - 1, ds[|ds| - 1];
      EvalBound(b, ds[..m]);
      PowPos(b, m);
      var P := Pow(b, m);
      MulNonneg(d, P);
      MulMono(P, d + 1, b);
      assert P * (d + 1) == d * P + P;
      assert Pow(b, |ds|) == b * P;
    }
  }

  lemma {:induction false} EvalZeros(b: int, ds: seq<int>)
    requires forall i :: 0 <= i < |ds| ==> ds[i] == 0
    ensures Eval(b, ds) == 0
  {
    if |ds| > 0 {
      EvalZeros(b, ds[..|ds| - 1]);
    }
  }

  /** Replacing one digit shifts the value by the weighted difference. */
  lemma {:induction false} EvalUpdate(b: int, ds: seq<int>, i: nat, v: int)
    requires i < |ds|
    ensures Eval(b, ds[i := v]) == Eval(b, ds) + (v - ds[i]) * Pow(b, i)
  {
    var m := |ds| - 1;
    if i == m {
      assert ds[i := v][..m] == ds[..m];
    } else {
      EvalUpdate(b, ds[..m], i, v);
      assert ds[i := v][..m] == ds[..m][i := v];
    }
  }

  /** Appending zero digits keeps the value. */
  lemma EvalPad(b: int, x: seq<int>, z: seq<int>)
    requires forall i :: 0 <= i < |z| ==> z[i] == 0
    ensures Eval(b, x + z) == Eval(b, x)
  {
    EvalConcat(b, x, z);
    EvalZeros(b, z);
  }

  /** Prefixing zero digits multiplies by a power of the base. */
  lemma EvalShift(b: int, z: seq<int>, x: seq<int>)
    requires forall i :: 0 <= i < |z| ==> z[i] == 0
    ensures Eval(b, z + x) == Pow(b, |z|) * Eval(b, x)
  {
    EvalConcat(b, z, x);
    EvalZeros(b, z);
  }

  // ------------------------------------------------- significant digits

  /** Number of digits up to and including the top nonzero one. */
  function SigLen(ds: seq<int>): (n: nat)
    ensures n <= |ds|
    ensures n > 0 ==> ds[n - 1] != 0
    ensures forall i :: n <= i < |ds| ==> ds[i] == 0
  {
    if |ds| == 0 then 0
    else if ds[|ds| - 1] != 0 then |ds|
    else SigLen(ds[..|ds| - 1])
  }

  lemma SigLenUnique(ds: seq<int>, n: nat)
    requires n <= |ds|
    requires n > 0 ==> ds[n - 1] != 0
    requires forall i :: n <= i < |ds| ==> ds[i] == 0
    ensures n == SigLen(ds)
  {
  }

  lemma EvalSig(b: int, ds: seq<int>, n: nat)
    requires SigLen(ds) <= n <= |ds|
    ensures Eval(b, ds) == Eval(b, ds[..n])
  {
    assert ds == ds[..n] + ds[n..];
    EvalPad(b, ds[..n], ds[n..]);
  }

  /** A nonzero digit at n - 1 makes the first n digits worth at least b^(n-1). */
  lemma TopDigitLower(b: int, ds: seq<int>, n: nat)
    requires b >= 1 && IsDigits(b, ds) && 0 < n <= |ds| && ds[n - 1] != 0
    ensures Pow(b, n - 1) <= Eval(b, ds[..n])
  {
    EvalStep(b, ds, n - 1);
    EvalBound(b, ds[..n - 1]);
    PowPos(b, n - 1);
    MulMono(Pow(b, n - 1), 1, ds[n - 1]);
    MulComm(Pow(b, n - 1), ds[n - 1]);
  }

  /** The significant length brackets the value between consecutive powers. */
  lemma SigBounds(b: int, ds: seq<int>)
    requires b >= 1 && IsDigits(b, ds)
    ensures Eval(b, ds) < Pow(b, SigLen(ds))
    ensures SigLen(ds) > 0 ==> Pow(b, SigLen(ds) - 1) <= Eval(b, ds)
    ensures SigLen(ds) == 0 <==> Eval(b, ds) == 0
  {
    var n := SigLen(ds);
    EvalSig(b, ds, n);
    EvalBound(b, ds[..n]);
    if n > 0 {
      TopDigitLower(b, ds, n);
      PowPos(b, n - 1);
    }
  }

  /** A longer significant part means a larger value. */
  lemma SigLenLess(b: int, x: seq<int>, y: seq<int>)
    requires b >= 1 && IsDigits(b, x) && IsDigits(b, y)
    requires SigLen(x) < SigLen(y)
    ensures Eval(b, x) < Eval(b, y)
  {
    SigBounds(b, x);
    SigBounds(b, y);
    PowMono(b, SigLen(x), SigLen(y) - 1);
  }

  /** A value below b^n has no nonzero digit at or above n. */
  lemma SigLenLe(b: int, ds: seq<int>, n: nat)
    requires b >= 1 && IsDigits(b, ds) && Eval(b, ds) < Pow(b, n)
    ensures SigLen(ds) <= n
  {
    SigBounds(b, ds);
    if SigLen(ds) > n {
      PowMono(b, n, SigLen(ds) - 1);
    }
  }

  /** Sequences that agree above digit i compare the way digit i does. */
  lemma EvalCompare(b: int, x: seq<int>, y: seq<int>, i: nat)
    requires b >= 1 && IsDigits(b, x) && IsDigits(b, y)
    requires i < |x| && |x| == |y|
    requires x[i + 1..] == y[i + 1..] && x[i] < y[i]
    ensures Eval(b, x) < Eval(b, y)
  {
    EvalSplit(b, x, i + 1);
    EvalSplit(b, y, i + 1);
    EvalStep(b, x, i);
    EvalStep(b, y, i);
    EvalBound(b, x[..i]);
    EvalBound(b, y[..i]);
    MulMono(Pow(b, i), x[i] + 1, y[i]);
    assert Pow(b, i) * (x[i] + 1) == x[i] * Pow(b, i) + Pow(b, i);
  }

  /** Moving the digits that matter up past |z| zeros. */
  lemma EvalShiftedUp(b: int, z: seq<int>, ds: seq<int>)
    requires |z| <= |ds| && SigLen(ds) <= |ds| - |z|
    requires forall k :: 0 <= k < |z| ==> z[k] == 0
    ensures Eval(b, z + ds[..|ds| - |z|]) == Eval(b, ds) * Pow(b, |z|)
  {
    var keep := ds[..|ds| - |z|];
    EvalShift(b, z, keep);
    EvalSig(b, ds, |ds| - |z|);
    var P, v := Pow(b, |z|), Eval(b, ds);
    calc {
      Eval(b, z + keep);
      P * Eval(b, keep);
      P * v;
      { MulComm(P, v); }
      v * P;
    }
  }
}
