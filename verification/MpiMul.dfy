/** Schoolbook multiplication (algorithm 14.12 of the Handbook of Applied Cryptography). */
module MpiMul {
  import opened Numbers
  import opened Digits
  import opened Mpis
  import opened MpiAdd

  /** One multiply-accumulate step: the two-limb result of s*b + d + c. */
  method MulAddC(s: Limb, b: Limb, d: Limb, c: Limb) returns (d': Limb, c': Limb)
    ensures d' + c' * Base() == s * b + d + c
  {
    var r := s * b + d + c;
    MulNonneg(s, b);
    MulMono(s, b, Base() - 1);
    MulMono(Base() - 1, s, Base() - 1);
    assert (Base() - 1) * (Base() - 1) == Base() * Base() - 2 * Base() + 1;
    assert s * (Base() - 1) == (Base() - 1) * s;
    DivModProps(r, Base());
    DivBounds(r, Base(), Base());
    d', c' := r % Base(), r / Base();
  }

  /**
   * d += b * s[..n], starting at limb off of d.  The final carry loop has no bound
   * of its own: it stops inside d because the sum fits there.
   */
  method MulHlp(n: nat, s: seq<Limb>, d0: seq<Limb>, off: nat, b: Limb) returns (d: seq<Limb>)
    requires n <= |s| && off + n < |d0|
    requires Val(d0) + (b * Val(s[..n])) * Pow(Base(), off) < Pow(Base(), |d0|)
    ensures |d| == |d0| && d[..off] == d0[..off]
    ensures Val(d) == Val(d0) + (b * Val(s[..n])) * Pow(Base(), off)
  {
    hide Pow, Eval;
    d := d0;
    var c: Limb := 0;
    var k := 0;
    assert s[..0] == [];
    ValEmpty();
    while k < n
      invariant k <= n && |d| == |d0| && d[..off] == d0[..off]
      invariant Val(d) + c * Pow(Base(), off + k) == Val(d0) + (b * Val(s[..k])) * Pow(Base(), off)
    {
      var v, c' := MulAddC(s[k], b, d[off + k], c);
      CarryStep(d, off + k, v, s[k] * b, c, c');
      MulStep(s, k, b, off);
      d := d[off + k := v];
      c := c';
      k := k + 1;
    }
    ghost var total := Val(d) + c * Pow(Base(), off + k);
    var go := true;
    while go
      invariant |d| == |d0| && d[..off] == d0[..off]
      invariant go ==> off + k < |d0|
      invariant !go ==> c == 0
      invariant Val(d) + c * Pow(Base(), off + k) == total
      decreases |d0| - off - k, go
    {
      var v := WrapAdd(d[off + k], c);
      var c' := if v < c then 1 else 0;
      CarryStep(d, off + k, v, 0, c, c');
      d := d[off + k := v];
      c := c';
      k := k + 1;
      if off + k == |d| { NoCarryOut(d, c); }
      go := c != 0;
    }
  }

  /** A total that fits in the buffer leaves no carry at its end. */
  lemma NoCarryOut(d: seq<Limb>, c: Limb)
    requires Val(d) + c * Pow(Base(), |d|) < Pow(Base(), |d|)
    ensures c == 0
  {
    PowPos(Base(), |d|);
    MulMono(Pow(Base(), |d|), if c > 0 then 1 else 0, c);
  }

  /** The weighted partial product grows by one limb of s. */
  lemma MulStep(s: seq<Limb>, k: nat, b: Limb, off: nat)
    requires k < |s|
    ensures (b * Val(s[..k + 1])) * Pow(Base(), off)
         == (b * Val(s[..k])) * Pow(Base(), off) + (s[k] * b) * Pow(Base(), off + k)
  {
    hide Pow, Eval;
    EvalStep(Base(), s, k);
    PowAdd(Base(), off, k);
    var v, x, P, Q := Val(s[..k]), s[k], Pow(Base(), off), Pow(Base(), k);
    calc {
      (b * (v + x * Q)) * P;
      { MulDist(b, v, x * Q); MulAssoc(b, x, Q); }
      (b * v + (b * x) * Q) * P;
      (b * v) * P + ((b * x) * Q) * P;
      { MulAssoc(b * x, Q, P); }
      (b * v) * P + (x * b) * (P * Q);
    }
  }

  /** Product accumulated over the limbs of b from the top down. */
  lemma ProductStep(a: int, b: seq<Limb>, j: nat)
    requires 0 < j <= |b|
    ensures (a * Val(b[j..])) * Pow(Base(), j) + (b[j - 1] * a) * Pow(Base(), j - 1)
         == (a * Val(b[j - 1..])) * Pow(Base(), j - 1)
  {
    hide Pow, Eval;
    EvalCons(Base(), b[j - 1..]);
    assert b[j - 1..][1..] == b[j..];
    var v, x, B, P := Val(b[j..]), b[j - 1], Base(), Pow(Base(), j - 1);
    PowStep(B, j - 1);
    calc {
      (a * (x + B * v)) * P;
      { MulDist(a, x, B * v); MulAssoc(a, B, v); }
      (x * a + (a * B) * v) * P;
      (x * a) * P + ((a * B) * v) * P;
      { assert (a * B) * v == (a * v) * B by { MulAssoc(a, B, v); MulAssoc(a, v, B); } MulAssoc(a * v, B, P); }
      (x * a) * P + (a * v) * (B * P);
    }
  }

  /** Every partial product fits in the limbs reserved for the whole one. */
  lemma ProductFits(b: int, x: int, y: int, m: nat, n: nat, j: nat, len: nat)
    requires b >= 1 && 0 <= x < Pow(b, m) && 0 <= y < Pow(b, n) && m + n + j <= len
    ensures (x * y) * Pow(b, j) < Pow(b, len)
  {
    hide Pow;
    PowProductBound(b, x, y, m, n);
    PowShiftBound(b, x * y, m + n, j, len);
  }

  /** The limb loop of the product: x is cleared and long enough. */
  method MulLimbs(x0: seq<Limb>, a: seq<Limb>, i: nat, b: seq<Limb>, j0: nat) returns (x: seq<Limb>)
    requires i <= |a| && j0 <= |b| && i + j0 <= |x0| && |x0| > 0
    requires Val(x0) == 0
    ensures |x| == |x0| && Val(x) == Val(a[..i]) * Val(b[..j0])
  {
    hide Pow, Eval;
    x := x0;
    ghost var v, bs := Val(a[..i]), b[..j0];
    var j := j0;
    assert bs[j..] == [];
    ValEmpty();
    assert v * Val(bs[j..]) == 0;
    while j > 0
      invariant 0 <= j <= j0 && |x| == |x0|
      invariant Val(x) == (v * Val(bs[j..])) * Pow(Base(), j)
    {
      ProductStep(v, bs, j);
      ProductFits(Base(), v, Val(bs[j - 1..]), i, j0 - (j - 1), j - 1, |x|);
      x := MulHlp(i, a, x, j - 1, b[j - 1]);
      j := j - 1;
    }
    assert bs[0..] == bs;
    PowStep(Base(), 0);
  }

  /** X = A * B with the buffers already separate from X. */
  method MulInto(X: Mpi, A: Mpi, B: Mpi)
    requires X != A && X != B
    modifies X
    ensures Val(X.p) == Val(A.p) * Val(B.p)
    ensures X.s == (if A.s == B.s then 1 else -1)
    ensures |X.p| == Max(Max(1, |old(X.p)|), SigLen(A.p) + SigLen(B.p))
  {
    hide Pow, Eval;
    var i := TopLimb(A.p);
    var j := TopLimb(B.p);
    EvalSig(Base(), A.p, i);
    EvalSig(Base(), B.p, j);
    Grow(X, i + j);
    Lset(X, 0);
    var x := MulLimbs(X.p, A.p, i, B.p, j);
    X.p := x;
    var xs: int := A.s;
    X.s := if xs == B.s then 1 else -1;
  }

  /** X = A * B for all signs, and for X the same object as A, as B, or as both. */
  method MulMpi(X: Mpi, A0: Mpi, B0: Mpi)
    modifies X
    ensures X.Value() == old(A0.Value()) * old(B0.Value())
    ensures Val(X.p) == Val(old(A0.p)) * Val(old(B0.p))
    ensures old(A0.s) == 1 && old(B0.s) == 1 ==> X.s == 1
    ensures |old(A0.p)| > 0 && |old(B0.p)| > 0 ==> X.s == (if old(A0.s) == old(B0.s) then 1 else -1)
    ensures |X.p| >= 1 && |X.p| >= |old(X.p)|
  {
    hide Pow, Eval;
    var A, B := A0, B0;
    if X == A0 {
      A := new Mpi();
      Copy(A, A0);
    }
    if X == B0 {
      B := new Mpi();
      Copy(B, B0);
    }
    MulInto(X, A, B);
    MulSigns(Val(A.p), Val(B.p));
  }

  method MulInt(X: Mpi, A: Mpi, b: Limb)
    modifies X
    ensures X.Value() == old(A.Value()) * b
    ensures Val(X.p) == Val(old(A.p)) * b
    ensures old(A.s) == 1 || |old(A.p)| > 0 ==> X.s == old(A.s)
    ensures |X.p| >= 1 && |X.p| >= |old(X.p)|
  {
    var B := new Mpi();
    B.p := [b];
    ValOne(b);
    MulMpi(X, A, B);
  }
}
