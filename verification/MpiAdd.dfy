/** Carry and borrow chains: unsigned and signed addition and subtraction. */
module MpiAdd {
  import opened Numbers
  import opened Digits
  import opened Mpis

  datatype Status = Ok | BadInput | NegativeValue | DivisionByZero | NotAcceptable
                  | InvalidCharacter | BufferTooSmall

  /** One limb changes; the value moves by the weighted difference. */
  lemma ValUpdate(p: seq<Limb>, i: nat, v: Limb)
    requires i < |p|
    ensures Val(p[i := v]) == Val(p) + (v - p[i]) * Pow(Base(), i)
  {
    EvalUpdate(Base(), p, i, v);
  }

  /** A step that adds t and the carry c at limb i and leaves the carry c'. */
  lemma CarryStep(p: seq<Limb>, i: nat, v: Limb, t: int, c: int, c': int)
    requires i < |p|
    requires v + c' * Base() == p[i] + t + c
    ensures Val(p[i := v]) + c' * Pow(Base(), i + 1) == Val(p) + c * Pow(Base(), i) + t * Pow(Base(), i)
  {
    hide Pow, Eval;
    ValUpdate(p, i, v);
    var W := Pow(Base(), i);
    PowStep(Base(), i);
    MulAssoc(c', Base(), W);
    assert (v - p[i]) * W == (t + c - c' * Base()) * W;
    assert (t + c - c' * Base()) * W == t * W + c * W - (c' * Base()) * W;
  }

  /** Adds the low j limbs of o to p; o may be p itself, since limb i is read before it changes. */
  method AddLimbs(p0: seq<Limb>, o: seq<Limb>, j: nat) returns (p: seq<Limb>, c: int)
    requires j <= |p0| && j <= |o|
    ensures |p| == |p0| && 0 <= c <= 1
    ensures Val(p) + c * Pow(Base(), j) == Val(p0) + Val(o[..j])
  {
    hide Pow, Eval;
    p, c := p0, 0;
    assert o[..0] == [];
    ValEmpty();
    var i := 0;
    while i < j
      invariant i <= j && |p| == |p0|
      invariant 0 <= c <= 1 && p[i..] == p0[i..]
      invariant Val(p) + c * Pow(Base(), i) == Val(p0) + Val(o[..i])
    {
      var tmp := o[i];
      var x := WrapAdd(p[i], c);
      var c' := if x < c then 1 else 0;
      var y := WrapAdd(x, tmp);
      c' := c' + if y < tmp then 1 else 0;
      CarryStep(p, i, y, tmp, c, c');
      EvalStep(Base(), o, i);
      p := p[i := y];
      c := c';
      i := i + 1;
      assert p[i..] == p0[i..];
    }
  }

  /** Pushes a carry up from limb i, growing the number if it runs off the end. */
  method PropagateCarry(X: Mpi, i0: nat, c0: int)
    requires i0 <= |X.p| && 0 <= c0 <= 1
    modifies X
    ensures X.s == old(X.s) && |X.p| >= |old(X.p)|
    ensures Val(X.p) == Val(old(X.p)) + c0 * Pow(Base(), i0)
  {
    hide Pow, Eval;
    var c: int, i: nat := c0, i0;
    while c != 0
      invariant i <= |X.p| && |X.p| >= |old(X.p)| && X.s == old(X.s)
      invariant 0 <= c <= 1
      invariant Val(X.p) + c * Pow(Base(), i) == Val(old(X.p)) + c0 * Pow(Base(), i0)
      decreases if c == 0 then 0 else 1 + |X.p| - i
    {
      if i >= |X.p| { Grow(X, i + 1); }
      var x := WrapAdd(X.p[i], c);
      var c' := if x < c then 1 else 0;
      CarryStep(X.p, i, x, 0, c, c');
      X.p := X.p[i := x];
      c := c';
      i := i + 1;
    }
  }

  /** Unsigned addition, X = |A| + |B|, with any of the three the same object. */
  method AddAbs(X: Mpi, A0: Mpi, B0: Mpi)
    modifies X
    ensures X.s == 1
    ensures Val(X.p) == Val(old(A0.p)) + Val(old(B0.p))
    ensures |X.p| >= |old(X.p)| || |old(A0.p)| == 0
  {
    hide Pow, Eval;
    var A, B := A0, B0;
    if X == B { A, B := X, A; }
    if X != A { Copy(X, A); }
    X.s := 1;
    var j := TopLimb(B.p);
    EvalSig(Base(), B.p, j);
    Grow(X, j);
    EvalSig(Base(), B.p, j);
    var p, c := AddLimbs(X.p, B.p, j);
    X.p := p;
    PropagateCarry(X, j, c);
  }

  /** d - s over limbs i.. of equal length, with the final borrow. */
  method SubHlp(n: nat, d0: seq<Limb>, s: seq<Limb>) returns (d: seq<Limb>, c: int)
    requires n <= |d0| && n <= |s|
    ensures |d| == |d0| && d[n..] == d0[n..]
    ensures 0 <= c <= 1
    ensures Val(d) - c * Pow(Base(), n) == Val(d0) - Val(s[..n])
    ensures Val(d[..n]) - c * Pow(Base(), n) == Val(d0[..n]) - Val(s[..n])
  {
    hide Pow, Eval;
    d, c := d0, 0;
    var i := 0;
    assert s[..0] == [];
    ValEmpty();
    while i < n
      invariant i <= n && |d| == |d0|
      invariant 0 <= c <= 1 && d[i..] == d0[i..]
      invariant Val(d) - c * Pow(Base(), i) == Val(d0) - Val(s[..i])
    {
      var z := if d[i] < c then 1 else 0;
      var x := WrapSub(d[i], c);
      var c' := (if x < s[i] then 1 else 0) + z;
      var y := WrapSub(x, s[i]);
      var t: int := s[i];
      CarryStep(d, i, y, -t, -c, -c');
      EvalStep(Base(), s, i);
      assert (-t) * Pow(Base(), i) == -(t * Pow(Base(), i));
      assert (-c) * Pow(Base(), i) == -(c * Pow(Base(), i));
      assert (-c') * Pow(Base(), i + 1) == -(c' * Pow(Base(), i + 1));
      d := d[i := y];
      c := c';
      i := i + 1;
      assert d[i..] == d0[i..];
    }
    EvalSplit(Base(), d, n);
    EvalSplit(Base(), d0, n);
  }

  /** Takes a borrow from limb n up; fails when no nonzero limb is left. */
  method PropagateBorrow(p0: seq<Limb>, n0: nat) returns (p: seq<Limb>, ok: bool)
    requires n0 <= |p0|
    ensures |p| == |p0|
    ensures ok == (Val(p0) >= Pow(Base(), n0))
    ensures ok ==> Val(p) == Val(p0) - Pow(Base(), n0)
  {
    hide Pow, Eval;
    p := p0;
    var n := n0;
    while n < |p| && p[n] == 0
      invariant n <= |p| == |p0|
      invariant Val(p) - Pow(Base(), n) == Val(p0) - Pow(Base(), n0)
    {
      CarryStep(p, n, WrapSub(0, 1), 0, -1, -1);
      p := p[n := WrapSub(p[n], 1)];
      n := n + 1;
    }
    if n == |p| {
      return p, false;
    }
    CarryStep(p, n, p[n] - 1, 0, -1, 0);
    p := p[n := WrapSub(p[n], 1)];
    return p, true;
  }

  /** X := |X| - |B| in place. */
  method SubInPlace(X: Mpi, B: Mpi) returns (ret: Status)
    requires X != B && SigLen(B.p) <= |X.p|
    modifies X
    ensures |X.p| == |old(X.p)| && X.s == 1
    ensures ret == if Val(old(X.p)) >= Val(B.p) then Ok else NegativeValue
    ensures ret == Ok ==> Val(X.p) == Val(old(X.p)) - Val(B.p)
  {
    hide Pow, Eval;
    X.s := 1;
    var n := TopLimb(B.p);
    EvalSig(Base(), B.p, n);
    var d, carry := SubHlp(n, X.p, B.p);
    X.p := d;
    if carry != 0 {
      var p, ok := PropagateBorrow(X.p, n);
      X.p := p;
      if !ok { return NegativeValue; }
    }
    return Ok;
  }

  /** Unsigned subtraction, X = |A| - |B|; reports a negative difference. */
  method SubAbs(X: Mpi, A: Mpi, B0: Mpi) returns (ret: Status)
    requires SigLen(B0.p) <= SigLen(A.p) || (SigLen(B0.p) <= |X.p| && |A.p| > 0)
    modifies X
    ensures ret == if Val(old(A.p)) >= Val(old(B0.p)) then Ok else NegativeValue
    ensures ret == Ok ==> X.s == 1 && Val(X.p) == Val(old(A.p)) - Val(old(B0.p))
    ensures ret == Ok ==> |X.p| >= |old(X.p)| || |old(A.p)| == 0
  {
    hide Pow, Eval;
    var B := B0;
    if X == B {
      B := new Mpi();
      Copy(B, X);
      SigOfValue(B.p, X.p);
    }
    if X != A { Copy(X, A); }
    ret := SubInPlace(X, B);
  }

  /** Buffers of equal value have equal significant length. */
  lemma SigOfValue(x: seq<Limb>, y: seq<Limb>)
    requires Val(x) == Val(y)
    ensures SigLen(x) == SigLen(y)
  {
    if SigLen(x) < SigLen(y) { LongerIsLarger(x, y); }
    if SigLen(y) < SigLen(x) { LongerIsLarger(y, x); }
  }

  lemma HasLimbs(p: seq<Limb>)
    requires Val(p) > 0
    ensures |p| > 0
  {
  }

  lemma LargerIsLonger(x: seq<Limb>, y: seq<Limb>)
    requires Val(x) >= Val(y)
    ensures SigLen(x) >= SigLen(y)
  {
    if SigLen(x) < SigLen(y) { LongerIsLarger(x, y); }
  }

  /** Signed addition, X = A + B. */
  method AddMpi(X: Mpi, A: Mpi, B: Mpi)
    modifies X
    ensures X.Value() == old(A.Value()) + old(B.Value())
    ensures old(A.s) == old(B.s) ==> X.s == old(A.s)
    ensures |X.p| >= |old(X.p)| || |old(A.p)| == 0
  {
    hide Pow, Eval;
    var s: int := A.s;
    if s != B.s {
      var cmp := CmpAbs(A, B);
      if cmp >= 0 {
        LargerIsLonger(A.p, B.p);
        var _ := SubAbs(X, A, B);
        X.s := s;
      } else {
        LargerIsLonger(B.p, A.p);
        HasLimbs(B.p);
        var _ := SubAbs(X, B, A);
        X.s := -s;
      }
    } else {
      AddAbs(X, A, B);
      X.s := s;
    }
  }

  /** Signed subtraction, X = A - B. */
  method SubMpi(X: Mpi, A: Mpi, B: Mpi)
    modifies X
    ensures X.Value() == old(A.Value()) - old(B.Value())
    ensures old(A.s) != old(B.s) ==> X.s == old(A.s)
    ensures |X.p| >= |old(X.p)| || |old(A.p)| == 0
  {
    hide Pow, Eval;
    var s: int := A.s;
    if s == B.s {
      var cmp := CmpAbs(A, B);
      if cmp >= 0 {
        LargerIsLonger(A.p, B.p);
        var _ := SubAbs(X, A, B);
        X.s := s;
      } else {
        LargerIsLonger(B.p, A.p);
        HasLimbs(B.p);
        var _ := SubAbs(X, B, A);
        X.s := -s;
      }
    } else {
      AddAbs(X, A, B);
      X.s := s;
    }
  }

  method AddInt(X: Mpi, A: Mpi, b: Sint)
    modifies X
    ensures X.Value() == old(A.Value()) + b
    ensures b >= 0 && old(A.s) == 1 ==> X.s == 1
    ensures |X.p| >= |old(X.p)| || |old(A.p)| == 0
  {
    var B := new Mpi.OfInt(b);
    AddMpi(X, A, B);
  }

  method SubInt(X: Mpi, A: Mpi, b: Sint)
    modifies X
    ensures X.Value() == old(A.Value()) - b
    ensures b >= 0 && old(A.s) == -1 ==> X.s == -1
    ensures |X.p| >= |old(X.p)| || |old(A.p)| == 0
  {
    var B := new Mpi.OfInt(b);
    SubMpi(X, A, B);
  }
}
