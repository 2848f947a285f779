/** Conversion to and from text in radix 2 to 16. */
module MpiString {
  import opened Numbers
  import opened Bits
  import opened Digits
  import opened Mpis
  import opened MpiAdd
  import opened MpiMul
  import opened MpiShift
  import MpiDiv
  import MpiModInt
  import ExpMod

  // ----------------------------------------------------- digits and numerals

  /** The digit a character stands for; 255 for none. */
  function DigitOf(c: char): (d: int)
    ensures 0 <= d <= 255
  {
    var k := c as int;
    if 0x30 <= k <= 0x39 then k - 0x30
    else if 0x41 <= k <= 0x46 then k - 0x37
    else if 0x61 <= k <= 0x66 then k - 0x57
    else 255
  }

  function CharOf(r: int): (c: char)
    requires 0 <= r < 16
    ensures DigitOf(c) == r && c != '-' && c != '\0'
  {
    if r < 0xA then (0x30 + r) as char else (0x41 + (r - 0xA)) as char
  }

  /** The digits are 0 to 9 and A to F, read in either case and written in capitals; nothing else is a digit. */
  lemma DigitsAre(d: int, c: char)
    requires 0 <= d < 16
    ensures CharOf(d) == "0123456789ABCDEF"[d] && DigitOf("0123456789abcdef"[d]) == d
    ensures DigitOf(c) == d <==> c == "0123456789ABCDEF"[d] || c == "0123456789abcdef"[d]
    ensures DigitOf(c) == 255 <==> c !in "0123456789ABCDEFabcdef"
  {
  }

  /** Value of a digit string, most significant digit first. */
  function Magnitude(radix: int, s: string): int {
    if |s| == 0 then 0 else Magnitude(radix, s[..|s| - 1]) * radix + DigitOf(s[|s| - 1])
  }

  predicate AllDigits(radix: int, s: string) {
    forall i :: 0 <= i < |s| ==> DigitOf(s[i]) < radix
  }

  predicate Negative(s: string) {
    |s| > 0 && s[0] == '-'
  }

  function Unsigned(s: string): string {
    if Negative(s) then s[1..] else s
  }

  /** Digits with at most one leading minus sign. */
  predicate IsNumeral(radix: int, s: string) {
    AllDigits(radix, Unsigned(s))
  }

  /** The integer a numeral stands for. */
  function NumeralValue(radix: int, s: string): int {
    if Negative(s) then -Magnitude(radix, Unsigned(s)) else Magnitude(radix, s)
  }

  lemma MagnitudeStep(radix: int, s: string, i: nat)
    requires i < |s|
    ensures Magnitude(radix, s[..i + 1]) == Magnitude(radix, s[..i]) * radix + DigitOf(s[i])
  {
    assert s[..i + 1][..i] == s[..i];
  }

  lemma MagnitudeSnoc(radix: int, s: string, c: char)
    ensures Magnitude(radix, s + [c]) == Magnitude(radix, s) * radix + DigitOf(c)
  {
    assert (s + [c])[..|s|] == s;
  }

  /** A digit put in front weighs radix^length. */
  lemma {:induction false} MagnitudeCons(radix: int, c: char, s: string)
    ensures Magnitude(radix, [c] + s) == DigitOf(c) * Pow(radix, |s|) + Magnitude(radix, s)
  {
    if |s| == 0 {
      assert [c] + s == [] + [c];
      MagnitudeSnoc(radix, [], c);
      PowStep(radix, 0);
    } else {
      var t, d := s[..|s| - 1], s[|s| - 1];
      MagnitudeCons(radix, c, t);
      assert [c] + s == ([c] + t) + [d];
      MagnitudeSnoc(radix, [c] + t, d);
      PowStep(radix, |t|);
      var P, m := Pow(radix, |t|), Magnitude(radix, t);
      assert (DigitOf(c) * P + m) * radix == DigitOf(c) * (radix * P) + m * radix by {
        MulComm(DigitOf(c) * P + m, radix);
        MulDist(radix, DigitOf(c) * P, m);
        MulAssoc(radix, DigitOf(c), P);
        MulComm(radix, DigitOf(c));
        MulAssoc(DigitOf(c), radix, P);
        MulComm(radix, m);
      }
    }
  }

  lemma {:induction false} MagnitudeBound(radix: int, s: string)
    requires radix >= 2 && AllDigits(radix, s)
    ensures 0 <= Magnitude(radix, s) < Pow(radix, |s|)
  {
    if |s| > 0 {
      var t := s[..|s| - 1];
      MagnitudeBound(radix, t);
      PowStep(radix, |t|);
      MulMono(radix, Magnitude(radix, t), Pow(radix, |t|) - 1);
      MulDist(radix, Pow(radix, |t|), 1);
      MulComm(radix, Magnitude(radix, t));
      MulNonneg(radix, Magnitude(radix, t));
    }
  }

  // ------------------------------------------------------------- reading

  lemma BaseHex()
    ensures Base() == Pow(16, 2 * CIL)
  {
    PowPow(2, 4, 2 * CIL);
    assert Pow(2, 4) == 16 by { PowStep(2, 0); PowStep(2, 1); PowStep(2, 2); PowStep(2, 3); }
  }

  /** Where hexadecimal digit j goes: limb k, at weight 16^pos. */
  lemma HexPlace(j: nat)
    ensures var k, pos := j / (2 * CIL), j % (2 * CIL);
      j == 2 * CIL * k + pos && 0 <= pos < 2 * CIL && k >= 0
      && Pow(Base(), k) * Pow(16, pos) == Pow(16, j)
      && Pow(16, j) < Pow(Base(), k + 1)
  {
    hide Pow;
    var k, pos := j / (2 * CIL), j % (2 * CIL);
    DivModProps(j, 2 * CIL);
    MulComm(2 * CIL, k);
    BaseHex();
    PowPow(16, 2 * CIL, k);
    PowPow(16, 2 * CIL, k + 1);
    PowAdd(16, 2 * CIL * k, pos);
    assert 2 * CIL * (k + 1) == 2 * CIL * k + 2 * CIL by { MulDist(2 * CIL, k, 1); }
    PowStrict(16, j, 2 * CIL * (k + 1));
  }

  /** Below 16^j, limb k only holds digits under position pos, and nothing is above it. */
  lemma HexLimbRoom(p: seq<Limb>, j: nat, k: nat, pos: nat)
    requires k < |p| && Val(p) < Pow(16, j)
    requires Pow(Base(), k) * Pow(16, pos) == Pow(16, j) && pos < 2 * CIL
    ensures p[k] < Pow(16, pos)
  {
    hide Pow, Eval;
    var W := Pow(Base(), k);
    EvalSplit(Base(), p, k);
    EvalCons(Base(), p[k..]);
    PowPos(Base(), k);
    var rest := Val(p[k + 1..]);
    assert p[k..][1..] == p[k + 1..];
    MulNonneg(Base(), rest);
    var d: int, v := p[k], Val(p[k..]);
    MulMono(W, d, v);
    assert Val(p[..k]) >= 0;
    assert W * d <= W * v <= Val(p) < W * Pow(16, pos);
    MulCancelLt(W, d, Pow(16, pos));
  }

  lemma HexShift(pos: nat)
    ensures Pow(16, pos) == Pow(2, 4 * pos)
  {
    PowPow(2, 4, pos);
    assert Pow(2, 4) == 16 by { PowStep(2, 0); PowStep(2, 1); PowStep(2, 2); PowStep(2, 3); }
  }

  /** Ors one hexadecimal digit into place. */
  method PutHexDigit(p0: seq<Limb>, j: nat, d: int) returns (p: seq<Limb>)
    requires 0 <= d < 16 && j / (2 * CIL) < |p0| && Val(p0) < Pow(16, j)
    ensures |p| == |p0| && Val(p) == Val(p0) + d * Pow(16, j)
  {
    hide Pow, Eval, Or;
    var k, pos := j / (2 * CIL), j % (2 * CIL);
    HexPlace(j);
    HexLimbRoom(p0, j, k, pos);
    HexShift(pos);
    PowPos(16, pos);
    MulNonneg(d, Pow(16, pos));
    OrDisjoint(d, p0[k], 4 * pos);
    HexDigitFits(d, pos, p0[k]);
    var v := Or(p0[k], d * Pow(2, 4 * pos));
    p := p0[k := v];
    ValUpdate(p0, k, v);
    assert (d * Pow(16, pos)) * Pow(Base(), k) == d * Pow(16, j) by {
      MulAssoc(d, Pow(16, pos), Pow(Base(), k));
      MulComm(Pow(16, pos), Pow(Base(), k));
    }
  }

  lemma HexDigitFits(d: int, pos: nat, x: int)
    requires 0 <= d < 16 && pos < 2 * CIL && 0 <= x < Pow(16, pos)
    ensures x + d * Pow(16, pos) < Base()
  {
    hide Pow;
    var P := Pow(16, pos);
    MulMono(P, d, 15);
    MulComm(P, d);
    PowStep(16, pos);
    PowMono(16, pos + 1, 2 * CIL);
    BaseHex();
  }

  /** Adds one more character in front of the hexadecimal digits read so far. */
  method TakeHex(X: Mpi, c: char, j: nat, slen: nat, ghost tail: string)
    requires j == |tail| < slen && X.s == 1 && |X.p| >= BitsToLimbs(4 * slen)
    requires AllDigits(16, tail) && DigitOf(c) < 16 && Val(X.p) == Magnitude(16, tail)
    modifies X
    ensures X.s == 1 && |X.p| == |old(X.p)| && Val(X.p) == Magnitude(16, [c] + tail)
  {
    hide Pow, Eval;
    HexRoom(j, slen);
    MagnitudeBound(16, tail);
    MagnitudeCons(16, c, tail);
    var p := PutHexDigit(X.p, j, DigitOf(c));
    X.p := p;
  }

  /** Hexadecimal input, read from the last character towards the first. */
  method ReadHex(X: Mpi, s: string) returns (ret: Status)
    modifies X
    ensures ret == if IsNumeral(16, s) then Ok else InvalidCharacter
    ensures ret == Ok ==> X.Value() == NumeralValue(16, s)
  {
    hide Pow, Eval, Magnitude;
    var slen := |s|;
    Grow(X, BitsToLimbs(4 * slen));
    Lset(X, 0);
    var first := if Negative(s) then 1 else 0;
    ghost var u := Unsigned(s);
    var i, j := slen, 0;
    assert u[|u|..] == [];
    EmptyMagnitude(16);
    while i > first
      invariant first <= i <= slen && j == slen - i == |u| - (i - first)
      invariant X.s == 1 && |X.p| >= BitsToLimbs(4 * slen)
      invariant AllDigits(16, u[i - first..]) && Val(X.p) == Magnitude(16, u[i - first..])
    {
      var c := s[i - 1];
      assert c == u[i - 1 - first];
      if DigitOf(c) >= 16 {
        return InvalidCharacter;
      }
      TakeHex(X, c, j, slen, u[i - first..]);
      assert u[i - 1 - first..] == [c] + u[i - first..];
      i, j := i - 1, j + 1;
    }
    assert u[0..] == u;
    if Negative(s) { X.s := -1; }
    return Ok;
  }

  lemma EmptyMagnitude(radix: int)
    ensures Magnitude(radix, []) == 0
  {
  }

  lemma HexRoom(j: nat, slen: nat)
    requires j < slen
    ensures j / (2 * CIL) < BitsToLimbs(4 * slen)
  {
    var n := BitsToLimbs(4 * slen);
    BitsToLimbsFit(4 * slen, n);
    DivModProps(j, 2 * CIL);
    if j / (2 * CIL) >= n {
      MulMono(2 * CIL, n, j / (2 * CIL));
      MulComm(2 * CIL, j / (2 * CIL));
      MulAssoc(4, 2 * CIL, n);
    }
  }

  /** Input in a radix below 16, from the first character on. */
  method ReadOther(X: Mpi, radix: Sint, s: string) returns (ret: Status)
    requires 2 <= radix < 16
    modifies X
    ensures ret == if IsNumeral(radix, s) then Ok else InvalidCharacter
    ensures ret == Ok ==> X.Value() == NumeralValue(radix, s)
  {
    hide Pow, Eval, Magnitude;
    var T := new Mpi();
    Lset(X, 0);
    var first := if Negative(s) then 1 else 0;
    if Negative(s) { X.s := -1; }
    ghost var u := Unsigned(s);
    var i := first;
    assert u[..0] == [];
    EmptyMagnitude(radix);
    while i < |s|
      invariant first <= i <= |s| && |u| == |s| - first
      invariant |X.p| > 0 && X.s == if Negative(s) then -1 else 1
      invariant AllDigits(radix, u[..i - first]) && Val(X.p) == Magnitude(radix, u[..i - first])
    {
      var d := DigitOf(s[i]);
      assert s[i] == u[i - first];
      if d >= radix {
        return InvalidCharacter;
      }
      MagnitudeStep(radix, u, i - first);
      AppendDigit(X, T, radix, d);
      assert u[..i + 1 - first] == u[..i - first] + [s[i]];
      i := i + 1;
    }
    assert u[..|u|] == u;
    return Ok;
  }

  /** |X| := |X| * radix + d, with the sign kept. */
  method AppendDigit(X: Mpi, T: Mpi, radix: Sint, d: Sint)
    requires X != T && 2 <= radix < 16 && 0 <= d < 16 && |X.p| > 0
    modifies X, T
    ensures X.s == old(X.s) && |X.p| > 0 && Val(X.p) == Val(old(X.p)) * radix + d
  {
    hide Pow, Eval;
    MulInt(T, X, radix);
    if X.s == 1 {
      AddInt(X, T, d);
    } else {
      SubInt(X, T, d);
    }
  }

  /** Import from text. */
  method ReadString(X: Mpi, radix: Sint, s: string) returns (ret: Status)
    modifies X
    ensures ret == if radix < 2 || radix > 16 then BadInput
                   else if IsNumeral(radix, s) then Ok else InvalidCharacter
    ensures ret == Ok ==> X.Value() == NumeralValue(radix, s)
  {
    if radix < 2 || radix > 16 { return BadInput; }
    if radix == 16 {
      ret := ReadHex(X, s);
    } else {
      ret := ReadOther(X, radix, s);
    }
  }

  // ------------------------------------------------------------- writing

  /** Space reserved for a number of the given bit length: sign, digits, terminator. */
  function SpaceFor(bits: nat, radix: int): (n: nat) {
    var n0 := bits;
    var n1 := if radix >= 4 then n0 / 2 else n0;
    var n2 := if radix >= 16 then n1 / 2 else n1;
    var n3 := n2 + 1 + 1 + 1;
    n3 + n3 % 2
  }

  /** The space is even and three or four more than the bits divided by 1, 2 or 4. */
  lemma SpaceIs(bits: nat, radix: int)
    ensures var d := if radix < 4 then 1 else if radix < 16 then 2 else 4;
      SpaceFor(bits, radix) % 2 == 0 && bits / d + 3 <= SpaceFor(bits, radix) <= bits / d + 4
  {
    assert bits / 2 / 2 == bits / 4;
  }

  /** Digits of |X| in a radix below 16: at least one, and few enough for half the bits. */
  lemma DigitCount(v: nat, radix: int, len: nat)
    requires 2 <= radix && len >= 1 && (len == 1 || Pow(radix, len - 1) <= v)
    ensures len == 1 || len <= BitLen(v)
    ensures radix >= 4 ==> len == 1 || 2 * (len - 1) < BitLen(v)
  {
    hide Pow;
    if len > 1 {
      BitLenBounds(v);
      PowBase(2, radix, len - 1);
      if len > BitLen(v) { PowMono(2, BitLen(v), len - 1); }
      if radix >= 4 {
        PowBase(4, radix, len - 1);
        PowPow(2, 2, len - 1);
        PowStep(2, 0);
        PowStep(2, 1);
        if 2 * (len - 1) >= BitLen(v) { PowMono(2, BitLen(v), 2 * (len - 1)); }
      }
    }
  }

  lemma {:induction false} PowBase(a: int, b: int, e: nat)
    requires 1 <= a <= b
    ensures 1 <= Pow(a, e) <= Pow(b, e)
  {
    PowPos(a, e);
    if e > 0 {
      PowBase(a, b, e - 1);
      PowPos(a, e - 1);
      MulMono(a, Pow(a, e - 1), Pow(b, e - 1));
      MulMono(Pow(b, e - 1), a, b);
      MulComm(a, Pow(b, e - 1));
      MulComm(b, Pow(b, e - 1));
    }
  }

  /** The reserved space is enough in every radix below 16. */
  lemma SpaceCovers(bits: nat, radix: int, len: nat)
    requires 2 <= radix < 16 && len >= 1
    requires len == 1 || len <= bits
    requires radix >= 4 ==> len == 1 || 2 * (len - 1) < bits
    ensures len + 2 <= SpaceFor(bits, radix)
  {
  }

  /** Hexadecimal output writes whole bytes; the reserved space is enough, and sometimes exact. */
  lemma SpaceCoversHex(bits: nat)
    ensures 2 * Max(1, (bits + 7) / 8) + 2 <= SpaceFor(bits, 16)
    ensures bits % 8 == 1 ==> 2 * Max(1, (bits + 7) / 8) + 2 == SpaceFor(bits, 16)
  {
  }

  /** memmove towards lower addresses. */
  method MoveDown(buf: array<char>, dst: nat, src: nat, len: nat)
    requires dst <= src && src + len <= buf.Length
    modifies buf
    ensures buf[dst..dst + len] == old(buf[src..src + len])
    ensures buf[..dst] == old(buf[..dst])
  {
    var i := 0;
    ghost var moved := buf[src..src + len];
    while i < len
      invariant 0 <= i <= len
      invariant buf[dst..dst + i] == moved[..i]
      invariant buf[src + i..src + len] == moved[i..]
      invariant buf[..dst] == old(buf[..dst])
    {
      assert buf[src + i] == moved[i];
      buf[dst + i] := buf[src + i];
      i := i + 1;
    }
  }

  /** One digit moves from what is left to what is written. */
  lemma WriteStep(m: int, P: int, t: nat, radix: int)
    requires radix >= 2
    ensures m + P * t == (t % radix * P + m) + (radix * P) * (t / radix)
    ensures t > 0 ==> t / radix < t
  {
    DivModProps(t, radix);
    var q, r := t / radix, t % radix;
    MulDist(P, q * radix, r);
    assert P * (q * radix) == (radix * P) * q by { MulComm(q, radix); MulAssoc(P, radix, q); MulComm(P, radix); }
    MulComm(P, r);
    if q >= t && t > 0 { MulMono(radix, t, q); MulComm(radix, q); MulMono(t, 2, radix); MulComm(t, radix); }
  }

  /** What is left, when nonzero, bounds the number from below. */
  lemma LowerBound(v: int, m: int, P: int, t: int)
    requires v == m + P * t && m >= 0 && P >= 1 && t >= 1
    ensures P <= v
  {
    MulMono(P, 1, t);
  }

  /** Takes the lowest digit off T. */
  method NextDigit(T: Mpi, radix: Sint) returns (c: char)
    requires 2 <= radix < 16 && T.s == 1 && (radix == 2 ==> |T.p| > 0)
    modifies T
    ensures DigitOf(c) == Val(old(T.p)) % radix < radix && T.Value() == Val(T.p) == Val(old(T.p)) / radix
    ensures c != '-' && c != '\0'
  {
    hide Pow, Eval;
    var _, r := MpiModInt.ModInt(T, radix);
    var _ := MpiDiv.DivInt(T, null, T, radix);
    DivModProps(Val(old(T.p)), radix);
    c := CharOf(r);
  }

  /**
   * Digits of T, least significant first, written backwards from the end of the space
   * buf[start..stop] and then moved to its front.
   */
  method WriteHlp(T: Mpi, radix: Sint, buf: array<char>, start: nat, stop: nat) returns (ret: Status, end: nat)
    requires 2 <= radix < 16 && T.s == 1 && (radix == 2 ==> |T.p| > 0)
    requires start <= stop <= buf.Length
    modifies T, buf
    ensures buf[..start] == old(buf[..start])
    ensures ret == Ok || ret == BufferTooSmall
    ensures ret == BufferTooSmall ==> start == stop || Pow(radix, stop - start) <= Val(old(T.p))
    ensures ret == Ok ==> start < end <= stop && AllDigits(radix, buf[start..end])
    ensures ret == Ok ==> Magnitude(radix, buf[start..end]) == Val(old(T.p))
    ensures ret == Ok ==> end - start == 1 || Pow(radix, end - start - 1) <= Val(old(T.p))
  {
    hide Pow, Eval, Magnitude;
    ghost var v := Val(T.p);
    var length, pEnd := 0, stop;
    var go := true;
    ghost var digits: string := [];
    EmptyMagnitude(radix);
    PowStep(radix, 0);
    while go
      invariant length == stop - pEnd == |digits| && start <= pEnd <= stop
      invariant digits == buf[pEnd..stop] && buf[..start] == old(buf[..start])
      invariant T.Value() == Val(T.p) && (go || length > 0)
      invariant go ==> T.s == 1 && (radix == 2 ==> |T.p| > 0)
      invariant go <==> length == 0 || Val(T.p) > 0
      invariant Written(radix, digits, Val(T.p), v)
      decreases Val(T.p), go
    {
      WrittenBound(radix, digits, Val(T.p), v);
      if length >= stop - start {
        return BufferTooSmall, start;
      }
      WrittenMore(radix, digits, Val(T.p), v);
      var c := NextDigit(T, radix);
      pEnd := pEnd - 1;
      buf[pEnd] := c;
      digits := [c] + digits;
      length := length + 1;
      var cmp := CmpInt(T, 0);
      go := cmp != 0;
      if go { HasLimbs(T.p); }
    }
    WrittenAll(radix, digits, v);
    MoveDown(buf, start, pEnd, length);
    return Ok, start + length;
  }

  /** The digits written so far and the rest t make up v. */
  ghost predicate Written(radix: int, digits: string, t: int, v: int) {
    && AllDigits(radix, digits)
    && v == Magnitude(radix, digits) + Pow(radix, |digits|) * t
    && (|digits| > 1 ==> Pow(radix, |digits| - 1) <= v)
  }

  lemma WrittenBound(radix: int, digits: string, t: int, v: int)
    requires radix >= 2 && Written(radix, digits, t, v) && (t > 0 || |digits| == 0)
    ensures |digits| > 0 ==> Pow(radix, |digits|) <= v
  {
    hide Pow, Magnitude;
    MagnitudeBound(radix, digits);
    PowPos(radix, |digits|);
    if |digits| > 0 { LowerBound(v, Magnitude(radix, digits), Pow(radix, |digits|), t); }
  }

  lemma WrittenMore(radix: int, digits: string, t: int, v: int)
    requires radix >= 2 && t >= 0 && Written(radix, digits, t, v) && (t > 0 || |digits| == 0)
    ensures forall c: char :: DigitOf(c) == t % radix ==> Written(radix, [c] + digits, t / radix, v)
    ensures t > 0 ==> t / radix < t
  {
    hide Pow, Magnitude;
    WrittenBound(radix, digits, t, v);
    WriteStep(Magnitude(radix, digits), Pow(radix, |digits|), t, radix);
    PowStep(radix, |digits|);
    DivModProps(t, radix);
    forall c: char | DigitOf(c) == t % radix ensures Written(radix, [c] + digits, t / radix, v) {
      MagnitudeCons(radix, c, digits);
    }
  }

  lemma WrittenAll(radix: int, digits: string, v: int)
    requires Written(radix, digits, 0, v)
    ensures AllDigits(radix, digits) && v == Magnitude(radix, digits)
    ensures |digits| > 1 ==> Pow(radix, |digits| - 1) <= v
  {
  }

  // -------------------------------------------------- hexadecimal output

  ghost function Pow256(t: nat): (p: nat)
    ensures p == Pow(2, 8 * t) && p > 0
  {
    PowPos(2, 8 * t);
    Pow(2, 8 * t)
  }

  /** Bytes of a number are bytes of its limbs. */
  lemma ByteOfLimb(p: seq<Limb>, k: nat, j: nat)
    requires k < |p| && j < CIL
    ensures Pow(2, 8 * j) > 0
    ensures Val(p) / Pow256(CIL * k + j) % 256 == p[k] / Pow(2, 8 * j) % 256
  {
    hide Pow, Eval;
    ExpMod.DropLimbs(p, k);
    PowAdd(2, BIL * k, 8 * j);
    PowPos(2, 8 * j);
    assert 8 * (CIL * k + j) == BIL * k + 8 * j by { MulAssoc(8, CIL, k); }
    DivDiv(Val(p), Pow(2, BIL * k), Pow(2, 8 * j));
    LowByte(p[k], Val(p[k + 1..]), j);
  }

  lemma LowByte(x: int, rest: int, j: nat)
    requires x >= 0 && rest >= 0 && j < CIL
    ensures Pow(2, 8 * j) > 0 && (x + Base() * rest) / Pow(2, 8 * j) % 256 == x / Pow(2, 8 * j) % 256
  {
    hide Pow;
    var P, m := Pow(2, 8 * j), BIL - 8 * j;
    PowPos(2, 8 * j);
    BaseSplit(8 * j);
    PowAdd(2, 8, m - 8);
    Pow8();
    var h := Pow(2, m - 8) * rest;
    assert Base() * rest == (256 * h) * P by {
      MulAssoc(P, Pow(2, m), rest);
      MulAssoc(256, Pow(2, m - 8), rest);
      MulComm(P, 256 * h);
    }
    ExpMod.DivShifted(x, 256 * h, P);
  }

  lemma Pow8()
    ensures Pow(2, 8) == 256
  {
  }

  /** One byte more of the prefix. */
  lemma PrefixByte(v: nat, t: nat)
    ensures v / Pow256(t) == 256 * (v / Pow256(t + 1)) + v / Pow256(t) % 256
  {
    hide Pow;
    PowAdd(2, 8 * t, 8);
    Pow8();
    DivDiv(v, Pow256(t), 256);
  }

  /** A nonzero prefix means that many bytes are significant. */
  lemma SignificantBytes(v: nat, t: nat)
    requires v / Pow256(t) > 0
    ensures t + 1 <= (BitLen(v) + 7) / 8
  {
    hide Pow;
    BitLenBounds(v);
    if BitLen(v) <= 8 * t {
      PowMono(2, BitLen(v), 8 * t);
      DivModUnique(v, Pow256(t), 0, v);
    }
  }

  /** The state of the byte loop with t bytes still to come. */
  ghost predicate HexState(v: nat, out: string, t: nat, k: bool) {
    && AllDigits(16, out)
    && Magnitude(16, out) == v / Pow256(t)
    && (!k ==> out == [])
    && (k ==> |out| > 0 && |out| % 2 == 0 && |out| / 2 + t <= Max(1, (BitLen(v) + 7) / 8))
  }

  lemma HexStart(v: nat, t: nat)
    requires v < Pow256(t)
    ensures HexState(v, [], t, false)
  {
    DivModUnique(v, Pow256(t), 0, v);
  }

  lemma HexSkip(v: nat, out: string, t: nat)
    requires HexState(v, out, t + 1, false) && v / Pow256(t) % 256 == 0
    ensures HexState(v, out, t, false)
  {
    PrefixByte(v, t);
  }

  lemma HexByte(v: nat, out: string, t: nat, k: bool, hi: char, lo: char)
    requires HexState(v, out, t + 1, k)
    requires var c := v / Pow256(t) % 256; DigitOf(hi) == c / 16 && DigitOf(lo) == c % 16 && (c != 0 || k || t == 0)
    ensures HexState(v, out + [hi] + [lo], t, true)
    ensures |out| + 2 <= 2 * Max(1, (BitLen(v) + 7) / 8)
  {
    hide Pow, Magnitude, BitLen;
    PrefixByte(v, t);
    MagnitudeSnoc(16, out, hi);
    MagnitudeSnoc(16, out + [hi], lo);
    if !k {
      EmptyMagnitude(16);
      if v / Pow256(t) > 0 { SignificantBytes(v, t); }
    }
  }

  /** One byte of limb i - 1: skipped, or written as two characters. */
  method WriteByte(X: Mpi, i: nat, j: nat, k0: bool, buf: array<char>, start: nat, p0: nat)
    returns (p: nat, k: bool)
    requires 1 <= i <= |X.p| && 1 <= j <= CIL && start <= p0 <= buf.Length
    requires start + 2 * Max(1, (BitLen(Val(X.p)) + 7) / 8) <= buf.Length
    requires HexState(Val(X.p), buf[start..p0], CIL * (i - 1) + j, k0)
    modifies buf
    ensures start <= p <= buf.Length && buf[..start] == old(buf[..start])
    ensures HexState(Val(X.p), buf[start..p], CIL * (i - 1) + (j - 1), k)
  {
    hide Pow, Eval, Magnitude, BitLen, HexState;
    p, k := p0, k0;
    ghost var v, t, out := Val(X.p), CIL * (i - 1) + (j - 1), buf[start..p];
    ByteOfLimb(X.p, i - 1, j - 1);
    var c := X.p[i - 1] / Pow(2, 8 * (j - 1)) % 256;
    if c == 0 && !k && i + j != 2 {
      HexSkip(v, out, t);
    } else {
      LastByte(i, j, t);
      HexByte(v, out, t, k, CharOf(c / 16), CharOf(c % 16));
      buf[p] := CharOf(c / 16);
      buf[p + 1] := CharOf(c % 16);
      assert buf[start..p + 2] == out + [CharOf(c / 16)] + [CharOf(c % 16)];
      p := p + 2;
      k := true;
    }
  }

  /** Whole bytes from the top, leading zero bytes skipped, the last one always written. */
  method WriteHex(X: Mpi, buf: array<char>, start: nat) returns (end: nat)
    requires start + 2 * Max(1, (BitLen(Val(X.p)) + 7) / 8) <= buf.Length
    modifies buf
    ensures start <= end <= start + 2 * Max(1, (BitLen(Val(X.p)) + 7) / 8)
    ensures buf[..start] == old(buf[..start])
    ensures AllDigits(16, buf[start..end]) && Magnitude(16, buf[start..end]) == Val(X.p)
  {
    hide Pow, Eval, Magnitude, BitLen, HexState;
    var p, k := start, false;
    var i := |X.p|;
    BasePow(i);
    assert 8 * (CIL * i) == BIL * i by { MulAssoc(8, CIL, i); }
    HexStart(Val(X.p), CIL * i);
    assert buf[start..start] == [];
    while i > 0
      invariant 0 <= i <= |X.p| && start <= p <= buf.Length
      invariant buf[..start] == old(buf[..start])
      invariant HexState(Val(X.p), buf[start..p], CIL * i, k)
    {
      var j := CIL;
      MulDist(CIL, i, 1);
      while j > 0
        invariant 0 <= j <= CIL && start <= p <= buf.Length
        invariant buf[..start] == old(buf[..start])
        invariant HexState(Val(X.p), buf[start..p], CIL * (i - 1) + j, k)
      {
        p, k := WriteByte(X, i, j, k, buf, start, p);
        j := j - 1;
      }
      i := i - 1;
    }
    HexEnd(Val(X.p), buf[start..p], k);
    return p;
  }

  lemma LastByte(i: nat, j: nat, t: int)
    requires i >= 1 && j >= 1 && t == CIL * (i - 1) + (j - 1)
    ensures i + j == 2 ==> t == 0
  {
    if i + j == 2 { assert CIL * 0 == 0; }
  }

  lemma HexEnd(v: nat, out: string, k: bool)
    requires HexState(v, out, 0, k)
    ensures AllDigits(16, out) && Magnitude(16, out) == v
    ensures |out| <= 2 * Max(1, (BitLen(v) + 7) / 8)
  {
    hide Magnitude, BitLen, Pow;
    PowStep(2, 0);
    DivModUnique(v, Pow256(0), v, 0);
  }

  // ------------------------------------------------------------ the whole

  /**
   * Export to text.  A buffer of the reserved size is always enough; the text is a numeral
   * for X followed by its terminator.
   */
  method WriteString(X: Mpi, radix: Sint, buf: array<char>) returns (ret: Status, olen: nat)
    requires radix == 2 ==> |X.p| > 0
    modifies buf
    ensures ret == if radix < 2 || radix > 16 then BadInput
                   else if buf.Length < SpaceFor(BitLen(Val(X.p)), radix) then BufferTooSmall else Ok
    ensures ret == BufferTooSmall ==> olen == SpaceFor(BitLen(Val(X.p)), radix) && buf[..] == old(buf[..])
    ensures ret == Ok ==> 1 <= olen <= SpaceFor(BitLen(Val(X.p)), radix) <= buf.Length
    ensures ret == Ok ==> buf[olen - 1] == '\0' && '\0' !in buf[..olen - 1]
    ensures ret == Ok ==> IsNumeral(radix, buf[..olen - 1]) && NumeralValue(radix, buf[..olen - 1]) == X.Value()
  {
    hide Pow, Eval, Magnitude, BitLen, SpaceFor;
    if radix < 2 || radix > 16 { return BadInput, 0; }
    var bits := BitlenOf(X);
    var n := SpaceFor(bits, radix);
    if buf.Length < n { return BufferTooSmall, n; }
    var end := WriteDigits(X, radix, buf, bits);
    buf[end] := '\0';
    return Ok, end + 1;
  }

  /** The sign and the digits, leaving room for the terminator. */
  method WriteDigits(X: Mpi, radix: Sint, buf: array<char>, bits: nat) returns (end: nat)
    requires 2 <= radix <= 16 && (radix == 2 ==> |X.p| > 0)
    requires bits == BitLen(Val(X.p)) && SpaceFor(bits, radix) <= buf.Length
    modifies buf
    ensures end + 1 <= SpaceFor(bits, radix)
    ensures IsNumeral(radix, buf[..end]) && '\0' !in buf[..end]
    ensures NumeralValue(radix, buf[..end]) == X.Value()
  {
    hide Pow, Eval, Magnitude, BitLen, SpaceFor, IsNumeral, NumeralValue;
    var start := 0;
    if X.s == -1 {
      SpacePositive(bits, radix);
      buf[0] := '-';
      start := 1;
    }
    ghost var sign := buf[..start];
    assert sign == if X.s == -1 then ['-'] else [];
    if radix == 16 {
      SpaceCoversHex(bits);
      end := WriteHex(X, buf, start);
    } else {
      end := WriteMagnitude(X, radix, buf, start, bits);
    }
    assert buf[..end] == sign + buf[start..end];
    assert X.Value() == if X.s == -1 then -Val(X.p) else Val(X.p);
    NumeralFrom(radix, buf[start..end], X.s == -1);
  }

  lemma SpacePositive(bits: nat, radix: int)
    ensures SpaceFor(bits, radix) >= 3
  {
  }

  lemma FirstIsDigit(radix: int, s: string)
    requires AllDigits(radix, s) && radix <= 16
    ensures !Negative(s)
  {
  }

  /** Digits with an optional sign in front form the numeral they should. */
  lemma NumeralFrom(radix: int, digits: string, neg: bool)
    requires AllDigits(radix, digits) && radix <= 16
    ensures var s := (if neg then ['-'] else []) + digits;
      IsNumeral(radix, s) && '\0' !in s
      && NumeralValue(radix, s) == if neg then -Magnitude(radix, digits) else Magnitude(radix, digits)
  {
    var s := (if neg then ['-'] else []) + digits;
    FirstIsDigit(radix, digits);
    if neg {
      assert s[1..] == digits;
    } else {
      assert s == digits;
    }
    assert forall c :: c in digits ==> DigitOf(c) < radix;
  }

  /** The digits of |X| in a radix below 16, through a positive copy. */
  method WriteMagnitude(X: Mpi, radix: Sint, buf: array<char>, start: nat, bits: nat) returns (end: nat)
    requires 2 <= radix < 16 && (radix == 2 ==> |X.p| > 0)
    requires bits == BitLen(Val(X.p)) && start <= 1 && SpaceFor(bits, radix) <= buf.Length
    modifies buf
    ensures start < end && end + 1 <= SpaceFor(bits, radix)
    ensures buf[..start] == old(buf[..start])
    ensures AllDigits(radix, buf[start..end]) && Magnitude(radix, buf[start..end]) == Val(X.p)
  {
    hide Pow, Eval, Magnitude, BitLen, SpaceFor;
    var T := new Mpi();
    Copy(T, X);
    if T.s == -1 { T.s := 1; }
    SpacePositive(bits, radix);
    NoOverflow(Val(X.p), radix, buf.Length - start);
    var ret;
    ret, end := WriteHlp(T, radix, buf, start, buf.Length);
    DigitCount(Val(X.p), radix, end - start);
    SpaceCovers(bits, radix, end - start);
  }

  /** A number never needs as many digits as the buffer has room for. */
  lemma NoOverflow(v: nat, radix: int, room: nat)
    requires 2 <= radix < 16 && room + 1 >= SpaceFor(BitLen(v), radix)
    ensures Pow(radix, room) > v
  {
    hide Pow, BitLen;
    if Pow(radix, room) <= v {
      DigitCount(v, radix, room + 1);
      SpaceCovers(BitLen(v), radix, room + 1);
    }
  }

  /** Reading back what was written gives the number. */
  method RoundTrip(X: Mpi, radix: Sint, buf: array<char>) returns (Y: Mpi, ret: Status)
    requires 2 <= radix <= 16 && (radix == 2 ==> |X.p| > 0)
    requires buf.Length >= SpaceFor(BitLen(Val(X.p)), radix)
    modifies buf
    ensures fresh(Y) && ret == Ok && Y.Value() == X.Value()
  {
    hide Pow, Eval, Magnitude, BitLen, SpaceFor, NumeralValue, IsNumeral;
    var olen;
    ret, olen := WriteString(X, radix, buf);
    Y := new Mpi();
    ret := ReadString(Y, radix, buf[..olen - 1]);
  }
}
