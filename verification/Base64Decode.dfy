/** Decoding base64: a first pass checks the text and bounds the output, a second writes it. */
module Base64Decode {
  import opened Numbers
  import opened Base64
  import opened Bits

  // -------------------------------------------------------- what text is valid

  predicate IsBlank(c: Octet) {
    c == SPACE || c == CR || c == LF
  }

  /** The characters that are neither line ends nor spaces. */
  function Strip(s: Text): (r: Text)
    ensures |r| <= |s|
  {
    if s == [] then []
    else Strip(s[..|s| - 1]) + if IsBlank(s[|s| - 1]) then [] else [s[|s| - 1]]
  }

  /** A carriage return comes before a line feed; a space before another, a line end or nothing. */
  predicate Fine(s: Text, k: nat)
    requires k < |s|
  {
    && (s[k] == CR ==> k + 1 < |s| && s[k + 1] == LF)
    && (s[k] == SPACE ==> k + 1 == |s| || IsBlank(s[k + 1]))
  }

  predicate LayoutOk(s: Text) {
    forall k :: 0 <= k < |s| ==> Fine(s, k)
  }

  /** m digits and behind them at most two padding characters. */
  predicate Shape(d: Text, m: nat) {
    && m <= |d| <= m + 2
    && (forall i :: 0 <= i < m ==> IsDigit(d[i]))
    && (forall i :: m <= i < |d| ==> d[i] == PAD)
  }

  ghost predicate DigitsOk(d: Text) {
    exists m: nat :: Shape(d, m)
  }

  ghost predicate Valid(s: Text) {
    LayoutOk(s) && DigitsOk(Strip(s))
  }

  lemma {:induction false} StripConcat(s: Text, t: Text)
    ensures Strip(s + t) == Strip(s) + Strip(t)
  {
    hide IsBlank;
    if t == [] {
      assert s + t == s;
    } else {
      var m := |t| - 1;
      assert (s + t)[..|s + t| - 1] == s + t[..m];
      StripConcat(s, t[..m]);
    }
  }

  lemma StripNext(s: Text, i: nat)
    requires i < |s|
    ensures Strip(s[..i + 1]) == if IsBlank(s[i]) then Strip(s[..i]) else Strip(s[..i]) + [s[i]]
  {
    assert s[..i + 1][..i] == s[..i];
  }

  lemma DigitsPrefix(d: Text, k: nat)
    requires DigitsOk(d) && k <= |d|
    ensures DigitsOk(d[..k])
  {
    var m: nat :| Shape(d, m);
    assert Shape(d[..k], if k < m then k else m);
  }

  /** If some part from the front is no good, the whole is not. */
  lemma BadFront(s: Text, i: nat)
    requires i <= |s| && !DigitsOk(Strip(s[..i]))
    ensures !Valid(s)
  {
    hide DigitsOk;
    assert s == s[..i] + s[i..];
    StripConcat(s[..i], s[i..]);
    var d, p := Strip(s), Strip(s[..i]);
    assert d[..|p|] == p;
    if DigitsOk(d) { DigitsPrefix(d, |p|); }
  }

  // ------------------------------------------------------------- what it means

  /** The bytes of four characters; of a padded group fewer. */
  function Bytes3(a: Octet, b: Octet, c: Octet, d: Octet): (r: Text)
    ensures 1 <= |r| <= 3
  {
    var v := Value(a) * 0x4_0000 + Value(b) * 0x1000 + Value(c) * 0x40 + Value(d);
    var all: Text := [v / 0x1_0000 % 256, v / 0x100 % 256, v % 256];
    if d != PAD then all else if c != PAD then all[..2] else all[..1]
  }

  /** Six bits; padding counts as zero. */
  function Value(c: Octet): (v: int)
    ensures 0 <= v < 64
  {
    DecMap(c) % 64
  }

  /** The bytes of all whole groups of four. */
  function Decoded(d: Text): Text {
    if |d| < 4 then [] else Bytes3(d[0], d[1], d[2], d[3]) + Decoded(d[4..])
  }

  /** The room the first pass asks for. */
  function Needed(n: nat, pads: nat): int {
    (6 * n + 7) / 8 - pads
  }

  lemma {:induction false} DecodedConcat(d: Text, e: Text)
    requires |d| % 4 == 0
    ensures Decoded(d + e) == Decoded(d) + Decoded(e)
  {
    hide Bytes3;
    if d == [] {
      assert d + e == e;
    } else {
      DecodedConcat(d[4..], e);
      assert (d + e)[4..] == d[4..] + e;
    }
  }

  /** A character more: a group, of which q characters are before, is completed or not. */
  lemma DecodedNext(d: Text, c: Octet, q: nat)
    requires q % 4 == 0 && q <= |d| < q + 4
    ensures Decoded(d + [c]) == Decoded(d) + if |d| == q + 3 then Bytes3(d[q], d[q + 1], d[q + 2], c) else []
  {
    hide Bytes3, Decoded;
    var front, back := d[..q], d[q..];
    DecodedConcat(front, back);
    DecodedConcat(front, back + [c]);
    assert front + back == d && front + (back + [c]) == d + [c];
    DecodedFew(back);
    DecodedFew(back + [c]);
  }

  lemma DecodedFew(d: Text)
    ensures |d| < 4 ==> Decoded(d) == []
    ensures |d| == 4 ==> Decoded(d) == Bytes3(d[0], d[1], d[2], d[3])
  {
    hide Bytes3;
    if |d| == 4 { assert d[4..] == []; }
  }

  function Above(x: nat, m: nat): nat {
    if x > m then x - m else 0
  }

  /** Three bytes for each of g groups, less one for each padding character in them. */
  lemma {:induction false} DecodedSize(d: Text, m: nat, g: nat)
    requires Shape(d, m) && 4 * g <= |d| < 4 * g + 4
    ensures |Decoded(d)| == 3 * g - Above(4 * g, m)
  {
    hide Bytes3, Decoded;
    if g == 0 {
      DecodedFew(d);
    } else {
      var a, b := d[..4], d[4..];
      assert a + b == d;
      DecodedConcat(a, b);
      DecodedFew(a);
      GroupSize(a, d, m);
      if m >= 4 {
        assert Shape(b, m - 4);
        DecodedSize(b, m - 4, g - 1);
      } else {
        DecodedFew(b);
      }
    }
  }

  lemma GroupSize(a: Text, d: Text, m: nat)
    requires Shape(d, m) && |d| >= 4 && a == d[..4]
    ensures |Bytes3(a[0], a[1], a[2], a[3])| == 3 - Above(4, m)
  {
    hide DecMap, Value;
    if m >= 4 { DigitIsNoPad(d[3]); }
    if m == 3 { DigitIsNoPad(d[2]); }
  }

  lemma DigitIsNoPad(c: Octet)
    requires IsDigit(c)
    ensures c != PAD && !IsBlank(c)
  {
  }

  /** How many bytes come out: never more than was asked for, and as many exactly if the padding covers the rest. */
  lemma DecodedLength(d: Text, m: nat)
    requires Shape(d, m)
    ensures |Decoded(d)| <= Needed(|d|, |d| - m)
    ensures |Decoded(d)| == Needed(|d|, |d| - m) <==> |d| % 4 <= |d| - m
  {
    hide Decoded;
    DecodedSize(d, m, |d| / 4);
  }

  // ------------------------------------------------------------- first pass

  /** The position after the spaces from i0 on, and how many there were. */
  method SkipSpaces(src: Text, i0: nat) returns (i: nat, x: nat)
    requires i0 <= |src|
    ensures i0 <= i <= |src| && x == i - i0 && (i < |src| ==> src[i] != SPACE)
    ensures forall k :: i0 <= k < i ==> src[k] == SPACE
    ensures Strip(src[..i]) == Strip(src[..i0])
  {
    i, x := i0, 0;
    while i < |src| && src[i] == SPACE
      invariant i0 <= i <= |src| && x == i - i0 && Strip(src[..i]) == Strip(src[..i0])
      invariant forall k :: i0 <= k < i ==> src[k] == SPACE
    {
      StripNext(src, i);
      i := i + 1;
      x := x + 1;
    }
  }

  predicate FineUpTo(s: Text, i: nat) {
    forall k :: 0 <= k < i && k < |s| ==> Fine(s, k)
  }

  /** Spaces before a line end or the end of the text are fine. */
  lemma SpacesFine(s: Text, i0: nat, i: nat)
    requires i0 <= i <= |s| && FineUpTo(s, i0)
    requires forall k :: i0 <= k < i ==> s[k] == SPACE
    requires i == i0 || i == |s| || IsBlank(s[i])
    ensures FineUpTo(s, i)
  {
  }

  lemma SpaceInLine(s: Text, i: nat)
    requires 0 < i < |s| && s[i - 1] == SPACE && !IsBlank(s[i])
    ensures !LayoutOk(s)
  {
    assert !Fine(s, i - 1);
  }

  lemma LoneReturn(s: Text, i: nat)
    requires i < |s| && s[i] == CR && !(i + 1 < |s| && s[i + 1] == LF)
    ensures !LayoutOk(s)
  {
    assert !Fine(s, i);
  }

  /** What one more character does to the shape. */
  lemma ShapeNext(d: Text, m: nat, c: Octet)
    requires Shape(d, m)
    ensures IsDigit(c) && m == |d| ==> Shape(d + [c], m + 1)
    ensures c == PAD && |d| < m + 2 ==> Shape(d + [c], m)
    ensures DigitsOk(d + [c]) <==> (IsDigit(c) && m == |d|) || (c == PAD && |d| < m + 2)
  {
    hide DecMap;
    assert forall i :: 0 <= i < |d| ==> (d + [c])[i] == d[i];
    if DigitsOk(d + [c]) {
      var k: nat :| Shape(d + [c], k);
      assert (d + [c])[|d|] == c;
      if IsDigit(c) { DigitIsNoPad(c); }
      if m < |d| { assert (d + [c])[m] == PAD; NoDigit(); }
      if k < m { assert (d + [c])[k] == PAD && IsDigit(d[k]); NoDigit(); }
    }
  }

  lemma NoDigit()
    ensures !IsDigit(PAD) && DecMap(PAD) == 64
  {
  }

  method FirstPass(src: Text) returns (ok: bool, n: nat, j: nat)
    ensures ok <==> Valid(src)
    ensures ok ==> n == |Strip(src)| && j <= n && Shape(Strip(src), n - j)
  {
    hide Fine, Strip, Shape, DecMap, IsBlank, FineUpTo;
    var i, x := 0, 0;
    n, j := 0, 0;
    Nothing(src);
    while i < |src|
      invariant i <= |src| && j <= n == |Strip(src[..i])| && Shape(Strip(src[..i]), n - j) && FineUpTo(src, i)
      decreases |src| - i
    {
      ghost var i0 := i;
      i, x := SkipSpaces(src, i);
      if i == |src| {
        SpacesFine(src, i0, i);
        break;
      }
      StripNext(src, i);
      Blanks(src[i]);
      if |src| - i >= 2 && src[i] == CR && src[i + 1] == LF {
        SpacesFine(src, i0, i);
        LineEnd(src, i);
        i := i + 1;
        continue;
      }
      if src[i] == LF {
        SpacesFine(src, i0, i);
        LineEnd(src, i);
        i := i + 1;
        continue;
      }
      if src[i] == CR { LoneReturn(src, i); }
      ghost var d := Strip(src[..i]);
      if x != 0 {
        if src[i] != CR { SpaceInLine(src, i); }
        return false, n, j;
      }
      ShapeNext(d, n - j, src[i]);
      ShapeSize(d, n - j);
      Codes(src[i]);
      ghost var wrong := src[i] != CR && !DigitsOk(d + [src[i]]);
      if wrong { BadFront(src, i + 1); }
      if src[i] == PAD {
        j := j + 1;
        if j > 2 { return false, n, j; }
      }
      if src[i] > 127 || DecMap(src[i]) == 127 {
        return false, n, j;
      }
      if DecMap(src[i]) < 64 && j != 0 { return false, n, j; }
      CharFine(src, i);
      assert Shape(d + [src[i]], n + 1 - j);
      n := n + 1;
      i := i + 1;
    }
    assert src[..i] == src;
    AllFine(src);
    ok := true;
  }

  lemma Nothing(s: Text)
    ensures Strip(s[..0]) == [] && Shape([], 0) && FineUpTo(s, 0)
  {
  }

  lemma Blanks(c: Octet)
    ensures IsBlank(c) <==> c == SPACE || c == CR || c == LF
    ensures IsBlank(c) ==> c != PAD && !IsDigit(c)
    ensures c == CR ==> DecMap(c) == 127
  {
  }

  lemma ShapeSize(d: Text, m: nat)
    requires Shape(d, m)
    ensures m <= |d| <= m + 2
  {
  }

  lemma Codes(c: Octet)
    ensures DecMap(c) <= 64 || DecMap(c) == 127
    ensures c > 127 ==> DecMap(c) == 127
    ensures c == PAD <==> DecMap(c) == 64
  {
  }

  lemma LineEnd(s: Text, i: nat)
    requires i < |s| && FineUpTo(s, i) && (s[i] == LF || (s[i] == CR && i + 1 < |s| && s[i + 1] == LF))
    ensures FineUpTo(s, i + 1)
  {
  }

  lemma CharFine(s: Text, i: nat)
    requires i < |s| && FineUpTo(s, i) && s[i] != CR && s[i] != SPACE
    ensures FineUpTo(s, i + 1)
  {
  }

  lemma AllFine(s: Text)
    requires FineUpTo(s, |s|)
    ensures LayoutOk(s)
  {
  }

  // ------------------------------------------------------------ second pass

  /** The low bits of x hold the characters of d from q on. */
  predicate Holds(x: nat, d: Text, q: nat) {
    && q <= |d| <= q + 3
    && (|d| == q + 1 ==> x % 0x40 == Value(d[q]))
    && (|d| == q + 2 ==> x % 0x1000 == Value(d[q]) * 0x40 + Value(d[q + 1]))
    && (|d| == q + 3 ==> x % 0x4_0000 == Value(d[q]) * 0x1000 + Value(d[q + 1]) * 0x40 + Value(d[q + 2]))
  }

  /** x << 6 in 32 bits, or-ed with six bits. */
  lemma PushedIs(x: nat, v: nat)
    requires v < 64
    ensures Or(x * 64 % 0x1_0000_0000, v) == x % 0x400_0000 * 64 + v
  {
    hide Pow, Or;
    assert Pow(2, 6) == 64 by { SixtyFour(); }
    OrDisjoint(x % 0x400_0000, v, 6);
    assert x * 64 % 0x1_0000_0000 == x % 0x400_0000 * 64;
  }

  lemma SixtyFour()
    ensures Pow(2, 6) == 64
  {
    PowStep(2, 0);
    PowStep(2, 1);
    PowStep(2, 2);
    PowStep(2, 3);
    PowStep(2, 4);
    PowStep(2, 5);
  }

  lemma PushedLow(x: nat, v: nat, y: nat)
    requires v < 64 && y == x % 0x400_0000 * 64 + v
    ensures y % 0x40 == v && y % 0x1000 == x % 0x40 * 64 + v
    ensures y % 0x4_0000 == x % 0x1000 * 64 + v && y % 0x100_0000 == x % 0x4_0000 * 64 + v
  {
    DivModUnique(y, 64, x % 0x400_0000, v);
    PushedMod(x, v, y, 0x40, 0x10_0000);
    PushedMod(x, v, y, 0x1000, 0x4000);
    PushedMod(x, v, y, 0x4_0000, 0x100);
  }

  /** Modulo a power of two the upper bits do not matter. */
  lemma PushedMod(x: nat, v: nat, y: nat, M: nat, K: nat)
    requires v < 64 && y == x % 0x400_0000 * 64 + v && M > 0 && M * K == 0x400_0000
    ensures y % (M * 64) == x % M * 64 + v
  {
    var z, h := x % 0x400_0000, x / 0x400_0000;
    DivModProps(x, 0x400_0000);
    DivModProps(z, M);
    var q, r := z / M, z % M;
    assert x == M * (K * h + q) + r by {
      MulAssoc(M, K, h);
      MulDist(M, K * h, q);
      MulComm(q, M);
    }
    MulComm(M, K * h + q);
    DivModUnique(x, M, K * h + q, r);
    assert y == q * (M * 64) + (r * 64 + v) by { MulAssoc(q, M, 64); }
    DivModUnique(y, M * 64, q, r * 64 + v);
  }

  lemma HoldsNext(x: nat, d: Text, q: nat, c: Octet, y: nat)
    requires Holds(x, d, q) && y == x % 0x400_0000 * 64 + Value(c)
    ensures |d| < q + 3 ==> Holds(y, d + [c], q)
    ensures |d| == q + 3 ==>
      y % 0x100_0000 == Value(d[q]) * 0x4_0000 + Value(d[q + 1]) * 0x1000 + Value(d[q + 2]) * 0x40 + Value(c)
  {
    hide Value;
    PushedLow(x, Value(c), y);
  }

  /** The bytes of the low 24 bits. */
  lemma LowBytes(x: nat, v: nat)
    requires x % 0x100_0000 == v
    ensures x / 0x1_0000 % 256 == v / 0x1_0000 % 256 && x / 0x100 % 256 == v / 0x100 % 256 && x % 256 == v % 256
  {
    var k := x / 0x100_0000;
    assert x == 0x100_0000 * k + v;
    DivModUnique(x, 0x1_0000, 256 * k + v / 0x1_0000, v % 0x1_0000);
    DivModUnique(256 * k + v / 0x1_0000, 256, k, v / 0x1_0000);
    DivModUnique(x, 0x100, 0x1_0000 * k + v / 0x100, v % 0x100);
    DivModUnique(0x1_0000 * k + v / 0x100, 256, 256 * k + v / 0x100 / 256, v / 0x100 % 256);
    DivModUnique(x, 256, 0x1_0000 * k + v / 256, v % 256);
  }

  /** Of the group that ends behind q + 4 characters as many bytes come out as the padding leaves. */
  lemma GroupOut(D: Text, m: nat, q: nat)
    requires Shape(D, m) && q + 4 <= |D|
    ensures |Bytes3(D[q], D[q + 1], D[q + 2], D[q + 3])| == 3 - Above(q + 4, m)
  {
    hide DecMap, Value;
    if m >= q + 4 { DigitIsNoPad(D[q + 3]); }
    if m == q + 3 { DigitIsNoPad(D[q + 2]); }
  }

  /** A whole number of groups from the front decodes to bytes from the front. */
  lemma DecodedFront(D: Text, k: nat)
    requires k <= |D| && k % 4 == 0
    ensures |Decoded(D[..k])| <= |Decoded(D)|
  {
    hide Decoded;
    assert D[..k] + D[k..] == D;
    DecodedConcat(D[..k], D[k..]);
  }

  /** What the second pass has done when it has read the characters d. */
  ghost predicate Progress(D: Text, m: nat, d: Text, q: nat, x: nat, n: nat, j: int, p: nat, was: Text, now: Text) {
    && d <= D && q % 4 == 0 && |d| == q + n && n < 4 && j == 3 - Above(|d|, m) && x < 0x1_0000_0000
    && Holds(x, d, q) && p == |Decoded(d)| <= |was| && now == Decoded(d) + was[p..]
  }

  method SecondPass(dst: array<Octet>, src: Text, ghost m: nat) returns (olen: nat)
    requires Shape(Strip(src), m) && |Decoded(Strip(src))| <= dst.Length
    modifies dst
    ensures olen == |Decoded(Strip(src))|
    ensures dst[..] == Decoded(Strip(src)) + old(dst[..])[olen..]
  {
    hide Strip, Shape, Decoded, IsBlank, Progress, Holds;
    ghost var D, was, q := Strip(src), dst[..], 0;
    var i, j, n, x, p := 0, 3, 0, 0, 0;
    Start(D, m, was);
    StripNone(src);
    while i < |src|
      invariant 0 <= i <= |src| && Progress(D, m, Strip(src[..i]), q, x, n, j, p, was, dst[..])
    {
      StripNext(src, i);
      Blanks(src[i]);
      if !(src[i] == CR || src[i] == LF || src[i] == SPACE) {
        StripFront(src, i + 1);
        ghost var d := Strip(src[..i]);
        j, n, x, p, q := Take(dst, src[i], D, m, d, q, x, n, j, p, was);
      }
      i := i + 1;
    }
    assert src[..i] == src;
    Finished(D, m, q, x, n, j, p, was, dst[..]);
    olen := p;
  }

  lemma Start(D: Text, m: nat, was: Text)
    requires Shape(D, m)
    ensures Progress(D, m, [], 0, 0, 0, 3, 0, was, was)
  {
    DecodedFew([]);
  }

  lemma StripNone(s: Text)
    ensures Strip(s[..0]) == []
  {
  }

  lemma StripFront(s: Text, i: nat)
    requires i <= |s|
    ensures Strip(s[..i]) <= Strip(s)
  {
    hide Strip;
    var a, b := s[..i], s[i..];
    assert s == a + b;
    StripConcat(a, b);
  }

  lemma Finished(D: Text, m: nat, q: nat, x: nat, n: nat, j: int, p: nat, was: Text, now: Text)
    requires Progress(D, m, D, q, x, n, j, p, was, now)
    ensures p == |Decoded(D)| <= |was| && now == Decoded(D) + was[p..]
  {
  }

  /** One character of the second pass. */
  method Take(dst: array<Octet>, c: Octet, ghost D: Text, ghost m: nat, ghost d: Text, ghost q0: nat,
              x0: nat, n0: nat, j0: int, p0: nat, ghost was: Text)
    returns (j: int, n: nat, x: nat, p: nat, ghost q: nat)
    requires Shape(D, m) && |Decoded(D)| <= dst.Length == |was| && d + [c] <= D
    requires Progress(D, m, d, q0, x0, n0, j0, p0, was, dst[..])
    modifies dst
    ensures Progress(D, m, d + [c], q, x, n, j, p, was, dst[..])
  {
    hide Shape, Decoded, Value, DecMap, Or;
    PadAt(D, m, d, c);
    j := j0 - if DecMap(c) == 64 then 1 else 0;
    x := Or(x0 * 64 % 0x1_0000_0000, DecMap(c) % 64);
    PushedIs(x0, Value(c));
    ValueIs(c);
    n, p, q := n0 + 1, p0, q0;
    DecodedNext(d, c, q);
    HoldsNext(x0, d, q, c, x);
    if n == 4 {
      n, q := 0, q0 + 4;
      p := Emit(dst, x, j, p0, D, m, d, c, q0, was);
    }
  }

  lemma ValueIs(c: Octet)
    ensures Value(c) == DecMap(c) % 64
  {
  }

  lemma PadAt(D: Text, m: nat, d: Text, c: Octet)
    requires Shape(D, m) && d + [c] <= D
    ensures DecMap(c) == 64 <==> |d| >= m
  {
    assert (d + [c])[|d|] == c == D[|d|];
  }

  /** Writes what a whole group leaves. */
  method Emit(dst: array<Octet>, x: nat, j: int, p0: nat, ghost D: Text, ghost m: nat, ghost d: Text, ghost c: Octet,
              ghost q: nat, ghost was: Text)
    returns (p: nat)
    requires Shape(D, m) && |Decoded(D)| <= dst.Length == |was| && d + [c] <= D && |d| == q + 3 && q % 4 == 0
    requires j == 3 - Above(q + 4, m) && p0 == |Decoded(d)| && p0 <= |was| && dst[..] == Decoded(d) + was[p0..]
    requires Decoded(d + [c]) == Decoded(d) + Bytes3(d[q], d[q + 1], d[q + 2], c)
    requires x % 0x100_0000 == Value(d[q]) * 0x4_0000 + Value(d[q + 1]) * 0x1000 + Value(d[q + 2]) * 0x40 + Value(c)
    modifies dst
    ensures p == |Decoded(d + [c])| <= dst.Length && dst[..] == Decoded(d + [c]) + was[p..]
  {
    hide Shape, Decoded, Value, Above;
    GroupEnd(D, m, d, c, q);
    ghost var out := Bytes3(d[q], d[q + 1], d[q + 2], c);
    GroupBytes(d[q], d[q + 1], d[q + 2], c, x);
    hide Bytes3;
    ghost var mid := dst[..];
    p := PutLow(dst, x, j, p0);
    assert out == LowThree(x)[..j];
    assert mid[p..] == was[p0..][j..] == was[p..] && mid[..p0] == Decoded(d);
  }

  function LowThree(x: nat): Text {
    [x / 0x1_0000 % 256, x / 0x100 % 256, x % 256]
  }

  method PutLow(dst: array<Octet>, x: nat, j: int, p0: nat) returns (p: nat)
    requires 0 <= j <= 3 && p0 + j <= dst.Length
    modifies dst
    ensures p == p0 + j && dst[..] == old(dst[..p0]) + LowThree(x)[..j] + old(dst[p0 + j..])
  {
    p := p0;
    if j > 0 { dst[p] := x / 0x1_0000 % 256; p := p + 1; }
    if j > 1 { dst[p] := x / 0x100 % 256; p := p + 1; }
    if j > 2 { dst[p] := x % 256; p := p + 1; }
  }

  lemma GroupBytes(a: Octet, b: Octet, c: Octet, d: Octet, x: nat)
    requires x % 0x100_0000 == Value(a) * 0x4_0000 + Value(b) * 0x1000 + Value(c) * 0x40 + Value(d)
    ensures Bytes3(a, b, c, d) == LowThree(x)[..|Bytes3(a, b, c, d)|]
  {
    hide Value;
    LowBytes(x, x % 0x100_0000);
  }

  lemma GroupEnd(D: Text, m: nat, d: Text, c: Octet, q: nat)
    requires Shape(D, m) && d + [c] <= D && |d| == q + 3 && q % 4 == 0
    ensures |Bytes3(d[q], d[q + 1], d[q + 2], c)| == 3 - Above(q + 4, m)
    ensures |Decoded(d + [c])| <= |Decoded(D)|
  {
    hide Bytes3, Decoded, Above, Shape;
    var e := d + [c];
    assert e == D[..q + 4];
    assert D[q] == e[q] && D[q + 1] == e[q + 1] && D[q + 2] == e[q + 2] && D[q + 3] == e[q + 3];
    GroupOut(D, m, q);
    DecodedFront(D, q + 4);
  }

  // ------------------------------------------------------------------ decode

  function Pads(d: Text): nat {
    if d == [] then 0 else Pads(d[..|d| - 1]) + if d[|d| - 1] == PAD then 1 else 0
  }

  lemma {:induction false} PadsIs(d: Text, m: nat)
    requires Shape(d, m)
    ensures Pads(d) == |d| - m
  {
    if d != [] {
      var k := |d| - 1;
      if m <= k {
        assert Shape(d[..k], m);
        PadsIs(d[..k], m);
      } else {
        assert IsDigit(d[k]);
        DigitIsNoPad(d[k]);
        assert Shape(d[..k], k);
        PadsIs(d[..k], k);
      }
    }
  }

  /**
   * Text that is not valid is refused; otherwise the output is the bytes of its whole groups of four, never
   * more of them than the length the first pass asks room for.
   */
  method Decode(dst: array?<Octet>, dlen: nat, src: Text) returns (ret: int, olen: int)
    requires dst != null ==> dlen <= dst.Length
    modifies dst
    ensures var d := Strip(src);
      if !Valid(src) then ret == INVALID_CHARACTER
      else if d == [] then ret == 0 && olen == 0
      else if dst == null || dlen < Needed(|d|, Pads(d)) then ret == BUFFER_TOO_SMALL && olen == Needed(|d|, Pads(d))
      else ret == 0 && olen == |Decoded(d)| <= Needed(|d|, Pads(d)) && dst[..] == Decoded(d) + old(dst[..])[olen..]
    ensures dst != null && (ret != 0 || olen == 0) ==> dst[..] == old(dst[..])
  {
    hide Decoded, Strip, Valid, Shape;
    var ok, n, j := FirstPass(src);
    if !ok { return INVALID_CHARACTER, 0; }
    if n == 0 { return 0, 0; }
    var need: int := 6 * (n / 8) + (6 * (n % 8) + 7) / 8;
    need := need - j;
    NeedIs(n, j, need);
    PadsIs(Strip(src), n - j);
    DecodedLength(Strip(src), n - j);
    if dst == null || dlen < need { return BUFFER_TOO_SMALL, need; }
    olen := SecondPass(dst, src, n - j);
    ret := 0;
    if olen == 0 { assert dst[..] == old(dst[..])[0..]; }
  }

  lemma NeedIs(n: nat, j: nat, need: int)
    requires need == 6 * (n / 8) + (6 * (n % 8) + 7) / 8 - j
    ensures need == Needed(n, j)
  {
  }

  // -------------------------------------------------------------- round trips

  function PadsOf(n: nat): (p: nat)
    ensures p <= 2
  {
    (3 - n % 3) % 3
  }

  lemma ValueBack(v: int)
    requires 0 <= v < 64
    ensures Value(EncMap(v)) == v && IsDigit(EncMap(v))
  {
    MapsInverse(0, v);
  }

  /** The six bits come back out of the four characters. */
  lemma FourBack(a: Octet, b: Octet, c: Octet)
    ensures |Four(a, b, c)| == 4
    ensures var f := Four(a, b, c);
      && Value(f[0]) == a / 4 && Value(f[1]) == a % 4 * 16 + b / 16
      && Value(f[2]) == b % 16 * 4 + c / 64 && Value(f[3]) == c % 64
    ensures IsDigit(Four(a, b, c)[0]) && IsDigit(Four(a, b, c)[1]) && IsDigit(Four(a, b, c)[2]) && IsDigit(Four(a, b, c)[3])
  {
    hide Value, IsDigit, EncMap;
    ValueBack(a / 4);
    ValueBack(a % 4 * 16 + b / 16);
    ValueBack(b % 16 * 4 + c / 64);
    ValueBack(c % 64);
  }

  lemma SumBack(a: Octet, b: Octet, c: Octet, v: nat)
    requires v == a / 4 * 0x4_0000 + (a % 4 * 16 + b / 16) * 0x1000 + (b % 16 * 4 + c / 64) * 0x40 + c % 64
    ensures v == a * 0x1_0000 + b * 0x100 + c
    ensures v / 0x1_0000 % 256 == a && v / 0x100 % 256 == b && v % 256 == c
  {
    assert v == a * 0x1_0000 + b * 0x100 + c;
    SumBytes(a, b, c, v);
  }

  /** What comes out of the characters of three bytes, the last one or two of them padding perhaps. */
  lemma GroupBack(a: Octet, b: Octet, c: Octet, y: Octet, z: Octet)
    requires y == Four(a, b, c)[2] || (y == PAD && b % 16 == 0 && c == 0)
    requires z == Four(a, b, c)[3] || (z == PAD && c % 64 == 0)
    ensures Bytes3(Four(a, b, c)[0], Four(a, b, c)[1], y, z) ==
      if z != PAD then [a, b, c] else if y != PAD then [a, b] else [a]
  {
    FourBack(a, b, c);
    PadIsZero();
    hide Value, Four, DecMap;
    var v := a / 4 * 0x4_0000 + (a % 4 * 16 + b / 16) * 0x1000 + (b % 16 * 4 + c / 64) * 0x40 + c % 64;
    SumBack(a, b, c, v);
    assert Value(y) == b % 16 * 4 + c / 64 && Value(z) == c % 64;
  }

  lemma PadIsZero()
    ensures Value(PAD) == 0
  {
  }

  /** Every byte string: its encoding has the right shape and decodes to it. */
  lemma {:induction false} EncodedDecodes(s: Text)
    ensures |Encoded(s)| >= PadsOf(|s|) && Shape(Encoded(s), |Encoded(s)| - PadsOf(|s|))
    ensures Decoded(Encoded(s)) == s
  {
    hide Encoded, Four, Bytes3, Decoded, IsDigit;
    if s == [] {
      EncodedFew(s);
      DecodedFew([]);
    } else if |s| <= 2 {
      PaddedDecodes(s);
    } else {
      var f, rest := Four(s[0], s[1], s[2]), Encoded(s[3..]);
      EncodedFront(s);
      EncodedDecodes(s[3..]);
      FourBack(s[0], s[1], s[2]);
      DigitIsNoPad(f[3]);
      GroupBack(s[0], s[1], s[2], f[2], f[3]);
      DecodedConcat(f, rest);
      DecodedFew(f);
      ShapeBehind(f, rest, |rest| - PadsOf(|s| - 3));
      assert s == [s[0], s[1], s[2]] + s[3..];
    }
  }

  lemma EncodedFront(s: Text)
    requires |s| >= 3
    ensures Encoded(s) == Four(s[0], s[1], s[2]) + Encoded(s[3..])
  {
    hide Four;
  }

  lemma PaddedDecodes(s: Text)
    requires 1 <= |s| <= 2
    ensures |Encoded(s)| == 4 && Shape(Encoded(s), 4 - PadsOf(|s|)) && Decoded(Encoded(s)) == s
  {
    hide Encoded, Four, Bytes3, Decoded, IsDigit, Value;
    EncodedFew(s);
    DecodedFew(Encoded(s));
    var b := if |s| == 1 then 0 else s[1];
    FourBack(s[0], b, 0);
    var f := Four(s[0], b, 0);
    DigitIsNoPad(f[2]);
    GroupBack(s[0], b, 0, if |s| == 1 then PAD else f[2], PAD);
  }

  lemma ShapeBehind(f: Text, rest: Text, m: nat)
    requires Shape(rest, m) && forall i :: 0 <= i < |f| ==> IsDigit(f[i])
    ensures Shape(f + rest, |f| + m)
  {
    forall i | 0 <= i < |f| + m ensures IsDigit((f + rest)[i]) {
      if i >= |f| { assert (f + rest)[i] == rest[i - |f|]; }
    }
    forall i | |f| + m <= i < |f + rest| ensures (f + rest)[i] == PAD {
      assert (f + rest)[i] == rest[i - |f|];
    }
  }

  lemma {:induction false} EncodingFacts(s: Text)
    ensures DigitsOk(Encoded(s)) && Decoded(Encoded(s)) == s
    ensures Needed(|Encoded(s)|, Pads(Encoded(s))) == |s|
  {
    hide Encoded, Decoded, Shape, Needed, Pads;
    EncodedDecodes(s);
    EncodedSize(s);
    var d := Encoded(s);
    PadsIs(d, |d| - PadsOf(|s|));
    RoomIs(|s|, |d|);
  }

  /**
   * Text laid out in any way whose characters are an encoding is accepted, decodes to the original bytes,
   * and the room asked for is exactly theirs.
   */
  lemma {:induction false} AnyLayoutDecodes(t: Text, s: Text)
    requires LayoutOk(t) && Strip(t) == Encoded(s)
    ensures Valid(t) && Decoded(Strip(t)) == s && Needed(|Strip(t)|, Pads(Strip(t))) == |s|
  {
    hide LayoutOk, DigitsOk, Strip, Encoded, Decoded, Needed, Pads;
    EncodingFacts(s);
  }

  lemma EncodedSize(s: Text)
    ensures |Encoded(s)| == 4 * ((|s| + 2) / 3)
  {
  }

  lemma RoomIs(n: nat, k: nat)
    requires k == 4 * ((n + 2) / 3)
    ensures Needed(k, PadsOf(n)) == n
  {
  }

  /** An encoding as it stands is laid out well and has nothing to strip. */
  lemma {:induction false} EncodedPlain(s: Text)
    ensures LayoutOk(Encoded(s)) && Strip(Encoded(s)) == Encoded(s)
  {
    EncodedDecodes(s);
    hide Encoded, Decoded;
    NoBlanks(Encoded(s), |Encoded(s)| - PadsOf(|s|));
  }

  lemma {:induction false} NoBlanks(d: Text, m: nat)
    requires Shape(d, m)
    ensures Strip(d) == d && LayoutOk(d)
  {
    hide DecMap;
    forall k | 0 <= k < |d| ensures !IsBlank(d[k]) {
      if k < m { DigitIsNoPad(d[k]); }
    }
    StripSame(d);
  }

  lemma {:induction false} StripSame(d: Text)
    requires forall k :: 0 <= k < |d| ==> !IsBlank(d[k])
    ensures Strip(d) == d
  {
    if d != [] { StripSame(d[..|d| - 1]); }
  }

  /** A line break put in anywhere, but not inside another, changes neither the layout's validity nor the characters. */
  lemma InsertBreak(t: Text, k: nat, br: Text)
    requires LayoutOk(t) && k <= |t| && (k > 0 ==> t[k - 1] != CR)
    requires br == [LF] || br == [CR, LF]
    ensures LayoutOk(t[..k] + br + t[k..]) && Strip(t[..k] + br + t[k..]) == Strip(t)
  {
    var a, b := t[..k], t[k..];
    assert t == a + b;
    assert Strip(br) == [] by { BreakStrips(br); }
    StripConcat(a, b);
    StripConcat(a, br);
    StripConcat(a + br, b);
    BreakFine(t, k, br);
  }

  lemma BreakStrips(br: Text)
    requires br == [LF] || br == [CR, LF]
    ensures Strip(br) == []
  {
    assert [LF][..0] == [] && [CR, LF][..1] == [CR] && [CR][..0] == [];
  }

  lemma BreakFine(t: Text, k: nat, br: Text)
    requires LayoutOk(t) && k <= |t| && (k > 0 ==> t[k - 1] != CR)
    requires br == [LF] || br == [CR, LF]
    ensures LayoutOk(t[..k] + br + t[k..])
  {
    var u := t[..k] + br + t[k..];
    forall i | 0 <= i < |u| ensures Fine(u, i) {
      if i < k {
        assert Fine(t, i) && u[i] == t[i];
        if i + 1 < k { assert u[i + 1] == t[i + 1]; } else { assert u[i + 1] == br[0]; }
      } else if i < k + |br| {
        assert u[i] == br[i - k];
        if i + 1 < k + |br| { assert u[i + 1] == br[i + 1 - k]; }
      } else {
        var j := i - |br|;
        assert Fine(t, j) && u[i] == t[j];
        if j + 1 < |t| { assert u[i + 1] == t[j + 1]; }
      }
    }
  }

  /** The bits of the last character that no byte uses are zero. */
  predicate TailZero(d: Text, m: nat)
    requires m <= |d|
  {
    (m % 4 == 2 ==> Value(d[m - 1]) % 16 == 0) && (m % 4 == 3 ==> Value(d[m - 1]) % 4 == 0)
  }

  /**
   * Decoding and encoding again gives the same characters exactly if they were whole groups with nothing in
   * the unused bits; any others the decoder takes are not what an encoder writes.
   */
  lemma {:induction false} Reencoded(d: Text, m: nat)
    requires Shape(d, m)
    ensures Encoded(Decoded(d)) == d <==> |d| % 4 == 0 && TailZero(d, m)
  {
    hide Encoded, Decoded, TailZero, IsDigit;
    if |d| % 4 == 0 && TailZero(d, m) {
      CanonicalBack(d, m);
    }
    if Encoded(Decoded(d)) == d {
      EncodedSize(Decoded(d));
      EncodedTail(Decoded(d), m);
    }
  }

  lemma {:induction false} CanonicalBack(d: Text, m: nat)
    requires Shape(d, m) && |d| % 4 == 0 && TailZero(d, m)
    ensures Encoded(Decoded(d)) == d
  {
    hide Encoded, IsDigit, Value, Bytes3, Four;
    if d == [] {
      EncodedFew([]);
    } else {
      var a, b := d[..4], d[4..];
      var out := Bytes3(a[0], a[1], a[2], a[3]);
      assert Decoded(d) == out + Decoded(b);
      GroupForth(a[0], a[1], a[2], a[3]);
      if m >= 4 {
        CanonicalBack(b, m - 4);
        EncodedConcat(out, Decoded(b));
      } else {
        assert b == [] && out + [] == out;
      }
      assert d == a + b && a == [a[0], a[1], a[2], a[3]];
    }
  }

  /** A group with zeros in the unused bits is the encoding of its bytes. */
  lemma GroupForth(a: Octet, b: Octet, c: Octet, d: Octet)
    requires IsDigit(a) && IsDigit(b)
    ensures IsDigit(c) && IsDigit(d) ==> |Bytes3(a, b, c, d)| == 3 && Encoded(Bytes3(a, b, c, d)) == [a, b, c, d]
    ensures IsDigit(c) && d == PAD && Value(c) % 4 == 0 ==> Encoded(Bytes3(a, b, c, d)) == [a, b, c, d]
    ensures c == PAD && d == PAD && Value(b) % 16 == 0 ==> Encoded(Bytes3(a, b, c, d)) == [a, b, c, d]
  {
    PadIsZero();
    DigitForth(a);
    DigitForth(b);
    if IsDigit(c) { DigitForth(c); DigitIsNoPad(c); }
    if IsDigit(d) { DigitForth(d); DigitIsNoPad(d); }
    SplitSum(Value(a), Value(b), Value(c), Value(d));
    var out := Bytes3(a, b, c, d);
    EncodedFew(out);
    hide Value, DecMap, IsDigit, EncMap, Encoded;
  }

  lemma DigitForth(c: Octet)
    requires IsDigit(c)
    ensures EncMap(Value(c)) == c
  {
  }

  /** Six-bit pieces out of the bytes they make. */
  lemma SplitSum(a: nat, b: nat, c: nat, d: nat)
    requires a < 64 && b < 64 && c < 64 && d < 64
    ensures var v := a * 0x4_0000 + b * 0x1000 + c * 0x40 + d;
      var x, y, z := v / 0x1_0000 % 256, v / 0x100 % 256, v % 256;
      && x / 4 == a && x % 4 * 16 + y / 16 == b && y % 16 * 4 + z / 64 == c && z % 64 == d
      && (c % 4 == 0 && d == 0 ==> z == 0) && (b % 16 == 0 && c == 0 && d == 0 ==> y == 0)
  {
    var v := a * 0x4_0000 + b * 0x1000 + c * 0x40 + d;
    var x, y, z := a * 4 + b / 16, b % 16 * 16 + c / 4, c % 4 * 0x40 + d;
    assert v == x * 0x1_0000 + y * 0x100 + z;
    SumBytes(x, y, z, v);
    DivModUnique(x, 4, a, b / 16);
    DivModUnique(y, 16, b % 16, c / 4);
    DivModUnique(z, 64, c % 4, d);
  }

  lemma SumBytes(x: nat, y: nat, z: nat, v: nat)
    requires x < 256 && y < 256 && z < 256 && v == x * 0x1_0000 + y * 0x100 + z
    ensures v / 0x1_0000 % 256 == x && v / 0x100 % 256 == y && v % 256 == z
  {
    DivModUnique(v, 0x1_0000, x, y * 0x100 + z);
    DivModUnique(v, 0x100, x * 0x100 + y, z);
    DivModUnique(x * 0x100 + y, 256, x, y);
  }

  /** An encoding has zeros in the bits of its last character that no byte uses. */
  lemma {:induction false} EncodedTail(s: Text, m: nat)
    requires Shape(Encoded(s), m)
    ensures TailZero(Encoded(s), m)
  {
    hide Encoded, Four, IsDigit, Value;
    EncodedFew(s);
    if s == [] {
    } else if |s| <= 2 {
      TailOf(s, m, if |s| == 1 then 0 else s[1], Encoded(s));
    } else {
      var f, rest := Four(s[0], s[1], s[2]), Encoded(s[3..]);
      EncodedFront(s);
      FourBack(s[0], s[1], s[2]);
      DigitWithin(f + rest, m, 3);
      ShapeTail(f, rest, m);
      EncodedTail(s[3..], m - 4);
    }
  }

  lemma ShapeTail(f: Text, rest: Text, m: nat)
    requires |f| <= m && Shape(f + rest, m)
    ensures Shape(rest, m - |f|)
  {
    hide IsDigit;
    assert forall i :: 0 <= i < |rest| ==> rest[i] == (f + rest)[|f| + i];
  }

  lemma DigitWithin(d: Text, m: nat, i: nat)
    requires Shape(d, m) && i < |d| && IsDigit(d[i])
    ensures i < m
  {
    DigitIsNoPad(d[i]);
  }

  lemma TailOf(s: Text, m: nat, b: Octet, e: Text)
    requires 1 <= |s| <= 2 && b == (if |s| == 1 then 0 else s[1]) && Shape(e, m)
    requires e == (if |s| == 1 then Four(s[0], 0, 0)[..2] + [PAD, PAD] else Four(s[0], s[1], 0)[..3] + [PAD])
    ensures TailZero(e, m)
  {
    FourBack(s[0], b, 0);
    hide Four, Value, DecMap;
    DigitWithin(e, m, if |s| == 1 then 1 else 2);
    NoDigit();
  }
}
