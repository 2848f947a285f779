/**
 * The ARIA block cipher.  Decryption is encryption under a transformed key schedule: the round
 * keys in reverse order, the inner ones passed through the diffusion layer.
 */
module Aria {
  import opened Blocks
  import opened Words

  // ------------------------------------------------------ sums of bytes

  /** The exclusive or of the bytes a mask selects, least significant bit first. */
  function Select(m: bv16, s: Bytes): bv8 {
    if s == [] then 0 else XorByte(Pick(m, s[0]), Select(Shr(m), s[1..]))
  }

  function Pick(m: bv16, b: bv8): bv8 {
    if m & 1 != 0 then b else 0
  }

  lemma PickXor(m: bv16, n: bv16, b: bv8)
    ensures Pick(XorMask(m, n), b) == XorByte(Pick(m, b), Pick(n, b))
  {
    assert ((m ^ n) & 1 != 0) == ((m & 1 != 0) != (n & 1 != 0));
    XorByteZero(b);
    XorByteZero(0);
  }

  function Shr(m: bv16): bv16 {
    m >> 1
  }

  function XorMask(m: bv16, n: bv16): bv16 {
    m ^ n
  }

  lemma ShrXor(m: bv16, n: bv16)
    ensures Shr(XorMask(m, n)) == XorMask(Shr(m), Shr(n))
  {
  }

  lemma Exchange(a: bv8, b: bv8, c: bv8, d: bv8)
    ensures XorByte(XorByte(a, b), XorByte(c, d)) == XorByte(XorByte(a, c), XorByte(b, d))
  {
    hide XorByte;
    XorByteAssoc(a, b, XorByte(c, d));
    XorByteAssoc(b, c, d);
    XorByteComm(b, c);
    XorByteAssoc(c, b, d);
    XorByteAssoc(a, c, XorByte(b, d));
  }

  /** A sum is linear in its mask. */
  lemma {:induction false} SelectXor(m: bv16, n: bv16, s: Bytes)
    ensures Select(XorMask(m, n), s) == XorByte(Select(m, s), Select(n, s))
    decreases |s|
  {
    hide XorByte, Pick, Shr, XorMask;
    XorByteZero(0);
    if s != [] {
      ShrXor(m, n);
      SelectXor(Shr(m), Shr(n), s[1..]);
      PickXor(m, n, s[0]);
      Exchange(Pick(m, s[0]), Select(Shr(m), s[1..]), Pick(n, s[0]), Select(Shr(n), s[1..]));
    }
  }

  /** A sum is linear in the bytes. */
  lemma {:induction false} SelectLinear(m: bv16, s: Bytes, t: Bytes)
    requires |s| == |t|
    ensures Select(m, Xor(s, t)) == XorByte(Select(m, s), Select(m, t))
  {
    hide XorByte;
    XorByteZero(0);
    if s != [] {
      SelectLinear(Shr(m), s[1..], t[1..]);
      assert Xor(s, t)[1..] == Xor(s[1..], t[1..]);
      Exchange(Pick(m, s[0]), Select(Shr(m), s[1..]), Pick(m, t[0]), Select(Shr(m), t[1..]));
    }
  }

  lemma {:induction false} SelectNone(s: Bytes)
    ensures Select(0, s) == 0
  {
    if s != [] { SelectNone(s[1..]); }
  }

  /** The mask of byte i alone. */
  function Unit(i: nat): bv16
    requires i < 16
  {
    match i
    case 0 => 0x0001
    case 1 => 0x0002
    case 2 => 0x0004
    case 3 => 0x0008
    case 4 => 0x0010
    case 5 => 0x0020
    case 6 => 0x0040
    case 7 => 0x0080
    case 8 => 0x0100
    case 9 => 0x0200
    case 10 => 0x0400
    case 11 => 0x0800
    case 12 => 0x1000
    case 13 => 0x2000
    case 14 => 0x4000
    case _ => 0x8000
  }

  lemma UnitBits(i: nat)
    requires i < 16
    ensures (Unit(i) & 1 != 0) == (i == 0)
    ensures Shr(Unit(i)) == if i == 0 then 0 else Unit(i - 1)
  {
  }

  lemma {:induction false} SelectUnit(i: nat, s: Bytes)
    requires i < |s| <= 16
    ensures Select(Unit(i), s) == s[i]
  {
    hide XorByte, Unit;
    UnitBits(i);
    XorByteZero(s[i]);
    if i == 0 { SelectNone(s[1..]); } else { SelectUnit(i - 1, s[1..]); }
    XorByteZero(Select(Shr(Unit(i)), s[1..]));
  }

  // ------------------------------------------------------ diffusion layer

  /** The bytes summed into byte i: the 16 equations of section 2.4.3 of RFC 5794. */
  function Row(i: nat): bv16
    requires i < 16
  {
    match i
    case 0 => 0x6358
    case 1 => 0x93A4
    case 2 => 0x9C52
    case 3 => 0x6CA1
    case 4 => 0xC925
    case 5 => 0xC61A
    case 6 => 0x3685
    case 7 => 0x394A
    case 8 => 0xA493
    case 9 => 0x5863
    case 10 => 0xA16C
    case 11 => 0x529C
    case 12 => 0x1AC6
    case 13 => 0x25C9
    case 14 => 0x4A39
    case _ => 0x8536
  }

  function Diffused(s: Bytes): (r: Bytes)
    requires |s| == 16
    ensures |r| == 16
  {
    seq(16, i requires 0 <= i < 16 => Select(Row(i), s))
  }

  /** The sum of seven masks. */
  function Seven(a: bv16, b: bv16, c: bv16, d: bv16, e: bv16, f: bv16, g: bv16): bv16 {
    XorMask(XorMask(XorMask(XorMask(XorMask(XorMask(a, b), c), d), e), f), g)
  }

  /** Selecting a sum of seven masks. */
  lemma {:induction false} SelectSeven(a: bv16, b: bv16, c: bv16, d: bv16, e: bv16, f: bv16, g: bv16, s: Bytes)
    ensures Select(Seven(a, b, c, d, e, f, g), s) ==
      XorByte(XorByte(XorByte(XorByte(XorByte(XorByte(Select(a, s), Select(b, s)), Select(c, s)), Select(d, s)),
                      Select(e, s)), Select(f, s)), Select(g, s))
  {
    hide Select, XorMask, XorByte;
    SelectXor(a, b, s);
    var ab := XorMask(a, b);
    SelectXor(ab, c, s);
    var abc := XorMask(ab, c);
    SelectXor(abc, d, s);
    var abcd := XorMask(abc, d);
    SelectXor(abcd, e, s);
    var abcde := XorMask(abcd, e);
    SelectXor(abcde, f, s);
    SelectXor(XorMask(abcde, f), g, s);
  }

  /** When the rows a row selects sum to a unit, that row undoes the layer at its byte. */
  lemma RowOfRows(i: nat, a: nat, b: nat, c: nat, d: nat, e: nat, f: nat, g: nat, s: Bytes)
    requires |s| == 16 && i < 16 && a < 16 && b < 16 && c < 16 && d < 16 && e < 16 && f < 16 && g < 16
    requires Row(i) == Seven(Unit(a), Unit(b), Unit(c), Unit(d), Unit(e), Unit(f), Unit(g))
    requires Seven(Row(a), Row(b), Row(c), Row(d), Row(e), Row(f), Row(g)) == Unit(i)
    ensures Select(Row(i), Diffused(s)) == s[i]
  {
    hide Select, Seven, Row, Unit, XorByte;
    var t := Diffused(s);
    SelectSeven(Unit(a), Unit(b), Unit(c), Unit(d), Unit(e), Unit(f), Unit(g), t);
    SelectUnit(a, t);
    SelectUnit(b, t);
    SelectUnit(c, t);
    SelectUnit(d, t);
    SelectUnit(e, t);
    SelectUnit(f, t);
    SelectUnit(g, t);
    SelectSeven(Row(a), Row(b), Row(c), Row(d), Row(e), Row(f), Row(g), s);
    SelectUnit(i, s);
  }

  /** The exclusive or of seven bytes. */
  function Sum(s: Bytes, a: nat, b: nat, c: nat, d: nat, e: nat, f: nat, g: nat): bv8
    requires a < |s| && b < |s| && c < |s| && d < |s| && e < |s| && f < |s| && g < |s|
  {
    XorByte(XorByte(XorByte(XorByte(XorByte(XorByte(s[a], s[b]), s[c]), s[d]), s[e]), s[f]), s[g])
  }

  lemma RowSum(i: nat, a: nat, b: nat, c: nat, d: nat, e: nat, f: nat, g: nat, s: Bytes)
    requires |s| == 16 && i < 16 && a < 16 && b < 16 && c < 16 && d < 16 && e < 16 && f < 16 && g < 16
    requires Row(i) == Seven(Unit(a), Unit(b), Unit(c), Unit(d), Unit(e), Unit(f), Unit(g))
    ensures Diffused(s)[i] == Sum(s, a, b, c, d, e, f, g)
  {
    hide Select, Seven, Row, Unit, XorByte;
    SelectSeven(Unit(a), Unit(b), Unit(c), Unit(d), Unit(e), Unit(f), Unit(g), s);
    SelectUnit(a, s);
    SelectUnit(b, s);
    SelectUnit(c, s);
    SelectUnit(d, s);
    SelectUnit(e, s);
    SelectUnit(f, s);
    SelectUnit(g, s);
  }

  /** The sixteen equations of section 2.4.3 of RFC 5794. */
  lemma DiffusedBytes(s: Bytes)
    requires |s| == 16
    ensures Diffused(s)[0] == Sum(s, 3, 4, 6, 8, 9, 13, 14)
    ensures Diffused(s)[1] == Sum(s, 2, 5, 7, 8, 9, 12, 15)
    ensures Diffused(s)[2] == Sum(s, 1, 4, 6, 10, 11, 12, 15)
    ensures Diffused(s)[3] == Sum(s, 0, 5, 7, 10, 11, 13, 14)
    ensures Diffused(s)[4] == Sum(s, 0, 2, 5, 8, 11, 14, 15)
    ensures Diffused(s)[5] == Sum(s, 1, 3, 4, 9, 10, 14, 15)
    ensures Diffused(s)[6] == Sum(s, 0, 2, 7, 9, 10, 12, 13)
    ensures Diffused(s)[7] == Sum(s, 1, 3, 6, 8, 11, 12, 13)
    ensures Diffused(s)[8] == Sum(s, 0, 1, 4, 7, 10, 13, 15)
    ensures Diffused(s)[9] == Sum(s, 0, 1, 5, 6, 11, 12, 14)
    ensures Diffused(s)[10] == Sum(s, 2, 3, 5, 6, 8, 13, 15)
    ensures Diffused(s)[11] == Sum(s, 2, 3, 4, 7, 9, 12, 14)
    ensures Diffused(s)[12] == Sum(s, 1, 2, 6, 7, 9, 11, 12)
    ensures Diffused(s)[13] == Sum(s, 0, 3, 6, 7, 8, 10, 13)
    ensures Diffused(s)[14] == Sum(s, 0, 3, 4, 5, 9, 11, 14)
    ensures Diffused(s)[15] == Sum(s, 1, 2, 4, 5, 8, 10, 15)
  {
    hide Select, Diffused, Sum;
    RowSum(0, 3, 4, 6, 8, 9, 13, 14, s);
    RowSum(1, 2, 5, 7, 8, 9, 12, 15, s);
    RowSum(2, 1, 4, 6, 10, 11, 12, 15, s);
    RowSum(3, 0, 5, 7, 10, 11, 13, 14, s);
    RowSum(4, 0, 2, 5, 8, 11, 14, 15, s);
    RowSum(5, 1, 3, 4, 9, 10, 14, 15, s);
    RowSum(6, 0, 2, 7, 9, 10, 12, 13, s);
    RowSum(7, 1, 3, 6, 8, 11, 12, 13, s);
    RowSum(8, 0, 1, 4, 7, 10, 13, 15, s);
    RowSum(9, 0, 1, 5, 6, 11, 12, 14, s);
    RowSum(10, 2, 3, 5, 6, 8, 13, 15, s);
    RowSum(11, 2, 3, 4, 7, 9, 12, 14, s);
    RowSum(12, 1, 2, 6, 7, 9, 11, 12, s);
    RowSum(13, 0, 3, 6, 7, 8, 10, 13, s);
    RowSum(14, 0, 3, 4, 5, 9, 11, 14, s);
    RowSum(15, 1, 2, 4, 5, 8, 10, 15, s);
  }

  /** The diffusion layer is its own inverse. */
  lemma DiffusedTwice(s: Bytes)
    requires |s| == 16
    ensures Diffused(Diffused(s)) == s
  {
    hide Select;
    RowOfRows(0, 3, 4, 6, 8, 9, 13, 14, s);
    RowOfRows(1, 2, 5, 7, 8, 9, 12, 15, s);
    RowOfRows(2, 1, 4, 6, 10, 11, 12, 15, s);
    RowOfRows(3, 0, 5, 7, 10, 11, 13, 14, s);
    RowOfRows(4, 0, 2, 5, 8, 11, 14, 15, s);
    RowOfRows(5, 1, 3, 4, 9, 10, 14, 15, s);
    RowOfRows(6, 0, 2, 7, 9, 10, 12, 13, s);
    RowOfRows(7, 1, 3, 6, 8, 11, 12, 13, s);
    RowOfRows(8, 0, 1, 4, 7, 10, 13, 15, s);
    RowOfRows(9, 0, 1, 5, 6, 11, 12, 14, s);
    RowOfRows(10, 2, 3, 5, 6, 8, 13, 15, s);
    RowOfRows(11, 2, 3, 4, 7, 9, 12, 14, s);
    RowOfRows(12, 1, 2, 6, 7, 9, 11, 12, s);
    RowOfRows(13, 0, 3, 6, 7, 8, 10, 13, s);
    RowOfRows(14, 0, 3, 4, 5, 9, 11, 14, s);
    RowOfRows(15, 1, 2, 4, 5, 8, 10, 15, s);
  }

  /** The diffusion layer is linear. */
  lemma DiffusedLinear(s: Bytes, t: Bytes)
    requires |s| == |t| == 16
    ensures Diffused(Xor(s, t)) == Xor(Diffused(s), Diffused(t))
  {
    hide Select, Row, XorByte;
    forall i | 0 <= i < 16 ensures Diffused(Xor(s, t))[i] == Xor(Diffused(s), Diffused(t))[i] {
      SelectLinear(Row(i), s, t);
    }
  }

  // -------------------------------------------- the layer as word operations

  /** Swaps the bytes of each half word. */
  function P1(x: bv32): bv32 {
    XorWord((x >> 8) & 0x00FF00FF, (x & 0x00FF00FF) << 8)
  }

  /** Swaps the half words. */
  function P2(x: bv32): bv32 {
    XorWord(x >> 16, x << 16)
  }

  lemma P1Bytes(x: bv32)
    ensures ByteLE(P1(x), 0) == ByteLE(x, 1) && ByteLE(P1(x), 1) == ByteLE(x, 0)
    ensures ByteLE(P1(x), 2) == ByteLE(x, 3) && ByteLE(P1(x), 3) == ByteLE(x, 2)
  {
  }

  lemma P2Bytes(x: bv32)
    ensures ByteLE(P2(x), 0) == ByteLE(x, 2) && ByteLE(P2(x), 1) == ByteLE(x, 3)
    ensures ByteLE(P2(x), 2) == ByteLE(x, 0) && ByteLE(P2(x), 3) == ByteLE(x, 1)
  {
  }

  /** The four bytes of a word as sums of input bytes. */
  predicate Sums(w: bv32, s: Bytes, m0: bv16, m1: bv16, m2: bv16, m3: bv16) {
    && ByteLE(w, 0) == Select(m0, s) && ByteLE(w, 1) == Select(m1, s)
    && ByteLE(w, 2) == Select(m2, s) && ByteLE(w, 3) == Select(m3, s)
  }

  lemma SumsXor(x: bv32, y: bv32, s: Bytes, m0: bv16, m1: bv16, m2: bv16, m3: bv16,
                n0: bv16, n1: bv16, n2: bv16, n3: bv16)
    requires Sums(x, s, m0, m1, m2, m3) && Sums(y, s, n0, n1, n2, n3)
    ensures Sums(XorWord(x, y), s, m0 ^ n0, m1 ^ n1, m2 ^ n2, m3 ^ n3)
  {
    hide ByteLE, XorWord, XorByte, Select;
    XorWordBytes(x, y);
    SelectXor(m0, n0, s);
    SelectXor(m1, n1, s);
    SelectXor(m2, n2, s);
    SelectXor(m3, n3, s);
  }

  lemma SumsP1(w: bv32, s: Bytes, m0: bv16, m1: bv16, m2: bv16, m3: bv16)
    requires Sums(w, s, m0, m1, m2, m3)
    ensures Sums(P1(w), s, m1, m0, m3, m2)
  {
    hide ByteLE, P1, Select;
    P1Bytes(w);
  }

  lemma SumsP2(w: bv32, s: Bytes, m0: bv16, m1: bv16, m2: bv16, m3: bv16)
    requires Sums(w, s, m0, m1, m2, m3)
    ensures Sums(P2(w), s, m2, m3, m0, m1)
  {
    hide ByteLE, P2, Select;
    P2Bytes(w);
  }

  lemma SumsInput(q: Quad, s: Bytes)
    requires s == BytesLE(q)
    ensures Sums(q.a, s, 0x0001, 0x0002, 0x0004, 0x0008)
    ensures Sums(q.b, s, 0x0010, 0x0020, 0x0040, 0x0080)
    ensures Sums(q.c, s, 0x0100, 0x0200, 0x0400, 0x0800)
    ensures Sums(q.d, s, 0x1000, 0x2000, 0x4000, 0x8000)
  {
    hide ByteLE, Select;
    SelectUnit(0, s);
    SelectUnit(1, s);
    SelectUnit(2, s);
    SelectUnit(3, s);
    SelectUnit(4, s);
    SelectUnit(5, s);
    SelectUnit(6, s);
    SelectUnit(7, s);
    SelectUnit(8, s);
    SelectUnit(9, s);
    SelectUnit(10, s);
    SelectUnit(11, s);
    SelectUnit(12, s);
    SelectUnit(13, s);
    SelectUnit(14, s);
    SelectUnit(15, s);
  }

  /** The words of the first half of the operations, as sums of input bytes. */
  lemma FirstSums(q: Quad, wa: bv32, wb: bv32, wc: bv32, wd: bv32, ta: bv32, tc: bv32,
                  ta': bv32, tb': bv32, tc': bv32, s: Bytes)
    requires s == BytesLE(q)
    requires wa == P2(q.b)
    requires wb == P2(q.d)
    requires wc == P1(q.c)
    requires wd == P1(wb)
    requires ta == XorWord(q.b, wc)
    requires tc == P2(q.a)
    requires ta' == XorWord(XorWord(P1(ta), tc), wd)
    requires tb' == XorWord(wb, P2(wc))
    requires tc' == XorWord(tc, P1(wa))
    ensures Sums(wa, s, 0x0040, 0x0080, 0x0010, 0x0020)
    ensures Sums(wc, s, 0x0200, 0x0100, 0x0800, 0x0400)
    ensures Sums(wd, s, 0x8000, 0x4000, 0x2000, 0x1000)
    ensures Sums(ta', s, 0x8124, 0x4218, 0x2481, 0x1842)
    ensures Sums(tb', s, 0x4800, 0x8400, 0x1200, 0x2100)
    ensures Sums(tc', s, 0x0084, 0x0048, 0x0021, 0x0012)
  {
    hide XorWord, P1, P2, Sums, BytesLE;
    SumsInput(q, s);
    SumsP2(q.b, s, 0x0010, 0x0020, 0x0040, 0x0080);
    SumsP2(q.d, s, 0x1000, 0x2000, 0x4000, 0x8000);
    SumsP1(q.c, s, 0x0100, 0x0200, 0x0400, 0x0800);
    SumsP1(wb, s, 0x4000, 0x8000, 0x1000, 0x2000);
    SumsXor(q.b, wc, s, 0x0010, 0x0020, 0x0040, 0x0080, 0x0200, 0x0100, 0x0800, 0x0400);
    SumsP2(q.a, s, 0x0001, 0x0002, 0x0004, 0x0008);
    SumsP1(ta, s, 0x0210, 0x0120, 0x0840, 0x0480);
    SumsXor(P1(ta), tc, s, 0x0120, 0x0210, 0x0480, 0x0840, 0x0004, 0x0008, 0x0001, 0x0002);
    SumsXor(XorWord(P1(ta), tc), wd, s, 0x0124, 0x0218, 0x0481, 0x0842, 0x8000, 0x4000, 0x2000, 0x1000);
    SumsP2(wc, s, 0x0200, 0x0100, 0x0800, 0x0400);
    SumsXor(wb, P2(wc), s, 0x4000, 0x8000, 0x1000, 0x2000, 0x0800, 0x0400, 0x0200, 0x0100);
    SumsP1(wa, s, 0x0040, 0x0080, 0x0010, 0x0020);
    SumsXor(tc, P1(wa), s, 0x0004, 0x0008, 0x0001, 0x0002, 0x0080, 0x0040, 0x0020, 0x0010);
  }

  /** The words of the second half: the rows of the matrix. */
  lemma SecondSums(q: Quad, wa: bv32, wc: bv32, wd: bv32, ta': bv32, tb': bv32, tc': bv32,
                   ra: bv32, rb: bv32, rc: bv32, rd: bv32, sa: bv32, sb: bv32, sc: bv32, s: Bytes)
    requires s == BytesLE(q)
    requires Sums(wa, s, 0x0040, 0x0080, 0x0010, 0x0020)
    requires Sums(wc, s, 0x0200, 0x0100, 0x0800, 0x0400)
    requires Sums(wd, s, 0x8000, 0x4000, 0x2000, 0x1000)
    requires Sums(ta', s, 0x8124, 0x4218, 0x2481, 0x1842)
    requires Sums(tb', s, 0x4800, 0x8400, 0x1200, 0x2100)
    requires Sums(tc', s, 0x0084, 0x0048, 0x0021, 0x0012)
    requires rb == XorWord(q.a, XorWord(ta', tb'))
    requires sb == XorWord(P2(tb'), ta')
    requires ra == XorWord(wa, P1(sb))
    requires sa == P2(ta')
    requires rd == XorWord(wc, XorWord(P1(sa), tc'))
    requires sc == P2(tc')
    requires rc == XorWord(wd, XorWord(P1(sc), sa))
    ensures Sums(ra, s, 0x6358, 0x93A4, 0x9C52, 0x6CA1)
    ensures Sums(rb, s, 0xC925, 0xC61A, 0x3685, 0x394A)
    ensures Sums(rc, s, 0xA493, 0x5863, 0xA16C, 0x529C)
    ensures Sums(rd, s, 0x1AC6, 0x25C9, 0x4A39, 0x8536)
  {
    hide XorWord, P1, P2, Sums, BytesLE;
    SumsInput(q, s);
    SumsXor(ta', tb', s, 0x8124, 0x4218, 0x2481, 0x1842, 0x4800, 0x8400, 0x1200, 0x2100);
    SumsXor(q.a, XorWord(ta', tb'), s, 0x0001, 0x0002, 0x0004, 0x0008, 0xC924, 0xC618, 0x3681, 0x3942);
    SumsP2(tb', s, 0x4800, 0x8400, 0x1200, 0x2100);
    SumsXor(P2(tb'), ta', s, 0x1200, 0x2100, 0x4800, 0x8400, 0x8124, 0x4218, 0x2481, 0x1842);
    SumsP1(sb, s, 0x9324, 0x6318, 0x6C81, 0x9C42);
    SumsXor(wa, P1(sb), s, 0x0040, 0x0080, 0x0010, 0x0020, 0x6318, 0x9324, 0x9C42, 0x6C81);
    SumsP2(ta', s, 0x8124, 0x4218, 0x2481, 0x1842);
    SumsP1(sa, s, 0x2481, 0x1842, 0x8124, 0x4218);
    SumsXor(P1(sa), tc', s, 0x1842, 0x2481, 0x4218, 0x8124, 0x0084, 0x0048, 0x0021, 0x0012);
    SumsXor(wc, XorWord(P1(sa), tc'), s, 0x0200, 0x0100, 0x0800, 0x0400, 0x18C6, 0x24C9, 0x4239, 0x8136);
    SumsP2(tc', s, 0x0084, 0x0048, 0x0021, 0x0012);
    SumsP1(sc, s, 0x0021, 0x0012, 0x0084, 0x0048);
    SumsXor(P1(sc), sa, s, 0x0012, 0x0021, 0x0048, 0x0084, 0x2481, 0x1842, 0x8124, 0x4218);
    SumsXor(wd, XorWord(P1(sc), sa), s, 0x8000, 0x4000, 0x2000, 0x1000, 0x2493, 0x1863, 0x816C, 0x429C);
  }

  /** The diffusion layer on four words. */
  function Diffuse(q: Quad): Quad {
    QuadLE(Diffused(BytesLE(q)))
  }

  lemma SumsDiffuse(r: Quad, s: Bytes)
    requires |s| == 16
    requires Sums(r.a, s, 0x6358, 0x93A4, 0x9C52, 0x6CA1)
    requires Sums(r.b, s, 0xC925, 0xC61A, 0x3685, 0x394A)
    requires Sums(r.c, s, 0xA493, 0x5863, 0xA16C, 0x529C)
    requires Sums(r.d, s, 0x1AC6, 0x25C9, 0x4A39, 0x8536)
    ensures r == QuadLE(Diffused(s))
  {
    hide Select, Sums, Row, PutLE, QuadLE, Diffused;
    PutSums(r.a, s, 0x6358, 0x93A4, 0x9C52, 0x6CA1);
    DiffusedWord(s, 0);
    PutSums(r.b, s, 0xC925, 0xC61A, 0x3685, 0x394A);
    DiffusedWord(s, 4);
    PutSums(r.c, s, 0xA493, 0x5863, 0xA16C, 0x529C);
    DiffusedWord(s, 8);
    PutSums(r.d, s, 0x1AC6, 0x25C9, 0x4A39, 0x8536);
    DiffusedWord(s, 12);
    var d := Diffused(s);
    RowValues();
    assert BytesLE(r) == d[0..4] + d[4..8] + d[8..12] + d[12..16];
    assert d == d[0..4] + d[4..8] + d[8..12] + d[12..16];
    QuadBytesLE(r);
  }

  lemma RowValues()
    ensures Row(0) == 0x6358 && Row(1) == 0x93A4 && Row(2) == 0x9C52 && Row(3) == 0x6CA1
    ensures Row(4) == 0xC925 && Row(5) == 0xC61A && Row(6) == 0x3685 && Row(7) == 0x394A
    ensures Row(8) == 0xA493 && Row(9) == 0x5863 && Row(10) == 0xA16C && Row(11) == 0x529C
    ensures Row(12) == 0x1AC6 && Row(13) == 0x25C9 && Row(14) == 0x4A39 && Row(15) == 0x8536
  {
  }

  lemma PutSums(w: bv32, s: Bytes, m0: bv16, m1: bv16, m2: bv16, m3: bv16)
    requires Sums(w, s, m0, m1, m2, m3)
    ensures PutLE(w) == [Select(m0, s), Select(m1, s), Select(m2, s), Select(m3, s)]
  {
    hide Select, ByteLE;
  }

  lemma DiffusedWord(s: Bytes, i: nat)
    requires |s| == 16 && i + 4 <= 16
    ensures Diffused(s)[i..i + 4] ==
      [Select(Row(i), s), Select(Row(i + 1), s), Select(Row(i + 2), s), Select(Row(i + 3), s)]
  {
    hide Select, Row;
  }

  /** The layer as the sequence of word operations that computes it. */
  method AriaA(q: Quad) returns (r: Quad)
    ensures r == Diffuse(q)
  {
    hide XorWord, P1, P2, Diffused, Sums, BytesLE, QuadLE;
    var a, b, c, d := q.a, q.b, q.c, q.d;
    var ta := b;
    b := a;
    a := P2(ta);
    var tb := P2(d);
    d := P1(c);
    c := P1(tb);
    ta := XorWord(ta, d);
    var tc := P2(b);
    ghost var wa, wb, wc, wd, wta, wtc := a, tb, d, c, ta, tc;
    ta := XorWord(XorWord(P1(ta), tc), c);
    tb := XorWord(tb, P2(d));
    tc := XorWord(tc, P1(a));
    ghost var ta', tb', tc' := ta, tb, tc;
    b := XorWord(b, XorWord(ta, tb));
    tb := XorWord(P2(tb), ta);
    a := XorWord(a, P1(tb));
    ta := P2(ta);
    d := XorWord(d, XorWord(P1(ta), tc));
    tc := P2(tc);
    c := XorWord(c, XorWord(P1(tc), ta));
    r := Quad(a, b, c, d);
    FirstSums(q, wa, wb, wc, wd, wta, wtc, ta', tb', tc', BytesLE(q));
    SecondSums(q, wa, wc, wd, ta', tb', tc', a, b, c, d, ta, tb, tc, BytesLE(q));
    SumsDiffuse(r, BytesLE(q));
  }

  /** The layer is an involution on words. */
  lemma DiffuseTwice(q: Quad)
    ensures Diffuse(Diffuse(q)) == q
  {
    hide QuadLE, BytesLE, Diffused;
    var s := BytesLE(q);
    BytesQuadLE(Diffused(s));
    DiffusedTwice(s);
    QuadBytesLE(q);
  }

  lemma PutXor(x: bv32, y: bv32)
    ensures PutLE(XorWord(x, y)) == Xor(PutLE(x), PutLE(y))
  {
    hide ByteLE, XorWord, XorByte;
    XorWordBytes(x, y);
  }

  lemma BytesXor(x: Quad, y: Quad)
    ensures BytesLE(XorQuad(x, y)) == Xor(BytesLE(x), BytesLE(y))
  {
    hide PutLE, XorWord, Xor;
    PutXor(x.a, y.a);
    PutXor(x.b, y.b);
    PutXor(x.c, y.c);
    PutXor(x.d, y.d);
    XorConcat(PutLE(x.a), PutLE(x.b), PutLE(y.a), PutLE(y.b));
    XorConcat(PutLE(x.a) + PutLE(x.b), PutLE(x.c), PutLE(y.a) + PutLE(y.b), PutLE(y.c));
    XorConcat(PutLE(x.a) + PutLE(x.b) + PutLE(x.c), PutLE(x.d), PutLE(y.a) + PutLE(y.b) + PutLE(y.c), PutLE(y.d));
  }

  lemma DiffuseLinear(x: Quad, y: Quad)
    ensures Diffuse(XorQuad(x, y)) == XorQuad(Diffuse(x), Diffuse(y))
  {
    hide QuadLE, BytesLE, Diffused, XorQuad, Xor;
    BytesXor(x, y);
    DiffusedLinear(BytesLE(x), BytesLE(y));
    BytesXor(Diffuse(x), Diffuse(y));
    BytesQuadLE(Diffused(BytesLE(x)));
    BytesQuadLE(Diffused(BytesLE(y)));
    QuadBytesLE(XorQuad(Diffuse(x), Diffuse(y)));
  }

  // --------------------------------------------------- substitution layers

  type SBox = bv8 -> bv8

  /** The four tables; the i-tables undo the s-tables. */
  datatype Boxes = Boxes(sb1: SBox, sb2: SBox, is1: SBox, is2: SBox)

  ghost predicate Inverses(t: Boxes) {
    TableUndoes(t.is1, t.sb1) && TableUndoes(t.sb1, t.is1) && TableUndoes(t.is2, t.sb2) && TableUndoes(t.sb2, t.is2)
  }

  ghost predicate TableUndoes(g: SBox, f: SBox) {
    forall x: bv8 :: g(f(x)) == x
  }

  /** Each byte of a word through its own table. */
  function SubWord(w: bv32, sa: SBox, sb: SBox, sc: SBox, sd: SBox): bv32 {
    PackLE(sa(ByteLE(w, 0)), sb(ByteLE(w, 1)), sc(ByteLE(w, 2)), sd(ByteLE(w, 3)))
  }

  function Substitute(q: Quad, sa: SBox, sb: SBox, sc: SBox, sd: SBox): Quad {
    Quad(SubWord(q.a, sa, sb, sc, sd), SubWord(q.b, sa, sb, sc, sd),
         SubWord(q.c, sa, sb, sc, sd), SubWord(q.d, sa, sb, sc, sd))
  }

  /** Layer SL1 at even rounds and SL2 at odd ones. */
  function SubLayer(t: Boxes, even: bool, q: Quad): Quad {
    if even then Substitute(q, t.sb1, t.sb2, t.is1, t.is2) else Substitute(q, t.is1, t.is2, t.sb1, t.sb2)
  }

  /** Each table of the layer meets every fourth byte of the state. */
  lemma SubstituteBytes(q: Quad, sa: SBox, sb: SBox, sc: SBox, sd: SBox, k: nat)
    requires k < 4
    ensures BytesLE(Substitute(q, sa, sb, sc, sd))[4 * k] == sa(BytesLE(q)[4 * k])
    ensures BytesLE(Substitute(q, sa, sb, sc, sd))[4 * k + 1] == sb(BytesLE(q)[4 * k + 1])
    ensures BytesLE(Substitute(q, sa, sb, sc, sd))[4 * k + 2] == sc(BytesLE(q)[4 * k + 2])
    ensures BytesLE(Substitute(q, sa, sb, sc, sd))[4 * k + 3] == sd(BytesLE(q)[4 * k + 3])
  {
    hide *;
    QuadBytes(q, k);
    QuadBytes(Substitute(q, sa, sb, sc, sd), k);
    SubstituteWord(q, sa, sb, sc, sd, k);
  }

  lemma SubstituteWord(q: Quad, sa: SBox, sb: SBox, sc: SBox, sd: SBox, k: nat)
    requires k < 4
    ensures var r, w := WordOf(Substitute(q, sa, sb, sc, sd), k), WordOf(q, k);
      && ByteLE(r, 0) == sa(ByteLE(w, 0)) && ByteLE(r, 1) == sb(ByteLE(w, 1))
      && ByteLE(r, 2) == sc(ByteLE(w, 2)) && ByteLE(r, 3) == sd(ByteLE(w, 3))
  {
    hide PackLE, ByteLE;
    var w := WordOf(q, k);
    PackByte(sa(ByteLE(w, 0)), sb(ByteLE(w, 1)), sc(ByteLE(w, 2)), sd(ByteLE(w, 3)));
  }

  function WordOf(q: Quad, k: nat): bv32 {
    match k
    case 0 => q.a
    case 1 => q.b
    case 2 => q.c
    case _ => q.d
  }

  lemma QuadBytes(q: Quad, k: nat)
    requires k < 4
    ensures ByteLE(WordOf(q, k), 0) == BytesLE(q)[4 * k] && ByteLE(WordOf(q, k), 1) == BytesLE(q)[4 * k + 1]
    ensures ByteLE(WordOf(q, k), 2) == BytesLE(q)[4 * k + 2] && ByteLE(WordOf(q, k), 3) == BytesLE(q)[4 * k + 3]
  {
    hide ByteLE;
    match k
    case 0 =>
    case 1 =>
    case 2 =>
    case _ =>
  }

  lemma SubWordInverse(w: bv32, sa: SBox, sb: SBox, sc: SBox, sd: SBox, ta: SBox, tb: SBox, tc: SBox, td: SBox)
    requires TableUndoes(ta, sa) && TableUndoes(tb, sb) && TableUndoes(tc, sc) && TableUndoes(td, sd)
    ensures SubWord(SubWord(w, sa, sb, sc, sd), ta, tb, tc, td) == w
  {
    hide PackLE, ByteLE;
    PackByte(sa(ByteLE(w, 0)), sb(ByteLE(w, 1)), sc(ByteLE(w, 2)), sd(ByteLE(w, 3)));
    BytePack(w);
  }

  /** The two layers are each other's inverse. */
  lemma SubLayerInverse(t: Boxes, even: bool, q: Quad)
    requires Inverses(t)
    ensures SubLayer(t, !even, SubLayer(t, even, q)) == q
  {
    hide Substitute, TableUndoes;
    if even {
      SubstituteInverse(q, t.sb1, t.sb2, t.is1, t.is2, t.is1, t.is2, t.sb1, t.sb2);
    } else {
      SubstituteInverse(q, t.is1, t.is2, t.sb1, t.sb2, t.sb1, t.sb2, t.is1, t.is2);
    }
  }

  lemma SubstituteInverse(q: Quad, sa: SBox, sb: SBox, sc: SBox, sd: SBox, ta: SBox, tb: SBox, tc: SBox, td: SBox)
    requires TableUndoes(ta, sa) && TableUndoes(tb, sb) && TableUndoes(tc, sc) && TableUndoes(td, sd)
    ensures Substitute(Substitute(q, sa, sb, sc, sd), ta, tb, tc, td) == q
  {
    hide SubWord, TableUndoes;
    SubWordInverse(q.a, sa, sb, sc, sd, ta, tb, tc, td);
    SubWordInverse(q.b, sa, sb, sc, sd, ta, tb, tc, td);
    SubWordInverse(q.c, sa, sb, sc, sd, ta, tb, tc, td);
    SubWordInverse(q.d, sa, sb, sc, sd, ta, tb, tc, td);
  }

  lemma PackXor(b0: bv8, b1: bv8, b2: bv8, b3: bv8)
    ensures (b0 as bv32) ^ ((b1 as bv32) << 8) ^ ((b2 as bv32) << 16) ^ ((b3 as bv32) << 24) == PackLE(b0, b1, b2, b3)
  {
  }

  method SlWord(w: bv32, sa: SBox, sb: SBox, sc: SBox, sd: SBox) returns (r: bv32)
    ensures r == SubWord(w, sa, sb, sc, sd)
  {
    hide PackLE;
    var b0, b1, b2, b3 :=
      sa((w & 0xFF) as bv8), sb(((w >> 8) & 0xFF) as bv8), sc(((w >> 16) & 0xFF) as bv8), sd((w >> 24) as bv8);
    r := (b0 as bv32) ^ ((b1 as bv32) << 8) ^ ((b2 as bv32) << 16) ^ ((b3 as bv32) << 24);
    PackXor(b0, b1, b2, b3);
    assert (w >> 24) == ((w >> 24) & 0xFF);
  }

  method AriaSl(q: Quad, sa: SBox, sb: SBox, sc: SBox, sd: SBox) returns (r: Quad)
    ensures r == Substitute(q, sa, sb, sc, sd)
  {
    var a := SlWord(q.a, sa, sb, sc, sd);
    var b := SlWord(q.b, sa, sb, sc, sd);
    var c := SlWord(q.c, sa, sb, sc, sd);
    var d := SlWord(q.d, sa, sb, sc, sd);
    r := Quad(a, b, c, d);
  }

  // ------------------------------------------------------------ the cipher

  /** The state after i rounds, each a key addition, a substitution layer and the diffusion layer. */
  function Rounds(t: Boxes, rk: seq<Quad>, i: nat, x: Quad): Quad
    requires i <= |rk|
  {
    if i == 0 then x
    else Diffuse(SubLayer(t, (i - 1) % 2 == 0, XorQuad(Rounds(t, rk, i - 1, x), rk[i - 1])))
  }

  /** nr rounds, the last without diffusion and with a final key addition. */
  function Crypt(t: Boxes, rk: seq<Quad>, nr: nat, x: Quad): Quad
    requires 1 <= nr < |rk|
  {
    XorQuad(SubLayer(t, (nr - 1) % 2 == 0, XorQuad(Rounds(t, rk, nr - 1, x), rk[nr - 1])), rk[nr])
  }

  /** The states the rounds start from. */
  ghost function States(t: Boxes, rk: seq<Quad>, nr: nat, x: Quad): (p: seq<Quad>)
    requires nr <= |rk|
    ensures |p| == nr
  {
    seq(nr, i requires 0 <= i < nr => Rounds(t, rk, i, x))
  }

  lemma StatesLinked(t: Boxes, rk: seq<Quad>, nr: nat, x: Quad)
    requires 2 <= nr < |rk| && nr % 2 == 0
    ensures Linked(t, rk, States(t, rk, nr, x), x, Crypt(t, rk, nr, x))
  {
    hide Substitute, Diffuse, XorQuad;
    var p := States(t, rk, nr, x);
    forall r | 0 < r < nr ensures p[r] == Diffuse(SubLayer(t, r % 2 == 1, XorQuad(p[r - 1], rk[r - 1]))) {
      assert r % 2 == 1 <==> (r - 1) % 2 == 0;
    }
    assert (nr - 1) % 2 != 0;
  }

  /**
   * The rounds from x to y start from the states p: keys, tables and diffusion in each, and keys,
   * tables and keys in the last.  The tables of odd and even rounds differ.
   */
  ghost predicate Linked(t: Boxes, rk: seq<Quad>, p: seq<Quad>, x: Quad, y: Quad)
    requires 2 <= |p| < |rk|
  {
    && p[0] == x
    && (forall r {:trigger p[r]} :: 0 < r < |p| ==> p[r] == Diffuse(
          if r % 2 == 1 then Substitute(XorQuad(p[r - 1], rk[r - 1]), t.sb1, t.sb2, t.is1, t.is2)
          else Substitute(XorQuad(p[r - 1], rk[r - 1]), t.is1, t.is2, t.sb1, t.sb2)))
    && y == XorQuad(Substitute(XorQuad(p[|p| - 1], rk[|p| - 1]), t.is1, t.is2, t.sb1, t.sb2), rk[|p|])
  }

  /** The decryption schedule: reversed, the inner keys diffused. */
  function Reversed(rk: seq<Quad>, nr: nat): (r: seq<Quad>)
    requires 1 <= nr < |rk|
    ensures |r| == nr + 1
  {
    seq(nr + 1, i requires 0 <= i <= nr => if i == 0 || i == nr then rk[nr - i] else Diffuse(rk[nr - i]))
  }

  /**
   * Running backwards: after i rounds under the reversed schedule the state is what the
   * substitution layer of round nr - 1 - i left, with the key about to be added already in it.
   */
  lemma {:induction false} Backwards(t: Boxes, rk: seq<Quad>, nr: nat, x: Quad, i: nat)
    requires Inverses(t) && nr % 2 == 0 && i < nr < |rk|
    ensures var k := nr - 1 - i;
      Rounds(t, Reversed(rk, nr), i, Crypt(t, rk, nr, x))
      == XorQuad(SubLayer(t, k % 2 == 0, XorQuad(Rounds(t, rk, k, x), rk[k])), Reversed(rk, nr)[i])
  {
    hide SubLayer, Diffuse, XorQuad, Inverses;
    var dk, k, y := Reversed(rk, nr), nr - 1 - i, Crypt(t, rk, nr, x);
    if i > 0 {
      Backwards(t, rk, nr, x, i - 1);
      var s := XorQuad(Rounds(t, rk, k + 1, x), rk[k + 1]);
      var layered := SubLayer(t, (k + 1) % 2 == 0, s);
      XorQuadCancel(layered, dk[i - 1]);
      assert (i - 1) % 2 == 0 <==> (k + 1) % 2 != 0;
      SubLayerInverse(t, (k + 1) % 2 == 0, s);
      assert Rounds(t, dk, i, y) == Diffuse(s);
      var inner := SubLayer(t, k % 2 == 0, XorQuad(Rounds(t, rk, k, x), rk[k]));
      assert Rounds(t, rk, k + 1, x) == Diffuse(inner);
      DiffuseLinear(Diffuse(inner), rk[k + 1]);
      DiffuseTwice(inner);
    }
  }

  /** Decryption is encryption under the reversed schedule. */
  lemma RoundTrip(t: Boxes, rk: seq<Quad>, nr: nat, x: Quad)
    requires Inverses(t) && nr % 2 == 0 && 2 <= nr < |rk|
    ensures Crypt(t, Reversed(rk, nr), nr, Crypt(t, rk, nr, x)) == x
  {
    hide SubLayer, Diffuse, XorQuad, Inverses;
    Backwards(t, rk, nr, x, nr - 1);
    var dk := Reversed(rk, nr);
    var s := XorQuad(x, rk[0]);
    XorQuadCancel(SubLayer(t, true, s), dk[nr - 1]);
    SubLayerInverse(t, true, s);
    XorQuadCancel(x, rk[0]);
  }

  // --------------------------------------------------------- the context

  /** Reverses the order of a[0], ..., a[n]. */
  method Turn<T>(a: array<T>, n: nat)
    requires n < a.Length
    modifies a
    ensures forall m :: 0 <= m <= n ==> a[m] == old(a[..])[n - m]
  {
    ghost var was := a[..];
    var i, j := 0, n;
    while i < j
      invariant 0 <= i <= j + 1 && i + j == n
      invariant forall m :: 0 <= m < i ==> a[m] == was[n - m]
      invariant forall m :: j < m <= n ==> a[m] == was[n - m]
      invariant forall m :: i <= m <= j ==> a[m] == was[m]
    {
      a[i], a[j] := a[j], a[i];
      i, j := i + 1, j - 1;
    }
  }

  /** Round keys and their number. */
  class AriaContext {
    var nr: nat
    const rk: array<Quad>

    constructor ()
      ensures rk.Length == 17 && fresh(rk)
    {
      rk := new Quad[17];
      nr := 0;
    }

    ghost predicate Valid()
      reads this
    {
      rk.Length == 17 && 2 <= nr <= 16 && nr % 2 == 0
    }

    /**
     * Encrypts one block with whatever schedule the context holds, through the states p.
     */
    method CryptEcb(t: Boxes, input: array<bv8>, output: array<bv8>) returns (ghost p: seq<Quad>)
      requires Valid() && input.Length == output.Length == 16
      modifies output
      ensures output[..] == BytesLE(Crypt(t, rk[..], nr, QuadLE(old(input[..]))))
      ensures |p| == nr && Linked(t, rk[..], p, QuadLE(old(input[..])), QuadLE(output[..]))
    {
      hide QuadLE, BytesLE, Substitute, Diffuse, XorQuad, Linked, States;
      ghost var x, keys := QuadLE(input[..]), rk[..];
      var s := QuadLE(input[..]);
      var i := 0;
      while true
        invariant 0 <= i < nr && i % 2 == 0
        invariant s == Rounds(t, keys, i, x)
        invariant rk[..] == keys
        decreases nr - i
      {
        s := XorQuad(s, rk[i]);
        i := i + 1;
        s := AriaSl(s, t.sb1, t.sb2, t.is1, t.is2);
        s := AriaA(s);
        s := XorQuad(s, rk[i]);
        i := i + 1;
        s := AriaSl(s, t.is1, t.is2, t.sb1, t.sb2);
        if i >= nr { break; }
        s := AriaA(s);
      }
      s := XorQuad(s, rk[i]);
      assert s == Crypt(t, keys, nr, x);
      p := States(t, keys, nr, x);
      StatesLinked(t, keys, nr, x);
      QuadBytesLE(s);
      Store(output, 0, BytesLE(s));
      assert output[..] == output[0..16];
    }

    /** Passes the inner round keys through the diffusion layer. */
    method DiffuseInner()
      requires Valid()
      modifies rk
      ensures rk[0] == old(rk[0]) && rk[nr] == old(rk[nr])
      ensures forall m :: 0 < m < nr ==> rk[m] == Diffuse(old(rk[..])[m])
    {
      hide Diffuse;
      ghost var keys := rk[..];
      var n, i := nr, 1;
      while i < n
        invariant 1 <= i <= n
        invariant forall m :: 0 < m < i ==> rk[m] == Diffuse(keys[m])
        invariant forall m :: i <= m <= n ==> rk[m] == keys[m]
        invariant rk[0] == keys[0]
      {
        rk[i] := AriaA(rk[i]);
        i := i + 1;
      }
    }

    /** Turns an encryption schedule into the decryption schedule, in place. */
    method FlipKeys()
      requires Valid()
      modifies rk
      ensures rk[..nr + 1] == Reversed(old(rk[..]), nr)
    {
      hide Diffuse;
      ghost var keys := rk[..];
      Turn(rk, nr);
      DiffuseInner();
    }
  }
}
