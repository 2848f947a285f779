/**
 * The ARIA key schedule: 128-bit rotations of four words derived from the key by three rounds of
 * the cipher.
 */
module AriaKeys {
  import opened Numbers
  import opened Bits
  import opened Blocks
  import opened Words
  import opened Aria

  const B32: int := 0x1_0000_0000

  // ------------------------------------------------------------- rotation

  /** The big-endian value of a word stored in little-endian byte order. */
  function Be(w: bv32): (r: int)
    ensures 0 <= r < B32
  {
    ((Num(ByteLE(w, 0)) * 256 + Num(ByteLE(w, 1))) * 256 + Num(ByteLE(w, 2))) * 256 + Num(ByteLE(w, 3))
  }

  /** The word with a given big-endian value. */
  function FromBe(v: int): bv32
    requires 0 <= v < B32
  {
    Bytes4(v);
    PackLE(ToByte(v / 0x1000000), ToByte(v / 0x10000 % 256), ToByte(v / 0x100 % 256), ToByte(v % 256))
  }

  lemma Bytes4(v: int)
    requires 0 <= v < B32
    ensures v == ((v / 0x1000000 * 256 + v / 0x10000 % 256) * 256 + v / 0x100 % 256) * 256 + v % 256
    ensures 0 <= v / 0x1000000 < 256
  {
    assert v / 0x10000 == v / 0x100 / 256;
    assert v / 0x1000000 == v / 0x10000 / 256;
  }

  lemma BeFromBe(v: int)
    requires 0 <= v < B32
    ensures Be(FromBe(v)) == v
  {
    hide PackLE, ByteLE, ToByte, Num;
    Bytes4(v);
    PackByte(ToByte(v / 0x1000000), ToByte(v / 0x10000 % 256), ToByte(v / 0x100 % 256), ToByte(v % 256));
    NumToByte(v / 0x1000000);
    NumToByte(v / 0x10000 % 256);
    NumToByte(v / 0x100 % 256);
    NumToByte(v % 256);
  }

  lemma FromBeBe(w: bv32)
    ensures FromBe(Be(w)) == w
  {
    hide PackLE, ByteLE, ToByte, Num;
    DigitsOf(Num(ByteLE(w, 0)), Num(ByteLE(w, 1)), Num(ByteLE(w, 2)), Num(ByteLE(w, 3)));
    ToByteNum(ByteLE(w, 0));
    ToByteNum(ByteLE(w, 1));
    ToByteNum(ByteLE(w, 2));
    ToByteNum(ByteLE(w, 3));
    BytePack(w);
  }

  lemma DigitsOf(a: int, b: int, c: int, d: int)
    requires 0 <= a < 256 && 0 <= b < 256 && 0 <= c < 256 && 0 <= d < 256
    ensures var v := ((a * 256 + b) * 256 + c) * 256 + d;
      v / 0x1000000 == a && v / 0x10000 % 256 == b && v / 0x100 % 256 == c && v % 256 == d
  {
  }

  function At(q: Quad, i: nat): bv32 {
    match i % 4
    case 0 => q.a
    case 1 => q.b
    case 2 => q.c
    case _ => q.d
  }

  /** The 128-bit big-endian number in four words. */
  function Value(q: Quad): int {
    Number(Be(q.a), Be(q.b), Be(q.c), Be(q.d))
  }

  function Number(a: int, b: int, c: int, d: int): int {
    ((a * B32 + b) * B32 + c) * B32 + d
  }

  const B128: int := B32 * B32 * B32 * B32

  /** Rotation of a 128-bit number to the left. */
  ghost function RotL(v: int, n: nat): int {
    v * Pow(2, n) % B128 + v * Pow(2, n) / B128
  }

  /** One word of the result: the tail of one word, the head of the next. */
  function RotWord(x: int, y: int, n1: nat): (r: int)
    requires 0 <= x < B32 && 0 <= y < B32 && n1 < 32
    ensures 0 <= r < B32
  {
    PowPos(2, n1);
    var n2 := if n1 != 0 then 32 - n1 else 0;
    PowPos(2, n2);
    RotWordBound(x, y, n1, n2);
    Or(x * Pow(2, n1) % B32, y / Pow(2, n2))
  }

  lemma RotWordBound(x: int, y: int, n1: nat, n2: nat)
    requires 0 <= x < B32 && 0 <= y < B32 && n1 < 32
    ensures Pow(2, n2) > 0 && 0 <= x * Pow(2, n1) % B32 && 0 <= y / Pow(2, n2)
    ensures Or(x * Pow(2, n1) % B32, y / Pow(2, n2)) < B32
  {
    PowPos(2, n2);
    DivLe(y, Pow(2, n2));
    Pow32();
    OrBound(x * Pow(2, n1) % B32, y / Pow(2, n2), 32);
  }

  lemma Pow32()
    ensures Pow(2, 32) == B32
  {
    PowAdd(2, 16, 16);
    PowAdd(2, 8, 8);
    assert Pow(2, 8) == 256;
  }

  lemma DivLe(y: int, d: int)
    requires y >= 0 && d > 0
    ensures 0 <= y / d <= y
  {
    DivModProps(y, d);
    MulMono(y / d, 1, d);
  }

  lemma {:induction false} OrBound(x: nat, y: nat, k: nat)
    requires x < Pow(2, k) && y < Pow(2, k)
    ensures Or(x, y) < Pow(2, k)
  {
    if k > 0 && x != 0 && y != 0 {
      OrBound(x / 2, y / 2, k - 1);
    }
  }

  lemma {:induction false} OrAtLeast(x: nat, y: nat)
    ensures Or(x, y) >= y && Or(x, x) == x
  {
    if x != 0 { OrAtLeast(x / 2, y / 2); }
  }

  /** Word j of the result, counted from the word the amount starts at. */
  function TurnedWord(b: Quad, j: nat, n1: nat): bv32
    requires n1 < 32
  {
    FromBe(RotWord(Be(At(b, j)), Be(At(b, j + 1)), n1))
  }

  function Rotated(b: Quad, n: nat): Quad {
    var j, n1 := n / 32, n % 32;
    Quad(TurnedWord(b, j, n1), TurnedWord(b, j + 1, n1), TurnedWord(b, j + 2, n1), TurnedWord(b, j + 3, n1))
  }

  /** A word cut at 32 - n1 bits. */
  lemma Cut(w: int, n1: nat) returns (h: int, l: int)
    requires 0 <= w < B32 && n1 < 32
    ensures 0 <= h < Pow(2, n1) && 0 <= l < Pow(2, 32 - n1)
    ensures w * Pow(2, n1) == h * B32 + l * Pow(2, n1) && 0 <= l * Pow(2, n1) && l * Pow(2, n1) + Pow(2, n1) <= B32
    ensures w * Pow(2, n1) % B32 == l * Pow(2, n1) && w / Pow(2, 32 - n1) == h
  {
    hide Pow;
    var s, c := Pow(2, n1), Pow(2, 32 - n1);
    PowPos(2, n1);
    PowPos(2, 32 - n1);
    Pow32();
    PowAdd(2, 32 - n1, n1);
    h, l := w / c, w % c;
    DivModProps(w, c);
    MulComm(s, c);
    DivBounds(w, c, s);
    MulComm(c, h);
    assert w * s == h * B32 + l * s by {
      MulDist(s, h * c, l);
      MulComm(s, h * c + l);
      MulComm(s, l);
      MulComm(s, h * c);
      MulAssoc(h, c, s);
    }
    MulNonneg(l, s);
    MulMono(s, l + 1, c);
    MulDist(s, l, 1);
    MulComm(s, l);
    DivModUnique(w * s, B32, h, l * s);
  }

  /** Four words turned by j places, as one number. */
  function Cycled(j: nat, a: int, b: int, c: int, d: int): int
    requires j < 4
  {
    match j
    case 0 => Number(a, b, c, d)
    case 1 => Number(b, c, d, a)
    case 2 => Number(c, d, a, b)
    case _ => Number(d, a, b, c)
  }

  /** Four words put together, shifted by less than a word and by whole words. */
  lemma JoinedWords(h0: int, l0: int, h1: int, l1: int, h2: int, l2: int, h3: int, l3: int, s: int, j: nat)
    requires 0 < s <= B32 && j < 4
    requires 0 <= h0 < s && 0 <= h1 < s && 0 <= h2 < s && 0 <= h3 < s
    requires 0 <= l0 && l0 + s <= B32 && 0 <= l1 && l1 + s <= B32 && 0 <= l2 && l2 + s <= B32 && 0 <= l3 && l3 + s <= B32
    ensures var v := Number(h0 * B32 + l0, h1 * B32 + l1, h2 * B32 + l2, h3 * B32 + l3) * WordPower(j);
      v % B128 + v / B128 == Cycled(j, l0 + h1, l1 + h2, l2 + h3, l3 + h0)
  {
    hide Number, WordPower, Cycled;
    if j < 2 {
      JoinedLow(h0, l0, h1, l1, h2, l2, h3, l3, s, j);
    } else {
      JoinedHigh(h0, l0, h1, l1, h2, l2, h3, l3, s, j);
    }
  }

  lemma JoinedLow(h0: int, l0: int, h1: int, l1: int, h2: int, l2: int, h3: int, l3: int, s: int, j: nat)
    requires 0 < s <= B32 && j < 4
    requires 0 <= h0 < s && 0 <= h1 < s && 0 <= h2 < s && 0 <= h3 < s
    requires 0 <= l0 && l0 + s <= B32 && 0 <= l1 && l1 + s <= B32 && 0 <= l2 && l2 + s <= B32 && 0 <= l3 && l3 + s <= B32
    requires j < 2
    ensures var v := Number(h0 * B32 + l0, h1 * B32 + l1, h2 * B32 + l2, h3 * B32 + l3) * WordPower(j);
      v % B128 + v / B128 == Cycled(j, l0 + h1, l1 + h2, l2 + h3, l3 + h0)
  {
    var v := Number(h0 * B32 + l0, h1 * B32 + l1, h2 * B32 + l2, h3 * B32 + l3) * WordPower(j);
    if j == 0 {
      DivModUnique(v, B128, h0, Number(l0 + h1, l1 + h2, l2 + h3, l3));
    } else {
      DivModUnique(v, B128, h0 * B32 + (l0 + h1), Number(l1 + h2, l2 + h3, l3, 0));
    }
  }

  lemma JoinedHigh(h0: int, l0: int, h1: int, l1: int, h2: int, l2: int, h3: int, l3: int, s: int, j: nat)
    requires 0 < s <= B32 && j < 4
    requires 0 <= h0 < s && 0 <= h1 < s && 0 <= h2 < s && 0 <= h3 < s
    requires 0 <= l0 && l0 + s <= B32 && 0 <= l1 && l1 + s <= B32 && 0 <= l2 && l2 + s <= B32 && 0 <= l3 && l3 + s <= B32
    requires j >= 2
    ensures var v := Number(h0 * B32 + l0, h1 * B32 + l1, h2 * B32 + l2, h3 * B32 + l3) * WordPower(j);
      v % B128 + v / B128 == Cycled(j, l0 + h1, l1 + h2, l2 + h3, l3 + h0)
  {
    var v := Number(h0 * B32 + l0, h1 * B32 + l1, h2 * B32 + l2, h3 * B32 + l3) * WordPower(j);
    if j == 2 {
      DivModUnique(v, B128, (h0 * B32 + (l0 + h1)) * B32 + (l1 + h2), Number(l2 + h3, l3, 0, 0));
    } else {
      DivModUnique(v, B128, Number(h0, l0 + h1, l1 + h2, l2 + h3), Number(l3, 0, 0, 0));
    }
  }

  function WordPower(j: nat): int
    requires j < 4
  {
    match j
    case 0 => 1
    case 1 => B32
    case 2 => B32 * B32
    case _ => B32 * B32 * B32
  }

  lemma WordPowerIs(j: nat)
    requires j < 4
    ensures Pow(2, 32 * j) == WordPower(j)
  {
    hide Pow;
    PowStep(2, 0);
    Pow32();
    PowAdd(2, 32, 32);
    PowAdd(2, 64, 32);
  }

  lemma NumberScaled(a: int, b: int, c: int, d: int, s: int)
    ensures Number(a, b, c, d) * s == Number(a * s, b * s, c * s, d * s)
  {
    MulComm(s, Number(a, b, c, d));
    MulDist(s, (a * B32 + b) * B32 * B32 + c * B32, d);
    MulDist(s, a * B32 * B32 * B32 + b * B32 * B32, c * B32);
    MulDist(s, a * B32 * B32 * B32, b * B32 * B32);
    MulComm(s, a);
    MulComm(s, b);
    MulComm(s, c);
    MulComm(s, d);
    assert s * (a * B32 * B32 * B32) == (s * a) * B32 * B32 * B32;
    assert s * (b * B32 * B32) == (s * b) * B32 * B32;
    assert s * (c * B32) == (s * c) * B32;
  }

  lemma RotAmount(v: int, n: nat)
    ensures RotL(v, n % 128) ==
      v * Pow(2, n % 32) * WordPower(n / 32 % 4) % B128 + v * Pow(2, n % 32) * WordPower(n / 32 % 4) / B128
  {
    hide Pow, WordPower;
    var n1, j := n % 32, n / 32 % 4;
    assert n % 128 == n1 + 32 * j;
    PowAdd(2, n1, 32 * j);
    WordPowerIs(j);
    MulAssoc(v, Pow(2, n1), WordPower(j));
  }

  lemma RotWordIs(x: int, y: int, n1: nat, h: int, l: int, hy: int)
    requires 0 <= x < B32 && 0 <= y < B32 && 0 < n1 < 32 && 0 <= l && 0 <= hy < Pow(2, n1)
    requires x * Pow(2, n1) % B32 == l * Pow(2, n1)
    requires Pow(2, 32 - n1) > 0 && y / Pow(2, 32 - n1) == hy
    ensures RotWord(x, y, n1) == l * Pow(2, n1) + hy
  {
    hide Pow, Or;
    OrDisjoint(l, hy, n1);
  }

  /** The value of one word the routine makes. */
  lemma TurnedValue(b: Quad, j: nat, n1: nat)
    requires n1 < 32
    ensures Be(TurnedWord(b, j, n1)) ==
      (match j % 4
       case 0 => RotWord(Be(b.a), Be(b.b), n1)
       case 1 => RotWord(Be(b.b), Be(b.c), n1)
       case 2 => RotWord(Be(b.c), Be(b.d), n1)
       case _ => RotWord(Be(b.d), Be(b.a), n1))
  {
    hide Be, FromBe, RotWord;
    BeFromBe(RotWord(Be(At(b, j)), Be(At(b, j + 1)), n1));
    assert (j + 1) % 4 == if j % 4 == 3 then 0 else j % 4 + 1;
  }

  /** The words the routine makes, from the words of b in order. */
  lemma RotatedWords(b: Quad, n: nat, o0: int, o1: int, o2: int, o3: int)
    requires o0 == RotWord(Be(b.a), Be(b.b), n % 32) && o1 == RotWord(Be(b.b), Be(b.c), n % 32)
    requires o2 == RotWord(Be(b.c), Be(b.d), n % 32) && o3 == RotWord(Be(b.d), Be(b.a), n % 32)
    ensures Value(Rotated(b, n)) == Cycled(n / 32 % 4, o0, o1, o2, o3)
  {
    hide Be, TurnedWord, RotWord, Number;
    var j := n / 32;
    TurnedValue(b, j, n % 32);
    TurnedValue(b, j + 1, n % 32);
    TurnedValue(b, j + 2, n % 32);
    TurnedValue(b, j + 3, n % 32);
    assert (j + 1) % 4 == if j % 4 == 3 then 0 else j % 4 + 1;
    assert (j + 2) % 4 == if j % 4 >= 2 then j % 4 - 2 else j % 4 + 2;
    assert (j + 3) % 4 == if j % 4 >= 1 then j % 4 - 1 else 3;
  }

  /** Any amount that is not a multiple of 32 rotates. */
  lemma RotatedRotates(b: Quad, n: nat)
    requires n % 32 != 0
    ensures Value(Rotated(b, n)) == RotL(Value(b), n % 128)
  {
    hide Pow, Be, RotWord, Number, Rotated, RotL, WordPower, Cycled;
    var n1, j := n % 32, n / 32 % 4;
    var w0, w1, w2, w3 := Be(b.a), Be(b.b), Be(b.c), Be(b.d);
    var s := Pow(2, n1);
    PowPos(2, n1);
    PowPos(2, 32 - n1);
    var h0, l0 := Cut(w0, n1);
    var h1, l1 := Cut(w1, n1);
    var h2, l2 := Cut(w2, n1);
    var h3, l3 := Cut(w3, n1);
    assert RotWord(w0, w1, n1) == l0 * s + h1 by { RotWordIs(w0, w1, n1, h0, l0, h1); }
    assert RotWord(w1, w2, n1) == l1 * s + h2 by { RotWordIs(w1, w2, n1, h1, l1, h2); }
    assert RotWord(w2, w3, n1) == l2 * s + h3 by { RotWordIs(w2, w3, n1, h2, l2, h3); }
    assert RotWord(w3, w0, n1) == l3 * s + h0 by { RotWordIs(w3, w0, n1, h3, l3, h0); }
    RotatedWords(b, n, l0 * s + h1, l1 * s + h2, l2 * s + h3, l3 * s + h0);
    NumberScaled(w0, w1, w2, w3, s);
    RotAmount(Value(b), n);
    JoinedWords(h0, l0 * s, h1, l1 * s, h2, l2 * s, h3, l3 * s, s, j);
  }

  /** A multiple of 32 merges neighbouring words instead. */
  lemma RotatedMerges(b: Quad, n: nat)
    requires n % 32 == 0
    ensures Value(Rotated(b, n)) == RotL(Value(b), n % 128) <==> b.a == b.b == b.c == b.d
  {
    hide Pow, Be, FromBe, RotWord, Number, Rotated, RotL, WordPower, Or, Cycled;
    var j := n / 32 % 4;
    var w0, w1, w2, w3 := Be(b.a), Be(b.b), Be(b.c), Be(b.d);
    PowStep(2, 0);
    RotAmount(Value(b), n);
    JoinedWords(0, w0, 0, w1, 0, w2, 0, w3, 1, j);
    assert RotL(Value(b), n % 128) == Cycled(j, w0, w1, w2, w3);
    Merge(w0, w1);
    Merge(w1, w2);
    Merge(w2, w3);
    Merge(w3, w0);
    RotatedWords(b, n, Or(w0, w1), Or(w1, w2), Or(w2, w3), Or(w3, w0));
    MergedEqual(w0, w1, w2, w3, j);
    FromBeBe(b.a);
    FromBeBe(b.b);
    FromBeBe(b.c);
    FromBeBe(b.d);
  }

  lemma Merge(x: int, y: int)
    requires 0 <= x < B32 && 0 <= y < B32
    ensures RotWord(x, y, 0) == Or(x, y) && Or(x, y) >= y && Or(x, x) == x && 0 <= Or(x, y) < B32
  {
    hide Or, Pow;
    PowStep(2, 0);
    OrAtLeast(x, y);
    OrAtLeast(x, x);
    assert x * 1 % B32 == x && y / 1 == y;
  }

  lemma NumberInjective(a: int, b: int, c: int, d: int, a': int, b': int, c': int, d': int)
    requires 0 <= a < B32 && 0 <= b < B32 && 0 <= c < B32 && 0 <= d < B32
    requires 0 <= a' < B32 && 0 <= b' < B32 && 0 <= c' < B32 && 0 <= d' < B32
    requires Number(a, b, c, d) == Number(a', b', c', d')
    ensures a == a' && b == b' && c == c' && d == d'
  {
    DivModUnique(Number(a, b, c, d), B32, (a * B32 + b) * B32 + c, d);
    DivModUnique(Number(a, b, c, d), B32, (a' * B32 + b') * B32 + c', d');
    DivModUnique((a * B32 + b) * B32 + c, B32, a * B32 + b, c);
    DivModUnique((a * B32 + b) * B32 + c, B32, a' * B32 + b', c');
  }

  lemma MergedEqual(w0: int, w1: int, w2: int, w3: int, j: nat)
    requires 0 <= w0 < B32 && 0 <= w1 < B32 && 0 <= w2 < B32 && 0 <= w3 < B32 && j < 4
    requires w1 <= Or(w0, w1) < B32 && w2 <= Or(w1, w2) < B32 && w3 <= Or(w2, w3) < B32 && w0 <= Or(w3, w0) < B32
    requires Or(w0, w0) == w0
    ensures Cycled(j, Or(w0, w1), Or(w1, w2), Or(w2, w3), Or(w3, w0)) == Cycled(j, w0, w1, w2, w3)
      <==> w0 == w1 == w2 == w3
  {
    hide Or, Number;
    var o0, o1, o2, o3 := Or(w0, w1), Or(w1, w2), Or(w2, w3), Or(w3, w0);
    if Cycled(j, o0, o1, o2, o3) == Cycled(j, w0, w1, w2, w3) {
      match j
      case 0 => NumberInjective(o0, o1, o2, o3, w0, w1, w2, w3);
      case 1 => NumberInjective(o1, o2, o3, o0, w1, w2, w3, w0);
      case 2 => NumberInjective(o2, o3, o0, o1, w2, w3, w0, w1);
      case _ => NumberInjective(o3, o0, o1, o2, w3, w0, w1, w2);
    }
  }

  /**
   * The routine rotates a 128-bit number exactly when the amount is not a multiple of 32, or all
   * four words agree.
   */
  lemma RotationExactly(b: Quad, n: nat)
    ensures Value(Rotated(b, n)) == RotL(Value(b), n % 128) <==> n % 32 != 0 || b.a == b.b == b.c == b.d
  {
    if n % 32 != 0 { RotatedRotates(b, n); } else { RotatedMerges(b, n); }
  }

  /** The first i words of a ^ (b <<< n). */
  ghost function Mixed(a: Quad, b: Quad, j: nat, n1: nat, i: nat): (w: seq<bv32>)
    requires n1 < 32
    ensures |w| == i
  {
    if i == 0 then [] else Mixed(a, b, j, n1, i - 1) + [XorWord(At(a, i - 1), TurnedWord(b, j + i - 1, n1))]
  }

  lemma MixedWords(a: Quad, b: Quad, n: nat, w: seq<bv32>)
    requires w == Mixed(a, b, n / 32, n % 32, 4)
    ensures Quad(w[0], w[1], w[2], w[3]) == XorQuad(a, Rotated(b, n))
  {
    hide At, TurnedWord, XorWord;
    var j, n1 := n / 32, n % 32;
    assert w == Mixed(a, b, j, n1, 3) + [XorWord(At(a, 3), TurnedWord(b, j + 3, n1))];
    assert Mixed(a, b, j, n1, 3) == Mixed(a, b, j, n1, 2) + [XorWord(At(a, 2), TurnedWord(b, j + 2, n1))];
    assert Mixed(a, b, j, n1, 2) == Mixed(a, b, j, n1, 1) + [XorWord(At(a, 1), TurnedWord(b, j + 1, n1))];
    assert Mixed(a, b, j, n1, 1) == [XorWord(At(a, 0), TurnedWord(b, j, n1))];
    AtWords(a);
  }

  /** r = a ^ (b <<< n), one word at a time. */
  method Rot128(a: Quad, b: Quad, n: nat) returns (r: Quad)
    ensures r == XorQuad(a, Rotated(b, n))
  {
    hide Be, XorWord, At, Rotated, XorQuad, TurnedWord;
    var n1 := n % 32;
    var j := n / 32 % 4;
    ghost var k := n / 32;
    AtWraps(b, j, k);
    var t := Be(At(b, j));
    var w: seq<bv32> := [];
    var i := 0;
    while i < 4
      invariant 0 <= i <= 4 && j == k % 4 && k == n / 32 + i
      invariant t == Be(At(b, k)) && w == Mixed(a, b, n / 32, n1, i)
    {
      var x;
      j, t, x := NextWord(b, j, t, n1, k);
      w := w + [XorWord(At(a, i), x)];
      i, k := i + 1, k + 1;
    }
    MixedWords(a, b, n, w);
    r := Quad(w[0], w[1], w[2], w[3]);
  }

  /** One word of the result; the words are reversed to compute and reversed back. */
  method NextWord(b: Quad, j: nat, t: int, n1: nat, ghost k: nat) returns (j': nat, u: int, x: bv32)
    requires n1 < 32 && j == k % 4 && t == Be(At(b, k))
    ensures j' == (k + 1) % 4 && u == Be(At(b, k + 1)) && x == TurnedWord(b, k, n1)
  {
    hide Be, FromBe, RotWord, At;
    NextIndex(j, k);
    j' := (j + 1) % 4;
    AtWraps(b, j', k + 1);
    u := Be(At(b, j'));
    var v := ShiftIn(t, u, n1);
    x := FromBe(v);
  }

  lemma NextIndex(j: nat, k: nat)
    requires j == k % 4
    ensures (j + 1) % 4 == (k + 1) % 4
  {
  }

  lemma AtWraps(q: Quad, i: nat, j: nat)
    requires i == j % 4
    ensures At(q, i) == At(q, j)
  {
  }

  lemma AtWords(q: Quad)
    ensures At(q, 0) == q.a && At(q, 1) == q.b && At(q, 2) == q.c && At(q, 3) == q.d
  {
  }

  /** t <<= n1; t |= u >> n2. */
  method ShiftIn(t0: int, u: int, n1: nat) returns (t: int)
    requires 0 <= t0 < B32 && 0 <= u < B32 && n1 < 32
    ensures t == RotWord(t0, u, n1)
  {
    hide Pow, Or;
    var n2 := if n1 != 0 then 32 - n1 else 0;
    PowPos(2, n1);
    RotWordBound(t0, u, n1, n2);
    t := t0 * Pow(2, n1) % B32;
    t := Or(t, u / Pow(2, n2));
  }

  // --------------------------------------------------------- the schedule

  /** The round constant masks. */
  function RoundConstant(i: nat): Quad {
    match i % 3
    case 0 => Quad(0xB7C17C51, 0x940A2227, 0xE8AB13FE, 0xE06E9AFA)
    case 1 => Quad(0xCC4AB16D, 0x20C8219E, 0xD5B128FF, 0xB0E25DEF)
    case _ => Quad(0x1D3792DB, 0x70E92621, 0x75972403, 0x0EC9E804)
  }

  /** The masks are the constants C1, C2, C3 of section 2.2 of RFC 5794, whose bytes are stored in order. */
  lemma ConstantBytes()
    ensures BytesLE(RoundConstant(0)) ==
      [0x51, 0x7C, 0xC1, 0xB7, 0x27, 0x22, 0x0A, 0x94, 0xFE, 0x13, 0xAB, 0xE8, 0xFA, 0x9A, 0x6E, 0xE0]
    ensures BytesLE(RoundConstant(1)) ==
      [0x6D, 0xB1, 0x4A, 0xCC, 0x9E, 0x21, 0xC8, 0x20, 0xFF, 0x28, 0xB1, 0xD5, 0xEF, 0x5D, 0xE2, 0xB0]
    ensures BytesLE(RoundConstant(2)) ==
      [0xDB, 0x92, 0x37, 0x1D, 0x21, 0x26, 0xE9, 0x70, 0x03, 0x24, 0x97, 0x75, 0x04, 0xE8, 0xC9, 0x0E]
  {
    hide BytesLE, RoundConstant;
    FirstConstant();
    SecondConstant();
    ThirdConstant();
  }

  lemma FirstConstant()
    ensures BytesLE(RoundConstant(0)) ==
      [0x51, 0x7C, 0xC1, 0xB7, 0x27, 0x22, 0x0A, 0x94, 0xFE, 0x13, 0xAB, 0xE8, 0xFA, 0x9A, 0x6E, 0xE0]
  {
  }

  lemma SecondConstant()
    ensures BytesLE(RoundConstant(1)) ==
      [0x6D, 0xB1, 0x4A, 0xCC, 0x9E, 0x21, 0xC8, 0x20, 0xFF, 0x28, 0xB1, 0xD5, 0xEF, 0x5D, 0xE2, 0xB0]
  {
  }

  lemma ThirdConstant()
    ensures BytesLE(RoundConstant(2)) ==
      [0xDB, 0x92, 0x37, 0x1D, 0x21, 0x26, 0xE9, 0x70, 0x03, 0x24, 0x97, 0x75, 0x04, 0xE8, 0xC9, 0x0E]
  {
  }

  /** An odd or even round without its key addition at the end: FO and FE. */
  function RoundFn(t: Boxes, even: bool, p: Quad, k: Quad): Quad {
    Diffuse(SubLayer(t, even, XorQuad(p, k)))
  }

  predicate KeySize(keybits: nat) {
    keybits == 128 || keybits == 192 || keybits == 256
  }

  function KeyRounds(keybits: nat): nat
    requires KeySize(keybits)
  {
    12 + 2 * ((keybits - 128) / 64)
  }

  lemma KeyRoundsEven(keybits: nat)
    requires KeySize(keybits)
    ensures KeyRounds(keybits) % 2 == 0 && 2 <= KeyRounds(keybits) <= 16
  {
  }

  /** The first 128 bits of the key. */
  function KeyLeft(key: Bytes): Quad
    requires |key| >= 16
  {
    QuadLE(key[..16])
  }

  /** The rest of the key, padded with zeros. */
  function KeyRight(key: Bytes, keybits: nat): Quad
    requires KeySize(keybits) && |key| >= keybits / 8
  {
    Quad(if keybits >= 192 then GetLE(key, 16) else 0, if keybits >= 192 then GetLE(key, 20) else 0,
         if keybits == 256 then GetLE(key, 24) else 0, if keybits == 256 then GetLE(key, 28) else 0)
  }

  /** W0, ..., W3. */
  function KeyWordOf(t: Boxes, key: Bytes, keybits: nat, i: nat): Quad
    requires KeySize(keybits) && |key| >= keybits / 8 && i < 4
  {
    var c := (keybits - 128) / 64;
    var w0 := KeyLeft(key);
    var w1 := XorQuad(RoundFn(t, true, w0, RoundConstant(c)), KeyRight(key, keybits));
    var w2 := XorQuad(RoundFn(t, false, w1, RoundConstant(c + 1)), w0);
    match i
    case 0 => w0
    case 1 => w1
    case 2 => w2
    case _ => XorQuad(RoundFn(t, true, w2, RoundConstant(c + 2)), w1)
  }

  /** The right half is the rest of the key and zeros behind it. */
  lemma KeyRightBytes(key: Bytes, keybits: nat)
    requires KeySize(keybits) && |key| >= keybits / 8
    ensures BytesLE(KeyRight(key, keybits)) == key[16..keybits / 8] + Zeros(32 - keybits / 8)
  {
    hide PutLE, GetLE;
    var z: Bytes := [0, 0, 0, 0];
    ZeroWord();
    if keybits == 128 {
      assert z + z + z + z == Zeros(16);
      return;
    }
    WordBytes(key, 16);
    WordBytes(key, 20);
    assert key[16..20] + key[20..24] == key[16..24];
    if keybits == 192 {
      assert key[16..20] + key[20..24] + z + z == key[16..24] + Zeros(8);
      return;
    }
    WordBytes(key, 24);
    WordBytes(key, 28);
    assert key[16..20] + key[20..24] + key[24..28] + key[28..32] == key[16..32];
  }

  lemma WordBytes(s: Bytes, i: nat)
    requires i + 4 <= |s|
    ensures PutLE(GetLE(s, i)) == s[i..i + 4]
  {
    hide PackLE, ByteLE;
    PackByte(s[i], s[i + 1], s[i + 2], s[i + 3]);
  }

  lemma ZeroWord()
    ensures PutLE(0) == [0, 0, 0, 0]
  {
  }

  function KeyWord(t: Boxes, key: Bytes, keybits: nat, i: nat): Quad
    requires KeySize(keybits) && |key| >= keybits / 8
  {
    KeyWordOf(t, key, keybits, i % 4)
  }

  /** Rotation amount of the round keys 4 k, ..., 4 k + 3. */
  function Amount(k: nat): nat {
    match k
    case 0 => 109
    case 1 => 97
    case 2 => 61
    case 3 => 31
    case _ => 19
  }

  /** Round key i, as in section 2.2 of RFC 5794. */
  function RoundKey(t: Boxes, key: Bytes, keybits: nat, i: nat): Quad
    requires KeySize(keybits) && |key| >= keybits / 8
  {
    XorQuad(KeyWord(t, key, keybits, i), Rotated(KeyWord(t, key, keybits, i + 1), Amount(i / 4)))
  }

  function Schedule(t: Boxes, key: Bytes, keybits: nat): (r: seq<Quad>)
    requires KeySize(keybits) && |key| >= keybits / 8
    ensures |r| == 17
  {
    seq(17, i requires 0 <= i < 17 => RoundKey(t, key, keybits, i))
  }

  /** No amount the schedule uses is a multiple of 32, so every round key takes a true 128-bit rotation. */
  lemma AmountsRotate(k: nat)
    ensures 0 < Amount(k) < 128 && Amount(k) % 32 != 0
  {
  }

  method RoundXor(t: Boxes, even: bool, p: Quad, k: Quad, x: Quad) returns (r: Quad)
    ensures r == XorQuad(RoundFn(t, even, p, k), x)
  {
    hide Substitute, Diffuse, XorQuad;
    r := XorQuad(p, k);
    if even {
      r := AriaSl(r, t.sb1, t.sb2, t.is1, t.is2);
    } else {
      r := AriaSl(r, t.is1, t.is2, t.sb1, t.sb2);
    }
    r := AriaA(r);
    r := XorQuad(r, x);
  }

  /**
   * The key words as three rounds of a Feistel structure over the two halves of the key: the first
   * and third with layer SL1, the second with SL2, the constants starting at a place the key size decides.
   */
  ghost predicate KeyWordsLinked(t: Boxes, key: Bytes, keybits: nat, w: seq<Quad>)
    requires KeySize(keybits) && |key| >= keybits / 8 && |w| == 4
  {
    var c := if keybits == 128 then 0 else if keybits == 192 then 1 else 2;
    && BytesLE(w[0]) == key[..16]
    && w[1] == XorQuad(Diffuse(Substitute(XorQuad(w[0], RoundConstant(c)), t.sb1, t.sb2, t.is1, t.is2)),
                       KeyRight(key, keybits))
    && w[2] == XorQuad(Diffuse(Substitute(XorQuad(w[1], RoundConstant(c + 1)), t.is1, t.is2, t.sb1, t.sb2)), w[0])
    && w[3] == XorQuad(Diffuse(Substitute(XorQuad(w[2], RoundConstant(c + 2)), t.sb1, t.sb2, t.is1, t.is2)), w[1])
  }

  lemma KeyWordsLink(t: Boxes, key: Bytes, keybits: nat, w: seq<Quad>)
    requires KeySize(keybits) && |key| >= keybits / 8
    requires |w| == 4 && forall i :: 0 <= i < 4 ==> w[i] == KeyWordOf(t, key, keybits, i)
    ensures KeyWordsLinked(t, key, keybits, w)
  {
    hide Substitute, Diffuse, XorQuad, RoundConstant, QuadLE, BytesLE, GetLE;
    BytesQuadLE(key[..16]);
  }

  /** The four key words. */
  method KeyWords(t: Boxes, key: Bytes, keybits: nat) returns (w: seq<Quad>)
    requires KeySize(keybits) && |key| >= keybits / 8
    ensures |w| == 4 && KeyWordsLinked(t, key, keybits, w)
    ensures forall i :: 0 <= i < 4 ==> w[i] == KeyWordOf(t, key, keybits, i)
  {
    hide RoundFn, XorQuad, RoundConstant, QuadLE, GetLE;
    var w0, w1 := KeyLeft(key), KeyRight(key, keybits);
    var i := (keybits - 128) / 64;
    ghost var c := i;
    w1 := RoundXor(t, true, w0, RoundConstant(i), w1);
    i := if i < 2 then i + 1 else 0;
    ConstantWraps(c, i);
    var w2 := RoundXor(t, false, w1, RoundConstant(i), w0);
    i := if i < 2 then i + 1 else 0;
    ConstantWraps(c + 1, i);
    var w3 := RoundXor(t, true, w2, RoundConstant(i), w1);
    w := [w0, w1, w2, w3];
    KeyWordsLink(t, key, keybits, w);
  }

  lemma ConstantWraps(c: nat, i: nat)
    requires i % 3 == (c + 1) % 3
    ensures RoundConstant(i) == RoundConstant(c + 1)
  {
  }

  /** A round key with its own key word taken out again is the next key word, turned. */
  lemma Turned(t: Boxes, key: Bytes, keybits: nat, w: seq<Quad>, k: nat, m: nat)
    requires KeySize(keybits) && |key| >= keybits / 8 && k < 4 && 4 * m + k < 17
    requires |w| == 4 && forall i :: 0 <= i < 4 ==> w[i] == KeyWordOf(t, key, keybits, i)
    ensures Value(XorQuad(RoundKey(t, key, keybits, 4 * m + k), w[k])) == RotL(Value(w[(k + 1) % 4]), Amount(m))
  {
    hide KeyWordOf, Rotated, RotL, Value;
    var i := 4 * m + k;
    assert i % 4 == k && i / 4 == m && (i + 1) % 4 == (k + 1) % 4;
    AmountsRotate(m);
    XorQuadComm(w[k], Rotated(w[(k + 1) % 4], Amount(m)));
    XorQuadCancel(Rotated(w[(k + 1) % 4], Amount(m)), w[k]);
    RotatedRotates(w[(k + 1) % 4], Amount(m));
  }

  /**
   * Sets the encryption schedule: the key words w, and on 128-bit numbers the round keys as the
   * exclusive or of a key word with a turn of the next one.
   */
  method SetkeyEnc(ctx: AriaContext, t: Boxes, key: Bytes, keybits: nat) returns (ok: bool, ghost w: seq<Quad>)
    requires ctx.rk.Length == 17 && (KeySize(keybits) ==> |key| >= keybits / 8)
    modifies ctx`nr, ctx.rk
    ensures ok == (keybits == 128 || keybits == 192 || keybits == 256)
    ensures ok ==> ctx.Valid() && ctx.nr == KeyRounds(keybits) && ctx.rk[..] == Schedule(t, key, keybits)
    ensures ok ==> ctx.nr == if keybits == 128 then 12 else if keybits == 192 then 14 else 16
    ensures ok ==> |w| == 4 && KeyWordsLinked(t, key, keybits, w)
    ensures ok ==> forall k :: 0 <= k < 4 ==>
      && Value(XorQuad(ctx.rk[k], w[k])) == RotL(Value(w[(k + 1) % 4]), 128 - 19)
      && Value(XorQuad(ctx.rk[k + 4], w[k])) == RotL(Value(w[(k + 1) % 4]), 128 - 31)
      && Value(XorQuad(ctx.rk[k + 8], w[k])) == RotL(Value(w[(k + 1) % 4]), 61)
      && Value(XorQuad(ctx.rk[k + 12], w[k])) == RotL(Value(w[(k + 1) % 4]), 31)
    ensures ok ==> Value(XorQuad(ctx.rk[16], w[0])) == RotL(Value(w[1]), 19)
  {
    hide KeyWordOf, Rotated, XorQuad, FourDone, Schedule, RoundKey, RotL, Value, KeyWordsLinked;
    if keybits != 128 && keybits != 192 && keybits != 256 { return false, []; }
    ctx.nr := 12 + 2 * ((keybits - 128) / 64);
    var words := KeyWords(t, key, keybits);
    FillSchedule(ctx, t, key, keybits, words);
    w := words;
    forall k | 0 <= k < 4
      ensures Value(XorQuad(ctx.rk[k], w[k])) == RotL(Value(w[(k + 1) % 4]), 128 - 19)
      ensures Value(XorQuad(ctx.rk[k + 4], w[k])) == RotL(Value(w[(k + 1) % 4]), 128 - 31)
      ensures Value(XorQuad(ctx.rk[k + 8], w[k])) == RotL(Value(w[(k + 1) % 4]), 61)
      ensures Value(XorQuad(ctx.rk[k + 12], w[k])) == RotL(Value(w[(k + 1) % 4]), 31)
    {
      Turned(t, key, keybits, w, k, 0);
      Turned(t, key, keybits, w, k, 1);
      Turned(t, key, keybits, w, k, 2);
      Turned(t, key, keybits, w, k, 3);
    }
    Turned(t, key, keybits, w, 0, 4);
    return true, w;
  }

  /** The seventeen round keys from the key words. */
  method FillSchedule(ctx: AriaContext, t: Boxes, key: Bytes, keybits: nat, w: seq<Quad>)
    requires ctx.rk.Length == 17 && KeySize(keybits) && |key| >= keybits / 8
    requires |w| == 4 && forall i :: 0 <= i < 4 ==> w[i] == KeyWordOf(t, key, keybits, i)
    modifies ctx.rk
    ensures ctx.rk[..] == Schedule(t, key, keybits)
    ensures forall i :: 0 <= i < 17 ==> ctx.rk[i] == RoundKey(t, key, keybits, i)
  {
    hide KeyWordOf, Rotated, XorQuad, FourDone, RoundKey;
    var i := 0;
    while i < 4
      invariant 0 <= i <= 4
      invariant forall m :: 0 <= m < i ==> FourDone(ctx.rk[..], t, key, keybits, m)
    {
      ghost var before := ctx.rk[..];
      FourKeys(ctx.rk, t, key, keybits, i, w[i], w[(i + 1) % 4]);
      forall m | 0 <= m < i ensures FourDone(ctx.rk[..], t, key, keybits, m) {
        FourKept(before, ctx.rk[..], t, key, keybits, i, m);
      }
      i := i + 1;
    }
    ghost var before := ctx.rk[..];
    ctx.rk[16] := Rot128(w[0], w[1], 19);
    forall m | 0 <= m < 4 ensures FourDone(ctx.rk[..], t, key, keybits, m) {
      LastKept(before, ctx.rk[..], t, key, keybits, m);
    }
    LastKey(t, key, keybits, w[0], w[1]);
    ScheduleDone(ctx.rk[..], t, key, keybits);
  }

  lemma LastKey(t: Boxes, key: Bytes, keybits: nat, w0: Quad, w1: Quad)
    requires KeySize(keybits) && |key| >= keybits / 8
    requires w0 == KeyWordOf(t, key, keybits, 0) && w1 == KeyWordOf(t, key, keybits, 1)
    ensures XorQuad(w0, Rotated(w1, 19)) == RoundKey(t, key, keybits, 16)
  {
    hide KeyWordOf, Rotated, XorQuad;
  }

  /** The round keys made from key words i and i + 1 are in place. */
  ghost predicate FourDone(rk: seq<Quad>, t: Boxes, key: Bytes, keybits: nat, i: nat)
    requires |rk| == 17 && i < 4 && KeySize(keybits) && |key| >= keybits / 8
  {
    && rk[i] == RoundKey(t, key, keybits, i) && rk[i + 4] == RoundKey(t, key, keybits, i + 4)
    && rk[i + 8] == RoundKey(t, key, keybits, i + 8) && rk[i + 12] == RoundKey(t, key, keybits, i + 12)
  }

  lemma FourKept(rk: seq<Quad>, rk': seq<Quad>, t: Boxes, key: Bytes, keybits: nat, i: nat, m: nat)
    requires |rk| == |rk'| == 17 && m < i < 4 && KeySize(keybits) && |key| >= keybits / 8
    requires FourDone(rk, t, key, keybits, m)
    requires rk' == rk[i := rk'[i]][i + 4 := rk'[i + 4]][i + 8 := rk'[i + 8]][i + 12 := rk'[i + 12]]
    ensures FourDone(rk', t, key, keybits, m)
  {
    hide RoundKey;
  }

  lemma LastKept(rk: seq<Quad>, rk': seq<Quad>, t: Boxes, key: Bytes, keybits: nat, m: nat)
    requires |rk| == |rk'| == 17 && m < 4 && KeySize(keybits) && |key| >= keybits / 8
    requires FourDone(rk, t, key, keybits, m) && rk' == rk[16 := rk'[16]]
    ensures FourDone(rk', t, key, keybits, m)
  {
    hide RoundKey;
  }

  lemma ScheduleDone(rk: seq<Quad>, t: Boxes, key: Bytes, keybits: nat)
    requires |rk| == 17 && KeySize(keybits) && |key| >= keybits / 8
    requires forall m :: 0 <= m < 4 ==> FourDone(rk, t, key, keybits, m)
    requires rk[16] == RoundKey(t, key, keybits, 16)
    ensures rk == Schedule(t, key, keybits)
  {
    hide RoundKey;
    assert FourDone(rk, t, key, keybits, 0) && FourDone(rk, t, key, keybits, 1);
    assert FourDone(rk, t, key, keybits, 2) && FourDone(rk, t, key, keybits, 3);
    forall m | 0 <= m < 16 ensures rk[m] == RoundKey(t, key, keybits, m) {
      assert FourDone(rk, t, key, keybits, m % 4);
      assert m == m % 4 || m == m % 4 + 4 || m == m % 4 + 8 || m == m % 4 + 12;
    }
  }

  /** The round keys made from one pair of key words. */
  method FourKeys(rk: array<Quad>, t: Boxes, key: Bytes, keybits: nat, i: nat, w1: Quad, w2: Quad)
    requires rk.Length == 17 && i < 4 && KeySize(keybits) && |key| >= keybits / 8
    requires w1 == KeyWord(t, key, keybits, i) && w2 == KeyWord(t, key, keybits, i + 1)
    modifies rk
    ensures FourDone(rk[..], t, key, keybits, i)
    ensures rk[..] == old(rk[..])[i := rk[i]][i + 4 := rk[i + 4]][i + 8 := rk[i + 8]][i + 12 := rk[i + 12]]
  {
    hide KeyWordOf, Rotated, XorQuad;
    rk[i] := Rot128(w1, w2, 128 - 19);
    rk[i + 4] := Rot128(w1, w2, 128 - 31);
    rk[i + 8] := Rot128(w1, w2, 61);
    rk[i + 12] := Rot128(w1, w2, 31);
  }

  /** Sets the decryption schedule. */
  method SetkeyDec(ctx: AriaContext, t: Boxes, key: Bytes, keybits: nat) returns (ok: bool)
    requires ctx.rk.Length == 17 && (KeySize(keybits) ==> |key| >= keybits / 8)
    modifies ctx`nr, ctx.rk
    ensures ok == KeySize(keybits)
    ensures ok ==> ctx.Valid() && ctx.nr == KeyRounds(keybits)
    ensures ok ==> ctx.rk[..ctx.nr + 1] == Reversed(Schedule(t, key, keybits), ctx.nr)
  {
    hide Schedule, Reversed;
    ghost var w;
    ok, w := SetkeyEnc(ctx, t, key, keybits);
    if ok { ctx.FlipKeys(); }
  }

  /** A block encrypted under a key and run through the decryption schedule of that key comes back. */
  method EncryptDecrypt(t: Boxes, key: Bytes, keybits: nat, input: array<bv8>, output: array<bv8>)
    requires Inverses(t) && KeySize(keybits) && |key| >= keybits / 8
    requires input.Length == output.Length == 16
    modifies output
    ensures output[..] == old(input[..])
  {
    hide Inverses, Schedule, Reversed, Crypt, QuadLE, BytesLE, Linked, KeyWordsLinked, RotL, Value, XorQuad, KeyRounds;
    KeyRoundsEven(keybits);
    var enc := new AriaContext();
    var dec := new AriaContext();
    ghost var x := QuadLE(input[..]);
    BytesQuadLE(input[..]);
    var ok, w := SetkeyEnc(enc, t, key, keybits);
    ok := SetkeyDec(dec, t, key, keybits);
    ghost var keys := Schedule(t, key, keybits);
    ghost var states := enc.CryptEcb(t, input, output);
    QuadBytesLE(Crypt(t, keys, enc.nr, x));
    states := dec.CryptEcb(t, output, output);
    CryptPrefix(t, dec.rk[..], dec.nr, Crypt(t, keys, enc.nr, x));
    RoundTrip(t, keys, enc.nr, x);
  }

  /** Only the first nr + 1 round keys matter. */
  lemma CryptPrefix(t: Boxes, rk: seq<Quad>, nr: nat, x: Quad)
    requires 1 <= nr < |rk|
    ensures Crypt(t, rk, nr, x) == Crypt(t, rk[..nr + 1], nr, x)
  {
    hide SubLayer, Diffuse, XorQuad;
    RoundsPrefix(t, rk, nr, nr - 1, x);
  }

  lemma {:induction false} RoundsPrefix(t: Boxes, rk: seq<Quad>, nr: nat, i: nat, x: Quad)
    requires i <= nr < |rk|
    ensures Rounds(t, rk, i, x) == Rounds(t, rk[..nr + 1], i, x)
  {
    hide SubLayer, Diffuse, XorQuad;
    if i > 0 { RoundsPrefix(t, rk, nr, i - 1, x); }
  }
}
