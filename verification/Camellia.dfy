/**
 * The Camellia block cipher over a given subkey array.  Decryption is the same routine on the
 * array walked backwards in pairs.
 */
module Camellia {
  import opened Numbers
  import opened Blocks
  import opened Words

  // ------------------------------------------------------------ the parts

  type SBox = bv8 -> bv8

  datatype Boxes = Boxes(s1: SBox, s2: SBox, s3: SBox, s4: SBox)

  /** Half a block, or a subkey. */
  datatype Pair = Pair(l: bv32, r: bv32)

  /** The state, as two halves. */
  datatype State = State(left: Pair, right: Pair)

  function XorPair(x: Pair, y: Pair): Pair {
    Pair(XorWord(x.l, y.l), XorWord(x.r, y.r))
  }

  lemma XorPairCancel(x: Pair, y: Pair)
    ensures XorPair(XorPair(x, y), y) == x
  {
    hide XorWord;
    XorWordCancel(x.l, y.l);
    XorWordCancel(x.r, y.r);
  }

  /** Four table look-ups on a word, most significant byte first. */
  function Sub(w: bv32, a: SBox, b: SBox, c: SBox, d: SBox): bv32 {
    PackLE(d(ByteLE(w, 0)), c(ByteLE(w, 1)), b(ByteLE(w, 2)), a(ByteLE(w, 3)))
  }

  function RotL8(w: bv32): bv32 { (w << 8) | (w >> 24) }

  function RotL16(w: bv32): bv32 { (w << 16) | (w >> 16) }

  function RotR8(w: bv32): bv32 { (w >> 8) | (w << 24) }

  /** What the shifts and exclusive ors of the round function make of the two substituted words. */
  function Mixture(i0: bv32, i1: bv32): Pair {
    var j0 := XorWord(i0, RotL8(i1));
    var j1 := XorWord(i1, RotL16(j0));
    var k0 := XorWord(j0, RotR8(j1));
    Pair(XorWord(j1, RotR8(k0)), k0)
  }

  /** The round function, section 2.4.1 of RFC 3713. */
  function F(t: Boxes, x: Pair, k: Pair): Pair {
    Mixture(Sub(XorWord(x.l, k.l), t.s1, t.s2, t.s3, t.s4), Sub(XorWord(x.r, k.r), t.s2, t.s3, t.s4, t.s1))
  }

  lemma TurnedBytes(w: bv32)
    ensures ByteLE(RotL8(w), 3) == ByteLE(w, 2) && ByteLE(RotL8(w), 2) == ByteLE(w, 1)
    ensures ByteLE(RotL8(w), 1) == ByteLE(w, 0) && ByteLE(RotL8(w), 0) == ByteLE(w, 3)
    ensures ByteLE(RotL16(w), 3) == ByteLE(w, 1) && ByteLE(RotL16(w), 2) == ByteLE(w, 0)
    ensures ByteLE(RotL16(w), 1) == ByteLE(w, 3) && ByteLE(RotL16(w), 0) == ByteLE(w, 2)
    ensures ByteLE(RotR8(w), 3) == ByteLE(w, 0) && ByteLE(RotR8(w), 2) == ByteLE(w, 3)
    ensures ByteLE(RotR8(w), 1) == ByteLE(w, 2) && ByteLE(RotR8(w), 0) == ByteLE(w, 1)
  {
  }

  /** The bytes of the mixture, as sums in the order the words arise. */
  lemma MixtureBytes(i0: bv32, i1: bv32, a: seq<bv8>, b: seq<bv8>, c: seq<bv8>, d: seq<bv8>)
    requires |a| == |b| == |c| == |d| == 4
    requires a[0] == XorByte(ByteLE(i0, 3), ByteLE(i1, 2)) && a[1] == XorByte(ByteLE(i0, 2), ByteLE(i1, 1))
    requires a[2] == XorByte(ByteLE(i0, 1), ByteLE(i1, 0)) && a[3] == XorByte(ByteLE(i0, 0), ByteLE(i1, 3))
    requires b[0] == XorByte(ByteLE(i1, 3), a[2]) && b[1] == XorByte(ByteLE(i1, 2), a[3])
    requires b[2] == XorByte(ByteLE(i1, 1), a[0]) && b[3] == XorByte(ByteLE(i1, 0), a[1])
    requires c[0] == XorByte(a[0], b[3]) && c[1] == XorByte(a[1], b[0])
    requires c[2] == XorByte(a[2], b[1]) && c[3] == XorByte(a[3], b[2])
    requires d[0] == XorByte(b[0], c[3]) && d[1] == XorByte(b[1], c[0])
    requires d[2] == XorByte(b[2], c[1]) && d[3] == XorByte(b[3], c[2])
    ensures var p := Mixture(i0, i1);
      && ByteLE(p.l, 3) == d[0] && ByteLE(p.l, 2) == d[1] && ByteLE(p.l, 1) == d[2] && ByteLE(p.l, 0) == d[3]
      && ByteLE(p.r, 3) == c[0] && ByteLE(p.r, 2) == c[1] && ByteLE(p.r, 1) == c[2] && ByteLE(p.r, 0) == c[3]
  {
    hide ByteLE, XorWord, XorByte, RotL8, RotL16, RotR8;
    var j0 := XorWord(i0, RotL8(i1));
    TurnedBytes(i1);
    XorWordBytes(i0, RotL8(i1));
    var j1 := XorWord(i1, RotL16(j0));
    TurnedBytes(j0);
    XorWordBytes(i1, RotL16(j0));
    var k0 := XorWord(j0, RotR8(j1));
    TurnedBytes(j1);
    XorWordBytes(j0, RotR8(j1));
    TurnedBytes(k0);
    XorWordBytes(j1, RotR8(k0));
  }

  function Sum5(a: bv8, b: bv8, c: bv8, d: bv8, e: bv8): bv8 {
    a ^ b ^ c ^ d ^ e
  }

  function Sum6(a: bv8, b: bv8, c: bv8, d: bv8, e: bv8, f: bv8): bv8 {
    XorByte(Sum5(a, b, c, d, e), f)
  }

  lemma Sum6Is(a: bv8, b: bv8, c: bv8, d: bv8, e: bv8, f: bv8)
    ensures Sum6(a, b, c, d, e, f) == a ^ b ^ c ^ d ^ e ^ f
  {
  }

  // The sums with what cancels taken out.

  lemma FirstSum(y1: bv8, y3: bv8, y4: bv8, y5: bv8, y6: bv8, y7: bv8, y8: bv8)
    ensures XorByte(XorByte(y5, XorByte(y3, y8)), XorByte(XorByte(y4, y5), XorByte(y7, XorByte(y1, y6)))) ==
      Sum6(y1, y3, y4, y6, y7, y8)
  {
    hide *;
    Sum6Is(y1, y3, y4, y6, y7, y8);
    FirstCancelled(y1, y3, y4, y5, y6, y7, y8);
  }

  lemma FirstCancelled(y1: bv8, y3: bv8, y4: bv8, y5: bv8, y6: bv8, y7: bv8, y8: bv8)
    ensures XorByte(XorByte(y5, XorByte(y3, y8)), XorByte(XorByte(y4, y5), XorByte(y7, XorByte(y1, y6)))) ==
      y1 ^ y3 ^ y4 ^ y6 ^ y7 ^ y8
  {
  }

  lemma SecondSum(y1: bv8, y2: bv8, y4: bv8, y5: bv8, y6: bv8, y7: bv8, y8: bv8)
    ensures XorByte(XorByte(y6, XorByte(y4, y5)), XorByte(XorByte(y1, y6), XorByte(y8, XorByte(y2, y7)))) ==
      Sum6(y1, y2, y4, y5, y7, y8)
  {
    hide *;
    Sum6Is(y1, y2, y4, y5, y7, y8);
    SecondCancelled(y1, y2, y4, y5, y6, y7, y8);
  }

  lemma SecondCancelled(y1: bv8, y2: bv8, y4: bv8, y5: bv8, y6: bv8, y7: bv8, y8: bv8)
    ensures XorByte(XorByte(y6, XorByte(y4, y5)), XorByte(XorByte(y1, y6), XorByte(y8, XorByte(y2, y7)))) ==
      y1 ^ y2 ^ y4 ^ y5 ^ y7 ^ y8
  {
  }

  lemma ThirdSum(y1: bv8, y2: bv8, y3: bv8, y5: bv8, y6: bv8, y7: bv8, y8: bv8)
    ensures XorByte(XorByte(y7, XorByte(y1, y6)), XorByte(XorByte(y2, y7), XorByte(y5, XorByte(y3, y8)))) ==
      Sum6(y1, y2, y3, y5, y6, y8)
  {
    hide *;
    Sum6Is(y1, y2, y3, y5, y6, y8);
    ThirdCancelled(y1, y2, y3, y5, y6, y7, y8);
  }

  lemma ThirdCancelled(y1: bv8, y2: bv8, y3: bv8, y5: bv8, y6: bv8, y7: bv8, y8: bv8)
    ensures XorByte(XorByte(y7, XorByte(y1, y6)), XorByte(XorByte(y2, y7), XorByte(y5, XorByte(y3, y8)))) ==
      y1 ^ y2 ^ y3 ^ y5 ^ y6 ^ y8
  {
  }

  lemma FourthSum(y2: bv8, y3: bv8, y4: bv8, y5: bv8, y6: bv8, y7: bv8, y8: bv8)
    ensures XorByte(XorByte(y8, XorByte(y2, y7)), XorByte(XorByte(y3, y8), XorByte(y6, XorByte(y4, y5)))) ==
      Sum6(y2, y3, y4, y5, y6, y7)
  {
    hide *;
    Sum6Is(y2, y3, y4, y5, y6, y7);
    FourthCancelled(y2, y3, y4, y5, y6, y7, y8);
  }

  lemma FourthCancelled(y2: bv8, y3: bv8, y4: bv8, y5: bv8, y6: bv8, y7: bv8, y8: bv8)
    ensures XorByte(XorByte(y8, XorByte(y2, y7)), XorByte(XorByte(y3, y8), XorByte(y6, XorByte(y4, y5)))) ==
      y2 ^ y3 ^ y4 ^ y5 ^ y6 ^ y7
  {
  }

  lemma FifthSum(y1: bv8, y2: bv8, y6: bv8, y7: bv8, y8: bv8)
    ensures XorByte(XorByte(y1, y6), XorByte(y8, XorByte(y2, y7))) ==
      Sum5(y1, y2, y6, y7, y8)
  {
  }

  lemma SixthSum(y2: bv8, y3: bv8, y5: bv8, y7: bv8, y8: bv8)
    ensures XorByte(XorByte(y2, y7), XorByte(y5, XorByte(y3, y8))) ==
      Sum5(y2, y3, y5, y7, y8)
  {
  }

  lemma SeventhSum(y3: bv8, y4: bv8, y5: bv8, y6: bv8, y8: bv8)
    ensures XorByte(XorByte(y3, y8), XorByte(y6, XorByte(y4, y5))) ==
      Sum5(y3, y4, y5, y6, y8)
  {
  }

  lemma EighthSum(y1: bv8, y4: bv8, y5: bv8, y6: bv8, y7: bv8)
    ensures XorByte(XorByte(y4, y5), XorByte(y7, XorByte(y1, y6))) ==
      Sum5(y1, y4, y5, y6, y7)
  {
  }

  /** The sums of bytes section 2.4.1 of RFC 3713 gives for the mixture. */
  lemma MixtureSums(i0: bv32, i1: bv32)
    ensures var p := Mixture(i0, i1);
      var y1, y2, y3, y4 := ByteLE(i0, 3), ByteLE(i0, 2), ByteLE(i0, 1), ByteLE(i0, 0);
      var y5, y6, y7, y8 := ByteLE(i1, 3), ByteLE(i1, 2), ByteLE(i1, 1), ByteLE(i1, 0);
      && ByteLE(p.l, 3) == Sum6(y1, y3, y4, y6, y7, y8) && ByteLE(p.l, 2) == Sum6(y1, y2, y4, y5, y7, y8)
      && ByteLE(p.l, 1) == Sum6(y1, y2, y3, y5, y6, y8) && ByteLE(p.l, 0) == Sum6(y2, y3, y4, y5, y6, y7)
      && ByteLE(p.r, 3) == Sum5(y1, y2, y6, y7, y8) && ByteLE(p.r, 2) == Sum5(y2, y3, y5, y7, y8)
      && ByteLE(p.r, 1) == Sum5(y3, y4, y5, y6, y8) && ByteLE(p.r, 0) == Sum5(y1, y4, y5, y6, y7)
  {
    hide ByteLE, XorByte, Mixture, Sum5, Sum6;
    var y1, y2, y3, y4 := ByteLE(i0, 3), ByteLE(i0, 2), ByteLE(i0, 1), ByteLE(i0, 0);
    var y5, y6, y7, y8 := ByteLE(i1, 3), ByteLE(i1, 2), ByteLE(i1, 1), ByteLE(i1, 0);
    var a0, a1, a2, a3 := XorByte(y1, y6), XorByte(y2, y7), XorByte(y3, y8), XorByte(y4, y5);
    var b0, b1, b2, b3 := XorByte(y5, a2), XorByte(y6, a3), XorByte(y7, a0), XorByte(y8, a1);
    var c0, c1, c2, c3 := XorByte(a0, b3), XorByte(a1, b0), XorByte(a2, b1), XorByte(a3, b2);
    MixtureBytes(i0, i1, [a0, a1, a2, a3], [b0, b1, b2, b3], [c0, c1, c2, c3],
                 [XorByte(b0, c3), XorByte(b1, c0), XorByte(b2, c1), XorByte(b3, c2)]);
    FirstSum(y1, y3, y4, y5, y6, y7, y8);
    SecondSum(y1, y2, y4, y5, y6, y7, y8);
    ThirdSum(y1, y2, y3, y5, y6, y7, y8);
    FourthSum(y2, y3, y4, y5, y6, y7, y8);
    FifthSum(y1, y2, y6, y7, y8);
    SixthSum(y2, y3, y5, y7, y8);
    SeventhSum(y3, y4, y5, y6, y8);
    EighthSum(y1, y4, y5, y6, y7);
  }

  /**
   * The round function byte by byte, as section 2.4.1 of RFC 3713 has it: the eight bytes of the
   * exclusive or of data and subkey, most significant first, go through the tables 1, 2, 3, 4, 2, 3, 4, 1,
   * and the bytes of the result are the sums given there.
   */
  lemma FBytes(t: Boxes, x: Pair, k: Pair)
    ensures var f, u, v := F(t, x, k), XorWord(x.l, k.l), XorWord(x.r, k.r);
      var y1, y2, y3, y4 := t.s1(ByteLE(u, 3)), t.s2(ByteLE(u, 2)), t.s3(ByteLE(u, 1)), t.s4(ByteLE(u, 0));
      var y5, y6, y7, y8 := t.s2(ByteLE(v, 3)), t.s3(ByteLE(v, 2)), t.s4(ByteLE(v, 1)), t.s1(ByteLE(v, 0));
      && ByteLE(f.l, 3) == Sum6(y1, y3, y4, y6, y7, y8) && ByteLE(f.l, 2) == Sum6(y1, y2, y4, y5, y7, y8)
      && ByteLE(f.l, 1) == Sum6(y1, y2, y3, y5, y6, y8) && ByteLE(f.l, 0) == Sum6(y2, y3, y4, y5, y6, y7)
      && ByteLE(f.r, 3) == Sum5(y1, y2, y6, y7, y8) && ByteLE(f.r, 2) == Sum5(y2, y3, y5, y7, y8)
      && ByteLE(f.r, 1) == Sum5(y3, y4, y5, y6, y8) && ByteLE(f.r, 0) == Sum5(y1, y4, y5, y6, y7)
  {
    hide PackLE, ByteLE, XorWord, RotL8, RotL16, RotR8, XorByte, Mixture, Sum5, Sum6;
    var u, v := XorWord(x.l, k.l), XorWord(x.r, k.r);
    PackByte(t.s4(ByteLE(u, 0)), t.s3(ByteLE(u, 1)), t.s2(ByteLE(u, 2)), t.s1(ByteLE(u, 3)));
    PackByte(t.s1(ByteLE(v, 0)), t.s4(ByteLE(v, 1)), t.s3(ByteLE(v, 2)), t.s2(ByteLE(v, 3)));
    var i0, i1 := Sub(u, t.s1, t.s2, t.s3, t.s4), Sub(v, t.s2, t.s3, t.s4, t.s1);
    MixtureSums(i0, i1);
  }

  /** Rotation by one of the bits a mask keeps. */
  function Masked(w: bv32, m: bv32): bv32 {
    ((w & m) << 1) | ((w & m) >> 31)
  }

  function OrWord(w: bv32, m: bv32): bv32 { w | m }

  function FL(x: Pair, k: Pair): Pair {
    var r := XorWord(Masked(x.l, k.l), x.r);
    Pair(XorWord(OrWord(r, k.r), x.l), r)
  }

  function FLInv(y: Pair, k: Pair): Pair {
    var l := XorWord(OrWord(y.r, k.r), y.l);
    Pair(l, XorWord(Masked(l, k.l), y.r))
  }

  /** The two layers on bits, as in section 2.4.2 of RFC 3713. */
  lemma LayersOnWords(x: Pair, k: Pair)
    ensures FL(x, k).r == x.r ^ (x.l & k.l).RotateLeft(1) && FL(x, k).l == x.l ^ (FL(x, k).r | k.r)
    ensures FLInv(x, k).l == x.l ^ (x.r | k.r) && FLInv(x, k).r == x.r ^ (FLInv(x, k).l & k.l).RotateLeft(1)
  {
    hide XorWord, Masked, OrWord;
    LayerWord(x.r, x.l, k.l);
    LayerWord(x.r, FLInv(x, k).l, k.l);
    OrLayerWord(x.l, FL(x, k).r, k.r);
    OrLayerWord(x.l, x.r, k.r);
  }

  lemma LayerWord(a: bv32, w: bv32, m: bv32)
    ensures XorWord(Masked(w, m), a) == a ^ (w & m).RotateLeft(1)
  {
    hide Masked;
    MaskedRotates(w, m);
  }

  lemma OrLayerWord(a: bv32, w: bv32, m: bv32)
    ensures XorWord(OrWord(w, m), a) == a ^ (w | m)
  {
  }

  lemma MaskedRotates(w: bv32, m: bv32)
    ensures Masked(w, m) == (w & m).RotateLeft(1)
  {
  }

  lemma XorAgain(a: bv32, b: bv32)
    ensures XorWord(a, XorWord(a, b)) == b
  {
  }

  /** FLInv undoes FL under the same subkey, and the other way round. */
  lemma FLRoundTrip(x: Pair, k: Pair)
    ensures FLInv(FL(x, k), k) == x && FL(FLInv(x, k), k) == x
  {
    hide XorWord, Masked, OrWord;
    var r := XorWord(Masked(x.l, k.l), x.r);
    XorAgain(OrWord(r, k.r), x.l);
    XorAgain(Masked(x.l, k.l), x.r);
    var l := XorWord(OrWord(x.r, k.r), x.l);
    XorAgain(Masked(l, k.l), x.r);
    XorAgain(OrWord(x.r, k.r), x.l);
  }

  // ------------------------------------------------------------ the cipher

  /** Rounds 0 to 5 of each eight change the halves in turn; 6 and 7 are the FL layers. */
  function Step(t: Boxes, p: nat, k: Pair, s: State): State {
    if p % 8 == 6 then State(FL(s.left, k), s.right)
    else if p % 8 == 7 then State(s.left, FLInv(s.right, k))
    else if p % 2 == 0 then State(s.left, XorPair(s.right, F(t, s.left, k)))
    else State(XorPair(s.left, F(t, s.right, k)), s.right)
  }

  function Swap(s: State): State {
    State(s.right, s.left)
  }

  /** Step q on the swapped state takes back step p when the two kinds face each other. */
  lemma StepBack(t: Boxes, p: nat, q: nat, k: Pair, s: State)
    requires (p + q) % 8 == 5
    ensures Step(t, q, k, Swap(Step(t, p, k, s))) == Swap(s)
  {
    hide FL, FLInv, F, XorPair;
    FLRoundTrip(s.left, k);
    FLRoundTrip(s.right, k);
    XorPairCancel(s.right, F(t, s.left, k));
    XorPairCancel(s.left, F(t, s.right, k));
    Facing(p, q);
  }

  lemma Facing(p: nat, q: nat)
    requires (p + q) % 8 == 5
    ensures (p % 8 == 6 <==> q % 8 == 7) && (p % 8 == 7 <==> q % 8 == 6)
    ensures p % 8 < 6 ==> q % 8 < 6 && (p % 2 == 0 <==> q % 2 != 0)
  {
    var a, b := p % 8, q % 8;
    Residue(p + q, p / 8 + q / 8, a + b);
    assert a + b == 5 || a + b == 13;
    Residue(p, p / 8, a);
    Residue(q, q / 8, b);
    if a < 6 { assert a % 2 == 0 <==> b % 2 != 0; }
  }

  lemma Residue(x: nat, m: nat, c: nat)
    requires x == 8 * m + c
    ensures x % 8 == c % 8 && x % 2 == c % 2
  {
    DivModUnique(x, 8, m + c / 8, c % 8);
    DivModUnique(x, 2, 4 * m + c / 2, c % 2);
  }

  /** Number of words in a schedule for nr groups of six rounds. */
  function Size(nr: nat): nat
    requires nr > 0
  {
    16 * nr + 4
  }

  function Subkey(rk: seq<bv32>, p: nat): Pair
    requires 2 * p + 2 <= |rk|
  {
    Pair(rk[2 * p], rk[2 * p + 1])
  }

  /** The state after p steps; the first two subkeys are for whitening. */
  function Run(t: Boxes, rk: seq<bv32>, p: nat, s: State): State
    requires 2 * p + 4 <= |rk|
  {
    if p == 0 then s else Step(t, p - 1, Subkey(rk, p + 1), Run(t, rk, p - 1, s))
  }

  function Whiten(s: State, rk: seq<bv32>, p: nat): State
    requires 2 * p + 4 <= |rk|
  {
    State(XorPair(s.left, Subkey(rk, p)), XorPair(s.right, Subkey(rk, p + 1)))
  }

  /** The whole cipher: whitening, 8 nr - 2 steps, a swap, whitening. */
  function Crypt(t: Boxes, rk: seq<bv32>, nr: nat, s: State): State
    requires nr > 0 && |rk| >= Size(nr)
  {
    Whiten(Swap(Run(t, rk, 8 * nr - 2, Whiten(s, rk, 0))), rk, 8 * nr)
  }

  /** dk is rk walked backwards in pairs, with the two whitening subkeys at each end in order. */
  ghost predicate Backwards(dk: seq<bv32>, rk: seq<bv32>, nr: nat)
    requires nr > 0
  {
    && |dk| >= Size(nr) && |rk| >= Size(nr)
    && Subkey(dk, 0) == Subkey(rk, 8 * nr) && Subkey(dk, 1) == Subkey(rk, 8 * nr + 1)
    && Subkey(dk, 8 * nr) == Subkey(rk, 0) && Subkey(dk, 8 * nr + 1) == Subkey(rk, 1)
    && forall p :: 2 <= p < 8 * nr ==> Subkey(dk, p) == Subkey(rk, 8 * nr + 1 - p)
  }

  lemma {:induction false} RunBack(t: Boxes, rk: seq<bv32>, dk: seq<bv32>, nr: nat, s: State, p: nat)
    requires nr > 0 && Backwards(dk, rk, nr) && p <= 8 * nr - 2
    ensures Run(t, dk, p, Swap(Run(t, rk, 8 * nr - 2, s))) == Swap(Run(t, rk, 8 * nr - 2 - p, s))
  {
    hide Step, Subkey;
    if p > 0 {
      RunBack(t, rk, dk, nr, s, p - 1);
      var q := 8 * nr - 2 - p;
      assert Subkey(dk, p + 1) == Subkey(rk, q + 2);
      StepBack(t, q, p - 1, Subkey(rk, q + 2), Run(t, rk, q, s));
    }
  }

  lemma WhitenTwice(s: State, rk: seq<bv32>, p: nat, dk: seq<bv32>, q: nat)
    requires 2 * p + 4 <= |rk| && 2 * q + 4 <= |dk|
    requires Subkey(dk, q) == Subkey(rk, p) && Subkey(dk, q + 1) == Subkey(rk, p + 1)
    ensures Whiten(Whiten(s, rk, p), dk, q) == s
  {
    hide XorPair, Subkey;
    XorPairCancel(s.left, Subkey(rk, p));
    XorPairCancel(s.right, Subkey(rk, p + 1));
  }

  /** On the schedule walked backwards the same routine decrypts, for any schedule and any tables. */
  lemma RoundTrip(t: Boxes, rk: seq<bv32>, dk: seq<bv32>, nr: nat, s: State)
    requires nr > 0 && Backwards(dk, rk, nr)
    ensures Crypt(t, dk, nr, Crypt(t, rk, nr, s)) == s
  {
    hide Run, Whiten, Subkey;
    var n := 8 * nr - 2;
    var w := Whiten(s, rk, 0);
    var y := Run(t, rk, n, w);
    WhitenTwice(Swap(y), rk, 8 * nr, dk, 0);
    RunBack(t, rk, dk, nr, w, n);
    NoSteps(t, rk, w);
    WhitenTwice(s, rk, 0, dk, 8 * nr);
  }

  /** The states the steps start from, the last one included. */
  ghost function States(t: Boxes, rk: seq<bv32>, n: nat, s: State): (d: seq<State>)
    requires 2 * n + 4 <= |rk|
    ensures |d| == n + 1
  {
    seq(n + 1, p requires 0 <= p <= n => Run(t, rk, p, s))
  }

  ghost predicate FromStep(t: Boxes, p: nat, k: Pair, s: State, s': State) {
    if p % 8 == 6 then s' == State(FL(s.left, k), s.right)
    else if p % 8 == 7 then s' == State(s.left, FLInv(s.right, k))
    else if p % 2 == 0 then s' == State(s.left, XorPair(s.right, F(t, s.left, k)))
    else s' == State(XorPair(s.left, F(t, s.right, k)), s.right)
  }

  /**
   * A run of the cipher from x to y through the states d: whitening, then in each group of eight steps six
   * rounds, on the right half first and in turn, and FL and its inverse on the left and the right half; at
   * the end the halves change places and are whitened.
   */
  ghost predicate Linked(t: Boxes, rk: seq<bv32>, d: seq<State>, x: State, y: State)
    requires |d| > 0 && |rk| >= 2 * |d| + 6
  {
    var n := |d| - 1;
    && d[0] == State(XorPair(x.left, PairAt(rk, 0)), XorPair(x.right, PairAt(rk, 2)))
    && (forall p {:trigger d[p]} :: 0 <= p < n ==> FromStep(t, p, PairAt(rk, 2 * p + 4), d[p], d[p + 1]))
    && y == State(XorPair(d[n].right, PairAt(rk, 2 * n + 4)), XorPair(d[n].left, PairAt(rk, 2 * n + 6)))
  }

  lemma StatesLinked(t: Boxes, rk: seq<bv32>, nr: nat, x: State)
    requires nr > 0 && |rk| >= Size(nr)
    ensures Linked(t, rk, States(t, rk, 8 * nr - 2, Whiten(x, rk, 0)), x, Crypt(t, rk, nr, x))
  {
    hide F, FL, FLInv, XorPair, Run, FromStep;
    var n, w := 8 * nr - 2, Whiten(x, rk, 0);
    var d := States(t, rk, n, w);
    NoSteps(t, rk, w);
    forall p | 0 <= p < n ensures FromStep(t, p, PairAt(rk, 2 * p + 4), d[p], d[p + 1]) {
      NextState(t, rk, p, w);
    }
  }

  lemma NextState(t: Boxes, rk: seq<bv32>, p: nat, s: State)
    requires 2 * p + 6 <= |rk|
    ensures FromStep(t, p, PairAt(rk, 2 * p + 4), Run(t, rk, p, s), Run(t, rk, p + 1, s))
  {
    hide F, FL, FLInv, XorPair;
  }

  lemma NoSteps(t: Boxes, rk: seq<bv32>, s: State)
    requires |rk| >= 4
    ensures Run(t, rk, 0, s) == s
  {
  }

  // -------------------------------------------------------- the operations

  lemma SubWords(w: bv32, a: bv8, b: bv8, c: bv8, d: bv8)
    ensures ((a as bv32) << 24) | ((b as bv32) << 16) | ((c as bv32) << 8) | (d as bv32) == PackLE(d, c, b, a)
  {
  }

  lemma MaskedBytes(w: bv32)
    ensures ((w >> 24) & 0xFF) as bv8 == ByteLE(w, 3) && ((w >> 16) & 0xFF) as bv8 == ByteLE(w, 2)
    ensures ((w >> 8) & 0xFF) as bv8 == ByteLE(w, 1) && (w & 0xFF) as bv8 == ByteLE(w, 0)
  {
  }

  method SubMethod(w: bv32, a: SBox, b: SBox, c: SBox, d: SBox) returns (r: bv32)
    ensures r == Sub(w, a, b, c, d)
  {
    hide PackLE, ByteLE;
    MaskedBytes(w);
    var b3, b2, b1, b0 :=
      a(((w >> 24) & 0xFF) as bv8), b(((w >> 16) & 0xFF) as bv8), c(((w >> 8) & 0xFF) as bv8), d((w & 0xFF) as bv8);
    r := ((b3 as bv32) << 24) | ((b2 as bv32) << 16) | ((b1 as bv32) << 8) | (b0 as bv32);
    SubWords(w, b3, b2, b1, b0);
  }

  function FeistelRound(t: Boxes, fromLeft: bool, k: Pair, s: State): State {
    if fromLeft then State(s.left, XorPair(s.right, F(t, s.left, k)))
    else State(XorPair(s.left, F(t, s.right, k)), s.right)
  }

  lemma RoundIsStep(t: Boxes, rk: seq<bv32>, p: nat, s: State)
    requires 2 * p + 6 <= |rk| && p % 8 < 6
    ensures Run(t, rk, p + 1, s) == FeistelRound(t, p % 2 == 0, PairAt(rk, 2 * p + 4), Run(t, rk, p, s))
  {
    hide F, XorPair;
    assert p % 8 % 2 == p % 2;
  }

  function PairAt(x: seq<bv32>, i: nat): Pair
    requires i + 2 <= |x|
  {
    Pair(x[i], x[i + 1])
  }

  /** One round on the state array: x[z..z + 2] takes in the round function of x[i..i + 2]. */
  method Feistel(t: Boxes, x: array<bv32>, i: nat, rk: array<bv32>, k: nat, z: nat)
    requires x.Length == 4 && k + 2 <= rk.Length && x != rk
    requires (i == 0 && z == 2) || (i == 2 && z == 0)
    modifies x
    ensures StateIn(x[..]) == FeistelRound(t, i == 0, PairAt(rk[..], k), old(StateIn(x[..])))
  {
    hide XorWord, Sub, RotL8, RotL16, RotR8;
    var i0 := XorWord(x[i], rk[k]);
    var i1 := XorWord(x[i + 1], rk[k + 1]);
    i0 := SubMethod(i0, t.s1, t.s2, t.s3, t.s4);
    i1 := SubMethod(i1, t.s2, t.s3, t.s4, t.s1);
    i0 := XorWord(i0, RotL8(i1));
    i1 := XorWord(i1, RotL16(i0));
    i0 := XorWord(i0, RotR8(i1));
    i1 := XorWord(i1, RotR8(i0));
    x[z] := XorWord(x[z], i1);
    x[z + 1] := XorWord(x[z + 1], i0);
  }

  function StateIn(x: seq<bv32>): State
    requires |x| == 4
  {
    State(PairAt(x, 0), PairAt(x, 2))
  }

  /** Big-endian words. */
  function GetBE(s: Bytes, i: nat): bv32
    requires i + 4 <= |s|
  {
    PackLE(s[i + 3], s[i + 2], s[i + 1], s[i])
  }

  function PutBE(w: bv32): (r: Bytes)
    ensures |r| == 4
  {
    [ByteLE(w, 3), ByteLE(w, 2), ByteLE(w, 1), ByteLE(w, 0)]
  }

  function StateBE(s: Bytes): State
    requires |s| == 16
  {
    State(Pair(GetBE(s, 0), GetBE(s, 4)), Pair(GetBE(s, 8), GetBE(s, 12)))
  }

  function BytesBE(s: State): (r: Bytes)
    ensures |r| == 16
  {
    PutBE(s.left.l) + PutBE(s.left.r) + PutBE(s.right.l) + PutBE(s.right.r)
  }

  lemma StateBytesBE(s: State)
    ensures StateBE(BytesBE(s)) == s
  {
    hide PackLE, ByteLE;
    BytePack(s.left.l);
    BytePack(s.left.r);
    BytePack(s.right.l);
    BytePack(s.right.r);
  }

  lemma BytesStateBE(s: Bytes)
    requires |s| == 16
    ensures BytesBE(StateBE(s)) == s
  {
    hide PackLE, ByteLE;
    PackByte(s[3], s[2], s[1], s[0]);
    PackByte(s[7], s[6], s[5], s[4]);
    PackByte(s[11], s[10], s[9], s[8]);
    PackByte(s[15], s[14], s[13], s[12]);
  }

  /** Six rounds with the subkeys from word k on. */
  method SixRounds(t: Boxes, x: array<bv32>, rk: array<bv32>, k: nat, ghost p: nat, ghost s: State)
    requires x.Length == 4 && x != rk && k + 12 <= rk.Length
    requires p % 8 == 0 && k == 2 * p + 4 && StateIn(x[..]) == Run(t, rk[..], p, s)
    modifies x
    ensures StateIn(x[..]) == Run(t, rk[..], p + 6, s)
  {
    hide Run, StateIn;
    Residues(p);
    OneRound(t, x, rk, k, p, s, true);
    OneRound(t, x, rk, k + 2, p + 1, s, false);
    OneRound(t, x, rk, k + 4, p + 2, s, true);
    OneRound(t, x, rk, k + 6, p + 3, s, false);
    OneRound(t, x, rk, k + 8, p + 4, s, true);
    OneRound(t, x, rk, k + 10, p + 5, s, false);
  }

  lemma Residues(p: nat)
    requires p % 8 == 0
    ensures (p + 1) % 8 == 1 && (p + 2) % 8 == 2 && (p + 3) % 8 == 3 && (p + 4) % 8 == 4 && (p + 5) % 8 == 5
    ensures p % 2 == 0 && (p + 1) % 2 == 1 && (p + 2) % 2 == 0 && (p + 3) % 2 == 1 && (p + 4) % 2 == 0 && (p + 5) % 2 == 1
  {
  }

  /** One of the six rounds. */
  method OneRound(t: Boxes, x: array<bv32>, rk: array<bv32>, k: nat, ghost p: nat, ghost s: State, even: bool)
    requires x.Length == 4 && x != rk && k + 2 <= rk.Length
    requires p % 8 < 6 && even == (p % 2 == 0) && k == 2 * p + 4 && StateIn(x[..]) == Run(t, rk[..], p, s)
    modifies x
    ensures StateIn(x[..]) == Run(t, rk[..], p + 1, s)
  {
    hide FeistelRound, Run, StateIn, PairAt;
    RoundIsStep(t, rk[..], p, s);
    if even { Feistel(t, x, 0, rk, k, 2); } else { Feistel(t, x, 2, rk, k, 0); }
  }

  /** The two FL layers between groups. */
  method FLLayers(t: Boxes, x: array<bv32>, rk: array<bv32>, k: nat, ghost p: nat, ghost s: State)
    requires x.Length == 4 && x != rk && k + 4 <= rk.Length
    requires p % 8 == 6 && k == 2 * p + 4 && StateIn(x[..]) == Run(t, rk[..], p, s)
    modifies x
    ensures StateIn(x[..]) == Run(t, rk[..], p + 2, s)
  {
    hide Run, StateIn, FL, FLInv;
    ghost var keys, u := rk[..], Run(t, rk[..], p, s);
    LayersAreSteps(t, keys, p, s);
    ApplyFL(x, rk, k);
    ApplyFLInv(x, rk, k + 2);
  }

  lemma LayersAreSteps(t: Boxes, rk: seq<bv32>, p: nat, s: State)
    requires 2 * p + 8 <= |rk| && p % 8 == 6
    ensures var u := Run(t, rk, p, s);
      Run(t, rk, p + 2, s) == State(FL(u.left, PairAt(rk, 2 * p + 4)), FLInv(u.right, PairAt(rk, 2 * p + 6)))
  {
    hide FL, FLInv, F, XorPair;
    Residue(p + 1, p / 8, 7);
    assert Run(t, rk, p + 1, s) == Step(t, p, Subkey(rk, p + 2), Run(t, rk, p, s));
  }

  method ApplyFL(x: array<bv32>, rk: array<bv32>, k: nat)
    requires x.Length == 4 && x != rk && k + 2 <= rk.Length
    modifies x
    ensures StateIn(x[..]) == State(FL(old(StateIn(x[..])).left, PairAt(rk[..], k)), old(StateIn(x[..])).right)
  {
    hide XorWord, Masked, OrWord;
    x[1] := XorWord(Masked(x[0], rk[k]), x[1]);
    x[0] := XorWord(OrWord(x[1], rk[k + 1]), x[0]);
  }

  method ApplyFLInv(x: array<bv32>, rk: array<bv32>, k: nat)
    requires x.Length == 4 && x != rk && k + 2 <= rk.Length
    modifies x
    ensures StateIn(x[..]) == State(old(StateIn(x[..])).left, FLInv(old(StateIn(x[..])).right, PairAt(rk[..], k)))
  {
    hide XorWord, Masked, OrWord;
    x[2] := XorWord(OrWord(x[3], rk[k + 1]), x[2]);
    x[3] := XorWord(Masked(x[2], rk[k]), x[3]);
  }

  class CamelliaContext {
    var nr: nat
    const rk: array<bv32>

    constructor (n: nat)
      requires n == 3 || n == 4
      ensures Valid() && fresh(rk) && nr == n
    {
      rk := new bv32[68];
      nr := n;
    }

    ghost predicate Valid()
      reads this
    {
      rk.Length == 68 && (nr == 3 || nr == 4)
    }

    /** Encrypts or decrypts a block, depending on the schedule, through the states d. */
    method CryptEcb(t: Boxes, input: array<bv8>, output: array<bv8>) returns (ghost d: seq<State>)
      requires Valid() && input.Length == output.Length == 16
      modifies output
      ensures |d| == 8 * nr - 1 && Linked(t, rk[..], d, StateBE(old(input[..])), StateBE(output[..]))
      ensures output[..] == BytesBE(Crypt(t, rk[..], nr, StateBE(old(input[..]))))
    {
      hide XorWord, XorPair, GetBE, PutBE, Run, Linked, States;
      ghost var s, keys := StateBE(input[..]), rk[..];
      var x := new bv32[4];
      x[0], x[1], x[2], x[3] :=
        GetBE(input[..], 0), GetBE(input[..], 4), GetBE(input[..], 8), GetBE(input[..], 12);
      WhitenWords(x, 0, 1, 2, 3, rk, 0);
      ghost var w := Whiten(s, keys, 0);
      assert StateIn(x[..]) == w;
      var k := Groups(t, x, w);
      WhitenWords(x, 2, 3, 0, 1, rk, k);
      d := States(t, keys, 8 * nr - 2, w);
      StatesLinked(t, keys, nr, s);
      StateBytesBE(Crypt(t, keys, nr, s));
      Store(output, 0, PutBE(x[2]) + PutBE(x[3]) + PutBE(x[0]) + PutBE(x[1]));
      assert output[..] == output[0..16];
    }

    /** The loop over the groups of six rounds. */
    method Groups(t: Boxes, x: array<bv32>, ghost w: State) returns (k: nat)
      requires Valid() && x.Length == 4 && x != rk && StateIn(x[..]) == w
      modifies x
      ensures k == 16 * nr && StateIn(x[..]) == Run(t, rk[..], 8 * nr - 2, w)
    {
      hide Run, StateIn;
      NoSteps(t, rk[..], w);
      var n;
      k, n := 4, nr;
      ghost var p := 0;
      while n > 0
        invariant 0 <= n <= nr && p == if n == 0 then 8 * nr - 2 else 8 * (nr - n)
        invariant k == 2 * p + 4 && StateIn(x[..]) == Run(t, rk[..], p, w)
      {
        n := n - 1;
        SixRounds(t, x, rk, k, p, w);
        k, p := k + 12, p + 6;
        if n > 0 {
          FLLayers(t, x, rk, k, p, w);
          k, p := k + 4, p + 2;
        }
      }
    }

    /** The decryption schedule from an encryption schedule, copied from the far end back. */
    method ReverseFrom(cty: CamelliaContext)
      requires rk.Length == 68 && cty.Valid() && cty != this && cty.rk != rk
      modifies this, rk
      ensures Valid() && nr == cty.nr && Backwards(rk[..], cty.rk[..], nr)
    {
      hide Subkey, Copied, Backwards;
      nr := cty.nr;
      var idx := if nr == 4 then 1 else 0;
      var s := 24 * 2 + 8 * idx * 2;
      CopyFour(rk, 0, cty.rk, s);
      WhiteningCopied(rk[..], cty.rk[..], s);
      var r;
      r, s := CopyMiddle(rk, cty.rk, nr, 4, s + 4, 22 + 8 * idx);
      ghost var before := rk[..];
      CopyFour(rk, r, cty.rk, s);
      CopiedAll(before, rk[..], cty.rk[..], nr);
    }
  }

  /** Four words, one after the other. */
  method CopyFour(dk: array<bv32>, r: nat, sk: array<bv32>, s: nat)
    requires dk != sk && r + 4 <= dk.Length && s + 4 <= sk.Length
    modifies dk
    ensures dk[..] == old(dk[..])[r := sk[s]][r + 1 := sk[s + 1]][r + 2 := sk[s + 2]][r + 3 := sk[s + 3]]
  {
    dk[r] := sk[s];
    dk[r + 1] := sk[s + 1];
    dk[r + 2] := sk[s + 2];
    dk[r + 3] := sk[s + 3];
  }

  lemma WhiteningCopied(dk: seq<bv32>, rk: seq<bv32>, s: nat)
    requires |dk| >= 4 && s % 2 == 0 && s + 4 <= |rk|
    requires dk[0] == rk[s] && dk[1] == rk[s + 1] && dk[2] == rk[s + 2] && dk[3] == rk[s + 3]
    ensures Subkey(dk, 0) == Subkey(rk, s / 2) && Subkey(dk, 1) == Subkey(rk, s / 2 + 1)
  {
  }

  /** The loop over the pairs between the whitening subkeys: i of them, backwards. */
  method CopyMiddle(dk: array<bv32>, sk: array<bv32>, nr: nat, r0: nat, s0: nat, i0: nat) returns (r: nat, s: int)
    requires dk != sk && dk.Length == sk.Length == 68 && (nr == 3 || nr == 4)
    requires r0 == 4 && s0 == 16 * nr + 4 && i0 == 8 * nr - 2
    modifies dk
    ensures r == 16 * nr && s == 0 && Copied(dk[..], sk[..], nr, 8 * nr)
    ensures Subkey(dk[..], 0) == old(Subkey(dk[..], 0)) && Subkey(dk[..], 1) == old(Subkey(dk[..], 1))
  {
    hide Subkey;
    ghost var src, k0, k1 := sk[..], Subkey(dk[..], 0), Subkey(dk[..], 1);
    r, s := r0, s0 - 6;
    var i := i0;
    while i > 0
      invariant 0 <= i <= 8 * nr - 2
      invariant r == 2 * (8 * nr - i) && s == 2 * (i + 1)
      invariant Subkey(dk[..], 0) == k0 && Subkey(dk[..], 1) == k1
      invariant Copied(dk[..], src, nr, 8 * nr - i)
    {
      ghost var before := dk[..];
      dk[r], dk[r + 1] := sk[s], sk[s + 1];
      CopiedMore(before, dk[..], src, nr, 8 * nr - i);
      r, s := r + 2, s + 2;
      s := s - 4;
      i := i - 1;
    }
    s := s - 2;
  }

  /** The pairs below c come from the other end. */
  ghost predicate Copied(dk: seq<bv32>, rk: seq<bv32>, nr: nat, c: nat)
    requires 0 < nr && c <= 8 * nr && |dk| >= Size(nr) && |rk| >= Size(nr)
  {
    forall p :: 2 <= p < c ==> Subkey(dk, p) == Subkey(rk, 8 * nr + 1 - p)
  }

  lemma CopiedMore(dk: seq<bv32>, dk': seq<bv32>, rk: seq<bv32>, nr: nat, c: nat)
    requires 0 < nr && 2 <= c < 8 * nr && |dk| >= Size(nr) && |rk| >= Size(nr) && Copied(dk, rk, nr, c)
    requires dk' == dk[2 * c := rk[2 * (8 * nr + 1 - c)]][2 * c + 1 := rk[2 * (8 * nr + 1 - c) + 1]]
    ensures Copied(dk', rk, nr, c + 1) && Subkey(dk', 0) == Subkey(dk, 0) && Subkey(dk', 1) == Subkey(dk, 1)
  {
    forall p | 2 <= p < c ensures Subkey(dk', p) == Subkey(dk, p) {
    }
  }

  lemma CopiedAll(dk: seq<bv32>, dk': seq<bv32>, rk: seq<bv32>, nr: nat)
    requires 0 < nr && |dk| >= Size(nr) && |rk| >= Size(nr) && Copied(dk, rk, nr, 8 * nr)
    requires Subkey(dk, 0) == Subkey(rk, 8 * nr) && Subkey(dk, 1) == Subkey(rk, 8 * nr + 1)
    requires dk' == dk[16 * nr := rk[0]][16 * nr + 1 := rk[1]][16 * nr + 2 := rk[2]][16 * nr + 3 := rk[3]]
    ensures Backwards(dk', rk, nr)
  {
    forall p | 0 <= p < 8 * nr ensures Subkey(dk', p) == Subkey(dk, p) {
    }
  }

  function Mixed(inOrder: bool, s: State, k: Pair, m: Pair): State {
    if inOrder then State(XorPair(s.left, k), XorPair(s.right, m)) else State(XorPair(s.left, m), XorPair(s.right, k))
  }

  /** Adds four subkey words to the state, in a given order. */
  method WhitenWords(x: array<bv32>, a: nat, b: nat, c: nat, d: nat, rk: array<bv32>, k: nat)
    requires x.Length == 4 && x != rk && k + 4 <= rk.Length
    requires (a == 0 && b == 1 && c == 2 && d == 3) || (a == 2 && b == 3 && c == 0 && d == 1)
    modifies x
    ensures StateIn(x[..]) == Mixed(a == 0, old(StateIn(x[..])), PairAt(rk[..], k), PairAt(rk[..], k + 2))
  {
    hide XorWord;
    x[a] := XorWord(x[a], rk[k]);
    x[b] := XorWord(x[b], rk[k + 1]);
    x[c] := XorWord(x[c], rk[k + 2]);
    x[d] := XorWord(x[d], rk[k + 3]);
  }

  /** A block encrypted under a schedule and run through the reversed schedule comes back. */
  method EncryptDecrypt(t: Boxes, enc: CamelliaContext, input: array<bv8>, output: array<bv8>)
    requires enc.Valid() && input.Length == output.Length == 16
    modifies output
    ensures output[..] == old(input[..])
  {
    hide Crypt, StateBE, BytesBE, Backwards, Linked;
    var dec := new CamelliaContext(enc.nr);
    dec.ReverseFrom(enc);
    ghost var s := StateBE(input[..]);
    BytesStateBE(input[..]);
    ghost var states := enc.CryptEcb(t, input, output);
    StateBytesBE(Crypt(t, enc.rk[..], enc.nr, s));
    states := dec.CryptEcb(t, output, output);
    RoundTrip(t, enc.rk[..], dec.rk[..], enc.nr, s);
  }
}
