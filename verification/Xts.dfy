/**
 * XTS mode: whole-sector encryption with a tweak that is multiplied by x in GF(2^128) from block
 * to block, and ciphertext stealing for a data unit that is not a whole number of blocks.
 */
module Xts {
  import opened Blocks

  // --------------------------------------------------- multiplication by x

  predicate BitOf(b: bv8, j: nat)
    requires j < 8
  {
    match j
    case 0 => b & 0x01 != 0
    case 1 => b & 0x02 != 0
    case 2 => b & 0x04 != 0
    case 3 => b & 0x08 != 0
    case 4 => b & 0x10 != 0
    case 5 => b & 0x20 != 0
    case 6 => b & 0x40 != 0
    case _ => b & 0x80 != 0
  }

  /** The coefficient of x^i in the field element a block stands for: least significant bit of byte 0 first. */
  predicate Coeff(block: Bytes, i: nat)
    requires |block| == 16 && i < 128
  {
    BitOf(block[i / 8], i % 8)
  }

  /** The product of a field element and x, byte by byte. */
  function TimesX(t: Bytes): (r: Bytes)
    requires |t| == 16
    ensures |r| == 16
  {
    seq(16, k requires 0 <= k < 16 => if k == 0 then Reduced(t[0], t[15]) else Shifted(t[k], t[k - 1]))
  }

  /** A byte shifted up by one bit, with the top bit of the byte below it. */
  function Shifted(b: bv8, below: bv8): bv8 {
    (b << 1) | (below >> 7)
  }

  /** The lowest byte: x^128 comes back as x^7 + x^2 + x + 1. */
  function Reduced(b: bv8, top: bv8): bv8 {
    (b << 1) ^ Fold(top)
  }

  function Fold(top: bv8): bv8 {
    if top & 0x80 != 0 then 0x87 else 0
  }

  lemma ShiftedBit(b: bv8, below: bv8, j: nat)
    requires j < 8
    ensures BitOf(Shifted(b, below), j) == if j == 0 then BitOf(below, 7) else BitOf(b, j - 1)
  {
  }

  lemma ReducedBit(b: bv8, top: bv8, j: nat)
    requires j < 8
    ensures BitOf(Reduced(b, top), j) ==
      ((j > 0 && BitOf(b, j - 1)) != (BitOf(top, 7) && (j == 0 || j == 1 || j == 2 || j == 7)))
  {
  }

  /**
   * The coefficients of x * t modulo x^128 + x^7 + x^2 + x + 1: every coefficient moves up one
   * power, and the one that leaves the top comes back at x^7, x^2, x and 1.
   */
  lemma TimesXCoeff(t: Bytes, i: nat)
    requires |t| == 16 && i < 128
    ensures Coeff(TimesX(t), i) ==
      ((i > 0 && Coeff(t, i - 1)) != (Coeff(t, 127) && (i == 0 || i == 1 || i == 2 || i == 7)))
  {
    hide BitOf, Shifted, Reduced;
    if i < 8 {
      ReducedBit(t[0], t[15], i);
    } else {
      ShiftedBit(t[i / 8], t[i / 8 - 1], i % 8);
      assert if i % 8 == 0 then (i - 1) / 8 == i / 8 - 1 && (i - 1) % 8 == 7
             else (i - 1) / 8 == i / 8 && (i - 1) % 8 == i % 8 - 1;
    }
  }

  lemma BitsDecide(a: bv8, b: bv8)
    requires forall j :: 0 <= j < 8 ==> BitOf(a, j) == BitOf(b, j)
    ensures a == b
  {
    assert BitOf(a, 0) == BitOf(b, 0) && BitOf(a, 1) == BitOf(b, 1) && BitOf(a, 2) == BitOf(b, 2);
    assert BitOf(a, 3) == BitOf(b, 3) && BitOf(a, 4) == BitOf(b, 4) && BitOf(a, 5) == BitOf(b, 5);
    assert BitOf(a, 6) == BitOf(b, 6) && BitOf(a, 7) == BitOf(b, 7);
  }

  /** The coefficients determine the block. */
  lemma CoeffsDecide(a: Bytes, b: Bytes)
    requires |a| == |b| == 16
    requires forall i :: 0 <= i < 128 ==> Coeff(a, i) == Coeff(b, i)
    ensures a == b
  {
    forall k | 0 <= k < 16 ensures a[k] == b[k] {
      forall j | 0 <= j < 8 ensures BitOf(a[k], j) == BitOf(b[k], j) {
        var i := 8 * k + j;
        assert i / 8 == k && i % 8 == j;
        assert Coeff(a, i) == Coeff(b, i);
      }
      BitsDecide(a[k], b[k]);
    }
  }

  function Word(x0: bv8, x1: bv8, x2: bv8, x3: bv8, x4: bv8, x5: bv8, x6: bv8, x7: bv8): bv64 {
    ((x7 as bv64) << 56) | ((x6 as bv64) << 48) | ((x5 as bv64) << 40) | ((x4 as bv64) << 32)
    | ((x3 as bv64) << 24) | ((x2 as bv64) << 16) | ((x1 as bv64) << 8) | (x0 as bv64)
  }

  function GetU64LE(x: Bytes): bv64
    requires |x| == 8
  {
    Word(x[0], x[1], x[2], x[3], x[4], x[5], x[6], x[7])
  }

  /** Byte j of a 64-bit word. */
  function ByteOf(n: bv64, j: nat): bv8
    requires j < 8
  {
    match j
    case 0 => (n & 0xFF) as bv8
    case 1 => ((n >> 8) & 0xFF) as bv8
    case 2 => ((n >> 16) & 0xFF) as bv8
    case 3 => ((n >> 24) & 0xFF) as bv8
    case 4 => ((n >> 32) & 0xFF) as bv8
    case 5 => ((n >> 40) & 0xFF) as bv8
    case 6 => ((n >> 48) & 0xFF) as bv8
    case _ => ((n >> 56) & 0xFF) as bv8
  }

  function PutU64LE(n: bv64): (r: Bytes)
    ensures |r| == 8
  {
    [ByteOf(n, 0), ByteOf(n, 1), ByteOf(n, 2), ByteOf(n, 3), ByteOf(n, 4), ByteOf(n, 5), ByteOf(n, 6), ByteOf(n, 7)]
  }

  /** A word shifted up with a bit carried in, byte by byte. */
  lemma ShiftedWord(x0: bv8, x1: bv8, x2: bv8, x3: bv8, x4: bv8, x5: bv8, x6: bv8, x7: bv8, below: bv8)
    ensures var n := ((below >> 7) as bv64) | (Word(x0, x1, x2, x3, x4, x5, x6, x7) << 1);
      && ByteOf(n, 0) == Shifted(x0, below) && ByteOf(n, 1) == Shifted(x1, x0)
      && ByteOf(n, 2) == Shifted(x2, x1) && ByteOf(n, 3) == Shifted(x3, x2)
      && ByteOf(n, 4) == Shifted(x4, x3) && ByteOf(n, 5) == Shifted(x5, x4)
      && ByteOf(n, 6) == Shifted(x6, x5) && ByteOf(n, 7) == Shifted(x7, x6)
  {
  }

  /** A word shifted up with the reduction folded in, byte by byte. */
  lemma ReducedWord(x0: bv8, x1: bv8, x2: bv8, x3: bv8, x4: bv8, x5: bv8, x6: bv8, x7: bv8, top: bv8)
    ensures var n := (Word(x0, x1, x2, x3, x4, x5, x6, x7) << 1) ^ (Fold(top) as bv64);
      && ByteOf(n, 0) == Reduced(x0, top) && ByteOf(n, 1) == Shifted(x1, x0)
      && ByteOf(n, 2) == Shifted(x2, x1) && ByteOf(n, 3) == Shifted(x3, x2)
      && ByteOf(n, 4) == Shifted(x4, x3) && ByteOf(n, 5) == Shifted(x5, x4)
      && ByteOf(n, 6) == Shifted(x6, x5) && ByteOf(n, 7) == Shifted(x7, x6)
  {
  }

  /** The mask computed by shifting 0x87 right by 8 or by 0. */
  lemma Mask(x0: bv8, x1: bv8, x2: bv8, x3: bv8, x4: bv8, x5: bv8, x6: bv8, x7: bv8)
    ensures var b := Word(x0, x1, x2, x3, x4, x5, x6, x7);
      (0x0087 as bv64) >> (8 - ((b >> 63) << 3)) == Fold(x7) as bv64
    ensures Word(x0, x1, x2, x3, x4, x5, x6, x7) >> 63 == (x7 >> 7) as bv64
  {
  }

  lemma SameEightBytes(n: bv64, s: Bytes)
    requires |s| == 8
    requires s[0] == ByteOf(n, 0) && s[1] == ByteOf(n, 1) && s[2] == ByteOf(n, 2) && s[3] == ByteOf(n, 3)
    requires s[4] == ByteOf(n, 4) && s[5] == ByteOf(n, 5) && s[6] == ByteOf(n, 6) && s[7] == ByteOf(n, 7)
    ensures PutU64LE(n) == s
  {
    hide ByteOf;
  }

  /** The low word of the product. */
  lemma LowWord(t: Bytes, w: bv64)
    requires |t| == 16 && w == Word(t[0], t[1], t[2], t[3], t[4], t[5], t[6], t[7])
    ensures PutU64LE((w << 1) ^ (Fold(t[15]) as bv64)) == TimesX(t)[..8]
  {
    hide Word, PutU64LE, ByteOf, Shifted, Reduced, Fold;
    ReducedWord(t[0], t[1], t[2], t[3], t[4], t[5], t[6], t[7], t[15]);
    SameEightBytes((w << 1) ^ (Fold(t[15]) as bv64), TimesX(t)[..8]);
  }

  /** The high word of the product. */
  lemma HighWord(t: Bytes, w: bv64)
    requires |t| == 16 && w == Word(t[8], t[9], t[10], t[11], t[12], t[13], t[14], t[15])
    ensures PutU64LE(((t[7] >> 7) as bv64) | (w << 1)) == TimesX(t)[8..]
  {
    hide Word, PutU64LE, ByteOf, Shifted, Reduced;
    ShiftedWord(t[8], t[9], t[10], t[11], t[12], t[13], t[14], t[15], t[7]);
    SameEightBytes(((t[7] >> 7) as bv64) | (w << 1), TimesX(t)[8..]);
  }

  /** The two words of the product, with the mask got by shifting 0x87 right by 8 or by 0. */
  lemma WordsTimesX(t: Bytes, a: bv64, b: bv64)
    requires |t| == 16 && a == GetU64LE(t[..8]) && b == GetU64LE(t[8..])
    ensures PutU64LE((a << 1) ^ (0x0087 >> (8 - ((b >> 63) << 3)))) == TimesX(t)[..8]
    ensures PutU64LE((a >> 63) | (b << 1)) == TimesX(t)[8..]
  {
    hide Word, PutU64LE, TimesX, Fold;
    Mask(t[0], t[1], t[2], t[3], t[4], t[5], t[6], t[7]);
    Mask(t[8], t[9], t[10], t[11], t[12], t[13], t[14], t[15]);
    LowWord(t, a);
    HighWord(t, b);
  }

  /** r := x * t, word by word.  r and t may be the same buffer. */
  method Gf128MulX(r: array<bv8>, t: array<bv8>)
    requires r.Length == t.Length == 16
    modifies r
    ensures r[..] == TimesX(old(t[..]))
  {
    hide GetU64LE, PutU64LE, TimesX;
    ghost var t0 := t[..];
    assert t0[..8] == t[..8] && t0[8..] == t[8..];
    var a, b := GetU64LE(t[..8]), GetU64LE(t[8..]);
    var ra := (a << 1) ^ (0x0087 >> (8 - ((b >> 63) << 3)));
    var rb := (a >> 63) | (b << 1);
    WordsTimesX(t0, a, b);
    Store(r, 0, PutU64LE(ra));
    Store(r, 8, PutU64LE(rb));
    assert r[..] == r[..8] + r[8..];
    assert TimesX(t0) == TimesX(t0)[..8] + TimesX(t0)[8..];
  }

  // ------------------------------------------------------------ the mode

  /** The tweak of block k. */
  function TweakAt(t: Bytes, k: nat): (r: Bytes)
    requires |t| == 16
    ensures |r| == 16
  {
    if k == 0 then t else TimesX(TweakAt(t, k - 1))
  }

  lemma TweakStep(t: Bytes, k: nat)
    requires |t| == 16
    ensures TweakAt(t, k + 1) == TimesX(TweakAt(t, k))
  {
  }

  function XtsBlock(f: BlockFn, t: Bytes, b: Bytes): (r: Bytes)
    requires |t| == |b| == 16 && OnBlocks(f, 16)
    ensures |r| == 16
  {
    Xor(f(Xor(b, t)), t)
  }

  /** The first n whole blocks of the data, each under its own tweak. */
  function XtsBlocks(f: BlockFn, t: Bytes, data: Bytes, n: nat): (r: Bytes)
    requires |t| == 16 && 16 * n <= |data| && OnBlocks(f, 16)
    ensures |r| == 16 * n
  {
    if n == 0 then []
    else XtsBlocks(f, t, data, n - 1) + XtsBlock(f, TweakAt(t, n - 1), data[16 * (n - 1)..16 * n])
  }

  /**
   * Ciphertext stealing on one whole block and a partial one.  The whole block is processed first;
   * its tail completes the partial block, which is then processed in its place.  Encryption uses
   * the tweaks in order, decryption in the opposite order.
   */
  function Steal(f: BlockFn, op: Operation, t: Bytes, tail: Bytes): (r: Bytes)
    requires |t| == 16 && 16 < |tail| < 32 && OnBlocks(f, 16)
    ensures |r| == |tail|
  {
    var first, second := if op.Encrypt? then t else TimesX(t), if op.Encrypt? then TimesX(t) else t;
    var c := XtsBlock(f, first, tail[..16]);
    XtsBlock(f, second, tail[16..] + c[|tail| - 16..]) + c[..|tail| - 16]
  }

  /** A whole data unit. */
  function Xts(f: BlockFn, op: Operation, t: Bytes, data: Bytes): (r: Bytes)
    requires |t| == 16 && |data| >= 16 && OnBlocks(f, 16)
    ensures |r| == |data|
  {
    var n := |data| / 16;
    if |data| % 16 == 0 then XtsBlocks(f, t, data, n)
    else XtsBlocks(f, t, data, n - 1) + Steal(f, op, TweakAt(t, n - 1), data[16 * (n - 1)..])
  }

  lemma BlockRoundTrip(f: BlockFn, g: BlockFn, t: Bytes, b: Bytes)
    requires |t| == |b| == 16 && OnBlocks(f, 16) && OnBlocks(g, 16) && Undoes(g, f, 16)
    ensures XtsBlock(g, t, XtsBlock(f, t, b)) == b
  {
    XorCancel(f(Xor(b, t)), t);
    XorCancel(b, t);
  }

  lemma BlocksStep(f: BlockFn, t: Bytes, data: Bytes, n: nat)
    requires |t| == 16 && 16 * (n + 1) <= |data| && OnBlocks(f, 16)
    ensures XtsBlocks(f, t, data, n + 1) ==
      XtsBlocks(f, t, data, n) + XtsBlock(f, TweakAt(t, n), data[16 * n..16 * n + 16])
  {
  }

  lemma NoBlocks(f: BlockFn, t: Bytes, data: Bytes)
    requires |t| == 16 && OnBlocks(f, 16)
    ensures XtsBlocks(f, t, data, 0) == []
  {
  }

  lemma {:induction false} BlocksRoundTrip(f: BlockFn, g: BlockFn, t: Bytes, data: Bytes, n: nat, rest: Bytes)
    requires |t| == 16 && 16 * n <= |data| && OnBlocks(f, 16) && OnBlocks(g, 16) && Undoes(g, f, 16)
    ensures XtsBlocks(g, t, XtsBlocks(f, t, data, n) + rest, n) == data[..16 * n]
  {
    hide XtsBlocks, XtsBlock, TweakAt, TimesX, Xor, OnBlocks, Undoes;
    if n == 0 {
      NoBlocks(g, t, XtsBlocks(f, t, data, n) + rest);
    } else {
      var k := n - 1;
      var front, block := XtsBlocks(f, t, data, k), data[16 * k..16 * k + 16];
      var last := XtsBlock(f, TweakAt(t, k), block);
      BlocksStep(f, t, data, k);
      var whole := XtsBlocks(f, t, data, n) + rest;
      assert whole == front + (last + rest);
      BlocksRoundTrip(f, g, t, data, k, last + rest);
      BlocksStep(g, t, whole, k);
      assert whole[16 * k..16 * k + 16] == last;
      BlockRoundTrip(f, g, TweakAt(t, k), block);
      assert data[..16 * n] == data[..16 * k] + block;
    }
  }

  /** Stealing back with the tweaks swapped. */
  lemma StealRoundTrip(enc: BlockFn, dec: BlockFn, t: Bytes, p: Bytes)
    requires |t| == 16 && 16 < |p| < 32 && CipherPair(enc, dec, 16)
    ensures Steal(dec, Decrypt, t, Steal(enc, Encrypt, t, p)) == p
  {
    hide XtsBlock, TimesX, Xor;
    var r, t2 := |p| - 16, TimesX(t);
    var c := XtsBlock(enc, t, p[..16]);
    var s := Steal(enc, Encrypt, t, p);
    BlockRoundTrip(enc, dec, t2, p[16..] + c[r..]);
    assert s[..16] == XtsBlock(enc, t2, p[16..] + c[r..]) && s[16..] == c[..r];
    var back := XtsBlock(dec, t2, s[..16]);
    assert back == p[16..] + c[r..];
    assert back[r..] == c[r..] && back[..r] == p[16..];
    assert s[16..] + back[r..] == c;
    BlockRoundTrip(enc, dec, t, p[..16]);
  }

  /** Decryption gives back every data unit, whole blocks or not. */
  lemma RoundTrip(enc: BlockFn, dec: BlockFn, t: Bytes, p: Bytes)
    requires |t| == 16 && |p| >= 16 && CipherPair(enc, dec, 16)
    ensures Xts(dec, Decrypt, t, Xts(enc, Encrypt, t, p)) == p
  {
    var n := |p| / 16;
    if |p| % 16 == 0 {
      BlocksRoundTrip(enc, dec, t, p, n, []);
      assert XtsBlocks(enc, t, p, n) + [] == XtsBlocks(enc, t, p, n) && p[..16 * n] == p;
    } else {
      StolenRoundTrip(enc, dec, t, p, n - 1);
    }
  }

  lemma StolenRoundTrip(enc: BlockFn, dec: BlockFn, t: Bytes, p: Bytes, k: nat)
    requires |t| == 16 && 16 * k + 16 < |p| < 16 * k + 32 && CipherPair(enc, dec, 16)
    ensures Xts(dec, Decrypt, t, Xts(enc, Encrypt, t, p)) == p
  {
    hide Steal, XtsBlocks, TweakAt, TimesX, Xor, OnBlocks, Undoes;
    var tail := Steal(enc, Encrypt, TweakAt(t, k), p[16 * k..]);
    var c := XtsBlocks(enc, t, p, k) + tail;
    BlocksRoundTrip(enc, dec, t, p, k, tail);
    StealRoundTrip(enc, dec, TweakAt(t, k), p[16 * k..]);
    assert c[16 * k..] == tail;
    assert p == p[..16 * k] + p[16 * k..];
  }

  /** b is x times a modulo x^128 + x^7 + x^2 + x + 1, coefficient by coefficient. */
  ghost predicate MultipliedByX(a: Bytes, b: Bytes)
    requires |a| == |b| == 16
  {
    forall i | 0 <= i < 128 ::
      Coeff(b, i) == ((i > 0 && Coeff(a, i - 1)) != (Coeff(a, 127) && (i == 0 || i == 1 || i == 2 || i == 7)))
  }

  ghost predicate TweakChain(T: seq<Bytes>) {
    && (forall j :: 0 <= j < |T| ==> |T[j]| == 16)
    && (forall j {:trigger T[j]} :: 0 < j < |T| ==> MultipliedByX(T[j - 1], T[j]))
  }

  /**
   * The standard's account of a data unit of n whole blocks and r bytes.  Every block but the last whole
   * one before a partial one is whitened with its own tweak.  That one gives a block whose beginning is
   * the partial output and whose tail fills up the partial input, which then takes its place; encryption
   * uses the tweaks n - 1 and n for the two, decryption n and n - 1.
   */
  ghost predicate DataUnit(f: BlockFn, op: Operation, T: seq<Bytes>, data: Bytes, out: Bytes)
    requires OnBlocks(f, 16) && |data| == |out| >= 16 && |T| == |data| / 16 + 1 && TweakChain(T)
  {
    var n, r := |data| / 16, |data| % 16;
    && (forall j {:trigger T[j]} :: 0 <= j < (if r == 0 then n else n - 1) ==>
          out[16 * j..16 * j + 16] == Xor(f(Xor(data[16 * j..16 * j + 16], T[j])), T[j]))
    && (r != 0 ==>
          var first, second := if op.Encrypt? then T[n - 1] else T[n], if op.Encrypt? then T[n] else T[n - 1];
          var c := Xor(f(Xor(data[16 * n - 16..16 * n], first)), first);
          && out[16 * n - 16..16 * n] == Xor(f(Xor(data[16 * n..] + c[r..], second)), second)
          && out[16 * n..] == c[..r])
  }

  /** The tweaks of a data unit. */
  ghost function Tweaks(t: Bytes, n: nat): (T: seq<Bytes>)
    requires |t| == 16
    ensures |T| == n + 1
  {
    seq(n + 1, j requires 0 <= j <= n => TweakAt(t, j))
  }

  lemma TweaksChain(t: Bytes, n: nat)
    requires |t| == 16
    ensures TweakChain(Tweaks(t, n)) && Tweaks(t, n)[0] == t
  {
    hide TimesX, MultipliedByX;
    var T := Tweaks(t, n);
    forall j | 0 < j <= n ensures MultipliedByX(T[j - 1], T[j]) {
      TimesXMultiplies(T[j - 1]);
    }
  }

  lemma TimesXMultiplies(t: Bytes)
    requires |t| == 16
    ensures MultipliedByX(t, TimesX(t))
  {
    hide TimesX, Coeff;
    forall i | 0 <= i < 128
      ensures Coeff(TimesX(t), i) ==
        ((i > 0 && Coeff(t, i - 1)) != (Coeff(t, 127) && (i == 0 || i == 1 || i == 2 || i == 7)))
    {
      TimesXCoeff(t, i);
    }
  }

  /** Block j of the whole blocks. */
  lemma {:induction false} BlockAt(f: BlockFn, t: Bytes, data: Bytes, n: nat, j: nat)
    requires |t| == 16 && j < n && 16 * n <= |data| && OnBlocks(f, 16)
    ensures XtsBlocks(f, t, data, n)[16 * j..16 * j + 16] ==
      Xor(f(Xor(data[16 * j..16 * j + 16], TweakAt(t, j))), TweakAt(t, j))
  {
    hide XtsBlocks, TweakAt, Xor, OnBlocks;
    BlocksStep(f, t, data, n - 1);
    if j < n - 1 {
      BlockAt(f, t, data, n - 1, j);
    }
  }

  /** The mode does what the standard says. */
  lemma XtsIsDataUnit(f: BlockFn, op: Operation, t: Bytes, data: Bytes)
    requires |t| == 16 && |data| >= 16 && OnBlocks(f, 16)
    ensures var T := Tweaks(t, |data| / 16);
      TweakChain(T) && T[0] == t && DataUnit(f, op, T, data, Xts(f, op, t, data))
  {
    hide XtsBlocks, TweakAt, Steal, Xor, TweakChain;
    var n, r := |data| / 16, |data| % 16;
    var T, out := Tweaks(t, n), Xts(f, op, t, data);
    TweaksChain(t, n);
    var whole := if r == 0 then n else n - 1;
    forall j | 0 <= j < whole
      ensures out[16 * j..16 * j + 16] == Xor(f(Xor(data[16 * j..16 * j + 16], T[j])), T[j])
    {
      BlockAt(f, t, data, whole, j);
      assert out[16 * j..16 * j + 16] == XtsBlocks(f, t, data, whole)[16 * j..16 * j + 16];
    }
    if r != 0 { Stolen(f, op, t, data, n, r); }
  }

  lemma Stolen(f: BlockFn, op: Operation, t: Bytes, data: Bytes, n: nat, r: nat)
    requires |t| == 16 && 0 < n && 0 < r < 16 && |data| == 16 * n + r && OnBlocks(f, 16)
    ensures var T, out := Tweaks(t, n), Xts(f, op, t, data);
      var first, second := if op.Encrypt? then T[n - 1] else T[n], if op.Encrypt? then T[n] else T[n - 1];
      var c := Xor(f(Xor(data[16 * n - 16..16 * n], first)), first);
      && out[16 * n - 16..16 * n] == Xor(f(Xor(data[16 * n..] + c[r..], second)), second)
      && out[16 * n..] == c[..r]
  {
    hide XtsBlocks, TweakAt, TimesX, Xor, OnBlocks;
    TweakStep(t, n - 1);
    var u, tail := TweakAt(t, n - 1), data[16 * (n - 1)..];
    assert tail[..16] == data[16 * n - 16..16 * n] && tail[16..] == data[16 * n..];
    var out := Xts(f, op, t, data);
    assert |data| / 16 == n && |data| % 16 == r;
    assert out[16 * n - 16..] == Steal(f, op, u, tail);
    assert out[16 * n - 16..16 * n] == out[16 * n - 16..][..16] && out[16 * n..] == out[16 * n - 16..][16..];
  }

  // ------------------------------------------------------- the operation

  /** One block: output[o..o + 16] from input[o..o + 16] under the tweak. */
  method CryptOne(f: BlockFn, tweak: array<bv8>, input: array<bv8>, output: array<bv8>, o: nat)
    requires tweak.Length == 16 && o + 16 <= input.Length && o + 16 <= output.Length
    requires tweak != output && OnBlocks(f, 16)
    modifies output
    ensures output[o..o + 16] == XtsBlock(f, tweak[..], old(input[o..o + 16]))
    ensures output[..o] == old(output[..o]) && output[o + 16..] == old(output[o + 16..])
  {
    hide Xor;
    var tmp := new bv8[16];
    XorInto(tmp, 0, input, o, tweak[..]);
    CryptBlock(f, 16, tmp, 0, tmp, 0);
    XorInto(output, o, tmp, 0, tweak[..]);
  }

  /** The final partial block: steals from the block before it. */
  method CryptLeftover(f: BlockFn, t: array<bv8>, input: array<bv8>, output: array<bv8>, o: nat, leftover: nat)
    requires t.Length == 16 && 0 < leftover < 16 && t != output && input != output
    requires 16 <= o && o + leftover <= input.Length && o + leftover <= output.Length
    requires OnBlocks(f, 16)
    modifies output
    ensures var c := old(output[o - 16..o]);
      output[o - 16..o + leftover] == XtsBlock(f, t[..], input[o..o + leftover] + c[leftover..]) + c[..leftover]
    ensures output[..o - 16] == old(output[..o - 16]) && output[o + leftover..] == old(output[o + leftover..])
  {
    hide Xor, OnBlocks;
    var tmp := new bv8[16];
    ghost var c := output[o - 16..o];
    MoveStolen(tmp, t, input, output, o, leftover);
    StealInput(tmp, t, output, o, leftover, input[o..o + leftover], c);
    ghost var b := input[o..o + leftover] + c[leftover..];
    assert tmp[0..16] == Xor(b, t[..]);
    CryptBlock(f, 16, tmp, 0, tmp, 0);
    assert tmp[0..16] == f(Xor(b, t[..]));
    assert output[o..][..leftover] == c[..leftover];
    XorInto(output, o - 16, tmp, 0, t[..]);
    assert output[o - 16..o] == XtsBlock(f, t[..], b);
    assert output[o - 16..o + leftover] == output[o - 16..o] + output[o..][..leftover];
    assert output[o + leftover..] == output[o..][leftover..];
  }

  /** Moves the stolen-from block's head to the end and starts the input of the last call. */
  method MoveStolen(tmp: array<bv8>, t: array<bv8>, input: array<bv8>, output: array<bv8>, o: nat, leftover: nat)
    requires tmp.Length == t.Length == 16 && 0 < leftover < 16
    requires tmp != output && tmp != t && tmp != input && t != output && input != output
    requires 16 <= o && o + leftover <= input.Length && o + leftover <= output.Length
    modifies tmp, output
    ensures output[..o] == old(output[..o])
    ensures output[o..][..leftover] == old(output[o - 16..o])[..leftover]
    ensures output[o..][leftover..] == old(output[o + leftover..])
    ensures forall m :: 0 <= m < leftover ==> tmp[m] == XorByte(input[o..o + leftover][m], t[m])
  {
    hide XorByte;
    ghost var c, rest, before := output[o - 16..o], input[o..o + leftover], output[..];
    var i := 0;
    while i < leftover
      invariant 0 <= i <= leftover
      invariant forall m :: o <= m < o + i ==> output[m] == c[m - o]
      invariant forall m :: 0 <= m < output.Length && !(o <= m < o + i) ==> output[m] == before[m]
      invariant forall m :: 0 <= m < i ==> tmp[m] == XorByte(rest[m], t[m])
    {
      output[o + i] := output[o - 16 + i];
      tmp[i] := XorByte(input[o + i], t[i]);
      i := i + 1;
    }
  }

  /** Completes the input of the last call with the bytes taken from the previous block. */
  method StealInput(tmp: array<bv8>, t: array<bv8>, output: array<bv8>, o: nat, leftover: nat,
                    ghost rest: Bytes, ghost c: Bytes)
    requires t.Length == tmp.Length == 16 && 0 < leftover < 16 <= o <= output.Length
    requires tmp != output && tmp != t
    requires |rest| == leftover && c == output[o - 16..o]
    requires forall m :: 0 <= m < leftover ==> tmp[m] == XorByte(rest[m], t[m])
    modifies tmp
    ensures tmp[..] == Xor(rest + c[leftover..], t[..])
  {
    hide XorByte;
    var i := leftover;
    while i < 16
      invariant leftover <= i <= 16
      invariant forall m :: 0 <= m < leftover ==> tmp[m] == XorByte(rest[m], t[m])
      invariant forall m :: leftover <= m < i ==> tmp[m] == XorByte(c[m], t[m])
    {
      tmp[i] := XorByte(output[o - 16 + i], t[i]);
      i := i + 1;
    }
  }

  /**
   * What k of n whole blocks have left in the output and in the two tweak buffers.  When swap is
   * set the last of them has used the tweak after its own, which was saved.
   */
  ghost predicate Progress(f: BlockFn, t: Bytes, data: Bytes, swap: bool, n: nat, k: nat,
                           out: Bytes, tweak: Bytes, saved: Bytes)
    requires |t| == 16 && k <= n && 16 * n <= |data| && OnBlocks(f, 16)
  {
    if swap && k == n && n > 0 then
      && out == XtsBlocks(f, t, data, n - 1) + XtsBlock(f, TweakAt(t, n), data[16 * (n - 1)..16 * n])
      && saved == TweakAt(t, n - 1)
    else
      out == XtsBlocks(f, t, data, k) && tweak == TweakAt(t, k)
  }

  lemma ProgressStart(f: BlockFn, t: Bytes, data: Bytes, swap: bool, n: nat, saved: Bytes)
    requires |t| == 16 && 0 < n && 16 * n <= |data| && OnBlocks(f, 16)
    ensures Progress(f, t, data, swap, n, 0, [], t, saved)
  {
  }

  lemma WholeDone(f: BlockFn, op: Operation, t: Bytes, data: Bytes, n: nat, out: Bytes, tweak: Bytes, saved: Bytes)
    requires |t| == 16 && 0 < n && 16 * n == |data| && OnBlocks(f, 16)
    requires Progress(f, t, data, false, n, n, out, tweak, saved)
    ensures out == Xts(f, op, t, data)
  {
    hide XtsBlocks, XtsBlock, TweakAt, TimesX, Steal, Xor, OnBlocks;
  }

  /** The last partial block completes the data unit. */
  lemma LeftoverDone(f: BlockFn, op: Operation, t: Bytes, data: Bytes, n: nat,
                     blocks: Bytes, tweak: Bytes, saved: Bytes, out: Bytes)
    requires |t| == 16 && 0 < n && 16 * n < |data| < 16 * n + 16 && OnBlocks(f, 16)
    requires Progress(f, t, data, op.Decrypt?, n, n, blocks, tweak, saved)
    requires |blocks| == 16 * n && |tweak| == |saved| == 16 && |out| == |data|
    requires var c, r := blocks[16 * (n - 1)..], |data| - 16 * n;
      out == blocks[..16 * (n - 1)]
             + (XtsBlock(f, if op.Decrypt? then saved else tweak, data[16 * n..] + c[r..]) + c[..r])
    ensures out == Xts(f, op, t, data)
  {
    hide XtsBlocks, XtsBlock, TweakAt, TimesX, Xor, OnBlocks;
    BlocksStep(f, t, data, n - 1);
    TweakStep(t, n - 1);
    var tail := data[16 * (n - 1)..];
    assert tail[..16] == data[16 * (n - 1)..16 * n] && tail[16..] == data[16 * n..];
    assert |data| / 16 == n;
  }

  /** One round of the block loop. */
  method CryptRound(f: BlockFn, swapNow: bool, tweak: array<bv8>, saved: array<bv8>,
                    input: array<bv8>, output: array<bv8>, o: nat,
                    ghost t: Bytes, ghost data: Bytes, ghost swap: bool, ghost n: nat, ghost k: nat)
    requires tweak.Length == saved.Length == 16 && tweak != saved
    requires tweak != output && saved != output && tweak != input && saved != input
    requires |t| == 16 && k < n && 16 * n <= |data| && OnBlocks(f, 16)
    requires o == 16 * k && o + 16 <= input.Length && o + 16 <= output.Length
    requires input[o..o + 16] == data[o..o + 16] && swapNow == (swap && k + 1 == n)
    requires Progress(f, t, data, swap, n, k, output[..o], tweak[..], saved[..])
    modifies output, tweak, saved
    ensures Progress(f, t, data, swap, n, k + 1, output[..o + 16], tweak[..], saved[..])
    ensures output[o + 16..] == old(output[o..])[16..]
    ensures input != output ==> input[..] == old(input[..])
    ensures input[o + 16..] == old(input[o..])[16..]
  {
    hide XtsBlock, TimesX, TweakAt, XtsBlocks, Xor, OnBlocks;
    TweakStep(t, k);
    TweakStep(t, k + 1);
    if swapNow {
      CopyInto(saved, 0, tweak, 0, 16);
      assert saved[..] == saved[0..16] && tweak[..] == tweak[0..16];
      Gf128MulX(tweak, tweak);
    }
    CryptOne(f, tweak, input, output, o);
    assert output[..o + 16] == output[..o] + output[o..o + 16];
    BlocksStep(f, t, data, k);
    Gf128MulX(tweak, tweak);
  }

  const MAX_UNIT: nat := 16 * 1048576

  /** Encrypts or decrypts one data unit under the tweaks T. */
  method CryptXts(crypt: BlockFn, tweakFn: BlockFn, op: Operation, length: nat, dataUnit: Bytes,
                  input: array<bv8>, output: array<bv8>)
    returns (ok: bool, ghost T: seq<Bytes>)
    requires length <= input.Length && length <= output.Length && |dataUnit| == 16
    requires length % 16 != 0 ==> input != output
    requires OnBlocks(crypt, 16) && OnBlocks(tweakFn, 16)
    modifies output
    ensures ok == (16 <= length <= MAX_UNIT)
    ensures ok ==> |T| == length / 16 + 1 && T[0] == tweakFn(dataUnit) && forall j :: 0 <= j < |T| ==> |T[j]| == 16
    ensures ok ==> forall j, i {:trigger Coeff(T[j], i)} | 0 < j < |T| && 0 <= i < 128 ::
      Coeff(T[j], i) ==
      ((i > 0 && Coeff(T[j - 1], i - 1)) != (Coeff(T[j - 1], 127) && (i == 0 || i == 1 || i == 2 || i == 7)))
    ensures ok ==> forall j {:trigger T[j]} :: 0 <= j < |T| - (if length % 16 == 0 then 1 else 2) ==>
      output[..length][16 * j..16 * j + 16] == Xor(crypt(Xor(old(input[..length])[16 * j..16 * j + 16], T[j])), T[j])
    ensures ok && length % 16 != 0 ==>
      var data, out, n, r := old(input[..length]), output[..length], length / 16, length % 16;
      var first, second := if op.Encrypt? then T[n - 1] else T[n], if op.Encrypt? then T[n] else T[n - 1];
      var c := Xor(crypt(Xor(data[16 * n - 16..16 * n], first)), first);
      && out[16 * n - 16..16 * n] == Xor(crypt(Xor(data[16 * n..] + c[r..], second)), second)
      && out[16 * n..] == c[..r]
    ensures ok ==> output[..length] == Xts(crypt, op, tweakFn(dataUnit), old(input[..length]))
    ensures output[length..] == old(output[length..])
    ensures !ok ==> output[..] == old(output[..])
  {
    hide XtsBlock, TimesX, XtsBlocks, TweakAt, Xts, Xor, OnBlocks, Tweaks, Coeff;
    ghost var data := input[..length];
    ok := CryptUnit(crypt, tweakFn, op, length, dataUnit, input, output);
    if !ok { return false, []; }
    OnBlock(tweakFn, 16, dataUnit);
    XtsIsDataUnit(crypt, op, tweakFn(dataUnit), data);
    T := Tweaks(tweakFn(dataUnit), length / 16);
  }

  /** The data unit in place: the whole blocks in a loop, then the partial one. */
  method CryptUnit(crypt: BlockFn, tweakFn: BlockFn, op: Operation, length: nat, dataUnit: Bytes,
                   input: array<bv8>, output: array<bv8>)
    returns (ok: bool)
    requires length <= input.Length && length <= output.Length && |dataUnit| == 16
    requires length % 16 != 0 ==> input != output
    requires OnBlocks(crypt, 16) && OnBlocks(tweakFn, 16)
    modifies output
    ensures ok == (16 <= length <= MAX_UNIT)
    ensures ok ==> output[..length] == Xts(crypt, op, tweakFn(dataUnit), old(input[..length]))
    ensures output[length..] == old(output[length..])
    ensures !ok ==> output[..] == old(output[..])
  {
    hide XtsBlock, TimesX, XtsBlocks, TweakAt, Xts, Xor, Progress, OnBlocks;
    if length < 16 { return false; }
    if length > MAX_UNIT { return false; }
    var blocks, leftover := length / 16, length % 16;
    var tweak, prevTweak := new bv8[16], new bv8[16];
    OnBlock(tweakFn, 16, dataUnit);
    ghost var t, data := tweakFn(dataUnit), input[..length];
    Store(tweak, 0, tweakFn(dataUnit));
    assert tweak[..] == tweak[0..16];
    var o := CryptBlocks(crypt, op, blocks, leftover, tweak, prevTweak, input, output, t, data);
    ghost var done := output[..o];
    if leftover != 0 {
      ghost var c := output[o - 16..o];
      CryptLeftover(crypt, if op.Decrypt? then prevTweak else tweak, input, output, o, leftover);
      assert c == done[o - 16..];
      assert output[..length] == output[..o - 16] + output[o - 16..length];
      assert output[..o - 16] == done[..o - 16];
      LeftoverDone(crypt, op, t, data, blocks, done, tweak[..], prevTweak[..], output[..length]);
    } else {
      WholeDone(crypt, op, t, data, blocks, output[..length], tweak[..], prevTweak[..]);
    }
    return true;
  }

  /** The loop over the whole blocks. */
  method CryptBlocks(crypt: BlockFn, op: Operation, n: nat, leftover: nat, tweak: array<bv8>, prevTweak: array<bv8>,
                     input: array<bv8>, output: array<bv8>, ghost t: Bytes, ghost data: Bytes)
    returns (o: nat)
    requires tweak.Length == prevTweak.Length == 16 && tweak != prevTweak
    requires tweak != output && prevTweak != output && tweak != input && prevTweak != input
    requires tweak[..] == t && 0 < n && OnBlocks(crypt, 16) && leftover < 16
    requires |data| == 16 * n + leftover <= input.Length && |data| <= output.Length && input[..|data|] == data
    requires leftover != 0 ==> input != output
    modifies output, tweak, prevTweak
    ensures o == 16 * n && output[|data|..] == old(output[|data|..])
    ensures input != output ==> input[..] == old(input[..])
    ensures Progress(crypt, t, data, leftover != 0 && op.Decrypt?, n, n, output[..o], tweak[..], prevTweak[..])
  {
    hide XtsBlock, TimesX, XtsBlocks, TweakAt, Xor, Progress, OnBlocks;
    ghost var length, swap := |data|, leftover != 0 && op.Decrypt?;
    ghost var inp, out := input[..], output[..];
    ProgressStart(crypt, t, data, swap, n, prevTweak[..]);
    assert output[..0] == [];
    o := 0;
    ghost var k := 0;
    var blocks := n;
    while blocks > 0
      invariant k <= n && blocks == n - k && o == 16 * k
      invariant output[o..] == out[o..] && input[o..] == inp[o..]
      invariant input != output ==> input[..] == inp
      invariant Progress(crypt, t, data, swap, n, k, output[..o], tweak[..], prevTweak[..])
    {
      blocks := blocks - 1;
      BlockOfData(inp, data, input[o..], input[o..o + 16], o);
      CryptRound(crypt, leftover != 0 && op.Decrypt? && blocks == 0, tweak, prevTweak, input, output, o,
                 t, data, swap, n, k);
      DropMore(out, o);
      DropMore(inp, o);
      o, k := o + 16, k + 1;
    }
    assert output[length..] == output[o..][length - o..];
  }

  lemma BlockOfData(inp: Bytes, data: Bytes, tail: Bytes, block: Bytes, o: nat)
    requires o + 16 <= |data| <= |inp| && data == inp[..|data|]
    requires tail == inp[o..] && block == tail[..16]
    ensures block == data[o..o + 16]
  {
  }

  lemma DropMore(s: Bytes, o: nat)
    requires o + 16 <= |s|
    ensures s[o..][16..] == s[o + 16..]
  {
  }
}
