/**
 * CCM: counter mode with a CBC-MAC over a formatted sequence of blocks (NIST SP 800-38C), with the
 * tag length of 0 that CCM* allows.
 */
module Ccm {
  import opened Numbers
  import opened Blocks
  import opened BigEndian
  import opened CbcMode

  datatype Status = Ok | BadInput | AuthFailed

  // ----------------------------------------------------------- formatting

  /** The length requirements on tag, nonce and additional data. */
  predicate GoodLengths(tagLen: nat, nonce: Bytes, add: Bytes) {
    tagLen != 2 && tagLen <= 16 && tagLen % 2 == 0 && 7 <= |nonce| <= 13 && |add| <= 0xFF00
  }

  /** Bytes in the length field. */
  function QLen(nonce: Bytes): nat
    requires |nonce| <= 13
  {
    15 - |nonce|
  }

  /** The tag-length bits of the flags: (t - 2) / 2 shifted up by 3, in size_t and cut to a byte. */
  function TagBits(tagLen: nat): bv8 {
    ToByte(((tagLen - 2) % 0x1_0000_0000_0000_0000) / 2 * 8 % 256)
  }

  function Flags(tagLen: nat, hasAdd: bool, q: nat): bv8
    requires 1 <= q <= 8
  {
    (if hasAdd then 0x40 else 0x00) | TagBits(tagLen) | ToByte(q - 1)
  }

  function FirstBlock(tagLen: nat, nonce: Bytes, add: Bytes, length: nat): (r: Bytes)
    requires 7 <= |nonce| <= 13
    ensures |r| == 16
  {
    [Flags(tagLen, |add| > 0, QLen(nonce))] + nonce + BE(length, QLen(nonce))
  }

  function AddBlocks(add: Bytes): (r: Bytes)
    requires |add| <= 0xFF00
    ensures |r| % 16 == 0
  {
    if add == [] then [] else Pad16(BE(|add|, 2) + add)
  }

  /** The blocks that are authenticated. */
  function Format(tagLen: nat, nonce: Bytes, add: Bytes, p: Bytes): (r: Bytes)
    requires 7 <= |nonce| <= 13 && |add| <= 0xFF00
    ensures |r| % 16 == 0
  {
    Sum16(|AddBlocks(add)|, |Pad16(p)|);
    FirstBlock(tagLen, nonce, add, |p|) + AddBlocks(add) + Pad16(p)
  }

  lemma Sum16(a: nat, b: nat)
    requires a % 16 == 0 && b % 16 == 0
    ensures (16 + a + b) % 16 == 0
  {
  }

  lemma FlagsDecide(a: bv8, t: bv8, q: bv8, a': bv8, t': bv8, q': bv8)
    requires a & 0x40 == a && t & 0x38 == t && q & 0x07 == q
    requires a' & 0x40 == a' && t' & 0x38 == t' && q' & 0x07 == q'
    requires a | t | q == a' | t' | q'
    ensures a == a' && t == t' && q == q'
  {
  }

  lemma LowBits(q: nat)
    requires q < 8
    ensures ToByte(q) & 0x07 == ToByte(q)
  {
    assert q == 0 || q == 1 || q == 2 || q == 3 || q == 4 || q == 5 || q == 6 || q == 7;
  }

  lemma Eighths()
    ensures ToByte(8) == 0x08 && ToByte(16) == 0x10 && ToByte(24) == 0x18 && ToByte(32) == 0x20
    ensures ToByte(40) == 0x28 && ToByte(48) == 0x30 && ToByte(56) == 0x38 && ToByte(248) == 0xF8
  {
  }

  lemma MiddleBits(t: nat)
    requires 4 <= t <= 16 && t % 2 == 0
    ensures TagBits(t) & 0x38 == TagBits(t) && TagBits(t) == ToByte((t - 2) / 2 * 8)
  {
    hide ToByte;
    Eighths();
    assert t == 4 || t == 6 || t == 8 || t == 10 || t == 12 || t == 14 || t == 16;
  }

  /** The flags tell tag length, presence of additional data and length-field size, unless the tag is empty. */
  lemma FlagsInjective(t: nat, a: bool, q: nat, t': nat, a': bool, q': nat)
    requires 4 <= t <= 16 && t % 2 == 0 && 4 <= t' <= 16 && t' % 2 == 0 && 1 <= q <= 8 && 1 <= q' <= 8
    requires Flags(t, a, q) == Flags(t', a', q')
    ensures t == t' && a == a' && q == q'
  {
    hide ToByte, Num, TagBits;
    LowBits(q - 1);
    LowBits(q' - 1);
    MiddleBits(t);
    MiddleBits(t');
    FlagsDecide(if a then 0x40 else 0x00, TagBits(t), ToByte(q - 1),
                if a' then 0x40 else 0x00, TagBits(t'), ToByte(q' - 1));
    NumToByte(q - 1);
    NumToByte(q' - 1);
    NumToByte((t - 2) / 2 * 8);
    NumToByte((t' - 2) / 2 * 8);
  }

  lemma {:induction false} AddNum(x: bv8, n: nat)
    requires Num(x) + n < 256
    ensures Num(Plus(x, ToByte(n))) == Num(x) + n
  {
    hide ToByte, Num, Plus;
    if n == 0 {
      ZeroByte();
      PlusZero(x);
    } else {
      AddNum(x, n - 1);
      NextPlus(n - 1);
      PlusAssoc(x, ToByte(n - 1));
      NextNum(Plus(x, ToByte(n - 1)));
    }
  }

  function Plus(x: bv8, y: bv8): bv8 {
    x + y
  }

  lemma NextPlus(n: nat)
    requires n < 255
    ensures ToByte(n + 1) == Plus(ToByte(n), 1)
  {
    hide ToByte;
    NextDigit(n);
  }

  lemma NextNum(b: bv8)
    requires Num(b) < 255
    ensures Num(Plus(b, 1)) == Num(b) + 1
  {
    NextByte(b);
  }

  lemma PlusZero(x: bv8)
    ensures Plus(x, 0) == x
  {
  }

  lemma PlusAssoc(x: bv8, y: bv8)
    ensures Plus(x, Plus(y, 1)) == Plus(Plus(x, y), 1)
  {
  }

  lemma OrIsSum(a: bv8, t: bv8, q: bv8)
    requires a & 0x40 == a && t & 0x38 == t && q & 0x07 == q
    ensures a | t | q == Plus(Plus(a, t), q)
  {
  }

  lemma OrFull(a: bv8, q: bv8)
    requires a & 0x40 == a && q & 0x07 == q
    ensures a | 0xF8 | q == Plus(0xF8, q)
  {
  }

  lemma SmallNums()
    ensures Num(0x40) == 64 && Num(0) == 0 && Num(0xF8) == 248
  {
  }

  /** The flags as a number; an empty tag sets all five upper bits. */
  lemma FlagsNumber(t: nat, a: bool, q: nat)
    requires (t == 0 || 4 <= t <= 16) && t % 2 == 0 && 1 <= q <= 8
    ensures Num(Flags(t, a, q)) ==
      if t == 0 then 248 + (q - 1) else (if a then 64 else 0) + 8 * ((t - 2) / 2) + (q - 1)
  {
    hide ToByte, Num, TagBits, Plus;
    var add := if a then 0x40 else 0x00;
    LowBits(q - 1);
    NumToByte(q - 1);
    SmallNums();
    if t == 0 {
      EmptyTagBits();
      OrFull(add, ToByte(q - 1));
      AddNum(0xF8, q - 1);
    } else {
      MiddleBits(t);
      NumToByte((t - 2) / 2 * 8);
      OrIsSum(add, TagBits(t), ToByte(q - 1));
      AddNum(add, (t - 2) / 2 * 8);
      AddNum(Plus(add, TagBits(t)), q - 1);
    }
  }

  /**
   * The layout of section A.2 of SP 800-38C, read from the formatted blocks: nonce, message length,
   * length and bytes of the additional data, zeros, the message, zeros.
   */
  lemma FormatLayout(tagLen: nat, n: Bytes, a: Bytes, p: Bytes)
    requires 7 <= |n| <= 13 && |a| <= 0xFF00 && |p| < Pow(256, 15 - |n|)
    ensures var x, m := Format(tagLen, n, a, p), if a == [] then 16 else 16 + (|a| + 17) / 16 * 16;
      && |x| == m + (|p| + 15) / 16 * 16
      && x[0] == Flags(tagLen, a != [], 15 - |n|)
      && x[1..1 + |n|] == n && BEValue(x[1 + |n|..16]) == |p|
      && (a != [] ==>
            BEValue(x[16..18]) == |a| && x[18..18 + |a|] == a && x[18 + |a|..m] == Zeros(m - 18 - |a|))
      && x[m..m + |p|] == p && x[m + |p|..] == Zeros(|x| - m - |p|)
  {
    hide BE, BEValue, Flags, Pow;
    var first, add, x := FirstBlock(tagLen, n, a, |p|), AddBlocks(a), Format(tagLen, n, a, p);
    FirstLayout(tagLen, n, a, |p|);
    PadLayout(p);
    assert x[..16] == first && x[1..1 + |n|] == first[1..1 + |n|] && x[1 + |n|..16] == first[1 + |n|..16];
    if a != [] {
      AddLayout(a);
      assert x[16..18] == add[..2] && x[18..18 + |a|] == add[2..2 + |a|];
      assert x[18 + |a|..16 + |add|] == add[2 + |a|..];
    }
    var m := 16 + |add|;
    assert x[m..] == Pad16(p);
    assert x[m..m + |p|] == x[m..][..|p|] && x[m + |p|..] == x[m..][|p|..];
  }

  lemma FirstLayout(tagLen: nat, n: Bytes, a: Bytes, len: nat)
    requires 7 <= |n| <= 13 && len < Pow(256, 15 - |n|)
    ensures var b := FirstBlock(tagLen, n, a, len);
      b[0] == Flags(tagLen, a != [], 15 - |n|) && b[1..1 + |n|] == n && BEValue(b[1 + |n|..16]) == len
  {
    hide BE, BEValue, Flags, Pow;
    BEValueBE(len, 15 - |n|);
    assert FirstBlock(tagLen, n, a, len)[1 + |n|..16] == BE(len, 15 - |n|);
  }

  lemma AddLayout(a: Bytes)
    requires 0 < |a| <= 0xFF00
    ensures var r := AddBlocks(a);
      && |r| == (|a| + 17) / 16 * 16
      && BEValue(r[..2]) == |a| && r[2..2 + |a|] == a && r[2 + |a|..] == Zeros(|r| - 2 - |a|)
  {
    hide BE, BEValue, Pad16;
    PowTwo();
    BEValueBE(|a|, 2);
    var s := BE(|a|, 2) + a;
    PadLayout(s);
    var r := AddBlocks(a);
    assert r[..2] == r[..|s|][..2] && r[2..2 + |a|] == r[..|s|][2..];
  }

  lemma PowTwo()
    ensures Pow(256, 2) == 65536
  {
    PowStep(256, 1);
  }

  lemma PadSlices(s: Bytes, t: Bytes)
    requires |s| == |t| && Pad16(s) == Pad16(t)
    ensures s == t
  {
    assert s == Pad16(s)[..|s|] && t == Pad16(t)[..|t|];
  }

  /** The flags of an empty tag differ from all others, and tell the length-field size only. */
  lemma EmptyTagTold(t: nat, a: bool, q: nat, t': nat, a': bool, q': nat)
    requires t == 0 && (t' == 0 || 4 <= t' <= 16) && t' % 2 == 0 && 1 <= q <= 8 && 1 <= q' <= 8
    requires Flags(t, a, q) == Flags(t', a', q')
    ensures t' == 0 && q == q'
  {
    hide ToByte, Num, TagBits;
    LowBits(q - 1);
    LowBits(q' - 1);
    EmptyTagBits();
    if t' > 0 { MiddleBits(t'); }
    EmptyTagDecides(if a then 0x40 else 0x00, ToByte(q - 1), if a' then 0x40 else 0x00, TagBits(t'), ToByte(q' - 1));
    NumToByte(q - 1);
    NumToByte(q' - 1);
  }

  lemma EmptyTagBits()
    ensures TagBits(0) == 0xF8
  {
    hide ToByte;
    Eighths();
  }

  lemma EmptyTagDecides(a: bv8, q: bv8, a': bv8, t': bv8, q': bv8)
    requires a & 0x40 == a && q & 0x07 == q && a' & 0x40 == a' && q' & 0x07 == q'
    requires a | 0xF8 | q == a' | t' | q'
    ensures t' & 0x38 != t' && (t' == 0xF8 ==> q == q')
  {
  }

  /** Equal first blocks: everything in them is equal, but the presence of additional data is lost with an empty tag. */
  lemma FirstInjective(t: nat, n: Bytes, a: Bytes, len: nat, t': nat, n': Bytes, a': Bytes, len': nat)
    requires GoodLengths(t, n, a) && GoodLengths(t', n', a')
    requires len < Pow(256, QLen(n)) && len' < Pow(256, QLen(n'))
    requires FirstBlock(t, n, a, len) == FirstBlock(t', n', a', len')
    ensures t == t' && n == n' && len == len' && (t > 0 ==> (a == [] <==> a' == []))
  {
    hide Flags, BE, Pow;
    var b, b' := FirstBlock(t, n, a, len), FirstBlock(t', n', a', len');
    assert b[0] == Flags(t, |a| > 0, QLen(n)) && b'[0] == Flags(t', |a'| > 0, QLen(n'));
    if t == 0 {
      EmptyTagTold(t, |a| > 0, QLen(n), t', |a'| > 0, QLen(n'));
    } else if t' == 0 {
      EmptyTagTold(t', |a'| > 0, QLen(n'), t, |a| > 0, QLen(n));
    } else {
      FlagsInjective(t, |a| > 0, QLen(n), t', |a'| > 0, QLen(n'));
    }
    assert b[1..1 + |n|] == n && b'[1..1 + |n|] == n';
    assert b[1 + |n|..] == BE(len, QLen(n)) && b'[1 + |n|..] == BE(len', QLen(n));
    BEInjective(len, len', QLen(n));
  }

  /** Equal beginnings of the encoded additional data mean equal data. */
  lemma AddInjective(a: Bytes, a': Bytes, rest: Bytes, rest': Bytes)
    requires 0 < |a| <= 0xFF00 && 0 < |a'| <= 0xFF00
    requires AddBlocks(a) + rest <= AddBlocks(a') + rest'
    ensures a == a' && rest <= rest'
  {
    hide BE;
    PowTwo();
    var x, x' := AddBlocks(a) + rest, AddBlocks(a') + rest';
    assert x[..2] == BE(|a|, 2) && x'[..2] == BE(|a'|, 2);
    assert x[..2] == x'[..2];
    BEInjective(|a|, |a'|, 2);
    var k := |AddBlocks(a)|;
    assert x[..k] == AddBlocks(a) && x'[..k] == AddBlocks(a') && x[k..] == rest && x'[k..] == rest';
    assert x'[..k] == x[..k];
    PadSlices(BE(|a|, 2) + a, BE(|a|, 2) + a');
    assert (BE(|a|, 2) + a)[2..] == a && (BE(|a|, 2) + a')[2..] == a';
  }

  /** The only inputs whose formatting can be confused: no tag, and additional data in the second only. */
  predicate Confusable(t: nat, n: Bytes, a: Bytes, t': nat, n': Bytes, a': Bytes) {
    t == 0 && t' == 0 && n == n' && a == [] && a' != []
  }

  /**
   * The formatting is prefix-free: no formatted message begins another, unless everything about the
   * two is the same.
   */
  lemma PrefixFree(t: nat, n: Bytes, a: Bytes, p: Bytes, t': nat, n': Bytes, a': Bytes, p': Bytes)
    requires GoodLengths(t, n, a) && GoodLengths(t', n', a') && !Confusable(t, n, a, t', n', a')
    requires |p| < Pow(256, QLen(n)) && |p'| < Pow(256, QLen(n'))
    requires Format(t, n, a, p) <= Format(t', n', a', p')
    ensures t == t' && n == n' && a == a' && p == p'
  {
    hide FirstBlock, AddBlocks, Pad16, Pow;
    var x, x' := Format(t, n, a, p), Format(t', n', a', p');
    assert x[..16] == FirstBlock(t, n, a, |p|) && x'[..16] == FirstBlock(t', n', a', |p'|);
    assert x'[..16] == x[..16];
    FirstInjective(t, n, a, |p|, t', n', a', |p'|);
    assert x[16..] == AddBlocks(a) + Pad16(p) && x'[16..] == AddBlocks(a') + Pad16(p');
    assert x[16..] <= x'[16..];
    NoAdd();
    SamePadSize(p, p');
    if a != [] { SomeAdd(a); }
    if a == [] {
      assert Pad16(p) <= Pad16(p');
    } else {
      AddInjective(a, a', Pad16(p), Pad16(p'));
    }
    SamePad(p, p');
  }

  lemma SamePadSize(p: Bytes, p': Bytes)
    requires |p| == |p'|
    ensures |Pad16(p)| == |Pad16(p')|
  {
  }

  /** Additional data takes up blocks, but not more than the shortest length field can count. */
  lemma SomeAdd(a: Bytes)
    requires 0 < |a| <= 0xFF00
    ensures 0 < |AddBlocks(a)| < 0x1_0000
  {
    hide BE;
  }

  lemma NoAdd()
    ensures AddBlocks([]) == []
  {
  }

  lemma SamePad(p: Bytes, p': Bytes)
    requires |p| == |p'| && Pad16(p) <= Pad16(p')
    ensures p == p'
  {
    assert |Pad16(p)| == |Pad16(p')|;
    PadSlices(p, p');
  }

  /**
   * With an empty tag the flag for additional data is lost: whatever the nonce and the data, the message
   * that reads like the encoded data is formatted to a beginning of what the data itself with that message gives.
   */
  lemma NotPrefixFreeWithoutTag(n: Bytes, a: Bytes)
    requires 7 <= |n| <= 13 && 0 < |a| <= 0xFF00
    ensures |AddBlocks(a)| < Pow(256, QLen(n))
    ensures Format(0, n, [], AddBlocks(a)) < Format(0, n, a, AddBlocks(a))
  {
    hide BE, Pow;
    EmptyTagFlags(QLen(n));
    SomeAdd(a);
    PowTwo();
    PowMono(256, 2, QLen(n));
    var p := AddBlocks(a);
    assert Pad16(p) == p;
  }

  /** Two messages for which the formatting is not prefix-free. */
  ghost predicate Clash(t: nat, n: Bytes, a: Bytes, p: Bytes, t': nat, n': Bytes, a': Bytes, p': Bytes)
    requires GoodLengths(t, n, a) && GoodLengths(t', n', a')
  {
    && |p| < Pow(256, QLen(n)) && |p'| < Pow(256, QLen(n'))
    && Format(t, n, a, p) <= Format(t', n', a', p') && !(t == t' && n == n' && a == a' && p == p')
  }

  /** There are such messages exactly for the confusable inputs. */
  lemma PrefixFreeExactly(t: nat, n: Bytes, a: Bytes, t': nat, n': Bytes, a': Bytes)
    requires GoodLengths(t, n, a) && GoodLengths(t', n', a')
    ensures (exists p, p' :: Clash(t, n, a, p, t', n', a', p')) <==> Confusable(t, n, a, t', n', a')
  {
    hide Format, Pow, AddBlocks;
    if Confusable(t, n, a, t', n', a') {
      NotPrefixFreeWithoutTag(n, a');
      assert Clash(t, n, a, AddBlocks(a'), t', n', a', AddBlocks(a'));
    } else if exists p, p' :: Clash(t, n, a, p, t', n', a', p') {
      var p, p' :| Clash(t, n, a, p, t', n', a', p');
      PrefixFree(t, n, a, p, t', n', a', p');
    }
  }

  lemma EmptyTagFlags(q: nat)
    requires 1 <= q <= 8
    ensures Flags(0, true, q) == Flags(0, false, q)
  {
    hide ToByte;
    Eighths();
    EmptyBits(ToByte(q - 1));
  }

  lemma EmptyBits(q: bv8)
    ensures 0x40 | 0xF8 | q == 0x00 | 0xF8 | q
  {
  }

  // -------------------------------------------------------------- the mode

  /** Counter block i. */
  function CtrBlock(nonce: Bytes, i: nat): (r: Bytes)
    requires 7 <= |nonce| <= 13
    ensures |r| == 16
  {
    [ToByte(QLen(nonce) - 1)] + nonce + BE(i, QLen(nonce))
  }

  lemma CtrBlockIs(nonce: Bytes, i: nat)
    requires 7 <= |nonce| <= 13
    ensures CtrBlock(nonce, i) == [ToByte(14 - |nonce|)] + nonce + BE(i, 15 - |nonce|)
  {
  }

  /**
   * The first byte of a counter block has its five upper bits clear, and the three lower ones are those
   * of the flags in the first block the MAC runs over.
   */
  lemma CounterFlags(nonce: Bytes, i: nat, tagLen: nat, hasAdd: bool)
    requires 7 <= |nonce| <= 13 && (tagLen == 0 || 4 <= tagLen <= 16) && tagLen % 2 == 0
    ensures var c, f := CtrBlock(nonce, i)[0], Flags(tagLen, hasAdd, 15 - |nonce|);
      Num(c) == 14 - |nonce| && Num(c) < 8 && Num(f) % 8 == Num(c)
  {
    hide ToByte, Num, Flags, BE;
    NumToByte(14 - |nonce|);
    FlagsNumber(tagLen, hasAdd, 15 - |nonce|);
  }

  /** Counter values below the limit of the length field give different blocks. */
  lemma CtrDistinct(nonce: Bytes, i: nat, j: nat)
    requires 7 <= |nonce| <= 13 && i < Pow(256, QLen(nonce)) && j < Pow(256, QLen(nonce)) && i != j
    ensures CtrBlock(nonce, i) != CtrBlock(nonce, j)
  {
    hide BE, ToByte, Pow;
    var q := QLen(nonce);
    assert CtrBlock(nonce, i)[1 + |nonce|..] == BE(i, q) && CtrBlock(nonce, j)[1 + |nonce|..] == BE(j, q);
    if BE(i, q) == BE(j, q) { BEInjective(i, j, q); }
  }

  /** No counter block is used twice in one message, the one that masks the tag included. */
  lemma CountersNeverRepeat(nonce: Bytes, length: nat, i: nat, j: nat)
    requires 7 <= |nonce| <= 13 && length < Pow(256, QLen(nonce))
    requires i <= (length + 15) / 16 && j <= (length + 15) / 16 && i != j
    ensures CtrBlock(nonce, i) != CtrBlock(nonce, j)
  {
    hide Pow;
    assert (length + 15) / 16 <= length;
    CtrDistinct(nonce, i, j);
  }

  /** Data under the key stream of counter blocks i, i + 1, and so on. */
  function CtrXor(e: BlockFn, nonce: Bytes, i: nat, data: Bytes): (r: Bytes)
    requires 7 <= |nonce| <= 13 && OnBlocks(e, 16)
    ensures |r| == |data|
    decreases |data|
  {
    if |data| <= 16 then Xor(data, e(CtrBlock(nonce, i))[..|data|])
    else Xor(data[..16], e(CtrBlock(nonce, i))) + CtrXor(e, nonce, i + 1, data[16..])
  }

  /** Applying the key stream again takes it away. */
  lemma {:induction false} CtrXorTwice(e: BlockFn, nonce: Bytes, i: nat, data: Bytes)
    requires 7 <= |nonce| <= 13 && OnBlocks(e, 16)
    ensures CtrXor(e, nonce, i, CtrXor(e, nonce, i, data)) == data
    decreases |data|
  {
    hide Xor, CtrBlock;
    if |data| <= 16 {
      XorCancel(data, e(CtrBlock(nonce, i))[..|data|]);
    } else {
      var c := CtrXor(e, nonce, i, data);
      XorCancel(data[..16], e(CtrBlock(nonce, i)));
      CtrXorTwice(e, nonce, i + 1, data[16..]);
      assert c[16..] == CtrXor(e, nonce, i + 1, data[16..]);
    }
  }

  /** One piece more at the end. */
  lemma {:induction false} CtrXorSnoc(e: BlockFn, nonce: Bytes, i: nat, data: Bytes, last: Bytes)
    requires 7 <= |nonce| <= 13 && OnBlocks(e, 16) && |data| % 16 == 0 && 0 < |last| <= 16
    ensures CtrXor(e, nonce, i, data + last) ==
      CtrXor(e, nonce, i, data) + Xor(last, e(CtrBlock(nonce, i + |data| / 16))[..|last|])
    decreases |data|
  {
    hide Xor, CtrBlock;
    var block := e(CtrBlock(nonce, i));
    if data == [] {
      assert data + last == last;
      NothingXored(block[..0]);
    } else {
      assert (data + last)[..16] == data[..16] && (data + last)[16..] == data[16..] + last;
      CtrXorSnoc(e, nonce, i + 1, data[16..], last);
      assert |data[16..]| / 16 == |data| / 16 - 1;
      if |data| == 16 {
        assert data[16..] == [] && data[..16] == data && block[..16] == block;
        NothingXored(e(CtrBlock(nonce, i + 1))[..0]);
      }
    }
  }

  /** Byte k of the data meets byte k % 16 of the key stream block of its count. */
  lemma {:induction false} CtrXorAt(e: BlockFn, nonce: Bytes, i: nat, data: Bytes, k: nat)
    requires 7 <= |nonce| <= 13 && OnBlocks(e, 16) && k < |data|
    ensures CtrXor(e, nonce, i, data)[k] == XorByte(data[k], e(CtrBlock(nonce, i + k / 16))[k % 16])
    decreases |data|
  {
    hide XorByte, CtrBlock;
    if |data| > 16 && k >= 16 {
      CtrXorAt(e, nonce, i + 1, data[16..], k - 16);
      assert (k - 16) / 16 == k / 16 - 1 && (k - 16) % 16 == k % 16;
      assert i + 1 + (k - 16) / 16 == i + k / 16;
    } else {
      assert k / 16 == 0 && k % 16 == k;
    }
  }

  lemma NothingXored(b: Bytes)
    requires b == []
    ensures Xor([], b) == []
  {
  }

  /** CBC-MAC: the last chaining value. */
  ghost function Mac(e: BlockFn, blocks: Bytes): (r: Bytes)
    requires OnBlocks(e, 16) && |blocks| % 16 == 0
    ensures |r| == 16
  {
    Chain(Encrypt, e, 16, Zeros(16), blocks)
  }

  lemma MacStep(e: BlockFn, blocks: Bytes, b: Bytes)
    requires OnBlocks(e, 16) && |blocks| % 16 == 0 && |b| == 16
    ensures |blocks + b| % 16 == 0 && Mac(e, blocks + b) == e(Xor(Mac(e, blocks), b))
  {
    hide Cbc, Chain, Xor;
    OneBlock(Encrypt, e, 16, Mac(e, blocks), b);
    CbcConcat(Encrypt, e, 16, Zeros(16), blocks, b);
    XorComm(b, Mac(e, blocks));
  }

  /** The full tag before it is cut. */
  ghost function FullTag(e: BlockFn, tagLen: nat, nonce: Bytes, add: Bytes, p: Bytes): (r: Bytes)
    requires GoodLengths(tagLen, nonce, add) && OnBlocks(e, 16)
    ensures |r| == 16
  {
    Xor(Mac(e, Format(tagLen, nonce, add, p)), e(CtrBlock(nonce, 0)))
  }

  /** y := E(y xor b). */
  method UpdateCbcMac(e: BlockFn, y: array<bv8>, b: array<bv8>, ghost blocks: Bytes)
    requires y.Length == b.Length == 16 && y != b && OnBlocks(e, 16) && |blocks| % 16 == 0
    requires y[..] == Mac(e, blocks)
    modifies y
    ensures |blocks + b[..]| % 16 == 0 && y[..] == Mac(e, blocks + b[..])
  {
    hide Mac, OnBlocks, Xor;
    MacStep(e, blocks, b[..]);
    ChainOn(e, y, b);
  }

  /** b := data, filled up with zeros. */
  method LoadPadded(b: array<bv8>, src: array<bv8>, k: nat, len: nat)
    requires b.Length == 16 && b != src && 0 < len <= 16 && k + len <= src.Length
    modifies b
    ensures b[..] == Pad16(src[k..k + len])
  {
    ghost var piece := src[k..k + len];
    Store(b, 0, Zeros(16));
    assert b[..] == b[0..16] == Zeros(16);
    CopyInto(b, 0, src, k, len);
    assert b[..] == b[0..len] + b[len..];
    assert b[len..] == Zeros(16 - len);
    assert (16 - len % 16) % 16 == 16 - len;
  }

  /** The counter bytes while a carry runs through them: i zeros, w + 1 still to be stored above. */
  ghost predicate Carrying(c: Bytes, head: Bytes, q: nat, i: nat, w: nat)
    requires |c| == 16 && i <= q <= 15
  {
    c[..16 - q] == head && c[16 - q..16 - i] == BE(w, q - i) && c[16 - i..] == Zeros(i)
  }

  lemma CarryByte(c: Bytes, head: Bytes, q: nat, i: nat, w: nat)
    requires |c| == 16 && i < q <= 15 && Carrying(c, head, q, i, w)
    ensures c[15 - i] == ToByte(w % 256) && c[16 - q..15 - i] == BE(w / 256, q - i - 1)
  {
    hide ToByte, Zeros;
    var field := c[16 - q..16 - i];
    assert c[15 - i] == field[q - i - 1] && c[16 - q..15 - i] == field[..q - i - 1];
  }

  /** A byte that does not wrap ends the carry. */
  lemma CarryEnds(c: Bytes, head: Bytes, q: nat, i: nat, w: nat)
    requires |c| == 16 && i < q <= 15 && Carrying(c, head, q, i, w) && w % 256 < 255
    ensures ToByte(w % 256) + 1 != 0
    ensures (w + 1) * Pow(256, i) >= 0 && c[15 - i := c[15 - i] + 1] == head + BE((w + 1) * Pow(256, i), q)
  {
    hide ToByte, Zeros, Pow, BE;
    CarryByte(c, head, q, i, w);
    NextDigit(w % 256);
    NonZero(w % 256 + 1);
    BEShifted(w + 1, q - i, i);
    BELast(w + 1, q - i);
    BELast(w, q - i);
    assert c == head + c[16 - q..15 - i] + [c[15 - i]] + c[16 - i..];
  }

  lemma NonZero(d: nat)
    requires 0 < d < 256
    ensures ToByte(d) != 0
  {
    hide ToByte, Num;
    NumToByte(d);
    NumToByte(0);
    ZeroByte();
  }

  /** A byte that wraps passes it on. */
  lemma CarryPasses(c: Bytes, head: Bytes, q: nat, i: nat, w: nat)
    requires |c| == 16 && i < q <= 15 && Carrying(c, head, q, i, w) && w % 256 == 255
    ensures c[15 - i] + 1 == 0 && Carrying(c[15 - i := 0], head, q, i + 1, w / 256)
    ensures (w + 1) * Pow(256, i) == (w / 256 + 1) * Pow(256, i + 1)
  {
    hide ToByte, Pow, BE;
    CarryByte(c, head, q, i, w);
    NextDigit(255);
    var c' := c[15 - i := 0];
    assert c'[16 - (i + 1)..] == [c'[15 - i]] + c[16 - i..];
    assert c'[16 - q..15 - i] == c[16 - q..15 - i] && c'[..16 - q] == c[..16 - q];
    BELast(w, q - i);
    PowStep(256, i);
    MulAssoc(w / 256 + 1, 256, Pow(256, i));
  }

  /** The counter goes up by one, as a number of q bytes. */
  method NextCounter(ctr: array<bv8>, nonce: Bytes, ghost v: nat)
    requires ctr.Length == 16 && 7 <= |nonce| <= 13 && ctr[..] == CtrBlock(nonce, v)
    modifies ctr
    ensures ctr[..] == CtrBlock(nonce, v + 1)
  {
    hide BE, ToByte, Pow;
    var q := QLen(nonce);
    ghost var head := ctr[..16 - q];
    ghost var w: nat := v;
    assert ctr[16 - q..] == BE(v, q);
    PowStep(256, 0);
    assert Zeros(0) == [];
    hide Carrying;
    assert Carrying(ctr[..], head, q, 0, v) by { CarryStart(ctr[..], head, q, v); }
    var i := 0;
    while i < q
      invariant 0 <= i <= q && Carrying(ctr[..], head, q, i, w)
      invariant (w + 1) * Pow(256, i) == v + 1
    {
      ghost var was := ctr[..];
      CarryByte(was, head, q, i, w);
      if w % 256 == 255 { CarryPasses(was, head, q, i, w); } else { CarryEnds(was, head, q, i, w); }
      ctr[15 - i] := ctr[15 - i] + 1;
      if ctr[15 - i] != 0 { return; }
      w := w / 256;
      i := i + 1;
    }
    CarryLost(ctr[..], head, q, w);
  }

  lemma CarryStart(c: Bytes, head: Bytes, q: nat, v: nat)
    requires |c| == 16 && q <= 15 && c[..16 - q] == head && c[16 - q..] == BE(v, q)
    ensures Carrying(c, head, q, 0, v)
  {
    hide BE;
    assert c[16..] == Zeros(0) && c[16 - q..16] == c[16 - q..];
  }

  /** A carry out of the field is lost. */
  lemma CarryLost(c: Bytes, head: Bytes, q: nat, w: nat)
    requires |c| == 16 && q <= 15 && Carrying(c, head, q, q, w)
    ensures (w + 1) * Pow(256, q) >= 0 && c == head + BE((w + 1) * Pow(256, q), q)
  {
    hide Pow;
    BEShifted(w + 1, 0, q);
    assert c == c[..16 - q] + c[16 - q..];
  }

  lemma BELast(v: nat, q: nat)
    requires q > 0
    ensures BE(v, q) == BE(v / 256, q - 1) + [ToByte(v % 256)]
    ensures v % 256 < 255 ==> (v + 1) / 256 == v / 256 && (v + 1) % 256 == v % 256 + 1
    ensures v % 256 == 255 ==> v + 1 == (v / 256 + 1) * 256
  {
  }

  // -------------------------------------------------------- the operation

  /** The first block, and what of the length does not fit its field. */
  method WriteFirst(b: array<bv8>, tagLen: nat, nonce: Bytes, add: Bytes, length: nat) returns (over: nat)
    requires b.Length == 16 && 7 <= |nonce| <= 13
    modifies b
    ensures b[..] == FirstBlock(tagLen, nonce, add, length)
    ensures over == 0 <==> length < Pow(256, QLen(nonce))
  {
    hide BE, ToByte, Pow;
    var q := QLen(nonce);
    var flags: bv8 := 0;
    flags := flags | (if |add| > 0 then 0x40 else 0x00);
    flags := flags | TagBits(tagLen);
    flags := flags | ToByte(q - 1);
    Store(b, 0, [flags] + nonce);
    ghost var head := b[..16 - q];
    assert head == [Flags(tagLen, |add| > 0, q)] + nonce by { ZeroOr(if |add| > 0 then 0x40 else 0x00); }
    PowStep(256, 0);
    var lenLeft := length;
    var i := 0;
    assert b[16..] == BE(length, 0);
    DivModUnique(length, 1, length, 0);
    while i < q
      invariant 0 <= i <= q && b[..16 - q] == head && b[16 - i..] == BE(length, i)
      invariant Pow(256, i) > 0 && lenLeft == length / Pow(256, i)
    {
      BEFront(length, i);
      DivPow(length, i);
      ghost var was := b[16 - i..];
      b[15 - i] := ToByte(lenLeft % 256);
      assert b[16 - (i + 1)..] == [b[15 - i]] + was;
      lenLeft := lenLeft / 256;
      i := i + 1;
    }
    over := lenLeft;
    assert b[..] == head + b[16 - q..];
    DivZero(length, Pow(256, q));
  }

  lemma ZeroOr(b: bv8)
    ensures (0 as bv8) | b == b
  {
  }

  lemma DivZero(x: nat, m: nat)
    requires m > 0
    ensures x / m == 0 <==> x < m
  {
    DivModProps(x, m);
    if x / m > 0 { MulMono(m, 1, x / m); MulComm(m, x / m); }
  }

  /** The additional data, after its length, in zero-padded blocks. */
  method AuthAdd(e: BlockFn, y: array<bv8>, b: array<bv8>, add: Bytes, ghost blocks: Bytes)
    requires y.Length == b.Length == 16 && y != b && OnBlocks(e, 16) && |blocks| % 16 == 0
    requires 0 < |add| <= 0xFF00 && y[..] == Mac(e, blocks)
    modifies y, b
    ensures |blocks + AddBlocks(add)| % 16 == 0 && y[..] == Mac(e, blocks + AddBlocks(add))
  {
    hide Mac, OnBlocks, BE, ToByte, Pad16;
    var coded := BE(|add|, 2) + add;
    var useLen := if |coded| < 16 then |coded| else 16;
    NoPad();
    assert coded[..0] == [] && blocks + [] == blocks;
    ghost var done := AuthPiece(e, y, b, coded, 0, useLen, blocks, []);
    var k := useLen;
    while k < |coded|
      invariant 0 < k <= |coded| && (k % 16 == 0 || k == |coded|)
      invariant done == Pad16(coded[..k]) && |blocks + done| % 16 == 0 && y[..] == Mac(e, blocks + done)
    {
      useLen := if |coded| - k > 16 then 16 else |coded| - k;
      done := AuthPiece(e, y, b, coded, k, useLen, blocks, done);
      k := k + useLen;
    }
    assert coded[..k] == coded;
  }

  /** One block of additional data. */
  method AuthPiece(e: BlockFn, y: array<bv8>, b: array<bv8>, coded: Bytes, k: nat, len: nat, ghost blocks: Bytes, ghost done: Bytes)
    returns (ghost done': Bytes)
    requires y.Length == b.Length == 16 && y != b && OnBlocks(e, 16) && k % 16 == 0 && 0 < len <= 16 && k + len <= |coded|
    requires done == Pad16(coded[..k]) && |blocks + done| % 16 == 0 && y[..] == Mac(e, blocks + done)
    modifies y, b
    ensures done' == Pad16(coded[..k + len]) && |blocks + done'| % 16 == 0 && y[..] == Mac(e, blocks + done')
    ensures len == 16 ==> (k + len) % 16 == 0
  {
    hide Mac, OnBlocks, Pad16;
    StorePadded(b, coded[k..k + len]);
    UpdateCbcMac(e, y, b, blocks + done);
    PadPrefix(coded, k, len);
    assert (blocks + done) + b[..] == blocks + (done + b[..]);
    done' := done + b[..];
  }

  method StorePadded(b: array<bv8>, data: Bytes)
    requires b.Length == 16 && 0 < |data| <= 16
    modifies b
    ensures b[..] == Pad16(data)
  {
    Store(b, 0, Zeros(16));
    assert b[..] == b[0..16] == Zeros(16);
    Store(b, 0, data);
    assert b[..] == b[0..|data|] + b[|data|..];
    assert b[|data|..] == Zeros(16 - |data|);
    assert (16 - |data| % 16) % 16 == 16 - |data|;
  }

  lemma NoPad()
    ensures Pad16([]) == []
  {
  }

  /** Padding a prefix of whole blocks changes nothing; one more piece is padded by itself. */
  lemma PadPrefix(s: Bytes, k: nat, len: nat)
    requires k % 16 == 0 && 0 < len <= 16 && k + len <= |s|
    ensures Pad16(s[..k + len]) == Pad16(s[..k]) + Pad16(s[k..k + len])
    ensures len == 16 ==> (k + len) % 16 == 0
  {
    assert s[..k + len] == s[..k] + s[k..k + len];
    assert |s[..k]| == k;
    assert Zeros(0) == [];
    assert (k + len) % 16 == len % 16;
  }

  // ---------------------------------------------------------- the message

  function PlainOf(op: Operation, input: Bytes, output: Bytes): Bytes {
    if op.Encrypt? then input else output
  }

  /** The first k bytes of the message are crypted and authenticated. */
  ghost predicate Progress(e: BlockFn, op: Operation, nonce: Bytes, pre: Bytes, data: Bytes, k: nat, out: Bytes, y: Bytes)
    requires OnBlocks(e, 16) && 7 <= |nonce| <= 13 && |pre| % 16 == 0
  {
    && k <= |data| && out == CtrXor(e, nonce, 1, data[..k])
    && |pre + Pad16(PlainOf(op, data[..k], out))| % 16 == 0 && y == Mac(e, pre + Pad16(PlainOf(op, data[..k], out)))
  }

  lemma ProgressStart(e: BlockFn, op: Operation, nonce: Bytes, pre: Bytes, data: Bytes, y: Bytes)
    requires OnBlocks(e, 16) && 7 <= |nonce| <= 13 && |pre| % 16 == 0 && y == Mac(e, pre)
    ensures Progress(e, op, nonce, pre, data, 0, [], y)
  {
    hide Mac, CtrBlock;
    NoPad();
    assert pre + [] == pre && data[..0] == [];
    NothingXored(e(CtrBlock(nonce, 1))[..0]);
  }

  /** One piece more. */
  lemma ProgressStep(e: BlockFn, op: Operation, nonce: Bytes, pre: Bytes, data: Bytes, k: nat, out: Bytes, y: Bytes,
                     len: nat, piece: Bytes, b: Bytes, y': Bytes)
    requires OnBlocks(e, 16) && 7 <= |nonce| <= 13 && |pre| % 16 == 0
    requires k % 16 == 0 && 0 < len <= 16 && k + len <= |data| && Progress(e, op, nonce, pre, data, k, out, y)
    requires piece == Xor(data[k..k + len], e(CtrBlock(nonce, 1 + k / 16))[..len])
    requires b == Pad16(PlainOf(op, data[k..k + len], piece)) && |b| == 16
    requires |y| == 16 && y' == e(Xor(y, b))
    ensures Progress(e, op, nonce, pre, data, k + len, out + piece, y')
  {
    hide Mac, CtrBlock, Pad16, Xor, OnBlocks;
    assert data[..k + len] == data[..k] + data[k..k + len];
    CtrXorSnoc(e, nonce, 1, data[..k], data[k..k + len]);
    var plain, more := PlainOf(op, data[..k], out), PlainOf(op, data[k..k + len], piece);
    var all := plain + more;
    assert all == PlainOf(op, data[..k + len], out + piece);
    assert all[..k + len] == all && all[..k] == plain && all[k..k + len] == more;
    PadPrefix(all, k, len);
    MacStep(e, pre + Pad16(plain), b);
    assert (pre + Pad16(plain)) + b == pre + (Pad16(plain) + b);
  }

  /** y := E(y xor b), as a step of any chain. */
  method ChainOn(e: BlockFn, y: array<bv8>, b: array<bv8>)
    requires y.Length == b.Length == 16 && y != b && OnBlocks(e, 16)
    modifies y
    ensures y[..] == e(Xor(old(y[..]), b[..]))
  {
    hide OnBlocks, Xor;
    assert y[..] == y[0..16];
    XorInto(y, 0, y, 0, b[..]);
    CryptBlock(e, 16, y, 0, y, 0);
    assert y[..] == y[0..16];
  }

  /** One piece of the message: authenticated before encryption, or after decryption. */
  method CryptPiece(e: BlockFn, op: Operation, b: array<bv8>, y: array<bv8>, ctr: Bytes,
                    src: array<bv8>, dst: array<bv8>, k: nat, len: nat)
    requires b.Length == y.Length == 16 == |ctr| && OnBlocks(e, 16) && 0 < len <= 16
    requires k + len <= src.Length && k + len <= dst.Length && b != y && {src, dst} !! {b, y}
    modifies b, y, dst
    ensures dst[k..k + len] == Xor(old(src[k..k + len]), e(ctr)[..len])
    ensures y[..] == e(Xor(old(y[..]), Pad16(PlainOf(op, old(src[k..k + len]), dst[k..k + len]))))
    ensures |Pad16(PlainOf(op, old(src[k..k + len]), dst[k..k + len]))| == 16
    ensures dst[..k] == old(dst[..k]) && dst[k + len..] == old(dst[k..])[len..]
  {
    hide Xor, Pad16;
    ghost var piece, tail := src[k..k + len], dst[k..];
    if op.Encrypt? {
      LoadPadded(b, src, k, len);
      ChainOn(e, y, b);
    }
    OnBlock(e, 16, ctr);
    XorInto(dst, k, src, k, e(ctr)[..len]);
    if op.Decrypt? {
      LoadPadded(b, dst, k, len);
      ChainOn(e, y, b);
    }
    assert tail[len..] == old(dst[k + len..]);
  }

  /** The loop over the message. */
  method CryptMessage(e: BlockFn, op: Operation, b: array<bv8>, y: array<bv8>, ctr: array<bv8>, nonce: Bytes,
                      length: nat, input: array<bv8>, output: array<bv8>, ghost pre: Bytes)
    requires b.Length == y.Length == ctr.Length == 16 && OnBlocks(e, 16) && 7 <= |nonce| <= 13 && |pre| % 16 == 0
    requires length <= input.Length && length <= output.Length
    requires b != y && b != ctr && y != ctr && {input, output} !! {b, y, ctr}
    requires y[..] == Mac(e, pre) && ctr[..] == CtrBlock(nonce, 1)
    modifies b, y, ctr, output
    ensures Progress(e, op, nonce, pre, old(input[..length]), length, output[..length], y[..])
    ensures output[length..] == old(output[length..])
    ensures exists i: nat :: ctr[..] == CtrBlock(nonce, i)
  {
    hide Progress, CtrBlock, Mac, OnBlocks, Pad16, Xor;
    ghost var data, out0 := input[..length], output[..];
    ghost var inp := input[..];
    ProgressStart(e, op, nonce, pre, data, y[..]);
    assert output[..0] == [];
    var k := 0;
    ghost var i: nat := 1;
    while k < length
      invariant 0 <= k <= length && (k % 16 == 0 || k == length)
      invariant Progress(e, op, nonce, pre, data, k, output[..k], y[..])
      invariant output[k..] == out0[k..] && input[k..] == inp[k..]
      invariant ctr[..] == CtrBlock(nonce, i) && (k % 16 == 0 ==> i == 1 + k / 16)
    {
      var useLen := if length - k > 16 then 16 else length - k;
      CryptTurn(e, op, b, y, ctr, nonce, k, useLen, input, output, pre, data, inp, out0);
      NextCounter(ctr, nonce, i);
      i := i + 1;
      assert useLen == 16 ==> (k + useLen) / 16 == k / 16 + 1;
      k := k + useLen;
    }
  }

  method CryptTurn(e: BlockFn, op: Operation, b: array<bv8>, y: array<bv8>, ctr: array<bv8>, nonce: Bytes, k: nat, len: nat,
                   input: array<bv8>, output: array<bv8>, ghost pre: Bytes, ghost data: Bytes, ghost inp: Bytes, ghost out0: Bytes)
    requires b.Length == y.Length == ctr.Length == 16 && OnBlocks(e, 16) && 7 <= |nonce| <= 13 && |pre| % 16 == 0
    requires k % 16 == 0 && 0 < len <= 16 && k + len <= |data| <= output.Length == |out0| && |data| <= input.Length == |inp|
    requires b != y && b != ctr && y != ctr && {input, output} !! {b, y, ctr}
    requires data == inp[..|data|] && input[k..] == inp[k..] && output[k..] == out0[k..]
    requires Progress(e, op, nonce, pre, data, k, output[..k], y[..]) && ctr[..] == CtrBlock(nonce, 1 + k / 16)
    modifies b, y, output
    ensures Progress(e, op, nonce, pre, data, k + len, output[..k + len], y[..])
    ensures output[k + len..] == out0[k + len..] && input[k + len..] == inp[k + len..]
  {
    hide Progress, CtrBlock, Mac, OnBlocks, Pad16, Xor;
    ghost var out, y0, c := output[..k], y[..], ctr[..];
    SliceSlice(inp, 0, |data|, k, len);
    assert input[k..k + len] == input[k..][..len] == inp[k..][..len] == inp[k..k + len];
    ghost var inTail := input[k..];
    CryptPiece(e, op, b, y, ctr[..], input, output, k, len);
    ProgressStep(e, op, nonce, pre, data, k, out, y0, len, output[k..k + len],
                 Pad16(PlainOf(op, data[k..k + len], output[k..k + len])), y[..]);
    assert output[..k + len] == out + output[k..k + len];
    Tails(out0, k, len);
    Tails(inp, k, len);
    assert input != output ==> input[k + len..] == inTail[len..];
  }

  /** Zeroes the counter field. */
  method ResetCounter(ctr: array<bv8>, nonce: Bytes, ghost i: nat)
    requires ctr.Length == 16 && 7 <= |nonce| <= 13 && ctr[..] == CtrBlock(nonce, i)
    modifies ctr
    ensures ctr[..] == CtrBlock(nonce, 0)
  {
    hide BE, ToByte;
    var q := QLen(nonce);
    ghost var head := ctr[..16 - q];
    assert Zeros(0) == [];
    var j := 0;
    while j < q
      invariant 0 <= j <= q && ctr[..16 - q] == head && ctr[16 - j..] == Zeros(j)
    {
      ghost var was := ctr[16 - j..];
      ctr[15 - j] := 0;
      assert ctr[16 - (j + 1)..] == [0] + was;
      assert Zeros(j + 1) == [0] + Zeros(j);
      j := j + 1;
    }
    ZeroCounter(q);
    assert ctr[..] == head + ctr[16 - q..];
  }

  lemma ZeroCounter(q: nat)
    ensures BE(0, q) == Zeros(q)
  {
    hide BE;
    BEShifted(0, 0, q);
    assert BE(0, 0) == [] by { EmptyBE(); }
    MulComm(0, Pow(256, q));
  }

  lemma EmptyBE()
    ensures BE(0, 0) == []
  {
  }

  /** What the two directions compute: ciphertext or plaintext, and the tag on the plaintext. */
  ghost predicate Crypted(e: BlockFn, op: Operation, tagLen: nat, nonce: Bytes, add: Bytes, data: Bytes, out: Bytes, tag: Bytes)
    requires OnBlocks(e, 16) && GoodLengths(tagLen, nonce, add)
  {
    out == CtrXor(e, nonce, 1, data) && tag == FullTag(e, tagLen, nonce, add, PlainOf(op, data, out))[..tagLen]
  }

  predicate Accepted(tagLen: nat, nonce: Bytes, add: Bytes, length: nat) {
    GoodLengths(tagLen, nonce, add) && length < Pow(256, QLen(nonce))
  }

  /** The bytes of output and tag. */
  lemma CryptedBytes(e: BlockFn, op: Operation, tagLen: nat, nonce: Bytes, add: Bytes, data: Bytes, out: Bytes, tag: Bytes)
    requires OnBlocks(e, 16) && GoodLengths(tagLen, nonce, add) && Crypted(e, op, tagLen, nonce, add, data, out, tag)
    ensures |out| == |data| && |tag| == tagLen
    ensures forall k :: 0 <= k < |out| ==> out[k] == XorByte(data[k], e(CtrBlock(nonce, 1 + k / 16))[k % 16])
    ensures forall k :: 0 <= k < tagLen ==>
      tag[k] == XorByte(Mac(e, Format(tagLen, nonce, add, PlainOf(op, data, out)))[k], e(CtrBlock(nonce, 0))[k])
  {
    hide CtrXor, XorByte, CtrBlock, Format, Mac;
    forall k | 0 <= k < |out| ensures out[k] == XorByte(data[k], e(CtrBlock(nonce, 1 + k / 16))[k % 16]) {
      CtrXorAt(e, nonce, 1, data, k);
    }
  }

  /**
   * Authenticated encryption or decryption, without the check of the tag.  Byte k of the data meets
   * byte k % 16 of the encrypted counter block of count 1 + k / 16, and the MAC of the formatted
   * plaintext the block of count 0.
   */
  method AuthCrypt(e: BlockFn, op: Operation, length: nat, nonce: Bytes, add: Bytes,
                   input: array<bv8>, output: array<bv8>, tagLen: nat)
    returns (ret: Status, tag: Bytes)
    requires OnBlocks(e, 16) && length <= input.Length && length <= output.Length
    modifies output
    ensures ret == if Accepted(tagLen, nonce, add, length) then Ok else BadInput
    ensures ret == Ok <==> ((tagLen == 0 || 4 <= tagLen <= 16) && tagLen % 2 == 0 && 7 <= |nonce| <= 13
                            && |add| <= 0xFF00 && length < Pow(256, 15 - |nonce|))
    ensures ret == Ok ==> Crypted(e, op, tagLen, nonce, add, old(input[..length]), output[..length], tag)
    ensures ret == Ok ==> forall k :: 0 <= k < length ==>
      output[k] == XorByte(old(input[..])[k], e([ToByte(14 - |nonce|)] + nonce + BE(1 + k / 16, 15 - |nonce|))[k % 16])
    ensures ret == Ok ==> |tag| == tagLen && forall k :: 0 <= k < tagLen ==>
      tag[k] == XorByte(Mac(e, Format(tagLen, nonce, add, if op.Encrypt? then old(input[..length]) else output[..length]))[k],
                        e([ToByte(14 - |nonce|)] + nonce + BE(0, 15 - |nonce|))[k])
    ensures ret != Ok ==> output[..] == old(output[..])
    ensures output[length..] == old(output[length..])
  {
    hide CtrBlock, Mac, Pow, BE, Crypted, Format, XorByte, ToByte;
    ghost var data := input[..length];
    ret, tag := CryptAndMac(e, op, length, nonce, add, input, output, tagLen);
    if ret == Ok {
      CryptedBytes(e, op, tagLen, nonce, add, data, output[..length], tag);
      CtrBlockIs(nonce, 0);
      forall k | 0 <= k < length
        ensures output[k] == XorByte(data[k], e([ToByte(14 - |nonce|)] + nonce + BE(1 + k / 16, 15 - |nonce|))[k % 16])
      {
        assert output[..length][k] == XorByte(data[k], e(CtrBlock(nonce, 1 + k / 16))[k % 16]);
        CtrBlockIs(nonce, 1 + k / 16);
      }
    }
  }

  /** The blocks, the counter and the MAC of one call. */
  method CryptAndMac(e: BlockFn, op: Operation, length: nat, nonce: Bytes, add: Bytes,
                     input: array<bv8>, output: array<bv8>, tagLen: nat)
    returns (ret: Status, tag: Bytes)
    requires OnBlocks(e, 16) && length <= input.Length && length <= output.Length
    modifies output
    ensures ret == if Accepted(tagLen, nonce, add, length) then Ok else BadInput
    ensures ret == Ok ==> Crypted(e, op, tagLen, nonce, add, old(input[..length]), output[..length], tag)
    ensures ret != Ok ==> output[..] == old(output[..])
    ensures output[length..] == old(output[length..])
  {
    hide FirstBlock, AddBlocks, CtrBlock, Mac, OnBlocks, Pow, BE, Crypted;
    tag := [];
    if tagLen == 2 || tagLen > 16 || tagLen % 2 != 0 { return BadInput, []; }
    if |nonce| < 7 || |nonce| > 13 { return BadInput, []; }
    if |add| > 0xFF00 { return BadInput, []; }
    var b, y, ctr := new bv8[16], new bv8[16], new bv8[16];
    var over := WriteFirst(b, tagLen, nonce, add, length);
    if over > 0 { return BadInput, []; }
    ghost var pre := AuthHeader(e, b, y, tagLen, nonce, add, length);
    StartCounter(ctr, nonce);
    ghost var data := input[..length];
    CryptMessage(e, op, b, y, ctr, nonce, length, input, output, pre);
    ghost var i: nat :| ctr[..] == CtrBlock(nonce, i);
    ResetCounter(ctr, nonce, i);
    OnBlock(e, 16, ctr[..]);
    assert y[..] == y[0..16];
    ghost var mac := y[..];
    XorInto(y, 0, y, 0, e(ctr[..]));
    assert y[..] == y[0..16];
    MessageDone(e, op, tagLen, nonce, add, pre, data, output[..length], mac);
    return Ok, y[..tagLen];
  }

  /** Starts the MAC with the first block and the additional data. */
  method AuthHeader(e: BlockFn, b: array<bv8>, y: array<bv8>, tagLen: nat, nonce: Bytes, add: Bytes, length: nat)
    returns (ghost pre: Bytes)
    requires OnBlocks(e, 16) && b.Length == y.Length == 16 && b != y && GoodLengths(tagLen, nonce, add)
    requires b[..] == FirstBlock(tagLen, nonce, add, length)
    modifies b, y
    ensures pre == FirstBlock(tagLen, nonce, add, length) + AddBlocks(add)
    ensures |pre| % 16 == 0 && y[..] == Mac(e, pre)
  {
    hide FirstBlock, AddBlocks, OnBlocks;
    Store(y, 0, Zeros(16));
    assert y[..] == y[0..16];
    EmptyMac(e);
    hide Mac;
    UpdateCbcMac(e, y, b, []);
    ghost var first := FirstBlock(tagLen, nonce, add, length);
    assert [] + b[..] == first;
    if |add| > 0 {
      AuthAdd(e, y, b, add, first);
    } else {
      NoAdd();
      assert first + [] == first;
    }
    pre := first + AddBlocks(add);
  }

  lemma EmptyMac(e: BlockFn)
    requires OnBlocks(e, 16)
    ensures Mac(e, []) == Zeros(16)
  {
  }

  method StartCounter(ctr: array<bv8>, nonce: Bytes)
    requires ctr.Length == 16 && 7 <= |nonce| <= 13
    modifies ctr
    ensures ctr[..] == CtrBlock(nonce, 1)
  {
    hide BE, ToByte;
    var q := QLen(nonce);
    Store(ctr, 0, [ToByte(q - 1)] + nonce + Zeros(q));
    assert ctr[..] == ctr[0..16];
    ctr[15] := 1;
    BELast(1, q);
    ZeroCounter(q - 1);
    OneByte();
    assert Zeros(q)[..q - 1] == Zeros(q - 1);
  }

  lemma OneByte()
    ensures ToByte(1) == 1
  {
  }

  lemma MessageDone(e: BlockFn, op: Operation, tagLen: nat, nonce: Bytes, add: Bytes, pre: Bytes,
                    data: Bytes, out: Bytes, mac: Bytes)
    requires OnBlocks(e, 16) && GoodLengths(tagLen, nonce, add) && |pre| % 16 == 0 && |mac| == 16
    requires pre == FirstBlock(tagLen, nonce, add, |data|) + AddBlocks(add)
    requires Progress(e, op, nonce, pre, data, |data|, out, mac)
    ensures Crypted(e, op, tagLen, nonce, add, data, out, Xor(mac, e(CtrBlock(nonce, 0)))[..tagLen])
  {
    hide FirstBlock, AddBlocks, CtrBlock, Mac, OnBlocks, Pad16, Xor;
    assert data[..|data|] == data;
    var p := PlainOf(op, data, out);
    assert Format(tagLen, nonce, add, p) == pre + Pad16(p);
  }

  /** Authenticated encryption; the star form also allows an empty tag. */
  method EncryptAndTag(e: BlockFn, star: bool, length: nat, nonce: Bytes, add: Bytes,
                       input: array<bv8>, output: array<bv8>, tagLen: nat)
    returns (ret: Status, tag: Bytes)
    requires OnBlocks(e, 16) && length <= input.Length && length <= output.Length
    modifies output
    ensures ret == if Accepted(tagLen, nonce, add, length) && (star || tagLen != 0) then Ok else BadInput
    ensures ret == Ok ==> Crypted(e, Encrypt, tagLen, nonce, add, old(input[..length]), output[..length], tag)
    ensures output[length..] == old(output[length..])
  {
    hide Accepted, Crypted, OnBlocks;
    if !star && tagLen == 0 { return BadInput, []; }
    ret, tag := AuthCrypt(e, Encrypt, length, nonce, add, input, output, tagLen);
  }

  /** Authenticated decryption: the plaintext comes out only under its own tag. */
  method AuthDecrypt(e: BlockFn, star: bool, length: nat, nonce: Bytes, add: Bytes,
                     input: array<bv8>, output: array<bv8>, tag: Bytes)
    returns (ret: Status)
    requires OnBlocks(e, 16) && length <= input.Length && length <= output.Length
    modifies output
    ensures ret == BadInput <==> !(Accepted(|tag|, nonce, add, length) && (star || |tag| != 0))
    ensures ret != BadInput ==> GoodLengths(|tag|, nonce, add)
    ensures ret != BadInput ==>
      (ret == Ok <==> tag == FullTag(e, |tag|, nonce, add, CtrXor(e, nonce, 1, old(input[..length])))[..|tag|])
    ensures ret == Ok ==> output[..length] == CtrXor(e, nonce, 1, old(input[..length]))
    ensures ret == AuthFailed ==> output[..length] == Zeros(length)
    ensures output[length..] == old(output[length..])
  {
    hide OnBlocks, FullTag, CtrXor, XorByte, Mac, Format, BE, ToByte, Pow, GoodLengths;
    if !star && |tag| == 0 { return BadInput; }
    var checkTag;
    ret, checkTag := AuthCrypt(e, Decrypt, length, nonce, add, input, output, |tag|);
    if ret != Ok { return BadInput; }
    ghost var out := output[..];
    var diff: bv8 := 0;
    var i := 0;
    while i < |tag|
      invariant 0 <= i <= |tag| && output[..] == out
      invariant diff == 0 <==> tag[..i] == checkTag[..i]
    {
      DiffBit(diff, tag[i], checkTag[i]);
      diff := diff | XorByte(tag[i], checkTag[i]);
      assert tag[..i + 1] == tag[..i] + [tag[i]] && checkTag[..i + 1] == checkTag[..i] + [checkTag[i]];
      i := i + 1;
    }
    assert tag[..i] == tag && checkTag[..i] == checkTag;
    if diff != 0 {
      Store(output, 0, Zeros(length));
      assert output[..length] == output[0..length];
      assert output[length..] == output[0 + length..] == out[length..];
      return AuthFailed;
    }
  }

  /** Decryption returns what was encrypted, whatever the nonce, data and tag length. */
  method SealOpen(e: BlockFn, star: bool, length: nat, nonce: Bytes, add: Bytes, input: array<bv8>, output: array<bv8>, tagLen: nat)
    returns (ret: Status)
    requires OnBlocks(e, 16) && length <= input.Length && length <= output.Length
    modifies output
    ensures ret == if Accepted(tagLen, nonce, add, length) && (star || tagLen != 0) then Ok else BadInput
    ensures ret == Ok ==> output[..length] == old(input[..length])
  {
    hide OnBlocks, FullTag, CtrXor, Accepted;
    ghost var p := input[..length];
    var tag;
    ret, tag := EncryptAndTag(e, star, length, nonce, add, input, output, tagLen);
    if ret != Ok { return; }
    TagLength(e, tagLen, nonce, add, p, output[..length], tag);
    CtrXorTwice(e, nonce, 1, p);
    ret := AuthDecrypt(e, star, length, nonce, add, output, output, tag);
  }

  lemma TagLength(e: BlockFn, tagLen: nat, nonce: Bytes, add: Bytes, data: Bytes, out: Bytes, tag: Bytes)
    requires OnBlocks(e, 16) && Accepted(tagLen, nonce, add, |data|)
    requires Crypted(e, Encrypt, tagLen, nonce, add, data, out, tag)
    ensures |tag| == tagLen && tagLen <= 16 && GoodLengths(tagLen, nonce, add)
    ensures tag == FullTag(e, tagLen, nonce, add, data)[..tagLen] && out == CtrXor(e, nonce, 1, data)
  {
    hide OnBlocks, FullTag, CtrXor;
  }
}
