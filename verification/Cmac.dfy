/**
 * CMAC over a block cipher with blocks of 8 or 16 bytes: the tag is the one of section 2.4 of
 * RFC 4493, however the message is cut into calls.
 */
module Cmac {
  import opened Numbers
  import opened Blocks
  import opened CbcMode
  import Xts
  import Paddings
  import CipherLayer

  // -------------------------------------------------- multiplication by u

  predicate BlockSize(n: nat) {
    n == 8 || n == 16
  }

  /** The reduction constant: x^64 = x^4 + x^3 + x + 1, x^128 = x^7 + x^2 + x + 1. */
  function R(n: nat): bv8 {
    if n == 16 then 0x87 else 0x1B
  }

  /** The exponents in the reduction polynomial below the top. */
  predicate Reduces(n: nat, i: nat) {
    i == 0 || i == 1 || if n == 16 then i == 2 || i == 7 else i == 3 || i == 4
  }

  /** The coefficient of x^i: most significant byte first. */
  predicate Coeff(n: nat, block: Bytes, i: nat)
    requires |block| == n && i < 8 * n
  {
    Xts.BitOf(block[n - 1 - i / 8], i % 8)
  }

  /** Byte k of the product before reduction. */
  function UpByte(x: Bytes, k: nat): bv8
    requires k < |x|
  {
    Xts.Shifted(x[k], if k + 1 < |x| then x[k + 1] else 0)
  }

  function TimesU(n: nat, x: Bytes): (r: Bytes)
    requires 0 < n == |x|
    ensures |r| == n
  {
    seq(n, k requires 0 <= k < n => XorByte(UpByte(x, k), if k == n - 1 then R(n) & Top(x[0]) else 0))
  }

  /** All ones when the top bit is set. */
  function Top(b: bv8): bv8 {
    if b & 0x80 != 0 then 0xFF else 0
  }

  lemma FoldedBit(n: nat, b: bv8, top: bv8, j: nat)
    requires BlockSize(n) && j < 8
    ensures Xts.BitOf(XorByte(Xts.Shifted(b, 0), R(n) & Top(top)), j) ==
      ((j > 0 && Xts.BitOf(b, j - 1)) != (Xts.BitOf(top, 7) && Reduces(n, j)))
  {
  }

  lemma PlainBit(b: bv8, below: bv8, j: nat)
    requires j < 8
    ensures Xts.BitOf(XorByte(Xts.Shifted(b, below), 0), j) == if j == 0 then Xts.BitOf(below, 7) else Xts.BitOf(b, j - 1)
  {
    Xts.ShiftedBit(b, below, j);
    XorByteZero(Xts.Shifted(b, below));
  }

  /** The coefficients of x times a block, reduced: every one moves up, the top one comes back. */
  lemma TimesUCoeff(n: nat, x: Bytes, i: nat)
    requires BlockSize(n) && |x| == n && i < 8 * n
    ensures Coeff(n, TimesU(n, x), i) ==
      ((i > 0 && Coeff(n, x, i - 1)) !=
       (Coeff(n, x, 8 * n - 1) && (i == 0 || i == 1 || if n == 16 then i == 2 || i == 7 else i == 3 || i == 4)))
  {
    hide Coeff, TimesU;
    Reduced(n, x, i);
  }

  lemma Reduced(n: nat, x: Bytes, i: nat)
    requires BlockSize(n) && |x| == n && i < 8 * n
    ensures Coeff(n, TimesU(n, x), i) == ((i > 0 && Coeff(n, x, i - 1)) != (Coeff(n, x, 8 * n - 1) && Reduces(n, i)))
  {
    hide Xts.BitOf, Xts.Shifted, R, Top, XorByte, TimesU, Reduces;
    var k := n - 1 - i / 8;
    TimesUAt(n, x, k);
    TopPlace(n);
    if i < 8 {
      FoldedBit(n, x[k], x[0], i);
    } else {
      PlainBit(x[k], x[k + 1], i % 8);
      BelowPlace(i);
      HighPlain(n, i);
    }
  }

  lemma TimesUAt(n: nat, x: Bytes, k: nat)
    requires 0 < n == |x| && k < n
    ensures TimesU(n, x)[k] == if k == n - 1 then XorByte(Xts.Shifted(x[k], 0), R(n) & Top(x[0]))
                               else XorByte(Xts.Shifted(x[k], x[k + 1]), 0)
  {
    hide Xts.Shifted, R, Top, XorByte;
  }

  lemma TopPlace(n: nat)
    requires n > 0
    ensures (8 * n - 1) / 8 == n - 1 && (8 * n - 1) % 8 == 7
  {
  }

  lemma BelowPlace(i: nat)
    requires i >= 8
    ensures if i % 8 == 0 then (i - 1) / 8 == i / 8 - 1 && (i - 1) % 8 == 7
            else (i - 1) / 8 == i / 8 && (i - 1) % 8 == i % 8 - 1
  {
  }

  lemma HighPlain(n: nat, i: nat)
    requires i >= 8
    ensures !Reduces(n, i)
  {
  }

  lemma Carried(b: bv8, below: bv8)
    ensures (b << 1) | (below >> 7) == Xts.Shifted(b, below)
    ensures (b << 1) | 0 == Xts.Shifted(b, 0)
  {
  }

  /** output := u * input, from the last byte to the first. */
  method MultiplyByU(output: array<bv8>, input: array<bv8>, n: nat) returns (ok: bool)
    requires output.Length == input.Length == n && output != input
    modifies output
    ensures ok == BlockSize(n)
    ensures ok ==> output[..] == TimesU(n, input[..])
  {
    var rn: bv8;
    if n == 16 { rn := 0x87; } else if n == 8 { rn := 0x1B; } else { return false; }
    ShiftUp(output, input, n);
    hide UpByte, XorByte;
    ghost var x, up := input[..], output[..];
    var mask := Top(input[0]);
    output[n - 1] := XorByte(output[n - 1], rn & mask);
    forall k | 0 <= k < n ensures output[k] == TimesU(n, x)[k] {
      XorByteZero(UpByte(x, k));
    }
    assert output[..] == TimesU(n, x);
    return true;
  }

  method ShiftUp(output: array<bv8>, input: array<bv8>, n: nat)
    requires 0 < n == output.Length == input.Length && output != input
    modifies output
    ensures forall k :: 0 <= k < n ==> output[k] == UpByte(input[..], k)
  {
    hide UpByte;
    var overflow: bv8 := 0;
    ghost var x := input[..];
    var i := n - 1;
    while i >= 0
      invariant -1 <= i < n && input[..] == x
      invariant overflow == if i + 1 < n then TopBit(x[i + 1]) else 0
      invariant forall k :: i < k < n ==> output[k] == UpByte(x, k)
    {
      UpByteIs(x, i);
      output[i] := UpWith(input[i], overflow);
      overflow := TopBit(input[i]);
      i := i - 1;
    }
  }

  function UpWith(b: bv8, overflow: bv8): bv8 {
    (b << 1) | overflow
  }

  function TopBit(b: bv8): bv8 {
    b >> 7
  }

  lemma UpByteIs(x: Bytes, k: nat)
    requires k < |x|
    ensures UpByte(x, k) == UpWith(x[k], if k + 1 < |x| then TopBit(x[k + 1]) else 0)
  {
    Carried(x[k], if k + 1 < |x| then x[k + 1] else 0);
  }

  // ------------------------------------------------------------- the code

  /**
   * How much of a message goes into the chaining value before its end is known: all but the last
   * block, whole or not.  Padded decryption holds data back by the same rule.
   */
  function Absorbed(n: nat, len: nat): int
    requires n > 0
  {
    CipherLayer.Take(Decrypt, Paddings.Pkcs7, n, len)
  }

  lemma AbsorbedBounds(n: nat, len: nat)
    requires n > 0
    ensures Whole(n, Absorbed(n, len)) && 0 <= Absorbed(n, len) <= len && len - Absorbed(n, len) <= n
    ensures len > 0 ==> Absorbed(n, len) < len
  {
    CipherLayer.TakeBounds(Decrypt, Paddings.Pkcs7, n, len);
  }

  /** The chaining value after part of a message, and what is held back. */
  ghost predicate Holds(e: BlockFn, n: nat, start: Bytes, data: Bytes, chain: Bytes, rest: Bytes)
    requires 0 < n == |start| && OnBlocks(e, n)
  {
    AbsorbedBounds(n, |data|);
    var k := Absorbed(n, |data|);
    chain == Chain(Encrypt, e, n, start, data[..k]) && rest == data[k..]
  }

  lemma HoldsParts(e: BlockFn, n: nat, start: Bytes, data: Bytes, chain: Bytes, rest: Bytes, k: int)
    requires 0 < n == |start| && OnBlocks(e, n) && k == Absorbed(n, |data|) && Holds(e, n, start, data, chain, rest)
    ensures 0 <= k <= |data| && Whole(n, k) && chain == Chain(Encrypt, e, n, start, data[..k]) && rest == data[k..]
    ensures |chain| == n && |rest| <= n
  {
    hide Chain, Absorbed, OnBlocks;
    AbsorbedBounds(n, |data|);
  }

  lemma HoldsIs(e: BlockFn, n: nat, start: Bytes, data: Bytes, chain: Bytes, rest: Bytes, k: nat)
    requires 0 < n == |start| && OnBlocks(e, n) && k == Absorbed(n, |data|) <= |data| && Whole(n, k)
    requires chain == Chain(Encrypt, e, n, start, data[..k]) && rest == data[k..]
    ensures Holds(e, n, start, data, chain, rest)
  {
    hide Chain, Absorbed, OnBlocks;
  }

  lemma HoldsNothing(e: BlockFn, n: nat, start: Bytes)
    requires 0 < n == |start| && OnBlocks(e, n)
    ensures Holds(e, n, start, [], start, [])
  {
    CipherLayer.TakeNothing(Decrypt, Paddings.Pkcs7, n, 0);
    DivModUnique(0, n, 0, 0);
  }

  /** A message in two pieces is the message. */
  lemma HoldsExtends(e: BlockFn, n: nat, start: Bytes, data: Bytes, chain: Bytes, rest: Bytes,
                     input: Bytes, chain': Bytes, rest': Bytes)
    requires 0 < n == |start| == |chain| && OnBlocks(e, n)
    requires Holds(e, n, start, data, chain, rest) && Holds(e, n, chain, rest + input, chain', rest')
    ensures Holds(e, n, start, data + input, chain', rest')
  {
    hide Chain, Cbc, Absorbed, OnBlocks, Holds, Whole;
    var k, m := Absorbed(n, |data|), Absorbed(n, |rest + input|);
    HoldsParts(e, n, start, data, chain, rest, k);
    HoldsParts(e, n, chain, rest + input, chain', rest', m);
    AbsorbedBounds(n, |data|);
    AbsorbedSum(n, k, |rest + input|);
    CbcConcat(Encrypt, e, n, start, data[..k], (rest + input)[..m]);
    assert data + input == data[..k] + (rest + input);
    assert (data + input)[..k + m] == data[..k] + (rest + input)[..m];
    assert (data + input)[k + m..] == (rest + input)[m..];
    AbsorbedBounds(n, |data|);
    HoldsIs(e, n, start, data + input, chain', rest', k + m);
  }

  lemma AbsorbedSum(n: nat, k: nat, m: nat)
    requires n > 0 && Whole(n, k) && (m > 0 || k == 0)
    ensures Absorbed(n, k + m) == k + Absorbed(n, m)
  {
    CipherLayer.TakeSum(Decrypt, Paddings.Pkcs7, n, k, m);
  }

  lemma AbsorbedSmall(n: nat, m: nat)
    requires n > 0 && m <= n
    ensures Absorbed(n, m) == 0
  {
    CipherLayer.TakeNothing(Decrypt, Paddings.Pkcs7, n, m);
  }

  /** A block in front of more data. */
  lemma HoldsPrepend(e: BlockFn, n: nat, start: Bytes, b: Bytes, rest: Bytes, chain: Bytes, held: Bytes)
    requires 0 < n == |start| == |b| && OnBlocks(e, n) && rest != []
    requires |e(Xor(start, b))| == n && Holds(e, n, e(Xor(start, b)), rest, chain, held)
    ensures Holds(e, n, start, b + rest, chain, held)
  {
    hide Chain, Cbc, Absorbed, OnBlocks, Holds, Whole, Xor;
    OneBlock(Encrypt, e, n, start, b);
    XorComm(b, start);
    var m := Absorbed(n, |rest|);
    HoldsParts(e, n, e(Xor(start, b)), rest, chain, held, m);
    AbsorbedSum(n, n, |rest|);
    CbcConcat(Encrypt, e, n, start, b, rest[..m]);
    assert (b + rest)[..n + m] == b + rest[..m];
    assert (b + rest)[n + m..] == rest[m..];
    HoldsIs(e, n, start, b + rest, chain, held, n + m);
  }

  /** 10* padding of a last block. */
  function PadLast(n: nat, last: Bytes): (r: Bytes)
    requires |last| < n
    ensures |r| == n
  {
    last + [0x80] + Zeros(n - |last| - 1)
  }

  function Key1(e: BlockFn, n: nat): (r: Bytes)
    requires n > 0 && OnBlocks(e, n)
    ensures |r| == n
  {
    TimesU(n, e(Zeros(n)))
  }

  function Key2(e: BlockFn, n: nat): (r: Bytes)
    requires n > 0 && OnBlocks(e, n)
    ensures |r| == n
  {
    TimesU(n, Key1(e, n))
  }

  /** The last block, made whole and masked. */
  function LastBlock(e: BlockFn, n: nat, rest: Bytes): (r: Bytes)
    requires n > 0 && OnBlocks(e, n) && |rest| <= n
    ensures |r| == n
  {
    if |rest| == n then Xor(rest, Key1(e, n)) else Xor(PadLast(n, rest), Key2(e, n))
  }

  /** The first key is u times the encrypted zero block, the second u times the first. */
  lemma KeysCoeff(e: BlockFn, n: nat, i: nat)
    requires BlockSize(n) && OnBlocks(e, n) && i < 8 * n
    ensures var comesBack := i == 0 || i == 1 || if n == 16 then i == 2 || i == 7 else i == 3 || i == 4;
      && Coeff(n, Key1(e, n), i) ==
           ((i > 0 && Coeff(n, e(Zeros(n)), i - 1)) != (Coeff(n, e(Zeros(n)), 8 * n - 1) && comesBack))
      && Coeff(n, Key2(e, n), i) ==
           ((i > 0 && Coeff(n, Key1(e, n), i - 1)) != (Coeff(n, Key1(e, n), 8 * n - 1) && comesBack))
  {
    hide Coeff, TimesU;
    TimesUCoeff(n, e(Zeros(n)), i);
    TimesUCoeff(n, Key1(e, n), i);
  }

  /**
   * The steps of section 2.4 of RFC 4493: all but the last block are chained; a whole last block is masked
   * with the first key, a missing or partial one is padded with a one bit and zeros and masked with the second.
   */
  lemma MacParts(e: BlockFn, n: nat, msg: Bytes)
    requires BlockSize(n) && OnBlocks(e, n)
    ensures var k := if msg == [] then 0 else (|msg| - 1) / n * n;
      var last := msg[k..];
      && k <= |msg| <= k + n && Whole(n, k)
      && (|last| == n ==> Mac(e, n, msg) == e(Xor(Xor(last, Key1(e, n)), Chain(Encrypt, e, n, Zeros(n), msg[..k]))))
      && (|last| < n ==>
            Mac(e, n, msg) == e(Xor(Xor(last + [0x80] + Zeros(n - |last| - 1), Key2(e, n)),
                                    Chain(Encrypt, e, n, Zeros(n), msg[..k]))))
  {
    hide Xor, Chain, OnBlocks, Key1, Key2, Absorbed;
    AbsorbedBounds(n, |msg|);
    AbsorbedIs(n, |msg|);
  }

  lemma AbsorbedIs(n: nat, len: nat)
    requires BlockSize(n)
    ensures Absorbed(n, len) == if len == 0 then 0 else (len - 1) / n * n
  {
    hide Absorbed;
    BlockCount(len, n, (len + n - 1) / n);
  }

  /** The CMAC of a message: section 2.4 of RFC 4493. */
  ghost function Mac(e: BlockFn, n: nat, msg: Bytes): Bytes
    requires n > 0 && OnBlocks(e, n)
  {
    AbsorbedBounds(n, |msg|);
    var k := Absorbed(n, |msg|);
    e(Xor(LastBlock(e, n, msg[k..]), Chain(Encrypt, e, n, Zeros(n), msg[..k])))
  }

  class CmacContext {
    const e: BlockFn
    const n: nat
    const state: array<bv8>
    const block: array<bv8>
    var held: nat
    ghost var msg: Bytes

    constructor (e: BlockFn, n: nat)
      requires BlockSize(n) && OnBlocks(e, n)
      ensures Shape() && this.e == e && this.n == n && fresh(state) && fresh(block)
    {
      this.e, this.n := e, n;
      state := new bv8[n];
      block := new bv8[n];
    }

    ghost predicate Shape()
      reads this
    {
      BlockSize(n) && OnBlocks(e, n) && state.Length == n && block.Length == n && state != block
    }

    ghost predicate Valid()
      reads this, state, block
    {
      Shape() && held <= n && Holds(e, n, Zeros(n), msg, state[..], block[..held])
    }

    /** Back to the beginning of a message. */
    method Reset()
      requires Shape()
      modifies this`held, this`msg, state, block
      ensures Valid() && msg == []
    {
      hide OnBlocks, Holds;
      held, msg := 0, [];
      Store(block, 0, Zeros(n));
      Store(state, 0, Zeros(n));
      assert state[..] == state[0..n];
      HoldsNothing(e, n, Zeros(n));
      assert block[..0] == [];
    }

    /** state := E(state xor b). */
    method Absorb(src: array<bv8>, i: nat)
      requires Shape() && i + n <= src.Length && src != state
      modifies state
      ensures state[..] == e(Xor(old(state[..]), src[i..i + n])) && |state[..]| == n
    {
      hide OnBlocks, Xor;
      ghost var v, b := state[..], src[i..i + n];
      XorComm(v, b);
      assert state[..] == state[0..n];
      XorInto(state, 0, state, 0, src[i..i + n]);
      CryptBlock(e, n, state, 0, state, 0);
      assert state[..] == state[0..n];
    }

    /** The blocks of the input but the last. */
    method AbsorbBlocks(input: array<bv8>, i0: nat, left0: nat) returns (i: nat, left: nat)
      requires Shape() && i0 + left0 <= input.Length && input !in {state, block}
      modifies state
      ensures left == left0 - Absorbed(n, left0) && i == i0 + Absorbed(n, left0)
      ensures Whole(n, Absorbed(n, left0)) && |state[..]| == n
      ensures state[..] == Chain(Encrypt, e, n, old(state[..]), input[i0..i])
    {
      hide OnBlocks, Chain, Absorbed, Whole;
      ghost var data, v0 := input[i0..i0 + left0], state[..];
      var count := (left0 + n - 1) / n;
      i, left := i0, left0;
      BlockCount(left0, n, count);
      AbsorbedBounds(n, left0);
      ghost var k, all := 0, Absorbed(n, left0);
      assert data[..0] == [];
      StartChain(e, n, v0);
      var j := 1;
      while j < count
        invariant 1 <= j && (j <= count || count == 0) && k == (j - 1) * n && 0 <= k <= all
        invariant left == left0 - k && i == i0 + k && Whole(n, k)
        invariant state[..] == Chain(Encrypt, e, n, v0, data[..k])
      {
        NextTurn(n, j, count);
        SliceSlice(input[..], i0, i0 + left0, k, n);
        AbsorbOne(input, i, v0, data, k);
        left, i := left - n, i + n;
        k := k + n;
        j := j + 1;
      }
      SliceSlice(input[..], i0, i0 + left0, 0, k);
      assert data[..k] == data[0..k];
    }

    method AbsorbOne(input: array<bv8>, i: nat, ghost v0: Bytes, ghost data: Bytes, ghost k: nat)
      requires Shape() && i + n <= input.Length && input !in {state, block} && |v0| == n
      requires Whole(n, k) && k + n <= |data| && input[i..i + n] == data[k..k + n]
      requires state[..] == Chain(Encrypt, e, n, v0, data[..k])
      modifies state
      ensures Whole(n, k + n) && state[..] == Chain(Encrypt, e, n, v0, data[..k + n])
    {
      hide OnBlocks, Chain, Whole, Xor;
      ghost var c := state[..];
      CbcSnoc(Encrypt, e, n, v0, data, k);
      Absorb(input, i);
      XorComm(c, data[k..k + n]);
    }

    /** Copies what is left behind what is held. */
    method HoldMore(input: array<bv8>, i: nat, left: nat)
      requires Shape() && i + left <= input.Length && input !in {state, block} && held + left <= n
      modifies this`held, block
      ensures held == old(held) + left && block[..held] == old(block[..held]) + input[i..i + left]
    {
      hide OnBlocks;
      ghost var h := block[..held];
      if left > 0 {
        CopyInto(block, held, input, i, left);
        held := held + left;
      } else {
        assert h + input[i..i] == h;
      }
    }

    /** The blocks of the input but the last, which joins what is held. */
    method AbsorbRest(input: array<bv8>, i0: nat, left0: nat)
      requires Shape() && i0 + left0 <= input.Length && input !in {state, block}
      requires held == 0 || held + left0 <= n
      modifies this`held, state, block
      ensures held <= n
      ensures Holds(e, n, old(state[..]), old(block[..held]) + input[i0..i0 + left0], state[..], block[..held])
    {
      hide OnBlocks, Chain, Holds, Absorbed, Whole;
      ghost var data, v0, k, h := input[i0..i0 + left0], state[..], Absorbed(n, left0), block[..held];
      AbsorbedBounds(n, left0);
      if left0 <= n { AbsorbedSmall(n, left0); }
      var i, left := AbsorbBlocks(input, i0, left0);
      Pieces(input[..], data, i0, k);
      assert input[i..i + left] == data[k..];
      HoldMore(input, i, left);
      Joined(e, n, v0, h, data, state[..], k);
    }

    /** Takes in more of the message. */
    method Update(input: array<bv8>, ilen: nat)
      requires Valid() && ilen <= input.Length && input !in {state, block}
      modifies this`held, this`msg, state, block
      ensures Valid() && msg == old(msg) + input[..ilen]
    {
      hide OnBlocks, Holds, Absorbed, Xor;
      ghost var v0, h, data := state[..], block[..held], input[..ilen];
      HoldsParts(e, n, Zeros(n), msg, v0, h, Absorbed(n, |msg|));
      if held > 0 && ilen > n - held {
        AbsorbHeld(input, ilen);
      } else {
        AbsorbRest(input, 0, ilen);
        assert input[0..ilen] == data;
      }
      HoldsExtends(e, n, Zeros(n), msg, v0, h, data, state[..], block[..held]);
      msg := msg + data;
    }

    /** Completes the held block from the input, absorbs it, and goes on with the rest. */
    method AbsorbHeld(input: array<bv8>, ilen: nat)
      requires Shape() && held <= n && n - held < ilen <= input.Length && input !in {state, block}
      modifies this`held, state, block
      ensures held <= n
      ensures Holds(e, n, old(state[..]), old(block[..held]) + input[..ilen], state[..], block[..held])
    {
      hide OnBlocks, Holds, Absorbed, Xor;
      ghost var v0, h := state[..], block[..held];
      var c := AbsorbFilled(input);
      ghost var first, rest := h + input[..c], input[c..ilen];
      assert block[..held] == [];
      AbsorbRest(input, c, ilen - c);
      assert [] + rest == rest;
      HoldsPrepend(e, n, v0, first, rest, state[..], block[..held]);
      assert first + rest == h + input[..ilen];
    }

    method AbsorbFilled(input: array<bv8>) returns (c: nat)
      requires Shape() && held <= n && n - held <= input.Length && input !in {state, block}
      modifies this`held, state, block
      ensures c == n - old(held) && held == 0 && |old(block[..held]) + input[..c]| == n == |state[..]|
      ensures state[..] == e(Xor(old(state[..]), old(block[..held]) + input[..c]))
    {
      hide OnBlocks, Xor;
      ghost var h := block[..held];
      c := n - held;
      CopyInto(block, held, input, 0, c);
      assert input[0..c] == input[..c];
      assert block[0..n] == h + input[..c];
      Absorb(block, 0);
      held := 0;
    }

    /** The tag; the context is then ready for another message. */
    method Finish(output: array<bv8>)
      requires Valid() && output.Length >= n && output !in {state, block}
      modifies this`held, this`msg, state, block, output
      ensures output[..n] == Mac(e, n, old(msg)) && output[n..] == old(output[n..])
      ensures Valid() && msg == []
    {
      hide OnBlocks, Holds, Absorbed, Xor, Mac, TimesU, Key1, Key2, LastBlock;
      ghost var v0, rest := state[..], block[..held];
      HoldsParts(e, n, Zeros(n), msg, v0, rest, Absorbed(n, |msg|));
      var k1, k2 := Subkeys();
      var last := new bv8[n];
      if held < n {
        Pad(last, n, block, held);
        assert last[..] == last[0..n];
        XorInto(last, 0, last, 0, k2[..]);
      } else {
        assert block[0..n] == rest;
        XorInto(last, 0, block, 0, k1[..]);
      }
      assert last[0..n] == LastBlock(e, n, rest) by { LastBlockIs(e, n, rest, last[0..n]); }
      Absorb(last, 0);
      MacIs(e, n, msg, v0, rest, state[..]);
      CopyInto(output, 0, state, 0, n);
      assert state[0..n] == state[..] && output[0..n] == output[..n];
      Reset();
    }

    method Subkeys() returns (k1: array<bv8>, k2: array<bv8>)
      requires Shape()
      ensures fresh(k1) && fresh(k2) && k1.Length == k2.Length == n && k1[..] == Key1(e, n) && k2[..] == Key2(e, n)
    {
      hide OnBlocks, TimesU;
      var l := new bv8[n];
      Store(l, 0, Zeros(n));
      assert l[0..n] == Zeros(n);
      CryptBlock(e, n, l, 0, l, 0);
      assert l[..] == l[0..n];
      k1, k2 := new bv8[n], new bv8[n];
      var ok := MultiplyByU(k1, l, n);
      ok := MultiplyByU(k2, k1, n);
    }
  }

  /** The padded last block. */
  method Pad(padded: array<bv8>, n: nat, last: array<bv8>, len: nat)
    requires padded.Length == n == last.Length && len < n && padded != last
    modifies padded
    ensures padded[..] == PadLast(n, last[..len])
  {
    ghost var data := last[..];
    var j := 0;
    while j < n
      invariant 0 <= j <= n && last[..] == data
      invariant forall m :: 0 <= m < j ==> padded[m] == if m < len then data[m] else if m == len then 0x80 else 0
    {
      if j < len {
        padded[j] := last[j];
      } else if j == len {
        padded[j] := 0x80;
      } else {
        padded[j] := 0;
      }
      j := j + 1;
    }
  }

  lemma LastBlockIs(e: BlockFn, n: nat, rest: Bytes, b: Bytes)
    requires n > 0 && OnBlocks(e, n) && |rest| <= n
    requires b == if |rest| == n then Xor(rest, Key1(e, n)) else Xor(PadLast(n, rest), Key2(e, n))
    ensures b == LastBlock(e, n, rest)
  {
    hide Xor, PadLast, Key1, Key2;
  }

  lemma MacIs(e: BlockFn, n: nat, msg: Bytes, chain: Bytes, rest: Bytes, tag: Bytes)
    requires n > 0 && OnBlocks(e, n) && Holds(e, n, Zeros(n), msg, chain, rest) && |chain| == n && |rest| <= n
    requires tag == e(Xor(chain, LastBlock(e, n, rest)))
    ensures tag == Mac(e, n, msg)
  {
    hide Xor, LastBlock, Chain, OnBlocks, Holds, Absorbed;
    HoldsParts(e, n, Zeros(n), msg, chain, rest, Absorbed(n, |msg|));
    XorComm(chain, LastBlock(e, n, rest));
  }

  /** Held bytes and new ones, when either there are none held or nothing is absorbed. */
  lemma Joined(e: BlockFn, n: nat, v: Bytes, h: Bytes, data: Bytes, chain: Bytes, k: nat)
    requires 0 < n == |v| && OnBlocks(e, n) && (h == [] || |h| + |data| <= n)
    requires k == Absorbed(n, |data|) <= |data| && Whole(n, k) && chain == Chain(Encrypt, e, n, v, data[..k])
    requires |data| <= n ==> k == 0
    ensures Holds(e, n, v, h + data, chain, h + data[k..])
  {
    hide Chain, OnBlocks, Holds, Absorbed, Whole;
    if h == [] {
      assert h + data == data && h + data[k..] == data[k..];
      HoldsIs(e, n, v, data, chain, data[k..], k);
    } else {
      AbsorbedSmall(n, |h + data|);
      assert (h + data)[..0] == data[..0] && (h + data)[0..] == h + data[k..];
      HoldsIs(e, n, v, h + data, chain, h + data[k..], 0);
    }
  }

  lemma NextTurn(n: nat, j: nat, count: nat)
    requires 1 <= j < count
    ensures (j - 1) * n + n == j * n <= (count - 1) * n
  {
    MulMono(n, j, count - 1);
    MulComm(n, j);
    MulComm(n, count - 1);
    MulDist(n, j, 1);
    MulComm(n, j - 1);
  }

  /** Rounding up, less one, is what is absorbed. */
  lemma BlockCount(len: nat, n: nat, count: nat)
    requires n > 0 && count == (len + n - 1) / n
    ensures len == 0 ==> count == 0 && Absorbed(n, len) == 0
    ensures len > 0 ==> count >= 1 && (count - 1) * n == Absorbed(n, len)
    ensures 0 <= Absorbed(n, len) <= len && len - Absorbed(n, len) <= n
  {
    AbsorbedBounds(n, len);
    if len == 0 {
      DivModUnique(n - 1, n, 0, n - 1);
    } else {
      var a := Absorbed(n, len);
      WholeTimes(n, a);
      DivModUnique(len + n - 1, n, a / n + 1, len - a - 1);
    }
  }

  lemma WholeTimes(n: nat, a: nat)
    requires Whole(n, a)
    ensures a == (a / n) * n && a + n == (a / n + 1) * n && 0 <= a / n
  {
    DivModProps(a, n);
    MulComm(n, a / n + 1);
    MulDist(n, a / n, 1);
    MulComm(n, a / n);
  }

  lemma StartChain(e: BlockFn, n: nat, v: Bytes)
    requires 0 < n == |v| && OnBlocks(e, n)
    ensures Whole(n, 0) && Chain(Encrypt, e, n, v, []) == v
  {
    DivModUnique(0, n, 0, 0);
  }

  /** Any pieces of a message give its CMAC. */
  method MacOf(e: BlockFn, n: nat, pieces: seq<Bytes>) returns (tag: Bytes)
    requires BlockSize(n) && OnBlocks(e, n)
    ensures tag == Mac(e, n, Flat(pieces))
  {
    hide OnBlocks, Holds, Mac;
    var ctx := new CmacContext(e, n);
    ctx.Reset();
    var i := 0;
    while i < |pieces|
      invariant 0 <= i <= |pieces| && ctx.Valid() && ctx.msg == Flat(pieces[..i])
    {
      var len := |pieces[i]|;
      var buf := new bv8[len](j requires 0 <= j < len => pieces[i][j]);
      assert buf[..len] == pieces[i];
      ctx.Update(buf, len);
      FlatStep(pieces, i);
      i := i + 1;
    }
    assert pieces[..i] == pieces;
    var out := new bv8[n];
    ctx.Finish(out);
    tag := out[..n];
  }
}
