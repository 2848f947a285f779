/**
 * Cipher block chaining over an arbitrary block function: what a run computes, that runs compose,
 * and that decryption takes back encryption.
 */
module CbcMode {
  import opened Numbers
  import opened Blocks

  // ------------------------------------------------------------------ CBC

  /** A whole number of blocks. */
  ghost predicate Whole(n: nat, len: int) {
    n > 0 && len >= 0 && len % n == 0
  }

  lemma WholeLess(n: nat, len: nat)
    requires Whole(n, len) && len > 0
    ensures len >= n && Whole(n, len - n)
  {
    DivModProps(len, n);
    assert len == (len / n) * n;
    if len / n <= 0 { MulComm(len / n, n); MulMono(n, len / n, 0); }
    MulComm(len / n, n);
    MulDist(n, len / n, 1);
    MulMono(n, 1, len / n);
    MulComm(n, len / n - 1);
    DivModUnique(len - n, n, len / n - 1, 0);
  }

  lemma WholeSum(n: nat, a: nat, b: nat)
    requires Whole(n, a)
    ensures Whole(n, a + b) <==> Whole(n, b)
    ensures (a + b) % n == b % n
  {
    DivModProps(a, n);
    DivModProps(b, n);
    MulComm(a / n, n);
    MulComm(b / n, n);
    MulDist(n, a / n, b / n);
    MulComm(n, a / n + b / n);
    DivModUnique(a + b, n, a / n + b / n, b % n);
  }

  /** One block under a chaining value. */
  function CbcBlock(op: Operation, f: BlockFn, iv: Bytes, b: Bytes): (r: Bytes)
    requires |iv| == |b| && OnBlocks(f, |b|)
    ensures |r| == |b|
  {
    if op.Encrypt? then f(Xor(b, iv)) else Xor(f(b), iv)
  }

  /** The chaining value after a block. */
  function ChainBlock(op: Operation, f: BlockFn, iv: Bytes, b: Bytes): (r: Bytes)
    requires |iv| == |b| && OnBlocks(f, |b|)
    ensures |r| == |b|
  {
    if op.Encrypt? then CbcBlock(op, f, iv, b) else b
  }

  ghost function Cbc(op: Operation, f: BlockFn, n: nat, iv: Bytes, data: Bytes): (r: Bytes)
    requires |iv| == n && Whole(n, |data|) && OnBlocks(f, n)
    ensures |r| == |data|
    decreases |data|
  {
    if data == [] then []
    else
      WholeLess(n, |data|);
      CbcBlock(op, f, iv, data[..n]) + Cbc(op, f, n, ChainBlock(op, f, iv, data[..n]), data[n..])
  }

  ghost function Chain(op: Operation, f: BlockFn, n: nat, iv: Bytes, data: Bytes): (r: Bytes)
    requires |iv| == n && Whole(n, |data|) && OnBlocks(f, n)
    ensures |r| == n
    decreases |data|
  {
    if data == [] then iv
    else
      WholeLess(n, |data|);
      Chain(op, f, n, ChainBlock(op, f, iv, data[..n]), data[n..])
  }

  /** Two runs in sequence are one run. */
  lemma {:induction false} CbcConcat(op: Operation, f: BlockFn, n: nat, iv: Bytes, a: Bytes, b: Bytes)
    requires |iv| == n && Whole(n, |a|) && Whole(n, |b|) && OnBlocks(f, n)
    ensures Whole(n, |a + b|)
    ensures Cbc(op, f, n, iv, a + b) == Cbc(op, f, n, iv, a) + Cbc(op, f, n, Chain(op, f, n, iv, a), b)
    ensures Chain(op, f, n, iv, a + b) == Chain(op, f, n, Chain(op, f, n, iv, a), b)
    decreases |a|
  {
    hide CbcBlock, ChainBlock;
    WholeSum(n, |a|, |b|);
    if a == [] {
      assert a + b == b;
    } else {
      WholeLess(n, |a|);
      assert (a + b)[..n] == a[..n] && (a + b)[n..] == a[n..] + b;
      CbcConcat(op, f, n, ChainBlock(op, f, iv, a[..n]), a[n..], b);
    }
  }

  /** Decryption takes back encryption. */
  lemma {:induction false} CbcRoundTrip(f: BlockFn, g: BlockFn, n: nat, iv: Bytes, data: Bytes)
    requires |iv| == n && Whole(n, |data|) && OnBlocks(f, n) && OnBlocks(g, n) && Undoes(g, f, n)
    ensures Cbc(Decrypt, g, n, iv, Cbc(Encrypt, f, n, iv, data)) == data
    decreases |data|
  {
    hide Xor;
    if data != [] {
      WholeLess(n, |data|);
      var c := CbcBlock(Encrypt, f, iv, data[..n]);
      var rest := Cbc(Encrypt, f, n, c, data[n..]);
      assert (c + rest)[..n] == c && (c + rest)[n..] == rest;
      CbcRoundTrip(f, g, n, c, data[n..]);
      XorCancel(data[..n], iv);
    }
  }

  /** The chaining value after the data is the last block of ciphertext. */
  lemma {:induction false} ChainLast(op: Operation, f: BlockFn, n: nat, iv: Bytes, data: Bytes)
    requires |iv| == n && Whole(n, |data|) && OnBlocks(f, n)
    ensures data == [] ==> Chain(op, f, n, iv, data) == iv
    ensures data != [] ==> |data| >= n
    ensures data != [] ==>
      Chain(op, f, n, iv, data) ==
      if op.Encrypt? then Cbc(op, f, n, iv, data)[|data| - n..] else data[|data| - n..]
    decreases |data|
  {
    hide CbcBlock;
    if data != [] {
      WholeLess(n, |data|);
      var v, rest := ChainBlock(op, f, iv, data[..n]), data[n..];
      ChainLast(op, f, n, v, rest);
      if rest == [] {
        assert Cbc(op, f, n, iv, data) == CbcBlock(op, f, iv, data[..n]) + [];
      }
    }
  }

  lemma OneBlock(op: Operation, f: BlockFn, n: nat, iv: Bytes, b: Bytes)
    requires n > 0 && |iv| == n == |b| && OnBlocks(f, n)
    ensures Whole(n, |b|) && Cbc(op, f, n, iv, b) == CbcBlock(op, f, iv, b)
    ensures Chain(op, f, n, iv, b) == ChainBlock(op, f, iv, b)
  {
    hide CbcBlock, ChainBlock;
    DivModUnique(n, n, 1, 0);
    DivModUnique(0, n, 0, 0);
    assert b[..n] == b && b[n..] == [];
  }

  /** One block: output[o..o + n] from input[i..i + n], and the next chaining value. */
  method CryptOne(op: Operation, f: BlockFn, n: nat, iv: array<bv8>, input: array<bv8>, i: nat, output: array<bv8>, o: nat)
    requires iv.Length == n && i + n <= input.Length && o + n <= output.Length && OnBlocks(f, n)
    requires iv != input && iv != output && (input == output ==> i == o)
    modifies iv, output
    ensures output[o..o + n] == CbcBlock(op, f, old(iv[..]), old(input[i..i + n]))
    ensures iv[..] == ChainBlock(op, f, old(iv[..]), old(input[i..i + n]))
    ensures output[..o] == old(output[..o]) && output[o + n..] == old(output[o + n..])
  {
    hide Xor, OnBlocks;
    ghost var b, v := input[i..i + n], iv[..];
    if op.Decrypt? {
      var temp := input[i..i + n];
      OnBlock(f, n, b);
      CryptBlock(f, n, input, i, output, o);
      XorInto(output, o, output, o, iv[..]);
      Store(iv, 0, temp);
      assert iv[..] == iv[0..n];
    } else {
      XorInto(output, o, input, i, iv[..]);
      CryptBlock(f, n, output, o, output, o);
      CopyInto(iv, 0, output, o, n);
      assert iv[..] == iv[0..n];
    }
  }

  lemma CbcSnoc(op: Operation, f: BlockFn, n: nat, iv: Bytes, data: Bytes, k: nat)
    requires |iv| == n && Whole(n, k) && k + n <= |data| && OnBlocks(f, n)
    ensures Whole(n, k + n)
    ensures var c := Chain(op, f, n, iv, data[..k]);
      && Cbc(op, f, n, iv, data[..k + n]) == Cbc(op, f, n, iv, data[..k]) + CbcBlock(op, f, c, data[k..k + n])
      && Chain(op, f, n, iv, data[..k + n]) == ChainBlock(op, f, c, data[k..k + n])
  {
    hide CbcBlock, ChainBlock, Cbc, Chain;
    OneBlock(op, f, n, Chain(op, f, n, iv, data[..k]), data[k..k + n]);
    CbcConcat(op, f, n, iv, data[..k], data[k..k + n]);
    assert data[..k] + data[k..k + n] == data[..k + n];
  }

  /**
   * Block k / n of the result: data and the block of ciphertext before it, or the initial value, combined
   * before the block function to encrypt and after it to decrypt.
   */
  lemma CbcAt(op: Operation, f: BlockFn, n: nat, iv: Bytes, data: Bytes, k: nat)
    requires |iv| == n && Whole(n, |data|) && Whole(n, k) && k + n <= |data| && OnBlocks(f, n)
    ensures var out, b := Cbc(op, f, n, iv, data), data[k..k + n];
      var before := if k < n then iv else if op.Encrypt? then out[k - n..k] else data[k - n..k];
      out[k..k + n] == if op.Encrypt? then f(Xor(b, before)) else Xor(f(b), before)
  {
    hide Xor, Whole, Cbc, Chain, OnBlocks;
    CbcMiddle(op, f, n, iv, data, k);
    ChainLast(op, f, n, iv, data[..k]);
    var front, chain := Cbc(op, f, n, iv, data[..k]), Chain(op, f, n, iv, data[..k]);
    InTheMiddle(front, CbcBlock(op, f, chain, data[k..k + n]),
                Cbc(op, f, n, Chain(op, f, n, iv, data[..k + n]), data[k + n..]), n);
    if k > 0 {
      assert data[..k] != [];
      Tails(data[..k], k - n, n);
      assert data[..k][k - n..] == data[k - n..k];
    }
  }

  lemma CbcMiddle(op: Operation, f: BlockFn, n: nat, iv: Bytes, data: Bytes, k: nat)
    requires |iv| == n && Whole(n, |data|) && Whole(n, k) && k + n <= |data| && OnBlocks(f, n)
    ensures Whole(n, k + n) && Whole(n, |data| - (k + n))
    ensures Cbc(op, f, n, iv, data) ==
      Cbc(op, f, n, iv, data[..k]) + CbcBlock(op, f, Chain(op, f, n, iv, data[..k]), data[k..k + n])
      + Cbc(op, f, n, Chain(op, f, n, iv, data[..k + n]), data[k + n..])
  {
    hide Xor, Cbc, Chain, OnBlocks, CbcBlock, Whole;
    CbcSnoc(op, f, n, iv, data, k);
    WholeSum(n, k + n, |data| - (k + n));
    CbcConcat(op, f, n, iv, data[..k + n], data[k + n..]);
    assert data[..k + n] + data[k + n..] == data;
  }

  lemma InTheMiddle(a: Bytes, b: Bytes, c: Bytes, n: nat)
    ensures (a + b + c)[|a|..|a| + |b|] == b
    ensures |a| >= n ==> (a + b + c)[|a| - n..|a|] == a[|a| - n..]
  {
  }

  /** The first k bytes of the data are done. */
  ghost predicate CbcDone(op: Operation, f: BlockFn, n: nat, v0: Bytes, data: Bytes, k: nat, done: Bytes, chain: Bytes)
    requires |v0| == n && OnBlocks(f, n)
  {
    k <= |data| && Whole(n, k) && done == Cbc(op, f, n, v0, data[..k]) && chain == Chain(op, f, n, v0, data[..k])
  }

  lemma CbcStart(op: Operation, f: BlockFn, n: nat, v0: Bytes, data: Bytes)
    requires n > 0 && |v0| == n && OnBlocks(f, n)
    ensures CbcDone(op, f, n, v0, data, 0, [], v0)
  {
    DivModUnique(0, n, 0, 0);
  }

  lemma CbcEnd(op: Operation, f: BlockFn, n: nat, v0: Bytes, data: Bytes, done: Bytes, chain: Bytes)
    requires |v0| == n && OnBlocks(f, n) && CbcDone(op, f, n, v0, data, |data|, done, chain)
    ensures Whole(n, |data|) && done == Cbc(op, f, n, v0, data) && chain == Chain(op, f, n, v0, data)
  {
    hide Cbc, Chain;
    assert data[..|data|] == data;
  }

  /** CBC over a buffer; the chaining value is carried in iv. */
  method CryptCbc(op: Operation, f: BlockFn, n: nat, length: nat, iv: array<bv8>,
                  input: array<bv8>, i0: nat, output: array<bv8>, o0: nat)
    returns (ok: bool)
    requires n > 0 && iv.Length == n && i0 + length <= input.Length && OnBlocks(f, n)
    requires o0 + length <= output.Length
    requires iv != input && iv != output && (input == output ==> i0 == o0)
    modifies iv, output
    ensures ok == (length % n == 0)
    ensures ok ==> output[o0..o0 + length] == Cbc(op, f, n, old(iv[..]), old(input[i0..i0 + length]))
    ensures ok ==> iv[..] == Chain(op, f, n, old(iv[..]), old(input[i0..i0 + length]))
    ensures output[..o0] == old(output[..o0]) && output[o0 + length..] == old(output[o0..])[length..]
    ensures !ok ==> iv[..] == old(iv[..]) && output[..] == old(output[..])
  {
    if length % n != 0 { return false; }
    CbcLoop(op, f, n, length, iv, input, i0, output, o0);
    return true;
  }

  method CbcLoop(op: Operation, f: BlockFn, n: nat, length: nat, iv: array<bv8>,
                 input: array<bv8>, i0: nat, output: array<bv8>, o0: nat)
    requires iv.Length == n && i0 + length <= input.Length && o0 + length <= output.Length
    requires n > 0 && Whole(n, length) && OnBlocks(f, n)
    requires iv != input && iv != output && (input == output ==> i0 == o0)
    modifies iv, output
    ensures output[o0..o0 + length] == Cbc(op, f, n, old(iv[..]), old(input[i0..i0 + length]))
    ensures iv[..] == Chain(op, f, n, old(iv[..]), old(input[i0..i0 + length]))
    ensures output[..o0] == old(output[..o0]) && output[o0 + length..] == old(output[o0..])[length..]
  {
    hide Cbc, Chain, CbcDone, OnBlocks, Whole;
    ghost var data, v0 := input[i0..i0 + length], iv[..];
    ghost var inp, head, tail, done: Bytes := input[..], output[..o0], output[o0..], [];
    CbcStart(op, f, n, v0, data);
    assert output[..] == head + done + tail[0..];
    var left := length;
    while left > 0
      invariant 0 <= left && left + |done| == length && Whole(n, left)
      invariant output[..] == head + done + tail[|done|..]
      invariant input != output ==> input[..] == inp
      invariant CbcDone(op, f, n, v0, data, |done|, done, iv[..])
    {
      WholeLess(n, left);
      done := CbcTurn(op, f, n, iv, input, i0 + (length - left), output, o0 + (length - left),
                      v0, data, head, tail, inp, done);
      left := left - n;
    }
    CbcEnd(op, f, n, v0, data, done, iv[..]);
    Finished(output[..], head, done, tail);
  }

  /** One turn of the loop. */
  method CbcTurn(op: Operation, f: BlockFn, n: nat, iv: array<bv8>, input: array<bv8>, i: nat, output: array<bv8>, o: nat,
                 ghost v0: Bytes, ghost data: Bytes, ghost head: Bytes, ghost tail: Bytes, ghost inp: Bytes, ghost done: Bytes)
    returns (ghost done': Bytes)
    requires iv.Length == n == |v0| && i + n <= input.Length && o + n <= output.Length && OnBlocks(f, n)
    requires iv != input && iv != output && (input == output ==> i == o)
    requires |done| <= i && o == |head| + |done| && |done| + n <= |data| <= |tail|
    requires i - |done| + |data| <= |inp| && data == inp[i - |done|..i - |done| + |data|]
    requires output[..] == head + done + tail[|done|..] && CbcDone(op, f, n, v0, data, |done|, done, iv[..])
    requires if input == output then inp == head + tail else input[..] == inp
    modifies iv, output
    ensures |done'| == |done| + n && output[..] == head + done' + tail[|done'|..]
    ensures CbcDone(op, f, n, v0, data, |done'|, done', iv[..])
    ensures input != output ==> input[..] == inp
  {
    hide Cbc, Chain, CbcDone, OnBlocks, CbcBlock, ChainBlock;
    ghost var k := |done|;
    Unread(input[..], output[..], head, done, tail, inp, data, i - k, |head|, k, n, input == output);
    ghost var before, c := output[..], iv[..];
    CryptOne(op, f, n, iv, input, i, output, o);
    CbcMore(op, f, n, v0, data, k, done, c, iv[..], output[o..o + n]);
    Spliced(before, output[..], head, done, tail, k, n);
    done' := done + output[o..o + n];
  }

  /** The next block of the input has not been overwritten yet. */
  lemma Unread(inNow: Bytes, outNow: Bytes, head: Bytes, done: Bytes, tail: Bytes, inp: Bytes, data: Bytes,
               i0: nat, o0: nat, k: nat, n: nat, same: bool)
    requires |head| == o0 && |done| == k && k + n <= |data| <= |tail| && outNow == head + done + tail[k..]
    requires i0 + |data| <= |inp| && data == inp[i0..i0 + |data|]
    requires if same then i0 == o0 && inNow == outNow && inp == head + tail else inNow == inp
    ensures i0 + k + n <= |inNow| && inNow[i0 + k..i0 + k + n] == data[k..k + n]
  {
    if same {
      assert data == tail[..|data|];
      assert inNow[|head + done|..] == tail[k..];
      assert inNow[i0 + k..i0 + k + n] == tail[k..][..n];
      SliceSlice(tail, k, |tail|, 0, n);
      SliceSlice(tail, 0, |data|, k, n);
    } else {
      SliceSlice(inp, i0, i0 + |data|, k, n);
    }
  }

  lemma Finished(out: Bytes, head: Bytes, done: Bytes, tail: Bytes)
    requires |done| <= |tail| && out == head + done + tail[|done|..]
    ensures out[..|head|] == head && out[|head|..|head| + |done|] == done
    ensures out[|head| + |done|..] == tail[|done|..]
  {
  }

  lemma Spliced(before: Bytes, after: Bytes, head: Bytes, done: Bytes, tail: Bytes, k: nat, n: nat)
    requires |done| == k && k + n <= |tail| && before == head + done + tail[k..] && |after| == |before|
    requires after[..|head| + k] == before[..|head| + k] && after[|head| + k + n..] == before[|head| + k + n..]
    ensures after == head + (done + after[|head| + k..|head| + k + n]) + tail[k + n..]
  {
    assert before[..|head| + k] == head + done;
    assert before[|head| + k + n..] == tail[k + n..];
  }

  /** One block more is done. */
  lemma CbcMore(op: Operation, f: BlockFn, n: nat, v0: Bytes, data: Bytes, k: nat, done: Bytes,
                c: Bytes, chain: Bytes, block: Bytes)
    requires |v0| == n == |c| && OnBlocks(f, n) && k + n <= |data| && CbcDone(op, f, n, v0, data, k, done, c)
    requires block == CbcBlock(op, f, c, data[k..k + n]) && chain == ChainBlock(op, f, c, data[k..k + n])
    ensures CbcDone(op, f, n, v0, data, k + n, done + block, chain)
  {
    hide Cbc, Chain, CbcBlock, ChainBlock;
    CbcSnoc(op, f, n, v0, data, k);
  }
}
