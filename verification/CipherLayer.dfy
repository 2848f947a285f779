/**
 * The streaming cipher layer in CBC mode.  Data arrives in pieces of any size, is cached to block
 * boundaries, and the last block is padded or unpadded.
 */
module CipherLayer {
  import opened Numbers
  import opened Blocks
  import opened Paddings
  import opened CbcMode

  datatype Status = Ok | BadInput | FullBlockExpected | InvalidPadding

  /** Decryption with padding holds a whole block back: it may turn out to be the last. */
  predicate KeepsLast(op: Operation, pad: Padding) {
    op.Decrypt? && !pad.NoPadding?
  }

  /** How much of total bytes of data is processed before the end is known. */
  function Take(op: Operation, pad: Padding, n: nat, total: nat): int
    requires n > 0
  {
    if KeepsLast(op, pad) && total % n == 0 && total > 0 then total - n else total - total % n
  }

  lemma TakeBounds(op: Operation, pad: Padding, n: nat, total: nat)
    requires n > 0
    ensures Whole(n, Take(op, pad, n, total)) && 0 <= Take(op, pad, n, total) <= total
    ensures total - Take(op, pad, n, total) <= n
    ensures total - Take(op, pad, n, total) == n ==> KeepsLast(op, pad)
    ensures KeepsLast(op, pad) && total > 0 ==> Take(op, pad, n, total) < total
  {
    DivModProps(total, n);
    var q := total / n;
    assert total == q * n + total % n;
    DivModUnique(q * n, n, q, 0);
    if total % n == 0 && total > 0 {
      WholeLess(n, total);
    }
  }

  /** Whole blocks in front do not matter. */
  lemma TakeSum(op: Operation, pad: Padding, n: nat, k: nat, m: nat)
    requires n > 0 && Whole(n, k) && (m > 0 || k == 0 || !KeepsLast(op, pad))
    ensures Take(op, pad, n, k + m) == k + Take(op, pad, n, m)
  {
    WholeSum(n, k, m);
  }

  /** Small amounts of data are only cached. */
  lemma TakeNothing(op: Operation, pad: Padding, n: nat, total: nat)
    requires n > 0
    requires if KeepsLast(op, pad) then total <= n else total < n
    ensures Take(op, pad, n, total) == 0
  {
    if total < n { DivModUnique(total, n, 0, total); } else { DivModUnique(n, n, 1, 0); }
  }

  lemma TakeOneMore(op: Operation, pad: Padding, n: nat, m: nat)
    requires n > 0 && (KeepsLast(op, pad) ==> m > 0)
    ensures Take(op, pad, n, n + m) == n + Take(op, pad, n, m)
  {
    DivModUnique(n, n, 1, 0);
    TakeSum(op, pad, n, n, m);
  }

  /** What the layer makes of whole data: output so far, chaining value, cache. */
  ghost predicate State(op: Operation, pad: Padding, f: BlockFn, n: nat, start: Bytes, data: Bytes,
                        out: Bytes, chain: Bytes, cache: Bytes)
    requires 0 < n == |start| && OnBlocks(f, n)
  {
    TakeBounds(op, pad, n, |data|);
    var k := Take(op, pad, n, |data|);
    out == Cbc(op, f, n, start, data[..k]) && chain == Chain(op, f, n, start, data[..k]) && cache == data[k..]
  }

  /** Data in two pieces, the cache carried over, is the data in one. */
  lemma StateExtends(op: Operation, pad: Padding, f: BlockFn, n: nat, start: Bytes, data: Bytes, out: Bytes,
                     chain: Bytes, cache: Bytes, input: Bytes, out': Bytes, chain': Bytes, cache': Bytes)
    requires 0 < n == |start| && |chain| == n && OnBlocks(f, n)
    requires State(op, pad, f, n, start, data, out, chain, cache)
    requires State(op, pad, f, n, chain, cache + input, out', chain', cache')
    ensures State(op, pad, f, n, start, data + input, out + out', chain', cache')
  {
    hide Cbc, Chain;
    TakeBounds(op, pad, n, |data|);
    TakeBounds(op, pad, n, |cache + input|);
    TakeBounds(op, pad, n, |data + input|);
    var k, m := Take(op, pad, n, |data|), Take(op, pad, n, |cache + input|);
    TakeSum(op, pad, n, k, |cache + input|);
    assert data + input == data[..k] + (cache + input);
    CbcConcat(op, f, n, start, data[..k], (cache + input)[..m]);
    assert (data + input)[..k + m] == data[..k] + (cache + input)[..m];
    assert (data + input)[k + m..] == (cache + input)[m..];
  }

  /** Nothing seen yet. */
  lemma StateStart(op: Operation, pad: Padding, f: BlockFn, n: nat, start: Bytes)
    requires 0 < n == |start| && OnBlocks(f, n)
    ensures State(op, pad, f, n, start, [], [], start, [])
  {
    TakeNothing(op, pad, n, 0);
  }

  /** A block in front. */
  lemma StatePrepend(op: Operation, pad: Padding, f: BlockFn, n: nat, start: Bytes, b: Bytes, rest: Bytes,
                     out: Bytes, chain: Bytes, cache: Bytes)
    requires 0 < n == |start| == |b| && OnBlocks(f, n) && (KeepsLast(op, pad) ==> rest != [])
    requires State(op, pad, f, n, Chain(op, f, n, start, b), rest, out, chain, cache)
    ensures Whole(n, |b|) && State(op, pad, f, n, start, b + rest, Cbc(op, f, n, start, b) + out, chain, cache)
  {
    hide Cbc, Chain, Whole, Take, KeepsLast, State, OnBlocks;
    OneBlock(op, f, n, start, b);
    TakeBounds(op, pad, n, |rest|);
    TakeBounds(op, pad, n, |b + rest|);
    TakeOneMore(op, pad, n, |rest|);
    var m := Take(op, pad, n, |rest|);
    StateParts(op, pad, f, n, Chain(op, f, n, start, b), rest, out, chain, cache, m);
    CbcConcat(op, f, n, start, b, rest[..m]);
    assert (b + rest)[0..n + m] == b + rest[..m];
    assert (b + rest)[n + m..|b + rest|] == rest[m..];
    StateIs(op, pad, f, n, start, b + rest, Cbc(op, f, n, start, b) + out, chain, cache, n + m);
  }

  lemma StateParts(op: Operation, pad: Padding, f: BlockFn, n: nat, start: Bytes, data: Bytes,
                   out: Bytes, chain: Bytes, cache: Bytes, k: nat)
    requires 0 < n == |start| && OnBlocks(f, n) && k == Take(op, pad, n, |data|)
    requires State(op, pad, f, n, start, data, out, chain, cache)
    ensures k <= |data| && Whole(n, k) && cache == data[k..]
    ensures out == Cbc(op, f, n, start, data[..k]) && chain == Chain(op, f, n, start, data[..k])
  {
    hide Cbc, Chain, Take, OnBlocks;
    TakeBounds(op, pad, n, |data|);
  }

  /** Only cached. */
  lemma StateCached(op: Operation, pad: Padding, f: BlockFn, n: nat, start: Bytes, data: Bytes)
    requires 0 < n == |start| && OnBlocks(f, n)
    requires if KeepsLast(op, pad) then |data| <= n else |data| < n
    ensures State(op, pad, f, n, start, data, [], start, data)
  {
    TakeNothing(op, pad, n, |data|);
    assert data[..0] == [] && data[0..] == data;
    DivModUnique(0, n, 0, 0);
  }

  /** A cipher context in CBC mode. */
  class CipherContext {
    const op: Operation
    const pad: Padding
    const n: nat
    const f: BlockFn
    const iv: array<bv8>
    const cache: array<bv8>
    var cached: nat
    /** The chaining value of the message, its bytes so far, and what has been output for them. */
    ghost var start: Bytes
    ghost var consumed: Bytes
    ghost var produced: Bytes

    constructor (op: Operation, pad: Padding, n: nat, f: BlockFn)
      requires 0 < n < 256 && OnBlocks(f, n)
      ensures Shape() && fresh(iv) && fresh(cache)
      ensures this.op == op && this.pad == pad && this.n == n && this.f == f
    {
      this.op, this.pad, this.n, this.f := op, pad, n, f;
      iv := new bv8[n];
      cache := new bv8[n];
    }

    /** A new message: its initial chaining value, nothing cached. */
    method Begin(v: Bytes)
      requires Shape() && |v| == n
      modifies this, iv
      ensures Valid() && start == v && consumed == [] && produced == []
    {
      hide State, OnBlocks;
      Store(iv, 0, v);
      assert iv[..] == iv[0..n];
      cached := 0;
      start, consumed, produced := v, [], [];
      StateStart(op, pad, f, n, v);
      assert cache[..0] == [];
    }

    ghost predicate Shape()
      reads this
    {
      0 < n < 256 && iv.Length == n && cache.Length == n && iv != cache && OnBlocks(f, n)
    }

    ghost predicate Valid()
      reads this, iv, cache
    {
      && Shape() && |start| == n && cached <= n && (cached == n ==> KeepsLast(op, pad))
      && State(op, pad, f, n, start, consumed, produced, iv[..], cache[..cached])
    }

    /** The part of update that follows the cached block: caches the tail, processes the rest. */
    method ProcessRest(input: array<bv8>, i: nat, left0: nat, output: array<bv8>, o: nat) returns (olen: nat)
      requires Shape() && cached == 0 && i + left0 <= input.Length
      requires o + Take(op, pad, n, left0) <= output.Length
      requires {input, output} !! {iv, cache} && (input == output ==> i == o)
      modifies this`cached, iv, cache, output
      ensures olen == Take(op, pad, n, left0) && cached == left0 - olen
      ensures cached <= n && (cached == n ==> KeepsLast(op, pad)) && o + olen <= output.Length
      ensures output[..o] == old(output[..o]) && output[o + olen..] == old(output[o..])[olen..]
      ensures State(op, pad, f, n, old(iv[..]), old(input[i..i + left0]), output[o..o + olen], iv[..], cache[..cached])
    {
      hide Cbc, Chain, OnBlocks, State, Take, Whole, KeepsLast;
      ghost var data, v0 := input[i..i + left0], iv[..];
      TakeBounds(op, pad, n, left0);
      var left := CacheTail(input, i, left0);
      Pieces(input[..], data, i, left);
      olen := 0;
      EmptyRun(op, f, n, v0);
      assert output[o..o] == [];
      if left != 0 {
        var ok := CryptCbc(op, f, n, left, iv, input, i, output, o);
        olen := olen + left;
      }
      StateIs(op, pad, f, n, v0, data, output[o..o + olen], iv[..], cache[..cached], olen);
    }

    /** Caches what must wait; tells how much is left to process. */
    method CacheTail(input: array<bv8>, i: nat, left0: nat) returns (left: nat)
      requires Shape() && cached == 0 && i + left0 <= input.Length
      requires input != cache
      modifies this`cached, cache
      ensures left == Take(op, pad, n, left0) <= left0 && cached == left0 - left <= n
      ensures cached == n ==> KeepsLast(op, pad)
      ensures cache[..cached] == input[i + left..i + left0]
    {
      hide OnBlocks;
      TakeBounds(op, pad, n, left0);
      left := left0;
      if left != 0 {
        var copyLen := left % n;
        if copyLen == 0 && op.Decrypt? && !pad.NoPadding? { copyLen := n; }
        CopyInto(cache, 0, input, i + left - copyLen, copyLen);
        cached := cached + copyLen;
        left := left - copyLen;
      } else {
        TakeNothing(op, pad, n, 0);
      }
    }

    /** Completes the cached block from the input and processes it. */
    method FlushCache(input: array<bv8>, output: array<bv8>) returns (copyLen: nat)
      requires Shape() && cached <= n && n - cached <= input.Length && n <= output.Length
      requires input != output && {input, output} !! {iv, cache}
      modifies this`cached, iv, cache, output
      ensures copyLen == n - old(cached) && cached == 0
      ensures |old(cache[..cached]) + input[..copyLen]| == n && Whole(n, n)
      ensures output[..n] == Cbc(op, f, n, old(iv[..]), old(cache[..cached]) + input[..copyLen])
      ensures iv[..] == Chain(op, f, n, old(iv[..]), old(cache[..cached]) + input[..copyLen])
      ensures output[n..] == old(output[n..])
    {
      hide Cbc, Chain, OnBlocks;
      ghost var held := cache[..cached];
      copyLen := n - cached;
      CopyInto(cache, cached, input, 0, copyLen);
      assert cache[0..n] == cache[..cached] + cache[cached..cached + copyLen];
      assert input[0..copyLen] == input[..copyLen];
      DivModUnique(n, n, 1, 0);
      var ok := CryptCbc(op, f, n, n, iv, cache, 0, output, 0);
      assert output[0..n] == output[..n];
      assert output[n..] == output[0..][n..];
      cached := 0;
    }

    /** Takes in more data; outputs what can already be processed. */
    method Update(input: array<bv8>, ilen: nat, output: array<bv8>) returns (ret: Status, olen: nat)
      requires Valid() && ilen <= input.Length && Take(op, pad, n, cached + ilen) <= output.Length
      requires {input, output} !! {iv, cache}
      modifies this, iv, cache, output
      ensures Valid() && start == old(start)
      ensures ret == if input == output && (old(cached) != 0 || ilen % n != 0) then BadInput else Ok
      ensures ret == Ok ==> olen == Take(op, pad, n, old(cached) + ilen)
      ensures ret == Ok ==> consumed == old(consumed) + old(input[..ilen])
      ensures ret == Ok ==> produced == old(produced) + output[..olen]
      ensures ret != Ok ==> olen == 0 && consumed == old(consumed) && produced == old(produced)
      ensures output[olen..] == old(output[..])[olen..]
    {
      hide State, OnBlocks, Take, Cbc, Chain;
      ghost var held, v0, data := cache[..cached], iv[..], input[..ilen];
      olen := 0;
      if input == output && (cached != 0 || ilen % n != 0) { return BadInput, 0; }
      olen := UpdateData(input, ilen, output);
      StateExtends(op, pad, f, n, start, consumed, produced, v0, held, data, output[..olen], iv[..], cache[..cached]);
      consumed := consumed + data;
      produced := produced + output[..olen];
      return Ok, olen;
    }

    /** Caches the data, or completes the cached block and goes on. */
    method UpdateData(input: array<bv8>, ilen: nat, output: array<bv8>) returns (olen: nat)
      requires Shape() && cached <= n && ilen <= input.Length && Take(op, pad, n, cached + ilen) <= output.Length
      requires {input, output} !! {iv, cache} && (input == output ==> cached == 0)
      requires cached == n ==> KeepsLast(op, pad)
      modifies this`cached, iv, cache, output
      ensures olen == Take(op, pad, n, old(cached) + ilen) <= output.Length
      ensures cached <= n && (cached == n ==> KeepsLast(op, pad))
      ensures output[olen..] == old(output[..])[olen..]
      ensures State(op, pad, f, n, old(iv[..]), old(cache[..cached]) + old(input[..ilen]),
                    output[..olen], iv[..], cache[..cached])
    {
      hide State, OnBlocks, Take, Cbc, Chain;
      if (op.Decrypt? && !pad.NoPadding? && ilen <= n - cached)
         || (op.Decrypt? && pad.NoPadding? && ilen < n - cached)
         || (op.Encrypt? && ilen < n - cached)
      {
        CacheOnly(input, ilen);
        olen := 0;
        assert output[..0] == [];
      } else {
        olen := UpdateBlocks(input, ilen, output);
      }
    }

    method CacheOnly(input: array<bv8>, ilen: nat)
      requires Shape() && ilen <= input.Length && input != cache && cached + ilen <= n
      requires cached + ilen == n ==> KeepsLast(op, pad)
      modifies this`cached, cache
      ensures cached == old(cached) + ilen && Take(op, pad, n, cached) == 0
      ensures State(op, pad, f, n, iv[..], old(cache[..cached]) + input[..ilen], [], iv[..], cache[..cached])
    {
      hide State, OnBlocks, Take, KeepsLast;
      StateCached(op, pad, f, n, iv[..], cache[..cached] + input[..ilen]);
      TakeNothing(op, pad, n, cached + ilen);
      CopyInto(cache, cached, input, 0, ilen);
      assert cache[..cached + ilen] == cache[..cached] + cache[cached..cached + ilen];
      assert input[0..ilen] == input[..ilen];
      cached := cached + ilen;
    }

    /** Update when at least a block can be processed. */
    method UpdateBlocks(input: array<bv8>, ilen: nat, output: array<bv8>) returns (olen: nat)
      requires Shape() && cached <= n && ilen <= input.Length && Take(op, pad, n, cached + ilen) <= output.Length
      requires if KeepsLast(op, pad) then cached + ilen > n else cached + ilen >= n
      requires {input, output} !! {iv, cache} && (input == output ==> cached == 0)
      modifies this`cached, iv, cache, output
      ensures olen == Take(op, pad, n, old(cached) + ilen) <= output.Length
      ensures cached <= n && (cached == n ==> KeepsLast(op, pad))
      ensures output[olen..] == old(output[..])[olen..]
      ensures State(op, pad, f, n, old(iv[..]), old(cache[..cached]) + old(input[..ilen]),
                    output[..olen], iv[..], cache[..cached])
    {
      hide State, OnBlocks, Take, Cbc, Chain;
      if cached != 0 {
        olen := UpdateCached(input, ilen, output);
      } else {
        assert cache[..cached] + input[..ilen] == input[0..ilen];
        ghost var out0 := output[..];
        olen := ProcessRest(input, 0, ilen, output, 0);
        assert output[..olen] == output[0..olen];
        assert output[olen..] == output[0 + olen..] == out0[0..][olen..];
        assert out0[0..] == out0;
      }
    }

    method UpdateCached(input: array<bv8>, ilen: nat, output: array<bv8>) returns (olen: nat)
      requires Shape() && 0 < cached <= n && ilen <= input.Length && Take(op, pad, n, cached + ilen) <= output.Length
      requires if KeepsLast(op, pad) then cached + ilen > n else cached + ilen >= n
      requires {input, output} !! {iv, cache} && input != output
      modifies this`cached, iv, cache, output
      ensures olen == Take(op, pad, n, old(cached) + ilen) <= output.Length
      ensures cached <= n && (cached == n ==> KeepsLast(op, pad))
      ensures output[olen..] == old(output[..])[olen..]
      ensures State(op, pad, f, n, old(iv[..]), old(cache[..cached]) + input[..ilen],
                    output[..olen], iv[..], cache[..cached])
    {
      hide State, OnBlocks, Take, Cbc, Chain;
      ghost var held, v0, out0 := cache[..cached], iv[..], output[..];
      TakeOneMore(op, pad, n, cached + ilen - n);
      TakeBounds(op, pad, n, cached + ilen - n);
      var copyLen := FlushCache(input, output);
      ghost var first, rest, done := held + input[..copyLen], input[copyLen..ilen], output[..n];
      var more := ProcessRest(input, copyLen, ilen - copyLen, output, n);
      olen := n + more;
      Regrouped(held, input[..], copyLen, ilen);
      StatePrepend(op, pad, f, n, v0, first, rest, output[n..n + more], iv[..], cache[..cached]);
      Joined(output[..], out0, done, n, more);
    }

    /** The end of the message: the last block is padded, or decrypted and its padding removed. */
    method Finish(output: array<bv8>) returns (ret: Status, olen: nat)
      requires Valid() && n <= output.Length && output !in {iv, cache}
      modifies iv, cache, output
      ensures Ended(op, pad, f, n, start, consumed, produced, output[..n], ret, olen)
      ensures output[n..] == old(output[n..])
    {
      hide State, OnBlocks, Cbc, Chain, PadMessage, WholeOut, Removable, RemovedAt;
      CachedIs(op, pad, f, n, start, consumed, produced, iv[..], cache[..cached]);
      if op.Encrypt? {
        if pad.NoPadding? {
          if cached != 0 { return FullBlockExpected, 0; }
          return Ok, 0;
        }
      } else if n != cached {
        if pad.NoPadding? && cached == 0 { return Ok, 0; }
        return FullBlockExpected, 0;
      }
      LastBlock(output);
      if op.Decrypt? {
        ret, olen := GetPadding(pad, output[..n], n);
        return;
      }
      return Ok, n;
    }

    /** Pads the cached bytes when encrypting, and processes the last block. */
    method LastBlock(output: array<bv8>)
      requires Valid() && n <= output.Length && output !in {iv, cache} && !pad.NoPadding?
      requires op.Decrypt? ==> cached == n
      modifies iv, cache, output
      ensures op.Encrypt? ==> WholeOut(op, f, n, start, PadMessage(pad, n, consumed), produced + output[..n])
      ensures op.Decrypt? ==> WholeOut(op, f, n, start, consumed, produced + output[..n])
      ensures output[n..] == old(output[n..])
    {
      hide State, OnBlocks, Take, Cbc, Chain, PadMessage, WholeOut, Padded;
      CachedIs(op, pad, f, n, start, consumed, produced, iv[..], cache[..cached]);
      ghost var v0, held := iv[..], cache[..cached];
      if op.Encrypt? { AddPadding(pad, cache, n, cached); }
      ghost var last := cache[..];
      DivModUnique(n, n, 1, 0);
      var ok := CryptCbc(op, f, n, n, iv, cache, 0, output, 0);
      assert output[0..n] == output[..n] && last == cache[0..n];
      assert output[n..] == output[0 + n..];
      if op.Encrypt? {
        LastEncrypted(pad, f, n, start, consumed, produced, v0, held, last, output[..n]);
      } else {
        LastDecrypted(pad, f, n, start, consumed, produced, v0, last, output[..n]);
      }
    }
  }

  lemma Regrouped(held: Bytes, input: Bytes, c: nat, ilen: nat)
    requires c <= ilen <= |input|
    ensures held + input[..ilen] == (held + input[..c]) + input[c..ilen]
  {
  }

  lemma Joined(out: Bytes, out0: Bytes, done: Bytes, n: nat, more: nat)
    requires n + more <= |out| == |out0| && out[..n] == done && out[n + more..] == out0[n..][more..]
    ensures out[..n + more] == done + out[n..n + more] && out[n + more..] == out0[n + more..]
  {
  }

  lemma StateIs(op: Operation, pad: Padding, f: BlockFn, n: nat, start: Bytes, data: Bytes,
                out: Bytes, chain: Bytes, cache: Bytes, k: nat)
    requires 0 < n == |start| && OnBlocks(f, n) && k == Take(op, pad, n, |data|) <= |data| && Whole(n, k)
    requires out == Cbc(op, f, n, start, data[0..k]) && chain == Chain(op, f, n, start, data[0..k])
    requires cache == data[k..|data|]
    ensures State(op, pad, f, n, start, data, out, chain, cache)
  {
    hide Cbc, Chain;
    assert data[..k] == data[0..k] && data[k..] == data[k..|data|];
  }

  lemma EmptyRun(op: Operation, f: BlockFn, n: nat, v: Bytes)
    requires 0 < n == |v| && OnBlocks(f, n)
    ensures Whole(n, 0) && Cbc(op, f, n, v, []) == [] && Chain(op, f, n, v, []) == v
  {
    DivModUnique(0, n, 0, 0);
  }

  /** A message with its last block completed. */
  function PadMessage(pad: Padding, n: nat, m: Bytes): Bytes
    requires 0 < n < 256
  {
    DivModProps(|m|, n);
    RestBound(|m|, n);
    var k := |m| - |m| % n;
    m[..k] + Padded(pad, n, m[k..])
  }

  lemma RestBound(len: nat, n: nat)
    requires n > 0
    ensures 0 <= len % n <= len && len % n < n
  {
    DivModProps(len, n);
    MulNonneg(len / n, n);
  }

  /** Padding that can be taken off: any block ends in some number of zeros. */
  ghost predicate Removable(pad: Padding, n: nat, block: Bytes)
    requires |block| == n < 256
  {
    pad.ZeroFill? || IsPadded(pad, n, block)
  }

  ghost predicate RemovedAt(pad: Padding, n: nat, block: Bytes, d: nat)
    requires |block| == n < 256
  {
    if pad.ZeroFill? then d == Stripped(block) else PadsAt(pad, n, block, d)
  }

  /** The padding a context was set up with. */
  method AddPadding(pad: Padding, cache: array<bv8>, n: nat, dataLen: nat)
    requires dataLen < n < 256 && cache.Length == n && !pad.NoPadding?
    modifies cache
    ensures cache[..] == Padded(pad, n, old(cache[..dataLen]))
  {
    hide Padded;
    match pad {
      case Pkcs7 => AddPkcs(cache, n, dataLen);
      case OneAndZeros => AddOneAndZeros(cache, n, dataLen);
      case ZerosAndLen => AddZerosAndLen(cache, n, dataLen);
      case ZeroFill => AddZeroFill(cache, n, dataLen);
    }
    assert cache[..n] == cache[..];
  }

  method GetPadding(pad: Padding, block: Bytes, n: nat) returns (ret: Status, dataLen: nat)
    requires |block| == n && 0 < n < 256 && !pad.NoPadding?
    ensures ret == (if Removable(pad, n, block) then Ok else InvalidPadding)
    ensures ret == Ok ==> RemovedAt(pad, n, block, dataLen)
  {
    hide PadsAt, IsPadded;
    var ok := true;
    match pad {
      case Pkcs7 => ok, dataLen := GetPkcs(block, n);
      case OneAndZeros => ok, dataLen := GetOneAndZeros(block, n);
      case ZerosAndLen => ok, dataLen := GetZerosAndLen(block, n);
      case ZeroFill => dataLen := GetZeroFill(block, n);
    }
    ret := if ok then Ok else InvalidPadding;
  }

  /** What is cached at the end of a message. */
  lemma CachedIs(op: Operation, pad: Padding, f: BlockFn, n: nat, start: Bytes, data: Bytes,
                 out: Bytes, chain: Bytes, cache: Bytes)
    requires 0 < n == |start| && OnBlocks(f, n)
    requires State(op, pad, f, n, start, data, out, chain, cache)
    ensures |chain| == n && |cache| <= n && (|cache| == n <==> KeepsLast(op, pad) && data != [] && |data| % n == 0)
    ensures |cache| < n ==> |cache| == |data| % n
    ensures cache == [] ==> WholeOut(op, f, n, start, data, out)
  {
    hide Cbc, Chain;
    TakeBounds(op, pad, n, |data|);
    RestBound(|data|, n);
    if cache == [] { assert data[..|data|] == data; }
  }

  /** Out is what CBC makes of the data. */
  ghost predicate WholeOut(op: Operation, f: BlockFn, n: nat, start: Bytes, data: Bytes, out: Bytes)
    requires 0 < n == |start| && OnBlocks(f, n)
  {
    Whole(n, |data|) && out == Cbc(op, f, n, start, data)
  }

  /** The outcome of finishing a message. */
  ghost predicate Ended(op: Operation, pad: Padding, f: BlockFn, n: nat, start: Bytes, data: Bytes, out: Bytes,
                        block: Bytes, ret: Status, olen: nat)
    requires 0 < n == |start| == |block| < 256 && OnBlocks(f, n)
  {
    if pad.NoPadding? then
      olen == 0 && if |data| % n != 0 then ret == FullBlockExpected else ret == Ok && WholeOut(op, f, n, start, data, out)
    else if op.Encrypt? then
      ret == Ok && olen == n && WholeOut(op, f, n, start, PadMessage(pad, n, data), out + block)
    else if data == [] || |data| % n != 0 then
      ret == FullBlockExpected && olen == 0
    else
      && WholeOut(op, f, n, start, data, out + block)
      && ret == (if Removable(pad, n, block) then Ok else InvalidPadding)
      && (ret == Ok ==> RemovedAt(pad, n, block, olen))
  }

  /** The padded last block joins the output. */
  lemma LastEncrypted(pad: Padding, f: BlockFn, n: nat, start: Bytes, data: Bytes, out: Bytes, chain: Bytes,
                      cache: Bytes, last: Bytes, block: Bytes)
    requires 0 < n == |start| == |chain| < 256 && OnBlocks(f, n) && !pad.NoPadding? && |cache| < n
    requires State(Encrypt, pad, f, n, start, data, out, chain, cache)
    requires last == Padded(pad, n, cache) && Whole(n, n) && block == Cbc(Encrypt, f, n, chain, last)
    ensures WholeOut(Encrypt, f, n, start, PadMessage(pad, n, data), out + block)
  {
    hide Cbc, Chain, OnBlocks, Padded, State, Whole;
    TakeBounds(Encrypt, pad, n, |data|);
    var k := Take(Encrypt, pad, n, |data|);
    StateParts(Encrypt, pad, f, n, start, data, out, chain, cache, k);
    CbcConcat(Encrypt, f, n, start, data[..k], last);
  }

  /** The held-back block joins the output. */
  lemma LastDecrypted(pad: Padding, f: BlockFn, n: nat, start: Bytes, data: Bytes, out: Bytes, chain: Bytes,
                      last: Bytes, block: Bytes)
    requires 0 < n == |start| == |chain| == |last| && OnBlocks(f, n)
    requires State(Decrypt, pad, f, n, start, data, out, chain, last)
    requires Whole(n, n) && block == Cbc(Decrypt, f, n, chain, last)
    ensures WholeOut(Decrypt, f, n, start, data, out + block)
  {
    hide Cbc, Chain, OnBlocks, State, Whole, Take;
    TakeBounds(Decrypt, pad, n, |data|);
    var k := Take(Decrypt, pad, n, |data|);
    StateParts(Decrypt, pad, f, n, start, data, out, chain, last, k);
    CbcConcat(Decrypt, f, n, start, data[..k], last);
    assert data[..k] + last == data;
  }

  // ----------------------------------------------------------- round trips

  /** The last block of a padded message, and what stands before it. */
  lemma PaddedParts(pad: Padding, n: nat, m: Bytes)
    requires 0 < n < 256 && !pad.NoPadding?
    ensures var p, k := PadMessage(pad, n, m), |m| - |m| % n;
      0 <= k <= |m| && |m| - k < n && |p| == k + n && p[..k] == m[..k] && p[k..] == Padded(pad, n, m[k..])
  {
    hide Padded;
    RestBound(|m|, n);
  }

  /** All but the last block, and d bytes of that. */
  function Recovered(n: nat, p: Bytes, d: nat): Bytes
    requires d <= n <= |p|
  {
    p[..|p| - n] + p[|p| - n..][..d]
  }

  /** Taking the padding off a padded message is possible and gives the message. */
  lemma PaddingRoundTrip(pad: Padding, n: nat, m: Bytes, d: nat)
    requires 0 < n < 256 && Reversible(pad) && d <= n
    ensures |PadMessage(pad, n, m)| >= n
    ensures var p := PadMessage(pad, n, m);
      Removable(pad, n, p[|p| - n..]) && (RemovedAt(pad, n, p[|p| - n..], d) ==> Recovered(n, p, d) == m)
  {
    hide Padded;
    PaddedParts(pad, n, m);
    var k := |m| - |m| % n;
    var block := Padded(pad, n, m[k..]);
    PaddedPadsAt(pad, n, m[k..]);
    if RemovedAt(pad, n, block, d) {
      PadsAtOnce(pad, n, block, d, |m| - k);
      PaddedKeeps(pad, n, m[k..]);
      assert m == m[..k] + m[k..];
    }
  }

  lemma PaddedKeeps(pad: Padding, n: nat, data: Bytes)
    requires |data| < n < 256 && !pad.NoPadding?
    ensures Padded(pad, n, data)[..|data|] == data
  {
    hide ToByte;
  }

  /** With zero padding that is so exactly when a partial last block does not end in zero. */
  lemma ZeroFillRoundTrip(n: nat, m: Bytes)
    requires 0 < n < 256
    ensures |PadMessage(ZeroFill, n, m)| >= n && 0 <= |m| % n <= |m|
    ensures var p := PadMessage(ZeroFill, n, m);
      Recovered(n, p, Stripped(p[|p| - n..])) == m <==> |m| % n == 0 || m[|m| - 1] != 0
  {
    hide Padded;
    PaddedParts(ZeroFill, n, m);
    var k := |m| - |m| % n;
    var block := Padded(ZeroFill, n, m[k..]);
    var d := Stripped(block);
    ZeroFillExactly(n, m[k..]);
    PaddedKeeps(ZeroFill, n, m[k..]);
    assert m == m[..k] + m[k..];
    if m[..k] + block[..d] == m { assert d == |m| - k; }
  }

  /** Feeds a context the pieces one after the other. */
  method Feed(ctx: CipherContext, chunks: seq<Bytes>) returns (out: Bytes)
    requires ctx.Valid()
    modifies ctx, ctx.iv, ctx.cache
    ensures ctx.Valid() && ctx.start == old(ctx.start)
    ensures ctx.consumed == old(ctx.consumed) + Flat(chunks) && ctx.produced == old(ctx.produced) + out
  {
    hide State, Take;
    out := [];
    var i := 0;
    while i < |chunks|
      invariant 0 <= i <= |chunks|
      invariant ctx.Valid() && ctx.start == old(ctx.start)
      invariant ctx.consumed == old(ctx.consumed) + Flat(chunks[..i]) && ctx.produced == old(ctx.produced) + out
    {
      var piece := FeedOne(ctx, chunks[i]);
      FlatStep(chunks, i);
      out := out + piece;
      i := i + 1;
    }
    assert chunks[..i] == chunks;
  }

  method FeedOne(ctx: CipherContext, chunk: Bytes) returns (out: Bytes)
    requires ctx.Valid()
    modifies ctx, ctx.iv, ctx.cache
    ensures ctx.Valid() && ctx.start == old(ctx.start)
    ensures ctx.consumed == old(ctx.consumed) + chunk && ctx.produced == old(ctx.produced) + out
  {
    hide State, Take;
    var input := new bv8[|chunk|](i requires 0 <= i < |chunk| => chunk[i]);
    TakeBounds(ctx.op, ctx.pad, ctx.n, ctx.cached + |chunk|);
    var output := new bv8[ctx.cached + |chunk|];
    assert input[..|chunk|] == chunk;
    var ret, olen := ctx.Update(input, |chunk|, output);
    out := output[..olen];
  }

  /** What is encrypted of a message: the padded message, or without padding the message itself. */
  function Plaintext(pad: Padding, n: nat, m: Bytes): Bytes
    requires 0 < n < 256
  {
    if pad.NoPadding? then m else PadMessage(pad, n, m)
  }

  /**
   * Any pieces of a message make the one-shot ciphertext of the padded message.  Without padding
   * only messages of whole blocks have one.
   */
  method EncryptMessage(f: BlockFn, n: nat, pad: Padding, v: Bytes, chunks: seq<Bytes>) returns (ret: Status, c: Bytes)
    requires 0 < n == |v| < 256 && OnBlocks(f, n)
    ensures ret == if pad.NoPadding? && |Flat(chunks)| % n != 0 then FullBlockExpected else Ok
    ensures ret == Ok ==> WholeOut(Encrypt, f, n, v, Plaintext(pad, n, Flat(chunks)), c)
  {
    hide State, OnBlocks, PadMessage, WholeOut;
    var ctx := new CipherContext(Encrypt, pad, n, f);
    ctx.Begin(v);
    c := Feed(ctx, chunks);
    assert ctx.consumed == Flat(chunks) && ctx.produced == c;
    var last := new bv8[n];
    var olen;
    ret, olen := ctx.Finish(last);
    if pad.NoPadding? { assert c + last[..olen] == c; }
    c := c + last[..olen];
  }

  /** Pieces of a ciphertext that have a decryption: whole blocks, and with padding at least one. */
  predicate Decryptable(pad: Padding, n: nat, c: Bytes)
    requires n > 0
  {
    |c| % n == 0 && (pad.NoPadding? || c != [])
  }

  /** Any pieces of a ciphertext make its one-shot decryption p, less the padding. */
  method DecryptMessage(g: BlockFn, n: nat, pad: Padding, v: Bytes, chunks: seq<Bytes>)
    returns (ret: Status, m: Bytes, ghost p: Bytes, ghost d: nat)
    requires 0 < n == |v| < 256 && OnBlocks(g, n)
    ensures ret == FullBlockExpected <==> !Decryptable(pad, n, Flat(chunks))
    ensures ret != FullBlockExpected ==> WholeOut(Decrypt, g, n, v, Flat(chunks), p)
    ensures ret != FullBlockExpected && pad.NoPadding? ==> ret == Ok && m == p
    ensures ret != FullBlockExpected && !pad.NoPadding? ==>
      |p| >= n && ret == if Removable(pad, n, p[|p| - n..]) then Ok else InvalidPadding
    ensures ret == Ok && !pad.NoPadding? ==> d <= n && RemovedAt(pad, n, p[|p| - n..], d) && m == Recovered(n, p, d)
  {
    hide State, OnBlocks, WholeOut, Removable, RemovedAt;
    var ctx := new CipherContext(Decrypt, pad, n, g);
    ctx.Begin(v);
    var out := Feed(ctx, chunks);
    assert ctx.consumed == Flat(chunks) && ctx.produced == out;
    var last := new bv8[n];
    var olen;
    ret, olen := ctx.Finish(last);
    p, d, m := out, olen, out;
    if pad.NoPadding? { return; }
    p := out + last[..n];
    assert p[|p| - n..] == last[..n] && p[..|p| - n] == out;
    if ret == Ok {
      RemovedBound(pad, n, last[..n], olen);
      m := out + last[..olen];
      assert last[..n][..olen] == last[..olen];
    }
  }

  lemma RemovedBound(pad: Padding, n: nat, block: Bytes, d: nat)
    requires |block| == n < 256 && RemovedAt(pad, n, block, d)
    ensures d <= n
  {
  }

  /** The messages that come back: with zero padding a partial last block must not end in zero. */
  predicate ComesBack(pad: Padding, n: nat, m: Bytes)
    requires n > 0
  {
    pad.ZeroFill? ==> |m| % n == 0 || m == [] || m[|m| - 1] != 0
  }

  /**
   * A message encrypted in any pieces and decrypted in any other pieces: with each padding that can be
   * told from data it comes back, with zero padding exactly if it comes back from that, and without
   * padding if it is whole blocks.
   */
  method RoundTrip(f: BlockFn, g: BlockFn, n: nat, pad: Padding, v: Bytes, chunks: seq<Bytes>, cut: Bytes -> seq<Bytes>)
    returns (ret: Status, m: Bytes)
    requires 0 < n == |v| < 256 && CipherPair(f, g, n)
    requires forall c: Bytes :: Flat(cut(c)) == c
    ensures ret == if pad.NoPadding? && |Flat(chunks)| % n != 0 then FullBlockExpected else Ok
    ensures ret == Ok ==> (m == Flat(chunks) <==> ComesBack(pad, n, Flat(chunks)))
  {
    hide Cbc, PadMessage, Recovered, Removable, RemovedAt, OnBlocks, Undoes, Whole;
    ghost var msg := Flat(chunks);
    var c;
    ret, c := EncryptMessage(f, n, pad, v, chunks);
    if ret != Ok { return ret, []; }
    ghost var plain := Plaintext(pad, n, msg);
    CbcRoundTrip(f, g, n, v, plain);
    WholeMod(n, |c|);
    if !pad.NoPadding? { PaddedNotEmpty(pad, n, msg); }
    ghost var p, d;
    ret, m, p, d := DecryptMessage(g, n, pad, v, cut(c));
    assert p == plain;
    if !pad.NoPadding? {
      BackExactly(pad, n, msg, 0);
      if ret == Ok { BackExactly(pad, n, msg, d); }
    }
  }

  lemma PaddedNotEmpty(pad: Padding, n: nat, m: Bytes)
    requires 0 < n < 256 && !pad.NoPadding?
    ensures |PadMessage(pad, n, m)| >= n
  {
    hide Padded;
    PaddedParts(pad, n, m);
  }

  /** For every padding: it comes off, and the message comes back exactly if it is one that does. */
  lemma BackExactly(pad: Padding, n: nat, m: Bytes, d: nat)
    requires 0 < n < 256 && !pad.NoPadding? && d <= n
    ensures |PadMessage(pad, n, m)| >= n
    ensures var p := PadMessage(pad, n, m);
      Removable(pad, n, p[|p| - n..]) && (RemovedAt(pad, n, p[|p| - n..], d) ==> (Recovered(n, p, d) == m <==> ComesBack(pad, n, m)))
  {
    hide PadMessage, Padded, Recovered, IsPadded;
    if pad.ZeroFill? { ZeroFillRoundTrip(n, m); } else { PaddingRoundTrip(pad, n, m, d); }
  }

  lemma WholeMod(n: nat, len: nat)
    requires Whole(n, len)
    ensures len % n == 0
  {
  }
}
