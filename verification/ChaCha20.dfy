/**
 * The ChaCha20 stream cipher over an arbitrary block function of nonce and counter: the key stream
 * is used byte by byte, however the data is cut into calls.
 */
module ChaCha20 {
  import opened Blocks

  /** Key stream block for a nonce and a 32-bit counter, under a fixed key. */
  type KeyBlockFn = (Bytes, int) -> Bytes

  const COUNTER_LIMIT: int := 0x1_0000_0000

  ghost predicate KeyBlocks(f: KeyBlockFn) {
    forall v: Bytes, c: int :: |f(v, c)| == 64
  }

  /** Byte pos of the key stream that starts at counter c0. */
  function StreamByte(f: KeyBlockFn, v: Bytes, c0: nat, pos: nat): bv8
    requires KeyBlocks(f)
  {
    f(v, (c0 + pos / 64) % COUNTER_LIMIT)[pos % 64]
  }

  /** Data from position pos on, under the key stream. */
  function Streamed(f: KeyBlockFn, v: Bytes, c0: nat, pos: nat, data: Bytes): (r: Bytes)
    requires KeyBlocks(f)
    ensures |r| == |data|
  {
    seq(|data|, i requires 0 <= i < |data| => XorByte(data[i], StreamByte(f, v, c0, pos + i)))
  }

  lemma StreamedTwice(f: KeyBlockFn, v: Bytes, c0: nat, pos: nat, data: Bytes)
    requires KeyBlocks(f)
    ensures Streamed(f, v, c0, pos, Streamed(f, v, c0, pos, data)) == data
  {
    hide StreamByte;
    var c := Streamed(f, v, c0, pos, data);
    forall i | 0 <= i < |data| ensures XorByte(c[i], StreamByte(f, v, c0, pos + i)) == data[i] {
      XorByteBack(data[i], StreamByte(f, v, c0, pos + i));
    }
  }

  lemma XorByteBack(a: bv8, b: bv8)
    ensures XorByte(XorByte(a, b), b) == a
  {
  }

  /** Each byte meets one of the key stream block its position lies in; the 32-bit counter wraps. */
  lemma StreamedBytes(f: KeyBlockFn, v: Bytes, c0: nat, pos: nat, data: Bytes)
    requires KeyBlocks(f)
    ensures forall i :: 0 <= i < |data| ==>
      Streamed(f, v, c0, pos, data)[i] ==
      XorByte(data[i], f(v, (c0 + (pos + i) / 64) % 0x1_0000_0000)[(pos + i) % 64])
  {
    hide XorByte;
  }

  /** Two pieces in sequence. */
  lemma StreamedConcat(f: KeyBlockFn, v: Bytes, c0: nat, pos: nat, a: Bytes, b: Bytes)
    requires KeyBlocks(f)
    ensures Streamed(f, v, c0, pos, a + b) == Streamed(f, v, c0, pos, a) + Streamed(f, v, c0, pos + |a|, b)
  {
    hide StreamByte, XorByte;
    var x, y := Streamed(f, v, c0, pos, a + b), Streamed(f, v, c0, pos, a) + Streamed(f, v, c0, pos + |a|, b);
    forall i | 0 <= i < |x| ensures x[i] == y[i] {
      if i >= |a| { assert pos + i == pos + |a| + (i - |a|); }
    }
  }

  class ChaCha20Context {
    const f: KeyBlockFn
    var nonce: Bytes
    var counter: int
    const keystream: array<bv8>
    var used: nat
    /** Where the key stream began, and how much of it has been used. */
    ghost var start: nat
    ghost var pos: nat

    constructor (f: KeyBlockFn)
      requires KeyBlocks(f)
      ensures this.f == f && keystream.Length == 64 && fresh(keystream)
    {
      this.f := f;
      keystream := new bv8[64];
      used := 64;
      nonce := [];
    }

    ghost predicate Valid()
      reads this, keystream
    {
      && KeyBlocks(f) && keystream.Length == 64 && 0 < used <= 64
      && if used == 64 then pos % 64 == 0 && counter == (start + pos / 64) % COUNTER_LIMIT
         else pos % 64 == used && keystream[..] == f(nonce, (start + pos / 64) % COUNTER_LIMIT)
              && counter == (start + pos / 64 + 1) % COUNTER_LIMIT
    }

    method Starts(v: Bytes, c: nat)
      requires KeyBlocks(f) && keystream.Length == 64 && c < COUNTER_LIMIT
      modifies this
      ensures Valid() && nonce == v && start == c && pos == 0
    {
      counter, nonce, used := c, v, 64;
      start, pos := c, 0;
    }

    /** A new key stream block. */
    method NextBlock()
      requires Valid() && used == 64
      modifies this`counter, keystream
      ensures keystream[..] == f(nonce, (start + pos / 64) % COUNTER_LIMIT)
      ensures counter == (start + pos / 64 + 1) % COUNTER_LIMIT
    {
      Store(keystream, 0, f(nonce, counter));
      assert keystream[..] == keystream[0..64];
      counter := (counter + 1) % COUNTER_LIMIT;
    }

    method LeftoverByte(input: array<bv8>, output: array<bv8>, o: nat)
      requires Valid() && used < 64 && o < input.Length && o < output.Length && keystream !in {input, output}
      modifies this`used, this`pos, output
      ensures Valid() && pos == old(pos) + 1
      ensures output[..] == old(output[..])[o := XorByte(old(input[o]), StreamByte(f, nonce, start, old(pos)))]
    {
      hide XorByte;
      assert keystream[used] == StreamByte(f, nonce, start, pos);
      output[o] := XorByte(input[o], keystream[used]);
      NextPosition(pos);
      used, pos := used + 1, pos + 1;
    }

    /** Uses up key stream bytes left over from the last call. */
    method Leftover(size: nat, input: array<bv8>, output: array<bv8>) returns (offset: nat)
      requires Valid() && size <= input.Length && size <= output.Length && keystream !in {input, output}
      modifies this`used, this`pos, output
      ensures Valid() && offset <= size && pos == old(pos) + offset && (offset < size ==> used == 64)
      ensures output[..offset] == Streamed(f, nonce, start, old(pos), old(input[..offset]))
      ensures output[offset..] == old(output[..])[offset..]
    {
      hide XorByte, KeyBlocks, StreamByte;
      ghost var inp, out0, p0 := input[..], output[..], pos;
      offset := 0;
      while offset < size && used < 64
        invariant 0 <= offset <= size && pos == p0 + offset && Valid()
        invariant forall m :: 0 <= m < offset ==> output[m] == XorByte(inp[m], StreamByte(f, nonce, start, p0 + m))
        invariant forall m :: offset <= m < output.Length ==> output[m] == out0[m]
        invariant forall m :: offset <= m < input.Length ==> input[m] == inp[m]
      {
        LeftoverByte(input, output, offset);
        offset := offset + 1;
      }
      assert output[..offset] == Streamed(f, nonce, start, p0, inp[..offset]);
    }

    /** A whole block, or the last partial one, under a new key stream block. */
    method FreshBlock(len: nat, input: array<bv8>, output: array<bv8>, o: nat)
      requires Valid() && used == 64 && 0 < len <= 64 && o + len <= input.Length && o + len <= output.Length
      requires keystream !in {input, output}
      modifies this`counter, this`used, this`pos, keystream, output
      ensures Valid() && pos == old(pos) + len && used == len
      ensures output[o..o + len] == Streamed(f, nonce, start, old(pos), old(input[o..o + len]))
      ensures output[..o] == old(output[..o]) && output[o + len..] == old(output[o + len..])
    {
      hide Xor, KeyBlocks;
      ghost var data := input[o..o + len];
      NextBlock();
      XorInto(output, o, input, o, keystream[..len]);
      StreamedBlock(f, nonce, start, pos, data, keystream[..]);
      BlockEnd(pos, len);
      used := len;
      pos := pos + len;
    }

    /** Encrypts or decrypts data from the current position on. */
    method Update(size: nat, input: array<bv8>, output: array<bv8>)
      requires Valid() && size <= input.Length && size <= output.Length && keystream !in {input, output}
      modifies this`counter, this`used, this`pos, keystream, output
      ensures Valid() && pos == old(pos) + size
      ensures output[..size] == Streamed(f, nonce, start, old(pos), old(input[..size]))
      ensures output[size..] == old(output[size..])
    {
      hide KeyBlocks, Streamed;
      ghost var inp, out0, p0 := input[..], output[..], pos;
      var offset := Leftover(size, input, output);
      assert input[offset..] == inp[offset..];
      while size - offset >= 64
        invariant offset <= size && Valid() && pos == p0 + offset && (offset < size ==> used == 64)
        invariant output[..offset] == Streamed(f, nonce, start, p0, inp[..offset])
        invariant output[offset..] == out0[offset..] && input[offset..] == inp[offset..]
      {
        offset := Piece(64, input, output, offset, p0, inp, out0);
      }
      if size - offset > 0 {
        offset := Piece(size - offset, input, output, offset, p0, inp, out0);
      }
    }

    method Piece(len: nat, input: array<bv8>, output: array<bv8>, offset: nat,
                 ghost p0: nat, ghost inp: Bytes, ghost out0: Bytes)
      returns (next: nat)
      requires Valid() && used == 64 && 0 < len <= 64 && offset + len <= input.Length == |inp|
      requires offset + len <= output.Length == |out0| && keystream !in {input, output} && pos == p0 + offset
      requires output[..offset] == Streamed(f, nonce, start, p0, inp[..offset])
      requires output[offset..] == out0[offset..] && input[offset..] == inp[offset..]
      modifies this`counter, this`used, this`pos, keystream, output
      ensures Valid() && next == offset + len && pos == p0 + next && used == len
      ensures output[..next] == Streamed(f, nonce, start, p0, inp[..next])
      ensures output[next..] == out0[next..] && input[next..] == inp[next..]
    {
      hide KeyBlocks, Streamed;
      next := offset + len;
      assert input[offset..next] == input[offset..][..len] == inp[offset..][..len] == inp[offset..next];
      ghost var done, inTail, outTail := output[..offset], input[offset..], output[offset..];
      FreshBlock(len, input, output, offset);
      StreamedConcat(f, nonce, start, p0, inp[..offset], inp[offset..next]);
      assert inp[..offset] + inp[offset..next] == inp[..next];
      assert output[..next] == done + output[offset..next];
      Tails(out0, offset, len);
      Tails(inp, offset, len);
      assert output[next..] == outTail[len..];
      assert input[next..] == inTail[len..];
    }
  }

  lemma NextPosition(pos: nat)
    ensures pos % 64 < 63 ==> (pos + 1) % 64 == pos % 64 + 1 && (pos + 1) / 64 == pos / 64
    ensures pos % 64 == 63 ==> (pos + 1) % 64 == 0 && (pos + 1) / 64 == pos / 64 + 1
  {
  }

  lemma BlockEnd(pos: nat, len: nat)
    requires pos % 64 == 0 && 0 < len <= 64
    ensures len < 64 ==> (pos + len) % 64 == len && (pos + len) / 64 == pos / 64
    ensures len == 64 ==> (pos + len) % 64 == 0 && (pos + len) / 64 == pos / 64 + 1
  {
  }

  /** From a block boundary the key stream is one block's bytes. */
  lemma StreamedBlock(f: KeyBlockFn, v: Bytes, c0: nat, pos: nat, data: Bytes, block: Bytes)
    requires KeyBlocks(f) && pos % 64 == 0 && |data| <= 64 && block == f(v, (c0 + pos / 64) % COUNTER_LIMIT)
    ensures |block| == 64 && Streamed(f, v, c0, pos, data) == Xor(data, block[..|data|])
  {
    hide XorByte;
    forall i | 0 <= i < |data| ensures StreamByte(f, v, c0, pos + i) == block[i] {
      assert (pos + i) / 64 == pos / 64 && (pos + i) % 64 == i;
    }
  }
}
