/**
 * Byte strings, their exclusive or, and block functions.  A block cipher under a fixed key is a
 * function on blocks; encryption and decryption are each other's inverse.
 */
module Blocks {
  type Bytes = seq<bv8>

  type BlockFn = Bytes -> Bytes

  datatype Operation = Encrypt | Decrypt

  /** Bytes as numbers and back. */
  function ToByte(n: int): bv8
    requires 0 <= n < 256
  {
    n as bv8
  }

  function Num(b: bv8): (r: int)
    ensures 0 <= r < 256
  {
    b as int
  }

  lemma NumToByte(n: int)
    requires 0 <= n < 256
    ensures Num(ToByte(n)) == n
  {
    var b := ByteWithNum(n);
  }

  /** Some byte has the number n, and it is the one n is cast to. */
  lemma {:induction false} ByteWithNum(n: nat) returns (b: bv8)
    requires n < 256
    ensures b as int == n && n as bv8 == b
  {
    if n == 0 {
      b := 0;
    } else {
      b := ByteWithNum(n - 1);
      NextByte(b);
      b := b + 1;
      ToByteNum(b);
    }
  }

  lemma NextByte(b: bv8)
    ensures (b + 1) as int == if b as int == 255 then 0 else b as int + 1
  {
  }

  lemma ToByteNum(b: bv8)
    ensures ToByte(Num(b)) == b
  {
  }

  function XorByte(a: bv8, b: bv8): bv8 {
    a ^ b
  }

  lemma XorByteComm(a: bv8, b: bv8)
    ensures XorByte(a, b) == XorByte(b, a)
  {
  }

  lemma XorByteAssoc(a: bv8, b: bv8, c: bv8)
    ensures XorByte(XorByte(a, b), c) == XorByte(a, XorByte(b, c))
  {
  }

  lemma XorByteZero(a: bv8)
    ensures XorByte(a, 0) == a && XorByte(0, a) == a && XorByte(a, a) == 0
  {
  }

  lemma XorByteSame(a: bv8, b: bv8)
    ensures XorByte(a, b) == 0 <==> a == b
  {
  }

  lemma DiffBit(diff: bv8, a: bv8, b: bv8)
    ensures diff | XorByte(a, b) == 0 <==> diff == 0 && a == b
  {
  }

  function Xor(a: Bytes, b: Bytes): (r: Bytes)
    requires |a| == |b|
    ensures |r| == |a|
  {
    seq(|a|, i requires 0 <= i < |a| => XorByte(a[i], b[i]))
  }

  lemma XorCancel(a: Bytes, b: Bytes)
    requires |a| == |b|
    ensures Xor(Xor(a, b), b) == a
  {
  }

  lemma XorComm(a: Bytes, b: Bytes)
    requires |a| == |b|
    ensures Xor(a, b) == Xor(b, a)
  {
  }

  lemma XorConcat(a: Bytes, b: Bytes, c: Bytes, d: Bytes)
    requires |a| == |c| && |b| == |d|
    ensures Xor(a + b, c + d) == Xor(a, c) + Xor(b, d)
  {
  }

  function Zeros(n: nat): (r: Bytes)
    ensures |r| == n
  {
    seq(n, _ => 0)
  }

  /** Zeros up to a block boundary. */
  function Pad16(s: Bytes): (r: Bytes)
    ensures |r| % 16 == 0 && |s| <= |r| < |s| + 16
  {
    s + Zeros((16 - |s| % 16) % 16)
  }

  lemma PadLayout(s: Bytes)
    ensures |Pad16(s)| == (|s| + 15) / 16 * 16
    ensures Pad16(s)[..|s|] == s && Pad16(s)[|s|..] == Zeros(|Pad16(s)| - |s|)
  {
  }

  /** f maps blocks of n bytes to blocks of n bytes. */
  ghost predicate OnBlocks(f: BlockFn, n: nat) {
    forall b: Bytes :: |b| == n ==> |f(b)| == n
  }

  lemma OnBlock(f: BlockFn, n: nat, b: Bytes)
    requires OnBlocks(f, n) && |b| == n
    ensures |f(b)| == n
  {
  }

  /** g undoes f on blocks of n bytes. */
  ghost predicate Undoes(g: BlockFn, f: BlockFn, n: nat) {
    forall b: Bytes :: |b| == n ==> g(f(b)) == b
  }

  /** Two directions of a block cipher with blocks of n bytes. */
  ghost predicate CipherPair(enc: BlockFn, dec: BlockFn, n: nat) {
    OnBlocks(enc, n) && OnBlocks(dec, n) && Undoes(dec, enc, n) && Undoes(enc, dec, n)
  }

  /** dst[d..d + |mask|] := src[s..s + |mask|] xor mask.  The two ranges may coincide. */
  method XorInto(dst: array<bv8>, d: nat, src: array<bv8>, s: nat, mask: Bytes)
    requires d + |mask| <= dst.Length && s + |mask| <= src.Length
    requires dst != src || d <= s
    modifies dst
    ensures dst[d..d + |mask|] == Xor(old(src[s..s + |mask|]), mask)
    ensures dst[..d] == old(dst[..d]) && dst[d + |mask|..] == old(dst[d + |mask|..])
  {
    hide XorByte;
    ghost var was := src[..];
    ghost var before := dst[..];
    var i := 0;
    while i < |mask|
      invariant 0 <= i <= |mask|
      invariant forall m :: d <= m < d + i ==> dst[m] == XorByte(was[m - d + s], mask[m - d])
      invariant forall m :: 0 <= m < dst.Length && !(d <= m < d + i) ==> dst[m] == before[m]
      invariant dst != src ==> src[..] == was
    {
      assert src[s + i] == was[s + i];
      dst[d + i] := XorByte(src[s + i], mask[i]);
      i := i + 1;
    }
    ghost var masked := was[s..s + |mask|];
    assert forall j :: 0 <= j < |mask| ==> dst[d..d + |mask|][j] == XorByte(masked[j], mask[j]);
    assert dst[d..d + |mask|] == Xor(masked, mask);
    assert dst[..d] == before[..d];
    assert dst[d + |mask|..] == before[d + |mask|..];
  }

  /** memcpy between different buffers, or towards lower addresses in one. */
  method CopyInto(dst: array<bv8>, d: nat, src: array<bv8>, s: nat, n: nat)
    requires d + n <= dst.Length && s + n <= src.Length
    requires dst != src || d <= s
    modifies dst
    ensures dst[d..d + n] == old(src[s..s + n])
    ensures dst[..d] == old(dst[..d]) && dst[d + n..] == old(dst[d + n..])
  {
    ghost var was := src[..];
    ghost var before := dst[..];
    var i := 0;
    while i < n
      invariant 0 <= i <= n
      invariant forall m :: d <= m < d + i ==> dst[m] == was[m - d + s]
      invariant forall m :: 0 <= m < dst.Length && !(d <= m < d + i) ==> dst[m] == before[m]
      invariant dst != src ==> src[..] == was
    {
      assert src[s + i] == was[s + i];
      dst[d + i] := src[s + i];
      i := i + 1;
    }
  }

  /** One call of the block cipher: dst[d..d + n] := f(src[s..s + n]). */
  method CryptBlock(f: BlockFn, n: nat, src: array<bv8>, s: nat, dst: array<bv8>, d: nat)
    requires d + n <= dst.Length && s + n <= src.Length
    requires OnBlocks(f, n)
    modifies dst
    ensures dst[d..d + n] == f(old(src[s..s + n]))
    ensures dst[..d] == old(dst[..d]) && dst[d + n..] == old(dst[d + n..])
  {
    Store(dst, d, f(src[s..s + n]));
  }

  /** Writes a byte string into a buffer. */
  method Store(dst: array<bv8>, d: nat, data: Bytes)
    requires d + |data| <= dst.Length
    modifies dst
    ensures dst[d..d + |data|] == data
    ensures dst[..d] == old(dst[..d]) && dst[d + |data|..] == old(dst[d + |data|..])
  {
    ghost var before := dst[..];
    var i := 0;
    while i < |data|
      invariant 0 <= i <= |data|
      invariant forall m :: d <= m < d + i ==> dst[m] == data[m - d]
      invariant forall m :: 0 <= m < dst.Length && !(d <= m < d + i) ==> dst[m] == before[m]
    {
      dst[d + i] := data[i];
      i := i + 1;
    }
  }

  /** A slice of a slice. */
  lemma SliceSlice(s: Bytes, a: nat, b: nat, k: nat, n: nat)
    requires a <= b <= |s| && k + n <= b - a
    ensures s[a..b][k..k + n] == s[a + k..a + k + n]
  {
    var x, y := s[a..b][k..k + n], s[a + k..a + k + n];
    forall i | 0 <= i < n ensures x[i] == y[i] {
      assert x[i] == s[a..b][k + i] == s[a + k + i];
    }
    assert x == y;
  }

  lemma Tails(s: Bytes, k: nat, len: nat)
    requires k + len <= |s|
    ensures s[k..][len..] == s[k + len..]
  {
  }

  lemma Pieces(input: Bytes, data: Bytes, i: nat, left: nat)
    requires i + |data| <= |input| && data == input[i..i + |data|] && left <= |data|
    ensures input[i..i + left] == data[0..left] == data[..left]
    ensures input[i + left..i + |data|] == data[left..|data|] == data[left..]
  {
    SliceSlice(input, i, i + |data|, 0, left);
    SliceSlice(input, i, i + |data|, left, |data| - left);
  }

  /** The pieces of a message put together. */
  function Flat(chunks: seq<Bytes>): Bytes {
    if chunks == [] then [] else chunks[0] + Flat(chunks[1..])
  }

  lemma {:induction false} FlatSnoc(chunks: seq<Bytes>, c: Bytes)
    ensures Flat(chunks + [c]) == Flat(chunks) + c
  {
    if chunks == [] {
      assert [c][1..] == [];
    } else {
      FlatSnoc(chunks[1..], c);
      assert (chunks + [c])[1..] == chunks[1..] + [c];
    }
  }

  lemma FlatStep(chunks: seq<Bytes>, i: nat)
    requires i < |chunks|
    ensures Flat(chunks[..i + 1]) == Flat(chunks[..i]) + chunks[i]
  {
    FlatSnoc(chunks[..i], chunks[i]);
    assert chunks[..i] + [chunks[i]] == chunks[..i + 1];
  }
}
