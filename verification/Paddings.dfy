/** The four block paddings of the cipher layer: what is added, and what is accepted and removed. */
module Paddings {
  import opened Bits
  import opened Blocks

  datatype Padding = Pkcs7 | OneAndZeros | ZerosAndLen | ZeroFill | NoPadding

  /** The block a partial block of data is completed to. */
  function Padded(pad: Padding, n: nat, data: Bytes): (r: Bytes)
    requires |data| < n < 256
    ensures |r| == n || pad.NoPadding?
  {
    var k := n - |data|;
    match pad
    case Pkcs7 => data + seq(k, _ => ToByte(k))
    case OneAndZeros => data + [0x80] + Zeros(k - 1)
    case ZerosAndLen => data + Zeros(k - 1) + [ToByte(k)]
    case ZeroFill => data + Zeros(k)
    case NoPadding => data
  }

  /**
   * The bytes behind the data: all of them the count of what was added; or 80 and zeros; or zeros and
   * the count in the last byte; or zeros.
   */
  lemma PaddedBytes(pad: Padding, n: nat, data: Bytes)
    requires |data| < n < 256
    ensures pad.NoPadding? ==> Padded(pad, n, data) == data
    ensures !pad.NoPadding? ==> Padded(pad, n, data)[..|data|] == data
    ensures pad.Pkcs7? ==> forall i :: |data| <= i < n ==> Num(Padded(pad, n, data)[i]) == n - |data|
    ensures pad.OneAndZeros? ==>
      Padded(pad, n, data)[|data|] == 0x80 && forall i :: |data| < i < n ==> Padded(pad, n, data)[i] == 0
    ensures pad.ZerosAndLen? ==>
      Num(Padded(pad, n, data)[n - 1]) == n - |data| && forall i :: |data| <= i < n - 1 ==> Padded(pad, n, data)[i] == 0
    ensures pad.ZeroFill? ==> forall i :: |data| <= i < n ==> Padded(pad, n, data)[i] == 0
  {
    hide ToByte, Num;
    NumToByte(n - |data|);
  }

  /** Block is what d bytes of data are padded to. */
  ghost predicate PadsAt(pad: Padding, n: nat, block: Bytes, d: nat)
    requires |block| == n < 256
  {
    d < n && block == Padded(pad, n, block[..d])
  }

  ghost predicate IsPadded(pad: Padding, n: nat, block: Bytes)
    requires |block| == n < 256
  {
    exists d: nat :: PadsAt(pad, n, block, d)
  }

  predicate Reversible(pad: Padding) {
    pad.Pkcs7? || pad.OneAndZeros? || pad.ZerosAndLen?
  }

  /** The data can be read off a padded block in only one way. */
  lemma PadsAtOnce(pad: Padding, n: nat, block: Bytes, d: nat, e: nat)
    requires |block| == n < 256 && Reversible(pad) && PadsAt(pad, n, block, d) && PadsAt(pad, n, block, e)
    ensures d == e
  {
    hide ToByte, Num;
    match pad
    case Pkcs7 =>
      assert block[n - 1] == ToByte(n - d) && block[n - 1] == ToByte(n - e);
      NumToByte(n - d);
      NumToByte(n - e);
    case OneAndZeros =>
      assert block[d] == 0x80 && block[e] == 0x80;
      assert forall i :: d < i < n ==> block[i] == 0;
      assert forall i :: e < i < n ==> block[i] == 0;
    case ZerosAndLen =>
      assert block[n - 1] == ToByte(n - d) && block[n - 1] == ToByte(n - e);
      NumToByte(n - d);
      NumToByte(n - e);
  }

  /** What was padded pads at its own length. */
  lemma PaddedPadsAt(pad: Padding, n: nat, data: Bytes)
    requires |data| < n < 256 && !pad.NoPadding?
    ensures PadsAt(pad, n, Padded(pad, n, data), |data|)
  {
    hide ToByte;
    assert Padded(pad, n, data)[..|data|] == data;
  }

  /** How many bytes are left when trailing zeros are stripped. */
  function Stripped(block: Bytes): (r: nat)
    ensures r <= |block|
  {
    if block == [] then 0 else if block[|block| - 1] != 0 then |block| else Stripped(block[..|block| - 1])
  }

  lemma {:induction false} StrippedIs(block: Bytes)
    ensures forall i :: Stripped(block) <= i < |block| ==> block[i] == 0
    ensures Stripped(block) > 0 ==> block[Stripped(block) - 1] != 0
  {
    if block != [] && block[|block| - 1] == 0 { StrippedIs(block[..|block| - 1]); }
  }

  lemma {:induction false} StrippedUnique(block: Bytes, r: nat)
    requires r <= |block| && forall i :: r <= i < |block| ==> block[i] == 0
    requires r > 0 ==> block[r - 1] != 0
    ensures Stripped(block) == r
  {
    if r < |block| { StrippedUnique(block[..|block| - 1], r); }
  }

  /** Zero padding gives data back exactly when the data does not itself end in zero. */
  lemma ZeroFillExactly(n: nat, data: Bytes)
    requires |data| < n < 256
    ensures Stripped(Padded(ZeroFill, n, data)) == |data| <==> data == [] || data[|data| - 1] != 0
  {
    var block := Padded(ZeroFill, n, data);
    StrippedIs(block);
    assert forall i :: |data| <= i < n ==> block[i] == 0;
    assert forall i :: 0 <= i < |data| ==> block[i] == data[i];
    if data == [] || data[|data| - 1] != 0 { StrippedUnique(block, |data|); }
  }

  // ------------------------------------------------------------- adding

  method AddPkcs(output: array<bv8>, n: nat, dataLen: nat)
    requires dataLen < n < 256 && n <= output.Length
    modifies output
    ensures output[..n] == Padded(Pkcs7, n, old(output[..dataLen]))
  {
    hide ToByte;
    ghost var data := output[..dataLen];
    var paddingLen := n - dataLen;
    var i := 0;
    while i < paddingLen
      invariant 0 <= i <= paddingLen && output[..dataLen] == data
      invariant forall m :: dataLen <= m < dataLen + i ==> output[m] == ToByte(paddingLen)
    {
      output[dataLen + i] := ToByte(paddingLen);
      i := i + 1;
    }
    assert forall m :: 0 <= m < dataLen ==> output[m] == output[..dataLen][m];
  }

  method AddOneAndZeros(output: array<bv8>, n: nat, dataLen: nat)
    requires dataLen < n < 256 && n <= output.Length
    modifies output
    ensures output[..n] == Padded(OneAndZeros, n, old(output[..dataLen]))
  {
    ghost var data := output[..dataLen];
    var paddingLen := n - dataLen;
    output[dataLen] := 0x80;
    var i := 1;
    while i < paddingLen
      invariant 1 <= i <= paddingLen && output[..dataLen] == data && output[dataLen] == 0x80
      invariant forall m :: dataLen < m < dataLen + i ==> output[m] == 0
    {
      output[dataLen + i] := 0;
      i := i + 1;
    }
    assert forall m :: 0 <= m < dataLen ==> output[m] == output[..dataLen][m];
  }

  method AddZerosAndLen(output: array<bv8>, n: nat, dataLen: nat)
    requires dataLen < n < 256 && n <= output.Length
    modifies output
    ensures output[..n] == Padded(ZerosAndLen, n, old(output[..dataLen]))
  {
    hide ToByte;
    ghost var data := output[..dataLen];
    var paddingLen := n - dataLen;
    var i := 1;
    while i < paddingLen
      invariant 1 <= i <= paddingLen && output[..dataLen] == data
      invariant forall m :: dataLen <= m < dataLen + i - 1 ==> output[m] == 0
    {
      output[dataLen + i - 1] := 0;
      i := i + 1;
    }
    output[n - 1] := ToByte(paddingLen);
    assert forall m :: 0 <= m < dataLen ==> output[m] == output[..dataLen][m];
  }

  method AddZeroFill(output: array<bv8>, n: nat, dataLen: nat)
    requires dataLen < n < 256 && n <= output.Length
    modifies output
    ensures output[..n] == Padded(ZeroFill, n, old(output[..dataLen]))
  {
    ghost var data := output[..dataLen];
    var i := dataLen;
    while i < n
      invariant dataLen <= i <= n && output[..dataLen] == data
      invariant forall m :: dataLen <= m < i ==> output[m] == 0
    {
      output[i] := 0;
      i := i + 1;
    }
    assert forall m :: 0 <= m < dataLen ==> output[m] == output[..dataLen][m];
  }

  // ------------------------------------------------------------ removing

  const SIZE_LIMIT: int := 0x1_0000_0000_0000_0000

  /** a - b in the arithmetic of size_t. */
  function SizeSub(a: nat, b: nat): nat {
    (a - b) % SIZE_LIMIT
  }

  lemma PkcsAt(n: nat, block: Bytes, d: nat)
    requires |block| == n < 256 && d < n
    ensures PadsAt(Pkcs7, n, block, d) <==> forall m :: d <= m < n ==> block[m] == ToByte(n - d)
  {
    hide ToByte;
    var p := Padded(Pkcs7, n, block[..d]);
    assert forall m :: 0 <= m < d ==> p[m] == block[m];
    assert forall m :: d <= m < n ==> p[m] == ToByte(n - d);
  }

  /** Every bad byte leaves a mark, whether the check is needed or not. */
  method GetPkcs(input: Bytes, n: nat) returns (ok: bool, dataLen: nat)
    requires |input| == n && 0 < n < 256
    ensures ok <==> IsPadded(Pkcs7, n, input)
    ensures ok ==> PadsAt(Pkcs7, n, input, dataLen)
  {
    hide ToByte, Num, PadsAt;
    var last := input[n - 1];
    var paddingLen := Num(last);
    dataLen := SizeSub(n, paddingLen);
    var bad := paddingLen > n || paddingLen == 0;
    var padIdx := SizeSub(n, paddingLen);
    ghost var early := bad;
    var i := 0;
    while i < n
      invariant 0 <= i <= n
      invariant bad <==> early || exists m :: padIdx <= m < i && input[m] != last
    {
      bad := bad || (i >= padIdx && input[i] != last);
      i := i + 1;
    }
    ok := !bad;
    PkcsBad(input, n, bad);
  }

  lemma PkcsBad(input: Bytes, n: nat, bad: bool)
    requires |input| == n && 0 < n < 256
    requires var last := input[n - 1];
      bad <==> (Num(last) > n || Num(last) == 0 || exists m :: SizeSub(n, Num(last)) <= m < n && input[m] != last)
    ensures !bad <==> IsPadded(Pkcs7, n, input)
    ensures !bad ==> PadsAt(Pkcs7, n, input, SizeSub(n, Num(input[n - 1])))
  {
    hide ToByte, Num, PadsAt;
    var last := input[n - 1];
    ToByteNum(last);
    if !bad { PkcsAt(n, input, n - Num(last)); }
    if IsPadded(Pkcs7, n, input) {
      var d: nat :| PadsAt(Pkcs7, n, input, d);
      PadsAtBound(Pkcs7, n, input, d);
      PkcsAt(n, input, d);
      NumToByte(n - d);
    }
  }

  lemma PadsAtBound(pad: Padding, n: nat, block: Bytes, d: nat)
    requires |block| == n < 256 && PadsAt(pad, n, block, d)
    ensures d < n
  {
  }

  /** From the end: the first nonzero byte met ends the data, and must be the marker. */
  method GetOneAndZeros(input: Bytes, n: nat) returns (ok: bool, dataLen: nat)
    requires |input| == n && 0 < n < 256
    ensures ok <==> IsPadded(OneAndZeros, n, input)
    ensures ok ==> PadsAt(OneAndZeros, n, input, dataLen)
  {
    hide XorByte, PadsAt, IsPadded;
    var bad: bv8 := 0x80;
    dataLen := 0;
    var done, prevDone := false, false;
    var i := n;
    StrippedIs(input);
    ghost var r := Stripped(input);
    while i > 0
      invariant 0 <= i <= n && (done <==> i < r)
      invariant if done then dataLen == r - 1 && bad == XorByte(0x80, input[r - 1]) else dataLen == 0 && bad == 0x80
    {
      prevDone := done;
      done := done || input[i - 1] != 0;
      dataLen := Or(dataLen, if done != prevDone then i - 1 else 0);
      XorByteZero(bad);
      bad := XorByte(bad, if done != prevDone then input[i - 1] else 0);
      i := i - 1;
    }
    ok := bad == 0;
    if r > 0 { XorByteSame(0x80, input[r - 1]); }
    OneAndZerosBad(input, n);
  }

  lemma OneAndZerosAt(n: nat, block: Bytes, d: nat)
    requires |block| == n < 256 && d < n
    ensures PadsAt(OneAndZeros, n, block, d) <==> block[d] == 0x80 && forall m :: d < m < n ==> block[m] == 0
  {
    var p := Padded(OneAndZeros, n, block[..d]);
    assert forall m :: 0 <= m < d ==> p[m] == block[m];
    assert p[d] == 0x80;
    assert forall m :: d < m < n ==> p[m] == 0;
  }

  lemma OneAndZerosBad(input: Bytes, n: nat)
    requires |input| == n && 0 < n < 256
    ensures var r := Stripped(input); r > 0 && input[r - 1] == 0x80 <==> IsPadded(OneAndZeros, n, input)
    ensures var r := Stripped(input); r > 0 && input[r - 1] == 0x80 ==> PadsAt(OneAndZeros, n, input, r - 1)
  {
    hide PadsAt;
    StrippedIs(input);
    var r := Stripped(input);
    if r > 0 { OneAndZerosAt(n, input, r - 1); }
    if IsPadded(OneAndZeros, n, input) {
      var d: nat :| PadsAt(OneAndZeros, n, input, d);
      PadsAtBound(OneAndZeros, n, input, d);
      OneAndZerosAt(n, input, d);
      StrippedUnique(input, d + 1);
    }
  }

  method GetZerosAndLen(input: Bytes, n: nat) returns (ok: bool, dataLen: nat)
    requires |input| == n && 0 < n < 256
    ensures ok <==> IsPadded(ZerosAndLen, n, input)
    ensures ok ==> PadsAt(ZerosAndLen, n, input, dataLen)
  {
    hide ToByte, Num, PadsAt;
    var paddingLen := Num(input[n - 1]);
    dataLen := SizeSub(n, paddingLen);
    var bad := paddingLen > n || paddingLen == 0;
    var padIdx := SizeSub(n, paddingLen);
    ghost var early := bad;
    var i := 0;
    while i < n - 1
      invariant 0 <= i <= n - 1
      invariant bad <==> early || exists m :: padIdx <= m < i && input[m] != 0
    {
      bad := bad || (i >= padIdx && input[i] != 0);
      i := i + 1;
    }
    ok := !bad;
    ZerosAndLenBad(input, n, bad);
  }

  lemma ZerosAndLenAt(n: nat, block: Bytes, d: nat)
    requires |block| == n < 256 && d < n
    ensures PadsAt(ZerosAndLen, n, block, d) <==>
      block[n - 1] == ToByte(n - d) && forall m :: d <= m < n - 1 ==> block[m] == 0
  {
    hide ToByte;
    var p := Padded(ZerosAndLen, n, block[..d]);
    assert forall m :: 0 <= m < d ==> p[m] == block[m];
    assert forall m :: d <= m < n - 1 ==> p[m] == 0;
    assert p[n - 1] == ToByte(n - d);
  }

  lemma ZerosAndLenBad(input: Bytes, n: nat, bad: bool)
    requires |input| == n && 0 < n < 256
    requires var len := Num(input[n - 1]);
      bad <==> (len > n || len == 0 || exists m :: SizeSub(n, len) <= m < n - 1 && input[m] != 0)
    ensures !bad <==> IsPadded(ZerosAndLen, n, input)
    ensures !bad ==> PadsAt(ZerosAndLen, n, input, SizeSub(n, Num(input[n - 1])))
  {
    hide ToByte, Num, PadsAt;
    var last := input[n - 1];
    ToByteNum(last);
    if !bad { ZerosAndLenAt(n, input, n - Num(last)); }
    if IsPadded(ZerosAndLen, n, input) {
      var d: nat :| PadsAt(ZerosAndLen, n, input, d);
      PadsAtBound(ZerosAndLen, n, input, d);
      ZerosAndLenAt(n, input, d);
      NumToByte(n - d);
    }
  }

  /** Strips trailing zeros; never fails. */
  method GetZeroFill(input: Bytes, n: nat) returns (dataLen: nat)
    requires |input| == n
    ensures dataLen == Stripped(input)
  {
    dataLen := 0;
    var done, prevDone := false, false;
    var i := n;
    StrippedIs(input);
    ghost var r := Stripped(input);
    while i > 0
      invariant 0 <= i <= n && (done <==> i < r)
      invariant dataLen == if done then r else 0
    {
      prevDone := done;
      done := done || input[i - 1] != 0;
      dataLen := Or(dataLen, if done != prevDone then i else 0);
      i := i - 1;
    }
  }
}
