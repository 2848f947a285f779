/** INTEGER elements: native integers and multi-precision ones. */
module DerNumbers {
  import opened Numbers
  import opened Blocks
  import opened BigEndian
  import opened Der
  import opened DerParse
  import opened DerWrite
  import opened Bits
  import Mpis
  import MpiShift
  import MpiBinary

  // ------------------------------------------------------------- native integers

  type Int32 = v: int | -0x8000_0000 <= v <= INT_MAX witness 0

  /** The number that gets written: of a negative one only the low byte. */
  function Shown(v: Int32): nat {
    if v > 0 then v else v % 256
  }

  function AtLeastOne(n: nat): nat {
    if n == 0 then 1 else n
  }

  /** Big-endian digits, at least one. */
  function Digits(w: nat): (r: Bytes)
    ensures r != []
  {
    BE(w, AtLeastOne(ByteSize(w)))
  }

  /** With a zero in front when the top bit would read as a sign. */
  function Unsigned(digits: Bytes): Bytes {
    if digits != [] && Num(digits[0]) >= 0x80 then [0] + digits else digits
  }

  function IntContent(v: Int32): (r: Bytes)
    ensures 1 <= |r| <= 5
  {
    SmallSize(Shown(v));
    Unsigned(Digits(Shown(v)))
  }

  lemma TopBitSet(b: bv8)
    ensures b & 0x80 != 0 <==> Num(b) >= 0x80
  {
  }

  /** k of the digits are written, what is left is v. */
  ghost predicate Pending(w: nat, k: nat, v: int) {
    && Pow(256, k) > 0 && AtLeastOne(ByteSize(w)) == k + ByteSize(w / Pow(256, k))
    && (v > 0 ==> v == w / Pow(256, k)) && (v <= 0 ==> w / Pow(256, k) == 0)
  }

  lemma FirstDigit(v: Int32)
    ensures Pending(Shown(v), 1, v / 256)
    ensures v % 256 == Shown(v) % 256 && BE(Shown(v), 1) == [ToByte(v % 256)]
  {
    hide ToByte;
    PowStep(256, 0);
    BE1(Shown(v));
  }

  lemma NextDigits(w: nat, k: nat, v: int)
    requires Pending(w, k, v) && v > 0
    ensures Pending(w, k + 1, v / 256) && k < AtLeastOne(ByteSize(w))
    ensures BE(w, k + 1) == [ToByte(v % 256)] + BE(w, k)
  {
    hide Pow, ToByte, BE;
    BEFront(w, k);
    DivPow(w, k);
  }

  /** The digits low to high until nothing is left. */
  method WriteIntDigits(buf: array<bv8>, start: nat, p: nat, val: Int32) returns (ret: int, q: nat)
    requires p <= buf.Length
    modifies buf
    ensures Written(old(buf[..]), buf[..], start, p, ret, q, Digits(Shown(val)))
  {
    hide Written, ToByte, BE, Pending;
    ghost var was, w, k := buf[..], Shown(val), 0;
    var v, len, again := val, 0, true;
    q := p;
    while again
      invariant q <= buf.Length && len == k && (again <==> k == 0 || v > 0)
      invariant k == 0 ==> v == val && q == p && buf[..] == was
      invariant k > 0 ==> Pending(w, k, v) && Written(was, buf[..], start, p, len, q, BE(w, k))
      decreases again, v
    {
      ghost var mid, at := q, buf[..];
      ret, q := PutByte(buf, start, q, ToByte(v % 256));
      if k == 0 { FirstDigit(val); } else {
        NextDigits(w, k, v);
        ThenWritten(was, at, buf[..], start, p, mid, q, BE(w, k), ret, [ToByte(v % 256)]);
      }
      if ret < 0 {
        Fails(was, buf[..], start, p, ret, q, BE(w, k + 1), Digits(w));
        return;
      }
      OnlyWhole(was, buf[..], start, p, len + ret, q, BE(w, k + 1));
      len := len + 1;
      v := v / 256;
      k := k + 1;
      again := v > 0;
    }
    NoneLeft(w, k, v);
    ret := len;
  }

  lemma NoneLeft(w: nat, k: nat, v: int)
    requires Pending(w, k, v) && v <= 0
    ensures k == AtLeastOne(ByteSize(w))
  {
  }

  method WriteTaggedInt(buf: array<bv8>, start: nat, p: nat, val: Int32, tag: bv8) returns (ret: int, q: nat)
    requires p <= buf.Length <= INT_MAX
    modifies buf
    ensures Written(old(buf[..]), buf[..], start, p, ret, q, Tlv(tag, IntContent(val)))
  {
    hide DerLen, Digits, Num;
    ghost var was, digits, content := buf[..], Digits(Shown(val)), IntContent(val);
    TlvSize(tag, content);
    ret, q := WriteIntDigits(buf, start, p, val);
    if ret < 0 {
      Fails(was, buf[..], start, p, ret, q, digits, Tlv(tag, content));
      return;
    }
    var len := ret;
    TopBitSet(buf[q]);
    assert buf[q] == buf[q..p][0] == digits[0];
    if buf[q] & 0x80 != 0 {
      ghost var mid, at := q, buf[..];
      ret, q := PutByte(buf, start, q, 0);
      ThenWritten(was, at, buf[..], start, p, mid, q, digits, ret, [0]);
      if ret < 0 {
        Fails(was, buf[..], start, p, ret, q, content, Tlv(tag, content));
        return;
      }
      len := len + 1;
    }
    hide Written;
    ret, q := AddHeader(buf, start, q, len, tag, 0, was, p, content);
  }

  /** Content that is a native integer, as far as the parser is concerned: not negative, and it fits. */
  predicate IntOk(c: Bytes) {
    c != [] && Num(c[0]) < 0x80 && BEValue(c) <= INT_MAX
  }

  method GetTaggedInt(mem: Bytes, p: nat, end: nat, tag: bv8) returns (ret: int, q: nat, val: int)
    requires p <= end <= |mem|
    ensures var f := ElementAt(mem[p..end], tag);
      if f.Bad? then ret == f.ret && q == p + f.cursor
      else
        var c := mem[p + f.content..p + f.content + f.len];
        if IntOk(c) then ret == 0 && val == BEValue(c) && q == p + f.content + f.len else ret == INVALID_LENGTH
  {
    hide ElementAt, BEValue, Num;
    val := 0;
    var len;
    ret, q, len := GetTag(mem, p, end, tag);
    if ret != 0 { return; }
    if len == 0 { return INVALID_LENGTH, q, val; }
    TopBitSet(mem[q]);
    if mem[q] & 0x80 != 0 { return INVALID_LENGTH, q, val; }
    ret, q, val := IntFrom(mem, q, len);
  }

  /** The value of digits, if it fits. */
  method IntFrom(mem: Bytes, p: nat, n: nat) returns (ret: int, q: nat, val: int)
    requires p + n <= |mem|
    ensures var v := BEValue(mem[p..p + n]);
      if v <= INT_MAX then ret == 0 && val == v && q == p + n else ret == INVALID_LENGTH
  {
    hide BEValue, Num, Or, Pow;
    var len := n;
    q, val := p, 0;
    ghost var all := mem[p..p + n];
    while len > 0 && mem[q] == 0
      invariant q + len == p + n && p <= q && BEValue(mem[q..p + n]) == BEValue(all)
    {
      assert mem[q..p + n] == Zeros(1) + mem[q + 1..p + n];
      BEValueZeros(1, mem[q + 1..p + n]);
      q := q + 1;
      len := len - 1;
    }
    ghost var digits := mem[q..p + n];
    FitsInt(digits);
    if len > 4 { return INVALID_LENGTH, q, val; }
    if len == 4 { TopBitSet(mem[q]); }
    if len == 4 && mem[q] & 0x80 != 0 { return INVALID_LENGTH, q, val; }
    ghost var from := q;
    EmptyValue([]);
    assert mem[from..q] == [];
    while len > 0
      invariant from <= q && q + len == p + n && val == BEValue(mem[from..q]) >= 0
    {
      assert mem[from..q + 1] == mem[from..q] + [mem[q]];
      BEValueSnoc(mem[from..q], mem[q]);
      TwoPowers();
      OrDisjoint(val, Num(mem[q]), 8);
      val := Or(val * 256, Num(mem[q]));
      q := q + 1;
      len := len - 1;
    }
    ret := 0;
  }

  /** Digits without leading zeros are an int exactly if there are at most four and the top bit is clear. */
  lemma FitsInt(digits: Bytes)
    requires digits != [] ==> digits[0] != 0
    ensures BEValue(digits) <= INT_MAX <==> |digits| < 4 || (|digits| == 4 && Num(digits[0]) < 0x80)
  {
    hide BEValue, Num, Pow;
    Pow4();
    BEValueBound(digits);
    if digits == [] {
      EmptyValue(digits);
    } else {
      var rest := digits[1..];
      assert digits == [digits[0]] + rest;
      BEValueConcat([digits[0]], rest);
      BEValueSnoc([], digits[0]);
      EmptyValue([]);
      assert [] + [digits[0]] == [digits[0]];
      BEValueBound(rest);
      NonZero(digits[0]);
      FirstDigitDecides(Num(digits[0]), |rest|, BEValue(rest), BEValue(digits));
    }
  }

  lemma NonZero(b: bv8)
    requires b != 0
    ensures Num(b) > 0
  {
  }

  lemma FirstDigitDecides(d: nat, k: nat, r: nat, v: nat)
    requires 0 < d < 256 && r < Pow(256, k) && v == d * Pow(256, k) + r
    ensures v <= INT_MAX <==> k < 3 || (k == 3 && d < 0x80)
  {
    hide Pow;
    Pow4();
    PowStep(256, 0);
    if k >= 4 {
      PowMono(256, 4, k);
      MulMono(Pow(256, k), 1, d);
      MulComm(d, Pow(256, k));
    } else if k < 3 {
      PowMono(256, k + 1, 3);
      PowStep(256, k);
      MulMono(Pow(256, k), d, 255);
      MulComm(d, Pow(256, k));
    }
  }

  /** What was written is read as the number shown: the same number exactly if it is not negative. */
  lemma IntRead(v: Int32)
    ensures IntOk(IntContent(v)) && BEValue(IntContent(v)) == Shown(v)
    ensures BEValue(IntContent(v)) == v <==> v >= 0
  {
    hide BEValue, Num, Pow, BE;
    DigitsValue(Shown(v));
    var d := Digits(Shown(v));
    if Num(d[0]) >= 0x80 {
      ZeroFirst(d);
    }
  }

  /**
   * The content of an INTEGER as section 8.3 of X.690 has it for the number itself, or the low byte of a
   * negative one: no sign bit, and a zero in front only of a byte with its top bit set.
   */
  lemma IntShortest(v: Int32)
    ensures var c := IntContent(v);
      && BEValue(c) == (if v >= 0 then v else v % 256)
      && Num(c[0]) < 0x80
      && (|c| > 1 && c[0] == 0 ==> Num(c[1]) >= 0x80)
  {
    hide BEValue, Num, Pow, BE;
    IntRead(v);
    var w := Shown(v);
    DigitsShortest(w);
    ZeroNum();
  }

  lemma ZeroNum()
    ensures Num(0) == 0
  {
  }

  /** No zero in front of other digits. */
  lemma DigitsShortest(w: nat)
    ensures |Digits(w)| > 1 ==> Digits(w)[0] != 0
  {
    hide BEValue, Num, Pow, BE;
    DigitsValue(w);
    SizeExactly(Digits(w));
  }

  lemma ZeroFirst(d: Bytes)
    ensures BEValue([0] + d) == BEValue(d) && Num(([0] + d)[0]) == 0
  {
    hide BEValue;
    assert Zeros(1) + d == [0] + d;
    BEValueZeros(1, d);
  }

  lemma DigitsValue(w: nat)
    ensures BEValue(Digits(w)) == w
  {
    hide Pow, BEValue, BE;
    ByteSizeBounds(w);
    if w == 0 { PowStep(256, 0); PowMono(256, 0, 1); }
    BEValueBE(w, AtLeastOne(ByteSize(w)));
  }

  /** The whole way: writing any int and reading it back, with as many bytes read as written. */
  method IntRoundTrip(buf: array<bv8>, start: nat, p: nat, v: Int32, tag: bv8) returns (ret: int, val: int, consumed: nat)
    requires p <= buf.Length <= INT_MAX
    modifies buf
    ensures ret == BUF_TOO_SMALL <==> p - start < |Tlv(tag, IntContent(v))|
    ensures ret != BUF_TOO_SMALL ==> ret == consumed && val == Shown(v)
  {
    hide ElementAt, BEValue, Tlv, IntOk, IntContent;
    var q;
    ret, q := WriteTaggedInt(buf, start, p, v, tag);
    consumed, val := 0, 0;
    if ret < 0 { return; }
    ElementRead(tag, IntContent(v), []);
    assert Tlv(tag, IntContent(v)) + [] == Tlv(tag, IntContent(v)) == buf[..][q..p];
    TlvSize(tag, IntContent(v));
    IntRead(v);
    SliceSlice(buf[..], q, p, |Tlv(tag, IntContent(v))| - |IntContent(v)|, |IntContent(v)|);
    var code, r;
    code, r, val := GetTaggedInt(buf[..], q, p, tag);
    consumed := r - q;
  }

  // ----------------------------------------------------- multi-precision integers

  /** The magnitude, and a zero in front of a positive number whose top bit is set; for zero the byte behind decides. */
  function MpiContent(v: nat, s: Mpis.Sign, behind: bool): (r: Bytes)
    ensures ByteSize(v) <= |r| <= ByteSize(v) + 1
  {
    var d := BE(v, ByteSize(v));
    if s == 1 && (if d == [] then behind else Num(d[0]) >= 0x80) then [0] + d else d
  }

  lemma SizeInBytes(v: nat)
    ensures (BitLen(v) + 7) / 8 == ByteSize(v)
  {
    hide Pow;
    TwoPowers();
    if v < 256 {
      if v > 0 { PowStep(2, 0); BitLenLe(v, 8); assert BitLen(v) >= 1; assert ByteSize(v / 256) == 0; }
    } else {
      SizeInBytes(v / 256);
      BitLenScaled(v, v % 256, v / 256, 8);
    }
  }

  /** The magnitude in place, no header yet. */
  method WriteMagnitude(X: Mpis.Mpi, buf: array<bv8>, start: nat, p: nat) returns (ret: int, q: nat)
    requires p <= buf.Length <= INT_MAX
    modifies buf
    ensures Written(old(buf[..]), buf[..], start, p, ret, q, BE(Mpis.Val(X.p), ByteSize(Mpis.Val(X.p))))
  {
    hide BE, Pow, ByteSize;
    var len := MpiShift.SizeOf(X);
    SizeInBytes(Mpis.Val(X.p));
    if p < start || p - start < len { return BUF_TOO_SMALL, p; }
    q := p - len;
    ByteSizeBounds(Mpis.Val(X.p));
    var ok := MpiBinary.WriteBinary(X, buf, q, len);
    ret := len;
  }

  method WriteMpi(X: Mpis.Mpi, buf: array<bv8>, start: nat, p: nat) returns (ret: int, q: nat)
    requires p <= buf.Length <= INT_MAX
    requires X.s == 1 && Mpis.Val(X.p) == 0 ==> p < buf.Length
    modifies buf
    ensures var c := MpiContent(Mpis.Val(X.p), X.s, p < buf.Length && Num(old(buf[..])[p]) >= 0x80);
      if |c| <= MAX_LEN then Written(old(buf[..]), buf[..], start, p, ret, q, Tlv(INTEGER, c)) else ret == BUF_TOO_SMALL
  {
    hide DerLen, BE, Num, ByteSize, Written;
    ghost var was, v := buf[..], Mpis.Val(X.p);
    ghost var d, c := BE(v, ByteSize(v)), MpiContent(v, X.s, p < buf.Length && Num(was[p]) >= 0x80);
    if |c| <= MAX_LEN { TlvSize(INTEGER, c); }
    ret, q := WriteMagnitude(X, buf, start, p);
    if ret < 0 {
      Fails(was, buf[..], start, p, ret, q, d, d);
      if |c| <= MAX_LEN { Fails(was, buf[..], start, p, ret, q, d, Tlv(INTEGER, c)); }
      return;
    }
    OnlyWhole(was, buf[..], start, p, ret, q, d);
    var len := ret;
    EmptyMagnitude(v);
    if X.s == 1 { TopOctet(was, buf[..], start, p, len, q, d); }
    hide MpiContent;
    ghost var pad := X.s == 1 && buf[q] & 0x80 != 0;
    ContentIs(v, X.s, p < buf.Length && Num(was[p]) >= 0x80, pad);
    ret, q := PadAndHead(buf, start, q, len, X.s == 1 && buf[q] & 0x80 != 0, was, p, d, c);
  }

  lemma ContentIs(v: nat, s: Mpis.Sign, behind: bool, pad: bool)
    requires pad <==> s == 1 && if BE(v, ByteSize(v)) == [] then behind else Num(BE(v, ByteSize(v))[0]) >= 0x80
    ensures MpiContent(v, s, behind) == if pad then [0] + BE(v, ByteSize(v)) else BE(v, ByteSize(v))
  {
  }

  /** A zero in front of the digits if it is needed, and the header. */
  method PadAndHead(buf: array<bv8>, start: nat, q0: nat, len0: nat, pad: bool,
                    ghost was: Bytes, ghost p: nat, ghost d: Bytes, ghost c: Bytes)
    returns (ret: int, q: nat)
    requires q0 <= buf.Length <= INT_MAX && p <= buf.Length && len0 == |d| && c == (if pad then [0] + d else d)
    requires Written(was, buf[..], start, p, len0, q0, d)
    modifies buf
    ensures if |c| <= MAX_LEN then Written(was, buf[..], start, p, ret, q, Tlv(INTEGER, c)) else ret == BUF_TOO_SMALL
  {
    hide DerLen, Written;
    if |c| <= MAX_LEN { TlvSize(INTEGER, c); }
    q := q0;
    var len := len0;
    if pad {
      ghost var at := buf[..];
      ret, q := PutByte(buf, start, q, 0);
      ThenWritten(was, at, buf[..], start, p, q0, q, d, ret, [0]);
      if ret < 0 {
        Fails(was, buf[..], start, p, ret, q, c, c);
        if |c| <= MAX_LEN { Fails(was, buf[..], start, p, ret, q, c, Tlv(INTEGER, c)); }
        return;
      }
      OnlyWhole(was, buf[..], start, p, len + ret, q, c);
      len := len + 1;
    }
    ret, q := AddHeader(buf, start, q, len, INTEGER, 0, was, p, c);
  }

  /** The octet at the cursor: the first digit, or what was behind. */
  lemma TopOctet(was: Bytes, now: Bytes, start: nat, p: nat, len: nat, q: nat, d: Bytes)
    requires Written(was, now, start, p, len, q, d) && q < |now|
    ensures now[q] & 0x80 != 0 <==> if d == [] then p < |was| && Num(was[p]) >= 0x80 else Num(d[0]) >= 0x80
  {
    hide Num;
    TopBitSet(now[q]);
    if d == [] {
      assert now[q] == now[p..][0] == was[p..][0];
    } else {
      assert now[q] == now[q..p][0];
    }
  }

  lemma EmptyMagnitude(v: nat)
    ensures BE(v, ByteSize(v)) == [] <==> v == 0
  {
  }

  method GetMpi(mem: Bytes, p: nat, end: nat, X: Mpis.Mpi) returns (ret: int, q: nat)
    requires p <= end <= |mem|
    modifies X
    ensures var f := ElementAt(mem[p..end], INTEGER);
      if f.Bad? then ret == f.ret && q == p + f.cursor && X.s == old(X.s) && X.p == old(X.p)
      else
        && ret == 0 && q == p + f.content + f.len && X.s == 1
        && X.Value() == BEValue(mem[p + f.content..p + f.content + f.len])
  {
    hide ElementAt, BEValue;
    var len;
    ret, q, len := GetTag(mem, p, end, INTEGER);
    if ret != 0 { return; }
    MpiBinary.ReadBinary(X, mem[q..q + len]);
    q := q + len;
  }

  /** The content written stands for the magnitude. */
  lemma MpiRead(v: nat, s: Mpis.Sign, behind: bool)
    ensures BEValue(MpiContent(v, s, behind)) == v
  {
    hide BEValue, BE, Pow, Num;
    ByteSizeBounds(v);
    BEValueBE(v, ByteSize(v));
    ZeroFirst(BE(v, ByteSize(v)));
  }

  /** The content written holds no zero in front but the one that keeps a positive number from reading as negative. */
  lemma MpiShortest(v: nat, s: Mpis.Sign, behind: bool)
    ensures var c := MpiContent(v, s, behind);
      && BEValue(c) == v
      && (s == 1 && v > 0 ==> c != [] && Num(c[0]) < 0x80)
      && (v > 0 && c != [] && c[0] == 0 ==> s == 1 && |c| > 1 && Num(c[1]) >= 0x80)
      && (v == 0 ==> c == if s == 1 && behind then [0] else [])
  {
    hide BEValue, BE, Pow, Num;
    MpiRead(v, s, behind);
    EmptyMagnitude(v);
    var d := BE(v, ByteSize(v));
    ZeroNum();
    if v > 0 {
      ByteSizeBounds(v);
      BEValueBE(v, ByteSize(v));
      SizeExactly(d);
    }
  }

  /** Reading back gives the magnitude: the number itself exactly if it is not negative. */
  method MpiRoundTrip(X: Mpis.Mpi, buf: array<bv8>, start: nat, p: nat) returns (ret: int, Y: Mpis.Mpi, consumed: nat)
    requires p <= buf.Length <= INT_MAX
    requires X.s == 1 && Mpis.Val(X.p) == 0 ==> p < buf.Length
    modifies buf
    ensures fresh(Y) && (ret > 0 || ret == BUF_TOO_SMALL)
    ensures ret > 0 ==> ret == consumed && Y.Value() == Mpis.Abs(X.Value())
    ensures ret > 0 ==> (Y.Value() == X.Value() <==> X.Value() >= 0)
  {
    hide ElementAt, BEValue, Tlv, MpiContent;
    ghost var c := MpiContent(Mpis.Val(X.p), X.s, p < buf.Length && Num(buf[..][p]) >= 0x80);
    Y := new Mpis.Mpi();
    consumed := 0;
    var q;
    ret, q := WriteMpi(X, buf, start, p);
    if |c| <= MAX_LEN { TlvSize(INTEGER, c); }
    if ret < 0 { return; }
    ElementRead(INTEGER, c, []);
    assert Tlv(INTEGER, c) + [] == Tlv(INTEGER, c) == buf[..][q..p];
    MpiRead(Mpis.Val(X.p), X.s, p < buf.Length && Num(old(buf[..])[p]) >= 0x80);
    SliceSlice(buf[..], q, p, |Tlv(INTEGER, c)| - |c|, |c|);
    var code, r;
    code, r := GetMpi(buf[..], q, p, Y);
    consumed := r - q;
  }

  /**
   * No content at all, though section 8.3.1 of X.690 asks for an octet: exactly for zero, unless its sign
   * is positive and the byte behind has its top bit set.
   */
  lemma EmptyExactly(v: nat, s: Mpis.Sign, behind: bool)
    ensures MpiContent(v, s, behind) == [] <==> v == 0 && !(s == 1 && behind)
  {
    EmptyMagnitude(v);
  }

  /**
   * When the parser for native integers takes what was written: the number fits, it is not an empty zero,
   * and a magnitude that fills its top byte has a positive sign.
   */
  lemma NativeExactly(v: nat, s: Mpis.Sign, behind: bool)
    ensures IntOk(MpiContent(v, s, behind)) <==>
      v <= INT_MAX && if v == 0 then s == 1 && behind else s == 1 || BitLen(v) % 8 != 0
  {
    hide BEValue, BE, Pow, Num;
    MpiRead(v, s, behind);
    EmptyMagnitude(v);
    var d := BE(v, ByteSize(v));
    ZeroFirst(d);
    if v > 0 { TopDigit(v); }
  }

  /** The first digit has its top bit set exactly if the bits fill the bytes. */
  lemma TopDigit(v: nat)
    requires v > 0
    ensures BE(v, ByteSize(v)) != []
    ensures Num(BE(v, ByteSize(v))[0]) >= 0x80 <==> BitLen(v) % 8 == 0
  {
    hide Pow, Num, ToByte, BE, ByteSize, BitLen;
    ByteSizeBounds(v);
    var k := ByteSize(v) - 1;
    BEFront(v, k);
    var d := FirstByte(v, k);
    DivModUnique(d, 256, 0, d);
    NumToByte(d);
    ByteBits(d);
  }

  /** The part of v above its k low bytes. */
  lemma FirstByte(v: nat, k: nat) returns (d: nat)
    requires Pow(256, k) <= v < Pow(256, k + 1)
    ensures 0 < d < 256 && Pow(256, k) > 0 && d == v / Pow(256, k) && BitLen(v) == 8 * k + BitLen(d)
  {
    hide Pow, BitLen;
    var P := Pow(256, k);
    PowPos(256, k);
    PowStep(256, k);
    DivModProps(v, P);
    DivBounds(v, P, 256);
    d := v / P;
    MulComm(0, P);
    MpiBinary.Pow256Is(k);
    BitLenScaled(v, v % P, d, 8 * k);
  }

  lemma ByteBits(d: nat)
    requires 0 < d < 256
    ensures 1 <= BitLen(d) <= 8 && (BitLen(d) == 8 <==> d >= 0x80)
  {
    TwoPowers();
    assert Pow(2, 7) == 0x80;
    if d < 0x80 { BitLenLe(d, 7); } else { BitLenUnique(d, 8); }
  }
}
