/**
 * The tag-length-value encoding of DER: what an element's bytes are, what the parser finds at the
 * front of a byte string, and how the two fit together.
 */
module Der {
  import opened Numbers
  import opened Blocks
  import opened BigEndian

  const OUT_OF_DATA := -0x60
  const UNEXPECTED_TAG := -0x62
  const INVALID_LENGTH := -0x64
  const LENGTH_MISMATCH := -0x66
  const INVALID_DATA := -0x68
  const BUF_TOO_SMALL := -0x6C

  const INTEGER: bv8 := 0x02
  const BIT_STRING: bv8 := 0x03
  const NULL: bv8 := 0x05
  const OID: bv8 := 0x06
  const SEQUENCE: bv8 := 0x30

  const INT_MAX := 0x7FFF_FFFF
  const MAX_LEN := 0xFFFF_FFFF

  // ------------------------------------------------------------- encoding

  /** Number of bytes in the shortest big-endian form. */
  function ByteSize(v: nat): nat {
    if v == 0 then 0 else 1 + ByteSize(v / 256)
  }

  /** Bytes needed. */
  lemma {:induction false} ByteSizeBounds(v: nat)
    ensures v < Pow(256, ByteSize(v))
    ensures v > 0 ==> ByteSize(v) > 0 && Pow(256, ByteSize(v) - 1) <= v
  {
    hide Pow;
    PowStep(256, 0);
    if v > 0 {
      ByteSizeBounds(v / 256);
      PowStep(256, ByteSize(v / 256));
      if v >= 256 { PowStep(256, ByteSize(v / 256) - 1); }
    }
  }

  /** The length octets of X.690 sections 8.1.3.4, 8.1.3.5 and 10.1: short form below 128, else the fewest octets. */
  function DerLen(n: nat): (r: Bytes)
    requires n <= MAX_LEN
  {
    if n < 0x80 then [ToByte(n)]
    else
      SmallSize(n);
      [ToByte(0x80 + ByteSize(n))] + BE(n, ByteSize(n))
  }

  lemma SmallSize(n: nat)
    requires n <= MAX_LEN
    ensures ByteSize(n) <= 4
    ensures n >= 0x80 ==> ByteSize(n) >= 1
  {
    var a, b, c := n / 256, n / 256 / 256, n / 256 / 256 / 256;
    assert c / 256 == 0;
    assert ByteSize(c) <= 1 && ByteSize(b) <= 2 && ByteSize(a) <= 3;
  }

  function Tlv(tag: bv8, content: Bytes): (r: Bytes)
    requires |content| <= MAX_LEN
  {
    [tag] + DerLen(|content|) + content
  }

  // ------------------------------------------------------------- parsing

  /**
   * What stands at the front: content of len bytes starting at offset content; or an error, with the
   * cursor moved to offset cursor.
   */
  datatype Found = Got(content: nat, len: nat) | Bad(ret: int, cursor: nat)

  /** Everything moved k bytes on. */
  function Shift(f: Found, k: nat): Found {
    match f
    case Got(c, n) => Got(c + k, n)
    case Bad(r, c) => Bad(r, c + k)
  }

  /** Length octets followed by that much content. */
  function LenAt(s: Bytes): (f: Found)
    ensures f.Got? ==> f.content + f.len <= |s| && f.content > 0
    ensures f.Bad? ==> f.cursor <= |s| && f.ret < 0
  {
    if s == [] then Bad(OUT_OF_DATA, 0)
    else if Num(s[0]) < 0x80 then Room(s, 1, Num(s[0]))
    else
      var k := Num(s[0]) - 0x80;
      if k == 0 || k > 4 then Bad(INVALID_LENGTH, 0)
      else if |s| < k + 1 then Bad(OUT_OF_DATA, 0)
      else Room(s, k + 1, BEValue(s[1..k + 1]))
  }

  function Room(s: Bytes, content: nat, len: nat): Found
    requires content <= |s|
  {
    if len > |s| - content then Bad(OUT_OF_DATA, content) else Got(content, len)
  }

  /** An element with the given tag. */
  function ElementAt(s: Bytes, tag: bv8): (f: Found)
    ensures f.Got? ==> f.content + f.len <= |s| && f.content > 1
    ensures f.Bad? ==> f.cursor <= |s| && f.ret < 0
  {
    if s == [] then Bad(OUT_OF_DATA, 0)
    else if s[0] != tag then Bad(UNEXPECTED_TAG, 0)
    else Shift(LenAt(s[1..]), 1)
  }

  /** The bytes of the content found. */
  function Content(s: Bytes, f: Found): Bytes
    requires f.Got? && f.content + f.len <= |s|
  {
    s[f.content..f.content + f.len]
  }

  // ------------------------------------------------------- the two together

  /** The octets written for a length are read as that length, whatever follows. */
  lemma LenRead(n: nat, rest: Bytes)
    requires n <= MAX_LEN
    ensures LenAt(DerLen(n) + rest) == Room(DerLen(n) + rest, |DerLen(n)|, n)
  {
    hide Pow, ToByte, Num, BEValue, BE, Room;
    SmallSize(n);
    var s := DerLen(n) + rest;
    if n < 0x80 {
      NumToByte(n);
    } else {
      var k := ByteSize(n);
      NumToByte(0x80 + k);
      assert s[0] == ToByte(0x80 + k);
      assert s[1..k + 1] == BE(n, k);
      ByteSizeBounds(n);
      BEValueBE(n, k);
    }
  }

  /** An element written is the element found, with exactly its content. */
  lemma ElementRead(tag: bv8, content: Bytes, rest: Bytes)
    requires |content| <= MAX_LEN
    ensures var f := ElementAt(Tlv(tag, content) + rest, tag);
      f == Got(|Tlv(tag, content)| - |content|, |content|) && Content(Tlv(tag, content) + rest, f) == content
  {
    hide DerLen, LenAt;
    var s := Tlv(tag, content) + rest;
    assert s[1..] == DerLen(|content|) + (content + rest);
    LenRead(|content|, content + rest);
    var h := 1 + |DerLen(|content|)|;
    assert s[h..h + |content|] == content;
  }

  /** Cut anywhere, an element is out of data. */
  lemma TruncatedElement(tag: bv8, content: Bytes, k: nat)
    requires |content| <= MAX_LEN && k < |Tlv(tag, content)|
    ensures ElementAt(Tlv(tag, content)[..k], tag).Bad?
    ensures ElementAt(Tlv(tag, content)[..k], tag).ret == OUT_OF_DATA
  {
    hide DerLen, LenAt, Tlv;
    var s := Tlv(tag, content)[..k];
    if k > 0 {
      TlvParts(tag, content, k);
      TruncatedLength(|content|, content, k - 1);
    }
  }

  lemma TlvParts(tag: bv8, content: Bytes, k: nat)
    requires |content| <= MAX_LEN && 0 < k <= |Tlv(tag, content)|
    ensures |Tlv(tag, content)| == 1 + |DerLen(|content|)| + |content| && Tlv(tag, content)[0] == tag
    ensures Tlv(tag, content)[..k][1..] == (DerLen(|content|) + content)[..k - 1]
  {
    hide DerLen;
    assert Tlv(tag, content)[1..] == DerLen(|content|) + content;
    assert Tlv(tag, content)[..k][1..] == Tlv(tag, content)[1..][..k - 1];
  }

  lemma TruncatedLength(n: nat, content: Bytes, k: nat)
    requires n == |content| <= MAX_LEN && k < |DerLen(n)| + n
    ensures LenAt((DerLen(n) + content)[..k]).Bad?
    ensures LenAt((DerLen(n) + content)[..k]).ret == OUT_OF_DATA
  {
    hide DerLen;
    var s := (DerLen(n) + content)[..k];
    if k >= |DerLen(n)| {
      hide LenAt;
      assert s == DerLen(n) + content[..k - |DerLen(n)|];
      LenRead(n, content[..k - |DerLen(n)|]);
    } else if k > 0 {
      FirstOctet(n);
      assert s[0] == DerLen(n)[0];
    }
  }

  lemma FirstOctet(n: nat)
    requires n <= MAX_LEN
    ensures |DerLen(n)| > 0
    ensures |DerLen(n)| > 1 ==> Num(DerLen(n)[0]) == 0x80 + |DerLen(n)| - 1 && |DerLen(n)| <= 5
  {
    hide ToByte, Num, BE;
    SmallSize(n);
    if n >= 0x80 { NumToByte(0x80 + ByteSize(n)); }
  }

  /** No shorter octets would do for this length: the short form, or a long form that needs its first octet. */
  predicate Shortest(s: Bytes)
    requires |s| > 0
  {
    || Num(s[0]) < 0x80
    || (Num(s[0]) == 0x81 && |s| > 1 && Num(s[1]) >= 0x80)
    || (Num(s[0]) > 0x81 && |s| > 1 && s[1] != 0)
  }

  /**
   * The parser also takes lengths padded with zeros or in the long form for no need.  What it takes
   * is the form written exactly for the octets above.
   */
  lemma MinimalExactly(s: Bytes)
    requires LenAt(s).Got?
    ensures s != [] && LenAt(s).len <= MAX_LEN
    ensures s[..LenAt(s).content] == DerLen(LenAt(s).len) <==> Shortest(s)
  {
    hide BEValue, BE, Num, ToByte, LenAt, DerLen;
    AsFewOctets(s);
    OctetCount(s);
  }

  /** How many octets are found, and how many the length needs. */
  lemma OctetCount(s: Bytes)
    requires LenAt(s).Got?
    ensures s != [] && LenAt(s).len <= MAX_LEN
    ensures LenAt(s).content == |DerLen(LenAt(s).len)| <==> Shortest(s)
  {
    hide Pow, BEValue, BE, Num, ToByte;
    if Num(s[0]) >= 0x80 {
      var digits := s[1..LenAt(s).content];
      BEValueBound(digits);
      Pow4();
      PowMono(256, |digits|, 4);
      SmallSize(BEValue(digits));
      SizeExactly(digits);
      if |digits| == 1 {
        assert digits == [] + [s[1]];
        BEValueSnoc([], s[1]);
        EmptyValue([]);
      } else {
        FewDigits(digits);
      }
    }
  }

  /** A number of two digits or more, the first not zero, is no short form. */
  lemma FewDigits(digits: Bytes)
    requires |digits| > 1
    ensures BEValue(digits) < 0x80 ==> digits[0] == 0
  {
    hide Pow, BEValue, Num;
    if digits[0] != 0 {
      LeadingDigit(digits);
      Pow4();
      PowMono(256, 1, |digits| - 1);
    }
  }

  /** Digits are as few as their number needs exactly if the first is not zero. */
  lemma SizeExactly(digits: Bytes)
    requires digits != []
    ensures ByteSize(BEValue(digits)) == |digits| <==> digits[0] != 0
  {
    hide Pow, BEValue, Num;
    var n := BEValue(digits);
    BEValueBound(digits);
    SizeBelow(n, |digits|);
    if digits[0] == 0 {
      assert digits == Zeros(1) + digits[1..];
      BEValueZeros(1, digits[1..]);
      BEValueBound(digits[1..]);
      SizeBelow(n, |digits| - 1);
    } else {
      LeadingDigit(digits);
      ByteSizeBounds(n);
      if ByteSize(n) < |digits| { PowMono(256, ByteSize(n), |digits| - 1); }
    }
  }

  /**
   * The length octets of sections 8.1.3 and 10.1 of X.690: one octet up to 127; above that a count of octets
   * with the top bit set, and so many octets that hold the length, the first of them not zero.
   */
  lemma LengthOctets(n: nat)
    requires n <= MAX_LEN
    ensures var d := DerLen(n);
      if n < 0x80 then |d| == 1 && Num(d[0]) == n
      else 2 <= |d| <= 5 && Num(d[0]) == 0x80 + (|d| - 1) && d[1] != 0 && BEValue(d[1..]) == n
  {
    hide Pow, BEValue, Num, ToByte, BE;
    SmallSize(n);
    if n < 0x80 {
      NumToByte(n);
    } else {
      NumToByte(0x80 + ByteSize(n));
      ByteSizeBounds(n);
      BEValueBE(n, ByteSize(n));
      var d := DerLen(n);
      assert d[1..] == BE(n, ByteSize(n));
      SizeExactly(d[1..]);
    }
  }

  lemma LeadingDigit(digits: Bytes)
    requires digits != [] && digits[0] != 0
    ensures BEValue(digits) >= Pow(256, |digits| - 1)
  {
    hide Pow, BEValue, Num;
    var rest := digits[1..];
    assert digits == [digits[0]] + rest && [digits[0]] == [] + [digits[0]];
    BEValueConcat([digits[0]], rest);
    BEValueSnoc([], digits[0]);
    EmptyValue([]);
    NonZeroByte(digits[0]);
    PowPos(256, |rest|);
    MulMono(Pow(256, |rest|), 1, Num(digits[0]));
    MulComm(Num(digits[0]), Pow(256, |rest|));
  }

  lemma NonZeroByte(b: bv8)
    requires b != 0
    ensures Num(b) > 0
  {
  }

  /** What is found is what is written exactly when it is as few octets. */
  lemma AsFewOctets(s: Bytes)
    requires LenAt(s).Got?
    ensures LenAt(s).len <= MAX_LEN && |DerLen(LenAt(s).len)| <= LenAt(s).content
    ensures s[..LenAt(s).content] == DerLen(LenAt(s).len) <==> LenAt(s).content == |DerLen(LenAt(s).len)|
  {
    hide Pow, BEValue, BE, Num, ToByte;
    var n, o := LenAt(s).len, LenAt(s).content;
    if Num(s[0]) < 0x80 {
      ToByteNum(s[0]);
    } else {
      var digits := s[1..o];
      BEValueBound(digits);
      Pow4();
      PowMono(256, o - 1, 4);
      SmallSize(n);
      SizeBelow(n, o - 1);
      if n >= 0x80 && ByteSize(n) == o - 1 {
        BEOfValue(digits);
        ToByteNum(s[0]);
        assert s[..o] == [s[0]] + digits;
      }
    }
  }

  lemma Pow4()
    ensures Pow(256, 4) == MAX_LEN + 1 && Pow(256, 3) == 0x100_0000 && Pow(256, 2) == 0x1_0000 && Pow(256, 1) == 256
  {
    PowStep(256, 0);
    PowStep(256, 1);
    PowStep(256, 2);
    PowStep(256, 3);
  }

  lemma SizeBelow(n: nat, k: nat)
    requires n < Pow(256, k)
    ensures ByteSize(n) <= k
  {
    hide Pow;
    ByteSizeBounds(n);
    if ByteSize(n) > k { PowMono(256, k, ByteSize(n) - 1); }
  }

  /** Bytes are the big-endian form of their number. */
  lemma {:induction false} BEOfValue(s: Bytes)
    ensures BE(BEValue(s), |s|) == s
  {
    hide Num, ToByte;
    if s != [] {
      var m := |s| - 1;
      BEOfValue(s[..m]);
      ToByteNum(s[m]);
      DivModUnique(BEValue(s), 256, BEValue(s[..m]), Num(s[m]));
      assert s == s[..m] + [s[m]];
    }
  }

  /** A length the parser takes that is never written. */
  lemma PaddedLengthAccepted()
    ensures LenAt([0x81, 0x01, 0x2A]) == Got(2, 1) && DerLen(1) == [0x01]
  {
    var s: Bytes := [0x81, 0x01, 0x2A];
    assert s[1..2] == [] + [0x01];
    BEValueSnoc([], 0x01);
  }
}
