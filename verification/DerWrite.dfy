/** Writing DER backwards: every routine moves the cursor down from the end of what is free. */
module DerWrite {
  import opened Numbers
  import opened Blocks
  import opened BigEndian
  import opened Der

  /**
   * enc went in front of p, if there is room for it above start: the value returned is its length and
   * the cursor stands at its first byte.  Otherwise the buffer was too small.  Nothing outside changed.
   */
  ghost predicate Written(was: Bytes, now: Bytes, start: nat, p: nat, ret: int, q: nat, enc: Bytes) {
    && |was| == |now| && q <= p <= |was| && now[..q] == was[..q] && now[p..] == was[p..]
    && (q == p || start <= q)
    && if p - start >= |enc| then ret == |enc| && q == p - |enc| && now[q..p] == enc else ret == BUF_TOO_SMALL
  }

  /** One write in front of another. */
  lemma ThenWritten(was: Bytes, mid: Bytes, now: Bytes, start: nat, p: nat, q: nat, r: nat,
                    first: Bytes, ret: int, second: Bytes)
    requires Written(was, mid, start, p, |first|, q, first)
    requires Written(mid, now, start, q, ret, r, second)
    ensures Written(was, now, start, p, if ret < 0 then ret else |first| + ret, r, second + first)
  {
    assert now[..r] == mid[..q][..r] == was[..r];
    assert now[p..] == now[q..][p - q..] && mid[p..] == mid[q..][p - q..];
    if ret >= 0 {
      assert now[q..p] == now[q..][..p - q] && mid[q..p] == mid[q..][..p - q];
      assert now[r..p] == now[r..q] + now[q..p];
    }
  }

  lemma NothingWritten(was: Bytes, start: nat, p: nat, enc: Bytes)
    requires p <= |was|
    ensures p - start < |enc| ==> Written(was, was, start, p, BUF_TOO_SMALL, p, enc)
    ensures p >= start && enc == [] ==> Written(was, was, start, p, 0, p, enc)
  {
  }

  /** A size cast to int: 32 bits, two's complement. */
  function CInt(n: nat): (r: int)
    ensures n <= INT_MAX ==> r == n
    ensures r <= INT_MAX
  {
    (n + 0x8000_0000) % 0x1_0000_0000 - 0x8000_0000
  }

  /** *--(*p) = b, if there is room. */
  method PutByte(buf: array<bv8>, start: nat, p: nat, b: bv8) returns (ret: int, q: nat)
    requires p <= buf.Length
    modifies buf
    ensures Written(old(buf[..]), buf[..], start, p, ret, q, [b])
  {
    if p - start < 1 { return BUF_TOO_SMALL, p; }
    buf[p - 1] := b;
    return 1, p - 1;
  }

  method WriteTag(buf: array<bv8>, start: nat, p: nat, tag: bv8) returns (ret: int, q: nat)
    requires p <= buf.Length
    modifies buf
    ensures Written(old(buf[..]), buf[..], start, p, ret, q, [tag])
  {
    ret, q := PutByte(buf, start, p, tag);
  }

  lemma BE1(v: nat)
    ensures BE(v, 1) == [ToByte(v % 256)]
  {
    hide ToByte;
    assert BE(v / 256, 0) == [];
  }

  lemma BE2(v: nat)
    ensures BE(v, 2) == [ToByte(v / 0x100 % 256), ToByte(v % 256)]
  {
    hide Pow, ToByte, BE;
    Pow4();
    BEFront(v, 1);
    BE1(v);
  }

  lemma BE3(v: nat)
    ensures BE(v, 3) == [ToByte(v / 0x1_0000 % 256), ToByte(v / 0x100 % 256), ToByte(v % 256)]
  {
    hide Pow, ToByte, BE;
    Pow4();
    BEFront(v, 2);
    BE2(v);
  }

  lemma BE4(v: nat)
    ensures BE(v, 4) == [ToByte(v / 0x100_0000 % 256), ToByte(v / 0x1_0000 % 256), ToByte(v / 0x100 % 256), ToByte(v % 256)]
  {
    hide Pow, ToByte, BE;
    Pow4();
    BEFront(v, 3);
    BE3(v);
  }

  /** How many bytes a length takes. */
  lemma SizeOf(n: nat)
    ensures 0x80 <= n <= 0xFF ==> ByteSize(n) == 1
    ensures 0xFF < n <= 0xFFFF ==> ByteSize(n) == 2
    ensures 0xFFFF < n <= 0xFF_FFFF ==> ByteSize(n) == 3
    ensures 0xFF_FFFF < n <= MAX_LEN ==> ByteSize(n) == 4
  {
    var a, b, c := n / 256, n / 256 / 256, n / 256 / 256 / 256;
    assert n <= MAX_LEN ==> c / 256 == 0;
    assert ByteSize(n) == (if n == 0 then 0 else 1 + ByteSize(a));
    assert ByteSize(a) == (if a == 0 then 0 else 1 + ByteSize(b));
    assert ByteSize(b) == (if b == 0 then 0 else 1 + ByteSize(c));
  }

  /** was with enc written over it from q on. */
  ghost function Over(was: Bytes, q: nat, enc: Bytes): Bytes
    requires q + |enc| <= |was|
  {
    was[..q] + enc + was[q + |enc|..]
  }

  lemma OverWritten(was: Bytes, start: nat, q: nat, enc: Bytes)
    requires start <= q && q + |enc| <= |was|
    ensures Written(was, Over(was, q, enc), start, q + |enc|, |enc|, q, enc)
  {
  }

  lemma OverNothing(was: Bytes, p: nat)
    requires p <= |was|
    ensures Over(was, p, []) == was
  {
  }

  /** *--(*p) = b, in front of what was put there before. */
  method Put(buf: array<bv8>, p: nat, b: bv8, ghost was: Bytes, ghost enc: Bytes) returns (q: nat, ghost put: Bytes)
    requires 0 < p && p + |enc| <= |was| == buf.Length && buf[..] == Over(was, p, enc)
    modifies buf
    ensures q == p - 1 && put == [b] + enc && buf[..] == Over(was, q, put)
  {
    q, put := p - 1, [b] + enc;
    buf[q] := b;
    assert buf[..] == Over(was, p, enc)[q := b];
  }

  method WriteLen(buf: array<bv8>, start: nat, p: nat, len: nat) returns (ret: int, q: nat)
    requires p <= buf.Length
    modifies buf
    ensures len <= MAX_LEN ==> Written(old(buf[..]), buf[..], start, p, ret, q, DerLen(len))
    ensures len > MAX_LEN ==> ret == INVALID_LENGTH && q == p && buf[..] == old(buf[..])
  {
    hide ToByte, BE, Written, DerLen, Over;
    q := p;
    LenSize(len);
    if len <= MAX_LEN { NothingWritten(buf[..], start, p, DerLen(len)); }
    var b0, b1 := ToByte(len % 256), ToByte(len / 0x100 % 256);
    ghost var was := buf[..];
    ghost var put: Bytes := [];
    OverNothing(was, p);
    if len < 0x80 {
      if q - start < 1 { return BUF_TOO_SMALL, q; }
      q, put := Put(buf, q, ToByte(len), was, put);
      assert put == DerLen(len) by { LenForms(len); }
      OverWritten(was, start, q, put);
      return 1, q;
    }
    if len <= 0xFF {
      if q - start < 2 { return BUF_TOO_SMALL, q; }
      q, put := Put(buf, q, b0, was, put);
      q, put := Put(buf, q, ToByte(0x81), was, put);
      assert put == DerLen(len) by { LenForms(len); }
      OverWritten(was, start, q, put);
      return 2, q;
    }
    if len <= 0xFFFF {
      if q - start < 3 { return BUF_TOO_SMALL, q; }
      q, put := Put(buf, q, b0, was, put);
      q, put := Put(buf, q, b1, was, put);
      q, put := Put(buf, q, ToByte(0x82), was, put);
      assert put == DerLen(len) by { LenForms(len); }
      OverWritten(was, start, q, put);
      return 3, q;
    }
    ret, q := WriteLongLen(buf, start, p, len);
  }

  /** The forms with three and four octets of length. */
  method WriteLongLen(buf: array<bv8>, start: nat, p: nat, len: nat) returns (ret: int, q: nat)
    requires p <= buf.Length && len > 0xFFFF
    modifies buf
    ensures len <= MAX_LEN ==> Written(old(buf[..]), buf[..], start, p, ret, q, DerLen(len))
    ensures len > MAX_LEN ==> ret == INVALID_LENGTH && q == p && buf[..] == old(buf[..])
  {
    hide ToByte, BE, Written, DerLen, Over;
    q := p;
    LenSize(len);
    if len <= MAX_LEN { NothingWritten(buf[..], start, p, DerLen(len)); }
    var b0, b1 := ToByte(len % 256), ToByte(len / 0x100 % 256);
    var b2, b3 := ToByte(len / 0x1_0000 % 256), ToByte(len / 0x100_0000 % 256);
    ghost var was := buf[..];
    ghost var put: Bytes := [];
    OverNothing(was, p);
    if len <= 0xFF_FFFF {
      if q - start < 4 { return BUF_TOO_SMALL, q; }
      q, put := Put(buf, q, b0, was, put);
      q, put := Put(buf, q, b1, was, put);
      q, put := Put(buf, q, b2, was, put);
      q, put := Put(buf, q, ToByte(0x83), was, put);
      assert put == DerLen(len) by { LenForms(len); }
      OverWritten(was, start, q, put);
      return 4, q;
    }
    if len <= 0xFFFF_FFFF {
      if q - start < 5 { return BUF_TOO_SMALL, q; }
      q, put := Put(buf, q, b0, was, put);
      q, put := Put(buf, q, b1, was, put);
      q, put := Put(buf, q, b2, was, put);
      q, put := Put(buf, q, b3, was, put);
      q, put := Put(buf, q, ToByte(0x84), was, put);
      assert put == DerLen(len) by { LenForms(len); }
      OverWritten(was, start, q, put);
      return 5, q;
    }
    return INVALID_LENGTH, q;
  }

  lemma LenSize(n: nat)
    ensures n <= MAX_LEN ==> |DerLen(n)| == if n < 0x80 then 1 else 1 + ByteSize(n)
    ensures 0x80 <= n <= 0xFF ==> ByteSize(n) == 1
    ensures 0xFF < n <= 0xFFFF ==> ByteSize(n) == 2
    ensures 0xFFFF < n <= 0xFF_FFFF ==> ByteSize(n) == 3
    ensures 0xFF_FFFF < n <= MAX_LEN ==> ByteSize(n) == 4
  {
    SizeOf(n);
  }

  /** The five forms a length can take. */
  lemma LenForms(n: nat)
    ensures n < 0x80 ==> DerLen(n) == [ToByte(n)]
    ensures 0x80 <= n <= 0xFF ==> DerLen(n) == [ToByte(0x81), ToByte(n % 256)]
    ensures 0xFF < n <= 0xFFFF ==> DerLen(n) == [ToByte(0x82), ToByte(n / 0x100 % 256), ToByte(n % 256)]
    ensures 0xFFFF < n <= 0xFF_FFFF ==>
      DerLen(n) == [ToByte(0x83), ToByte(n / 0x1_0000 % 256), ToByte(n / 0x100 % 256), ToByte(n % 256)]
    ensures 0xFF_FFFF < n <= MAX_LEN ==>
      DerLen(n) == [ToByte(0x84), ToByte(n / 0x100_0000 % 256), ToByte(n / 0x1_0000 % 256),
                    ToByte(n / 0x100 % 256), ToByte(n % 256)]
  {
    hide ToByte, BE;
    SizeOf(n);
    BE1(n);
    BE2(n);
    BE3(n);
    BE4(n);
  }

  method WriteRawBuffer(buf: array<bv8>, start: nat, p: nat, data: Bytes) returns (ret: int, q: nat)
    requires p <= buf.Length
    modifies buf
    ensures |data| <= INT_MAX ==> Written(old(buf[..]), buf[..], start, p, ret, q, data)
    ensures p - start < |data| ==> ret == BUF_TOO_SMALL && q == p && buf[..] == old(buf[..])
    ensures p - start >= |data| ==> ret == CInt(|data|) && q == p - |data|
  {
    if p < start || p - start < |data| { return BUF_TOO_SMALL, p; }
    q := p - |data|;
    Store(buf, q, data);
    return CInt(|data|), q;
  }

  /** Tag and length in front of content, of which the last extra bytes are not counted here. */
  function Headed(tag: bv8, content: Bytes, extra: nat): Bytes
    requires |content| + extra <= MAX_LEN
  {
    [tag] + DerLen(|content| + extra) + content
  }

  /**
   * Length octets and tag in front of content that is already there, with extra bytes of it behind top;
   * the sum of what was written and extra.
   */
  method AddHeader(buf: array<bv8>, start: nat, p: nat, len: nat, tag: bv8, ghost extra: nat,
                   ghost was: Bytes, ghost top: nat, ghost content: Bytes)
    returns (ret: int, q: nat)
    requires p <= buf.Length && top + extra <= buf.Length <= INT_MAX && len == |content| + extra
    requires Written(was, buf[..], start, top, len - extra, p, content)
    modifies buf
    ensures len <= INT_MAX
    ensures Written(was, buf[..], start, top, if ret < 0 then ret else ret - extra, q, Headed(tag, content, extra))
  {
    hide DerLen;
    OnlyWhole(was, buf[..], start, top, len - extra, p, content);
    hide Written;
    ghost var enc := Headed(tag, content, extra);
    ghost var body := DerLen(len) + content;
    assert [tag] + body == enc;
    ghost var at0 := buf[..];
    ret, q := WriteLen(buf, start, p, len);
    ThenWritten(was, at0, buf[..], start, top, p, q, content, ret, DerLen(len));
    if ret < 0 {
      Fails(was, buf[..], start, top, ret, q, body, enc);
      return;
    }
    OnlyWhole(was, buf[..], start, top, len - extra + ret, q, body);
    var sum := len + ret;
    ghost var mid, at1 := q, buf[..];
    ret, q := WriteTag(buf, start, q, tag);
    ThenWritten(was, at1, buf[..], start, top, mid, q, body, ret, [tag]);
    if ret < 0 { return; }
    OnlyWhole(was, buf[..], start, top, sum - extra + ret, q, enc);
    ret := CInt(sum + ret);
  }

  lemma OnlyWhole(was: Bytes, now: Bytes, start: nat, p: nat, ret: int, q: nat, enc: Bytes)
    requires Written(was, now, start, p, ret, q, enc) && ret >= 0
    ensures ret == |enc| && q == p - |enc| && start <= p && |enc| <= |was|
  {
  }

  lemma WrittenThere(was: Bytes, now: Bytes, start: nat, p: nat, ret: int, q: nat, enc: Bytes)
    requires Written(was, now, start, p, ret, q, enc) && ret >= 0
    ensures ret == |enc| && q == p - |enc| && q <= p <= |now| && now[q..p] == enc
  {
  }

  /** A write that fails leaves the buffer too small for everything still to come. */
  lemma Fails(was: Bytes, now: Bytes, start: nat, p: nat, ret: int, q: nat, enc: Bytes, longer: Bytes)
    requires Written(was, now, start, p, ret, q, enc) && ret < 0 && |enc| <= |longer|
    ensures ret == BUF_TOO_SMALL && Written(was, now, start, p, ret, q, longer)
  {
  }

  method WriteNull(buf: array<bv8>, start: nat, p: nat) returns (ret: int, q: nat)
    requires p <= buf.Length <= INT_MAX
    modifies buf
    ensures Written(old(buf[..]), buf[..], start, p, ret, q, Tlv(NULL, []))
  {
    hide Written, DerLen;
    ghost var was := buf[..];
    assert [NULL] + DerLen(0) == Tlv(NULL, []);
    ret, q := WriteLen(buf, start, p, 0);
    if ret < 0 {
      Fails(was, buf[..], start, p, ret, q, DerLen(0), Tlv(NULL, []));
      return;
    }
    OnlyWhole(was, buf[..], start, p, ret, q, DerLen(0));
    var len := ret;
    ghost var mid, at1 := q, buf[..];
    ret, q := WriteTag(buf, start, q, NULL);
    ThenWritten(was, at1, buf[..], start, p, mid, q, DerLen(0), ret, [NULL]);
    if ret < 0 { return; }
    OnlyWhole(was, buf[..], start, p, len + ret, q, Tlv(NULL, []));
    ret := CInt(len + ret);
  }

  /** An element around given content: OIDs, octet strings and character strings differ in their tags only. */
  method WriteTagged(buf: array<bv8>, start: nat, p: nat, tag: bv8, data: Bytes) returns (ret: int, q: nat)
    requires p <= buf.Length <= INT_MAX
    modifies buf
    ensures |data| <= MAX_LEN ==> Written(old(buf[..]), buf[..], start, p, ret, q, Tlv(tag, data))
    ensures |data| > MAX_LEN ==> ret == BUF_TOO_SMALL && q == p && buf[..] == old(buf[..])
  {
    hide DerLen, CInt;
    ghost var was := buf[..];
    ret, q := WriteRawBuffer(buf, start, p, data);
    if ret < 0 { return; }
    hide Written;
    ret, q := AddHeader(buf, start, q, ret, tag, 0, was, p, data);
  }

  method WriteOid(buf: array<bv8>, start: nat, p: nat, oid: Bytes) returns (ret: int, q: nat)
    requires p <= buf.Length <= INT_MAX
    modifies buf
    ensures |oid| <= MAX_LEN ==> Written(old(buf[..]), buf[..], start, p, ret, q, Tlv(OID, oid))
    ensures |oid| > MAX_LEN ==> ret == BUF_TOO_SMALL && q == p && buf[..] == old(buf[..])
  {
    ret, q := WriteTagged(buf, start, p, OID, oid);
  }

  /** An algorithm and its parameters. */
  function AlgorithmIdentifier(oid: Bytes, params: Bytes): Bytes
    requires |oid| <= MAX_LEN && |Tlv(OID, oid)| + |params| <= MAX_LEN
  {
    Tlv(SEQUENCE, Tlv(OID, oid) + params)
  }

  lemma TlvSize(tag: bv8, content: Bytes)
    requires |content| <= MAX_LEN
    ensures |content| + 2 <= |Tlv(tag, content)| <= |content| + 6
  {
    hide ToByte, BE;
    SmallSize(|content|);
  }

  /** The header and the object identifier, followed by the parameters, are the whole. */
  lemma HeaderThenParams(oid: Bytes, params: Bytes)
    requires |oid| <= MAX_LEN && |Tlv(OID, oid)| + |params| <= MAX_LEN
    ensures AlgorithmIdentifier(oid, params) == Headed(SEQUENCE, Tlv(OID, oid), |params|) + params
    ensures AlgorithmIdentifier(oid, params) == Headed(SEQUENCE, Tlv(OID, oid) + params, 0)
  {
    hide DerLen;
  }

  /** NULL parameters are written here; others the caller has put at p, and their length counts. */
  method WriteAlgorithmIdentifier(buf: array<bv8>, start: nat, p: nat, oid: Bytes, parLen: nat) returns (ret: int, q: nat)
    requires p + parLen <= buf.Length <= INT_MAX
    modifies buf
    ensures |oid| + parLen <= INT_MAX ==> |oid| + 6 + parLen <= MAX_LEN && |Tlv(OID, oid)| <= |oid| + 6
    ensures |oid| <= INT_MAX && parLen == 0 ==>
      Written(old(buf[..]), buf[..], start, p, ret, q, AlgorithmIdentifier(oid, Tlv(NULL, [])))
    ensures |oid| + parLen <= INT_MAX && parLen > 0 ==>
      Written(old(buf[..]), buf[..], start, p, if ret < 0 then ret else ret - parLen, q,
              Headed(SEQUENCE, Tlv(OID, oid), parLen))
    ensures |oid| + parLen > INT_MAX ==> ret == BUF_TOO_SMALL
    ensures q <= p && buf[..q] == old(buf[..q]) && buf[p..] == old(buf[p..])
  {
    hide DerLen, Tlv;
    TlvSize(NULL, []);
    if |oid| <= MAX_LEN { TlvSize(OID, oid); }
    if parLen == 0 {
      ret, q := WriteWithNull(buf, start, p, oid);
    } else {
      ghost var was := buf[..];
      ret, q := WriteOid(buf, start, p, oid);
      if ret < 0 {
        if |oid| + parLen <= INT_MAX {
          Fails(was, buf[..], start, p, ret, q, Tlv(OID, oid), Headed(SEQUENCE, Tlv(OID, oid), parLen));
        }
        return;
      }
      ret, q := AddHeader(buf, start, q, parLen + ret, SEQUENCE, parLen, was, p, Tlv(OID, oid));
    }
  }

  /** The case of NULL parameters. */
  method WriteWithNull(buf: array<bv8>, start: nat, p: nat, oid: Bytes) returns (ret: int, q: nat)
    requires p <= buf.Length <= INT_MAX
    modifies buf
    ensures |oid| <= INT_MAX ==> |Tlv(OID, oid)| + |Tlv(NULL, [])| <= MAX_LEN
    ensures |oid| <= INT_MAX ==>
      Written(old(buf[..]), buf[..], start, p, ret, q, AlgorithmIdentifier(oid, Tlv(NULL, [])))
    ensures |oid| > INT_MAX ==> ret == BUF_TOO_SMALL
    ensures q <= p && buf[..q] == old(buf[..q]) && buf[p..] == old(buf[p..])
  {
    hide DerLen, Tlv;
    TlvSize(NULL, []);
    ghost var was, none := buf[..], Tlv(NULL, []);
    if |oid| <= MAX_LEN { TlvSize(OID, oid); }
    if |oid| <= INT_MAX { HeaderThenParams(oid, none); TlvSize(SEQUENCE, Tlv(OID, oid) + none); }
    ret, q := WriteNull(buf, start, p);
    if ret < 0 {
      if |oid| <= INT_MAX { Fails(was, buf[..], start, p, ret, q, none, AlgorithmIdentifier(oid, none)); }
      return;
    }
    var len := ret;
    ghost var mid, at1 := q, buf[..];
    ret, q := WriteOid(buf, start, q, oid);
    if |oid| <= MAX_LEN { ThenWritten(was, at1, buf[..], start, p, mid, q, none, ret, Tlv(OID, oid)); }
    if ret < 0 {
      if |oid| <= INT_MAX {
        Fails(was, buf[..], start, p, ret, q, Tlv(OID, oid) + none, AlgorithmIdentifier(oid, none));
      }
      return;
    }
    ret, q := AddHeader(buf, start, q, len + ret, SEQUENCE, 0, was, p, Tlv(OID, oid) + none);
  }
}
