/** BIT STRING elements, plain and named. */
module DerBits {
  import opened Blocks
  import opened Der
  import opened DerParse
  import opened DerWrite

  // ----------------------------------------------------------------- bits

  /** Bit k of a byte, most significant first. */
  predicate Msb(b: bv8, k: nat)
    requires k < 8
  {
    match k
    case 0 => b & 0x80 != 0
    case 1 => b & 0x40 != 0
    case 2 => b & 0x20 != 0
    case 3 => b & 0x10 != 0
    case 4 => b & 0x08 != 0
    case 5 => b & 0x04 != 0
    case 6 => b & 0x02 != 0
    case _ => b & 0x01 != 0
  }

  predicate BitAt(s: Bytes, i: nat)
    requires i < 8 * |s|
  {
    Msb(s[i / 8], i % 8)
  }

  /** Bit i of the first bits bits; no bit is set behind those. */
  predicate One(s: Bytes, bits: nat, i: nat)
    requires bits <= 8 * |s|
  {
    i < bits && BitAt(s, i)
  }

  lemma SameBits(b: bv8, c: bv8)
    requires forall k :: 0 <= k < 8 ==> Msb(b, k) == Msb(c, k)
    ensures b == c
  {
    assert Msb(b, 0) == Msb(c, 0) && Msb(b, 1) == Msb(c, 1) && Msb(b, 2) == Msb(c, 2) && Msb(b, 3) == Msb(c, 3);
    assert Msb(b, 4) == Msb(c, 4) && Msb(b, 5) == Msb(c, 5) && Msb(b, 6) == Msb(c, 6) && Msb(b, 7) == Msb(c, 7);
    EightBits(b, c);
  }

  lemma EightBits(b: bv8, c: bv8)
    requires b & 0x80 == c & 0x80 && b & 0x40 == c & 0x40 && b & 0x20 == c & 0x20 && b & 0x10 == c & 0x10
    requires b & 0x08 == c & 0x08 && b & 0x04 == c & 0x04 && b & 0x02 == c & 0x02 && b & 0x01 == c & 0x01
    ensures b == c
  {
  }

  /** (1 << u) - 1 */
  function LowMask(u: nat): bv8
    requires u < 8
  {
    match u
    case 0 => 0x00
    case 1 => 0x01
    case 2 => 0x03
    case 3 => 0x07
    case 4 => 0x0F
    case 5 => 0x1F
    case 6 => 0x3F
    case _ => 0x7F
  }

  /** A byte without its last u bits. */
  function KeepTop(b: bv8, u: nat): bv8
    requires u < 8
  {
    b & !LowMask(u)
  }

  lemma KeepTopBit(b: bv8, u: nat, k: nat)
    requires u < 8 && k < 8
    ensures Msb(KeepTop(b, u), k) <==> k < 8 - u && Msb(b, k)
  {
  }

  /** b >> u */
  function ShiftDown(b: bv8, u: nat): bv8
    requires u < 8
  {
    match u
    case 0 => b
    case 1 => b >> 1
    case 2 => b >> 2
    case 3 => b >> 3
    case 4 => b >> 4
    case 5 => b >> 5
    case 6 => b >> 6
    case _ => b >> 7
  }

  lemma ShiftDownBit(b: bv8, u: nat)
    requires u < 8
    ensures ShiftDown(b, u) & 1 != 0 <==> Msb(b, 7 - u)
    ensures u < 7 ==> ShiftDown(b, u) >> 1 == ShiftDown(b, u + 1)
  {
  }

  // --------------------------------------------------------------- encoding

  function BytesFor(bits: nat): nat {
    (bits + 7) / 8
  }

  function UnusedBits(bits: nat): (u: nat)
    ensures u < 8
  {
    8 * BytesFor(bits) - bits
  }

  /** The first bits bits, and zeros to fill the last byte. */
  function Masked(s: Bytes, bits: nat): (r: Bytes)
    requires bits <= 8 * |s|
    ensures |r| == BytesFor(bits)
  {
    var n := BytesFor(bits);
    if n == 0 then [] else s[..n - 1] + [KeepTop(s[n - 1], UnusedBits(bits))]
  }

  /** A number of bits below eight as a byte. */
  function CountByte(u: nat): bv8
    requires u < 8
  {
    match u
    case 0 => 0
    case 1 => 1
    case 2 => 2
    case 3 => 3
    case 4 => 4
    case 5 => 5
    case 6 => 6
    case _ => 7
  }

  lemma CountNum(u: nat)
    requires u < 8
    ensures Num(CountByte(u)) == u
  {
  }

  /** The number of unused bits, then the bits: sections 8.6.2 and 11.2.1 of X.690. */
  function BitsContent(s: Bytes, bits: nat): Bytes
    requires bits <= 8 * |s|
  {
    [CountByte(UnusedBits(bits))] + Masked(s, bits)
  }

  lemma MaskedBit(s: Bytes, bits: nat, i: nat)
    requires bits <= 8 * |s| && i < 8 * BytesFor(bits)
    ensures BitAt(Masked(s, bits), i) <==> One(s, bits, i)
  {
    hide Msb, KeepTop;
    var n := BytesFor(bits);
    if i / 8 == n - 1 {
      KeepTopBit(s[n - 1], UnusedBits(bits), i % 8);
    }
  }

  method WriteBitstring(buf: array<bv8>, start: nat, p: nat, src: Bytes, bits: nat) returns (ret: int, q: nat)
    requires p <= buf.Length <= INT_MAX && bits <= 8 * |src|
    modifies buf
    ensures BytesFor(bits) < MAX_LEN ==> Written(old(buf[..]), buf[..], start, p, ret, q, Tlv(BIT_STRING, BitsContent(src, bits)))
    ensures BytesFor(bits) >= MAX_LEN ==> ret == BUF_TOO_SMALL
  {
    hide DerLen, Masked, KeepTop, CountByte;
    var byteLen := (bits + 7) / 8;
    var unused := byteLen * 8 - bits;
    ghost var was, content := buf[..], BitsContent(src, bits);
    if |content| <= MAX_LEN { TlvSize(BIT_STRING, content); }
    if p < start || p - start < byteLen + 1 { return BUF_TOO_SMALL, p; }
    var len := byteLen + 1;
    q := PutMasked(buf, p, src, bits);
    ghost var mid := buf[..];
    q := q - 1;
    buf[q] := CountByte(unused);
    assert buf[..] == mid[..q] + [CountByte(unused)] + mid[q + 1..];
    InFront(was, mid, buf[..], start, q, p, CountByte(unused), Masked(src, bits));
    hide Written;
    ret, q := AddHeader(buf, start, q, len, BIT_STRING, 0, was, p, content);
  }

  /** The last byte without its unused bits, and the others in front of it. */
  method PutMasked(buf: array<bv8>, p: nat, src: Bytes, bits: nat) returns (q: nat)
    requires bits <= 8 * |src| && BytesFor(bits) <= p <= buf.Length
    modifies buf
    ensures q == p - BytesFor(bits) && buf[q..p] == Masked(src, bits)
    ensures buf[..q] == old(buf[..q]) && buf[p..] == old(buf[p..])
  {
    hide KeepTop;
    q := p;
    var byteLen := (bits + 7) / 8;
    var unused := byteLen * 8 - bits;
    if byteLen > 0 {
      byteLen := byteLen - 1;
      q := q - 1;
      buf[q] := KeepTop(src[byteLen], unused);
      ghost var last := buf[q..];
      q := q - byteLen;
      Store(buf, q, src[..byteLen]);
      assert buf[p..] == buf[q + byteLen..][1..] == last[1..];
      assert buf[q..p] == buf[q..q + byteLen] + buf[q + byteLen..][..1];
    }
  }

  lemma InFront(was: Bytes, mid: Bytes, now: Bytes, start: nat, q: nat, p: nat, b: bv8, data: Bytes)
    requires start <= q < p <= |was| == |mid| == |now| && now == mid[..q] + [b] + mid[q + 1..]
    requires mid[q + 1..p] == data && mid[..q + 1] == was[..q + 1] && mid[p..] == was[p..]
    ensures Written(was, now, start, p, |data| + 1, q, [b] + data)
  {
    assert mid[..q] == mid[..q + 1][..q] == was[..q];
    assert now[q..p] == [b] + data && now[p..] == mid[p..];
  }

  // ----------------------------------------------------------- named bit lists

  /** The bits up to the last one that is set. */
  function Significant(s: Bytes, bits: nat): (r: nat)
    requires bits <= 8 * |s|
    ensures r <= bits
  {
    if bits == 0 then 0 else if BitAt(s, bits - 1) then bits else Significant(s, bits - 1)
  }

  lemma {:induction false} SignificantIs(s: Bytes, bits: nat)
    requires bits <= 8 * |s|
    ensures var r := Significant(s, bits); r > 0 ==> BitAt(s, r - 1)
    ensures forall i :: 0 <= i ==> (One(s, Significant(s, bits), i) <==> One(s, bits, i))
  {
    hide BitAt;
    if bits > 0 && !BitAt(s, bits - 1) { SignificantIs(s, bits - 1); }
  }

  method WriteNamedBitstring(buf: array<bv8>, start: nat, p: nat, src: Bytes, bits: nat) returns (ret: int, q: nat)
    requires p <= buf.Length <= INT_MAX && bits <= 8 * |src|
    modifies buf
    ensures var r := Significant(src, bits);
      && (BytesFor(r) < MAX_LEN ==> Written(old(buf[..]), buf[..], start, p, ret, q, Tlv(BIT_STRING, BitsContent(src, r))))
      && (BytesFor(r) >= MAX_LEN ==> ret == BUF_TOO_SMALL)
  {
    var left := StripZeros(src, bits);
    ret, q := WriteBitstring(buf, start, p, src, left);
  }

  /** Runs down the bits until it meets one that is set. */
  method StripZeros(src: Bytes, bits: nat) returns (left: nat)
    requires bits <= 8 * |src|
    ensures left == Significant(src, bits)
  {
    hide Msb, ShiftDown;
    left := bits;
    var byteLen := (bits + 7) / 8;
    var unused := byteLen * 8 - bits;
    if bits == 0 { return; }
    var cur := byteLen - 1;
    var shifted := ShiftDown(src[cur], unused);
    while true
      invariant 0 < left <= bits && cur == (left - 1) / 8 && Significant(src, left) == Significant(src, bits)
      invariant shifted == ShiftDown(src[cur], 7 - (left - 1) % 8)
      decreases left
    {
      ShiftDownBit(src[cur], 7 - (left - 1) % 8);
      var bit := shifted & 1;
      shifted := shifted >> 1;
      if bit != 0 { break; }
      left := left - 1;
      if left == 0 { break; }
      if left % 8 == 0 {
        cur := cur - 1;
        shifted := src[cur];
        NoShift(shifted);
      }
    }
  }

  lemma NoShift(b: bv8)
    ensures ShiftDown(b, 0) == b
  {
  }

  /** Two named bit lists are written alike exactly if the same bits are set in them. */
  lemma NamedCanonical(s: Bytes, m: nat, t: Bytes, n: nat)
    requires m <= 8 * |s| && n <= 8 * |t|
    ensures BitsContent(s, Significant(s, m)) == BitsContent(t, Significant(t, n))
       <==> forall i :: 0 <= i ==> (One(s, m, i) <==> One(t, n, i))
  {
    hide Significant, BitAt, One, BitsContent;
    SignificantIs(s, m);
    SignificantIs(t, n);
    var j, k := Significant(s, m), Significant(t, n);
    if forall i :: 0 <= i ==> (One(s, m, i) <==> One(t, n, i)) {
      SameLast(s, m, t, n);
      SameOnes(s, t, j);
    }
    if BitsContent(s, j) == BitsContent(t, k) {
      ContentTells(s, j, t, k);
      forall i | 0 <= i ensures One(s, m, i) <==> One(t, n, i) {
        assert One(s, j, i) == One(s, m, i) && One(t, k, i) == One(t, n, i);
        OneMasked(s, j, i);
        OneMasked(t, k, i);
      }
    }
  }

  /** The set bits are those of the masked bytes. */
  lemma OneMasked(s: Bytes, bits: nat, i: nat)
    requires bits <= 8 * |s|
    ensures One(s, bits, i) <==> One(Masked(s, bits), bits, i)
  {
    hide BitAt, Masked;
    if i < bits { MaskedBit(s, bits, i); }
  }

  lemma SameLast(s: Bytes, m: nat, t: Bytes, n: nat)
    requires m <= 8 * |s| && n <= 8 * |t|
    requires forall i :: 0 <= i ==> (One(s, m, i) <==> One(t, n, i))
    ensures Significant(s, m) == Significant(t, n)
  {
    hide Significant, BitAt;
    NotBeyond(s, m, t, n);
    NotBeyond(t, n, s, m);
  }

  lemma NotBeyond(s: Bytes, m: nat, t: Bytes, n: nat)
    requires m <= 8 * |s| && n <= 8 * |t|
    requires forall i :: 0 <= i ==> (One(s, m, i) <==> One(t, n, i))
    ensures Significant(s, m) <= Significant(t, n)
  {
    hide Significant, BitAt;
    SignificantIs(s, m);
    SignificantIs(t, n);
    var j := Significant(s, m);
    if j > 0 {
      assert One(s, j, j - 1);
      assert One(s, m, j - 1) && One(t, n, j - 1);
      assert One(t, Significant(t, n), j - 1);
    }
  }

  lemma SameOnes(s: Bytes, t: Bytes, j: nat)
    requires j <= 8 * |s| && j <= 8 * |t|
    requires forall i :: 0 <= i ==> (One(s, j, i) <==> One(t, j, i))
    ensures BitsContent(s, j) == BitsContent(t, j)
  {
    hide Msb, One;
    var a, b := Masked(s, j), Masked(t, j);
    forall c | 0 <= c < |a| ensures a[c] == b[c] {
      hide Masked;
      forall k | 0 <= k < 8 ensures Msb(a[c], k) == Msb(b[c], k) {
        MaskedBit(s, j, 8 * c + k);
        MaskedBit(t, j, 8 * c + k);
        assert BitAt(a, 8 * c + k) == BitAt(b, 8 * c + k);
      }
      SameBits(a[c], b[c]);
    }
    assert a == b;
  }

  /** The content tells how many bits there are. */
  lemma ContentTells(s: Bytes, j: nat, t: Bytes, k: nat)
    requires j <= 8 * |s| && k <= 8 * |t| && BitsContent(s, j) == BitsContent(t, k)
    ensures j == k && Masked(s, j) == Masked(t, k)
  {
    hide Masked, CountByte, Num;
    var c, d := BitsContent(s, j), BitsContent(t, k);
    assert c[1..] == Masked(s, j) && d[1..] == Masked(t, k) && c[0] == d[0];
    CountNum(UnusedBits(j));
    CountNum(UnusedBits(k));
  }

  // --------------------------------------------------------------- parsing

  /** A bit string that has to reach exactly to end. */
  method GetBitstring(mem: Bytes, p: nat, end: nat) returns (ret: int, q: nat, unused: nat, start: nat, len: nat)
    requires p <= end <= |mem|
    ensures var f := ElementAt(mem[p..end], BIT_STRING);
      if f.Bad? then ret == f.ret && q == p + f.cursor
      else if f.len < 1 then ret == OUT_OF_DATA && q == p + f.content
      else
        var u := Num(mem[p + f.content]);
        if u > 7 then ret == INVALID_LENGTH && q == p + f.content
        else
          && unused == u && start == p + f.content + 1 && len == f.len - 1 && q == start + len
          && ret == if q == end then 0 else LENGTH_MISMATCH
  {
    hide ElementAt, Num;
    unused, start := 0, 0;
    ret, q, len := GetTag(mem, p, end, BIT_STRING);
    if ret != 0 { return; }
    if len < 1 { ret := OUT_OF_DATA; return; }
    len := len - 1;
    unused := Num(mem[q]);
    if unused > 7 { ret := INVALID_LENGTH; return; }
    q := q + 1;
    start := q;
    q := q + len;
    if q != end { ret := LENGTH_MISMATCH; }
  }

  lemma ContentParts(mem: Bytes, first: nat, p: nat, src: Bytes, bits: nat)
    requires bits <= 8 * |src| && first <= p <= |mem| && mem[first..p] == BitsContent(src, bits)
    ensures first < p && Num(mem[first]) == UnusedBits(bits) && mem[first + 1..p] == Masked(src, bits)
    ensures |Masked(src, bits)| == BytesFor(bits)
  {
    hide Num, CountByte, Masked;
    var c := mem[first..p];
    CountNum(UnusedBits(bits));
    assert mem[first] == c[0] && mem[first + 1..p] == c[1..];
  }

  /** Writing bits and reading them back: as many, each the same, and zeros where none is used. */
  method BitsRoundTrip(buf: array<bv8>, start: nat, p: nat, src: Bytes, bits: nat)
    returns (ret: int, code: int, at: nat, len: nat, unused: nat)
    requires p <= buf.Length <= INT_MAX && bits <= 8 * |src|
    modifies buf
    ensures ret > 0 || ret == BUF_TOO_SMALL
    ensures ret > 0 ==> code == 0 && at + len == p && unused < 8 && 8 * len - unused == bits
    ensures ret > 0 ==> forall i :: 0 <= i < 8 * len ==> (BitAt(buf[at..p], i) <==> One(src, bits, i))
  {
    hide DerLen, Tlv, BitsContent, BitAt, One;
    code, at, len, unused := 0, 0, 0, 0;
    var q;
    ret, q := WriteBitstring(buf, start, p, src, bits);
    ghost var c := BitsContent(src, bits);
    ContentSize(src, bits);
    if |c| <= MAX_LEN { TlvSize(BIT_STRING, c); }
    if ret < 0 { return; }
    WrittenThere(old(buf[..]), buf[..], start, p, ret, q, Tlv(BIT_STRING, c));
    hide Written;
    code, at, len, unused := ReadBits(buf[..], q, p, src, bits);
    assert buf[..][at..p] == buf[at..p];
  }

  lemma ContentSize(src: Bytes, bits: nat)
    requires bits <= 8 * |src|
    ensures |BitsContent(src, bits)| == BytesFor(bits) + 1
  {
  }

  /** Reads an encoding of bits. */
  method ReadBits(mem: Bytes, q: nat, p: nat, ghost src: Bytes, ghost bits: nat)
    returns (code: int, at: nat, len: nat, unused: nat)
    requires bits <= 8 * |src| && BytesFor(bits) < MAX_LEN && |BitsContent(src, bits)| == BytesFor(bits) + 1
    requires q <= p <= |mem| && mem[q..p] == Tlv(BIT_STRING, BitsContent(src, bits))
    ensures code == 0 && at + len == p && unused < 8 && 8 * len - unused == bits
    ensures forall i :: 0 <= i < 8 * len ==> (BitAt(mem[at..p], i) <==> One(src, bits, i))
  {
    hide ElementAt, DerLen, Tlv, Num, CountByte, Masked, BitAt, One, BitsContent;
    ghost var c := BitsContent(src, bits);
    ghost var t := Tlv(BIT_STRING, c);
    ElementRead(BIT_STRING, c, []);
    assert t + [] == t;
    SliceSlice(mem, q, p, |t| - |c|, |c|);
    ContentParts(mem, q + |t| - |c|, p, src, bits);
    var r;
    code, r, unused, at, len := GetBitstring(mem, q, p);
    forall i | 0 <= i < 8 * len ensures BitAt(mem[at..p], i) <==> One(src, bits, i) {
      MaskedBit(src, bits, i);
    }
  }
}
