/** Base64: encoding, and decoding in two passes. */
module Base64 {
  type Octet = x: int | 0 <= x < 256
  type Text = seq<Octet>

  const BUFFER_TOO_SMALL := -0x2A
  const INVALID_CHARACTER := -0x2C

  const SPACE: Octet := 32
  const CR: Octet := 13
  const LF: Octet := 10
  const PAD: Octet := 61

  /** The largest size_t, on machines with 32 bits or more. */
  type SizeMax = n: nat | n >= 0xFFFF_FFFF witness 0xFFFF_FFFF
  const SIZE_MAX: SizeMax

  // -------------------------------------------------------------- alphabet

  /** The table of characters: A to Z, a to z, 0 to 9, + and /. */
  function EncMap(v: int): (c: Octet)
    requires 0 <= v < 64
  {
    if v < 26 then v + 65 else if v < 52 then v + 71 else if v < 62 then v - 4 else if v == 62 then 43 else 47
  }

  /** The table of values: 64 for the padding character, 127 for what is no base64. */
  function DecMap(c: Octet): (v: int)
    ensures 0 <= v <= 64 || v == 127
  {
    if 65 <= c <= 90 then c - 65
    else if 97 <= c <= 122 then c - 71
    else if 48 <= c <= 57 then c + 4
    else if c == 43 then 62
    else if c == 47 then 63
    else if c == 61 then 64
    else 127
  }

  lemma MapsInverse(c: Octet, v: int)
    requires 0 <= v < 64
    ensures DecMap(EncMap(v)) == v
    ensures DecMap(c) < 64 ==> EncMap(DecMap(c)) == c
  {
  }

  const CAPITALS: string := "ABCDEFGHIJKLMNOPQRSTUVWXYZ"
  const SMALL: string := "abcdefghijklmnopqrstuvwxyz"

  /** The table of characters is table 1 of RFC 4648. */
  lemma EncMapIsAlphabet(v: int)
    requires 0 <= v < 64
    ensures EncMap(v) == (CAPITALS + SMALL + "0123456789+/")[v] as int
  {
    if v < 26 {
      Capitals(v);
    } else if v < 52 {
      Small(v - 26);
    }
  }

  lemma Capitals(v: int)
    requires 0 <= v < 26
    ensures CAPITALS[v] as int == 65 + v
  {
  }

  lemma Small(v: int)
    requires 0 <= v < 26
    ensures SMALL[v] as int == 97 + v
  {
  }

  predicate IsDigit(c: Octet) {
    DecMap(c) < 64
  }

  // -------------------------------------------------------------- encoding

  /** Three bytes as four characters. */
  function Four(a: Octet, b: Octet, c: Octet): Text {
    [EncMap(a / 4), EncMap(a % 4 * 16 + b / 16), EncMap(b % 16 * 4 + c / 64), EncMap(c % 64)]
  }

  /** The four values are the 24 bits of the three bytes, six at a time and most significant first. */
  lemma FourNumber(a: Octet, b: Octet, c: Octet)
    ensures var f := Four(a, b, c);
      (a * 256 + b) * 256 + c == ((DecMap(f[0]) * 64 + DecMap(f[1])) * 64 + DecMap(f[2])) * 64 + DecMap(f[3])
  {
    hide EncMap, DecMap;
    MapsInverse(PAD, a / 4);
    MapsInverse(PAD, a % 4 * 16 + b / 16);
    MapsInverse(PAD, b % 16 * 4 + c / 64);
    MapsInverse(PAD, c % 64);
    assert a == 4 * (a / 4) + a % 4 && b == 16 * (b / 16) + b % 16 && c == 64 * (c / 64) + c % 64;
  }

  function Encoded(s: Text): (r: Text)
    ensures |r| == 4 * ((|s| + 2) / 3)
  {
    if s == [] then []
    else if |s| == 1 then Four(s[0], 0, 0)[..2] + [PAD, PAD]
    else if |s| == 2 then Four(s[0], s[1], 0)[..3] + [PAD]
    else Four(s[0], s[1], s[2]) + Encoded(s[3..])
  }

  lemma {:induction false} EncodedConcat(s: Text, t: Text)
    requires |s| % 3 == 0
    ensures Encoded(s + t) == Encoded(s) + Encoded(t)
  {
    hide Four;
    if s == [] {
      assert s + t == t;
    } else {
      EncodedConcat(s[3..], t);
      assert (s + t)[3..] == s[3..] + t;
    }
  }

  method Encode(dst: array?<Octet>, dlen: nat, src: Text) returns (ret: int, olen: nat)
    requires dst != null ==> dlen <= dst.Length
    requires |src| <= SIZE_MAX
    modifies dst
    ensures var need := |Encoded(src)| + 1;
      if src == [] then ret == 0 && olen == 0 && (dst != null ==> dst[..] == old(dst[..]))
      else if need > SIZE_MAX || dlen < need || dst == null then
        ret == BUFFER_TOO_SMALL && olen == (if need > SIZE_MAX then SIZE_MAX else need) && (dst != null ==> dst[..] == old(dst[..]))
      else
        ret == 0 && olen == |Encoded(src)| && dst[..] == Encoded(src) + [0] + old(dst[..])[need..]
  {
    hide Encoded;
    var slen := |src|;
    EncodedFew(src);
    if slen == 0 { return 0, 0; }
    var n := slen / 3 + if slen % 3 != 0 then 1 else 0;
    if n > (SIZE_MAX - 1) / 4 { return BUFFER_TOO_SMALL, SIZE_MAX; }
    n := n * 4;
    if dlen < n + 1 || dst == null { return BUFFER_TOO_SMALL, n + 1; }
    olen := EncodeText(dst, src);
    return 0, olen;
  }

  method EncodeText(dst: array<Octet>, src: Text) returns (olen: nat)
    requires |Encoded(src)| < dst.Length
    modifies dst
    ensures olen == |Encoded(src)| && dst[..] == Encoded(src) + [0] + old(dst[..])[olen + 1..]
  {
    hide Encoded;
    ghost var was := dst[..];
    var i, p := EncodeGroups(dst, src);
    ghost var mid := dst[..];
    p := EncodeRest(dst, src, i, p);
    olen := p;
    ghost var text := dst[..];
    WholeText(src, i, was, mid, text, p);
    Ended(was, text, Encoded(src));
    dst[p] := 0;
    assert dst[..] == text[p := 0];
  }

  lemma Ended(was: Text, now: Text, text: Text)
    requires |text| < |was| && now == text + was[|text|..]
    ensures now[|text| := 0] == text + [0] + was[|text| + 1..]
  {
  }

  /** The groups and the rest. */
  lemma WholeText(src: Text, i: nat, was: Text, mid: Text, now: Text, p: nat)
    requires i % 3 == 0 && i <= |src| && |Encoded(src)| == p <= |was|
    requires 4 * (i / 3) <= p && mid == Encoded(src[..i]) + was[4 * (i / 3)..]
    requires now == mid[..4 * (i / 3)] + Encoded(src[i..]) + mid[p..]
    ensures now == Encoded(src) + was[p..]
  {
    hide Encoded;
    assert src[..i] + src[i..] == src;
    EncodedConcat(src[..i], src[i..]);
    assert mid[..4 * (i / 3)] == Encoded(src[..i]);
    assert mid[p..] == was[p..];
  }

  /** All the whole groups of three. */
  method EncodeGroups(dst: array<Octet>, src: Text) returns (i: nat, p: nat)
    requires |Encoded(src)| <= dst.Length
    modifies dst
    ensures i == |src| / 3 * 3 && p == |src| / 3 * 4 && dst[..] == Encoded(src[..i]) + old(dst[..])[p..]
  {
    hide Encoded, Four;
    ghost var was := dst[..];
    var n := |src| / 3 * 3;
    i, p := 0, 0;
    EncodedFew([]);
    assert src[..0] == [];
    while i < n
      invariant 0 <= i <= n && i % 3 == 0 && p == i / 3 * 4
      invariant dst[..] == Encoded(src[..i]) + was[p..]
    {
      ghost var before := dst[..];
      PutGroup(dst, p, src[i], src[i + 1], src[i + 2]);
      GroupDone(src, i, p, was, before, dst[..]);
      i := i + 3;
      p := p + 4;
    }
  }

  /** One more group behind the text so far. */
  lemma GroupDone(src: Text, i: nat, p: nat, was: Text, before: Text, now: Text)
    requires i % 3 == 0 && p == i / 3 * 4 && i + 3 <= |src| && p + 4 <= |was|
    requires before == Encoded(src[..i]) + was[p..]
    requires now == before[..p] + Four(src[i], src[i + 1], src[i + 2]) + before[p + 4..]
    ensures now == Encoded(src[..i + 3]) + was[p + 4..]
  {
    hide Encoded, Four;
    var g := src[i..i + 3];
    assert src[..i + 3] == src[..i] + g;
    EncodedConcat(src[..i], g);
    EncodedFew(g);
    assert before[..p] == Encoded(src[..i]) && before[p + 4..] == was[p + 4..];
  }

  method PutGroup(dst: array<Octet>, p: nat, c1: Octet, c2: Octet, c3: Octet)
    requires p + 4 <= dst.Length
    modifies dst
    ensures dst[..] == old(dst[..p]) + Four(c1, c2, c3) + old(dst[p + 4..])
  {
    hide EncMap;
    SixBits(c1, c2, c3);
    dst[p] := EncMap(c1 / 4 % 64);
    dst[p + 1] := EncMap((c1 % 4 * 16 + c2 / 16) % 64);
    dst[p + 2] := EncMap((c2 % 16 * 4 + c3 / 64) % 64);
    dst[p + 3] := EncMap(c3 % 64);
  }

  /** The masks take nothing away. */
  lemma SixBits(a: Octet, b: Octet, c: Octet)
    ensures a / 4 % 64 == a / 4 && (a % 4 * 16 + b / 16) % 64 == a % 4 * 16 + b / 16
    ensures (b % 16 * 4 + c / 64) % 64 == b % 16 * 4 + c / 64
  {
  }

  lemma EncodedFew(s: Text)
    ensures Encoded([]) == []
    ensures |s| == 1 ==> Encoded(s) == Four(s[0], 0, 0)[..2] + [PAD, PAD]
    ensures |s| == 2 ==> Encoded(s) == Four(s[0], s[1], 0)[..3] + [PAD]
    ensures |s| == 3 ==> Encoded(s) == Four(s[0], s[1], s[2])
  {
    hide Four;
    if |s| == 3 { assert s[3..] == []; }
  }

  /** One or two bytes that are left, with padding. */
  method EncodeRest(dst: array<Octet>, src: Text, i: nat, p0: nat) returns (p: nat)
    requires |Encoded(src)| <= dst.Length
    requires i == |src| / 3 * 3 && p0 == |src| / 3 * 4
    modifies dst
    ensures p == |Encoded(src)|
    ensures dst[..] == old(dst[..])[..p0] + Encoded(src[i..]) + old(dst[..])[p..]
  {
    hide Encoded, EncMap;
    ghost var was := dst[..];
    p := p0;
    EncodedFew(src[i..]);
    if i < |src| {
      var c1 := src[i];
      var c2 := if i + 1 < |src| then src[i + 1] else 0;
      SixBits(c1, c2, 0);
      dst[p] := EncMap(c1 / 4 % 64);
      dst[p + 1] := EncMap((c1 % 4 * 16 + c2 / 16) % 64);
      dst[p + 2] := if i + 1 < |src| then EncMap(c2 % 16 * 4 % 64) else PAD;
      dst[p + 3] := PAD;
      p := p + 4;
    }
  }
}
