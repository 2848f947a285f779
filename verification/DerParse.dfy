/** Reading DER: a cursor moves through memory up to a limit. */
module DerParse {
  import opened Numbers
  import opened Blocks
  import opened BigEndian
  import opened Der
  import opened Bits

  /** What the routines report of what was found at p, memory ending at end. */
  ghost predicate Reports(f: Found, p: nat, ret: int, q: nat, len: nat) {
    match f
    case Got(content, n) => ret == 0 && q == p + content && len == n
    case Bad(code, cursor) => ret == code && q == p + cursor
  }

  // ---------------------------------------------------------- tag and length

  lemma BitsOfOctet(b: bv8)
    ensures b & 0x80 == 0 <==> Num(b) < 0x80
    ensures b & 0x80 != 0 ==> Num(b & 0x7F) == Num(b) - 0x80
  {
  }

  lemma Values(a: bv8, b: bv8, c: bv8, d: bv8)
    ensures BEValue([a]) == Num(a)
    ensures BEValue([a, b]) == Num(a) * 0x100 + Num(b)
    ensures BEValue([a, b, c]) == Num(a) * 0x1_0000 + Num(b) * 0x100 + Num(c)
    ensures BEValue([a, b, c, d]) == Num(a) * 0x100_0000 + Num(b) * 0x1_0000 + Num(c) * 0x100 + Num(d)
  {
    hide Num;
    assert [] + [a] == [a] && [a] + [b] == [a, b] && [a, b] + [c] == [a, b, c] && [a, b, c] + [d] == [a, b, c, d];
    BEValueSnoc([], a);
    BEValueSnoc([a], b);
    BEValueSnoc([a, b], c);
    BEValueSnoc([a, b, c], d);
  }

  /** Shifted bytes or-ed together add up. */
  lemma Ors(a: nat, b: nat, c: nat, d: nat)
    requires a < 256 && b < 256 && c < 256 && d < 256
    ensures Or(a * 0x100, b) == a * 0x100 + b
    ensures Or(Or(a * 0x1_0000, b * 0x100), c) == a * 0x1_0000 + b * 0x100 + c
    ensures Or(Or(Or(a * 0x100_0000, b * 0x1_0000), c * 0x100), d) == a * 0x100_0000 + b * 0x1_0000 + c * 0x100 + d
  {
    hide Pow, Or;
    TwoPowers();
    OrDisjoint(a, b, 8);
    OrDisjoint(a, b * 0x100, 16);
    OrDisjoint(a * 0x100 + b, c, 8);
    OrDisjoint(a, b * 0x1_0000, 24);
    OrDisjoint(a * 0x100 + b, c * 0x100, 16);
    OrDisjoint(a * 0x1_0000 + b * 0x100 + c, d, 8);
  }

  lemma TwoPowers()
    ensures Pow(2, 8) == 0x100 && Pow(2, 16) == 0x1_0000 && Pow(2, 24) == 0x100_0000 && Pow(2, 32) == 0x1_0000_0000
  {
    assert Pow(2, 8) == 0x100;
    PowAdd(2, 8, 8);
    PowAdd(2, 16, 8);
    PowAdd(2, 16, 16);
  }

  method GetLen(mem: Bytes, p: nat, end: nat) returns (ret: int, q: nat, len: nat)
    requires p <= end <= |mem|
    ensures Reports(LenAt(mem[p..end]), p, ret, q, len)
  {
    hide Or, BEValue, Num;
    q, len := p, 0;
    ghost var s := mem[p..end];
    if end - p < 1 { return OUT_OF_DATA, q, len; }
    var b := mem[p];
    BitsOfOctet(b);
    if b & 0x80 == 0 {
      len, q := Num(b), p + 1;
    } else {
      ret, q, len := LongLen(mem, p, end);
      if ret != 0 { return; }
    }
    if len > end - q { return OUT_OF_DATA, q, len; }
    ret := 0;
  }

  /** The switch on the number of length octets. */
  method LongLen(mem: Bytes, p: nat, end: nat) returns (ret: int, q: nat, len: nat)
    requires p < end <= |mem| && Num(mem[p]) >= 0x80
    ensures var k := Num(mem[p]) - 0x80;
      if k == 0 || k > 4 then ret == INVALID_LENGTH && q == p
      else if end - p < k + 1 then ret == OUT_OF_DATA && q == p
      else ret == 0 && q == p + k + 1 && len == BEValue(mem[p..end][1..k + 1])
  {
    hide Or, BEValue, Num;
    q, len, ret := p, 0, 0;
    BitsOfOctet(mem[p]);
    var k := Num(mem[p] & 0x7F);
    if k == 1 {
      if end - p < 2 { return OUT_OF_DATA, q, len; }
      len := Num(mem[p + 1]);
      q := p + 2;
      OneOctet(mem, p, end);
    } else if k == 2 {
      if end - p < 3 { return OUT_OF_DATA, q, len; }
      len := Or(Num(mem[p + 1]) * 0x100, Num(mem[p + 2]));
      q := p + 3;
      TwoOctets(mem, p, end);
    } else if k == 3 {
      if end - p < 4 { return OUT_OF_DATA, q, len; }
      len := Or(Or(Num(mem[p + 1]) * 0x1_0000, Num(mem[p + 2]) * 0x100), Num(mem[p + 3]));
      q := p + 4;
      ThreeOctets(mem, p, end);
    } else if k == 4 {
      if end - p < 5 { return OUT_OF_DATA, q, len; }
      len := Or(Or(Or(Num(mem[p + 1]) * 0x100_0000, Num(mem[p + 2]) * 0x1_0000), Num(mem[p + 3]) * 0x100), Num(mem[p + 4]));
      q := p + 5;
      FourOctets(mem, p, end);
    } else {
      ret := INVALID_LENGTH;
    }
  }

  lemma OneOctet(mem: Bytes, p: nat, end: nat)
    requires p + 1 < end <= |mem|
    ensures BEValue(mem[p..end][1..2]) == Num(mem[p + 1])
  {
    hide BEValue, Num;
    Values(mem[p + 1], 0, 0, 0);
    SliceSlice(mem, p, end, 1, 1);
    assert mem[p + 1..p + 2] == [mem[p + 1]];
  }

  lemma TwoOctets(mem: Bytes, p: nat, end: nat)
    requires p + 2 < end <= |mem|
    ensures BEValue(mem[p..end][1..3]) == Or(Num(mem[p + 1]) * 0x100, Num(mem[p + 2]))
  {
    hide Or, BEValue, Num;
    Values(mem[p + 1], mem[p + 2], 0, 0);
    Ors(Num(mem[p + 1]), Num(mem[p + 2]), 0, 0);
    SliceSlice(mem, p, end, 1, 2);
    assert mem[p + 1..p + 3] == [mem[p + 1], mem[p + 2]];
  }

  lemma ThreeOctets(mem: Bytes, p: nat, end: nat)
    requires p + 3 < end <= |mem|
    ensures BEValue(mem[p..end][1..4]) == Or(Or(Num(mem[p + 1]) * 0x1_0000, Num(mem[p + 2]) * 0x100), Num(mem[p + 3]))
  {
    hide Or, BEValue, Num;
    Values(mem[p + 1], mem[p + 2], mem[p + 3], 0);
    Ors(Num(mem[p + 1]), Num(mem[p + 2]), Num(mem[p + 3]), 0);
    SliceSlice(mem, p, end, 1, 3);
    assert mem[p + 1..p + 4] == [mem[p + 1], mem[p + 2], mem[p + 3]];
  }

  lemma FourOctets(mem: Bytes, p: nat, end: nat)
    requires p + 4 < end <= |mem|
    ensures BEValue(mem[p..end][1..5]) ==
      Or(Or(Or(Num(mem[p + 1]) * 0x100_0000, Num(mem[p + 2]) * 0x1_0000), Num(mem[p + 3]) * 0x100), Num(mem[p + 4]))
  {
    hide Or, BEValue, Num;
    Values(mem[p + 1], mem[p + 2], mem[p + 3], mem[p + 4]);
    Ors(Num(mem[p + 1]), Num(mem[p + 2]), Num(mem[p + 3]), Num(mem[p + 4]));
    SliceSlice(mem, p, end, 1, 4);
    assert mem[p + 1..p + 5] == [mem[p + 1], mem[p + 2], mem[p + 3], mem[p + 4]];
  }

  method GetTag(mem: Bytes, p: nat, end: nat, tag: bv8) returns (ret: int, q: nat, len: nat)
    requires p <= end <= |mem|
    ensures Reports(ElementAt(mem[p..end], tag), p, ret, q, len)
  {
    hide LenAt;
    if end - p < 1 { return OUT_OF_DATA, p, 0; }
    if mem[p] != tag { return UNEXPECTED_TAG, p, 0; }
    assert mem[p..end][1..] == mem[p + 1..end];
    ret, q, len := GetLen(mem, p + 1, end);
  }
}
