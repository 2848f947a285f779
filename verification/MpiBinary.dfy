/** Import and export of magnitudes as big-endian byte strings. */
module MpiBinary {
  import opened Numbers
  import opened Digits
  import opened Bits
  import opened Mpis
  import MpiShift
  import MpiString
  import B = Blocks
  import opened BigEndian

  type Bytes = B.Bytes

  // --------------------------------------------------------------- export

  lemma Pow256Is(t: nat)
    ensures MpiString.Pow256(t) == Pow(256, t)
  {
    hide Pow;
    PowStep(2, 0);
    PowStep(256, 0);
    if t > 0 {
      Pow256Is(t - 1);
      PowAdd(2, 8 * (t - 1), 8);
      MpiString.Pow8();
      PowStep(256, t - 1);
      MulComm(256, Pow(256, t - 1));
    }
  }

  /** Byte i of the magnitude. */
  function GetByte(p: seq<Limb>, i: nat): int
    requires i / CIL < |p|
  {
    PowPos(2, 8 * (i % CIL));
    p[i / CIL] / Pow(2, 8 * (i % CIL)) % 256
  }

  lemma GetByteIs(p: seq<Limb>, i: nat)
    requires i / CIL < |p|
    ensures Pow(256, i) > 0 && GetByte(p, i) == Val(p) / Pow(256, i) % 256
  {
    hide Pow, Eval;
    PowPos(256, i);
    MpiString.ByteOfLimb(p, i / CIL, i % CIL);
    DivModProps(i, CIL);
    MulComm(CIL, i / CIL);
    Pow256Is(i);
  }

  lemma StoredBytes(p: seq<Limb>)
    ensures Val(p) < Pow(256, |p| * CIL)
  {
    hide Pow, Eval;
    MpiShift.BasePow(|p|);
    Pow256Is(|p| * CIL);
    MulAssoc(8, CIL, |p|);
    MulComm(CIL, |p|);
  }

  lemma ByteIndex(i: nat, n: nat)
    requires i < n * CIL
    ensures i / CIL < n
  {
    DivBounds(i, CIL, n);
  }

  /** The bytes from buflen on are all zero. */
  method HighBytesZero(p: seq<Limb>, buflen: nat) returns (ok: bool)
    requires buflen <= |p| * CIL
    ensures ok <==> Val(p) < Pow(256, buflen)
  {
    hide Pow, Eval, GetByte, ZeroBetween;
    var stored := |p| * CIL;
    var i := buflen;
    HighStart(Val(p), buflen);
    while i < stored
      invariant buflen <= i <= stored && ZeroBetween(Val(p), buflen, i)
    {
      ByteIndex(i, |p|);
      GetByteIs(p, i);
      if GetByte(p, i) != 0 {
        DivModProps(Val(p), Pow(256, i));
        TooLarge(Val(p), buflen, i);
        return false;
      }
      HighStep(Val(p), buflen, i);
      i := i + 1;
    }
    StoredBytes(p);
    HighEnd(Val(p), buflen, i);
    return true;
  }

  /** The part of v from byte q on is the part from byte i on, shifted: the bytes between are zero. */
  ghost predicate ZeroBetween(v: nat, q: nat, i: nat) {
    q <= i && Pow(256, q) > 0 && Pow(256, i) > 0 && v / Pow(256, q) == Pow(256, i - q) * (v / Pow(256, i))
  }

  lemma HighStart(v: nat, q: nat)
    ensures ZeroBetween(v, q, q)
  {
    hide Pow;
    PowPos(256, q);
    PowStep(256, 0);
  }

  lemma HighStep(v: nat, q: nat, i: nat)
    requires ZeroBetween(v, q, i) && v / Pow(256, i) % 256 == 0
    ensures ZeroBetween(v, q, i + 1)
  {
    hide Pow;
    DivPow(v, i);
    DivModProps(v / Pow(256, i), 256);
    PowStep(256, i - q);
    MulAssoc(Pow(256, i - q), 256, v / Pow(256, i + 1));
    MulComm(Pow(256, i - q), 256);
    MulComm(256, v / Pow(256, i + 1));
    MulAssoc(256, Pow(256, i - q), v / Pow(256, i + 1));
  }

  lemma HighEnd(v: nat, q: nat, i: nat)
    requires ZeroBetween(v, q, i) && v < Pow(256, i)
    ensures v < Pow(256, q)
  {
    hide Pow;
    DivModUnique(v, Pow(256, i), 0, v);
    MulComm(0, Pow(256, i - q));
    DivModProps(v, Pow(256, q));
  }

  lemma TooLarge(v: nat, q: nat, i: nat)
    requires q <= i && Pow(256, i) > 0 && v / Pow(256, i) % 256 != 0
    ensures v >= Pow(256, q)
  {
    hide Pow;
    PowMono(256, q, i);
    if v < Pow(256, i) {
      DivModUnique(v, Pow(256, i), 0, v);
    }
  }

  /** The magnitude in exactly buflen bytes, if it fits. */
  method WriteBinary(X: Mpi, buf: array<bv8>, o: nat, buflen: nat) returns (ok: bool)
    requires o + buflen <= buf.Length
    modifies buf
    ensures ok <==> Val(X.p) < Pow(256, buflen)
    ensures ok ==> buf[o..o + buflen] == BE(Val(X.p), buflen)
    ensures !ok ==> buf[..] == old(buf[..])
    ensures buf[..o] == old(buf[..o]) && buf[o + buflen..] == old(buf[o + buflen..])
  {
    hide Pow, Eval, BE;
    var stored := |X.p| * CIL;
    StoredBytes(X.p);
    if stored < buflen {
      PowMono(256, stored, buflen);
      B.Store(buf, o, B.Zeros(buflen - stored));
      FillBytes(X.p, buf, o, o + (buflen - stored), stored);
    } else {
      ok := HighBytesZero(X.p, buflen);
      if !ok { return; }
      assert buf[o..o] == B.Zeros(0);
      FillBytes(X.p, buf, o, o, buflen);
    }
    return true;
  }

  /** The low bytes behind the zeros already there. */
  method FillBytes(p: seq<Limb>, buf: array<bv8>, ghost o: nat, start: nat, count: nat)
    requires o <= start && start + count <= buf.Length && count <= |p| * CIL && Val(p) < Pow(256, count)
    requires buf[o..start] == B.Zeros(start - o)
    modifies buf
    ensures buf[o..start + count] == BE(Val(p), start - o + count)
    ensures buf[..o] == old(buf[..o]) && buf[start + count..] == old(buf[start + count..])
  {
    hide Pow, Eval, BE;
    ghost var front := buf[..start];
    assert front[o..] == buf[o..start] && front[..o] == buf[..o];
    CopyBytes(p, buf, start, count);
    BEPad(Val(p), count, start - o);
    Padded(buf[..], front, o, start, BE(Val(p), count));
    assert buf[..o] == front[..o] && buf[o..start + count] == buf[..][o..start + count];
  }

  /** Zeros in front, the number behind them. */
  lemma Padded(buf: Bytes, front: Bytes, o: nat, start: nat, digits: Bytes)
    requires o <= start == |front| && start + |digits| <= |buf|
    requires buf[..start] == front && front[o..] == B.Zeros(start - o)
    requires buf[start..start + |digits|] == digits
    ensures buf[o..start + |digits|] == B.Zeros(start - o) + digits && buf[..o] == front[..o]
  {
    assert buf[o..start + |digits|] == buf[..start][o..] + buf[start..start + |digits|];
  }

  method CopyBytes(p: seq<Limb>, buf: array<bv8>, start: nat, count: nat)
    requires start + count <= buf.Length && count <= |p| * CIL
    modifies buf
    ensures buf[start..start + count] == BE(Val(p), count)
    ensures buf[..start] == old(buf[..start]) && buf[start + count..] == old(buf[start + count..])
  {
    hide Pow, Eval, GetByte, BE, B.ToByte;
    assert buf[start + count..start + count] == BE(Val(p), 0) by { EmptyBE(Val(p)); }
    var i := 0;
    while i < count
      invariant 0 <= i <= count
      invariant buf[start + count - i..start + count] == BE(Val(p), i)
      invariant buf[..start] == old(buf[..start]) && buf[start + count..] == old(buf[start + count..])
    {
      ByteIndex(i, |p|);
      GetByteIs(p, i);
      BEFront(Val(p), i);
      ghost var was := buf[start + count - i..start + count];
      var at := start + count - i - 1;
      buf[at] := B.ToByte(GetByte(p, i));
      assert buf[at..start + count] == [buf[at]] + was;
      i := i + 1;
    }
  }

  lemma EmptyBE(v: nat)
    ensures BE(v, 0) == []
  {
  }

  // --------------------------------------------------------------- import

  /** The limb that CIL bytes in memory order stand for once the bytes are swapped to host order. */
  method BigEndianToHost(mem: Bytes, k: nat) returns (x: Limb)
    requires CIL * k + CIL <= |mem|
    ensures x == BEValue(mem[CIL * k..CIL * k + CIL])
  {
    hide Pow, Or;
    ghost var group := mem[CIL * k..CIL * k + CIL];
    var tmp := 0;
    var i := 0;
    PowPos(256, CIL);
    PowStep(256, 0);
    BaseIs();
    while i < CIL
      invariant 0 <= i <= CIL && tmp == BEValue(group[..i]) && 0 <= tmp < Pow(256, i)
    {
      var b := B.Num(mem[CIL * k + i]);
      assert group[..i + 1] == group[..i] + [group[i]];
      BEValueSnoc(group[..i], group[i]);
      PowStep(256, i);
      MpiString.Pow8();
      OrDisjoint(tmp, b, 8);
      tmp := Or(tmp * 256, b);
      i := i + 1;
    }
    assert group[..i] == group;
    x := tmp;
  }

  lemma BaseIs()
    ensures Pow(256, CIL) == Base()
  {
    hide Pow;
    Pow256Is(CIL);
  }

  /** The value of limbs that hold the groups of a byte string, last group first. */
  lemma {:induction false} GroupsValue(mem: Bytes, p: seq<Limb>, m: nat)
    requires m <= |p| && |mem| == CIL * |p|
    requires forall i :: 0 <= i < |p| ==> Placed(mem, |p|, i, p[i])
    ensures CIL * (|p| - m) <= |mem| && Val(p[..m]) == BEValue(mem[CIL * (|p| - m)..])
  {
    hide Pow, Eval, BEValue;
    MulDist(CIL, |p|, m);
    if m == 0 {
      assert mem[CIL * |p|..] == [] && p[..0] == [];
      ValEmpty();
      EmptyValue([]);
    } else {
      GroupsValue(mem, p, m - 1);
      var k := |p| - m;
      assert Placed(mem, |p|, m - 1, p[m - 1]) && |p| - 1 - (m - 1) == k;
      MulDist(CIL, k, 1);
      PowGroups(m - 1);
      GroupStep(mem, CIL * k, CIL * k + CIL, CIL * (m - 1), p, m);
    }
  }

  /** One more limb, one more group in front. */
  lemma GroupStep(mem: Bytes, a: nat, c: nat, n: nat, p: seq<Limb>, m: nat)
    requires 0 < m <= |p| && a <= c <= |mem| && |mem| - c == n
    requires BEValue(mem[a..c]) == p[m - 1] && BEValue(mem[c..]) == Val(p[..m - 1])
    requires Pow(256, n) == Pow(Base(), m - 1)
    ensures BEValue(mem[a..]) == Val(p[..m])
  {
    hide Pow, Eval, BEValue;
    assert mem[a..] == mem[a..c] + mem[c..];
    BEValueConcat(mem[a..c], mem[c..]);
    EvalStep(Base(), p, m - 1);
    MulComm(p[m - 1], Pow(Base(), m - 1));
  }

  predicate Group(mem: Bytes, k: int) {
    0 <= k && CIL * k + CIL <= |mem|
  }

  /** Limb i of the number is the group as far from the end. */
  ghost predicate Placed(mem: Bytes, limbs: nat, i: int, x: int) {
    Group(mem, limbs - 1 - i) && x == BEValue(GroupAt(mem, limbs - 1 - i))
  }

  function GroupAt(mem: Bytes, k: int): Bytes
    requires Group(mem, k)
  {
    mem[CIL * k..CIL * k + CIL]
  }

  lemma PowGroups(m: nat)
    ensures CIL * m >= 0 && Pow(256, CIL * m) == Pow(Base(), m)
  {
    hide Pow;
    MulNonneg(CIL, m);
    PowStep(256, 0);
    PowStep(Base(), 0);
    if m > 0 {
      PowGroups(m - 1);
      MulDist(CIL, m, 1);
      PowAdd(256, CIL * (m - 1), CIL);
      BaseIs();
      PowStep(Base(), m - 1);
      MulComm(Base(), Pow(Base(), m - 1));
    }
  }

  /** Turns the limbs round in memory, swapping the bytes of each on the way. */
  method BigEndianLimbs(mem: Bytes, limbs: nat) returns (p: seq<Limb>)
    requires |mem| == CIL * limbs
    ensures |p| == limbs && Val(p) == BEValue(mem)
  {
    hide Pow, Eval, BEValue;
    p := Zeros(limbs);
    if limbs == 0 {
      GroupsValue(mem, p, 0);
      assert p[..0] == p && mem[CIL * (|p| - 0)..] == mem;
      return;
    }
    var left, right := 0, limbs - 1;
    while left <= right
      invariant 0 <= left <= limbs && right == limbs - 1 - left && |p| == limbs
      invariant forall i :: 0 <= i < limbs && (i < left || i > right) ==> Placed(mem, limbs, i, p[i])
    {
      InGroups(mem, limbs, left);
      InGroups(mem, limbs, right);
      var tmp := BigEndianToHost(mem, left);
      var other := BigEndianToHost(mem, right);
      p := p[left := other];
      p := p[right := tmp];
      left, right := left + 1, right - 1;
    }
    GroupsValue(mem, p, limbs);
    assert p[..limbs] == p && mem[CIL * (|p| - limbs)..] == mem by { MulComm(CIL, 0); }
  }

  lemma InGroups(mem: Bytes, limbs: nat, k: nat)
    requires |mem| == CIL * limbs && k < limbs
    ensures Group(mem, k)
  {
    MulMono(CIL, k + 1, limbs);
    MulDist(CIL, k, 1);
  }

  /** X becomes the number in the bytes. */
  method ReadBinary(X: Mpi, buf: Bytes)
    modifies X
    ensures X.s == 1 && X.Value() == BEValue(buf)
  {
    hide Pow, Eval, BEValue;
    var limbs := |buf| / CIL + (if |buf| % CIL != 0 then 1 else 0);
    DivModProps(|buf|, CIL);
    MulComm(CIL, |buf| / CIL);
    MulDist(CIL, |buf| / CIL, 1);
    var overhead := CIL * limbs - |buf|;
    if |X.p| != limbs { X.p := Zeros(limbs); }
    Lset(X, 0);
    if limbs > 0 {
      X.p := BigEndianLimbs(B.Zeros(overhead) + buf, limbs);
      BEValueZeros(overhead, buf);
    } else {
      EmptyValue(buf);
    }
  }

  /** Reading back what was written gives the magnitude. */
  method RoundTrip(X: Mpi, buf: array<bv8>, buflen: nat) returns (Y: Mpi, ok: bool)
    requires buflen <= buf.Length
    modifies buf
    ensures fresh(Y) && (ok <==> Val(X.p) < Pow(256, buflen)) && (ok ==> Y.Value() == Abs(X.Value()))
  {
    hide Pow, Eval, BEValue, BE;
    Y := new Mpi();
    ok := WriteBinary(X, buf, 0, buflen);
    if ok {
      BEValueBE(Val(X.p), buflen);
      ReadBinary(Y, buf[0..buflen]);
    }
  }
}
