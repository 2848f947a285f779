/** Big-endian numbers in byte strings. */
module BigEndian {
  import opened Numbers
  import opened Blocks

  /** The low q bytes of v, most significant first. */
  function BE(v: nat, q: nat): (r: Bytes)
    ensures |r| == q
  {
    if q == 0 then [] else BE(v / 256, q - 1) + [ToByte(v % 256)]
  }

  /** One more byte in front. */
  lemma {:induction false} BEFront(v: nat, q: nat)
    ensures Pow(256, q) > 0 && BE(v, q + 1) == [ToByte(v / Pow(256, q) % 256)] + BE(v, q)
  {
    hide Pow, ToByte;
    PowPos(256, q);
    if q == 0 {
      PowStep(256, 0);
      assert BE(v / 256, 0) == [];
    } else {
      BEFront(v / 256, q - 1);
      PowStep(256, q - 1);
      DivPow(v, q - 1);
    }
  }

  lemma DivPow(v: nat, q: nat)
    ensures Pow(256, q) > 0 && Pow(256, q + 1) > 0 && v / 256 / Pow(256, q) == v / Pow(256, q + 1)
    ensures v / Pow(256, q) / 256 == v / Pow(256, q + 1)
  {
    hide Pow;
    PowPos(256, q);
    PowPos(256, q + 1);
    PowStep(256, q);
    DivDiv(v, 256, Pow(256, q));
    DivDiv(v, Pow(256, q), 256);
    MulComm(256, Pow(256, q));
  }

  /** Numbers that fit are told apart by their bytes. */
  lemma {:induction false} BEInjective(v: nat, w: nat, q: nat)
    requires v < Pow(256, q) && w < Pow(256, q) && BE(v, q) == BE(w, q)
    ensures v == w
  {
    hide ToByte, Num;
    if q > 0 {
      assert BE(v, q)[..q - 1] == BE(v / 256, q - 1) && BE(w, q)[..q - 1] == BE(w / 256, q - 1);
      assert BE(v, q)[q - 1] == ToByte(v % 256) && BE(w, q)[q - 1] == ToByte(w % 256);
      NumToByte(v % 256);
      NumToByte(w % 256);
      PowStep(256, q - 1);
      BEInjective(v / 256, w / 256, q - 1);
    }
  }

  /** A multiple of 256^i ends in i zero bytes. */
  lemma {:induction false} BEShifted(w: nat, q: nat, i: nat)
    ensures w * Pow(256, i) >= 0 && BE(w * Pow(256, i), q + i) == BE(w, q) + Zeros(i)
  {
    hide Pow, ToByte;
    PowPos(256, i);
    MulNonneg(w, Pow(256, i));
    PowStep(256, 0);
    if i == 0 {
      assert Zeros(0) == [];
    } else {
      BEShifted(w, q, i - 1);
      PowStep(256, i - 1);
      var x := w * Pow(256, i - 1);
      assert w * Pow(256, i) == 256 * x by {
        MulAssoc(w, 256, Pow(256, i - 1));
        MulComm(w, 256);
        MulAssoc(256, w, Pow(256, i - 1));
      }
      DivModUnique(256 * x, 256, x, 0);
      assert Zeros(i) == Zeros(i - 1) + [0];
      ZeroByte();
    }
  }

  lemma ZeroByte()
    ensures ToByte(0) == 0
  {
  }

  /** ++ on a byte. */
  lemma NextDigit(d: nat)
    requires d < 256
    ensures ToByte(d) + 1 == if d == 255 then 0 else ToByte(d + 1)
  {
    hide Num;
    NumToByte(d);
    NextByte(ToByte(d));
    ToByteNum(ToByte(d) + 1);
    NumIs(ToByte(d));
    NumIs(ToByte(d) + 1);
    ZeroByte();
  }

  lemma NumIs(b: bv8)
    ensures Num(b) == b as int
  {
  }

  // ------------------------------------------------- reading numbers back

  /** The number a byte string stands for, most significant byte first. */
  function BEValue(s: Bytes): (v: nat) {
    if s == [] then 0 else BEValue(s[..|s| - 1]) * 256 + Num(s[|s| - 1])
  }

  lemma BEValueSnoc(s: Bytes, b: bv8)
    ensures BEValue(s + [b]) == BEValue(s) * 256 + Num(b)
  {
    assert (s + [b])[..|s|] == s;
  }

  lemma {:induction false} BEValueBound(s: Bytes)
    ensures BEValue(s) < Pow(256, |s|)
  {
    hide Pow;
    PowStep(256, 0);
    if s != [] {
      BEValueBound(s[..|s| - 1]);
      PowStep(256, |s| - 1);
    }
  }

  lemma {:induction false} BEValueConcat(s: Bytes, t: Bytes)
    ensures BEValue(s + t) == BEValue(s) * Pow(256, |t|) + BEValue(t)
  {
    hide Pow;
    if t == [] {
      PowStep(256, 0);
      assert s + t == s;
    } else {
      var m := |t| - 1;
      assert (s + t)[..|s + t| - 1] == s + t[..m];
      BEValueConcat(s, t[..m]);
      PowStep(256, m);
      MulComm(256, Pow(256, m));
      MulAssoc(BEValue(s), Pow(256, m), 256);
    }
  }

  /** Writing a number in enough bytes and reading the bytes gives it back. */
  lemma {:induction false} BEValueBE(v: nat, q: nat)
    requires v < Pow(256, q)
    ensures BEValue(BE(v, q)) == v
  {
    hide Pow, ToByte, Num;
    PowStep(256, 0);
    if q > 0 {
      PowStep(256, q - 1);
      BEValueBE(v / 256, q - 1);
      BEValueSnoc(BE(v / 256, q - 1), ToByte(v % 256));
      NumToByte(v % 256);
    }
  }

  lemma {:induction false} BEValueZeros(n: nat, s: Bytes)
    ensures BEValue(Zeros(n) + s) == BEValue(s)
  {
    ZerosValue(n);
    BEValueConcat(Zeros(n), s);
  }

  lemma {:induction false} ZerosValue(n: nat)
    ensures BEValue(Zeros(n)) == 0
  {
    if n > 0 {
      assert Zeros(n)[..n - 1] == Zeros(n - 1);
      ZerosValue(n - 1);
    }
  }

  /** Leading zero bytes when a number needs fewer. */
  lemma {:induction false} BEPad(v: nat, q: nat, k: nat)
    requires v < Pow(256, q)
    ensures BE(v, k + q) == Zeros(k) + BE(v, q)
  {
    hide Pow, ToByte;
    if q == 0 {
      PowStep(256, 0);
      BEShifted(0, 0, k);
      assert Zeros(k) + BE(v, 0) == Zeros(k);
      assert BE(0, 0) + Zeros(k) == Zeros(k);
    } else {
      PowStep(256, q - 1);
      BEPad(v / 256, q - 1, k);
      assert k + q - 1 == k + (q - 1);
    }
  }

  lemma EmptyValue(s: Bytes)
    requires s == []
    ensures BEValue(s) == 0
  {
  }
}
