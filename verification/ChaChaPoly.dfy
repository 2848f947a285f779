/**
 * ChaCha20-Poly1305: the call sequence is a state machine, and whatever the pieces, the
 * authenticator sees the one byte string of section 2.8 of RFC 7539.
 */
module ChaChaPoly {
  import opened Numbers
  import opened Blocks
  import opened ChaCha20

  datatype Phase = Init | Aad | Ciphertext | Finished

  datatype Status = Ok | BadState | AuthFailed

  /** The one-time authenticator: a tag from a 32-byte key and the bytes absorbed. */
  type MacFn = (Bytes, Bytes) -> Bytes

  class Poly1305Context {
    const mac: MacFn
    var key: Bytes
    var absorbed: Bytes

    constructor (mac: MacFn)
      ensures this.mac == mac
    {
      this.mac := mac;
      key, absorbed := [], [];
    }

    method Starts(k: Bytes)
      modifies this
      ensures key == k && absorbed == []
    {
      key, absorbed := k, [];
    }

    method Update(data: Bytes)
      modifies this`absorbed
      ensures absorbed == old(absorbed) + data
    {
      absorbed := absorbed + data;
    }

    method Finish() returns (tag: Bytes)
      ensures tag == mac(key, absorbed)
    {
      tag := mac(key, absorbed);
    }
  }

  const LEN_LIMIT: int := 0x1_0000_0000_0000_0000

  /** A 64-bit length, least significant byte first. */
  function LE(v: nat, q: nat): (r: Bytes)
    ensures |r| == q
  {
    if q == 0 then [] else [ToByte(v % 256)] + LE(v / 256, q - 1)
  }

  /** Everything the authenticator is given. */
  function MacInput(aad: Bytes, ct: Bytes): Bytes {
    Pad16(aad) + Pad16(ct) + (LE(|aad| % LEN_LIMIT, 8) + LE(|ct| % LEN_LIMIT, 8))
  }

  /** The tag of a message under a nonce: the key is the first half of key stream block 0. */
  function Tag(f: KeyBlockFn, mac: MacFn, v: Bytes, aad: Bytes, ct: Bytes): Bytes
    requires KeyBlocks(f)
  {
    mac(f(v, 0)[..32], MacInput(aad, ct))
  }

  /** The ciphertext: key stream from counter 1 on. */
  function Seal(f: KeyBlockFn, v: Bytes, p: Bytes): (r: Bytes)
    requires KeyBlocks(f)
    ensures |r| == |p|
  {
    Streamed(f, v, 0, 64, p)
  }

  class ChaChaPolyContext {
    const chacha: ChaCha20Context
    const poly: Poly1305Context
    var aadLen: nat
    var ciphertextLen: nat
    var phase: Phase
    var op: Operation
    /** The additional data, the input and the output of the message so far. */
    ghost var aad: Bytes
    ghost var fed: Bytes
    ghost var out: Bytes

    constructor (f: KeyBlockFn, mac: MacFn)
      requires KeyBlocks(f)
      ensures Shape() && phase == Init && chacha.f == f && poly.mac == mac
      ensures fresh(chacha) && fresh(chacha.keystream) && fresh(poly)
    {
      chacha := new ChaCha20Context(f);
      poly := new Poly1305Context(mac);
      aadLen, ciphertextLen := 0, 0;
      phase, op := Init, Encrypt;
      aad, fed, out := [], [], [];
    }

    ghost predicate Shape()
      reads this
    {
      KeyBlocks(chacha.f) && chacha.keystream.Length == 64
    }

    /** The ciphertext side of the message so far. */
    ghost function Ct(): Bytes
      reads this
    {
      if op.Encrypt? then out else fed
    }

    /** A message is under way, in the phase the calls so far have led to. */
    ghost predicate Running()
      reads this, chacha, chacha.keystream, poly
    {
      && Shape() && chacha.Valid() && chacha.start == 0 && chacha.pos == 64 + |fed|
      && (phase.Aad? || phase.Ciphertext?)
      && poly.key == chacha.f(chacha.nonce, 0)[..32]
      && aadLen == |aad| % LEN_LIMIT && ciphertextLen == |fed| % LEN_LIMIT
      && out == Seal(chacha.f, chacha.nonce, fed)
      && poly.absorbed == (if phase.Aad? then aad else Pad16(aad) + Ct())
      && (phase.Aad? ==> fed == [])
    }

    method Starts(v: Bytes, mode: Operation)
      requires Shape()
      modifies this, chacha, chacha.keystream, poly
      ensures Running() && phase == Aad && op == mode && chacha.nonce == v && aad == [] && fed == [] && out == []
    {
      hide KeyBlocks, Seal, Pad16;
      var key := OneTimeKey(v);
      poly.Starts(key);
      EmptySeal(chacha.f, v);
      aadLen, ciphertextLen := 0, 0;
      phase, op := Aad, mode;
      aad, fed, out := [], [], [];
    }

    /** Starts the cipher and spends key stream block 0 on the authenticator's key. */
    method OneTimeKey(v: Bytes) returns (key: Bytes)
      requires KeyBlocks(chacha.f) && chacha.keystream.Length == 64
      modifies chacha, chacha.keystream
      ensures chacha.Valid() && chacha.nonce == v && chacha.start == 0 && chacha.pos == 64
      ensures key == chacha.f(v, 0)[..32]
    {
      hide XorByte, KeyBlocks, Streamed;
      chacha.Starts(v, 0);
      var polyKey := new bv8[64];
      Store(polyKey, 0, Zeros(64));
      assert polyKey[..64] == polyKey[0..64] == Zeros(64);
      chacha.Update(64, polyKey, polyKey);
      StreamOfZeros(chacha.f, v);
      key := polyKey[..32];
      assert polyKey[..32] == polyKey[..64][..32];
    }

    method UpdateAad(data: Bytes) returns (ret: Status)
      requires Running() || (Shape() && !phase.Aad?)
      modifies this`aadLen, this`aad, poly`absorbed
      ensures ret == if phase.Aad? then Ok else BadState
      ensures ret == Ok ==> Running() && aad == old(aad) + data
      ensures ret != Ok ==> aad == old(aad) && aadLen == old(aadLen) && poly.absorbed == old(poly.absorbed)
    {
      hide KeyBlocks, Seal, Pad16;
      if !phase.Aad? { return BadState; }
      AddMod(|aad|, |data|);
      aadLen := (aadLen + |data|) % LEN_LIMIT;
      poly.Update(data);
      aad := aad + data;
      return Ok;
    }

    /** Zeros up to a block boundary, from a length kept modulo 2^64. */
    method PadPoly(len: int, ghost s: Bytes, ghost before: Bytes)
      requires len == |s| % LEN_LIMIT && poly.absorbed == before + s
      modifies poly`absorbed
      ensures poly.absorbed == before + Pad16(s)
    {
      var partial := len % 16;
      PartialOf(|s|);
      if partial == 0 {
        assert Zeros(0) == [];
        return;
      }
      poly.Update(Zeros(16 - partial));
      assert (before + s) + Zeros(16 - partial) == before + (s + Zeros(16 - partial));
    }

    /** The additional data ends where the first data begins. */
    method EnterCiphertext()
      requires Running() && phase.Aad?
      modifies this`phase, poly`absorbed
      ensures Running() && phase.Ciphertext?
    {
      hide KeyBlocks, Pad16;
      EmptySeal(chacha.f, chacha.nonce);
      phase := Ciphertext;
      assert poly.absorbed == [] + aad;
      PadPoly(aadLen, aad, []);
      assert [] + Pad16(aad) == Pad16(aad) + [] == Pad16(aad);
    }

    method Update(len: nat, input: array<bv8>, output: array<bv8>) returns (ret: Status)
      requires Running() || (Shape() && !phase.Aad? && !phase.Ciphertext?)
      requires len <= input.Length && len <= output.Length && chacha.keystream !in {input, output}
      modifies this, chacha, chacha.keystream, poly`absorbed, output
      ensures ret == if old(phase.Aad? || phase.Ciphertext?) then Ok else BadState
      ensures ret == Ok ==> Running() && phase.Ciphertext? && op == old(op) && aad == old(aad)
      ensures ret == Ok ==> chacha.nonce == old(chacha.nonce) && poly.key == old(poly.key)
      ensures ret == Ok ==> fed == old(fed) + old(input[..len]) && out == old(out) + output[..len]
      ensures ret != Ok ==> output[..] == old(output[..]) && phase == old(phase) && poly.absorbed == old(poly.absorbed)
      ensures output[len..] == old(output[len..])
    {
      hide KeyBlocks, Seal, Pad16;
      if !phase.Aad? && !phase.Ciphertext? { return BadState; }
      if phase.Aad? { EnterCiphertext(); }
      CryptData(len, input, output);
      return Ok;
    }

    /** Data once the phase is right: the authenticator always gets the ciphertext side. */
    method CryptData(len: nat, input: array<bv8>, output: array<bv8>)
      requires Running() && phase.Ciphertext?
      requires len <= input.Length && len <= output.Length && chacha.keystream !in {input, output}
      modifies this`ciphertextLen, this`fed, this`out, chacha`counter, chacha`used, chacha`pos
      modifies chacha.keystream, poly`absorbed, output
      ensures Running() && fed == old(fed) + old(input[..len]) && out == old(out) + output[..len]
      ensures output[len..] == old(output[len..])
    {
      hide KeyBlocks, Streamed, Seal, Pad16;
      AddMod(|fed|, len);
      ciphertextLen := (ciphertextLen + len) % LEN_LIMIT;
      ghost var data := input[..len];
      SealConcat(chacha.f, chacha.nonce, fed, data);
      ghost var side := CryptSide(len, input, output);
      Appended(Pad16(aad), Ct(), side);
      fed := fed + data;
      out := out + output[..len];
    }

    /** Cipher and authenticator, in the order the direction asks for. */
    method CryptSide(len: nat, input: array<bv8>, output: array<bv8>) returns (ghost side: Bytes)
      requires KeyBlocks(chacha.f) && chacha.Valid()
      requires len <= input.Length && len <= output.Length && chacha.keystream !in {input, output}
      modifies chacha`counter, chacha`used, chacha`pos, chacha.keystream, poly`absorbed, output
      ensures chacha.Valid() && chacha.pos == old(chacha.pos) + len
      ensures output[..len] == Streamed(chacha.f, chacha.nonce, chacha.start, old(chacha.pos), old(input[..len]))
      ensures output[len..] == old(output[len..])
      ensures side == (if op.Encrypt? then output[..len] else old(input[..len]))
      ensures poly.absorbed == old(poly.absorbed) + side
    {
      hide KeyBlocks, Streamed;
      if op.Encrypt? {
        chacha.Update(len, input, output);
        side := output[..len];
        poly.Update(output[..len]);
      } else {
        side := input[..len];
        poly.Update(input[..len]);
        chacha.Update(len, input, output);
      }
    }

    /** Pads what is still open, adds the length block and takes the tag. */
    method Finish() returns (ret: Status, tag: Bytes)
      requires Running() || (Shape() && !phase.Aad? && !phase.Ciphertext?)
      modifies this`phase, poly`absorbed
      ensures ret == if old(phase.Init?) then BadState else Ok
      ensures old(phase.Aad? || phase.Ciphertext?) ==> tag == Tag(chacha.f, poly.mac, chacha.nonce, aad, Ct())
      ensures ret == Ok ==> phase == Finished
    {
      hide KeyBlocks, Pad16, LE, LengthBytes, Seal;
      tag := [];
      if phase.Init? { return BadState, []; }
      ghost var live, ct := phase.Aad? || phase.Ciphertext?, Ct();
      if phase.Aad? {
        assert poly.absorbed == [] + aad;
        PadPoly(aadLen, aad, []);
        EmptySeal(chacha.f, chacha.nonce);
        assert ct == [];
        EmptyPad();
        assert [] + Pad16(aad) == Pad16(aad) + Pad16(ct);
      } else if phase.Ciphertext? {
        PadPoly(ciphertextLen, ct, Pad16(aad));
      }
      phase := Finished;
      var lenBlock := LengthBytes(aadLen) + LengthBytes(ciphertextLen);
      LengthBytesLE(aadLen);
      LengthBytesLE(ciphertextLen);
      poly.Update(lenBlock);
      tag := poly.Finish();
      ret := Ok;
    }
  }

  lemma PartialOf(n: nat)
    ensures n % LEN_LIMIT % 16 == n % 16
    ensures (16 - n % 16) % 16 == if n % 16 == 0 then 0 else 16 - n % 16
  {
    assert n == (n / LEN_LIMIT) * LEN_LIMIT + n % LEN_LIMIT;
    assert LEN_LIMIT == 16 * 0x1000_0000_0000_0000;
  }

  lemma AddMod(a: nat, b: nat)
    ensures (a % LEN_LIMIT + b) % LEN_LIMIT == (a + b) % LEN_LIMIT
  {
  }

  /** A key stream block: zeros encrypted. */
  lemma StreamOfZeros(f: KeyBlockFn, v: Bytes)
    requires KeyBlocks(f)
    ensures Streamed(f, v, 0, 0, Zeros(64)) == f(v, 0)
  {
    hide XorByte;
    var s := Streamed(f, v, 0, 0, Zeros(64));
    forall i | 0 <= i < 64 ensures s[i] == f(v, 0)[i] {
      XorByteZero(StreamByte(f, v, 0, i));
    }
  }

  /** The eight bytes of a length, each cut out by its own shift. */
  function LengthBytes(v: nat): (r: Bytes)
    ensures |r| == 8
  {
    [ToByte(v % 256), ToByte(v / 0x100 % 256), ToByte(v / 0x1_0000 % 256), ToByte(v / 0x100_0000 % 256),
     ToByte(v / 0x1_0000_0000 % 256), ToByte(v / 0x100_0000_0000 % 256), ToByte(v / 0x1_0000_0000_0000 % 256),
     ToByte(v / 0x100_0000_0000_0000 % 256)]
  }

  lemma LengthBytesLE(v: nat)
    ensures LengthBytes(v) == LE(v, 8)
  {
    hide ToByte, LE;
    LEHalves(v);
    LEFour(v);
    LEFour(v / 0x1_0000_0000);
    var h := v / 0x1_0000_0000;
    assert h / 0x100 == v / 0x100_0000_0000;
    assert h / 0x1_0000 == v / 0x1_0000_0000_0000;
    assert h / 0x100_0000 == v / 0x100_0000_0000_0000;
  }

  lemma LEFour(v: nat)
    ensures LE(v, 4) ==
      [ToByte(v % 256), ToByte(v / 0x100 % 256), ToByte(v / 0x1_0000 % 256), ToByte(v / 0x100_0000 % 256)]
  {
    hide ToByte;
    var a := v / 256;
    var b := a / 256;
    var c := b / 256;
    assert b == v / 0x1_0000 && c == v / 0x100_0000;
    assert LE(c, 1) == [ToByte(c % 256)];
    assert LE(b, 2) == [ToByte(b % 256)] + LE(c, 1);
    assert LE(a, 3) == [ToByte(a % 256)] + LE(b, 2);
  }

  function Dropped(v: nat, p: nat): nat {
    if p == 0 then v else Dropped(v / 256, p - 1)
  }

  lemma {:induction false} LEConcat(v: nat, p: nat, q: nat)
    ensures LE(v, p + q) == LE(v, p) + LE(Dropped(v, p), q)
  {
    hide ToByte;
    if p > 0 {
      LEConcat(v / 256, p - 1, q);
      assert p - 1 + q == p + q - 1;
    }
  }

  lemma LEHalves(v: nat)
    ensures LE(v, 8) == LE(v, 4) + LE(v / 0x1_0000_0000, 4)
  {
    hide LE;
    LEConcat(v, 4, 4);
    var a := v / 256;
    var b := a / 256;
    var c := b / 256;
    assert Dropped(a, 3) == Dropped(b, 2) == Dropped(c, 1) == c / 256;
  }

  lemma Appended(prefix: Bytes, ct: Bytes, more: Bytes)
    ensures (prefix + ct) + more == prefix + (ct + more)
  {
  }

  lemma EmptyPad()
    ensures Pad16([]) == []
  {
  }

  lemma EmptySeal(f: KeyBlockFn, v: Bytes)
    requires KeyBlocks(f)
    ensures Seal(f, v, []) == []
  {
  }

  lemma SealConcat(f: KeyBlockFn, v: Bytes, a: Bytes, b: Bytes)
    requires KeyBlocks(f)
    ensures Seal(f, v, a + b) == Seal(f, v, a) + Streamed(f, v, 0, 64 + |a|, b)
  {
    hide KeyBlocks, Streamed;
    StreamedConcat(f, v, 0, 64, a, b);
  }

  /** Opening takes sealing back. */
  lemma SealTwice(f: KeyBlockFn, v: Bytes, p: Bytes)
    requires KeyBlocks(f)
    ensures Seal(f, v, Seal(f, v, p)) == p
  {
    StreamedTwice(f, v, 0, 64, p);
  }

  /** Byte i of the ciphertext uses byte i % 64 of the key stream block with counter 1 + i / 64. */
  lemma SealAt(f: KeyBlockFn, v: Bytes, p: Bytes, i: nat)
    requires KeyBlocks(f) && i < |p|
    ensures Seal(f, v, p)[i] == XorByte(p[i], f(v, (1 + i / 64) % 0x1_0000_0000)[i % 64])
  {
    hide XorByte;
    assert (64 + i) / 64 == 1 + i / 64 && (64 + i) % 64 == i % 64;
  }

  lemma SealBytes(f: KeyBlockFn, v: Bytes, p: Bytes)
    requires KeyBlocks(f)
    ensures forall i :: 0 <= i < |p| ==>
      Seal(f, v, p)[i] == XorByte(p[i], f(v, (1 + i / 64) % 0x1_0000_0000)[i % 64])
  {
    hide Seal, XorByte;
    forall i | 0 <= i < |p| ensures Seal(f, v, p)[i] == XorByte(p[i], f(v, (1 + i / 64) % 0x1_0000_0000)[i % 64]) {
      SealAt(f, v, p, i);
    }
  }

  lemma TagIs(f: KeyBlockFn, mac: MacFn, v: Bytes, aad: Bytes, ct: Bytes)
    requires KeyBlocks(f)
    ensures Tag(f, mac, v, aad, ct) == mac(f(v, 0)[..32], MacInput(aad, ct))
  {
  }

  /** The number a byte string stands for, least significant byte first. */
  function LEValue(s: Bytes): (v: nat) {
    if s == [] then 0 else Num(s[0]) + 256 * LEValue(s[1..])
  }

  lemma {:induction false} LEValueLE(v: nat, q: nat)
    requires v < Pow(256, q)
    ensures LEValue(LE(v, q)) == v
  {
    hide Pow, ToByte, Num;
    PowStep(256, 0);
    if q > 0 {
      PowStep(256, q - 1);
      NumToByte(v % 256);
      LEValueLE(v / 256, q - 1);
      assert LE(v, q)[1..] == LE(v / 256, q - 1);
    }
  }

  lemma EightBytes()
    ensures Pow(256, 8) == LEN_LIMIT
  {
    hide Pow;
    PowStep(256, 0);
    PowStep(256, 1);
    PowAdd(256, 2, 2);
    PowAdd(256, 4, 4);
  }

  /**
   * The authenticator's input read part by part, as in section 2.8 of RFC 7539: additional data, zeros,
   * ciphertext, zeros, the length of the one and then of the other.
   */
  lemma MacInputLayout(aad: Bytes, ct: Bytes)
    ensures var x, m, k := MacInput(aad, ct), (|aad| + 15) / 16 * 16, (|ct| + 15) / 16 * 16;
      && |x| == m + k + 16
      && x[..|aad|] == aad && x[|aad|..m] == Zeros(m - |aad|)
      && x[m..m + |ct|] == ct && x[m + |ct|..m + k] == Zeros(k - |ct|)
      && LEValue(x[m + k..m + k + 8]) == |aad| % 0x1_0000_0000_0000_0000
      && LEValue(x[m + k + 8..]) == |ct| % 0x1_0000_0000_0000_0000
  {
    hide LE, LEValue, Pow, Pad16;
    var x, a, c := MacInput(aad, ct), Pad16(aad), Pad16(ct);
    var l, l' := LE(|aad| % LEN_LIMIT, 8), LE(|ct| % LEN_LIMIT, 8);
    EightBytes();
    LEValueLE(|aad| % LEN_LIMIT, 8);
    LEValueLE(|ct| % LEN_LIMIT, 8);
    PadLayout(aad);
    PadLayout(ct);
    Quarters(a, c, l, l');
    assert x == a + c + (l + l');
    assert x[..|aad|] == x[..|a|][..|aad|] && x[|aad|..|a|] == x[..|a|][|aad|..];
    assert x[|a|..|a| + |ct|] == x[|a|..|a| + |c|][..|ct|] && x[|a| + |ct|..|a| + |c|] == x[|a|..|a| + |c|][|ct|..];
  }

  lemma Quarters(a: Bytes, b: Bytes, c: Bytes, d: Bytes)
    ensures var x := a + b + (c + d);
      && x[..|a|] == a && x[|a|..|a| + |b|] == b
      && x[|a| + |b|..|a| + |b| + |c|] == c && x[|a| + |b| + |c|..] == d
  {
  }

  /**
   * A whole message in one call of each kind: key stream blocks from counter 1 on for the data, the first
   * half of block 0 for the authenticator.
   */
  method CryptAndTag(ctx: ChaChaPolyContext, op: Operation, length: nat, v: Bytes, aad: Bytes,
                     input: array<bv8>, output: array<bv8>)
    returns (tag: Bytes)
    requires ctx.Shape() && length <= input.Length && length <= output.Length && ctx.chacha.keystream !in {input, output}
    modifies ctx, ctx.chacha, ctx.chacha.keystream, ctx.poly, output
    ensures output[..length] == Seal(ctx.chacha.f, v, old(input[..length]))
    ensures tag == Tag(ctx.chacha.f, ctx.poly.mac, v, aad, if op.Encrypt? then output[..length] else old(input[..length]))
    ensures forall i :: 0 <= i < length ==>
      output[..length][i] == XorByte(old(input[..length])[i], ctx.chacha.f(v, (1 + i / 64) % 0x1_0000_0000)[i % 64])
    ensures tag == ctx.poly.mac(ctx.chacha.f(v, 0)[..32],
                                MacInput(aad, if op.Encrypt? then output[..length] else old(input[..length])))
    ensures output[length..] == old(output[length..])
  {
    hide KeyBlocks, Seal, MacInput, Tag, Pad16, XorByte;
    ghost var data := input[..length];
    ctx.Starts(v, op);
    var ret := ctx.UpdateAad(aad);
    assert ctx.aad == aad;
    ret := ctx.Update(length, input, output);
    assert ctx.fed == old(input[..length]) && ctx.out == output[..length];
    ret, tag := ctx.Finish();
    SealBytes(ctx.chacha.f, v, data);
    TagIs(ctx.chacha.f, ctx.poly.mac, v, aad, if op.Encrypt? then output[..length] else data);
  }

  /** Decrypts, and gives the plaintext out only under its own tag. */
  method AuthDecrypt(ctx: ChaChaPolyContext, length: nat, v: Bytes, aad: Bytes, tag: Bytes,
                     input: array<bv8>, output: array<bv8>)
    returns (ret: Status)
    requires ctx.Shape() && length <= input.Length && length <= output.Length && ctx.chacha.keystream !in {input, output}
    requires |tag| == 16 && forall k: Bytes, s: Bytes :: |ctx.poly.mac(k, s)| == 16
    modifies ctx, ctx.chacha, ctx.chacha.keystream, ctx.poly, output
    ensures ret == if tag == Tag(ctx.chacha.f, ctx.poly.mac, v, aad, old(input[..length])) then Ok else AuthFailed
    ensures output[..length] == if ret == Ok then Seal(ctx.chacha.f, v, old(input[..length])) else Zeros(length)
    ensures output[length..] == old(output[length..])
  {
    hide KeyBlocks, Seal, MacInput, XorByte;
    ghost var ct := input[..length];
    var checkTag := CryptAndTag(ctx, Decrypt, length, v, aad, input, output);
    TagSize(ctx.chacha.f, ctx.poly.mac, v, aad, ct, checkTag);
    ghost var out := output[..];
    var diff: bv8 := 0;
    var i := 0;
    while i < 16
      invariant 0 <= i <= 16 && output[..] == out
      invariant diff == 0 <==> tag[..i] == checkTag[..i]
    {
      DiffBit(diff, tag[i], checkTag[i]);
      diff := diff | XorByte(tag[i], checkTag[i]);
      assert tag[..i + 1] == tag[..i] + [tag[i]] && checkTag[..i + 1] == checkTag[..i] + [checkTag[i]];
      i := i + 1;
    }
    assert tag[..i] == tag && checkTag[..i] == checkTag;
    if diff != 0 {
      Store(output, 0, Zeros(length));
      assert output[..length] == output[0..length];
      assert output[length..] == output[0 + length..] == out[length..];
      return AuthFailed;
    }
    return Ok;
  }

  /** A message sealed by a sequence of calls in any pieces opens under the tag that sequence made. */
  method SealOpen(f: KeyBlockFn, mac: MacFn, v: Bytes, aads: seq<Bytes>, pieces: seq<Bytes>) returns (ok: bool, p: Bytes)
    requires KeyBlocks(f) && forall k: Bytes, s: Bytes :: |mac(k, s)| == 16
    ensures ok && p == Flat(pieces)
  {
    hide KeyBlocks, Seal, MacInput, Tag;
    var ctx := new ChaChaPolyContext(f, mac);
    ctx.Starts(v, Encrypt);
    FeedAad(ctx, aads);
    var c := FeedData(ctx, pieces);
    var ret, tag := ctx.Finish();
    SealTwice(f, v, Flat(pieces));
    TagSize(f, mac, v, Flat(aads), c, tag);
    var buf := new bv8[|c|](j requires 0 <= j < |c| => c[j]);
    assert buf[..|c|] == c;
    ret := AuthDecrypt(ctx, |c|, v, Flat(aads), tag, buf, buf);
    ok, p := ret == Ok, buf[..|c|];
  }

  method FeedAad(ctx: ChaChaPolyContext, aads: seq<Bytes>)
    requires ctx.Running() && ctx.phase == Aad && ctx.aad == []
    modifies ctx`aadLen, ctx`aad, ctx.poly`absorbed
    ensures ctx.Running() && ctx.phase == Aad && ctx.aad == Flat(aads)
  {
    hide KeyBlocks, Seal;
    assert aads[..0] == [];
    var i := 0;
    while i < |aads|
      invariant 0 <= i <= |aads| && ctx.Running() && ctx.phase == Aad
      invariant ctx.aad == Flat(aads[..i])
    {
      var ret := ctx.UpdateAad(aads[i]);
      FlatStep(aads, i);
      i := i + 1;
    }
    assert aads[..i] == aads;
  }

  /** Feeds the data in pieces; collects the output. */
  method FeedData(ctx: ChaChaPolyContext, pieces: seq<Bytes>) returns (c: Bytes)
    requires ctx.Running() && ctx.fed == [] && ctx.out == []
    modifies ctx, ctx.chacha, ctx.chacha.keystream, ctx.poly`absorbed
    ensures ctx.Running() && ctx.op == old(ctx.op) && ctx.chacha.nonce == old(ctx.chacha.nonce)
    ensures ctx.aad == old(ctx.aad) && ctx.fed == Flat(pieces) && ctx.out == c
  {
    hide KeyBlocks, Seal;
    assert pieces[..0] == [];
    c := [];
    var i := 0;
    while i < |pieces|
      invariant 0 <= i <= |pieces| && ctx.Running()
      invariant ctx.op == old(ctx.op) && ctx.chacha.nonce == old(ctx.chacha.nonce)
      invariant ctx.aad == old(ctx.aad) && ctx.fed == Flat(pieces[..i]) && ctx.out == c
    {
      var n := |pieces[i]|;
      var buf := new bv8[n](j requires 0 <= j < n => pieces[i][j]);
      assert buf[..n] == pieces[i];
      var ret := ctx.Update(n, buf, buf);
      c := c + buf[..n];
      FlatStep(pieces, i);
      i := i + 1;
    }
    assert pieces[..i] == pieces;
  }

  lemma TagSize(f: KeyBlockFn, mac: MacFn, v: Bytes, aad: Bytes, ct: Bytes, tag: Bytes)
    requires KeyBlocks(f) && tag == Tag(f, mac, v, aad, ct) && forall k: Bytes, s: Bytes :: |mac(k, s)| == 16
    ensures |tag| == 16
  {
  }
}
