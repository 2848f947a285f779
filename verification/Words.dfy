/** 32-bit words and the bytes they are read from and written to. */
module Words {
  import opened Blocks

  function PackLE(b0: bv8, b1: bv8, b2: bv8, b3: bv8): bv32 {
    (b0 as bv32) | ((b1 as bv32) << 8) | ((b2 as bv32) << 16) | ((b3 as bv32) << 24)
  }

  /** Byte i of a word, the least significant first. */
  function ByteLE(w: bv32, i: nat): bv8
    requires i < 4
  {
    match i
    case 0 => (w & 0xFF) as bv8
    case 1 => ((w >> 8) & 0xFF) as bv8
    case 2 => ((w >> 16) & 0xFF) as bv8
    case _ => ((w >> 24) & 0xFF) as bv8
  }

  lemma PackByte(b0: bv8, b1: bv8, b2: bv8, b3: bv8)
    ensures var w := PackLE(b0, b1, b2, b3);
      ByteLE(w, 0) == b0 && ByteLE(w, 1) == b1 && ByteLE(w, 2) == b2 && ByteLE(w, 3) == b3
  {
  }

  lemma BytePack(w: bv32)
    ensures PackLE(ByteLE(w, 0), ByteLE(w, 1), ByteLE(w, 2), ByteLE(w, 3)) == w
  {
  }

  /** Four words: the state of a 128-bit block cipher. */
  datatype Quad = Quad(a: bv32, b: bv32, c: bv32, d: bv32)

  function XorWord(x: bv32, y: bv32): bv32 {
    x ^ y
  }

  function XorQuad(x: Quad, y: Quad): Quad {
    Quad(XorWord(x.a, y.a), XorWord(x.b, y.b), XorWord(x.c, y.c), XorWord(x.d, y.d))
  }

  lemma XorQuadCancel(x: Quad, y: Quad)
    ensures XorQuad(XorQuad(x, y), y) == x
  {
    hide XorWord;
    XorWordCancel(x.a, y.a);
    XorWordCancel(x.b, y.b);
    XorWordCancel(x.c, y.c);
    XorWordCancel(x.d, y.d);
  }

  lemma XorQuadComm(x: Quad, y: Quad)
    ensures XorQuad(x, y) == XorQuad(y, x)
  {
  }

  lemma XorWordCancel(x: bv32, y: bv32)
    ensures XorWord(XorWord(x, y), y) == x
  {
  }

  lemma XorWordByte0(x: bv32, y: bv32)
    ensures ByteLE(XorWord(x, y), 0) == XorByte(ByteLE(x, 0), ByteLE(y, 0))
  {
  }

  lemma XorWordByte1(x: bv32, y: bv32)
    ensures ByteLE(XorWord(x, y), 1) == XorByte(ByteLE(x, 1), ByteLE(y, 1))
  {
  }

  lemma XorWordByte2(x: bv32, y: bv32)
    ensures ByteLE(XorWord(x, y), 2) == XorByte(ByteLE(x, 2), ByteLE(y, 2))
  {
  }

  lemma XorWordByte3(x: bv32, y: bv32)
    ensures ByteLE(XorWord(x, y), 3) == XorByte(ByteLE(x, 3), ByteLE(y, 3))
  {
  }

  lemma XorWordBytes(x: bv32, y: bv32)
    ensures ByteLE(XorWord(x, y), 0) == XorByte(ByteLE(x, 0), ByteLE(y, 0))
    ensures ByteLE(XorWord(x, y), 1) == XorByte(ByteLE(x, 1), ByteLE(y, 1))
    ensures ByteLE(XorWord(x, y), 2) == XorByte(ByteLE(x, 2), ByteLE(y, 2))
    ensures ByteLE(XorWord(x, y), 3) == XorByte(ByteLE(x, 3), ByteLE(y, 3))
  {
    hide ByteLE, XorWord, XorByte;
    XorWordByte0(x, y);
    XorWordByte1(x, y);
    XorWordByte2(x, y);
    XorWordByte3(x, y);
  }

  function GetLE(s: Bytes, i: nat): bv32
    requires i + 4 <= |s|
  {
    PackLE(s[i], s[i + 1], s[i + 2], s[i + 3])
  }

  function PutLE(w: bv32): (r: Bytes)
    ensures |r| == 4
  {
    [ByteLE(w, 0), ByteLE(w, 1), ByteLE(w, 2), ByteLE(w, 3)]
  }

  function QuadLE(s: Bytes): Quad
    requires |s| == 16
  {
    Quad(GetLE(s, 0), GetLE(s, 4), GetLE(s, 8), GetLE(s, 12))
  }

  function BytesLE(q: Quad): (r: Bytes)
    ensures |r| == 16
  {
    PutLE(q.a) + PutLE(q.b) + PutLE(q.c) + PutLE(q.d)
  }

  lemma BytesQuadLE(s: Bytes)
    requires |s| == 16
    ensures BytesLE(QuadLE(s)) == s
  {
    hide PackLE, ByteLE;
    PackByte(s[0], s[1], s[2], s[3]);
    PackByte(s[4], s[5], s[6], s[7]);
    PackByte(s[8], s[9], s[10], s[11]);
    PackByte(s[12], s[13], s[14], s[15]);
  }

  lemma QuadBytesLE(q: Quad)
    ensures QuadLE(BytesLE(q)) == q
  {
    hide PackLE, ByteLE;
    BytePack(q.a);
    BytePack(q.b);
    BytePack(q.c);
    BytePack(q.d);
  }
}
