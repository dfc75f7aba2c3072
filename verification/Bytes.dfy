/** Bytes, 32-bit words and the little-endian view of memory that libbfish relies on. */
module Bytes {
  type byte = bv8
  type word = bv32

  /** Exclusive or on words. */
  function Xw(a: word, b: word): word {
    a ^ b
  }

  /** Addition on words, wrapping at 32 bits. */
  function Aw(a: word, b: word): word {
    a + b
  }

  /** Words that share no set bit add up to their union, */
  lemma AwWithoutCarry(a: word, b: word)
    requires a & b == 0
    ensures Aw(a, b) == a | b
  {
  }

  /** and in general addition is that of the machine. */
  lemma AwAdds(a: word, b: word)
    ensures Aw(a, b) == a + b
  {
  }

  lemma XwCancels(a: word, b: word)
    ensures Xw(Xw(a, b), b) == a
  {
  }

  lemma XwExchange(a: word, b: word, c: word)
    ensures Xw(Xw(Xw(a, b), c), b) == Xw(a, c)
  {
    assert (a ^ b) ^ c == (a ^ c) ^ b;
    XwCancels(a ^ c, b);
  }

  /** The three XORs of the SWAP macro. */
  lemma XwSwap(a: word, b: word)
    ensures var a1 := Xw(a, b); var b1 := Xw(b, a1); b1 == a && Xw(a1, b1) == b
  {
  }

  /** The two halves of a cipher block. */
  datatype Halves = Halves(left: word, right: word)

  /** Four consecutive bytes of memory, lowest address first. */
  datatype Quad = Quad(b0: byte, b1: byte, b2: byte, b3: byte)

  function Pack(q: Quad): word {
    (q.b0 as word) | ((q.b1 as word) << 8) | ((q.b2 as word) << 16) | ((q.b3 as word) << 24)
  }

  function Unpack(w: word): Quad {
    Quad((w & 0xff) as byte, ((w >> 8) & 0xff) as byte, ((w >> 16) & 0xff) as byte, ((w >> 24) & 0xff) as byte)
  }

  lemma PackUnpack(w: word)
    ensures Pack(Unpack(w)) == w
  {
  }

  lemma UnpackPack(q: Quad)
    ensures Unpack(Pack(q)) == q
  {
  }

  /** Reading four bytes as a word on a little-endian host. */
  function Load(b: seq<byte>): word
    requires |b| == 4
  {
    Pack(Quad(b[0], b[1], b[2], b[3]))
  }

  function Store(w: word): (b: seq<byte>)
    ensures |b| == 4
  {
    var q := Unpack(w);
    [q.b0, q.b1, q.b2, q.b3]
  }

  lemma LoadStore(w: word)
    ensures Load(Store(w)) == w
  {
    PackUnpack(w);
  }

  lemma StoreLoad(b: seq<byte>)
    requires |b| == 4
    ensures Store(Load(b)) == b
  {
    UnpackPack(Quad(b[0], b[1], b[2], b[3]));
  }

  /** The byte reversal written out at both ends of bfish_encrypt_swap and bfish_decrypt. */
  function ByteSwap(w: word): word {
    ((w >> 24) | (w << 24)) | (((w >> 8) & 0xff00) | ((w << 8) & 0xff0000))
  }

  lemma ByteSwapTwice(w: word)
    ensures ByteSwap(ByteSwap(w)) == w
  {
  }

  /** What the reversal means in memory. */
  lemma ByteSwapReverses(w: word)
    ensures var b := Store(w); Store(ByteSwap(w)) == [b[3], b[2], b[1], b[0]]
  {
    assert var q := Unpack(w); Unpack(ByteSwap(w)) == Quad(q.b3, q.b2, q.b1, q.b0);
  }

  /** Four bytes as a word, most significant byte first. */
  function BigEndian(q: Quad): word {
    ((q.b0 as word) << 24) | ((q.b1 as word) << 16) | ((q.b2 as word) << 8) | (q.b3 as word)
  }

  /** Four bytes in memory, loaded and reversed, are the big-endian word the cipher works on, */
  lemma LoadBigEndian(b: seq<byte>)
    requires |b| == 4
    ensures ByteSwap(Load(b)) == BigEndian(Quad(b[0], b[1], b[2], b[3]))
  {
    SwapPack(Quad(b[0], b[1], b[2], b[3]));
  }

  lemma SwapPack(q: Quad)
    ensures ByteSwap(Pack(q)) == BigEndian(q)
  {
  }

  /** and a big-endian word, reversed and stored, puts its highest byte first. */
  lemma StoreBigEndian(q: Quad)
    ensures Store(ByteSwap(BigEndian(q))) == [q.b0, q.b1, q.b2, q.b3]
  {
    SwapPack(q);
    ByteSwapTwice(Pack(q));
    UnpackPack(q);
  }

  /** Every word is the big-endian reading of some four bytes. */
  lemma BigEndianOnto(w: word) returns (q: Quad)
    ensures BigEndian(q) == w
  {
    q := Unpack(ByteSwap(w));
    PackUnpack(ByteSwap(w));
    SwapPack(q);
    ByteSwapTwice(w);
  }

  /** Exclusive or on bytes. */
  function Xb(a: byte, b: byte): byte {
    a ^ b
  }

  function Xor(a: seq<byte>, b: seq<byte>): (r: seq<byte>)
    requires |a| == |b|
    ensures |r| == |a|
  {
    seq(|a|, i requires 0 <= i < |a| => Xb(a[i], b[i]))
  }

  lemma XorTwice(a: seq<byte>, b: seq<byte>)
    requires |a| == |b|
    ensures Xor(Xor(a, b), b) == a
    ensures Xor(b, Xor(b, a)) == a
  {
  }

  /** XOR of words is XOR of the bytes they occupy. */
  lemma XorLoad(a: seq<byte>, b: seq<byte>)
    requires |a| == |b| == 4
    ensures Load(Xor(a, b)) == Xw(Load(a), Load(b))
  {
    PackXor(Quad(a[0], a[1], a[2], a[3]), Quad(b[0], b[1], b[2], b[3]));
  }

  lemma PackXor(p: Quad, q: Quad)
    ensures Pack(Quad(p.b0 ^ q.b0, p.b1 ^ q.b1, p.b2 ^ q.b2, p.b3 ^ q.b3)) == Xw(Pack(p), Pack(q))
  {
  }

  /** An eight-byte block in memory as two words and back. */
  function LoadBlock(b: seq<byte>): Halves
    requires |b| == 8
  {
    Halves(Load(b[..4]), Load(b[4..]))
  }

  function StoreBlock(h: Halves): (b: seq<byte>)
    ensures |b| == 8
  {
    Store(h.left) + Store(h.right)
  }

  lemma LoadStoreBlock(h: Halves)
    ensures LoadBlock(StoreBlock(h)) == h
  {
    LoadStore(h.left);
    LoadStore(h.right);
    assert StoreBlock(h)[..4] == Store(h.left) && StoreBlock(h)[4..] == Store(h.right);
  }

  lemma StoreLoadBlock(b: seq<byte>)
    requires |b| == 8
    ensures StoreBlock(LoadBlock(b)) == b
  {
    StoreLoad(b[..4]);
    StoreLoad(b[4..]);
    assert b == b[..4] + b[4..];
  }

  lemma XorLoadBlock(a: seq<byte>, b: seq<byte>)
    requires |a| == |b| == 8
    ensures LoadBlock(Xor(a, b)) == Halves(Xw(LoadBlock(a).left, LoadBlock(b).left), Xw(LoadBlock(a).right, LoadBlock(b).right))
  {
    XorLoad(a[..4], b[..4]);
    XorLoad(a[4..], b[4..]);
    assert Xor(a, b)[..4] == Xor(a[..4], b[..4]);
    assert Xor(a, b)[4..] == Xor(a[4..], b[4..]);
  }
}
