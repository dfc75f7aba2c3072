/** The Feistel network of libbfish over an arbitrary round function and an arbitrary P table. */
module Feistel {
  import opened Bytes

  type PBox = p: seq<word> | |p| == 18 witness seq(18, _ => 0)

  /** The halves after the first n rounds of the encryption loop, each round ending in its swap. */
  function Up(f: word -> word, p: PBox, h: Halves, n: nat): Halves
    requires n <= 16
  {
    if n == 0 then h
    else
      var g := Up(f, p, h, n - 1);
      var x := Xw(g.left, p[n - 1]);
      Halves(Xw(g.right, f(x)), x)
  }

  /** The halves after the first n rounds of the decryption loop, which starts at P[17]. */
  function Down(f: word -> word, p: PBox, h: Halves, n: nat): Halves
    requires n <= 16
  {
    if n == 0 then h
    else
      var g := Down(f, p, h, n - 1);
      var x := Xw(g.left, p[18 - n]);
      Halves(Xw(g.right, f(x)), x)
  }

  /** Sixteen rounds, the last swap taken back, and the output whitening. */
  function Encipher(f: word -> word, p: PBox, h: Halves): Halves {
    var g := Up(f, p, h, 16);
    Halves(Xw(g.right, p[17]), Xw(g.left, p[16]))
  }

  function Decipher(f: word -> word, p: PBox, h: Halves): Halves {
    var g := Down(f, p, h, 16);
    Halves(Xw(g.right, p[0]), Xw(g.left, p[1]))
  }

  /** After n rounds, decryption holds the halves encryption had 16 - n rounds in, whitened and crossed. */
  lemma {:induction false} DownFollowsUp(f: word -> word, p: PBox, h: Halves, n: nat)
    requires n <= 16
    ensures var g := Up(f, p, h, 16 - n);
            Down(f, p, Encipher(f, p, h), n) == Halves(Xw(g.right, p[17 - n]), Xw(g.left, p[16 - n]))
  {
    hide Xw;
    if n > 0 {
      DownFollowsUp(f, p, h, n - 1);
      var g := Up(f, p, h, 16 - n);
      var x := Xw(g.left, p[16 - n]);
      assert Up(f, p, h, 17 - n) == Halves(Xw(g.right, f(x)), x);
      XwCancels(x, p[18 - n]);
      XwExchange(g.right, f(x), p[17 - n]);
    }
  }

  /** Decryption undoes encryption, whatever the tables hold. */
  lemma DecipherEncipher(f: word -> word, p: PBox, h: Halves)
    ensures Decipher(f, p, Encipher(f, p, h)) == h
  {
    DownFollowsUp(f, p, h, 16);
    XwCancels(h.left, p[0]);
    XwCancels(h.right, p[1]);
  }

  function Reversed(p: PBox): PBox {
    seq(18, i requires 0 <= i < 18 => p[17 - i])
  }

  /** Decryption is encryption with the P table read backwards. */
  lemma {:induction false} DownIsUpReversed(f: word -> word, p: PBox, h: Halves, n: nat)
    requires n <= 16
    ensures Down(f, p, h, n) == Up(f, Reversed(p), h, n)
    ensures Down(f, Reversed(p), h, n) == Up(f, p, h, n)
  {
    if n > 0 {
      DownIsUpReversed(f, p, h, n - 1);
    }
  }

  /** Encryption undoes decryption, so each is a permutation of the 64-bit blocks. */
  lemma EncipherDecipher(f: word -> word, p: PBox, h: Halves)
    ensures Encipher(f, p, Decipher(f, p, h)) == h
  {
    DownIsUpReversed(f, p, h, 16);
    var c := Decipher(f, p, h);
    assert c == Encipher(f, Reversed(p), h);
    DownIsUpReversed(f, p, c, 16);
    assert Encipher(f, p, c) == Decipher(f, Reversed(p), c);
    DecipherEncipher(f, Reversed(p), h);
  }
}

/** The Blowfish block functions as libbfish runs them: on two memory cells, under mutable key tables. */
module Blowfish {
  import opened Bytes
  import opened Feistel

  type SBox = s: seq<word> | |s| == 256 witness seq(256, _ => 0)
  const ZERO_BOX: SBox := seq(256, _ => 0)

  type SBoxes = s: seq<SBox> | |s| == 4 witness seq(4, _ => ZERO_BOX)

  /** The contents of `struct bfish_key`. */
  datatype Tables = Tables(p: PBox, s: SBoxes)

  /** Byte number k of a word, counted from the low end, as a table index. */
  function Index(x: word, k: nat): (r: nat)
    requires k < 4
    ensures r < 256
  {
    ((if k == 0 then x & 0xff else if k == 1 then (x >> 8) & 0xff else if k == 2 then (x >> 16) & 0xff else (x >> 24) & 0xff) as byte) as nat
  }

  /** The "F" function; word addition wraps at 32 bits. */
  function F(s: SBoxes, x: word): word {
    Aw(Xw(Aw(s[0][Index(x, 3)], s[1][Index(x, 2)]), s[2][Index(x, 1)]), s[3][Index(x, 0)])
  }

  lemma Index3(q: Quad)
    ensures Index(BigEndian(q), 3) == q.b0 as nat
  {
    assert ((BigEndian(q) >> 24) & 0xff) as byte == q.b0;
  }

  lemma Index2(q: Quad)
    ensures Index(BigEndian(q), 2) == q.b1 as nat
  {
    assert ((BigEndian(q) >> 16) & 0xff) as byte == q.b1;
  }

  lemma Index1(q: Quad)
    ensures Index(BigEndian(q), 1) == q.b2 as nat
  {
    assert ((BigEndian(q) >> 8) & 0xff) as byte == q.b2;
  }

  lemma Index0(q: Quad)
    ensures Index(BigEndian(q), 0) == q.b3 as nat
  {
    assert (BigEndian(q) & 0xff) as byte == q.b3;
  }

  /** The highest byte of the word selects in the first S box, the lowest in the last; the four words are combined by addition,
      exclusive or and addition. */
  lemma FMeaning(s: SBoxes, q: Quad)
    ensures F(s, BigEndian(q)) == Aw(Xw(Aw(s[0][q.b0 as nat], s[1][q.b1 as nat]), s[2][q.b2 as nat]), s[3][q.b3 as nat])
  {
    hide Index, BigEndian, Aw, Xw;
    Index3(q);
    Index2(q);
    Index1(q);
    Index0(q);
  }

  /** The key object as consecutive words of memory: the P words, then the S boxes. */
  function Words(t: Tables): (m: seq<word>)
    ensures |m| == 18 + 1024
  {
    t.p + t.s[0] + t.s[1] + t.s[2] + t.s[3]
  }

  function RoundFunction(s: SBoxes): word -> word {
    x => F(s, x)
  }

  function SwapBytes(h: Halves): Halves {
    Halves(ByteSwap(h.left), ByteSwap(h.right))
  }

  /** bfish_encrypt_swap on a little-endian host. */
  function EncryptSwap(t: Tables, h: Halves, swap: bool): Halves {
    if swap then SwapBytes(Encipher(RoundFunction(t.s), t.p, SwapBytes(h)))
    else Encipher(RoundFunction(t.s), t.p, h)
  }

  /** bfish_decrypt, which always converts byte order. */
  function Decrypt(t: Tables, h: Halves): Halves {
    SwapBytes(Decipher(RoundFunction(t.s), t.p, SwapBytes(h)))
  }

  /** bfish_decrypt and bfish_encrypt are mutually inverse under every table. */
  lemma DecryptEncrypt(t: Tables, h: Halves)
    ensures Decrypt(t, EncryptSwap(t, h, true)) == h
    ensures EncryptSwap(t, Decrypt(t, h), true) == h
  {
    var f, g := RoundFunction(t.s), SwapBytes(h);
    DecipherEncipher(f, t.p, g);
    EncipherDecipher(f, t.p, g);
    SwapBytesTwice(h);
    SwapBytesTwice(Encipher(f, t.p, g));
    SwapBytesTwice(Decipher(f, t.p, g));
  }

  lemma SwapBytesTwice(h: Halves)
    ensures SwapBytes(SwapBytes(h)) == h
  {
    ByteSwapTwice(h.left);
    ByteSwapTwice(h.right);
  }

  /** An addressable 32-bit word. */
  class Cell {
    var v: word

    constructor (w: word)
      ensures v == w
    {
      v := w;
    }
  }

  /** The key object: 18 P words and four S boxes, initially whatever malloc returned. */
  class BfishKey {
    const pbox: array<word>
    const sbox: array2<word>

    ghost predicate Valid() {
      pbox.Length == 18 && sbox.Length0 == 4 && sbox.Length1 == 256
    }

    ghost function T(): Tables
      requires Valid()
      reads pbox, sbox
    {
      Tables(pbox[..], seq(4, i requires 0 <= i < 4 reads sbox => Row(i)))
    }

    ghost function Row(i: nat): SBox
      requires Valid() && i < 4
      reads sbox
    {
      seq(256, j requires 0 <= j < 256 reads sbox => sbox[i, j])
    }

    constructor ()
      ensures Valid() && fresh(pbox) && fresh(sbox)
    {
      pbox := new word[18];
      sbox := new word[4, 256];
    }

    method Fbox(x: word) returns (fxl: word)
      requires Valid()
      ensures fxl == F(T().s, x)
    {
      fxl := Aw(sbox[0, Index(x, 3)], sbox[1, Index(x, 2)]);
      fxl := Xw(fxl, sbox[2, Index(x, 1)]);
      fxl := Aw(fxl, sbox[3, Index(x, 0)]);
    }
  }

  /** SWAP(a,b): three XORs; it needs two distinct cells, on one cell it would store zero. */
  method XorSwap(a: Cell, b: Cell)
    requires a != b
    modifies a, b
    ensures a.v == old(b.v) && b.v == old(a.v)
  {
    XwSwap(a.v, b.v);
    a.v := Xw(a.v, b.v);
    b.v := Xw(b.v, a.v);
    a.v := Xw(a.v, b.v);
  }

  /** The conversion block that opens and closes both block functions. */
  method ConvertByteOrder(left: Cell, right: Cell)
    requires left != right
    modifies left, right
    ensures Halves(left.v, right.v) == SwapBytes(old(Halves(left.v, right.v)))
  {
    left.v := ByteSwap(left.v);
    right.v := ByteSwap(right.v);
  }

  /** What a round of either direction does before its swap. */
  method RoundBody(left: Cell, right: Cell, bk: BfishKey, i: nat)
    requires left != right && bk.Valid() && i < 18
    modifies left, right
    ensures left.v == Xw(old(left.v), bk.T().p[i]) && right.v == Xw(old(right.v), F(bk.T().s, left.v))
  {
    hide Xw, Index, F;
    left.v := Xw(left.v, bk.pbox[i]);
    var fxl := bk.Fbox(left.v);
    right.v := Xw(right.v, fxl);
  }

  method EncryptRounds(left: Cell, right: Cell, bk: BfishKey)
    requires left != right && bk.Valid()
    modifies left, right
    ensures Halves(left.v, right.v) == Encipher(RoundFunction(bk.T().s), bk.T().p, old(Halves(left.v, right.v)))
  {
    hide Xw, Index, F;
    ghost var h, t := Halves(left.v, right.v), bk.T();
    var i := 0;
    while i < 16
      invariant 0 <= i <= 16 && bk.T() == t
      invariant Halves(left.v, right.v) == Up(RoundFunction(t.s), t.p, h, i)
    {
      RoundBody(left, right, bk, i);
      XorSwap(left, right);
      i := i + 1;
    }
    XorSwap(left, right);
    left.v := Xw(left.v, bk.pbox[17]);
    right.v := Xw(right.v, bk.pbox[16]);
  }

  method BfishEncryptSwap(left: Cell, right: Cell, bk: BfishKey, swap: bool)
    requires left != right && bk.Valid()
    modifies left, right
    ensures Halves(left.v, right.v) == EncryptSwap(bk.T(), old(Halves(left.v, right.v)), swap)
  {
    if swap {
      ConvertByteOrder(left, right);
    }
    EncryptRounds(left, right, bk);
    if swap {
      ConvertByteOrder(left, right);
    }
  }

  method DecryptRounds(left: Cell, right: Cell, bk: BfishKey)
    requires left != right && bk.Valid()
    modifies left, right
    ensures Halves(left.v, right.v) == Decipher(RoundFunction(bk.T().s), bk.T().p, old(Halves(left.v, right.v)))
  {
    hide Xw, Index, F;
    ghost var h, t := Halves(left.v, right.v), bk.T();
    var i := 17;
    while i >= 2
      invariant 1 <= i <= 17 && bk.T() == t
      invariant Halves(left.v, right.v) == Down(RoundFunction(t.s), t.p, h, 17 - i)
    {
      RoundBody(left, right, bk, i);
      XorSwap(right, left);
      i := i - 1;
    }
    XorSwap(right, left);
    left.v := Xw(left.v, bk.pbox[0]);
    right.v := Xw(right.v, bk.pbox[1]);
  }

  method BfishDecrypt(left: Cell, right: Cell, bk: BfishKey)
    requires left != right && bk.Valid()
    modifies left, right
    ensures Halves(left.v, right.v) == Decrypt(bk.T(), old(Halves(left.v, right.v)))
  {
    ConvertByteOrder(left, right);
    DecryptRounds(left, right, bk);
    ConvertByteOrder(left, right);
  }
}
