/** The block functions on eight bytes of memory, and in-place access to a byte buffer. */
module Memory {
  import opened Bytes
  import opened Feistel
  import opened Blowfish

  function BlockEnc(t: Tables, b: seq<byte>): (c: seq<byte>)
    requires |b| == 8
    ensures |c| == 8
  {
    StoreBlock(EncryptSwap(t, LoadBlock(b), true))
  }

  function BlockDec(t: Tables, c: seq<byte>): (b: seq<byte>)
    requires |c| == 8
    ensures |b| == 8
  {
    StoreBlock(Decrypt(t, LoadBlock(c)))
  }

  lemma BlockInverse(t: Tables, b: seq<byte>)
    requires |b| == 8
    ensures BlockDec(t, BlockEnc(t, b)) == b
    ensures BlockEnc(t, BlockDec(t, b)) == b
  {
    hide EncryptSwap, Decrypt, LoadBlock, StoreBlock;
    var h := LoadBlock(b);
    LoadStoreBlock(EncryptSwap(t, h, true));
    LoadStoreBlock(Decrypt(t, h));
    DecryptEncrypt(t, h);
    StoreLoadBlock(b);
  }

  /** The four bytes of a word, highest first. */
  ghost predicate Spells(b: seq<byte>, w: word) {
    |b| == 4 && BigEndian(Quad(b[0], b[1], b[2], b[3])) == w
  }

  /** What happens to eight bytes of memory: read as two big-endian words, first word left, they go through the sixteen rounds and
      are written back the same way. */
  lemma BlockEncMeaning(t: Tables, b: seq<byte>, left: word, right: word)
    requires |b| == 8 && Spells(b[..4], left) && Spells(b[4..], right)
    ensures var c, h := BlockEnc(t, b), Encipher(RoundFunction(t.s), t.p, Halves(left, right));
            Spells(c[..4], h.left) && Spells(c[4..], h.right)
  {
    hide ByteSwap, BigEndian, Load, Store, Encipher;
    LoadBigEndian(b[..4]);
    LoadBigEndian(b[4..]);
    var h := Encipher(RoundFunction(t.s), t.p, Halves(left, right));
    var c := Store(ByteSwap(h.left)) + Store(ByteSwap(h.right));
    assert BlockEnc(t, b) == c;
    assert c[..4] == Store(ByteSwap(h.left)) && c[4..] == Store(ByteSwap(h.right));
    StoreSpells(h.left);
    StoreSpells(h.right);
  }

  lemma StoreSpells(w: word)
    ensures Spells(Store(ByteSwap(w)), w)
  {
    hide ByteSwap, BigEndian, Store;
    var q := BigEndianOnto(w);
    StoreBigEndian(q);
  }

  method EncryptBlock(b: seq<byte>, bk: BfishKey) returns (c: seq<byte>)
    requires |b| == 8 && bk.Valid()
    ensures c == BlockEnc(bk.T(), b)
  {
    hide EncryptSwap, LoadBlock, StoreBlock, Load, Store;
    var h := LoadBlock(b);
    var left := new Cell(h.left);
    var right := new Cell(h.right);
    BfishEncryptSwap(left, right, bk, true);
    c := StoreBlock(Halves(left.v, right.v));
  }

  method DecryptBlock(c: seq<byte>, bk: BfishKey) returns (b: seq<byte>)
    requires |c| == 8 && bk.Valid()
    ensures b == BlockDec(bk.T(), c)
  {
    hide Decrypt, LoadBlock, StoreBlock, Load, Store;
    var h := LoadBlock(c);
    var left := new Cell(h.left);
    var right := new Cell(h.right);
    BfishDecrypt(left, right, bk);
    b := StoreBlock(Halves(left.v, right.v));
  }

  /** Memory s with the bytes b written at position i. */
  function Splice<T>(s: seq<T>, i: nat, b: seq<T>): (r: seq<T>)
    requires i + |b| <= |s|
    ensures |r| == |s|
    ensures r[..i] == s[..i] && r[i..i + |b|] == b && r[i + |b|..] == s[i + |b|..]
  {
    s[..i] + b + s[i + |b|..]
  }

  lemma SpliceSame<T>(s: seq<T>, i: nat, n: nat)
    requires i + n <= |s|
    ensures Splice(s, i, s[i..i + n]) == s
  {
  }

  /** Writing a block and a tail behind finished memory, seen as one write to the original memory. */
  lemma SpliceTail<T>(before: seq<T>, off: nat, m: seq<T>, x: nat, block: seq<T>, tail: seq<T>)
    requires |m| == |before| && off + |block| <= x && x + |tail| <= |m|
    requires m[..off] == before[..off] && m[x..] == before[x..]
    ensures Splice(Splice(m, x - |block|, block), x, tail) == Splice(before, off, m[off..x - |block|] + (block + tail))
  {
    var l, r := Splice(Splice(m, x - |block|, block), x, tail), Splice(before, off, m[off..x - |block|] + (block + tail));
    forall k | 0 <= k < |m| ensures l[k] == r[k] {
      if k < off {
        assert m[k] == m[..off][k] == before[..off][k];
      } else if x + |tail| <= k {
        assert m[k] == m[x..][k - x] == before[x..][k - x];
      }
    }
  }

  /** memcpy(m + i, b, |b|) */
  method Memcpy(m: array<byte>, i: nat, b: seq<byte>)
    requires i + |b| <= m.Length
    modifies m
    ensures m[..] == Splice(old(m[..]), i, b)
  {
    forall k | 0 <= k < |b| {
      m[i + k] := b[k];
    }
  }

  /** XOR of eight bytes of memory with a block, word by word. */
  method XorAt(m: array<byte>, i: nat, b: seq<byte>)
    requires |b| == 8 && i + 8 <= m.Length
    modifies m
    ensures m[..] == Splice(old(m[..]), i, Xor(old(m[i..i + 8]), b))
  {
    hide Load, Store, Xor, Xw, LoadBlock, StoreBlock;
    var a := m[i..i + 8];
    var h, g := LoadBlock(a), LoadBlock(b);
    var x := StoreBlock(Halves(Xw(h.left, g.left), Xw(h.right, g.right)));
    XorLoadBlock(a, b);
    StoreLoadBlock(Xor(a, b));
    Memcpy(m, i, x);
  }
}

/** CBC with ciphertext stealing: the reference definition, its inverse, and the in-place loops. */
module Cbc {
  import opened Bytes
  import opened Blowfish
  import opened Memory

  function Pad(s: seq<byte>): (r: seq<byte>)
    requires |s| <= 8
    ensures |r| == 8
  {
    s + seq(8 - |s|, _ => 0)
  }

  /** The output from an encrypted block e onward, when `rest` is the plaintext still to come.
      A short tail swaps places with the last full block (CBC-CS2 of the addendum to NIST SP 800-38A). */
  function Chain(t: Tables, e: seq<byte>, rest: seq<byte>): (c: seq<byte>)
    requires |e| == 8
    ensures |c| == 8 + |rest|
    decreases |rest|
  {
    if |rest| == 0 then e
    else if |rest| < 8 then BlockEnc(t, Xor(Pad(rest), e)) + e[..|rest|]
    else e + Chain(t, BlockEnc(t, Xor(rest[..8], e)), rest[8..])
  }

  /** bfish_cbc_encrypt: nothing happens to a buffer below one block. */
  function Encrypt(t: Tables, iv: seq<byte>, s: seq<byte>): (c: seq<byte>)
    requires |iv| == 8
    ensures |c| == |s|
  {
    if |s| < 8 then s else Chain(t, BlockEnc(t, Xor(s[..8], iv)), s[8..])
  }

  /** Decryption of c, whose first block was chained to `prev`. */
  function Unchain(t: Tables, prev: seq<byte>, c: seq<byte>): (s: seq<byte>)
    requires |prev| == 8 && |c| >= 8
    ensures |s| == |c|
    decreases |c|
  {
    var d := BlockDec(t, c[..8]);
    if |c| == 8 then Xor(d, prev)
    else if |c| < 16 then
      var n := |c| - 8;
      Xor(BlockDec(t, c[8..] + d[n..]), prev) + Xor(d[..n], c[8..])
    else Xor(d, prev) + Unchain(t, c[..8], c[8..])
  }

  /** bfish_cbc_decrypt */
  function Decrypt(t: Tables, iv: seq<byte>, c: seq<byte>): (s: seq<byte>)
    requires |iv| == 8
    ensures |s| == |c|
  {
    if |c| < 8 then c else Unchain(t, iv, c)
  }

  /** The stolen tail: what decryption of the last block uncovers of a padded, XORed tail. */
  lemma StealTail(rest: seq<byte>, e: seq<byte>)
    requires |e| == 8 && 0 < |rest| < 8
    ensures var d := Xor(Pad(rest), e); var n := |rest|;
            e[..n] + d[n..] == e && Xor(d[..n], e[..n]) == rest
  {
    var d, n := Xor(Pad(rest), e), |rest|;
    assert e[..n] + d[n..] == e by {
      forall k | n <= k < 8 ensures d[k] == e[k] {
        assert Pad(rest)[k] == 0;
      }
    }
    assert Xor(d[..n], e[..n]) == rest;
  }

  lemma {:induction false} UnchainChain(t: Tables, prev: seq<byte>, b: seq<byte>, rest: seq<byte>)
    requires |prev| == |b| == 8
    ensures Unchain(t, prev, Chain(t, BlockEnc(t, Xor(b, prev)), rest)) == b + rest
    decreases |rest|
  {
    hide BlockEnc, BlockDec;
    var x := Xor(b, prev);
    var e := BlockEnc(t, x);
    BlockInverse(t, x);
    XorTwice(b, prev);
    var c := Chain(t, e, rest);
    if |rest| == 0 {
      assert c[..8] == e;
    } else if |rest| < 8 {
      var y := Xor(Pad(rest), e);
      BlockInverse(t, y);
      StealTail(rest, e);
      assert c[..8] == BlockEnc(t, y) && c[8..] == e[..|rest|];
    } else {
      UnchainChain(t, e, rest[..8], rest[8..]);
      assert c[..8] == e && c[8..] == Chain(t, BlockEnc(t, Xor(rest[..8], e)), rest[8..]);
      assert rest[..8] + rest[8..] == rest;
    }
  }

  /** The converse of StealTail, for an arbitrary last pair of blocks. */
  lemma RestealTail(d: seq<byte>, tail: seq<byte>)
    requires |d| == 8 && 0 < |tail| < 8
    ensures var n := |tail|; Xor(Pad(Xor(d[..n], tail)), tail + d[n..]) == d
  {
    var n := |tail|;
    var p, e := Xor(d[..n], tail), tail + d[n..];
    forall k | 0 <= k < 8 ensures Xor(Pad(p), e)[k] == d[k] {
      if k < n {
        assert Pad(p)[k] == d[k] ^ tail[k] && e[k] == tail[k];
      } else {
        assert Pad(p)[k] == 0 && e[k] == d[k];
      }
    }
  }

  lemma {:induction false} ChainUnchain(t: Tables, prev: seq<byte>, c: seq<byte>)
    requires |prev| == 8 && |c| >= 8
    ensures var s := Unchain(t, prev, c);
            Chain(t, BlockEnc(t, Xor(s[..8], prev)), s[8..]) == c
    decreases |c|
  {
    hide BlockEnc, BlockDec;
    var s := Unchain(t, prev, c);
    var d := BlockDec(t, c[..8]);
    BlockInverse(t, c[..8]);
    if |c| == 8 {
      XorTwice(d, prev);
      assert s[..8] == s && c[..8] == c;
    } else if |c| < 16 {
      var n := |c| - 8;
      var e := c[8..] + d[n..];
      var f := BlockDec(t, e);
      BlockInverse(t, e);
      XorTwice(f, prev);
      assert s[..8] == Xor(f, prev) && s[8..] == Xor(d[..n], c[8..]);
      RestealTail(d, c[8..]);
      assert e[..n] == c[8..];
      assert c == c[..8] + c[8..];
    } else {
      XorTwice(d, prev);
      assert s[..8] == Xor(d, prev) && s[8..] == Unchain(t, c[..8], c[8..]);
      ChainUnchain(t, c[..8], c[8..]);
      assert c == c[..8] + c[8..];
    }
  }

  /** The CBC equations, away from the tail: every block is the encryption of its plaintext XOR the block before it. */
  lemma {:induction false} ChainBlocks(t: Tables, e: seq<byte>, rest: seq<byte>, i: nat)
    requires |e| == 8 && 8 * i + 8 <= |rest| && (|rest| % 8 == 0 || 8 * i + 16 <= |rest|)
    ensures var c := Chain(t, e, rest);
            c[8 * i + 8..8 * i + 16] == BlockEnc(t, Xor(rest[8 * i..8 * i + 8], c[8 * i..8 * i + 8]))
    decreases i
  {
    hide BlockEnc, Xor;
    var c := Chain(t, e, rest);
    var e' := BlockEnc(t, Xor(rest[..8], e));
    var c' := Chain(t, e', rest[8..]);
    assert c == e + c';
    if i == 0 {
      assert c[0..8] == e && rest[0..8] == rest[..8];
      assert c[8..16] == c'[..8];
      ChainHead(t, e', rest[8..]);
    } else {
      ChainBlocks(t, e', rest[8..], i - 1);
      var j := 8 * i;
      assert c[j + 8..j + 16] == c'[j..j + 8] && c[j..j + 8] == c'[j - 8..j];
      assert rest[8..][j - 8..j] == rest[j..j + 8];
    }
  }

  lemma ChainHead(t: Tables, e: seq<byte>, rest: seq<byte>)
    requires |e| == 8 && (|rest| == 0 || |rest| >= 8)
    ensures Chain(t, e, rest)[..8] == e
  {
  }

  /** The stolen tail: behind plain CBC of the full blocks, the last full position holds the encryption of the zero-padded tail
      XOR the block that would have stood there, and the tail position the head of that block. */
  lemma {:induction false} ChainTail(t: Tables, e: seq<byte>, front: seq<byte>, tail: seq<byte>)
    requires |e| == 8 && |front| % 8 == 0 && 0 < |tail| < 8
    ensures var d, n := Chain(t, e, front), |front|;
            Chain(t, e, front + tail) == d[..n] + (BlockEnc(t, Xor(Pad(tail), d[n..])) + d[n..][..|tail|])
    decreases |front|
  {
    hide BlockEnc, Xor, Pad;
    var d, n := Chain(t, e, front), |front|;
    if n == 0 {
      assert front + tail == tail && d[0..] == d == e;
    } else {
      var e' := BlockEnc(t, Xor(front[..8], e));
      var d' := Chain(t, e', front[8..]);
      ChainTail(t, e', front[8..], tail);
      assert (front + tail)[8..] == front[8..] + tail && (front + tail)[..8] == front[..8];
      assert d == e + d';
      DropHead(e, d', n);
    }
  }

  lemma DropHead(e: seq<byte>, d: seq<byte>, n: nat)
    requires |e| == 8 && 8 <= n <= |d| + 8
    ensures (e + d)[..n] == e + d[..n - 8] && (e + d)[n..] == d[n - 8..]
  {
  }

  /** The CBC equations of the whole buffer: below one block nothing happens, and every block ahead of a short tail is the encryption
      of its plaintext XOR the block before it, the first XOR the IV. */
  lemma EncryptBlocks(t: Tables, iv: seq<byte>, s: seq<byte>, i: nat)
    requires |iv| == 8 && (8 * i + 8 <= |s| && (|s| % 8 == 0 || 8 * i + 16 <= |s|))
    ensures var c := Encrypt(t, iv, s);
            c[8 * i..8 * i + 8] == BlockEnc(t, Xor(s[8 * i..8 * i + 8], if i == 0 then iv else c[8 * i - 8..8 * i]))
  {
    hide BlockEnc, Xor;
    var e, rest := BlockEnc(t, Xor(s[..8], iv)), s[8..];
    assert s[0..8] == s[..8];
    if i == 0 {
      ChainHead(t, e, rest);
    } else {
      ChainBlocks(t, e, rest, i - 1);
      assert rest[8 * i - 8..8 * i] == s[8 * i..8 * i + 8];
    }
  }

  lemma ShortUntouched(t: Tables, iv: seq<byte>, s: seq<byte>)
    requires |iv| == 8 && |s| < 8
    ensures Encrypt(t, iv, s) == Decrypt(t, iv, s) == s
  {
  }

  /** The stolen tail of the whole buffer, down to one full block and a byte. */
  lemma EncryptTail(t: Tables, iv: seq<byte>, front: seq<byte>, tail: seq<byte>)
    requires |iv| == 8 && |front| % 8 == 0 && |front| > 0 && 0 < |tail| < 8
    ensures var d, n := Encrypt(t, iv, front), |front| - 8;
            Encrypt(t, iv, front + tail) == d[..n] + BlockEnc(t, Xor(tail + seq(8 - |tail|, _ => 0), d[n..])) + d[n..][..|tail|]
  {
    hide BlockEnc, Xor;
    var e := BlockEnc(t, Xor(front[..8], iv));
    ChainTail(t, e, front[8..], tail);
    assert (front + tail)[..8] == front[..8] && (front + tail)[8..] == front[8..] + tail;
  }

  /** Decryption undoes encryption for every table, IV and length, 8 < length < 16 included. */
  lemma DecryptEncrypt(t: Tables, iv: seq<byte>, s: seq<byte>)
    requires |iv| == 8
    ensures Decrypt(t, iv, Encrypt(t, iv, s)) == s
  {
    hide BlockEnc, Xor, Chain, Unchain;
    if |s| >= 8 {
      UnchainChain(t, iv, s[..8], s[8..]);
      assert s == s[..8] + s[8..];
    }
  }

  /** Encryption undoes decryption: CBC is a length-preserving permutation of the buffers. */
  lemma EncryptDecrypt(t: Tables, iv: seq<byte>, c: seq<byte>)
    requires |iv| == 8
    ensures Encrypt(t, iv, Decrypt(t, iv, c)) == c
  {
    hide BlockEnc, Xor, Chain, Unchain;
    if |c| >= 8 {
      ChainUnchain(t, iv, c);
    }
  }

  /** bfish_encrypt(xl, xr, bk) on the block at m + i, after XOR with the previous ciphertext block. */
  method EncryptChained(m: array<byte>, i: nat, prev: seq<byte>, bk: BfishKey)
    requires i + 8 <= m.Length && |prev| == 8 && bk.Valid()
    modifies m
    ensures m[..] == Splice(old(m[..]), i, BlockEnc(bk.T(), Xor(old(m[i..i + 8]), prev)))
  {
    hide BlockEnc, Xor;
    ghost var b, s := m[i..i + 8], m[..];
    XorAt(m, i, prev);
    var x := m[i..i + 8];
    assert x == m[..][i..i + 8] == Xor(b, prev);
    var c := EncryptBlock(x, bk);
    Memcpy(m, i, c);
    assert m[..] == Splice(s, i, c);
  }

  /** The encryption loop at position x: the blocks before x are final, except that the last may still be stolen from. */
  ghost predicate Encrypting(t: Tables, iv: seq<byte>, before: seq<byte>, off: nat, end: nat, x: nat, m: seq<byte>)
    requires |iv| == 8
  {
    && |m| == |before| && off + 8 <= x <= end <= |m|
    && m[..off] == before[..off] && m[x..] == before[x..]
    && Encrypt(t, iv, before[off..end]) == m[off..x - 8] + Chain(t, m[x - 8..x], before[x..end])
  }

  lemma EncryptFirst(t: Tables, iv: seq<byte>, before: seq<byte>, off: nat, end: nat, m: seq<byte>)
    requires |iv| == 8 && off + 8 <= end <= |before|
    requires m == Splice(before, off, BlockEnc(t, Xor(before[off..off + 8], iv)))
    ensures Encrypting(t, iv, before, off, end, off + 8, m)
  {
    hide BlockEnc, Xor;
    assert before[off..end][..8] == before[off..off + 8];
    assert before[off..end][8..] == before[off + 8..end];
  }

  lemma EncryptNext(t: Tables, iv: seq<byte>, before: seq<byte>, off: nat, end: nat, x: nat, m: seq<byte>, m': seq<byte>)
    requires |iv| == 8 && Encrypting(t, iv, before, off, end, x, m) && x + 8 <= end
    requires m' == Splice(m, x, BlockEnc(t, Xor(m[x..x + 8], m[x - 8..x])))
    ensures Encrypting(t, iv, before, off, end, x + 8, m')
  {
    hide BlockEnc, Xor;
    var e, rest := m[x - 8..x], before[x..end];
    assert rest[..8] == before[x..][..8] == m[x..][..8] == m[x..x + 8];
    assert rest[8..] == before[x + 8..end];
    assert m'[x + 8..] == before[x + 8..];
    assert m'[..off] == m'[..x][..off] == m[..off];
    assert m'[off..x] == m'[..x][off..] == m[off..x] == m[off..x - 8] + e;
  }

  lemma EncryptLast(t: Tables, iv: seq<byte>, before: seq<byte>, off: nat, end: nat, x: nat, m: seq<byte>, m': seq<byte>)
    requires |iv| == 8 && Encrypting(t, iv, before, off, end, x, m) && end < x + 8
    requires var n := end - x; var e := m[x - 8..x];
             m' == if n == 0 then m else Splice(Splice(m, x - 8, BlockEnc(t, Xor(Pad(m[x..x + n]), e))), x, e[..n])
    ensures m' == Splice(before, off, Encrypt(t, iv, before[off..end]))
  {
    hide BlockEnc, Xor, Splice, Pad, Encrypt;
    var n, e, rest := end - x, m[x - 8..x], before[x..end];
    assert rest == before[x..][..n] == m[x..][..n] == m[x..x + n];
    if n == 0 {
      SpliceTail(before, off, m, x, e, []);
      SpliceSame(m, x - 8, 8);
      SpliceSame(m, x, 0);
      assert m[x..x] == [] && e + [] == e;
    } else {
      SpliceTail(before, off, m, x, BlockEnc(t, Xor(Pad(rest), e)), e[..n]);
    }
  }

  /** The short block at m + x takes the place of the last full block and leaves it the head of the old one. */
  method StealLast(m: array<byte>, x: nat, n: nat, bk: BfishKey)
    requires 8 <= x && 0 < n < 8 && x + n <= m.Length && bk.Valid()
    modifies m
    ensures var e := old(m[x - 8..x]);
            m[..] == Splice(Splice(old(m[..]), x - 8, BlockEnc(bk.T(), Xor(Pad(old(m[x..x + n])), e))), x, e[..n])
  {
    hide BlockEnc, Xor, Splice;
    var last := Pad(m[x..x + n]);
    var prev := m[x - 8..x];
    last := Xor(last, prev);
    last := EncryptBlock(last, bk);
    Memcpy(m, x - 8, last);
    Memcpy(m, x, prev[..n]);
  }

  /** bfish_cbc_encrypt on `slen` bytes at str + off; the IV may live in the same object, as it does in a message. */
  method CbcEncrypt(str: array<byte>, off: nat, slen: nat, iv: array<byte>, ivo: nat, bk: BfishKey)
    requires off + slen <= str.Length && ivo + 8 <= iv.Length && bk.Valid()
    requires str == iv ==> ivo + 8 <= off || off + slen <= ivo
    modifies str
    ensures str[..] == Splice(old(str[..]), off, Encrypt(bk.T(), old(iv[ivo..ivo + 8]), old(str[off..off + slen])))
  {
    hide BlockEnc, Xor, Splice, Chain, Encrypting;
    ghost var t, v, before, end := bk.T(), iv[ivo..ivo + 8], str[..], off + slen;
    if slen < 8 {
      SpliceSame(before, off, slen);
      return;
    }
    EncryptChained(str, off, iv[ivo..ivo + 8], bk);
    EncryptFirst(t, v, before, off, end, str[..]);
    var x, rem := off + 8, slen - 8;
    while rem >= 8
      invariant off + 8 <= x && x + rem == end && bk.T() == t
      invariant Encrypting(t, v, before, off, end, x, str[..])
    {
      ghost var m := str[..];
      EncryptChained(str, x, str[x - 8..x], bk);
      EncryptNext(t, v, before, off, end, x, m, str[..]);
      x, rem := x + 8, rem - 8;
    }
    ghost var m := str[..];
    if rem > 0 {
      StealLast(str, x, rem, bk);
    }
    EncryptLast(t, v, before, off, end, x, m, str[..]);
  }

  /** bfish_decrypt on the block at m + i, then XOR with the ciphertext block kept in the feedback register. */
  method DecryptChained(m: array<byte>, i: nat, feedback: seq<byte>, bk: BfishKey)
    requires i + 8 <= m.Length && |feedback| == 8 && bk.Valid()
    modifies m
    ensures m[..] == Splice(old(m[..]), i, Xor(BlockDec(bk.T(), old(m[i..i + 8])), feedback))
  {
    hide BlockDec, Xor;
    ghost var s := m[..];
    var b := DecryptBlock(m[i..i + 8], bk);
    Memcpy(m, i, b);
    assert m[i..i + 8] == m[..][i..i + 8] == b;
    XorAt(m, i, feedback);
    assert m[..] == Splice(s, i, Xor(b, feedback));
  }

  /** The block that block x - 8 was chained to. */
  function Previous(iv: seq<byte>, c: seq<byte>, off: nat, x: nat): (p: seq<byte>)
    requires |iv| == 8 && off + 8 <= x <= |c| && (x == off + 8 || off + 16 <= x)
    ensures |p| == 8
  {
    if x == off + 8 then iv else c[x - 16..x - 8]
  }

  /** The decryption loop at position x: the blocks before x are plain, but the last may belong to a stolen tail. */
  ghost predicate Decrypting(t: Tables, iv: seq<byte>, before: seq<byte>, off: nat, end: nat, x: nat, m: seq<byte>)
    requires |iv| == 8
  {
    && |m| == |before| && off + 8 <= x <= end <= |m| && (x == off + 8 || off + 16 <= x)
    && m[..off] == before[..off] && m[x..] == before[x..]
    && var p := Previous(iv, before, off, x);
       && m[x - 8..x] == Xor(BlockDec(t, before[x - 8..x]), p)
       && Decrypt(t, iv, before[off..end]) == m[off..x - 8] + Unchain(t, p, before[x - 8..end])
  }

  lemma DecryptFirst(t: Tables, iv: seq<byte>, before: seq<byte>, off: nat, end: nat, m: seq<byte>)
    requires |iv| == 8 && off + 8 <= end <= |before|
    requires m == Splice(before, off, Xor(BlockDec(t, before[off..off + 8]), iv))
    ensures Decrypting(t, iv, before, off, end, off + 8, m)
  {
    hide BlockDec, Xor;
  }

  lemma Untouched(t: Tables, iv: seq<byte>, before: seq<byte>, off: nat, end: nat, x: nat, m: seq<byte>)
    requires |iv| == 8 && Decrypting(t, iv, before, off, end, x, m) && x + 8 <= end
    ensures m[x..x + 8] == before[x..x + 8]
  {
    assert m[x..x + 8] == m[x..][..8] == before[x..][..8];
  }

  lemma DecryptNext(t: Tables, iv: seq<byte>, before: seq<byte>, off: nat, end: nat, x: nat, m: seq<byte>, m': seq<byte>)
    requires |iv| == 8 && Decrypting(t, iv, before, off, end, x, m) && x + 8 <= end
    requires m' == Splice(m, x, Xor(BlockDec(t, m[x..x + 8]), before[x - 8..x]))
    ensures Decrypting(t, iv, before, off, end, x + 8, m')
  {
    hide BlockDec, Xor;
    var p, rest := Previous(iv, before, off, x), before[x - 8..end];
    assert m[x..x + 8] == m[x..][..8] == before[x..][..8] == before[x..x + 8];
    assert rest[..8] == before[x - 8..x] && rest[8..] == before[x..end];
    assert Unchain(t, p, rest) == m[x - 8..x] + Unchain(t, rest[..8], rest[8..]);
    assert m'[x + 8..] == before[x..][8..];
    assert m'[..off] == m'[..x][..off] == m[..off];
    assert m'[off..x] == m'[..x][off..] == m[off..x] == m[off..x - 8] + m[x - 8..x];
  }

  /** What the source writes over the last full block and the tail, from the saved ciphertext blocks. */
  function Unsteal(t: Tables, feedback: seq<byte>, tail: seq<byte>, saved: seq<byte>): (r: (seq<byte>, seq<byte>))
    requires |feedback| == |saved| == 8 && 0 < |tail| < 8
    ensures |r.0| == 8 && |r.1| == |tail|
  {
    var d := Xor(BlockDec(t, feedback), Pad(tail));
    (Xor(BlockDec(t, tail + d[|tail|..]), saved), d[..|tail|])
  }

  lemma DecryptLast(t: Tables, iv: seq<byte>, before: seq<byte>, off: nat, end: nat, x: nat, m: seq<byte>, m': seq<byte>)
    requires |iv| == 8 && Decrypting(t, iv, before, off, end, x, m) && end < x + 8
    requires if end == x then m' == m else
             var (block, tail) := Unsteal(t, before[x - 8..x], m[x..end], Previous(iv, before, off, x));
             m' == Splice(Splice(m, x - 8, block), x, tail)
    ensures m' == Splice(before, off, Decrypt(t, iv, before[off..end]))
  {
    hide BlockDec, Xor, Splice, Decrypt, Previous, Unsteal;
    var p, c, n := Previous(iv, before, off, x), before[x - 8..end], end - x;
    assert c[..8] == before[x - 8..x];
    if n == 0 {
      assert c == c[..8];
      SpliceTail(before, off, m, x, m[x - 8..x], []);
      SpliceSame(m, x - 8, 8);
      SpliceSame(m, x, 0);
      assert m[x..x] == [] && m[x - 8..x] + [] == m[x - 8..x];
    } else {
      assert c[8..] == before[x..][..n] == m[x..][..n] == m[x..end];
      UnstealIsUnchain(t, p, c);
      var (block, tail) := Unsteal(t, c[..8], c[8..], p);
      SpliceTail(before, off, m, x, block, tail);
    }
  }

  lemma UnstealIsUnchain(t: Tables, prev: seq<byte>, c: seq<byte>)
    requires |prev| == 8 && 8 < |c| < 16
    ensures var (block, tail) := Unsteal(t, c[..8], c[8..], prev); Unchain(t, prev, c) == block + tail
  {
    hide BlockDec;
    var u, n := BlockDec(t, c[..8]), |c| - 8;
    var d := Xor(u, Pad(c[8..]));
    assert d[n..] == u[n..] by {
      forall k | n <= k < 8 ensures d[k] == u[k] {
        assert Pad(c[8..])[k] == 0;
      }
    }
    assert d[..n] == Xor(u[..n], c[8..]);
  }

  method UnstealLast(m: array<byte>, x: nat, n: nat, feedback: seq<byte>, saved: seq<byte>, bk: BfishKey)
    requires 8 <= x && 0 < n < 8 && x + n <= m.Length && |feedback| == |saved| == 8 && bk.Valid()
    modifies m
    ensures var (block, tail) := Unsteal(bk.T(), feedback, old(m[x..x + n]), saved);
            m[..] == Splice(Splice(old(m[..]), x - 8, block), x, tail)
  {
    hide BlockDec, Xor, Splice;
    ghost var tail := m[x..x + n];
    var last := Pad(m[x..x + n]);
    var fb := DecryptBlock(feedback, bk);
    fb := Xor(fb, last);
    last := last[..n] + fb[n..];
    assert last == tail + fb[n..];
    last := DecryptBlock(last, bk);
    last := Xor(last, saved);
    Memcpy(m, x - 8, last);
    Memcpy(m, x, fb[..n]);
  }

  /** Keeps the block the last full block was chained to, before decryption in place overwrites it. */
  method SaveSecondLast(m: array<byte>, off: nat, slen: nat, iv: seq<byte>) returns (saved: seq<byte>)
    requires |iv| == 8 && 8 <= slen && off + slen <= m.Length
    ensures |saved| == 8
    ensures slen % 8 != 0 ==> saved == Previous(iv, m[..], off, off + slen - slen % 8)
  {
    var tmp := slen % 8;
    saved := iv;
    if tmp != 0 && slen - tmp >= 16 {
      saved := m[off + slen - tmp - 16..off + slen - tmp - 8];
    }
  }

  lemma DecryptShort(t: Tables, iv: seq<byte>, before: seq<byte>, off: nat, slen: nat)
    requires |iv| == 8 && slen < 8 && off + slen <= |before|
    ensures Splice(before, off, Decrypt(t, iv, before[off..off + slen])) == before
  {
  }

  /** Decrypts all full blocks; returns the position behind them and the last ciphertext block. */
  method DecryptBlocks(str: array<byte>, off: nat, slen: nat, iv: seq<byte>, bk: BfishKey) returns (x: nat, feedback: seq<byte>)
    requires 8 <= slen && off + slen <= str.Length && |iv| == 8 && bk.Valid()
    modifies str
    ensures x == off + slen - slen % 8
    ensures Decrypting(bk.T(), iv, old(str[..]), off, off + slen, x, str[..])
    ensures feedback == old(str[..])[x - 8..x]
  {
    hide BlockDec, Xor, Splice, Decrypting;
    ghost var t, before, end := bk.T(), str[..], off + slen;
    feedback := str[off..off + 8];
    DecryptChained(str, off, iv, bk);
    DecryptFirst(t, iv, before, off, end, str[..]);
    var rem := slen - 8;
    x := off + 8;
    while rem >= 8
      invariant off + 8 <= x && x + rem == end && rem % 8 == slen % 8 && bk.T() == t
      invariant Decrypting(t, iv, before, off, end, x, str[..])
      invariant feedback == before[x - 8..x]
    {
      ghost var m := str[..];
      var next := str[x..x + 8];
      Untouched(t, iv, before, off, end, x, m);
      DecryptChained(str, x, feedback, bk);
      DecryptNext(t, iv, before, off, end, x, m, str[..]);
      feedback := next;
      x, rem := x + 8, rem - 8;
    }
  }

  /** bfish_cbc_decrypt on `slen` bytes at str + off. */
  method CbcDecrypt(str: array<byte>, off: nat, slen: nat, iv: array<byte>, ivo: nat, bk: BfishKey)
    requires off + slen <= str.Length && ivo + 8 <= iv.Length && bk.Valid()
    requires str == iv ==> ivo + 8 <= off || off + slen <= ivo
    modifies str
    ensures str[..] == Splice(old(str[..]), off, Decrypt(bk.T(), old(iv[ivo..ivo + 8]), old(str[off..off + slen])))
  {
    hide BlockDec, Xor, Splice, Unchain, Decrypting, Unsteal, Previous, Decrypt;
    ghost var t, v, before := bk.T(), iv[ivo..ivo + 8], str[..];
    if slen < 8 {
      DecryptShort(t, v, before, off, slen);
      return;
    }
    var saved := SaveSecondLast(str, off, slen, iv[ivo..ivo + 8]);
    var x, feedback := DecryptBlocks(str, off, slen, iv[ivo..ivo + 8], bk);
    ghost var m := str[..];
    var rem := slen % 8;
    if rem > 0 {
      UnstealLast(str, x, rem, feedback, saved, bk);
    }
    DecryptLast(t, v, before, off, off + slen, x, m, str[..]);
  }
}
