/** The unrolled SPARC form of the block functions: registers trade roles from round to round and are never swapped. */
module Sparc {
  import opened Bytes
  import opened Feistel
  import opened Blowfish

  /** Load the word at a byte offset from the base register. */
  function Ld(m: seq<word>, off: nat): word
    requires off < 4 * |m|
  {
    m[off / 4]
  }

  /** The S boxes start 72 bytes into the key and lie 256 words apart. */
  lemma LdTable(t: Tables, k: nat, j: nat)
    requires k < 4 && j < 256
    ensures Ld(Words(t), 72 + 4 * j + 1024 * k) == t.s[k][j]
  {
    assert (72 + 4 * j + 1024 * k) / 4 == 18 + j + 256 * k;
  }

  lemma LdP(t: Tables, i: nat)
    requires i < 18
    ensures Ld(Words(t), 4 * i) == t.p[i]
  {
  }

  /** One unrolled round: x takes the P word at byte offset off, y takes F of the new x. */
  method Round(ghost t: Tables, m: seq<word>, off: nat, x: word, y: word) returns (x': word, y': word)
    requires m == Words(t) && off < 72 && off % 4 == 0
    ensures x' == Xw(x, t.p[off / 4]) && y' == Xw(y, RoundFunction(t.s)(x'))
  {
    hide Index, Xw, Aw, Ld, Words;
    LdP(t, off / 4);
    x' := Xw(x, Ld(m, off));
    LdTable(t, 0, Index(x', 3));
    LdTable(t, 1, Index(x', 2));
    LdTable(t, 2, Index(x', 1));
    LdTable(t, 3, Index(x', 0));
    var l4 := Ld(m, 72 + 4 * Index(x', 3));
    var l7 := Ld(m, 72 + 4 * Index(x', 2) + 256 * 4);
    l4 := Aw(l4, l7);
    l7 := Ld(m, 72 + 4 * Index(x', 1) + 512 * 4);
    l4 := Xw(l4, l7);
    l7 := Ld(m, 72 + 4 * Index(x', 0) + 768 * 4);
    l4 := Aw(l4, l7);
    y' := Xw(y, l4);
  }

  /** Two unrolled rounds are two rounds of the C loop, swaps included. */
  lemma TwoUp(f: word -> word, p: PBox, h: Halves, n: nat, a: word, b: word)
    requires n + 2 <= 16 && Up(f, p, h, n) == Halves(a, b)
    ensures var a' := Xw(a, p[n]); var b' := Xw(b, f(a')); var b2 := Xw(b', p[n + 1]); var a2 := Xw(a', f(b2));
            Up(f, p, h, n + 2) == Halves(a2, b2)
  {
    hide Xw;
    assert Up(f, p, h, n + 1).right == Xw(a, p[n]);
  }

  lemma TwoDown(f: word -> word, p: PBox, h: Halves, n: nat, a: word, b: word)
    requires n + 2 <= 16 && Down(f, p, h, n) == Halves(a, b)
    ensures var a' := Xw(a, p[17 - n]); var b' := Xw(b, f(a')); var b2 := Xw(b', p[16 - n]); var a2 := Xw(a', f(b2));
            Down(f, p, h, n + 2) == Halves(a2, b2)
  {
    hide Xw;
    assert Down(f, p, h, n + 1).right == Xw(a, p[17 - n]);
  }

  /** Rounds n + 1 and n + 2 of the unrolled encryption. */
  method PairUp(ghost t: Tables, ghost h: Halves, n: nat, m: seq<word>, a: word, b: word) returns (l0: word, l1: word)
    requires m == Words(t) && n + 2 <= 16 && Up(RoundFunction(t.s), t.p, h, n) == Halves(a, b)
    ensures Up(RoundFunction(t.s), t.p, h, n + 2) == Halves(l0, l1)
  {
    hide Xw, F, RoundFunction, Words, Up, Ld;
    TwoUp(RoundFunction(t.s), t.p, h, n, a, b);
    l0, l1 := Round(t, m, 4 * n, a, b);
    l1, l0 := Round(t, m, 4 * n + 4, l1, l0);
  }

  /** Rounds n + 1 and n + 2 of the unrolled decryption. */
  method PairDown(ghost t: Tables, ghost h: Halves, n: nat, m: seq<word>, a: word, b: word) returns (l0: word, l1: word)
    requires m == Words(t) && n + 2 <= 16 && Down(RoundFunction(t.s), t.p, h, n) == Halves(a, b)
    ensures Down(RoundFunction(t.s), t.p, h, n + 2) == Halves(l0, l1)
  {
    hide Xw, F, RoundFunction, Words, Down, Ld;
    TwoDown(RoundFunction(t.s), t.p, h, n, a, b);
    l0, l1 := Round(t, m, 68 - 4 * n, a, b);
    l1, l0 := Round(t, m, 64 - 4 * n, l1, l0);
  }

  /** bfish_encrypt_swap in SPARC assembly; on this big-endian host the swap flag has no effect. */
  method SparcEncrypt(left: Cell, right: Cell, m: seq<word>, ghost t: Tables)
    requires left != right && m == Words(t)
    modifies left, right
    ensures Halves(left.v, right.v) == Encipher(RoundFunction(t.s), t.p, old(Halves(left.v, right.v)))
  {
    hide Xw, F, RoundFunction, Words, Up, Ld;
    ghost var h := Halves(left.v, right.v);
    var l0, l1 := left.v, right.v;
    UpZero(RoundFunction(t.s), t.p, h);
    l0, l1 := PairUp(t, h, 0, m, l0, l1);
    l0, l1 := PairUp(t, h, 2, m, l0, l1);
    l0, l1 := PairUp(t, h, 4, m, l0, l1);
    l0, l1 := PairUp(t, h, 6, m, l0, l1);
    l0, l1 := PairUp(t, h, 8, m, l0, l1);
    l0, l1 := PairUp(t, h, 10, m, l0, l1);
    l0, l1 := PairUp(t, h, 12, m, l0, l1);
    l0, l1 := PairUp(t, h, 14, m, l0, l1);
    LdP(t, 16);
    LdP(t, 17);
    l0 := Xw(l0, Ld(m, 64));
    l1 := Xw(l1, Ld(m, 68));
    left.v := l1;
    right.v := l0;
  }

  lemma UpZero(f: word -> word, p: PBox, h: Halves)
    ensures Up(f, p, h, 0) == Down(f, p, h, 0) == h
  {
  }

  /** bfish_decrypt in SPARC assembly. */
  method SparcDecrypt(left: Cell, right: Cell, m: seq<word>, ghost t: Tables)
    requires left != right && m == Words(t)
    modifies left, right
    ensures Halves(left.v, right.v) == Decipher(RoundFunction(t.s), t.p, old(Halves(left.v, right.v)))
  {
    hide Xw, F, RoundFunction, Words, Down, Ld;
    ghost var h := Halves(left.v, right.v);
    var l0, l1 := left.v, right.v;
    UpZero(RoundFunction(t.s), t.p, h);
    l0, l1 := PairDown(t, h, 0, m, l0, l1);
    l0, l1 := PairDown(t, h, 2, m, l0, l1);
    l0, l1 := PairDown(t, h, 4, m, l0, l1);
    l0, l1 := PairDown(t, h, 6, m, l0, l1);
    l0, l1 := PairDown(t, h, 8, m, l0, l1);
    l0, l1 := PairDown(t, h, 10, m, l0, l1);
    l0, l1 := PairDown(t, h, 12, m, l0, l1);
    l0, l1 := PairDown(t, h, 14, m, l0, l1);
    LdP(t, 1);
    LdP(t, 0);
    l0 := Xw(l0, Ld(m, 4));
    l1 := Xw(l1, Ld(m, 0));
    left.v := l1;
    right.v := l0;
  }
}
