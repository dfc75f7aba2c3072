/** The Blowfish key schedule, which encrypts with the tables it is overwriting. */
module KeyInit {
  import opened Bytes
  import opened Feistel
  import opened Blowfish

  /** The 72 bytes of key material the P words take in: the key repeated cyclically. */
  function CyclicExt(key: seq<byte>): (ext: seq<byte>)
    requires |key| > 0
    ensures |ext| == 72
  {
    seq(72, i requires 0 <= i < 72 => key[i % |key|])
  }

  /** Shift the word up by a byte and put b below. */
  function ShiftIn(w: word, b: byte): word {
    (w << 8) | (b as word)
  }

  function Shifted(w: word, ext: seq<byte>, at: nat, n: nat): word
    requires at + n <= |ext|
  {
    if n == 0 then w else ShiftIn(Shifted(w, ext, at, n - 1), ext[at + n - 1])
  }

  function KeyWord(ext: seq<byte>, i: nat): word
    requires 4 * i + 4 <= |ext|
  {
    BigEndian(Quad(ext[4 * i], ext[4 * i + 1], ext[4 * i + 2], ext[4 * i + 3]))
  }

  /** Four shifts push out whatever malloc left in the word. */
  lemma ShiftOut(w: word, q: Quad)
    ensures ShiftIn(ShiftIn(ShiftIn(ShiftIn(w, q.b0), q.b1), q.b2), q.b3) == BigEndian(q)
  {
    ShiftTwo(w, q.b0, q.b1);
    ShiftTwo(ShiftIn(ShiftIn(w, q.b0), q.b1), q.b2, q.b3);
  }

  lemma ShiftTwo(w: word, b0: byte, b1: byte)
    ensures ShiftIn(ShiftIn(w, b0), b1) == (w << 16) | ((b0 as word) << 8) | (b1 as word)
  {
  }

  lemma ShiftedFour(w: word, ext: seq<byte>, i: nat)
    requires 4 * i + 4 <= |ext|
    ensures Shifted(w, ext, 4 * i, 4) == KeyWord(ext, i)
  {
    hide ShiftIn, BigEndian;
    var a := 4 * i;
    ShiftOut(w, Quad(ext[a], ext[a + 1], ext[a + 2], ext[a + 3]));
    assert Shifted(w, ext, a, 0) == w;
    assert Shifted(w, ext, a, 1) == ShiftIn(w, ext[a]);
    assert Shifted(w, ext, a, 2) == ShiftIn(Shifted(w, ext, a, 1), ext[a + 1]);
    assert Shifted(w, ext, a, 3) == ShiftIn(Shifted(w, ext, a, 2), ext[a + 2]);
  }

  /** The tables before the first encryption: the key XORed into the constant P words, the constant S boxes. */
  function Mixed(pi: Tables, ext: seq<byte>): Tables
    requires |ext| == 72
  {
    Tables(seq(18, i requires 0 <= i < 18 => Xw(KeyWord(ext, i), pi.p[i])), pi.s)
  }

  /** Step n of the schedule overwrites words 2n and 2n + 1 of the tables, P words first. */
  function Overwrite(t: Tables, n: nat, h: Halves): Tables
    requires n < 521
  {
    if n < 9 then t.(p := t.p[2 * n := h.left][2 * n + 1 := h.right])
    else
      var i, j := (n - 9) / 128, 2 * ((n - 9) % 128);
      t.(s := t.s[i := t.s[i][j := h.left][j + 1 := h.right]])
  }

  /** Tables and chained halves after n steps, each encrypting the last result under the tables so far. */
  function After(t: Tables, n: nat): (Tables, Halves)
    requires n <= 521
  {
    if n == 0 then (t, Halves(0, 0))
    else
      var (u, g) := After(t, n - 1);
      var h := EncryptSwap(u, g, false);
      (Overwrite(u, n - 1, h), h)
  }

  /** The tables bfish_keyinit delivers. */
  function Schedule(pi: Tables, ext: seq<byte>): Tables
    requires |ext| == 72
  {
    After(Mixed(pi, ext), 521).0
  }

  /** Words 2n and 2n + 1 of the tables. */
  function PairAt(t: Tables, n: nat): Halves
    requires n < 521
  {
    if n < 9 then Halves(t.p[2 * n], t.p[2 * n + 1])
    else Halves(t.s[(n - 9) / 128][2 * ((n - 9) % 128)], t.s[(n - 9) / 128][2 * ((n - 9) % 128) + 1])
  }

  lemma OverwriteAt(t: Tables, m: nat, h: Halves, n: nat)
    requires m < 521 && n < 521
    ensures PairAt(Overwrite(t, m, h), n) == if n == m then h else PairAt(t, n)
  {
    if n >= 9 && m >= 9 {
      assert n - 9 == 128 * ((n - 9) / 128) + (n - 9) % 128 && m - 9 == 128 * ((m - 9) / 128) + (m - 9) % 128;
    }
  }

  /** No key or constant word survives: each pair of table words is the output of its own step, which chains from the step before. */
  lemma {:induction false} EveryWordOverwritten(t: Tables, m: nat, n: nat)
    requires n < m <= 521
    ensures PairAt(After(t, m).0, n) == After(t, n + 1).1 == EncryptSwap(After(t, n).0, After(t, n).1, false)
  {
    hide EncryptSwap, Overwrite, PairAt;
    var (u, g) := After(t, m - 1);
    OverwriteAt(u, m - 1, EncryptSwap(u, g, false), n);
    if n < m - 1 {
      EveryWordOverwritten(t, m - 1, n);
    }
  }

  /** Steps to come leave their words as they are, */
  lemma {:induction false} NotYetOverwritten(t: Tables, m: nat, n: nat)
    requires m <= n < 521
    ensures PairAt(After(t, m).0, n) == PairAt(t, n)
  {
    hide EncryptSwap, Overwrite, PairAt;
    if m > 0 {
      var (u, g) := After(t, m - 1);
      OverwriteAt(u, m - 1, EncryptSwap(u, g, false), n);
      NotYetOverwritten(t, m - 1, n);
    }
  }

  /** and pair n of the tables is words 2n and 2n + 1 of the key object. */
  lemma PairWords(t: Tables, n: nat)
    requires n < 521
    ensures PairAt(t, n) == Halves(Words(t)[2 * n], Words(t)[2 * n + 1])
  {
    if n >= 9 {
      var i, j := (n - 9) / 128, (n - 9) % 128;
      assert n - 9 == 128 * i + j;
      assert 2 * n == 18 + 256 * i + 2 * j;
      BoxWords(t, i, 2 * j);
      BoxWords(t, i, 2 * j + 1);
    }
  }

  lemma BoxWords(t: Tables, i: nat, j: nat)
    requires i < 4 && j < 256
    ensures Words(t)[18 + 256 * i + j] == t.s[i][j]
  {
  }

  /** The tables when step n begins: final words below 2n, mixed words from there on. */
  lemma TablesBefore(t: Tables, n: nat, k: nat)
    requires n <= 521 && k < 521
    ensures PairAt(After(t, n).0, k) == if k < n then PairAt(After(t, 521).0, k) else PairAt(t, k)
  {
    if k < n {
      EveryWordOverwritten(t, n, k);
      EveryWordOverwritten(t, 521, k);
    } else {
      NotYetOverwritten(t, n, k);
    }
  }

  function PairOf(m: seq<word>, n: nat): Halves
    requires 2 * n + 1 < |m|
  {
    Halves(m[2 * n], m[2 * n + 1])
  }

  /** The schedule in full, on the words of the key object: there is a table state u before every step that holds the final words
      below 2n and the mixed ones from there on; the first two words are the encryption of the zero block under the mixed tables,
      every further pair the encryption of the pair before it. */
  lemma ScheduleMeaning(pi: Tables, ext: seq<byte>, n: nat) returns (u: Tables)
    requires |ext| == 72 && n < 521
    ensures var m, w := Words(Mixed(pi, ext)), Words(Schedule(pi, ext));
            && (forall k :: 0 <= k < 1042 ==> Words(u)[k] == if k < 2 * n then w[k] else m[k])
            && PairOf(w, n) == Encipher(RoundFunction(u.s), u.p, if n == 0 then Halves(0, 0) else PairOf(w, n - 1))
  {
    hide Overwrite, PairAt, Words, Mixed, EncryptSwap;
    var t := Mixed(pi, ext);
    u := After(t, n).0;
    forall k | 0 <= k < 1042 ensures Words(u)[k] == if k < 2 * n then Words(Schedule(pi, ext))[k] else Words(t)[k] {
      TablesBefore(t, n, k / 2);
      PairWords(u, k / 2);
      PairWords(t, k / 2);
      PairWords(Schedule(pi, ext), k / 2);
      assert k == 2 * (k / 2) || k == 2 * (k / 2) + 1;
    }
    EveryWordOverwritten(t, 521, n);
    PairWords(Schedule(pi, ext), n);
    Unswapped(u, After(t, n).1);
    if n > 0 {
      EveryWordOverwritten(t, 521, n - 1);
      PairWords(Schedule(pi, ext), n - 1);
    }
  }

  lemma Unswapped(t: Tables, h: Halves)
    ensures EncryptSwap(t, h, false) == Encipher(RoundFunction(t.s), t.p, h)
  {
  }

  /** The P words before the first step: the constants XORed with the key bytes taken four at a time, in order, first byte highest,
      starting over when the key ends. The S boxes are the constants. */
  lemma MixedMeaning(pi: Tables, key: seq<byte>, i: nat)
    requires |key| > 0 && i < 18
    ensures var n, t := |key|, Mixed(pi, CyclicExt(key));
            && t.p[i] == BigEndian(Quad(key[4 * i % n], key[(4 * i + 1) % n], key[(4 * i + 2) % n], key[(4 * i + 3) % n])) ^ pi.p[i]
            && t.s == pi.s
  {
    hide BigEndian, CyclicExt;
    KeyByte(key, 4 * i);
    KeyByte(key, 4 * i + 1);
    KeyByte(key, 4 * i + 2);
    KeyByte(key, 4 * i + 3);
  }

  lemma KeyByte(key: seq<byte>, i: nat)
    requires |key| > 0 && i < 72
    ensures CyclicExt(key)[i] == key[i % |key|]
  {
  }

  /** A key and the same key written several times over give the same tables. */
  lemma RepeatedKey(key: seq<byte>, twice: seq<byte>, m: nat)
    requires |key| > 0 && m > 0 && |twice| == m * |key|
    requires forall i :: 0 <= i < |twice| ==> twice[i] == key[i % |key|]
    ensures CyclicExt(twice) == CyclicExt(key)
  {
    forall i | 0 <= i < 72 ensures CyclicExt(twice)[i] == CyclicExt(key)[i] {
      ModMod(i, m, |key|);
    }
  }

  lemma ModMod(i: nat, m: nat, n: nat)
    requires m > 0 && n > 0
    ensures m * n > 0 && (i % (m * n)) % n == i % n
  {
    ProductPositive(m, n);
    var q, r := i / (m * n), i % (m * n);
    var q', r' := r / n, r % n;
    Regroup(m, n, q, q');
    DivModUnique(i, n, m * q + q', r');
  }

  lemma ProductPositive(m: nat, n: nat)
    requires m > 0 && n > 0
    ensures m * n > 0
  {
  }

  lemma Regroup(m: nat, n: nat, q: nat, q': nat)
    ensures (m * n) * q + n * q' == n * (m * q + q')
  {
  }

  lemma DivModUnique(i: nat, n: nat, q: nat, r: nat)
    requires i == n * q + r && r < n
    ensures i % n == r
  {
    var d := q - i / n;
    assert n * d == n * q - n * (i / n) == i % n - r;
    SmallMultiple(n, d);
  }

  lemma SmallMultiple(n: int, d: int)
    requires -n < n * d < n
    ensures d == 0
  {
  }

  lemma DoubledKey(pi: Tables, key: seq<byte>)
    requires |key| > 0
    ensures Schedule(pi, CyclicExt(key + key)) == Schedule(pi, CyclicExt(key))
  {
    RepeatedKey(key, key + key, 2);
  }

  /** Mixing loses nothing: the P words before the first encryption agree exactly when the extensions do. */
  lemma MixedInjective(pi: Tables, a: seq<byte>, b: seq<byte>)
    requires |a| == |b| == 72
    ensures Mixed(pi, a) == Mixed(pi, b) <==> a == b
  {
    hide Xw, KeyWord;
    if Mixed(pi, a) == Mixed(pi, b) {
      forall i | 0 <= i < 72 ensures a[i] == b[i] {
        var q := i / 4;
        assert Mixed(pi, a).p[q] == Mixed(pi, b).p[q];
        XwCancels(KeyWord(a, q), pi.p[q]);
        XwCancels(KeyWord(b, q), pi.p[q]);
        KeyWordInjective(a, b, q);
      }
    }
  }

  lemma KeyWordInjective(a: seq<byte>, b: seq<byte>, i: nat)
    requires |a| == |b| && 4 * i + 4 <= |a| && KeyWord(a, i) == KeyWord(b, i)
    ensures forall j :: 4 * i <= j < 4 * i + 4 ==> a[j] == b[j]
  {
    var k := 4 * i;
    BigEndianInjective(Quad(a[k], a[k + 1], a[k + 2], a[k + 3]), Quad(b[k], b[k + 1], b[k + 2], b[k + 3]));
  }

  lemma BigEndianInjective(p: Quad, q: Quad)
    requires BigEndian(p) == BigEndian(q)
    ensures p == q
  {
  }

  /** One turn of the wrap-around index into the key. */
  lemma NextIndex(i: nat, n: nat)
    requires n > 0
    ensures (i + 1) % n == if i % n + 1 >= n then 0 else i % n + 1
  {
    var q, r := i / n, i % n;
    assert i == n * q + r;
    if r + 1 >= n {
      assert i + 1 == n * (q + 1);
      DivModUnique(i + 1, n, q + 1, 0);
    } else {
      DivModUnique(i + 1, n, q, r + 1);
    }
  }

  method SetP(bk: BfishKey, i: nat, w: word)
    requires bk.Valid() && i < 18
    modifies bk.pbox
    ensures bk.T() == old(bk.T()).(p := old(bk.T()).p[i := w])
  {
    ghost var t := bk.T();
    bk.pbox[i] := w;
    assert bk.T().s == t.s;
  }

  method SetS(bk: BfishKey, i: nat, j: nat, w: word)
    requires bk.Valid() && i < 4 && j < 256
    modifies bk.sbox
    ensures var t := old(bk.T()); bk.T() == t.(s := t.s[i := t.s[i][j := w]])
  {
    ghost var t := bk.T();
    bk.sbox[i, j] := w;
    ghost var u := bk.T();
    forall k | 0 <= k < 4 ensures u.s[k] == if k == i then t.s[i][j := w] else t.s[k] {
      assert u.s[k] == bk.Row(k);
    }
    assert u.s == t.s[i := t.s[i][j := w]];
  }

  /** The inner key loop: four bytes are shifted into P[i], which then takes the constant word. */
  method MixWord(bk: BfishKey, i: nat, key: array<byte>, klen: nat, k0: nat, ghost ext: seq<byte>, pi: word) returns (k: nat)
    requires bk.Valid() && i < 18 && klen <= key.Length && 1 <= key.Length
    requires var n := if klen == 0 then 1 else klen; ext == CyclicExt(key[..n]) && k0 == (4 * i) % n
    modifies bk.pbox
    ensures var n := if klen == 0 then 1 else klen; k == (4 * i + 4) % n
    ensures bk.T() == old(bk.T()).(p := old(bk.T()).p[i := Xw(KeyWord(ext, i), pi)])
  {
    hide ShiftIn, KeyWord, Xw, CyclicExt;
    ghost var t, w := bk.T(), bk.pbox[i];
    ghost var n := if klen == 0 then 1 else klen;
    var j := 0;
    k := k0;
    while j < 4
      invariant 0 <= j <= 4 && k == (4 * i + j) % n
      invariant bk.T() == t.(p := t.p[i := Shifted(w, ext, 4 * i, j)])
    {
      KeyByte(key[..n], 4 * i + j);
      SetP(bk, i, ShiftIn(bk.pbox[i], key[k]));
      NextIndex(4 * i + j, n);
      k := k + 1;
      if k >= klen {
        k := 0;
      }
      j := j + 1;
    }
    ShiftedFour(w, ext, i);
    SetP(bk, i, Xw(bk.pbox[i], pi));
  }

  /** The table copy and the two nested key-mixing loops. */
  method MixKey(bk: BfishKey, key: array<byte>, klen: nat, pi: Tables)
    requires bk.Valid() && klen <= key.Length && 1 <= key.Length
    modifies bk.pbox, bk.sbox
    ensures bk.T() == Mixed(pi, CyclicExt(key[..if klen == 0 then 1 else klen]))
  {
    hide KeyWord, Xw, CyclicExt;
    forall i, j | 0 <= i < 4 && 0 <= j < 256 {
      bk.sbox[i, j] := pi.s[i][j];
    }
    ghost var s := bk.T().s;
    assert forall i :: 0 <= i < 4 ==> s[i] == bk.Row(i) == pi.s[i];
    assert s == pi.s;
    ghost var ext := CyclicExt(key[..if klen == 0 then 1 else klen]);
    var k, i := 0, 0;
    while i < 18
      invariant 0 <= i <= 18 && k == (4 * i) % (if klen == 0 then 1 else klen) && bk.T().s == s
      invariant forall q :: 0 <= q < i ==> bk.T().p[q] == Xw(KeyWord(ext, q), pi.p[q])
    {
      k := MixWord(bk, i, key, klen, k, ext, pi.p[i]);
      i := i + 1;
    }
    assert bk.T().p == Mixed(pi, ext).p;
  }

  /** One turn of the P loop. */
  method StepP(bk: BfishKey, i: nat, left: Cell, right: Cell)
    requires bk.Valid() && left != right && i < 18 && i % 2 == 0
    modifies bk.pbox, left, right
    ensures Halves(left.v, right.v) == old(EncryptSwap(bk.T(), Halves(left.v, right.v), false))
    ensures bk.T() == Overwrite(old(bk.T()), i / 2, Halves(left.v, right.v))
  {
    hide EncryptSwap;
    BfishEncryptSwap(left, right, bk, false);
    SetP(bk, i, left.v);
    SetP(bk, i + 1, right.v);
  }

  /** One turn of the inner S loop. */
  method StepS(bk: BfishKey, i: nat, j: nat, left: Cell, right: Cell)
    requires bk.Valid() && left != right && i < 4 && j < 256 && j % 2 == 0
    modifies bk.sbox, left, right
    ensures Halves(left.v, right.v) == old(EncryptSwap(bk.T(), Halves(left.v, right.v), false))
    ensures bk.T() == Overwrite(old(bk.T()), 9 + 128 * i + j / 2, Halves(left.v, right.v))
  {
    hide EncryptSwap;
    ghost var t := bk.T();
    BfishEncryptSwap(left, right, bk, false);
    SetS(bk, i, j, left.v);
    SetS(bk, i, j + 1, right.v);
    assert t.s[i := t.s[i][j := left.v]][i := t.s[i][j := left.v][j + 1 := right.v]] == t.s[i := t.s[i][j := left.v][j + 1 := right.v]];
  }

  /** bfish_keyinit; `pi` stands for the constant tables, the new object starts with arbitrary contents. */
  method BfishKeyinit(key: array<byte>, klen: nat, pi: Tables) returns (bk: BfishKey?)
    requires klen <= 56 ==> klen <= key.Length && 1 <= key.Length
    ensures bk == null <==> klen > 56
    ensures bk != null ==> bk.Valid() && fresh(bk) && fresh(bk.pbox) && fresh(bk.sbox)
    ensures bk != null ==> bk.T() == Schedule(pi, CyclicExt(key[..if klen == 0 then 1 else klen]))
  {
    hide EncryptSwap, Overwrite, Mixed, CyclicExt;
    if klen > 56 {
      return null;
    }
    var b := new BfishKey();
    MixKey(b, key, klen, pi);
    ghost var t := b.T();
    var left := new Cell(0);
    var right := new Cell(0);
    var i := 0;
    while i < 18
      invariant 0 <= i <= 18 && i % 2 == 0
      invariant (b.T(), Halves(left.v, right.v)) == After(t, i / 2)
    {
      StepP(b, i, left, right);
      i := i + 2;
    }
    i := 0;
    while i < 4
      invariant 0 <= i <= 4
      invariant (b.T(), Halves(left.v, right.v)) == After(t, 9 + 128 * i)
    {
      var j := 0;
      while j < 256
        invariant 0 <= j <= 256 && j % 2 == 0
        invariant (b.T(), Halves(left.v, right.v)) == After(t, 9 + 128 * i + j / 2)
      {
        StepS(b, i, j, left, right);
        j := j + 2;
      }
      i := i + 1;
    }
    return b;
  }
}
