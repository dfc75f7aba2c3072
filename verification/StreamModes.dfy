/** OFB and CFB as libbfish runs them: the register is encrypted in place before every subblock. */
module StreamModes {
  import opened Bytes
  import opened Blowfish
  import opened Memory

  /** Subblocks of 8, 16 or 32 bits that divide the message; anything else is refused and changes nothing. */
  predicate Accepts(bsize: nat, slen: nat) {
    bsize == 8 || (bsize == 16 && slen % 2 == 0) || (bsize == 32 && slen % 4 == 0)
  }

  /** A whole number of n-byte subblocks, for the widths the source allows. */
  predicate Aligned(a: nat, n: nat) {
    n == 1 || (n == 2 && a % 2 == 0) || (n == 4 && a % 4 == 0)
  }

  lemma NextAligned(a: nat, n: nat)
    requires Aligned(a, n)
    ensures 1 <= n <= 4
    ensures a > 0 ==> a >= n && Aligned(a - n, n)
  {
  }

  /** Output and final register of OFB with n-byte subblocks. */
  function Ofb(t: Tables, reg: seq<byte>, s: seq<byte>, n: nat): (r: (seq<byte>, seq<byte>))
    requires |reg| == 8 && Aligned(|s|, n)
    ensures |r.0| == |s| && |r.1| == 8
    decreases |s|
  {
    if |s| == 0 then ([], reg)
    else
      NextAligned(|s|, n);
      var v := BlockEnc(t, reg);
      var (out, last) := Ofb(t, v, s[n..], n);
      (Xor(s[..n], v[..n]) + out, last)
  }

  /** The register after a subblock: the encrypted register moved down one byte, its last n bytes the ciphertext. */
  function CfbShift(v: seq<byte>, cipher: seq<byte>): (reg: seq<byte>)
    requires |v| == 8 && 1 <= |cipher| <= 8
    ensures |reg| == 8
  {
    v[1..9 - |cipher|] + cipher
  }

  function Cfb(t: Tables, reg: seq<byte>, s: seq<byte>, n: nat, enc: bool): (r: (seq<byte>, seq<byte>))
    requires |reg| == 8 && Aligned(|s|, n)
    ensures |r.0| == |s| && |r.1| == 8
    decreases |s|
  {
    if |s| == 0 then ([], reg)
    else
      NextAligned(|s|, n);
      var v := BlockEnc(t, reg);
      var o := Xor(s[..n], v[..n]);
      var (out, last) := Cfb(t, CfbShift(v, if enc then o else s[..n]), s[n..], n, enc);
      (o + out, last)
  }

  /** 8, 16 and 32 bits are taken, provided that whole subblocks make up the message. */
  lemma AcceptsMeaning(bsize: nat, slen: nat)
    ensures Accepts(bsize, slen) <==> bsize in {8, 16, 32} && slen % (bsize / 8) == 0
  {
  }

  /** The register encrypted over and over. */
  function Encrypted(t: Tables, reg: seq<byte>, k: nat): (r: seq<byte>)
    requires |reg| == 8
    ensures |r| == 8
  {
    if k == 0 then reg else BlockEnc(t, Encrypted(t, reg, k - 1))
  }

  lemma {:induction false} EncryptedFirst(t: Tables, reg: seq<byte>, k: nat)
    requires |reg| == 8
    ensures Encrypted(t, BlockEnc(t, reg), k) == Encrypted(t, reg, k + 1)
  {
    hide BlockEnc;
    if k > 0 {
      EncryptedFirst(t, reg, k - 1);
    }
  }

  /** In the end the OFB register is encrypted once per subblock, */
  lemma {:induction false} OfbRegister(t: Tables, reg: seq<byte>, s: seq<byte>, n: nat)
    requires |reg| == 8 && Aligned(|s|, n)
    ensures n > 0 && Ofb(t, reg, s, n).1 == Encrypted(t, reg, |s| / n)
    decreases |s|
  {
    hide BlockEnc, Xor;
    NextAligned(|s|, n);
    if |s| > 0 {
      OfbRegister(t, BlockEnc(t, reg), s[n..], n);
      LessOne(|s|, n);
      EncryptedFirst(t, reg, |s| / n - 1);
    }
  }

  /** and byte i is combined with byte i % n of the register encrypted i / n + 1 times. */
  lemma {:induction false} OfbBytes(t: Tables, reg: seq<byte>, s: seq<byte>, n: nat, i: nat)
    requires |reg| == 8 && Aligned(|s|, n) && i < |s|
    ensures 1 <= n <= 4 && Ofb(t, reg, s, n).0[i] == Xb(s[i], Encrypted(t, reg, i / n + 1)[i % n])
    decreases |s|
  {
    hide BlockEnc, Xb, Aligned;
    NextAligned(|s|, n);
    var v := BlockEnc(t, reg);
    if i >= n {
      OfbBytes(t, v, s[n..], n, i - n);
      LessOne(i, n);
      EncryptedFirst(t, reg, i / n);
    } else {
      assert i / n == 0 && i % n == i;
      assert Encrypted(t, reg, 0) == reg;
    }
  }

  lemma LessOne(a: nat, n: nat)
    requires 1 <= n <= 4 && a >= n
    ensures (a - n) / n == a / n - 1 && (a - n) % n == a % n
  {
    if n == 3 {
      assert (a - 3) / 3 == a / 3 - 1;
    }
  }

  /** Where the bytes of the shifted register come from: the encrypted register one place on, and the ciphertext behind. */
  lemma CfbShiftBytes(v: seq<byte>, cipher: seq<byte>, k: nat)
    requires |v| == 8 && 1 <= |cipher| <= 8 && k < 8
    ensures CfbShift(v, cipher)[k] == if k < 8 - |cipher| then v[k + 1] else cipher[k - (8 - |cipher|)]
  {
  }

  /** CFB from its end: one more subblock is combined with the head of the register left by those before it, encrypted, and the
      register then takes in the ciphertext, which is the output when encrypting and the input when decrypting. */
  lemma {:induction false} CfbLast(t: Tables, reg: seq<byte>, front: seq<byte>, last: seq<byte>, n: nat, enc: bool)
    requires |reg| == 8 && Aligned(|front|, n) && |last| == n && 1 <= n <= 8
    ensures Aligned(|front + last|, n)
    ensures var (out, r) := Cfb(t, reg, front, n, enc);
            var v := BlockEnc(t, r);
            var o := Xor(last, v[..n]);
            Cfb(t, reg, front + last, n, enc) == (out + o, CfbShift(v, if enc then o else last))
    decreases |front|
  {
    hide BlockEnc, Xor, CfbShift;
    NextAligned(|front|, n);
    if |front| == 0 {
      assert front + last == last && last[..n] == last && last[n..] == [];
      var v := BlockEnc(t, reg);
      var o := Xor(last, v[..n]);
      CfbEnd(t, CfbShift(v, if enc then o else last), [], n, enc);
      assert o + [] == o && [] + o == o;
    } else {
      var v := BlockEnc(t, reg);
      var o := Xor(front[..n], v[..n]);
      var next := CfbShift(v, if enc then o else front[..n]);
      assert (front + last)[..n] == front[..n] && (front + last)[n..] == front[n..] + last;
      CfbLast(t, next, front[n..], last, n, enc);
      var (out, r) := Cfb(t, next, front[n..], n, enc);
      assert o + (out + Xor(last, BlockEnc(t, r)[..n])) == (o + out) + Xor(last, BlockEnc(t, r)[..n]);
    }
  }

  lemma OfbEnd(t: Tables, reg: seq<byte>, s: seq<byte>, n: nat)
    requires |reg| == 8 && Aligned(|s|, n) && |s| == 0
    ensures Ofb(t, reg, s, n) == ([], reg)
  {
  }

  lemma CfbEnd(t: Tables, reg: seq<byte>, s: seq<byte>, n: nat, enc: bool)
    requires |reg| == 8 && Aligned(|s|, n) && |s| == 0
    ensures Cfb(t, reg, s, n, enc) == ([], reg)
  {
  }

  /** OFB applied twice from the same IV is the identity, and both passes end in the same register. */
  lemma {:induction false} OfbTwice(t: Tables, reg: seq<byte>, s: seq<byte>, n: nat)
    requires |reg| == 8 && Aligned(|s|, n)
    ensures var (c, last) := Ofb(t, reg, s, n); Ofb(t, reg, c, n) == (s, last)
    decreases |s|
  {
    hide BlockEnc;
    NextAligned(|s|, n);
    if |s| > 0 {
      var v := BlockEnc(t, reg);
      var c := Ofb(t, reg, s, n).0;
      XorTwice(s[..n], v[..n]);
      OfbTwice(t, v, s[n..], n);
      assert c[..n] == Xor(s[..n], v[..n]) && c[n..] == Ofb(t, v, s[n..], n).0;
      assert s == s[..n] + s[n..];
    }
  }

  /** OFB is a key stream: the output is the message XOR what zeros would give, and the final register does not see the message. */
  lemma {:induction false} OfbKeyStream(t: Tables, reg: seq<byte>, s: seq<byte>, n: nat)
    requires |reg| == 8 && Aligned(|s|, n)
    ensures var (stream, last) := Ofb(t, reg, seq(|s|, _ => 0), n); Ofb(t, reg, s, n) == (Xor(s, stream), last)
    decreases |s|
  {
    hide BlockEnc, Xor;
    NextAligned(|s|, n);
    var z: seq<byte> := seq(|s|, _ => 0);
    if |s| > 0 {
      var v := BlockEnc(t, reg);
      OfbKeyStream(t, v, s[n..], n);
      assert z[n..] == seq(|s| - n, _ => 0) && |s[n..]| == |s| - n;
      XorZeros(z[..n], v[..n]);
      XorSplit(s, v[..n], Ofb(t, v, z[n..], n).0);
    } else {
      assert Xor(s, []) == [];
    }
  }

  lemma XorZeros(z: seq<byte>, v: seq<byte>)
    requires |z| == |v| && forall i :: 0 <= i < |z| ==> z[i] == 0
    ensures Xor(z, v) == v
  {
  }

  lemma XorSplit(s: seq<byte>, a: seq<byte>, b: seq<byte>)
    requires |s| == |a| + |b|
    ensures Xor(s, a + b) == Xor(s[..|a|], a) + Xor(s[|a|..], b)
  {
  }

  /** CFB in one direction undoes CFB in the other, and both passes end in the same register. */
  lemma {:induction false} CfbRoundTrip(t: Tables, reg: seq<byte>, s: seq<byte>, n: nat, enc: bool)
    requires |reg| == 8 && Aligned(|s|, n)
    ensures var (c, last) := Cfb(t, reg, s, n, enc); Cfb(t, reg, c, n, !enc) == (s, last)
    decreases |s|
  {
    hide BlockEnc, CfbShift;
    NextAligned(|s|, n);
    if |s| > 0 {
      var v := BlockEnc(t, reg);
      var c := Cfb(t, reg, s, n, enc).0;
      var o := Xor(s[..n], v[..n]);
      XorTwice(s[..n], v[..n]);
      var next := CfbShift(v, if enc then o else s[..n]);
      CfbRoundTrip(t, next, s[n..], n, enc);
      assert c[..n] == o && c[n..] == Cfb(t, next, s[n..], n, enc).0;
      assert s == s[..n] + s[n..];
    }
  }

  /** The first n register bytes are combined into the text at x by exclusive or, byte by byte. */
  method XorPrefix(str: array<byte>, x: nat, iv: array<byte>, n: nat)
    requires str != iv && x + n <= str.Length && n <= iv.Length
    modifies str
    ensures str[..] == Splice(old(str[..]), x, Xor(old(str[x..x + n]), iv[..n]))
  {
    hide Xb;
    ghost var s := str[..];
    var i := 0;
    while i < n
      invariant 0 <= i <= n
      invariant forall k {:trigger str[k]} :: 0 <= k < str.Length && (k < x || x + i <= k) ==> str[k] == s[k]
      invariant forall k {:trigger str[k]} :: x <= k < x + i ==> str[k] == Xb(s[k], iv[k - x])
    {
      str[x + i] := Xb(str[x + i], iv[i]);
      i := i + 1;
    }
    assert str[..] == Splice(s, x, Xor(s[x..x + n], iv[..n]));
  }

  /** The register is encrypted where it lies. */
  method EncryptRegister(iv: array<byte>, bk: BfishKey)
    requires iv.Length == 8 && bk.Valid()
    modifies iv
    ensures iv[..] == BlockEnc(bk.T(), old(iv[..]))
  {
    hide BlockEnc;
    var c := EncryptBlock(iv[..], bk);
    Memcpy(iv, 0, c);
  }

  /** The loop at position x: what is done, and what the rest of the message still yields. */
  ghost predicate Progress(result: (seq<byte>, seq<byte>), rest: (seq<byte>, seq<byte>), before: seq<byte>, x: nat, end: nat, m: seq<byte>) {
    && |m| == |before| && x <= end <= |m| && m[x..] == before[x..]
    && result.0 == m[..x] + rest.0 && result.1 == rest.1
  }

  lemma ProgressStep(result: (seq<byte>, seq<byte>), o: seq<byte>, rest: (seq<byte>, seq<byte>), before: seq<byte>, x: nat, end: nat, m: seq<byte>)
    requires Progress(result, (o + rest.0, rest.1), before, x, end, m) && x + |o| <= end
    ensures Progress(result, rest, before, x + |o|, end, Splice(m, x, o))
  {
    var m' := Splice(m, x, o);
    assert m'[x + |o|..] == m[x..][|o|..];
    assert m'[..x + |o|] + rest.0 == m[..x] + (o + rest.0);
  }

  lemma OfbStep(t: Tables, result: (seq<byte>, seq<byte>), reg: seq<byte>, reg': seq<byte>, before: seq<byte>, x: nat, end: nat,
                m: seq<byte>, m': seq<byte>, n: nat)
    requires |reg| == 8 && x + n <= end <= |before| && |m| == |before| && Aligned(end - x, n)
    requires Progress(result, Ofb(t, reg, before[x..end], n), before, x, end, m)
    requires reg' == BlockEnc(t, reg) && m' == Splice(m, x, Xor(m[x..x + n], reg'[..n]))
    ensures Aligned(end - (x + n), n)
    ensures Progress(result, Ofb(t, reg', before[x + n..end], n), before, x + n, end, m')
  {
    hide BlockEnc, Xor, Splice, Progress;
    NextAligned(end - x, n);
    var s := before[x..end];
    ProgressUntouched(result, Ofb(t, reg, s, n), before, x, end, m, n);
    assert s[n..] == before[x + n..end];
    ProgressStep(result, Xor(s[..n], reg'[..n]), Ofb(t, reg', s[n..], n), before, x, end, m);
  }

  lemma CfbStep(t: Tables, result: (seq<byte>, seq<byte>), reg: seq<byte>, reg': seq<byte>, before: seq<byte>, x: nat, end: nat,
                m: seq<byte>, m': seq<byte>, n: nat, enc: bool)
    requires |reg| == 8 && x + n <= end <= |before| && |m| == |before| && Aligned(end - x, n)
    requires Progress(result, Cfb(t, reg, before[x..end], n, enc), before, x, end, m)
    requires var s, v := m[x..x + n], BlockEnc(t, reg);
             var o := Xor(s, v[..n]);
             m' == Splice(m, x, o) && reg' == CfbShift(v, if enc then o else s)
    ensures Aligned(end - (x + n), n)
    ensures Progress(result, Cfb(t, reg', before[x + n..end], n, enc), before, x + n, end, m')
  {
    hide BlockEnc, Xor, Splice, Progress, CfbShift;
    NextAligned(end - x, n);
    var s := before[x..end];
    ProgressUntouched(result, Cfb(t, reg, s, n, enc), before, x, end, m, n);
    assert s[n..] == before[x + n..end];
    ProgressStep(result, Xor(s[..n], BlockEnc(t, reg)[..n]), Cfb(t, reg', s[n..], n, enc), before, x, end, m);
  }

  /** One turn of the OFB loop on the subblock at str + x. */
  method OfbTurn(str: array<byte>, x: nat, iv: array<byte>, n: nat, bk: BfishKey)
    requires str != iv && 1 <= n <= 8 && x + n <= str.Length && iv.Length == 8 && bk.Valid()
    modifies str, iv
    ensures iv[..] == BlockEnc(bk.T(), old(iv[..]))
    ensures str[..] == Splice(old(str[..]), x, Xor(old(str[..][x..x + n]), iv[..][..n]))
  {
    hide BlockEnc, Xor, Splice;
    EncryptRegister(iv, bk);
    XorPrefix(str, x, iv, n);
    assert old(str[x..x + n]) == old(str[..][x..x + n]) && iv[..n] == iv[..][..n];
  }

  /** The loop of bfish_ofb over aligned text. */
  method OfbLoop(str: array<byte>, slen: nat, iv: array<byte>, n: nat, bk: BfishKey)
    requires str != iv && slen <= str.Length && iv.Length == 8 && bk.Valid() && 1 <= n <= 8 && Aligned(slen, n)
    modifies str, iv
    ensures str[slen..] == old(str[slen..])
    ensures (str[..slen], iv[..]) == Ofb(bk.T(), old(iv[..]), old(str[..slen]), n)
  {
    hide BlockEnc, Xor, Splice, Progress, CfbShift, Aligned, Ofb;
    ghost var t, before := bk.T(), str[..];
    assert before[..slen] == str[..slen] && before[slen..] == str[slen..];
    ghost var result := Ofb(t, iv[..], before[..slen], n);
    var x, rem := 0, slen;
    ProgressStart(result, before, slen);
    while rem >= n
      invariant 0 <= x <= slen && x + rem == slen && Aligned(rem, n) && bk.T() == t
      invariant Progress(result, Ofb(t, iv[..], before[x..slen], n), before, x, slen, str[..])
    {
      ghost var m, reg := str[..], iv[..];
      NextAligned(rem, n);
      OfbTurn(str, x, iv, n, bk);
      OfbStep(t, result, reg, iv[..], before, x, slen, m, str[..], n);
      x, rem := x + n, rem - n;
    }
    NextAligned(rem, n);
    OfbEnd(t, iv[..], before[x..slen], n);
    ProgressDone(result, Ofb(t, iv[..], before[x..slen], n), iv[..], before, slen, str[..]);
  }

  /** bfish_ofb */
  method BfishOfb(str: array<byte>, slen: nat, iv: array<byte>, bsize: nat, bk: BfishKey)
    requires str != iv && slen <= str.Length && iv.Length == 8 && bk.Valid()
    modifies str, iv
    ensures str[slen..] == old(str[slen..])
    ensures (str[..slen], iv[..]) ==
            if Accepts(bsize, slen) then Ofb(bk.T(), old(iv[..]), old(str[..slen]), bsize / 8)
            else (old(str[..slen]), old(iv[..]))
  {
    hide Ofb;
    if bsize != 8 && bsize != 16 && bsize != 32 {
      return;
    }
    var n := bsize / 8;
    if slen % n != 0 {
      return;
    }
    OfbLoop(str, slen, iv, n, bk);
  }

  lemma ProgressStart(result: (seq<byte>, seq<byte>), before: seq<byte>, end: nat)
    requires end <= |before|
    ensures Progress(result, result, before, 0, end, before)
  {
    assert before[..0] + result.0 == result.0;
  }

  lemma ProgressUntouched(result: (seq<byte>, seq<byte>), rest: (seq<byte>, seq<byte>), before: seq<byte>, x: nat, end: nat, m: seq<byte>, n: nat)
    requires Progress(result, rest, before, x, end, m) && x + n <= end
    ensures m[x..x + n] == before[x..end][..n]
  {
    assert m[x..x + n] == m[x..][..n] == before[x..][..n];
  }

  lemma ProgressDone(result: (seq<byte>, seq<byte>), rest: (seq<byte>, seq<byte>), reg: seq<byte>, before: seq<byte>, end: nat, m: seq<byte>)
    requires Progress(result, rest, before, end, end, m) && rest == ([], reg)
    ensures (m[..end], reg) == result && m[end..] == before[end..]
  {
    assert m[..end] + [] == m[..end];
  }

  /** The register moves down by one byte and the ciphertext is copied in behind it. */
  method ShiftRegister(iv: array<byte>, cipher: seq<byte>)
    requires iv.Length == 8 && 1 <= |cipher| <= 8
    modifies iv
    ensures iv[..] == CfbShift(old(iv[..]), cipher)
  {
    ghost var v := iv[..];
    var i := 0;
    while i < 8 - |cipher|
      invariant 0 <= i <= 8 - |cipher|
      invariant forall k {:trigger iv[k]} :: 0 <= k < i ==> iv[k] == v[k + 1]
      invariant forall k {:trigger iv[k]} :: i <= k < 8 ==> iv[k] == v[k]
    {
      iv[i] := iv[i + 1];
      i := i + 1;
    }
    Memcpy(iv, i, cipher);
    assert iv[..] == CfbShift(v, cipher);
  }

  /** One turn of the CFB loop on the subblock at str + x. */
  method CfbTurn(str: array<byte>, x: nat, iv: array<byte>, n: nat, bk: BfishKey, enc: bool)
    requires str != iv && 1 <= n <= 8 && x + n <= str.Length && iv.Length == 8 && bk.Valid()
    modifies str, iv
    ensures var s := old(str[x..x + n]);
            var v := BlockEnc(bk.T(), old(iv[..]));
            var o := Xor(s, v[..n]);
            str[..] == Splice(old(str[..]), x, o) && iv[..] == CfbShift(v, if enc then o else s)
  {
    hide BlockEnc, Xor, Splice, CfbShift;
    EncryptRegister(iv, bk);
    var tmp := str[x..x + n];
    XorPrefix(str, x, iv, n);
    assert str[x..x + n] == str[..][x..x + n];
    ShiftRegister(iv, if enc then str[x..x + n] else tmp);
  }

  /** The loop of bfish_cfb over aligned text. */
  method CfbLoop(str: array<byte>, slen: nat, iv: array<byte>, n: nat, bk: BfishKey, enc: bool)
    requires str != iv && slen <= str.Length && iv.Length == 8 && bk.Valid() && 1 <= n <= 8 && Aligned(slen, n)
    modifies str, iv
    ensures str[slen..] == old(str[slen..])
    ensures (str[..slen], iv[..]) == Cfb(bk.T(), old(iv[..]), old(str[..slen]), n, enc)
  {
    hide BlockEnc, Xor, Splice, Progress, CfbShift, Aligned, Cfb;
    ghost var t, before := bk.T(), str[..];
    assert before[..slen] == str[..slen] && before[slen..] == str[slen..];
    ghost var result := Cfb(t, iv[..], before[..slen], n, enc);
    var x, rem := 0, slen;
    ProgressStart(result, before, slen);
    while rem >= n
      invariant 0 <= x <= slen && x + rem == slen && Aligned(rem, n) && bk.T() == t
      invariant Progress(result, Cfb(t, iv[..], before[x..slen], n, enc), before, x, slen, str[..])
    {
      ghost var m, reg := str[..], iv[..];
      NextAligned(rem, n);
      CfbTurn(str, x, iv, n, bk, enc);
      CfbStep(t, result, reg, iv[..], before, x, slen, m, str[..], n, enc);
      x, rem := x + n, rem - n;
    }
    NextAligned(rem, n);
    CfbEnd(t, iv[..], before[x..slen], n, enc);
    ProgressDone(result, Cfb(t, iv[..], before[x..slen], n, enc), iv[..], before, slen, str[..]);
  }

  /** bfish_cfb */
  method BfishCfb(str: array<byte>, slen: nat, iv: array<byte>, bsize: nat, bk: BfishKey, enc: bool)
    requires str != iv && slen <= str.Length && iv.Length == 8 && bk.Valid()
    modifies str, iv
    ensures str[slen..] == old(str[slen..])
    ensures (str[..slen], iv[..]) ==
            if Accepts(bsize, slen) then Cfb(bk.T(), old(iv[..]), old(str[..slen]), bsize / 8, enc)
            else (old(str[..slen]), old(iv[..]))
  {
    hide Cfb;
    if bsize != 8 && bsize != 16 && bsize != 32 {
      return;
    }
    var n := bsize / 8;
    if slen % n != 0 {
      return;
    }
    CfbLoop(str, slen, iv, n, bk, enc);
  }
}
