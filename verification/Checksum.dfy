/** The Internet checksum of net.c (RFC 1071), with its 32-bit accumulator. */
module Checksum {
  /** A 16-bit word as the little-endian host reads it. */
  type u16 = x: int | 0 <= x < 0x1_0000

  const TWO32 := 0x1_0000_0000

  /** The terms chksum adds up for `len` bytes at `mem`: whole words, then a trailing byte as the low half of a word. */
  function Terms(mem: seq<u16>, len: nat): (ws: seq<u16>)
    requires len <= 2 * |mem|
  {
    mem[..len / 2] + if len % 2 == 1 then [mem[len / 2] % 256] else []
  }

  function Sum(ws: seq<u16>): nat {
    if |ws| == 0 then 0 else Sum(ws[..|ws| - 1]) + ws[|ws| - 1]
  }

  /** Byte number i of the memory, lower half of a word first. */
  function ByteAt(mem: seq<u16>, i: nat): nat
    requires i < 2 * |mem|
  {
    if i % 2 == 0 then mem[i / 2] % 256 else mem[i / 2] / 256
  }

  /** The first `len` bytes, those at odd places worth 256 times as much. */
  function ByteSum(mem: seq<u16>, len: nat): nat
    requires len <= 2 * |mem|
  {
    if len == 0 then 0
    else ByteSum(mem, len - 1) + if len % 2 == 0 then 256 * ByteAt(mem, len - 1) else ByteAt(mem, len - 1)
  }

  lemma {:induction false} WordsCount(mem: seq<u16>, k: nat)
    requires k <= |mem|
    ensures Sum(mem[..k]) == ByteSum(mem, 2 * k)
  {
    if k > 0 {
      WordsCount(mem, k - 1);
      WordBytes(mem, k - 1);
      assert mem[..k][..k - 1] == mem[..k - 1];
    }
  }

  lemma Halved(k: nat)
    ensures (2 * k) % 2 == 0 && 2 * k / 2 == k && (2 * k + 1) % 2 == 1 && (2 * k + 1) / 2 == k
  {
  }

  lemma LowByte(mem: seq<u16>, k: nat)
    requires k < |mem|
    ensures ByteSum(mem, 2 * k + 1) == ByteSum(mem, 2 * k) + mem[k] % 256
  {
    Halved(k);
    var w: int := mem[k];
    assert ByteAt(mem, 2 * k) == w % 256;
  }

  lemma HighByte(mem: seq<u16>, k: nat)
    requires k < |mem|
    ensures ByteSum(mem, 2 * k + 2) == ByteSum(mem, 2 * k + 1) + 256 * (mem[k] / 256)
  {
    Halved(k);
    Halved(k + 1);
    assert ByteAt(mem, 2 * k + 1) == mem[k] / 256;
  }

  lemma WordBytes(mem: seq<u16>, k: nat)
    requires k < |mem|
    ensures ByteSum(mem, 2 * k + 2) == ByteSum(mem, 2 * k) + mem[k]
  {
    hide ByteSum;
    LowByte(mem, k);
    HighByte(mem, k);
  }

  /** Every byte up to `len` is counted once, and none beyond. */
  lemma TermsCount(mem: seq<u16>, len: nat)
    requires len <= 2 * |mem|
    ensures Sum(Terms(mem, len)) == ByteSum(mem, len)
  {
    hide ByteSum;
    var k := len / 2;
    WordsCount(mem, k);
    if len % 2 == 1 {
      LowByte(mem, k);
      assert Terms(mem, len)[..k] == mem[..k];
    } else {
      assert Terms(mem, len) == mem[..k];
    }
  }

  /** The two folds, the complement and the truncation to 16 bits. */
  function Fold(sum: nat): (answer: u16)
    requires sum < TWO32
  {
    var s := sum / 0x1_0000 + sum % 0x1_0000;
    var s2 := (s + s / 0x1_0000) % TWO32;
    0xffff - s2 % 0x1_0000
  }

  function Answer(ws: seq<u16>): u16 {
    Fold(Sum(ws) % TWO32)
  }

  lemma ModStep(a: nat, w: nat)
    ensures (a % TWO32 + w) % TWO32 == (a + w) % TWO32
  {
  }

  method Chksum(addr: array<u16>, len: nat) returns (answer: u16)
    requires len <= 2 * addr.Length
    ensures answer == Answer(Terms(addr[..], len))
  {
    hide Fold;
    var w, sum, nleft := 0, 0, len;
    while nleft > 1
      invariant nleft == len - 2 * w && 0 <= nleft
      invariant sum == Sum(addr[..w]) % TWO32
    {
      assert addr[..w + 1] == addr[..w] + [addr[w]];
      ModStep(Sum(addr[..w]), addr[w]);
      sum := (sum + addr[w]) % TWO32;
      w, nleft := w + 1, nleft - 2;
    }
    ghost var ws := Terms(addr[..], len);
    if nleft == 1 {
      assert ws[..|ws| - 1] == addr[..w];
      ModStep(Sum(addr[..w]), addr[w] % 256);
      sum := (sum + addr[w] % 256) % TWO32;
    } else {
      assert ws == addr[..w];
    }
    answer := Fold(sum);
  }

  lemma {:induction false} SumBound(ws: seq<u16>)
    ensures Sum(ws) <= 0xffff * |ws|
    ensures Sum(ws) == 0 <==> forall i :: 0 <= i < |ws| ==> ws[i] == 0
  {
    if |ws| > 0 {
      SumBound(ws[..|ws| - 1]);
    }
  }

  /** The sum in one's complement arithmetic: congruent modulo 65535, and zero only for zero. */
  ghost predicate OnesComplement(u: int, sum: int) {
    0 <= u <= 0xffff && (u - sum) % 0xffff == 0 && (u == 0 <==> sum == 0)
  }

  lemma OnesComplementUnique(u: int, v: int, sum: int)
    requires OnesComplement(u, sum) && OnesComplement(v, sum)
    ensures u == v
  {
  }

  /** Two folds suffice for every 32-bit sum. */
  lemma TwoFolds(sum: nat)
    requires sum < TWO32
    ensures OnesComplement(0xffff - Fold(sum), sum)
  {
    var hi, lo := sum / 0x1_0000, sum % 0x1_0000;
    var s := hi + lo;
    assert sum == 0xffff * hi + s;
    var u := 0xffff - Fold(sum);
    if s < 0x1_0000 {
      assert u == s;
      assert u - sum == 0xffff * -hi;
    } else {
      assert s / 0x1_0000 == 1;
      assert u == s - 0xffff;
      assert u - sum == 0xffff * (-1 - hi);
    }
  }

  /** Up to 65537 words the accumulator cannot wrap, and the uncomplemented answer is their one's complement sum. */
  lemma AnswerCorrect(ws: seq<u16>)
    requires |ws| <= 0x1_0001
    ensures Sum(ws) < TWO32
    ensures OnesComplement(0xffff - Answer(ws), Sum(ws))
    ensures Answer(ws) == 0xffff <==> forall i :: 0 <= i < |ws| ==> ws[i] == 0
  {
    hide Fold;
    SumBound(ws);
    assert Sum(ws) % TWO32 == Sum(ws);
    TwoFolds(Sum(ws));
  }

  /** One word more and the accumulator can wrap: 65538 words of ones. */
  lemma OneMoreWraps()
    ensures Sum(seq(0x1_0002, _ => 0xffff as u16)) >= TWO32
  {
    SumOfOnes(0x1_0002);
  }

  lemma {:induction false} SumOfOnes(n: nat)
    ensures Sum(seq(n, _ => 0xffff as u16)) == 0xffff * n
  {
    if n > 0 {
      SumOfOnes(n - 1);
      assert seq(n, _ => 0xffff as u16)[..n - 1] == seq(n - 1, _ => 0xffff as u16);
    }
  }

  function SwapHalves(w: u16): u16 {
    w % 256 * 256 + w / 256
  }

  function SwapAll(ws: seq<u16>): (r: seq<u16>)
    ensures |r| == |ws|
  {
    seq(|ws|, i requires 0 <= i < |ws| => SwapHalves(ws[i]))
  }

  lemma SwapIsTimes256(w: u16)
    ensures (SwapHalves(w) - 256 * w) % 0xffff == 0
  {
    assert SwapHalves(w) - 256 * w == 0xffff * -(w / 256);
  }

  lemma {:induction false} SumSwapped(ws: seq<u16>)
    ensures (Sum(SwapAll(ws)) - 256 * Sum(ws)) % 0xffff == 0
  {
    hide SwapHalves;
    if |ws| > 0 {
      var front := ws[..|ws| - 1];
      SumSwapped(front);
      assert SwapAll(ws)[..|ws| - 1] == SwapAll(front);
      var w: int := ws[|ws| - 1];
      SwapIsTimes256(w);
      SumOfMultiples(Sum(SwapAll(front)) - 256 * Sum(front), SwapHalves(w) - 256 * w);
    }
  }

  lemma SumOfMultiples(a: int, b: int)
    requires a % 0xffff == 0 && b % 0xffff == 0
    ensures (a + b) % 0xffff == 0
  {
    assert a + b == 0xffff * (a / 0xffff + b / 0xffff);
  }

  lemma SumSwappedZero(ws: seq<u16>)
    ensures Sum(SwapAll(ws)) == 0 <==> Sum(ws) == 0
  {
    SumBound(ws);
    SumBound(SwapAll(ws));
    assert forall i :: 0 <= i < |ws| ==> (SwapAll(ws)[i] == 0 <==> ws[i] == 0);
  }

  lemma SwappedOnesComplement(u: u16, sum: int, sum': int)
    requires OnesComplement(u, sum) && (sum' - 256 * sum) % 0xffff == 0 && (sum' == 0 <==> sum == 0)
    ensures OnesComplement(SwapHalves(u), sum')
  {
    SwapIsTimes256(u);
    var x, y, z := (SwapHalves(u) - 256 * u) / 0xffff, (u - sum) / 0xffff, (sum' - 256 * sum) / 0xffff;
    assert SwapHalves(u) - sum' == 0xffff * (x + 256 * y - z);
  }

  /** Byte order independence: checksumming byte-swapped words gives the byte-swapped checksum. */
  lemma SwappedAnswer(ws: seq<u16>)
    requires |ws| <= 0x1_0001
    ensures Answer(SwapAll(ws)) == SwapHalves(Answer(ws))
  {
    hide Answer, OnesComplement;
    AnswerCorrect(ws);
    AnswerCorrect(SwapAll(ws));
    SumSwapped(ws);
    SumSwappedZero(ws);
    var u, sum' := 0xffff - Answer(ws), Sum(SwapAll(ws));
    SwappedOnesComplement(u, Sum(ws), sum');
    OnesComplementUnique(SwapHalves(u), 0xffff - Answer(SwapAll(ws)), sum');
    SwapComplement(Answer(ws));
  }

  lemma SwapComplement(w: u16)
    ensures SwapHalves(0xffff - w) == 0xffff - SwapHalves(w)
  {
  }

  /** msgbuf_setid passes half the message size as the byte count, so the id sum sees only the first 50 bytes. */
  function IdSum(mem: seq<u16>): u16
    requires |mem| == 50
  {
    Answer(Terms(mem, 100 / 2))
  }

  /** The id sum sees all of the first half, */
  lemma IdSumSeesFirstHalf(mem: seq<u16>)
    requires |mem| == 50
    ensures IdSum(mem) == 0xffff <==> forall i :: 0 <= i < 25 ==> mem[i] == 0
    ensures OnesComplement(0xffff - IdSum(mem), ByteSum(mem, 50))
  {
    AnswerCorrect(mem[..25]);
    assert Terms(mem, 50) == mem[..25];
    TermsCount(mem, 50);
  }

  /** and nothing of the second. */
  lemma IdSumIgnoresSecondHalf(a: seq<u16>, b: seq<u16>)
    requires |a| == |b| == 50 && a[..25] == b[..25]
    ensures IdSum(a) == IdSum(b)
  {
    assert Terms(a, 50) == a[..25] && Terms(b, 50) == b[..25];
  }
}
