/** The 100-byte chat message: a clear header of 21 bytes and an encrypted body of 79. */
module Messages {
  import opened Bytes
  import opened Blowfish
  import opened Memory
  import Cbc

  const MSGSIZE := 100
  const CHAT_DISCOVER := 1
  const CHAT_MSG := 2

  /** `struct msgid`; the fields are kept as the host reads them and only compared. */
  datatype MsgId = MsgId(ip: nat, sec: nat, usec: nat, sum: nat)

  datatype RawMessage = Message(kind: nat, id: MsgId, iv: seq<byte>, body: seq<byte>)

  type Message = m: RawMessage | |m.iv| == 8 && |m.body| == 79
    witness Message(0, MsgId(0, 0, 0, 0), seq(8, _ => 0), seq(79, _ => 0))

  /** msgtype_valid */
  predicate ValidKind(kind: nat) {
    kind == CHAT_DISCOVER || kind == CHAT_MSG
  }

  /** What a message says, whatever IV it happens to carry. */
  datatype Content = Content(kind: nat, id: MsgId, body: seq<byte>)

  function Says(m: Message): Content {
    Content(m.kind, m.id, m.body)
  }

  function LittleEndian(b: seq<byte>): nat {
    if |b| == 0 then 0 else b[0] as nat + 256 * LittleEndian(b[1..])
  }

  lemma {:induction false} LittleEndianInjective(a: seq<byte>, b: seq<byte>)
    requires |a| == |b| && LittleEndian(a) == LittleEndian(b)
    ensures a == b
  {
    if |a| > 0 {
      var x, y := a[0] as nat, b[0] as nat;
      SameDigits(x, LittleEndian(a[1..]), y, LittleEndian(b[1..]));
      ByteAsNatInjective(a[0], b[0]);
      LittleEndianInjective(a[1..], b[1..]);
      assert a == [a[0]] + a[1..] && b == [b[0]] + b[1..];
    }
  }

  lemma SameDigits(x: nat, p: nat, y: nat, q: nat)
    requires x < 256 && y < 256 && x + 256 * p == y + 256 * q
    ensures x == y && p == q
  {
  }

  lemma ByteAsNatInjective(a: byte, b: byte)
    requires a as nat == b as nat
    ensures a == b
  {
    assert (a as nat) as byte == a && (b as nat) as byte == b;
  }

  /** The packed layout of `struct message`. */
  function Parse(raw: seq<byte>): Message
    requires |raw| == MSGSIZE
  {
    Message(raw[0] as nat,
            MsgId(LittleEndian(raw[1..5]), LittleEndian(raw[5..9]), LittleEndian(raw[9..11]), LittleEndian(raw[11..13])),
            raw[13..21], raw[21..])
  }

  /** Two and four bytes as a number, lowest byte first. */
  function Two(b: seq<byte>): nat
    requires |b| == 2
  {
    b[0] as nat + 0x100 * b[1] as nat
  }

  function Four(b: seq<byte>): nat
    requires |b| == 4
  {
    b[0] as nat + 0x100 * b[1] as nat + 0x1_0000 * b[2] as nat + 0x100_0000 * b[3] as nat
  }

  lemma LittleEndianTwo(b: seq<byte>)
    requires |b| == 2
    ensures LittleEndian(b) == Two(b)
  {
    assert b[1..] == [b[1]] && [b[1]][1..] == [];
    assert LittleEndian([b[1]]) == b[1] as nat;
  }

  lemma LittleEndianFour(b: seq<byte>)
    requires |b| == 4
    ensures LittleEndian(b) == Four(b)
  {
    assert b[1..][1..] == b[2..];
    LittleEndianTwo(b[2..]);
  }

  /** Every field is read from where the struct has it: the type byte, the sender's address and seconds in four bytes each,
      microseconds and checksum in two bytes each, the eight IV bytes and the body. */
  lemma ParseImage(kind: byte, ip: seq<byte>, sec: seq<byte>, usec: seq<byte>, sum: seq<byte>, iv: seq<byte>, body: seq<byte>)
    requires |ip| == 4 && |sec| == 4 && |usec| == 2 && |sum| == 2 && |iv| == 8 && |body| == 79
    ensures var raw := [kind] + ip + sec + usec + sum + iv + body;
            |raw| == MSGSIZE && Parse(raw) == Message(kind as nat, MsgId(Four(ip), Four(sec), Two(usec), Two(sum)), iv, body)
  {
    hide LittleEndian, Two, Four;
    var raw := [kind] + ip + sec + usec + sum + iv + body;
    LittleEndianFour(ip);
    LittleEndianFour(sec);
    LittleEndianTwo(usec);
    LittleEndianTwo(sum);
    assert raw[1..5] == ip && raw[5..9] == sec && raw[9..11] == usec && raw[11..13] == sum;
    assert raw[13..21] == iv && raw[21..] == body;
  }

  lemma SameSlices(a: seq<byte>, b: seq<byte>, i: nat, j: nat)
    requires 1 <= i <= j <= 13 && |a| == |b| == MSGSIZE && a[1..13] == b[1..13]
    ensures a[i..j] == b[i..j]
  {
    forall k | i <= k < j ensures a[k] == b[k] {
      assert a[k] == a[1..13][k - 1] && b[k] == b[1..13][k - 1];
    }
  }

  /** memcmp over the twelve id bytes is equality of ids. */
  lemma SameIdBytes(a: seq<byte>, b: seq<byte>)
    requires |a| == |b| == MSGSIZE
    ensures Parse(a).id == Parse(b).id <==> a[1..13] == b[1..13]
  {
    hide LittleEndian;
    if a[1..13] == b[1..13] {
      SameSlices(a, b, 1, 5);
      SameSlices(a, b, 5, 9);
      SameSlices(a, b, 9, 11);
      SameSlices(a, b, 11, 13);
    }
    if Parse(a).id == Parse(b).id {
      LittleEndianInjective(a[1..5], b[1..5]);
      LittleEndianInjective(a[5..9], b[5..9]);
      LittleEndianInjective(a[9..11], b[9..11]);
      LittleEndianInjective(a[11..13], b[11..13]);
      assert a[1..13] == a[1..5] + a[5..9] + a[9..11] + a[11..13];
      assert b[1..13] == b[1..5] + b[5..9] + b[9..11] + b[11..13];
    }
  }

  /** No two byte images denote the same message. */
  lemma ParseInjective(a: seq<byte>, b: seq<byte>)
    requires |a| == |b| == MSGSIZE && Parse(a) == Parse(b)
    ensures a == b
  {
    SameIdBytes(a, b);
    ByteAsNatInjective(a[0], b[0]);
    assert a == [a[0]] + a[1..13] + a[13..21] + a[21..];
    assert b == [b[0]] + b[1..13] + b[13..21] + b[21..];
  }

  /** chat_crypto_encrypt with a given fresh IV: the header stays in the clear. */
  function Seal(t: Tables, iv: seq<byte>, m: Message): (w: Message)
    requires |iv| == 8
    ensures w.kind == m.kind && w.id == m.id && w.iv == iv
  {
    m.(iv := iv, body := Cbc.Encrypt(t, iv, m.body))
  }

  /** chat_crypto_decrypt */
  function Open(t: Tables, w: Message): (m: Message)
    ensures m.kind == w.kind && m.id == w.id && m.iv == w.iv
  {
    w.(body := Cbc.Decrypt(t, w.iv, w.body))
  }

  /** Whoever holds the same tables reads what was sealed. */
  lemma OpenSeal(t: Tables, iv: seq<byte>, m: Message)
    requires |iv| == 8
    ensures Says(Open(t, Seal(t, iv, m))) == Says(m)
    ensures Open(t, Seal(t, iv, m)) == m.(iv := iv)
  {
    Cbc.DecryptEncrypt(t, iv, m.body);
  }

  /** What is put on the air: type and id in the clear, the fresh IV, and the 79 body bytes chained from it in CBC. The last seven
      bytes steal: the ninth block is the encryption of the zero-padded tail XOR the block that would have stood there, the tail
      position the head of that block. */
  lemma SealLayout(t: Tables, iv: seq<byte>, m: Message) returns (e: seq<byte>)
    requires |iv| == 8
    ensures var w := Seal(t, iv, m);
            && w.kind == m.kind && w.id == m.id && w.iv == iv
            && (forall i {:trigger w.body[8 * i..8 * i + 8]} :: 0 <= i < 8 ==>
                  w.body[8 * i..8 * i + 8] == BlockEnc(t, Xor(m.body[8 * i..8 * i + 8], if i == 0 then iv else w.body[8 * i - 8..8 * i])))
            && e == BlockEnc(t, Xor(m.body[64..72], w.body[56..64]))
            && w.body[64..72] == BlockEnc(t, Xor(m.body[72..] + [0], e)) && w.body[72..] == e[..7]
  {
    hide BlockEnc, Xor, Cbc.Encrypt;
    var front, tail := m.body[..72], m.body[72..];
    assert front + tail == m.body;
    var d, c := Cbc.Encrypt(t, iv, front), Cbc.Encrypt(t, iv, m.body);
    forall i | 0 <= i < 8
      ensures c[8 * i..8 * i + 8] == BlockEnc(t, Xor(m.body[8 * i..8 * i + 8], if i == 0 then iv else c[8 * i - 8..8 * i]))
    {
      Cbc.EncryptBlocks(t, iv, m.body, i);
    }
    Cbc.EncryptBlocks(t, iv, front, 8);
    Cbc.EncryptTail(t, iv, front, tail);
    e := d[64..];
    assert tail + seq(1, _ => 0) == tail + [0];
    assert d[56..64] == c[56..64] && front[64..72] == m.body[64..72] && d[64..72] == e;
  }

  /** Sealing again with the IV a message arrived under gives back the very bytes that arrived. */
  lemma SealOpen(t: Tables, w: Message)
    ensures Seal(t, w.iv, Open(t, w)) == w
  {
    Cbc.EncryptDecrypt(t, w.iv, w.body);
  }
}
