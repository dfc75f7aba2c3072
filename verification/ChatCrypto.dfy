/** Key handling and in-place encryption of messages. */
module ChatCrypto {
  import opened Bytes
  import opened Blowfish
  import opened Memory
  import opened Messages
  import opened KeyInit
  import Cbc

  const CRYPTO_KEY_MAXLEN := 60
  const BODY := 21
  const IV := 13

  class Crypto {
    const key: array<byte>
    var keylen: nat
    var keySet: bool
    var bkey: BfishKey?

    ghost predicate Valid()
      reads this
    {
      && key.Length == CRYPTO_KEY_MAXLEN + 1 && keylen <= CRYPTO_KEY_MAXLEN
      && (keySet ==> bkey != null)
      && (bkey != null ==> bkey.Valid())
    }

    constructor ()
      ensures Valid() && !keySet && keylen == 0 && bkey == null && fresh(key) && key.Length == 61
    {
      key := new byte[CRYPTO_KEY_MAXLEN + 1];
      keylen, keySet, bkey := 0, false, null;
    }

    /** chat_crypto_set_key: keys above 56 bytes are refused, by the key schedule if not by the length test here,
        and a refused key leaves the old one in force. */
    method SetKey(newkey: array<byte>, len: nat, pi: Tables) returns (ret: int)
      requires Valid() && newkey != key && (len <= 56 ==> len <= newkey.Length && 1 <= newkey.Length)
      modifies this, key
      ensures Valid()
      ensures ret == if len <= 56 then 0 else -1
      ensures ret == -1 ==> bkey == old(bkey) && keySet == old(keySet) && keylen == old(keylen) && key[..] == old(key[..])
      ensures ret == 0 ==> keySet && keylen == len && key[..len] == newkey[..len] && (forall i :: len <= i < key.Length ==> key[i] == 0)
      ensures ret == 0 ==> bkey != null && bkey.T() == Schedule(pi, CyclicExt(newkey[..if len == 0 then 1 else len]))
    {
      if len > CRYPTO_KEY_MAXLEN {
        return -1;
      }
      var bk := BfishKeyinit(newkey, len, pi);
      if bk == null {
        return -1;
      }
      ghost var t := Schedule(pi, CyclicExt(newkey[..if len == 0 then 1 else len]));
      ghost var k := newkey[..];
      assert bk.T() == t;
      bkey := bk;
      forall i | 0 <= i < key.Length {
        key[i] := 0;
      }
      forall i | 0 <= i < len {
        key[i] := newkey[i];
      }
      keylen := len;
      keySet := true;
      assert newkey[..] == k && bk.T() == t;
      return 0;
    }

    /** chat_crypto_encrypt; `random` is the IV drawn for this message. */
    method Encrypt(m: array<byte>, random: seq<byte>) returns (ret: int)
      requires Valid() && m.Length == MSGSIZE && |random| == 8
      modifies m
      ensures ret == if keySet then 0 else -1
      ensures keySet ==> Parse(m[..]) == Seal(bkey.T(), random, Parse(old(m[..])))
      ensures !keySet ==> m[..] == old(m[..])
    {
      hide Cbc.Encrypt, LittleEndian;
      if !keySet {
        return -1;
      }
      ghost var raw := m[..];
      Memcpy(m, IV, random);
      ghost var mid := m[..];
      Cbc.CbcEncrypt(m, BODY, MSGSIZE - BODY, m, IV, bkey);
      ghost var c := Cbc.Encrypt(bkey.T(), random, raw[BODY..]);
      assert mid[BODY..][..MSGSIZE - BODY] == mid[BODY..MSGSIZE] == raw[BODY..];
      SameHeader(raw, mid, m[..]);
      assert m[..][BODY..] == c;
      return 0;
    }

    /** chat_crypto_encrypt on a copy of the message, whose error nobody looks at: without a key the copy stays as it is. */
    method EncryptCopy(m: Message, random: seq<byte>) returns (mc: Message)
      requires Valid() && |random| == 8
      ensures mc == if keySet then Seal(bkey.T(), random, m) else m
    {
      hide Cbc.Encrypt;
      if !keySet {
        return m;
      }
      var iv := new byte[8](i requires 0 <= i < 8 => random[i]);
      var body := new byte[MSGSIZE - BODY](i requires 0 <= i < MSGSIZE - BODY => m.body[i]);
      assert iv[0..8] == random && body[0..MSGSIZE - BODY] == m.body;
      Cbc.CbcEncrypt(body, 0, MSGSIZE - BODY, iv, 0, bkey);
      mc := m.(iv := random, body := body[..]);
    }

    /** chat_crypto_decrypt */
    method Decrypt(m: array<byte>) returns (ret: int)
      requires Valid() && m.Length == MSGSIZE
      modifies m
      ensures ret == if keySet then 0 else -1
      ensures keySet ==> Parse(m[..]) == Open(bkey.T(), Parse(old(m[..])))
      ensures !keySet ==> m[..] == old(m[..])
    {
      hide Cbc.Decrypt, LittleEndian;
      if !keySet {
        return -1;
      }
      ghost var raw := m[..];
      Cbc.CbcDecrypt(m, BODY, MSGSIZE - BODY, m, IV, bkey);
      assert raw[BODY..MSGSIZE] == raw[BODY..];
      SameHeader(raw, raw, m[..]);
      assert m[..][IV..BODY] == m[..][..BODY][IV..] == raw[IV..BODY];
      assert m[..][BODY..] == Cbc.Decrypt(bkey.T(), raw[IV..BODY], raw[BODY..]);
      return 0;
    }
  }

  /** Type and id survive writes to the IV and to the body. */
  lemma SameHeader(a: seq<byte>, b: seq<byte>, c: seq<byte>)
    requires |a| == |b| == |c| == MSGSIZE && a[..IV] == b[..IV] && b[..BODY] == c[..BODY]
    ensures Parse(c).kind == Parse(a).kind && Parse(c).id == Parse(a).id && Parse(c).iv == b[IV..BODY]
  {
    assert c[..IV] == c[..BODY][..IV] == b[..BODY][..IV] == a[..IV];
    assert c[0] == c[..IV][0] && a[0] == a[..IV][0];
    assert c[1..13] == c[..IV][1..] && a[1..13] == a[..IV][1..];
    SameIdBytes(a, c);
    assert c[IV..BODY] == c[..BODY][IV..] == b[..BODY][IV..] == b[IV..BODY];
  }
}
