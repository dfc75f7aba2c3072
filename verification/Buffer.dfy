/** The message buffer as a value: what each operation of msgbuf.c does to the sequence of entries. */
module Buffer {
  import opened Messages
  import opened Bytes
  import opened Blowfish

  const MAXMSGS := 1000

  /** `struct msg`; the time stamp is never read back. */
  datatype Entry = Entry(count: nat, msg: Message)

  type Buf = seq<Entry>

  /** Position of the first entry with this id, or the length. */
  function Find(buf: Buf, id: MsgId): (k: nat)
    ensures k <= |buf|
    ensures k < |buf| ==> buf[k].msg.id == id
    ensures forall i :: 0 <= i < k ==> buf[i].msg.id != id
  {
    if |buf| == 0 || buf[0].msg.id == id then 0 else 1 + Find(buf[1..], id)
  }

  lemma FindUnique(buf: Buf, id: MsgId, k: nat)
    requires k <= |buf| && (k < |buf| ==> buf[k].msg.id == id) && forall i :: 0 <= i < k ==> buf[i].msg.id != id
    ensures Find(buf, id) == k
  {
  }

  predicate Holds(buf: Buf, id: MsgId) {
    Find(buf, id) < |buf|
  }

  /** msgbuf_exist: how often the message was seen, zero when it is not held. */
  function Count(buf: Buf, id: MsgId): nat {
    var k := Find(buf, id);
    if k < |buf| then buf[k].count else 0
  }

  /** msgbuf_append: the oldest entry makes room. */
  function Append(buf: Buf, e: Entry): (r: Buf)
    ensures |r| > 0 && r[|r| - 1] == e
  {
    var b := buf + [e];
    if |b| > MAXMSGS then b[1..] else b
  }

  /** The list and counter part of msgbuf_add, for a message of valid type. */
  function Add(buf: Buf, m: Message): (Buf, nat) {
    var k := Find(buf, m.id);
    if k < |buf| then
      var c := buf[k].count + 1;
      (buf[k := buf[k].(count := c)], c)
    else (Append(buf, Entry(1, m)), 1)
  }

  /** msgbuf_delete */
  function Delete(buf: Buf, id: MsgId): Buf {
    var k := Find(buf, id);
    if k < |buf| then buf[..k] + buf[k + 1..] else buf
  }

  /** One turn of the msgbuf_sync loop, on a decrypted message: a message not held yet enters as already acknowledged. */
  function SyncOne(buf: Buf, m: Message): Buf {
    if Holds(buf, m.id) then buf else Append(buf, Entry(2, m))
  }

  /** The msgbuf_sync loop: the buffer after the whole stream and the number of messages taken over. */
  function Sync(buf: Buf, ms: seq<Message>): (Buf, nat)
    decreases |ms|
  {
    if |ms| == 0 then (buf, 0)
    else
      var (b, n) := Sync(SyncOne(buf, ms[0]), ms[1..]);
      (b, n + if Holds(buf, ms[0].id) then 0 else 1)
  }

  /** Local messages leave the node only once they are acknowledged, that is, seen at least twice. */
  predicate Released(me: nat, id: MsgId, count: nat) {
    id.ip == me ==> count > 1
  }

  /** msgbuf_dump: the messages written out, oldest first. */
  function Dump(me: nat, buf: Buf): (ms: seq<Message>)
    ensures |ms| <= |buf|
  {
    if |buf| == 0 then []
    else (if Released(me, buf[0].msg.id, buf[0].count) then [buf[0].msg] else []) + Dump(me, buf[1..])
  }

  lemma DumpStep(me: nat, buf: Buf, k: nat)
    requires k < |buf|
    ensures Dump(me, buf[k..]) == (if Released(me, buf[k].msg.id, buf[k].count) then [buf[k].msg] else []) + Dump(me, buf[k + 1..])
  {
    assert buf[k..][1..] == buf[k + 1..];
  }

  lemma SyncStep(buf: Buf, ms: seq<Message>, i: nat)
    requires i < |ms|
    ensures var (b, n) := Sync(SyncOne(buf, ms[i]), ms[i + 1..]);
            Sync(buf, ms[i..]) == (b, n + if Holds(buf, ms[i].id) then 0 else 1)
  {
    assert ms[i..][1..] == ms[i + 1..];
  }

  /** Does this msgbuf_add write the message to the connected clients? */
  predicate Writes(me: nat, buf: Buf, m: Message) {
    var c := Add(buf, m).1;
    if Holds(buf, m.id) then c == 2 && m.id.ip == me else Released(me, m.id, c)
  }

  // ---------- what every operation keeps ----------

  ghost predicate Distinct(buf: Buf) {
    forall i, j :: 0 <= i < j < |buf| ==> buf[i].msg.id != buf[j].msg.id
  }

  /** Ids are pairwise distinct, at most MAXMSGS entries are held, and every entry was seen. */
  ghost predicate WellFormed(buf: Buf) {
    && Distinct(buf) && |buf| <= MAXMSGS
    && forall i :: 0 <= i < |buf| ==> buf[i].count > 0
  }

  lemma FindIs(buf: Buf, k: nat)
    requires Distinct(buf) && k < |buf|
    ensures Find(buf, buf[k].msg.id) == k
  {
  }

  lemma FindPast(buf: Buf, id: MsgId)
    requires forall i :: 0 <= i < |buf| ==> buf[i].msg.id != id
    ensures Find(buf, id) == |buf|
  {
  }

  lemma AddKeeps(buf: Buf, m: Message)
    requires WellFormed(buf)
    ensures WellFormed(Add(buf, m).0)
  {
  }

  lemma DeleteKeeps(buf: Buf, id: MsgId)
    requires WellFormed(buf)
    ensures WellFormed(Delete(buf, id)) && !Holds(Delete(buf, id), id)
  {
    var k, b := Find(buf, id), Delete(buf, id);
    if k < |buf| {
      assert forall i :: 0 <= i < |b| ==> b[i] == if i < k then buf[i] else buf[i + 1];
      FindPast(b, id);
    }
  }

  lemma SyncOneKeeps(buf: Buf, m: Message)
    requires WellFormed(buf)
    ensures WellFormed(SyncOne(buf, m))
  {
  }

  /** The counters after an operation, id by id, when nothing has to be evicted. */
  lemma AddCounts(buf: Buf, m: Message, id: MsgId)
    requires Distinct(buf) && (Holds(buf, m.id) || |buf| < MAXMSGS)
    ensures Count(Add(buf, m).0, id) == if id == m.id then Count(buf, id) + 1 else Count(buf, id)
    ensures Add(buf, m).1 == Count(buf, m.id) + 1
  {
    var k := Find(buf, m.id);
    if k < |buf| {
      SameIdsFind(buf, Add(buf, m).0, id);
      SameIdsFind(buf, Add(buf, m).0, m.id);
    } else {
      AppendFind(buf, Entry(1, m), id);
    }
  }

  lemma DeleteCounts(buf: Buf, id: MsgId, other: MsgId)
    requires Distinct(buf)
    ensures Count(Delete(buf, id), other) == if other == id then 0 else Count(buf, other)
  {
    var k, j, b := Find(buf, id), Find(buf, other), Delete(buf, id);
    if k < |buf| {
      assert forall i :: 0 <= i < |b| ==> b[i] == if i < k then buf[i] else buf[i + 1];
      if other == id || j == |buf| {
        FindPast(b, other);
      } else {
        var i := if j < k then j else j - 1;
        assert b[i] == buf[j];
        FindIs(b, i);
      }
    }
  }

  /** What a delete leaves: the other entries, in their order. */
  lemma DeleteEntries(buf: Buf, id: MsgId)
    requires Distinct(buf)
    ensures forall e :: e in Delete(buf, id) <==> e in buf && e.msg.id != id
    ensures !Holds(Delete(buf, id), id)
  {
    var k, b := Find(buf, id), Delete(buf, id);
    if k < |buf| {
      assert forall i :: 0 <= i < |b| ==> b[i] == if i < k then buf[i] else buf[i + 1];
      assert forall i :: 0 <= i < |buf| && i != k ==> b[if i < k then i else i - 1] == buf[i];
      FindPast(b, id);
    }
  }

  /** With eviction allowed: no other counter rises, and the added message is held afterwards. */
  lemma AddCountsAtMost(buf: Buf, m: Message, id: MsgId)
    requires Distinct(buf)
    ensures id != m.id ==> Count(Add(buf, m).0, id) <= Count(buf, id)
    ensures id == m.id ==> Count(Add(buf, m).0, id) == Count(buf, id) + 1
    ensures Holds(Add(buf, m).0, m.id)
  {
    var k := Find(buf, m.id);
    if k < |buf| {
      SameIdsFind(buf, Add(buf, m).0, id);
      SameIdsFind(buf, Add(buf, m).0, m.id);
    } else {
      AppendCounts(buf, Entry(1, m), id);
      AppendCounts(buf, Entry(1, m), m.id);
    }
  }

  lemma AddReturns(buf: Buf, m: Message)
    requires Distinct(buf)
    ensures Add(buf, m).1 == Count(Add(buf, m).0, m.id) == Count(buf, m.id) + 1
  {
    AddCountsAtMost(buf, m, m.id);
  }

  lemma AddKeepsOrDrops(buf: Buf, m: Message, id: MsgId)
    requires Distinct(buf) && id != m.id
    ensures Count(Add(buf, m).0, id) == Count(buf, id) || Count(Add(buf, m).0, id) == 0
  {
    if Holds(buf, m.id) {
      AddCounts(buf, m, id);
    } else {
      AppendCounts(buf, Entry(1, m), id);
    }
  }

  lemma SyncOneCountsAtMost(buf: Buf, m: Message, id: MsgId)
    requires Distinct(buf)
    ensures Count(SyncOne(buf, m), id) <= if id == m.id && !Holds(buf, id) then 2 else Count(buf, id)
  {
    if !Holds(buf, m.id) {
      AppendCounts(buf, Entry(2, m), id);
    }
  }

  lemma AppendCounts(buf: Buf, e: Entry, id: MsgId)
    requires Distinct(buf) && !Holds(buf, e.msg.id)
    ensures id != e.msg.id ==> Count(Append(buf, e), id) == Count(buf, id) || Count(Append(buf, e), id) == 0
    ensures id == e.msg.id ==> Count(Append(buf, e), id) == e.count && Holds(Append(buf, e), id)
  {
    var b := buf + [e];
    AppendFind(buf, e, id);
    if |b| > MAXMSGS {
      assert b == [b[0]] + b[1..];
      TailFind(b, id);
    }
  }

  lemma TailFind(buf: Buf, id: MsgId)
    requires |buf| > 0 && Distinct(buf)
    ensures Find(buf[1..], id) == if buf[0].msg.id == id then |buf| - 1 else Find(buf, id) - 1
  {
    if buf[0].msg.id == id {
      FindPast(buf[1..], id);
    }
  }

  /** Where the messages of a buffer come from. */
  lemma AddEntries(buf: Buf, m: Message, e: Entry)
    requires e in Add(buf, m).0
    ensures e.msg == m || exists e0 :: e0 in buf && e0.msg == e.msg
  {
    var k := Find(buf, m.id);
    if k < |buf| && e !in buf {
      assert buf[k] in buf && e.msg == buf[k].msg;
    } else if e in buf {
      assert e.msg == e.msg;
    }
  }

  lemma SameIdsFind(a: Buf, b: Buf, id: MsgId)
    requires |a| == |b| && forall i :: 0 <= i < |a| ==> a[i].msg.id == b[i].msg.id
    ensures Find(a, id) == Find(b, id)
  {
  }

  lemma {:induction false} AppendFind(buf: Buf, e: Entry, id: MsgId)
    ensures Find(buf + [e], id) == if Holds(buf, id) then Find(buf, id) else if e.msg.id == id then |buf| else |buf| + 1
  {
    if |buf| > 0 {
      assert (buf + [e])[1..] == buf[1..] + [e];
      AppendFind(buf[1..], e, id);
    }
  }

  // ---------- synchronisation ----------

  /** The messages of a stream that are not held yet. */
  function Missing(buf: Buf, ms: seq<Message>): seq<Message> {
    if |ms| == 0 then []
    else (if Holds(buf, ms[0].id) then [] else [ms[0]]) + Missing(buf, ms[1..])
  }

  function Acknowledged(ms: seq<Message>): (es: Buf)
    ensures |es| == |ms|
  {
    seq(|ms|, i requires 0 <= i < |ms| => Entry(2, ms[i]))
  }

  ghost predicate DistinctIds(ms: seq<Message>) {
    forall i, j :: 0 <= i < j < |ms| ==> ms[i].id != ms[j].id
  }

  /** A sync that needs no eviction appends exactly the missing messages, in stream order, with count 2. */
  lemma {:induction false} SyncAppends(buf: Buf, ms: seq<Message>)
    requires DistinctIds(ms) && |buf| + |Missing(buf, ms)| <= MAXMSGS
    ensures Sync(buf, ms) == (buf + Acknowledged(Missing(buf, ms)), |Missing(buf, ms)|)
    decreases |ms|
  {
    var news := Missing(buf, ms);
    if |ms| == 0 {
      assert buf + Acknowledged([]) == buf;
    } else {
      var m, rest := ms[0], ms[1..];
      if Holds(buf, m.id) {
        assert news == Missing(buf, rest);
        SyncAppends(buf, rest);
      } else {
        var b := buf + [Entry(2, m)];
        assert b == SyncOne(buf, m);
        assert news == [m] + Missing(buf, rest);
        forall i | 0 <= i < |rest| ensures rest[i].id != m.id {
          assert rest[i] == ms[i + 1];
        }
        MissingSame(buf, b, Entry(2, m), rest);
        SyncAppends(b, rest);
        AcknowledgedSplit(buf, m, Missing(buf, rest));
      }
    }
  }

  lemma AcknowledgedSplit(buf: Buf, m: Message, rest: seq<Message>)
    ensures buf + [Entry(2, m)] + Acknowledged(rest) == buf + Acknowledged([m] + rest)
  {
    assert Acknowledged([m] + rest) == [Entry(2, m)] + Acknowledged(rest);
  }

  lemma {:induction false} MissingSame(buf: Buf, b: Buf, e: Entry, ms: seq<Message>)
    requires b == buf + [e] && forall i :: 0 <= i < |ms| ==> ms[i].id != e.msg.id
    ensures Missing(b, ms) == Missing(buf, ms)
  {
    if |ms| > 0 {
      AppendFind(buf, e, ms[0].id);
      MissingSame(buf, b, e, ms[1..]);
    }
  }

  lemma {:induction false} SyncIdle(buf: Buf, ms: seq<Message>)
    requires forall i :: 0 <= i < |ms| ==> Holds(buf, ms[i].id)
    ensures Sync(buf, ms) == (buf, 0)
  {
    if |ms| > 0 {
      SyncIdle(buf, ms[1..]);
    }
  }

  lemma {:induction false} MissingCovers(buf: Buf, ms: seq<Message>, i: nat)
    requires i < |ms|
    ensures Holds(buf, ms[i].id) || ms[i] in Missing(buf, ms)
  {
    if i > 0 {
      MissingCovers(buf, ms[1..], i - 1);
    }
  }

  lemma HoldsMember(buf: Buf, k: nat)
    requires k < |buf|
    ensures Holds(buf, buf[k].msg.id)
  {
  }

  /** A dump holds exactly the foreign messages and the own ones seen at least twice, */
  lemma {:induction false} DumpMembers(me: nat, buf: Buf, m: Message)
    ensures m in Dump(me, buf) <==> exists k :: 0 <= k < |buf| && buf[k].msg == m && (m.id.ip != me || buf[k].count >= 2)
  {
    if |buf| > 0 {
      var rest := buf[1..];
      DumpMembers(me, rest, m);
      if m in Dump(me, buf) && m in Dump(me, rest) {
        var k :| 0 <= k < |rest| && rest[k].msg == m && (m.id.ip != me || rest[k].count >= 2);
        assert buf[k + 1] == rest[k];
      }
      if k :| 0 <= k < |buf| && buf[k].msg == m && (m.id.ip != me || buf[k].count >= 2) {
        if k > 0 {
          assert rest[k - 1] == buf[k];
        }
      }
    }
  }

  /** in buffer order. */
  lemma {:induction false} DumpInOrder(me: nat, a: Buf, b: Buf)
    ensures Dump(me, a + b) == Dump(me, a) + Dump(me, b)
  {
    hide Released;
    if |a| == 0 {
      assert a + b == b;
    } else {
      assert (a + b)[1..] == a[1..] + b;
      DumpInOrder(me, a[1..], b);
    }
  }

  lemma {:induction false} DumpDistinct(me: nat, buf: Buf)
    requires Distinct(buf)
    ensures DistinctIds(Dump(me, buf))
  {
    if |buf| > 0 {
      var d, rest := Dump(me, buf), Dump(me, buf[1..]);
      DumpDistinct(me, buf[1..]);
      forall i, j | 0 <= i < j < |d| ensures d[i].id != d[j].id {
        if Released(me, buf[0].msg.id, buf[0].count) {
          assert d[j] == rest[j - 1];
          DumpMembers(me, buf[1..], rest[j - 1]);
          if i > 0 {
            assert d[i] == rest[i - 1];
          }
        }
      }
    }
  }

  /** What arrives when a peer's buffer is dumped encrypted, under the IVs drawn for the messages, and decrypted again. */
  function Received(t: Tables, me: nat, peer: Buf, ivs: seq<seq<byte>>): (ms: seq<Message>)
    requires |ivs| == |Dump(me, peer)| && forall i :: 0 <= i < |ivs| ==> |ivs[i]| == 8
    ensures |ms| == |ivs|
  {
    seq(|ivs|, i requires 0 <= i < |ivs| => Open(t, Seal(t, ivs[i], Dump(me, peer)[i])))
  }

  /** Synchronising from a peer appends the peer's released messages not held here, as the peer has them up to the IV,
      and an immediate second synchronisation finds nothing to take. */
  lemma SyncMerges(t: Tables, buf: Buf, peer: Buf, peerIp: nat, ivs: seq<seq<byte>>, ivs2: seq<seq<byte>>)
    requires Distinct(peer)
    requires |ivs| == |ivs2| == |Dump(peerIp, peer)|
    requires forall i :: 0 <= i < |ivs| ==> |ivs[i]| == 8 && |ivs2[i]| == 8
    requires |buf| + |Missing(buf, Received(t, peerIp, peer, ivs))| <= MAXMSGS
    ensures var ms := Received(t, peerIp, peer, ivs);
            && (forall i :: 0 <= i < |ms| ==> Says(ms[i]) == Says(Dump(peerIp, peer)[i]))
            && Sync(buf, ms) == (buf + Acknowledged(Missing(buf, ms)), |Missing(buf, ms)|)
            && Sync(Sync(buf, ms).0, Received(t, peerIp, peer, ivs2)) == (Sync(buf, ms).0, 0)
  {
    hide Open, Seal;
    DumpDistinct(peerIp, peer);
    ReceivedSays(t, peerIp, peer, ivs);
    ReceivedSays(t, peerIp, peer, ivs2);
    var ms, ms2 := Received(t, peerIp, peer, ivs), Received(t, peerIp, peer, ivs2);
    SyncAppends(buf, ms);
    AppendedHeld(buf, ms, ms2);
    SyncIdle(Sync(buf, ms).0, ms2);
  }

  lemma ReceivedSays(t: Tables, me: nat, peer: Buf, ivs: seq<seq<byte>>)
    requires |ivs| == |Dump(me, peer)| && forall i :: 0 <= i < |ivs| ==> |ivs[i]| == 8
    ensures var ms := Received(t, me, peer, ivs);
            forall i :: 0 <= i < |ms| ==> Says(ms[i]) == Says(Dump(me, peer)[i]) && ms[i].id == Dump(me, peer)[i].id
  {
    hide Open, Seal;
    var d := Dump(me, peer);
    forall i | 0 <= i < |d| ensures var m := Received(t, me, peer, ivs)[i]; Says(m) == Says(d[i]) && m.id == d[i].id {
      OpenSeal(t, ivs[i], d[i]);
    }
  }

  lemma AppendedHeld(buf: Buf, ms: seq<Message>, ms2: seq<Message>)
    requires |ms| == |ms2| && forall i :: 0 <= i < |ms| ==> ms[i].id == ms2[i].id
    ensures forall i :: 0 <= i < |ms2| ==> Holds(buf + Acknowledged(Missing(buf, ms)), ms2[i].id)
  {
    var b := buf + Acknowledged(Missing(buf, ms));
    forall i | 0 <= i < |ms2| ensures Holds(b, ms2[i].id) {
      MissingCovers(buf, ms, i);
      if Holds(buf, ms[i].id) {
        HoldsMember(b, Find(buf, ms[i].id));
      } else {
        var k :| 0 <= k < |Missing(buf, ms)| && Missing(buf, ms)[k] == ms[i];
        HoldsMember(b, |buf| + k);
      }
    }
  }
}
