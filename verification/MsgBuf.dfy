/** msgbuf.c: the buffer on its linked list, with counters updated in place, and the client sockets. */
module MsgBufs {
  import opened Sequences
  import opened Messages
  import opened LinkedLists
  import opened Bytes
  import opened ChatCrypto
  import Buffer

  const MAXCLIENTS := 20

  /** `struct msg`; the message itself is never changed after msg_create. */
  class Msg {
    var count: nat
    const msg: Message

    constructor (m: Message)
      ensures count == 1 && msg == m
    {
      count, msg := 1, m;
    }
  }

  /** The entries as values. */
  ghost function Entries(ms: seq<Msg>): (buf: Buffer.Buf)
    reads ms
    ensures |buf| == |ms|
  {
    seq(|ms|, i requires 0 <= i < |ms| reads ms => Buffer.Entry(ms[i].count, ms[i].msg))
  }

  /** Open slots keep their socket unless the write to it failed. */
  function Surviving(slots: seq<int>, broken: set<int>): (r: seq<int>)
    ensures |r| == |slots|
  {
    seq(|slots|, i requires 0 <= i < |slots| => if slots[i] in broken then -1 else slots[i])
  }

  /** One copy of the message per open slot, in slot order; nothing reaches a broken socket. */
  function Written(slots: seq<int>, broken: set<int>, m: Message): seq<(int, Message)> {
    if |slots| == 0 then []
    else
      var s := slots[|slots| - 1];
      Written(slots[..|slots| - 1], broken, m) + if s != -1 && s !in broken then [(s, m)] else []
  }

  /** After a write every slot of a socket that failed is free and every other slot is as it was. */
  lemma SurvivingMeaning(slots: seq<int>, broken: set<int>, i: nat)
    requires i < |slots|
    ensures slots[i] in broken ==> Surviving(slots, broken)[i] == -1
    ensures slots[i] !in broken ==> Surviving(slots, broken)[i] == slots[i]
  {
  }

  lemma WrittenLast(front: seq<int>, s: int, broken: set<int>, m: Message)
    ensures Written(front + [s], broken, m) == Written(front, broken, m) + if s != -1 && s !in broken then [(s, m)] else []
  {
    assert (front + [s])[..|front|] == front;
  }

  /** Every slot that is open and whose socket takes the write accounts for one copy. */
  lemma {:induction false} WrittenMeaning(slots: seq<int>, broken: set<int>, m: Message, sock: int)
    ensures multiset(Written(slots, broken, m))[(sock, m)] == if sock == -1 || sock in broken then 0 else multiset(slots)[sock]
  {
    if |slots| == 0 {
      assert slots == [] && Written([], broken, m) == [];
    } else {
      var front, s := slots[..|slots| - 1], slots[|slots| - 1];
      assert slots == front + [s];
      WrittenMeaning(front, broken, m, sock);
      WrittenStep(front, s, broken, m, sock);
    }
  }

  lemma WrittenStep(front: seq<int>, s: int, broken: set<int>, m: Message, sock: int)
    ensures var passes := s != -1 && s !in broken;
            multiset(Written(front + [s], broken, m))[(sock, m)]
            == multiset(Written(front, broken, m))[(sock, m)] + if passes && s == sock then 1 else 0
    ensures multiset(front + [s])[sock] == multiset(front)[sock] + if s == sock then 1 else 0
  {
    hide Written;
    WrittenLast(front, s, broken, m);
    MultisetLast(front, s);
    var ws := Written(front, broken, m);
    MultisetLast(ws, (s, m));
    assert ws + [] == ws;
  }

  lemma MultisetLast<T>(s: seq<T>, x: T)
    ensures multiset(s + [x]) == multiset(s) + multiset{x}
  {
  }

  /** The number of slots that are not free. */
  lemma {:induction false} OpenSlotsMeaning(slots: seq<int>)
    ensures OpenSlots(slots) + multiset(slots)[-1] == |slots|
  {
    if |slots| > 0 {
      var n := |slots| - 1;
      OpenSlotsMeaning(slots[..n]);
      assert slots == slots[..n] + [slots[n]];
      MultisetLast(slots[..n], slots[n]);
    }
  }

  function OpenSlots(slots: seq<int>): nat {
    if |slots| == 0 then 0 else OpenSlots(slots[..|slots| - 1]) + if slots[|slots| - 1] != -1 then 1 else 0
  }

  /** The client side of msgbuf_add: which slots stay open and what is written. */
  class SockList {
    const slots: array<int>
    var log: seq<(int, Message)>

    ghost predicate Valid() {
      slots.Length == MAXCLIENTS
    }

    constructor ()
      ensures Valid() && fresh(slots) && log == [] && slots.Length == 20
      ensures slots[..] == seq(MAXCLIENTS, _ => -1)
    {
      slots := new int[MAXCLIENTS](_ => -1);
      log := [];
      new;
      assert slots[..] == seq(MAXCLIENTS, _ => -1);
    }

    /** msgbuf_addsock: a socket takes at most one slot. */
    method AddSock(sock: int) returns (ret: int)
      requires Valid()
      modifies slots
      ensures ret == if sock in old(slots[..]) || -1 in old(slots[..]) then 0 else -1
      ensures sock in old(slots[..]) || ret == -1 ==> slots[..] == old(slots[..])
      ensures sock !in old(slots[..]) && ret == 0 ==>
                exists i :: 0 <= i < slots.Length && old(slots[i]) == -1 && slots[..] == old(slots[..])[i := sock]
    {
      for i := 0 to MAXCLIENTS
        invariant forall j :: 0 <= j < i ==> slots[j] != sock
      {
        if slots[i] == sock {
          return 0;
        }
      }
      for i := 0 to MAXCLIENTS
        invariant forall j :: 0 <= j < i ==> slots[j] != -1
        invariant slots[..] == old(slots[..])
      {
        if slots[i] == -1 {
          slots[i] := sock;
          assert slots[..] == old(slots[..])[i := sock];
          return 0;
        }
      }
      return -1;
    }

    /** msgbuf_delsock */
    method DelSock(sock: int) returns (ret: int)
      requires Valid()
      modifies slots
      ensures ret == if sock in old(slots[..]) then 0 else -1
      ensures ret == -1 ==> slots[..] == old(slots[..])
      ensures ret == 0 ==> exists i :: 0 <= i < slots.Length && old(slots[i]) == sock && slots[..] == old(slots[..])[i := -1]
    {
      for i := 0 to MAXCLIENTS
        invariant forall j :: 0 <= j < i ==> slots[j] != sock
        invariant slots[..] == old(slots[..])
      {
        if slots[i] == sock {
          slots[i] := -1;
          assert slots[..] == old(slots[..])[i := -1];
          return 0;
        }
      }
      return -1;
    }

    /** msgbuf_write_socklist: the slots that were open are counted, whether the write went through or not. */
    method Write(me: nat, m: Message, count: nat, broken: set<int>) returns (ret: nat)
      requires Valid()
      modifies this, slots
      ensures if Buffer.Released(me, m.id, count)
              then ret == OpenSlots(old(slots[..])) && log == old(log) + Written(old(slots[..]), broken, m)
                   && slots[..] == Surviving(old(slots[..]), broken)
              else ret == 0 && log == old(log) && slots[..] == old(slots[..])
    {
      ret := 0;
      if m.id.ip == me {
        if count <= 1 {
          return 0;
        }
      }
      ghost var before, log0 := slots[..], log;
      var i := 0;
      while i < MAXCLIENTS
        invariant 0 <= i <= MAXCLIENTS && ret == OpenSlots(before[..i])
        invariant log == log0 + Written(before[..i], broken, m)
        invariant forall j :: 0 <= j < MAXCLIENTS ==> slots[j] == if j < i && before[j] in broken then -1 else before[j]
      {
        assert before[..i + 1][..i] == before[..i];
        if slots[i] != -1 {
          if slots[i] in broken {
            slots[i] := -1;
          } else {
            log := log + [(slots[i], m)];
          }
          ret := ret + 1;
        }
        i := i + 1;
      }
      assert before[..i] == before;
      assert slots[..] == Surviving(before, broken);
    }
  }

  class MsgBuf {
    const me: nat
    const socks: SockList
    var list: LinkedList?<Msg>
    /** What the list holds. */
    ghost var msgs: seq<Msg>
    ghost var Repr: set<object>

    /** The list part: its cells are ours and carry `msgs`. */
    ghost predicate Listed()
      reads this, Repr
    {
      && this in Repr
      && (list != null ==> list in Repr)
      && (list != null ==> forall e :: e in list.spine ==> e in Repr)
      && Ok(list) && Contents(list) == msgs
    }

    ghost predicate Valid()
      reads this, Repr
      ensures Valid() ==> this in Repr
    {
      && Listed()
      && socks !in Repr && socks.slots !in Repr && socks.Valid()
      && (forall m :: m in msgs ==> m in Repr)
      && (forall i, j :: 0 <= i < j < |msgs| ==> msgs[i] != msgs[j])
    }

    /** The buffer as a value. */
    ghost function Abs(): Buffer.Buf
      reads this, msgs
    {
      Entries(msgs)
    }

    /** msgbuf_init */
    constructor (ip: nat)
      ensures Valid() && fresh(Repr) && Abs() == [] && me == ip
      ensures socks.log == [] && socks.slots[..] == seq(MAXCLIENTS, _ => -1)
    {
      me, list, msgs := ip, null, [];
      var s := new SockList();
      socks := s;
      Repr := {this};
    }

    /** linkedlist_append of a new entry. */
    method Push(m: Msg)
      requires Valid() && m !in msgs && m !in Repr
      modifies Repr
      ensures Valid() && fresh(Repr - old(Repr) - {m})
      ensures msgs == old(msgs) + [m] && list != null
      ensures forall x: Msg :: x in msgs ==> x.count == old(x.count)
    {
      hide Linked, DataOf;
      list := LinkedLists.Append(list, m);
      Repr := Repr + Footprint(list) + {m};
      msgs := msgs + [m];
    }

    /** linkedlist_unlink of the entry at position k. */
    method Drop(ent: ListEnt<Msg>, ghost k: nat)
      requires Valid() && list != null && k < |list.spine| && ent == list.spine[k]
      modifies Repr
      ensures Valid() && fresh(Repr - old(Repr))
      ensures k < |old(msgs)| && msgs == RemoveAt(old(msgs), k) && Abs() == RemoveAt(old(Abs()), k)
    {
      hide Linked, DataOf;
      ghost var before := Abs();
      RemoveAtKeeps(msgs, k);
      list := Unlink(list, ent, k);
      assert list != null ==> forall e :: e in list.spine ==> e as object in Footprint(list);
      msgs := RemoveAt(msgs, k);
      assert Abs() == RemoveAt(before, k);
    }

    /** msgbuf_append */
    method Append(m: Msg)
      requires Valid() && m !in msgs && m !in Repr
      modifies Repr, m
      ensures Valid() && fresh(Repr - old(Repr) - {m})
      ensures Abs() == Buffer.Append(old(Abs()), old(Buffer.Entry(m.count, m.msg)))
    {
      hide Linked, DataOf;
      ghost var before, e := Abs(), Buffer.Entry(m.count, m.msg);
      Push(m);
      assert Abs() == before + [e];
      if Elements(list) > Buffer.MAXMSGS {
        Walk(0);
        Drop(list.head, 0);
      }
    }

    /** linkedlist_exists with msgcmp, which compares ids only. */
    method Locate(id: MsgId) returns (ent: ListEnt?<Msg>, ghost k: nat)
      requires Valid()
      ensures k == Buffer.Find(Abs(), id) && (ent == null <==> k == |msgs|)
      ensures ent != null ==> ent.data == msgs[k] && list != null && k < |list.spine| && ent == list.spine[k]
    {
      hide Linked, DataOf;
      var matches := (y: Msg) => y.msg.id == id;
      ent, k := Exists(list, matches);
      if ent == null {
        k := |msgs|;
      }
      forall i | 0 <= i < k ensures Abs()[i].msg.id != id {
        assert !matches(Contents(list)[i]);
      }
      Buffer.FindUnique(Abs(), id, k);
    }

    /** msgbuf_get */
    method Get(id: MsgId) returns (x: Msg?, ghost k: nat)
      requires Valid()
      ensures k == Buffer.Find(Abs(), id) && (x == null <==> k == |msgs|)
      ensures x != null ==> x == msgs[k]
    {
      var ent;
      ent, k := Locate(id);
      x := null;
      if ent != null {
        x := ent.data;
      }
    }

    /** msgbuf_exist */
    method Exist(m: Message) returns (count: nat)
      requires Valid()
      ensures count == Buffer.Count(Abs(), m.id)
    {
      var x, k := Get(m.id);
      count := 0;
      if x != null {
        count := x.count;
      }
    }

    /** One more sighting of the entry at position k. */
    method Bump(x: Msg, ghost k: nat)
      requires Valid() && k < |msgs| && x == msgs[k]
      modifies x
      ensures Valid() && Repr == old(Repr) && msgs == old(msgs)
      ensures x.count == old(x.count) + 1
      ensures Abs() == old(Abs())[k := old(Abs())[k].(count := x.count)]
    {
      hide Linked, DataOf;
      ghost var before := Abs();
      x.count := x.count + 1;
      assert Contents(list) == msgs;
      assert Abs() == before[k := before[k].(count := x.count)];
    }

    /** msg_create and msgbuf_append */
    method Insert(m: Message, count: nat)
      requires Valid()
      modifies Repr
      ensures Valid() && fresh(Repr - old(Repr))
      ensures Abs() == Buffer.Append(old(Abs()), Buffer.Entry(count, m))
    {
      hide Linked, DataOf, Buffer.Append;
      ghost var before := Abs();
      var mb := new Msg(m);
      mb.count := count;
      assert Abs() == before && Contents(list) == msgs;
      Append(mb);
    }

    /** The locked part of msgbuf_add. */
    method CountIn(m: Message) returns (count: nat, known: bool)
      requires Valid()
      modifies Repr
      ensures Valid() && fresh(Repr - old(Repr))
      ensures (Abs(), count) == Buffer.Add(old(Abs()), m) && known == Buffer.Holds(old(Abs()), m.id)
    {
      hide Linked, DataOf, Buffer.Append;
      var x, k := Get(m.id);
      if x != null {
        Bump(x, k);
        return x.count, true;
      }
      Insert(m, 1);
      return 1, false;
    }

    /** msgbuf_add: -1 for a type nobody knows, else how often the message has been seen. */
    method Add(m: Message, broken: set<int>) returns (ret: int)
      requires Valid()
      modifies Repr, socks, socks.slots
      ensures Valid() && fresh(Repr - old(Repr))
      ensures if ValidKind(m.kind) then ret >= 0 && (Abs(), ret as nat) == Buffer.Add(old(Abs()), m)
              else ret == -1 && Abs() == old(Abs())
      ensures if ValidKind(m.kind) && Buffer.Writes(me, old(Abs()), m)
              then socks.log == old(socks.log) + Written(old(socks.slots[..]), broken, m)
                   && socks.slots[..] == Surviving(old(socks.slots[..]), broken)
              else socks.log == old(socks.log) && socks.slots[..] == old(socks.slots[..])
    {
      hide Linked, DataOf, Buffer.Append, Buffer.Find, Written, Surviving;
      if !ValidKind(m.kind) {
        return -1;
      }
      var count, known := CountIn(m);
      ghost var after := Abs();
      var n: nat;
      if known {
        if count == 2 && m.id.ip == me {
          n := socks.Write(me, m, count, broken);
        }
      } else {
        n := socks.Write(me, m, count, broken);
      }
      assert Abs() == after && Contents(list) == msgs;
      return count;
    }

    /** msgbuf_delete: 1 when the message was held. */
    method Delete(m: Message) returns (ret: int)
      requires Valid()
      modifies Repr
      ensures Valid() && fresh(Repr - old(Repr))
      ensures Abs() == Buffer.Delete(old(Abs()), m.id)
      ensures ret == if Buffer.Holds(old(Abs()), m.id) then 1 else 0
    {
      hide Linked, DataOf, Buffer.Find;
      ret := 0;
      var ent, k := Locate(m.id);
      if ent != null {
        Drop(ent, k);
        ret := 1;
      }
    }

    /** One turn of the msgbuf_sync loop. */
    method SyncTurn(msg: Message) returns (taken: bool)
      requires Valid()
      modifies Repr
      ensures Valid() && fresh(Repr - old(Repr))
      ensures Abs() == Buffer.SyncOne(old(Abs()), msg) && taken == !Buffer.Holds(old(Abs()), msg.id)
    {
      hide Linked, DataOf, Buffer.Append, Buffer.Find;
      var x, k := Get(msg.id);
      taken := x == null;
      if taken {
        Insert(msg, 2);
      }
    }

    /** The msgbuf_sync loop over the messages a peer sent, as they come out of decryption. */
    method SyncLoop(stream: seq<Message>) returns (count: nat)
      requires Valid()
      modifies Repr
      ensures Valid() && fresh(Repr - old(Repr))
      ensures (Abs(), count) == Buffer.Sync(old(Abs()), stream)
    {
      hide Linked, DataOf, Valid, Buffer.Append, Buffer.Find, Buffer.Sync, Buffer.SyncOne;
      ghost var before := Abs();
      count := 0;
      var i := 0;
      assert stream[0..] == stream;
      while i < |stream|
        invariant 0 <= i <= |stream|
        invariant Valid() && fresh(Repr - old(Repr))
        invariant var (b, n) := Buffer.Sync(Abs(), stream[i..]); Buffer.Sync(before, stream) == (b, count + n)
      {
        Buffer.SyncStep(Abs(), stream, i);
        var taken := SyncTurn(stream[i]);
        if taken {
          count := count + 1;
        }
        i := i + 1;
      }
      Buffer.SyncIdle(Abs(), stream[i..]);
    }

    /** What a walk along the next fields meets. */
    lemma Walk(k: nat)
      requires Valid() && list != null && (k == 0 || k < |msgs|)
      ensures k < |msgs| == |list.spine| && list.head == list.spine[0] && list.spine[k].data == msgs[k]
      ensures list.spine[k].next == if k + 1 < |msgs| then list.spine[k + 1] else null
    {
      assert msgs[k] == Contents(list)[k];
    }

    /** msgbuf_dump to a peer that takes at most `limit` messages; `random` are the IVs drawn. What goes out is encrypted when asked
        for, message by message, unless no key is set. The list must not be empty: its head is read unchecked. */
    method Dump(limit: nat, encrypt: bool, crypto: Crypto, random: seq<seq<byte>>) returns (ret: nat, out: seq<Message>)
      requires Valid() && list != null && crypto.Valid() && |random| >= |Abs()| && forall i :: 0 <= i < |random| ==> |random[i]| == 8
      ensures var d := Buffer.Dump(me, Abs());
              && ret == |out| == (if |d| <= limit then |d| else limit)
              && forall i :: 0 <= i < ret ==>
                   out[i] == if encrypt && crypto.keySet then Seal(crypto.bkey.T(), random[i], d[i]) else d[i]
    {
      hide Linked, DataOf, Buffer.Dump, Seal;
      ret, out := 0, [];
      var ent := list.head;
      ghost var k := 0;
      ghost var buf := Abs();
      ghost var d := Buffer.Dump(me, buf);
      Walk(0);
      assert buf[0..] == buf;
      while ent != null
        invariant k <= |msgs| && ent == if k < |msgs| then list.spine[k] else null
        invariant ret == |out| <= limit && ret <= k && |d| == ret + |Buffer.Dump(me, buf[k..])|
        invariant d[ret..] == Buffer.Dump(me, buf[k..])
        invariant forall i :: 0 <= i < ret ==>
                    out[i] == if encrypt && crypto.keySet then Seal(crypto.bkey.T(), random[i], d[i]) else d[i]
        decreases |msgs| - k
      {
        Walk(k);
        Buffer.DumpStep(me, buf, k);
        var m := ent.data;
        if m.msg.id.ip == me && m.count <= 1 {
          ent := ent.next;
          k := k + 1;
          continue;
        }
        if |out| == limit {
          return;
        }
        var mc := m.msg;
        if encrypt {
          mc := crypto.EncryptCopy(mc, random[ret]);
        }
        out := out + [mc];
        ent := ent.next;
        k := k + 1;
        ret := ret + 1;
      }
      DumpEnd(buf);
    }

    lemma DumpEnd(buf: Buffer.Buf)
      ensures Buffer.Dump(me, buf[|buf|..]) == []
    {
    }
  }
}
