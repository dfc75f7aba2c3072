/** The read loop and the send loop of chat_mcast.c, on raw datagrams, the message buffer object and the key object. */
module McastNodes {
  import opened Bytes
  import opened Blowfish
  import opened Messages
  import opened Mcast
  import opened ChatCrypto
  import opened MsgBufs
  import Buffer
  import LocalRuns

  /** A datagram as recvfrom delivers it, with the random draw and the client sockets that will fail while it is handled. */
  datatype Datagram = Datagram(src: nat, raw: seq<byte>, r: int, broken: set<int>)

  /** What the loops depend on but never change. */
  datatype Config = Config(me: nat, ready: bool, t: Tables, dc: seq<byte>)

  /** The client sockets by slot, and everything written to them so far. */
  datatype Clients = Clients(slots: seq<int>, log: seq<(int, Message)>)

  /** The buffer, everything put on the air so far, whether the read loop still runs, and the clients. */
  datatype State = State(buf: Buffer.Buf, air: seq<seq<byte>>, listening: bool, clients: Clients)

  /** What the datagram means for the clients: the writes it causes, and the slots of sockets that fail become free. */
  function Serve(c: Config, b: Buffer.Buf, d: Datagram, cl: Clients): Clients {
    if |d.raw| != MSGSIZE || !c.ready then cl
    else
      var v, e := LocalRuns.Local(c.me, c.t), LocalRuns.Datagram(d.src, Parse(d.raw), d.r, cl.slots, d.broken);
      Clients(if LocalRuns.ReachesClients(v, b, e) then Surviving(cl.slots, d.broken) else cl.slots,
              cl.log + LocalRuns.WrittenBy(v, b, e))
  }

  /** One turn of the read loop: short datagrams, and all datagrams while no key is set, are dropped. */
  function Handle(c: Config, s: State, d: Datagram): (r: State)
    ensures r.listening == s.listening
  {
    if |d.raw| != MSGSIZE || !c.ready then s
    else
      var o := Receive(c.me, c.t, s.buf, d.src, Parse(d.raw), d.r);
      s.(buf := o.buf, air := s.air + Emitted(o, d.raw, c.dc), clients := Serve(c, s.buf, d, s.clients))
  }

  /** The read loop ends for good at the first empty datagram. */
  function HandleAll(c: Config, s: State, ds: seq<Datagram>): State
    decreases |ds|
  {
    if |ds| == 0 || !s.listening then s
    else if |ds[0].raw| == 0 then s.(listening := false)
    else HandleAll(c, Handle(c, s, ds[0]), ds[1..])
  }

  lemma {:induction false} HandleSnoc(c: Config, s: State, ds: seq<Datagram>, n: nat)
    requires n < |ds| && s.listening && forall i :: 0 <= i <= n ==> |ds[i].raw| > 0
    ensures HandleAll(c, s, ds[..n + 1]) == Handle(c, HandleAll(c, s, ds[..n]), ds[n])
    decreases n
  {
    hide Receive, Serve, Emitted, Parse;
    if n == 0 {
      assert ds[..1][1..] == [];
    } else {
      assert ds[..n + 1][1..] == ds[1..][..n] && ds[..n][1..] == ds[1..][..n - 1];
      HandleSnoc(c, Handle(c, s, ds[0]), ds[1..], n - 1);
    }
  }

  lemma {:induction false} HandleStop(c: Config, s: State, ds: seq<Datagram>, n: nat)
    requires s.listening && n <= |ds| && (n < |ds| ==> |ds[n].raw| == 0) && forall i :: 0 <= i < n ==> |ds[i].raw| > 0
    ensures HandleAll(c, s, ds) == HandleAll(c, s, ds[..n]).(listening := n == |ds|)
    ensures HandleAll(c, s, ds[..n]).listening
    decreases n
  {
    hide Receive, Serve, Emitted, Parse;
    if n > 0 {
      assert ds[..n][1..] == ds[1..][..n - 1];
      HandleStop(c, Handle(c, s, ds[0]), ds[1..], n - 1);
    }
  }

  /** The state after try i went out and the datagrams arriving during its wait were handled. */
  function WaitState(c: Config, s: State, mc: seq<byte>, arrivals: seq<seq<Datagram>>, i: nat): State
    requires i <= |arrivals|
  {
    if i == 0 then s
    else
      var b := WaitState(c, s, mc, arrivals, i - 1);
      HandleAll(c, b.(air := b.air + [mc]), arrivals[i - 1])
  }

  /** The counts msgbuf_exist would report after each wait. */
  function CountsSeen(c: Config, s: State, mc: seq<byte>, arrivals: seq<seq<Datagram>>, id: MsgId): (counts: seq<nat>)
    ensures |counts| == |arrivals|
  {
    seq(|arrivals|, i requires 0 <= i < |arrivals| => Buffer.Count(WaitState(c, s, mc, arrivals, i + 1).buf, id))
  }

  /** The state at the end of the mcast_send loop, after so many transmissions. */
  function LoopState(c: Config, s: State, mc: seq<byte>, arrivals: seq<seq<Datagram>>, wantack: bool, sends: nat): State
    requires sends <= |arrivals|
  {
    if wantack then WaitState(c, s, mc, arrivals, sends)
    else s.(air := s.air + if sends == 1 then [mc] else [])
  }

  /** The retransmission loop before try n, or after all tries. */
  ghost predicate Retrying(c: Config, s: State, mc: seq<byte>, arrivals: seq<seq<Datagram>>, id: MsgId, wantack: bool, ok: seq<bool>,
                           n: nat, now: State)
    requires |ok| == |arrivals| == MSG_RESEND_TIMES
  {
    var counts := CountsSeen(c, s, mc, arrivals, id);
    && 1 <= n <= MSG_RESEND_TIMES + 1 && (n > 1 ==> wantack)
    && now == WaitState(c, s, mc, arrivals, n - 1)
    && Outlook(1, wantack, ok, counts)
       == if n > MSG_RESEND_TIMES then (-1, n - 1) else var (r, k) := Outlook(n, wantack, ok, counts); (r, k + n - 1)
  }

  lemma StartRetrying(c: Config, s: State, mc: seq<byte>, arrivals: seq<seq<Datagram>>, id: MsgId, wantack: bool, ok: seq<bool>)
    requires |ok| == |arrivals| == MSG_RESEND_TIMES
    ensures Retrying(c, s, mc, arrivals, id, wantack, ok, 1, s)
  {
  }

  lemma EndRetrying(c: Config, s: State, mc: seq<byte>, arrivals: seq<seq<Datagram>>, id: MsgId, wantack: bool, ok: seq<bool>, now: State)
    requires |ok| == |arrivals| == MSG_RESEND_TIMES
    requires Retrying(c, s, mc, arrivals, id, wantack, ok, MSG_RESEND_TIMES + 1, now)
    ensures Outlook(1, wantack, ok, CountsSeen(c, s, mc, arrivals, id)) == (-1, MSG_RESEND_TIMES)
    ensures now == LoopState(c, s, mc, arrivals, wantack, MSG_RESEND_TIMES)
  {
  }

  /** One try takes the loop on or ends it, as Outlook foresees. */
  lemma TryOnce(c: Config, s: State, mc: seq<byte>, arrivals: seq<seq<Datagram>>, id: MsgId, wantack: bool, ok: seq<bool>,
                n: nat, now: State, now': State, call: Call)
    requires |ok| == |arrivals| == MSG_RESEND_TIMES && n <= MSG_RESEND_TIMES
    requires Retrying(c, s, mc, arrivals, id, wantack, ok, n, now)
    requires !ok[n - 1] || !wantack ==> call == AfterSend(n, wantack, ok[n - 1])
    requires !ok[n - 1] ==> now' == now
    requires ok[n - 1] && !wantack ==> now' == now.(air := now.air + [mc])
    requires ok[n - 1] && wantack ==> now' == HandleAll(c, now.(air := now.air + [mc]), arrivals[n - 1])
                                      && call == AfterWait(n, Buffer.Count(now'.buf, id))
    ensures var sends := if ok[n - 1] then n else n - 1;
            && (call.Returned? ==> Outlook(1, wantack, ok, CountsSeen(c, s, mc, arrivals, id)) == (call.ret, sends)
                                   && now' == LoopState(c, s, mc, arrivals, wantack, sends))
            && (!call.Returned? ==> sends == n && Retrying(c, s, mc, arrivals, id, wantack, ok, n + 1, now'))
  {
    hide HandleAll, Buffer.Count;
    assert now.air + [] == now.air;
  }

  /** A failed mcast_send deletes its message. */
  function Settle(s: State, id: MsgId, ret: int): State {
    if ret < 0 then s.(buf := Buffer.Delete(s.buf, id)) else s
  }

  /** What the loop body does with a message it counts is what the value-level account says. */
  lemma CountedMeans(c: Config, b: Buffer.Buf, b': Buffer.Buf, seen: nat, d: Datagram, msg: Message, cl: Clients)
    requires |d.raw| == MSGSIZE && c.ready && msg == Open(c.t, Parse(d.raw)) && ValidKind(msg.kind)
    requires !Loopback(c.me, b, d.src, msg.id) && (b', seen) == Buffer.Add(b, msg)
    ensures Receive(c.me, c.t, b, d.src, Parse(d.raw), d.r)
            == Outcome(b', Forwards(c.me, d.src, msg.id.ip, seen, d.r), msg.kind == CHAT_DISCOVER && seen == 1)
    ensures Serve(c, b, d, cl) == if Buffer.Writes(c.me, b, msg)
                                  then Clients(Surviving(cl.slots, d.broken), cl.log + Written(cl.slots, d.broken, msg)) else cl
  {
    hide Parse, Open, Forwards, Buffer.Add, Surviving, Written;
    assert cl.log + [] == cl.log;
  }

  lemma IgnoredMeans(c: Config, b: Buffer.Buf, d: Datagram, msg: Message, cl: Clients)
    requires |d.raw| == MSGSIZE && c.ready && msg == Open(c.t, Parse(d.raw))
    requires !ValidKind(msg.kind) || Loopback(c.me, b, d.src, msg.id)
    ensures Receive(c.me, c.t, b, d.src, Parse(d.raw), d.r) == Outcome(b, false, false) && Serve(c, b, d, cl) == cl
  {
    hide Parse, Open;
    assert cl.log + [] == cl.log;
  }

  /** A failed call leaves nothing of its message in the buffer and everything else as the loop left it; one that succeeds leaves
      everything as the loop left it. */
  lemma SettleMeaning(s: State, id: MsgId, ret: int, other: MsgId)
    requires Buffer.Distinct(s.buf)
    ensures var u := Settle(s, id, ret);
            && u.air == s.air && u.clients == s.clients && u.listening == s.listening
            && (ret >= 0 ==> u.buf == s.buf)
            && (ret < 0 ==> Buffer.Count(u.buf, other) == if other == id then 0 else Buffer.Count(s.buf, other))
            && (ret < 0 ==> !Buffer.Holds(u.buf, id) && forall e :: e in u.buf <==> e in s.buf && e.msg.id != id)
  {
    if ret < 0 {
      Buffer.DeleteCounts(s.buf, id, other);
      Buffer.DeleteEntries(s.buf, id);
    }
  }

  function Repeated<T>(x: T, n: nat): (s: seq<T>)
    ensures |s| == n
  {
    seq(n, _ => x)
  }

  /** When nothing arrives, all that a call does to its node is to put its datagram on the air as often as it transmitted. */
  lemma {:induction false} QuietLoop(c: Config, s: State, mc: seq<byte>, arrivals: seq<seq<Datagram>>, wantack: bool, sends: nat)
    requires sends <= |arrivals| && (!wantack ==> sends <= 1) && forall i :: 0 <= i < |arrivals| ==> arrivals[i] == []
    ensures LoopState(c, s, mc, arrivals, wantack, sends) == s.(air := s.air + Repeated(mc, sends))
  {
    if sends == 0 {
      assert s.air + Repeated(mc, 0) == s.air;
      assert s.air + [] == s.air;
    } else if wantack {
      QuietLoop(c, s, mc, arrivals, wantack, sends - 1);
      assert s.air + Repeated(mc, sends - 1) + [mc] == s.air + Repeated(mc, sends);
    } else {
      assert Repeated(mc, 1) == [mc];
    }
  }

  /** Datagrams of another size change nothing, nor do any while no key is set. */
  lemma DroppedMeans(c: Config, s: State, d: Datagram)
    requires |d.raw| != 100 || !c.ready
    ensures Handle(c, s, d) == s && Serve(c, s.buf, d, s.clients) == s.clients
  {
  }

  lemma HandledMeans(c: Config, s: State, d: Datagram, b: Buffer.Buf, fwd: bool, reply: bool, cl: Clients)
    requires |d.raw| == MSGSIZE && c.ready && cl == Serve(c, s.buf, d, s.clients)
    requires Outcome(b, fwd, reply) == Receive(c.me, c.t, s.buf, d.src, Parse(d.raw), d.r)
    ensures Handle(c, s, d)
            == s.(buf := b, air := s.air + (if fwd then [d.raw] else []) + (if reply then [c.dc] else []), clients := cl)
  {
    hide Receive, Serve, Parse;
    var f, r := if fwd then [d.raw] else [], if reply then [c.dc] else [];
    assert s.air + f + r == s.air + (f + r);
  }

  class McastNode {
    const buf: MsgBuf
    const crypto: Crypto
    var dc: seq<byte>
    var air: seq<seq<byte>>
    /** Does the reader thread still run? */
    var listening: bool

    ghost predicate Valid()
      reads this, buf, buf.Repr, crypto
    {
      && buf.Valid() && crypto.Valid() && |dc| == MSGSIZE
      && this !in buf.Repr && crypto !in buf.Repr && crypto.key !in buf.Repr
      && (crypto.bkey != null ==> crypto.bkey !in buf.Repr && crypto.bkey.pbox !in buf.Repr && crypto.bkey.sbox !in buf.Repr)
    }

    ghost function Conf(): Config
      requires Valid()
      reads this, buf, buf.Repr, crypto, if crypto.bkey == null then {} else {crypto.bkey.pbox, crypto.bkey.sbox}
    {
      Config(buf.me, crypto.keySet, if crypto.bkey == null then Tables(seq(18, _ => 0), seq(4, _ => ZERO_BOX)) else crypto.bkey.T(), dc)
    }

    ghost function Now(): State
      reads this, buf, buf.msgs, buf.socks, buf.socks.slots
    {
      State(buf.Abs(), air, listening, Clients(buf.socks.slots[..], buf.socks.log))
    }

    /** Before chat_mcast_reader_start has prepared it, the discovery reply is all zero, a type every receiver drops. */
    constructor (ip: nat)
      ensures Valid() && buf.me == ip && !crypto.keySet
      ensures Now() == State([], [], true, Clients(seq(MAXCLIENTS, _ => -1), []))
    {
      var b := new MsgBuf(ip);
      var k := new Crypto();
      buf, crypto := b, k;
      dc := seq(MSGSIZE, _ => 0);
      air, listening := [], true;
      new;
      assert buf.socks.slots[..] == seq(MAXCLIENTS, _ => -1);
    }

    /** The copy of a datagram that is decrypted; the original is kept for forwarding. */
    method Unseal(raw: seq<byte>) returns (ret: int, msg: Message)
      requires crypto.Valid() && |raw| == MSGSIZE
      ensures ret == if crypto.keySet then 0 else -1
      ensures crypto.keySet ==> msg == Open(crypto.bkey.T(), Parse(raw))
    {
      hide LittleEndian;
      var m := new byte[MSGSIZE](i requires 0 <= i < MSGSIZE => raw[i]);
      assert m[..] == raw;
      ret := crypto.Decrypt(m);
      msg := Parse(m[..]);
    }

    /** The chain of forwarding conditions. */
    method ShouldForward(seen: nat, src: nat, origin: nat, fromself: bool, r: int) returns (fwd: bool)
      requires fromself == (src == buf.me)
      ensures fwd == Forwards(buf.me, src, origin, seen, r)
    {
      fwd := false;
      if seen >= 1 && seen <= 5 {
        fwd := true;
      }
      if !fwd {
        if seen > 1 && src == origin {
          fwd := true;
        }
      }
      if !fwd {
        if seen > 1 && seen <= MSG_RESEND_TIMES {
          var p := seen * 10;
          if r <= p {
            fwd := true;
          }
        }
      }
      if fromself {
        fwd := false;
      }
    }

    /** msgbuf_add, which leaves keys and air alone. */
    method Count(msg: Message, broken: set<int>) returns (seen: nat)
      requires Valid() && ValidKind(msg.kind)
      modifies buf.Repr, buf.socks, buf.socks.slots
      ensures Valid() && Conf() == old(Conf()) && fresh(buf.Repr - old(buf.Repr)) && air == old(air)
      ensures (buf.Abs(), seen) == Buffer.Add(old(buf.Abs()), msg)
      ensures buf.socks.log == old(buf.socks.log) +
                if Buffer.Writes(buf.me, old(buf.Abs()), msg) then Written(old(buf.socks.slots[..]), broken, msg) else []
      ensures buf.socks.slots[..] == if Buffer.Writes(buf.me, old(buf.Abs()), msg) then Surviving(old(buf.socks.slots[..]), broken)
                                     else old(buf.socks.slots[..])
    {
      hide Buffer.Add, Buffer.Writes, Written, Surviving;
      ghost var t := if crypto.bkey == null then Tables(seq(18, _ => 0), seq(4, _ => ZERO_BOX)) else crypto.bkey.T();
      var n := buf.Add(msg, broken);
      assert crypto.bkey != null ==> crypto.bkey.T() == t;
      seen := n;
    }

    /** The loop body on the decrypted message: count it, then decide. */
    method CountAndDecide(d: Datagram, msg: Message) returns (fwd: bool, reply: bool)
      requires Valid() && |d.raw| == MSGSIZE && crypto.keySet
      requires msg == Open(crypto.bkey.T(), Parse(d.raw))
      modifies buf.Repr, buf.socks, buf.socks.slots
      ensures Valid() && Conf() == old(Conf()) && fresh(buf.Repr - old(buf.Repr)) && air == old(air)
      ensures Outcome(buf.Abs(), fwd, reply) == Receive(buf.me, Conf().t, old(buf.Abs()), d.src, Parse(d.raw), d.r)
      ensures Now().clients == Serve(Conf(), old(buf.Abs()), d, old(Now()).clients)
    {
      hide Buffer.Add, Parse, Open, Forwards, Surviving, Written, Receive, Serve, Buffer.Writes, Buffer.Count;
      ghost var c, b, cl := Conf(), buf.Abs(), Now().clients;
      if !ValidKind(msg.kind) {
        IgnoredMeans(c, b, d, msg, cl);
        return false, false;
      }
      var fromself := d.src == buf.me;
      var held := buf.Exist(msg);
      if held > 0 {
        if fromself && msg.id.ip == buf.me {
          IgnoredMeans(c, b, d, msg, cl);
          return false, false;
        }
      }
      var seen := Count(msg, d.broken);
      CountedMeans(c, b, buf.Abs(), seen, d, msg, cl);
      fwd := ShouldForward(seen, d.src, msg.id.ip, fromself, d.r);
      reply := msg.kind == CHAT_DISCOVER && seen == 1;
    }

    /** One datagram of the mcast_read loop. */
    method OnDatagram(d: Datagram)
      requires Valid()
      modifies this`air, buf.Repr, buf.socks, buf.socks.slots
      ensures Valid() && Conf() == old(Conf()) && fresh(buf.Repr - old(buf.Repr))
      ensures Now() == Handle(Conf(), old(Now()), d)
    {
      hide Receive, Parse, Open, Serve, Emitted;
      if |d.raw| != MSGSIZE {
        return;
      }
      var ret, msg := Unseal(d.raw);
      if ret < 0 {
        return;
      }
      ghost var c, s := Conf(), Now();
      var fwd, reply := CountAndDecide(d, msg);
      ghost var b, cl := buf.Abs(), Now().clients;
      air := air + (if fwd then [d.raw] else []) + (if reply then [dc] else []);
      assert Conf() == c && buf.Abs() == b && Now().clients == cl && buf.Valid();
      HandledMeans(c, s, d, b, fwd, reply, cl);
    }

    /** The read loop ends. */
    method Stop()
      requires Valid()
      modifies this`listening
      ensures Valid() && Conf() == old(Conf()) && Now() == old(Now()).(listening := false)
    {
      listening := false;
    }

    /** The mcast_read loop over what arrives, as long as it runs. */
    method McastRead(ds: seq<Datagram>)
      requires Valid()
      modifies this`air, this`listening, buf.Repr, buf.socks, buf.socks.slots
      ensures Valid() && Conf() == old(Conf()) && fresh(buf.Repr - old(buf.Repr))
      ensures Now() == HandleAll(Conf(), old(Now()), ds)
    {
      hide Valid, Handle, Conf, Buffer.Count;
      if !listening {
        return;
      }
      ghost var c, s := Conf(), Now();
      var i := 0;
      assert ds[..0] == [];
      while i < |ds| && |ds[i].raw| > 0
        invariant 0 <= i <= |ds|
        invariant Valid() && Conf() == c && fresh(buf.Repr - old(buf.Repr))
        invariant Now() == HandleAll(c, s, ds[..i])
        invariant forall k :: 0 <= k < i ==> |ds[k].raw| > 0
      {
        OnDatagram(ds[i]);
        HandleSnoc(c, s, ds, i);
        i := i + 1;
      }
      HandleStop(c, s, ds, i);
      if i < |ds| {
        Stop();
      }
    }

    /** chat_mcast_reader_start prepares the reply to discovery messages. */
    method SetDiscovery(d: seq<byte>, random: seq<byte>)
      requires Valid() && |d| == MSGSIZE && |random| == 8
      modifies this`dc
      ensures Valid() && Now() == old(Now())
      ensures crypto.keySet ==> Parse(dc) == Seal(crypto.bkey.T(), random, Parse(d))
      ensures !crypto.keySet ==> dc == d
    {
      hide Parse, Seal;
      dc := SealCopy(d, random);
    }

    /** The copy of a message that is encrypted for the air. Without a key it stays as it is, the error is not looked at. */
    method SealCopy(raw: seq<byte>, random: seq<byte>) returns (mc: seq<byte>)
      requires crypto.Valid() && |raw| == MSGSIZE && |random| == 8
      ensures |mc| == MSGSIZE
      ensures crypto.keySet ==> Parse(mc) == Seal(crypto.bkey.T(), random, Parse(raw))
      ensures !crypto.keySet ==> mc == raw
    {
      hide Parse, Seal, Valid;
      var m := new byte[MSGSIZE](i requires 0 <= i < MSGSIZE => raw[i]);
      assert m[..] == raw;
      var ret := crypto.Encrypt(m, random);
      mc := m[..];
    }

    /** The body of the mcast_send loop: try number n, and the wait in which the read loop runs on. */
    method Try(mc: seq<byte>, m: Message, n: nat, wantack: bool, ok: bool, ds: seq<Datagram>) returns (call: Call)
      requires Valid()
      modifies this`air, this`listening, buf.Repr, buf.socks, buf.socks.slots
      ensures Valid() && Conf() == old(Conf()) && fresh(buf.Repr - old(buf.Repr))
      ensures !ok || !wantack ==> call == AfterSend(n, wantack, ok)
      ensures !ok ==> Now() == old(Now())
      ensures ok && !wantack ==> Now() == old(Now()).(air := old(Now()).air + [mc])
      ensures ok && wantack ==> Now() == HandleAll(Conf(), old(Now()).(air := old(Now()).air + [mc]), ds)
                                && call == AfterWait(n, Buffer.Count(Now().buf, m.id))
    {
      hide HandleAll;
      if !ok {
        return Returned(-1);
      }
      ghost var c, b := Conf(), buf.Abs();
      air := air + [mc];
      assert Conf() == c && buf.Valid() && buf.Abs() == b;
      if !wantack {
        return Returned(0);
      }
      McastRead(ds);
      var count := buf.Exist(m);
      if count > 1 {
        return Returned(0);
      }
      return if n < MSG_RESEND_TIMES then Ready(n + 1) else Returned(-1);
    }

    /** msgbuf_delete of a message that was not acknowledged. */
    method GiveUp(m: Message)
      requires Valid()
      modifies buf.Repr
      ensures Valid() && Conf() == old(Conf()) && fresh(buf.Repr - old(buf.Repr))
      ensures Now() == old(Now()).(buf := Buffer.Delete(old(Now()).buf, m.id))
    {
      hide Buffer.Delete;
      ghost var c := Conf();
      var n := buf.Delete(m);
      assert Conf() == c;
    }

    /** The retransmission loop of mcast_send. */
    method Retransmit(c0: seq<byte>, m: Message, wantack: bool, ok: seq<bool>, arrivals: seq<seq<Datagram>>)
      returns (ret: int, ghost sends: nat)
      requires Valid() && |ok| == |arrivals| == MSG_RESEND_TIMES
      modifies this`air, this`listening, buf.Repr, buf.socks, buf.socks.slots
      ensures Valid() && Conf() == old(Conf()) && fresh(buf.Repr - old(buf.Repr))
      ensures (ret, sends) == Outlook(1, wantack, ok, CountsSeen(Conf(), old(Now()), c0, arrivals, m.id))
      ensures sends <= MSG_RESEND_TIMES && Now() == LoopState(Conf(), old(Now()), c0, arrivals, wantack, sends)
    {
      hide HandleAll, Valid, Now, Buffer.Count, Conf, Outlook, CountsSeen, LoopState, WaitState, AfterWait;
      ghost var c, s := Conf(), Now();
      StartRetrying(c, s, c0, arrivals, m.id, wantack, ok);
      sends := 0;
      ret := -1;
      var retry := 1;
      while retry < MSG_RESEND_TIMES + 1
        invariant 1 <= retry <= MSG_RESEND_TIMES + 1 && sends == retry - 1 && ret == -1
        invariant Valid() && Conf() == c && fresh(buf.Repr - old(buf.Repr))
        invariant Retrying(c, s, c0, arrivals, m.id, wantack, ok, retry, Now())
      {
        ghost var now := Now();
        var call := Try(c0, m, retry, wantack, ok[retry - 1], arrivals[retry - 1]);
        TryOnce(c, s, c0, arrivals, m.id, wantack, ok, retry, now, Now(), call);
        sends := if ok[retry - 1] then sends + 1 else sends;
        if call.Returned? {
          ret := call.ret;
          return;
        }
        retry := retry + 1;
      }
      EndRetrying(c, s, c0, arrivals, m.id, wantack, ok, Now());
    }

    /** mcast_send. arrivals[i] is what comes in during wait i; `ok` tells which sendto calls succeed. */
    method McastSend(raw: seq<byte>, random: seq<byte>, wantack: bool, ok: seq<bool>, arrivals: seq<seq<Datagram>>)
      returns (ret: int, ghost mc: seq<byte>, ghost sends: nat)
      requires Valid() && |raw| == MSGSIZE && |random| == 8 && |ok| == |arrivals| == MSG_RESEND_TIMES
      modifies this`air, this`listening, buf.Repr, buf.socks, buf.socks.slots
      ensures Valid() && Conf() == old(Conf()) && fresh(buf.Repr - old(buf.Repr))
      ensures |mc| == MSGSIZE && sends <= MSG_RESEND_TIMES
      ensures if Conf().ready then Parse(mc) == Seal(Conf().t, random, Parse(raw)) else mc == raw
      ensures (ret, sends) == Outlook(1, wantack, ok, CountsSeen(Conf(), old(Now()), mc, arrivals, Parse(raw).id))
      ensures Now() == Settle(LoopState(Conf(), old(Now()), mc, arrivals, wantack, sends), Parse(raw).id, ret)
    {
      hide Parse, Seal, LoopState, CountsSeen, Outlook, Valid, Conf, Now;
      var m := Parse(raw);
      var c0 := SealFor(raw, random);
      mc := c0;
      ret, sends := Retransmit(c0, m, wantack, ok, arrivals);
      if ret < 0 {
        GiveUp(m);
      }
    }

    method SealFor(raw: seq<byte>, random: seq<byte>) returns (mc: seq<byte>)
      requires Valid() && |raw| == MSGSIZE && |random| == 8
      ensures |mc| == MSGSIZE
      ensures if Conf().ready then Parse(mc) == Seal(Conf().t, random, Parse(raw)) else mc == raw
    {
      hide Parse, Seal;
      mc := SealCopy(raw, random);
    }
  }
}
