/** One node over any sequence of events, whatever the network does: how often it relays and what its clients are written. */
module LocalRuns {
  import opened Messages
  import opened Blowfish
  import opened Mcast
  import opened Buffer
  import opened MsgBufs

  /** What can happen to a node's buffer. `slots` and `broken` are the client sockets at that moment. */
  datatype Event =
    | Datagram(src: nat, wire: Message, r: int, slots: seq<int>, broken: set<int>)
    | Deleted(id: MsgId)
    | Synced(m: Message)

  /** The node's address and the key tables it decrypts with. */
  datatype Local = Local(me: nat, t: Tables) {
    function Outcome(buf: Buf, e: Event): Mcast.Outcome
      requires e.Datagram?
    {
      Receive(me, t, buf, e.src, e.wire, e.r)
    }

    function Next(buf: Buf, e: Event): Buf {
      match e
      case Datagram(_, _, _, _, _) => Outcome(buf, e).buf
      case Deleted(id) => Delete(buf, id)
      case Synced(m) => SyncOne(buf, m)
    }

    function Run(buf: Buf, es: seq<Event>): Buf
      decreases |es|
    {
      if |es| == 0 then buf else Run(Next(buf, es[0]), es[1..])
    }

    /** Once held, the message stays held: it is neither deleted nor evicted. */
    ghost predicate Stays(buf: Buf, es: seq<Event>, id: MsgId)
      decreases |es|
    {
      |es| > 0 ==> (Holds(buf, id) ==> Holds(Next(buf, es[0]), id)) && Stays(Next(buf, es[0]), es[1..], id)
    }

    /** How often the run forwards messages with this id. */
    function Forwarded(buf: Buf, es: seq<Event>, id: MsgId): nat
      decreases |es|
    {
      if |es| == 0 then 0
      else (if es[0].Datagram? && es[0].wire.id == id && Outcome(buf, es[0]).fwd then 1 else 0)
           + Forwarded(Next(buf, es[0]), es[1..], id)
    }

    /** A copy of the message in a datagram of valid type. */
    predicate IsCopy(e: Event, id: MsgId) {
      e.Datagram? && ValidKind(e.wire.kind) && e.wire.id == id
    }

    /** How many copies arrived straight from the origin, being another node. */
    function Direct(es: seq<Event>, id: MsgId): nat {
      if |es| == 0 then 0
      else (if IsCopy(es[0], id) && es[0].src == id.ip && es[0].src != me then 1 else 0) + Direct(es[1..], id)
    }

    /** How many copies the node counted that it had sent itself. */
    function Own(buf: Buf, es: seq<Event>, id: MsgId): nat
      decreases |es|
    {
      if |es| == 0 then 0
      else (if IsCopy(es[0], id) && es[0].src == me && !Loopback(me, buf, me, id) then 1 else 0)
           + Own(Next(buf, es[0]), es[1..], id)
    }

    /** The two sightings credited to the message whenever it enters by synchronisation. */
    function Credited(buf: Buf, es: seq<Event>, id: MsgId): nat
      decreases |es|
    {
      if |es| == 0 then 0
      else (if es[0].Synced? && es[0].m.id == id && !Holds(buf, id) then 2 else 0) + Credited(Next(buf, es[0]), es[1..], id)
    }

    lemma NextKeeps(buf: Buf, e: Event)
      requires WellFormed(buf)
      ensures WellFormed(Next(buf, e))
    {
      match e
      case Datagram(_, _, _, _, _) => AddKeeps(buf, Open(t, e.wire));
      case Deleted(id) => DeleteKeeps(buf, id);
      case Synced(m) => SyncOneKeeps(buf, m);
    }
  }

  /** The part of the counter that pays for forwarding. */
  function Cap(c: nat): nat {
    if c < MSG_RESEND_TIMES then c else MSG_RESEND_TIMES
  }

  lemma CountPositive(buf: Buf, id: MsgId)
    requires WellFormed(buf)
    ensures Holds(buf, id) <==> Count(buf, id) > 0
  {
  }

  /** An event that lets the message stay never lowers its counter, and pays for a forward by the counter or by a direct copy. */
  lemma EventPays(v: Local, buf: Buf, e: Event, id: MsgId)
    requires WellFormed(buf) && (Holds(buf, id) ==> Holds(v.Next(buf, e), id))
    ensures Count(v.Next(buf, e), id) >= Count(buf, id)
    ensures (if e.Datagram? && e.wire.id == id && v.Outcome(buf, e).fwd then 1 else 0)
            <= Cap(Count(v.Next(buf, e), id)) - Cap(Count(buf, id))
               + if v.IsCopy(e, id) && e.src == id.ip && e.src != v.me then 1 else 0
  {
    hide Open;
    match e
    case Datagram(_, _, _, _, _) =>
      if ValidKind(e.wire.kind) && !Loopback(v.me, buf, e.src, e.wire.id) {
        AddCountsStay(buf, Open(v.t, e.wire), id);
        AddCountsAtMost(buf, Open(v.t, e.wire), e.wire.id);
        AddReturns(buf, Open(v.t, e.wire));
      }
    case Deleted(x) => DeleteCounts(buf, x, id);
    case Synced(m) => SyncCountsStay(buf, m, id);
  }

  lemma AddCountsStay(buf: Buf, m: Message, id: MsgId)
    requires WellFormed(buf) && (Holds(buf, id) ==> Holds(Add(buf, m).0, id))
    ensures Count(Add(buf, m).0, id) == if id == m.id then Count(buf, id) + 1 else Count(buf, id)
  {
    AddKeeps(buf, m);
    CountPositive(buf, id);
    CountPositive(Add(buf, m).0, id);
    AddCountsAtMost(buf, m, id);
    if Holds(buf, m.id) {
      AddCounts(buf, m, id);
    } else {
      AppendCounts(buf, Entry(1, m), id);
    }
  }

  lemma SyncCountsStay(buf: Buf, m: Message, id: MsgId)
    requires WellFormed(buf) && (Holds(buf, id) ==> Holds(SyncOne(buf, m), id))
    ensures Count(SyncOne(buf, m), id) == if id == m.id && !Holds(buf, id) then 2 else Count(buf, id)
  {
    SyncOneKeeps(buf, m);
    CountPositive(buf, id);
    CountPositive(SyncOne(buf, m), id);
    if !Holds(buf, m.id) {
      AppendCounts(buf, Entry(2, m), id);
    }
  }

  lemma {:induction false} ForwardsPaid(v: Local, buf: Buf, es: seq<Event>, id: MsgId)
    requires WellFormed(buf) && v.Stays(buf, es, id)
    ensures Count(v.Run(buf, es), id) >= Count(buf, id)
    ensures v.Forwarded(buf, es, id) <= Cap(Count(v.Run(buf, es), id)) - Cap(Count(buf, id)) + v.Direct(es, id)
    decreases |es|
  {
    if |es| > 0 {
      EventPays(v, buf, es[0], id);
      v.NextKeeps(buf, es[0]);
      ForwardsPaid(v, v.Next(buf, es[0]), es[1..], id);
    }
  }

  /** While a message stays buffered, a node forwards it at most ten times plus once per copy heard straight from the origin;
      the origin itself at most ten times. */
  lemma RelayBound(v: Local, buf: Buf, es: seq<Event>, id: MsgId)
    requires WellFormed(buf) && v.Stays(buf, es, id)
    ensures v.Forwarded(buf, es, id) <= MSG_RESEND_TIMES + v.Direct(es, id)
    ensures id.ip == v.me ==> v.Forwarded(buf, es, id) <= MSG_RESEND_TIMES
  {
    ForwardsPaid(v, buf, es, id);
    if id.ip == v.me {
      NoDirect(v, es, id);
    }
  }

  lemma {:induction false} NoDirect(v: Local, es: seq<Event>, id: MsgId)
    requires id.ip == v.me
    ensures v.Direct(es, id) == 0
  {
    if |es| > 0 {
      NoDirect(v, es[1..], id);
    }
  }

  /** The first five sightings are forwarded whatever the draw. */
  function Sure(c: nat): nat {
    if c < 5 then c else 5
  }

  lemma EventForwards(v: Local, buf: Buf, e: Event, id: MsgId)
    requires WellFormed(buf) && (Holds(buf, id) ==> Holds(v.Next(buf, e), id))
    ensures var fwd := e.Datagram? && e.wire.id == id && v.Outcome(buf, e).fwd;
            var own := v.IsCopy(e, id) && e.src == v.me && !Loopback(v.me, buf, v.me, id);
            && (v.IsCopy(e, id) && e.src == id.ip && e.src != v.me ==> fwd)
            && Sure(Count(v.Next(buf, e), id)) - Sure(Count(buf, id))
               <= (if fwd then 1 else 0) + (if own then 1 else 0) + if e.Synced? && e.m.id == id && !Holds(buf, id) then 2 else 0
  {
    hide Open;
    match e
    case Datagram(_, _, _, _, _) =>
      if ValidKind(e.wire.kind) && !Loopback(v.me, buf, e.src, e.wire.id) {
        AddCountsStay(buf, Open(v.t, e.wire), id);
        AddReturns(buf, Open(v.t, e.wire));
      }
    case Deleted(x) => DeleteCounts(buf, x, id);
    case Synced(m) => SyncCountsStay(buf, m, id);
  }

  /** The other half of the relay bound: every copy heard straight from the origin is forwarded, and of the first five sightings all
      but those of the node's own copies and those credited by a synchronisation. */
  lemma {:induction false} RelayAtLeast(v: Local, buf: Buf, es: seq<Event>, id: MsgId)
    requires WellFormed(buf) && v.Stays(buf, es, id)
    ensures v.Forwarded(buf, es, id) >= v.Direct(es, id)
    ensures v.Forwarded(buf, es, id) + v.Own(buf, es, id) + v.Credited(buf, es, id)
            >= Sure(Count(v.Run(buf, es), id)) - Sure(Count(buf, id))
    decreases |es|
  {
    if |es| > 0 {
      EventForwards(v, buf, es[0], id);
      v.NextKeeps(buf, es[0]);
      RelayAtLeast(v, v.Next(buf, es[0]), es[1..], id);
    }
  }

  /** A buffer that holds one message, counted c times, or nothing. */
  function Alone(v: Local, wire: Message, c: nat): Buf {
    if c == 0 then [] else [Entry(c, Open(v.t, wire))]
  }

  /** Copies of one datagram from these senders, all under the same draw. */
  function Copies(wire: Message, srcs: seq<nat>, r: int): (es: seq<Event>)
    ensures |es| == |srcs|
  {
    seq(|srcs|, i requires 0 <= i < |srcs| => Datagram(srcs[i], wire, r, [], {}))
  }

  /** How many of the sightings from number c + 1 on the forwarding rule lets through. */
  function Passed(me: nat, origin: nat, c: nat, srcs: seq<nat>, r: int): nat
    decreases |srcs|
  {
    if |srcs| == 0 then 0 else (if Forwards(me, srcs[0], origin, c + 1, r) then 1 else 0) + Passed(me, origin, c + 1, srcs[1..], r)
  }

  /** A foreign message is counted whoever sends the copy, the node itself included. */
  lemma {:induction false} AllSightingsCount(v: Local, wire: Message, c: nat, srcs: seq<nat>, r: int)
    requires ValidKind(wire.kind) && wire.id.ip != v.me
    ensures v.Run(Alone(v, wire, c), Copies(wire, srcs, r)) == Alone(v, wire, c + |srcs|)
    ensures v.Forwarded(Alone(v, wire, c), Copies(wire, srcs, r), wire.id) == Passed(v.me, wire.id.ip, c, srcs, r)
    decreases |srcs|
  {
    hide Open;
    if |srcs| > 0 {
      var buf, es := Alone(v, wire, c), Copies(wire, srcs, r);
      assert v.Next(buf, es[0]) == Alone(v, wire, c + 1);
      assert es[1..] == Copies(wire, srcs[1..], r);
      AllSightingsCount(v, wire, c + 1, srcs[1..], r);
    }
  }

  /** So a node does not forward the first five copies it hears from others: with its own forwards looping back in between, the
      fourth copy from another node is already the seventh sighting and may be dropped. */
  lemma OwnCopiesUseUpSightings(v: Local, wire: Message, other: nat)
    requires ValidKind(wire.kind) && wire.id.ip != v.me && other != v.me && other != wire.id.ip
    ensures v.Forwarded([], Copies(wire, [other, v.me, other, v.me, other, v.me, other], 99), wire.id) == 3
  {
    hide Open;
    var me, o := v.me, wire.id.ip;
    AllSightingsCount(v, wire, 0, [other, me, other, me, other, me, other], 99);
    assert Passed(me, o, 6, [other], 99) == 0;
    assert [me, other][1..] == [other];
    assert Passed(me, o, 5, [me, other], 99) == 0;
    assert [other, me, other][1..] == [me, other];
    assert Passed(me, o, 4, [other, me, other], 99) == 1;
    assert [me, other, me, other][1..] == [other, me, other];
    assert Passed(me, o, 3, [me, other, me, other], 99) == 1;
    assert [other, me, other, me, other][1..] == [me, other, me, other];
    assert Passed(me, o, 2, [other, me, other, me, other], 99) == 2;
    assert [me, other, me, other, me, other][1..] == [other, me, other, me, other];
    assert Passed(me, o, 1, [me, other, me, other, me, other], 99) == 2;
    assert [other, me, other, me, other, me, other][1..] == [me, other, me, other, me, other];
  }

  /** Contrary to the comment in the source, from the sixth sighting on forwarding becomes likelier with every further one, and
      the tenth is forwarded for certain; past the tenth only copies straight from the origin are. */
  lemma ForwardingGrows(me: nat, src: nat, origin: nat, seen: nat, more: nat, r: int)
    requires 5 < seen <= more <= MSG_RESEND_TIMES && 0 <= r < 100
    ensures Forwards(me, src, origin, seen, r) ==> Forwards(me, src, origin, more, r)
    ensures src != me ==> Forwards(me, src, origin, MSG_RESEND_TIMES, r)
    ensures forall c: nat :: c > MSG_RESEND_TIMES ==> (Forwards(me, src, origin, c, r) <==> src == origin != me)
  {
  }

  // ---------- local delivery ----------

  /** Does the event make the node write to its clients? */
  predicate ReachesClients(v: Local, buf: Buf, e: Event) {
    e.Datagram? && ValidKind(e.wire.kind) && !Loopback(v.me, buf, e.src, e.wire.id) && Writes(v.me, buf, Open(v.t, e.wire))
  }

  /** The writes to client sockets the event causes. */
  function WrittenBy(v: Local, buf: Buf, e: Event): seq<(int, Message)> {
    if ReachesClients(v, buf, e) then Written(e.slots, e.broken, Open(v.t, e.wire)) else []
  }

  /** How often the run writes a message with this id to this socket. */
  function WritesTo(v: Local, buf: Buf, es: seq<Event>, sock: int, id: MsgId): nat
    decreases |es|
  {
    if |es| == 0 then 0
    else CopiesTo(WrittenBy(v, buf, es[0]), sock, id) + WritesTo(v, v.Next(buf, es[0]), es[1..], sock, id)
  }

  function CopiesTo(ws: seq<(int, Message)>, sock: int, id: MsgId): nat {
    if |ws| == 0 then 0
    else CopiesTo(ws[..|ws| - 1], sock, id) + if ws[|ws| - 1].0 == sock && ws[|ws| - 1].1.id == id then 1 else 0
  }

  /** The socket is registered, in one slot, and takes what is written to it. */
  ghost predicate Listening(e: Event, sock: int) {
    e.Datagram? ==> sock != -1 && sock !in e.broken && sock in e.slots && SingleSlot(e.slots, sock)
  }

  ghost predicate SingleSlot(slots: seq<int>, sock: int) {
    forall i, j :: 0 <= i < j < |slots| ==> slots[i] != sock || slots[j] != sock
  }

  lemma {:induction false} CopiesWritten(slots: seq<int>, broken: set<int>, m: Message, sock: int, id: MsgId)
    requires sock != -1 && sock !in broken && SingleSlot(slots, sock)
    ensures CopiesTo(Written(slots, broken, m), sock, id) == if sock in slots && m.id == id then 1 else 0
  {
    if |slots| > 0 {
      var n := |slots| - 1;
      CopiesWritten(slots[..n], broken, m, sock, id);
      assert slots == slots[..n] + [slots[n]];
      var front, last := Written(slots[..n], broken, m), (slots[n], m);
      assert (front + [last])[..|front|] == front;
      assert front + [] == front;
    }
  }

  /** An own message held with count 1 still has its write to come. */
  function Pending(me: nat, id: MsgId, from: nat, to: nat): nat {
    if id.ip == me && from == 1 && to >= 2 then 1 else 0
  }

  lemma EventWrites(v: Local, buf: Buf, e: Event, sock: int, id: MsgId)
    requires WellFormed(buf) && Holds(buf, id) && Holds(v.Next(buf, e), id) && Listening(e, sock)
    ensures CopiesTo(WrittenBy(v, buf, e), sock, id) == Pending(v.me, id, Count(buf, id), Count(v.Next(buf, e), id))
    ensures Count(v.Next(buf, e), id) >= Count(buf, id) > 0
  {
    hide Open;
    CountPositive(buf, id);
    EventPays(v, buf, e, id);
    match e
    case Datagram(_, _, _, _, _) =>
      var m := Open(v.t, e.wire);
      if ValidKind(e.wire.kind) && !Loopback(v.me, buf, e.src, e.wire.id) {
        AddCountsStay(buf, m, id);
        AddReturns(buf, m);
        CopiesWritten(e.slots, e.broken, m, sock, id);
      }
    case Deleted(x) => DeleteCounts(buf, x, id);
    case Synced(m) => SyncCountsStay(buf, m, id);
  }

  lemma {:induction false} HeldWrites(v: Local, buf: Buf, es: seq<Event>, sock: int, id: MsgId)
    requires WellFormed(buf) && Holds(buf, id) && v.Stays(buf, es, id) && forall e :: e in es ==> Listening(e, sock)
    ensures WritesTo(v, buf, es, sock, id) == Pending(v.me, id, Count(buf, id), Count(v.Run(buf, es), id))
    ensures Count(v.Run(buf, es), id) >= Count(buf, id) > 0
    decreases |es|
  {
    if |es| == 0 {
      CountPositive(buf, id);
    } else {
      EventWrites(v, buf, es[0], sock, id);
      v.NextKeeps(buf, es[0]);
      HeldWrites(v, v.Next(buf, es[0]), es[1..], sock, id);
    }
  }

  lemma EntryWrites(v: Local, buf: Buf, e: Event, sock: int, id: MsgId)
    requires WellFormed(buf) && !Holds(buf, id) && Holds(v.Next(buf, e), id) && Listening(e, sock)
    ensures Count(v.Next(buf, e), id) == if e.Datagram? then 1 else 2
    ensures CopiesTo(WrittenBy(v, buf, e), sock, id) == if e.Datagram? && id.ip != v.me then 1 else 0
  {
    hide Open, Written, Append, Delete;
    CountPositive(buf, id);
    v.NextKeeps(buf, e);
    CountPositive(v.Next(buf, e), id);
    match e
    case Datagram(_, _, _, _, _) =>
      var m := Open(v.t, e.wire);
      AddCountsStay(buf, m, id);
      AddReturns(buf, m);
      CopiesWritten(e.slots, e.broken, m, sock, id);
    case Deleted(x) =>
      DeleteKeeps(buf, x);
      CountPositive(Delete(buf, x), id);
      DeleteCounts(buf, x, id);
    case Synced(m) => SyncCountsStay(buf, m, id);
  }

  /** Nothing is written of a message that is not held afterwards. */
  lemma NothingWritten(v: Local, buf: Buf, e: Event, sock: int, id: MsgId)
    requires WellFormed(buf) && !Holds(v.Next(buf, e), id)
    ensures CopiesTo(WrittenBy(v, buf, e), sock, id) == 0
  {
    hide Open, Add, Forwards;
    if e.Datagram? && ValidKind(e.wire.kind) && !Loopback(v.me, buf, e.src, e.wire.id) {
      var m := Open(v.t, e.wire);
      AddCountsAtMost(buf, m, m.id);
      OtherWritten(e.slots, e.broken, m, sock, id);
    }
  }

  lemma {:induction false} OtherWritten(slots: seq<int>, broken: set<int>, m: Message, sock: int, id: MsgId)
    requires m.id != id
    ensures CopiesTo(Written(slots, broken, m), sock, id) == 0
  {
    if |slots| > 0 {
      var n := |slots| - 1;
      OtherWritten(slots[..n], broken, m, sock, id);
      var front, last := Written(slots[..n], broken, m), (slots[n], m);
      assert (front + [last])[..|front|] == front;
      assert front + [] == front;
    }
  }

  /** Does a message not held at first enter the buffer by a datagram? */
  predicate ByDatagram(v: Local, buf: Buf, es: seq<Event>, id: MsgId)
    decreases |es|
  {
    |es| > 0 && if Holds(v.Next(buf, es[0]), id) then es[0].Datagram? else ByDatagram(v, v.Next(buf, es[0]), es[1..], id)
  }

  /** Local delivery over one stay of a message in the buffer: a socket registered throughout is written the message exactly once
      if it came by a datagram and is foreign or has been seen twice, and never otherwise. */
  lemma {:induction false} DeliveredOnce(v: Local, buf: Buf, es: seq<Event>, sock: int, id: MsgId)
    requires WellFormed(buf) && !Holds(buf, id)
    requires v.Stays(buf, es, id) && forall e :: e in es ==> Listening(e, sock)
    ensures WritesTo(v, buf, es, sock, id)
            == if ByDatagram(v, buf, es, id) && (id.ip != v.me || Count(v.Run(buf, es), id) >= 2) then 1 else 0
    decreases |es|
  {
    hide WellFormed, CopiesTo, Count, Holds;
    if |es| > 0 {
      v.NextKeeps(buf, es[0]);
      if Holds(v.Next(buf, es[0]), id) {
        EntryWrites(v, buf, es[0], sock, id);
        HeldWrites(v, v.Next(buf, es[0]), es[1..], sock, id);
      } else {
        NothingWritten(v, buf, es[0], sock, id);
        DeliveredOnce(v, v.Next(buf, es[0]), es[1..], sock, id);
      }
    }
  }

  // ---------- discovery ----------

  /** How often the run answers messages with this id with the node's own discovery message. */
  function Answers(v: Local, buf: Buf, es: seq<Event>, id: MsgId): nat
    decreases |es|
  {
    if |es| == 0 then 0
    else (if es[0].Datagram? && es[0].wire.id == id && v.Outcome(buf, es[0]).reply then 1 else 0)
         + Answers(v, v.Next(buf, es[0]), es[1..], id)
  }

  /** Does a message not held at first enter the buffer by a datagram that is a discovery message? */
  predicate ByDiscovery(v: Local, buf: Buf, es: seq<Event>, id: MsgId)
    decreases |es|
  {
    |es| > 0 && if Holds(v.Next(buf, es[0]), id) then es[0].Datagram? && es[0].wire.kind == 1
                else ByDiscovery(v, v.Next(buf, es[0]), es[1..], id)
  }

  /** An event answers exactly when it is a discovery message that enters the buffer. */
  lemma EventAnswers(v: Local, buf: Buf, e: Event, id: MsgId)
    requires WellFormed(buf) && e.Datagram?
    ensures e.wire.id == id && v.Outcome(buf, e).reply
            <==> !Holds(buf, id) && Holds(v.Next(buf, e), id) && e.wire.kind == 1
  {
    hide Open;
    var m := Open(v.t, e.wire);
    CountPositive(buf, id);
    AddKeeps(buf, m);
    CountPositive(Add(buf, m).0, id);
    AddReturns(buf, m);
    AddCountsAtMost(buf, m, m.id);
    AddCountsAtMost(buf, m, id);
  }

  /** Over one stay of a message in the buffer the node answers it with its own discovery message exactly once if it came as a
      discovery datagram, and never otherwise. */
  lemma {:induction false} AnsweredOnce(v: Local, buf: Buf, es: seq<Event>, id: MsgId)
    requires WellFormed(buf) && v.Stays(buf, es, id)
    ensures Answers(v, buf, es, id) == if !Holds(buf, id) && ByDiscovery(v, buf, es, id) then 1 else 0
    decreases |es|
  {
    hide WellFormed, Holds;
    if |es| > 0 {
      v.NextKeeps(buf, es[0]);
      if es[0].Datagram? {
        EventAnswers(v, buf, es[0], id);
      }
      AnsweredOnce(v, v.Next(buf, es[0]), es[1..], id);
    }
  }

  // ---------- what is written ----------

  lemma {:induction false} WrittenCopies(slots: seq<int>, broken: set<int>, m: Message, w: (int, Message))
    requires w in Written(slots, broken, m)
    ensures w.1 == m && w.0 in slots && w.0 != -1 && w.0 !in broken
  {
    var n := |slots| - 1;
    if w != (slots[n], m) {
      WrittenCopies(slots[..n], broken, m, w);
    } else if slots[n] == -1 || slots[n] in broken {
      WrittenCopies(slots[..n], broken, m, w);
    }
  }

  /** Clients are written the decrypted form of the datagram at hand. */
  lemma WrittenOpened(v: Local, buf: Buf, e: Event, w: (int, Message))
    requires w in WrittenBy(v, buf, e)
    ensures e.Datagram? && ValidKind(e.wire.kind) && w.1 == Open(v.t, e.wire) && w.0 in e.slots
  {
    hide Open;
    WrittenCopies(e.slots, e.broken, Open(v.t, e.wire), w);
  }
}
