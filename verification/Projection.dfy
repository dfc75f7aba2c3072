/** What a network run looks like to one of its nodes, and to the clients of that node. */
module Projection {
  import opened Bytes
  import opened Blowfish
  import opened Messages
  import opened Mcast
  import opened Buffer
  import opened Network
  import opened Soundness
  import opened LocalRuns

  /** The client sockets of a node at some moment, and those of them a write would fail on. */
  datatype Clients = Clients(slots: seq<int>, broken: set<int>)

  /** The buffer events a step means for node a. */
  function EventsOf(s: Net, step: Step, a: nat, c: Clients): seq<Event>
    requires Enabled(s, step) && a < |s.nodes|
  {
    match step
    case Deliver(k, r) =>
      var p := s.air[k];
      if p.to == a then [Datagram(s.nodes[p.from].ip, p.wire, r, c.slots, c.broken)] else []
    case Transmit(b, j, ok) =>
      var job := s.nodes[b].jobs[j];
      if b == a && AfterSend(job.call.n, job.wantack, ok) == Returned(-1) then [Deleted(job.m.id)] else []
    case Check(b, j) =>
      var job := s.nodes[b].jobs[j];
      if b == a && AfterWait(job.call.n, Count(s.nodes[b].buf, job.m.id)) == Returned(-1) then [Deleted(job.m.id)] else []
    case SyncRead(b) => if b == a then [Synced(Open(s.t, s.nodes[b].stream[0]))] else []
    case _ => []
  }

  /** The events of a whole run; cl(n) are the clients of node a at step n, who come and go as they like. */
  ghost function Trace(s: Net, steps: seq<Step>, a: nat, cl: nat -> Clients): seq<Event>
    requires IsRun(s, steps) && a < |s.nodes|
    decreases |steps|
  {
    if |steps| == 0 then []
    else
      var n := |steps| - 1;
      SameAddresses(s, steps[..n]);
      Trace(s, steps[..n], a, cl) + EventsOf(Exec(s, steps[..n]), steps[n], a, cl(n))
  }

  /** How often node a relays a message with this id. */
  ghost function Relays(s: Net, steps: seq<Step>, a: nat, id: MsgId): nat
    requires IsRun(s, steps) && a < |s.nodes|
    decreases |steps|
  {
    if |steps| == 0 then 0
    else
      var n := |steps| - 1;
      var mid := Exec(s, steps[..n]);
      SameAddresses(s, steps[..n]);
      Relays(s, steps[..n], a, id) + if RelaysNow(mid, steps[n], a, id) then 1 else 0
  }

  predicate RelaysNow(s: Net, step: Step, a: nat, id: MsgId)
    requires Enabled(s, step) && a < |s.nodes|
  {
    step.Deliver? && var p := s.air[step.k];
    p.to == a && p.wire.id == id && Receive(s.nodes[a].ip, s.t, s.nodes[a].buf, s.nodes[p.from].ip, p.wire, step.r).fwd
  }

  function ViewOf(s: Net, a: nat): Local
    requires a < |s.nodes|
  {
    Local(s.nodes[a].ip, s.t)
  }

  /** What node a writes to its clients over the run. */
  ghost function ClientWrites(s: Net, steps: seq<Step>, a: nat, cl: nat -> Clients): seq<(int, Message)>
    requires IsRun(s, steps) && a < |s.nodes|
    decreases |steps|
  {
    if |steps| == 0 then []
    else
      var n := |steps| - 1;
      SameAddresses(s, steps[..n]);
      ClientWrites(s, steps[..n], a, cl) + WritesNow(Exec(s, steps[..n]), steps[n], a, cl(n))
  }

  function WritesNow(s: Net, step: Step, a: nat, c: Clients): seq<(int, Message)>
    requires Enabled(s, step) && a < |s.nodes|
  {
    var es := EventsOf(s, step, a, c);
    if |es| == 0 then [] else WrittenBy(ViewOf(s, a), s.nodes[a].buf, es[0])
  }

  lemma {:induction false} RunConcat(v: Local, buf: Buf, es: seq<Event>, fs: seq<Event>, id: MsgId, sock: int)
    ensures v.Run(buf, es + fs) == v.Run(v.Run(buf, es), fs)
    ensures v.Forwarded(buf, es + fs, id) == v.Forwarded(buf, es, id) + v.Forwarded(v.Run(buf, es), fs, id)
    ensures WritesTo(v, buf, es + fs, sock, id) == WritesTo(v, buf, es, sock, id) + WritesTo(v, v.Run(buf, es), fs, sock, id)
    decreases |es|
  {
    if |es| == 0 {
      assert es + fs == fs;
    } else {
      assert (es + fs)[1..] == es[1..] + fs;
      RunConcat(v, v.Next(buf, es[0]), es[1..], fs, id, sock);
    }
  }

  lemma {:induction false} CopiesConcat(ws: seq<(int, Message)>, xs: seq<(int, Message)>, sock: int, id: MsgId)
    ensures CopiesTo(ws + xs, sock, id) == CopiesTo(ws, sock, id) + CopiesTo(xs, sock, id)
  {
    if |xs| == 0 {
      assert ws + xs == ws;
    } else {
      assert (ws + xs)[..|ws + xs| - 1] == ws + xs[..|xs| - 1];
      CopiesConcat(ws, xs[..|xs| - 1], sock, id);
    }
  }

  /** A step means at most one event for node a, which changes its buffer accordingly. */
  lemma StepEvent(s: Net, step: Step, a: nat, c: Clients)
    requires Enabled(s, step) && a < |s.nodes|
    ensures var es := EventsOf(s, step, a, c);
            && |es| <= 1
            && Apply(s, step).nodes[a].buf == if |es| == 0 then s.nodes[a].buf else ViewOf(s, a).Next(s.nodes[a].buf, es[0])
  {
    hide Receive, SyncOne, Open, Seal, Dump, IdSet, Count;
  }

  lemma StepRelays(s: Net, step: Step, a: nat, c: Clients, id: MsgId)
    requires Enabled(s, step) && a < |s.nodes|
    ensures var es := EventsOf(s, step, a, c);
            RelaysNow(s, step, a, id)
            <==> |es| > 0 && es[0].Datagram? && es[0].wire.id == id && ViewOf(s, a).Outcome(s.nodes[a].buf, es[0]).fwd
  {
    hide Receive;
  }

  /** One step, seen from node a. */
  lemma StepProjects(s: Net, step: Step, a: nat, c: Clients, id: MsgId, sock: int)
    requires Enabled(s, step) && a < |s.nodes|
    ensures var v := ViewOf(s, a); var es := EventsOf(s, step, a, c);
            && Apply(s, step).nodes[a].buf == v.Run(s.nodes[a].buf, es)
            && v.Forwarded(s.nodes[a].buf, es, id) == (if RelaysNow(s, step, a, id) then 1 else 0)
            && WritesTo(v, s.nodes[a].buf, es, sock, id) == CopiesTo(WritesNow(s, step, a, c), sock, id)
  {
    hide Apply, EventsOf, RelaysNow, Receive, WrittenBy;
    StepEvent(s, step, a, c);
    StepRelays(s, step, a, c, id);
    var es := EventsOf(s, step, a, c);
    if |es| == 1 {
      assert es[1..] == [];
    }
  }

  /** A node's buffer in a network run is its local run over its trace; it relays as often as that run forwards and writes to its
      clients as often as that run does. */
  lemma {:induction false} RunProjects(s: Net, steps: seq<Step>, a: nat, cl: nat -> Clients, id: MsgId, sock: int)
    requires IsRun(s, steps) && a < |s.nodes| == |Exec(s, steps).nodes|
    ensures var v := ViewOf(s, a); var es := Trace(s, steps, a, cl); var buf := s.nodes[a].buf;
            && Exec(s, steps).nodes[a].buf == v.Run(buf, es)
            && Relays(s, steps, a, id) == v.Forwarded(buf, es, id)
            && CopiesTo(ClientWrites(s, steps, a, cl), sock, id) == WritesTo(v, buf, es, sock, id)
  {
    hide Apply, Enabled, WritesNow, EventsOf, RelaysNow;
    if |steps| > 0 {
      var n := |steps| - 1;
      var mid := Exec(s, steps[..n]);
      SameAddresses(s, steps[..n]);
      RunProjects(s, steps[..n], a, cl, id, sock);
      StepProjects(mid, steps[n], a, cl(n), id, sock);
      RunConcat(ViewOf(s, a), s.nodes[a].buf, Trace(s, steps[..n], a, cl), EventsOf(mid, steps[n], a, cl(n)), id, sock);
      CopiesConcat(ClientWrites(s, steps[..n], a, cl), WritesNow(mid, steps[n], a, cl(n)), sock, id);
    }
  }

  /** The relay bound on network runs, from any state a run can reach: while a message stays in its buffer once it got there, a node
      relays it at most ten times plus once for every copy it heard straight from the origin, and the origin at most ten times. */
  lemma NetworkRelayBound(s: Net, steps: seq<Step>, a: nat, cl: nat -> Clients, id: MsgId)
    requires Inv(s) && IsRun(s, steps) && a < |s.nodes|
    requires ViewOf(s, a).Stays(s.nodes[a].buf, Trace(s, steps, a, cl), id)
    ensures Relays(s, steps, a, id) <= MSG_RESEND_TIMES + ViewOf(s, a).Direct(Trace(s, steps, a, cl), id)
    ensures id.ip == s.nodes[a].ip ==> Relays(s, steps, a, id) <= MSG_RESEND_TIMES
  {
    hide Apply, Enabled;
    SameAddresses(s, steps);
    RunProjects(s, steps, a, cl, id, 0);
    BufDistinct(s, a);
    RelayBound(ViewOf(s, a), s.nodes[a].buf, Trace(s, steps, a, cl), id);
  }

  /** Local delivery on network runs, from any state a run can reach in which the node does not hold the message: if the message
      stays once it got there, a client connected throughout is written it exactly once when it came by a datagram and is foreign
      or was seen twice, and never otherwise. */
  lemma NetworkDelivery(s: Net, steps: seq<Step>, a: nat, cl: nat -> Clients, id: MsgId, sock: int)
    requires Inv(s) && IsRun(s, steps) && a < |s.nodes| == |Exec(s, steps).nodes| && !Holds(s.nodes[a].buf, id)
    requires ViewOf(s, a).Stays(s.nodes[a].buf, Trace(s, steps, a, cl), id)
    requires forall e :: e in Trace(s, steps, a, cl) ==> Listening(e, sock)
    ensures CopiesTo(ClientWrites(s, steps, a, cl), sock, id)
            == if && ByDatagram(ViewOf(s, a), s.nodes[a].buf, Trace(s, steps, a, cl), id)
                  && (id.ip != s.nodes[a].ip || Count(Exec(s, steps).nodes[a].buf, id) >= 2) then 1 else 0
  {
    hide Apply, Enabled, Listening;
    RunProjects(s, steps, a, cl, id, sock);
    BufDistinct(s, a);
    DeliveredOnce(ViewOf(s, a), s.nodes[a].buf, Trace(s, steps, a, cl), sock, id);
  }

  lemma WritesGenuine(s: Net, step: Step, a: nat, c: Clients, w: (int, Message))
    requires Inv(s) && Enabled(s, step) && a < |s.nodes| && w in WritesNow(s, step, a, c)
    ensures w.1.id in s.sent && s.sent[w.1.id] == Says(w.1)
  {
    hide Open, WrittenBy, WritesTo;
    var e := EventsOf(s, step, a, c)[0];
    WrittenOpened(ViewOf(s, a), s.nodes[a].buf, e, w);
    assert PacketInv(s, s.air[step.k]);
  }

  /** Agreement up to the clients: whatever any node writes to a client has the type, id and text its origin passed to mcast_send,
      and nothing else was ever sent under that id. */
  lemma DeliveredAgreement(s: Net, steps: seq<Step>, a: nat, cl: nat -> Clients, w: (int, Message)) returns (k: nat)
    requires Init(s) && IsRun(s, steps) && a < |s.nodes| && w in ClientWrites(s, steps, a, cl)
    ensures Originates(s, steps, k, Says(w.1))
    ensures forall i :: 0 <= i < |steps| && (steps[i].Start? || steps[i].Boot?) && steps[i].m.id == w.1.id
                        ==> Says(steps[i].m) == Says(w.1)
  {
    hide Init, Inv, Apply, Enabled, WritesNow, Says;
    RecordWritten(s, steps, a, cl, w);
    k := SentMeans(s, steps, w.1.id);
  }

  lemma {:induction false} RecordWritten(s: Net, steps: seq<Step>, a: nat, cl: nat -> Clients, w: (int, Message))
    requires Init(s) && IsRun(s, steps) && a < |s.nodes| && w in ClientWrites(s, steps, a, cl)
    ensures w.1.id in Exec(s, steps).sent && Exec(s, steps).sent[w.1.id] == Says(w.1)
  {
    hide Init, Inv, Apply, Enabled, WritesNow;
    var n := |steps| - 1;
    var mid := Exec(s, steps[..n]);
    SameAddresses(s, steps[..n]);
    RunInv(s, steps[..n]);
    if w in WritesNow(mid, steps[n], a, cl(n)) {
      WritesGenuine(mid, steps[n], a, cl(n), w);
    } else {
      RecordWritten(s, steps[..n], a, cl, w);
    }
    StepRecord(mid, steps[n]);
  }

  // ---------- synchronisation ----------

  lemma {:induction false} SyncLast(buf: Buf, ms: seq<Message>, m: Message)
    ensures Sync(buf, ms + [m]).0 == SyncOne(Sync(buf, ms).0, m)
    decreases |ms|
  {
    hide SyncOne;
    if |ms| == 0 {
      assert ms + [m] == [m] && [m][1..] == [];
    } else {
      assert (ms + [m])[1..] == ms[1..] + [m];
      SyncLast(SyncOne(buf, ms[0]), ms[1..], m);
    }
  }

  function Opened(t: Tables, ws: seq<Message>): (ms: seq<Message>)
    ensures |ms| == |ws|
  {
    seq(|ws|, i requires 0 <= i < |ws| => Open(t, ws[i]))
  }

  /** Only node a's buffer, stream and history differ. */
  ghost predicate SyncedAt(v: Net, u: Net, a: nat) {
    && a < |v.nodes| == |u.nodes| && u == v.(nodes := u.nodes) && u.nodes[a].jobs == v.nodes[a].jobs
    && forall i :: 0 <= i < |v.nodes| && i != a ==> u.nodes[i] == v.nodes[i]
  }

  lemma ReadOne(v: Net, a: nat)
    requires Enabled(v, SyncRead(a))
    ensures var u := Apply(v, SyncRead(a));
            && SyncedAt(v, u, a) && u.nodes[a].stream == v.nodes[a].stream[1..]
            && u.nodes[a].buf == SyncOne(v.nodes[a].buf, Open(v.t, v.nodes[a].stream[0]))
  {
    hide Open, SyncOne, IdSet;
  }

  /** Reading k messages of the stream is k turns of the msgbuf_sync loop. */
  lemma {:induction false} SyncReads(s: Net, start: seq<Step>, a: nat, k: nat) returns (steps: seq<Step>)
    requires IsRun(s, start) && a < |Exec(s, start).nodes| && k <= |Exec(s, start).nodes[a].stream|
    ensures IsRun(s, steps)
    ensures var v, u := Exec(s, start), Exec(s, steps);
            && SyncedAt(v, u, a) && u.nodes[a].stream == v.nodes[a].stream[k..]
            && u.nodes[a].buf == Sync(v.nodes[a].buf, Opened(v.t, v.nodes[a].stream[..k])).0
  {
    hide Open, SyncOne, IdSet, Apply;
    var v := Exec(s, start);
    var ws := v.nodes[a].stream;
    if k == 0 {
      steps := start;
    } else {
      var front := SyncReads(s, start, a, k - 1);
      steps := front + [SyncRead(a)];
      assert steps[..|steps| - 1] == front;
      ReadOne(Exec(s, front), a);
      assert ws[k - 1..][1..] == ws[k..];
      SyncLast(v.nodes[a].buf, Opened(v.t, ws[..k - 1]), Open(v.t, ws[k - 1]));
      assert Opened(v.t, ws[..k]) == Opened(v.t, ws[..k - 1]) + [Open(v.t, ws[k - 1])];
    }
  }

  /** A connection that breaks leaves nothing to read and what was read in place. */
  lemma SyncBroken(v: Net, a: nat)
    requires a < |v.nodes|
    ensures var u := Apply(v, SyncClose(a)); SyncedAt(v, u, a) && u.nodes[a].stream == [] && u.nodes[a].buf == v.nodes[a].buf
  {
  }

  /** A synchronisation that reads the peer's dump to its end, with nothing in between, is the merge of msgbuf_sync. */
  lemma NetworkSync(s: Net, start: seq<Step>, a: nat, b: nat, ivs: seq<seq<byte>>) returns (steps: seq<Step>)
    requires IsRun(s, start) && Enabled(Exec(s, start), SyncOpen(a, b, ivs, |ivs|))
    ensures IsRun(s, steps)
    ensures var v, u := Exec(s, start), Exec(s, steps);
            && |u.nodes| == |v.nodes| && (forall i :: 0 <= i < |v.nodes| && i != a ==> u.nodes[i] == v.nodes[i])
            && u.air == v.air && u.nodes[a].stream == []
            && u.nodes[a].buf == Sync(v.nodes[a].buf, Received(v.t, v.nodes[b].ip, v.nodes[b].buf, ivs)).0
  {
    hide Open, Seal, SyncOne, IdSet, Dump;
    var v, open := Exec(s, start), SyncOpen(a, b, ivs, |ivs|);
    var begun := start + [open];
    assert begun[..|start|] == start;
    var ws := SealedDump(v.t, v.nodes[b], ivs);
    assert ws[..|ivs|] == ws;
    steps := SyncReads(s, begun, a, |ws|);
    assert ws[|ws|..] == [] && ws[..|ws|] == ws;
    assert Opened(v.t, ws) == Received(v.t, v.nodes[b].ip, v.nodes[b].buf, ivs);
  }
}
