/** Safety of the protocol over whole runs: acknowledgements are sound and everybody reads what was sent. */
module Soundness {
  import opened Sequences
  import opened Bytes
  import opened Messages
  import opened Mcast
  import opened Buffer
  import opened Network

  /** The message says what its origin passed to mcast_send under this id. */
  ghost predicate Genuine(s: Net, m: Message) {
    ValidKind(m.kind) && m.id in s.sent && s.sent[m.id] == Says(m)
  }

  /** The same for a sealed message; receivers drop the others. */
  ghost predicate GenuineWire(s: Net, w: Message) {
    ValidKind(w.kind) ==> Genuine(s, Open(s.t, w))
  }

  /** A node other than a has held this id. */
  ghost predicate HeldElsewhere(s: Net, a: nat, id: MsgId) {
    exists b :: 0 <= b < |s.nodes| && b != a && id in s.nodes[b].ever
  }

  /** Every copy on the air comes from its origin or from a node that has held the message. */
  ghost predicate PacketInv(s: Net, p: Packet) {
    && p.from < |s.nodes| && p.to < |s.nodes|
    && GenuineWire(s, p.wire)
    && (ValidKind(p.wire.kind) ==> p.wire.id.ip == s.nodes[p.from].ip || p.wire.id in s.nodes[p.from].ever)
  }

  ghost predicate JobInv(s: Net, a: nat, job: Job)
    requires a < |s.nodes|
  {
    && Genuine(s, job.m) && GenuineWire(s, job.wire) && job.wire.id == job.m.id && job.wire.kind == job.m.kind
    && job.m.id.ip == s.nodes[a].ip
    && ValidCall(job.call) && !job.call.Returned?
  }

  /** The buffer holds genuine messages only, and an own message counted twice is held elsewhere too. */
  ghost predicate BufInv(s: Net, a: nat)
    requires a < |s.nodes|
  {
    var v := s.nodes[a];
    && WellFormed(v.buf) && IdSet(v.buf) <= v.ever
    && (forall e :: e in v.buf ==> Genuine(s, e.msg))
    && (forall id: MsgId :: id.ip == v.ip && Count(v.buf, id) > 1 ==> HeldElsewhere(s, a, id))
  }

  ghost predicate JobsInv(s: Net, a: nat)
    requires a < |s.nodes|
  {
    forall job :: job in s.nodes[a].jobs ==> JobInv(s, a, job)
  }

  ghost predicate DcInv(s: Net, a: nat)
    requires a < |s.nodes|
  {
    var v := s.nodes[a];
    GenuineWire(s, v.dc) && (ValidKind(v.dc.kind) ==> v.dc.id.ip == v.ip)
  }

  ghost predicate StreamInv(s: Net, a: nat)
    requires a < |s.nodes|
  {
    var v := s.nodes[a];
    && (v.stream != [] ==> v.peer < |s.nodes| && v.peer != a)
    && (forall w :: w in v.stream ==> ValidKind(w.kind) && GenuineWire(s, w) && w.id in s.nodes[v.peer].ever)
  }

  ghost predicate NodeInv(s: Net, a: nat)
    requires a < |s.nodes|
  {
    BufInv(s, a) && JobsInv(s, a) && DcInv(s, a) && StreamInv(s, a)
  }

  ghost predicate Inv(s: Net) {
    && (forall i, j :: 0 <= i < j < |s.nodes| ==> s.nodes[i].ip != s.nodes[j].ip)
    && (forall a :: 0 <= a < |s.nodes| ==> NodeInv(s, a))
    && (forall p :: p in s.air ==> PacketInv(s, p))
  }

  lemma BufDistinct(s: Net, a: nat)
    requires Inv(s) && a < |s.nodes|
    ensures WellFormed(s.nodes[a].buf) && Distinct(s.nodes[a].buf) && IdSet(s.nodes[a].buf) <= s.nodes[a].ever
  {
    assert NodeInv(s, a);
  }

  lemma DistinctIps(s: Net, a: nat, b: nat)
    requires Inv(s) && a < |s.nodes| && b < |s.nodes|
    ensures s.nodes[a].ip == s.nodes[b].ip <==> a == b
  {
  }

  /** History only grows. */
  ghost predicate Grows(s: Net, s': Net) {
    && s'.t == s.t && |s'.nodes| == |s.nodes|
    && (forall i :: 0 <= i < |s.nodes| ==> s'.nodes[i].ip == s.nodes[i].ip && s.nodes[i].ever <= s'.nodes[i].ever)
    && (forall id :: id in s.sent ==> id in s'.sent && s'.sent[id] == s.sent[id])
  }

  lemma GenuineGrows(s: Net, s': Net, w: Message)
    requires Grows(s, s')
    ensures Genuine(s, w) ==> Genuine(s', w)
    ensures GenuineWire(s, w) ==> GenuineWire(s', w)
  {
  }

  lemma HeldGrows(s: Net, s': Net, a: nat, id: MsgId)
    requires Grows(s, s') && HeldElsewhere(s, a, id)
    ensures HeldElsewhere(s', a, id)
  {
    var b :| 0 <= b < |s.nodes| && b != a && id in s.nodes[b].ever;
    assert id in s'.nodes[b].ever;
  }

  lemma PacketGrows(s: Net, s': Net, p: Packet)
    requires Grows(s, s') && PacketInv(s, p)
    ensures PacketInv(s', p)
  {
    GenuineGrows(s, s', p.wire);
  }

  /** Growth alone breaks no part of a node's invariant. */
  lemma NodeGrows(s: Net, s': Net, a: nat)
    requires Grows(s, s') && a < |s.nodes| && NodeInv(s, a)
    ensures s'.nodes[a].buf == s.nodes[a].buf ==> BufInv(s', a)
    ensures s'.nodes[a].jobs == s.nodes[a].jobs ==> JobsInv(s', a)
    ensures s'.nodes[a].dc == s.nodes[a].dc ==> DcInv(s', a)
    ensures s'.nodes[a].stream == s.nodes[a].stream && s'.nodes[a].peer == s.nodes[a].peer ==> StreamInv(s', a)
  {
    hide Genuine, GenuineWire, HeldElsewhere, WellFormed, Count;
    var v := s.nodes[a];
    GenuineGrows(s, s', v.dc);
    forall e | e in v.buf ensures Genuine(s', e.msg) { GenuineGrows(s, s', e.msg); }
    forall job | job in v.jobs ensures JobInv(s', a, job) { GenuineGrows(s, s', job.m); GenuineGrows(s, s', job.wire); }
    forall w | w in v.stream ensures GenuineWire(s', w) && w.id in s'.nodes[v.peer].ever { GenuineGrows(s, s', w); }
    forall id: MsgId | id.ip == v.ip && Count(v.buf, id) > 1 ensures HeldElsewhere(s', a, id) { HeldGrows(s, s', a, id); }
  }

  lemma InitInv(s: Net)
    requires Init(s)
    ensures Inv(s)
  {
    forall a | 0 <= a < |s.nodes| ensures NodeInv(s, a) {
      assert forall id :: Count(s.nodes[a].buf, id) == 0;
    }
  }

  /** The common part of every step: all but the node that moved are covered by growth. */
  lemma StepInv(s: Net, s': Net, a: nat)
    requires Inv(s) && Grows(s, s') && a < |s.nodes|
    requires forall i :: 0 <= i < |s.nodes| && i != a ==> s'.nodes[i] == s.nodes[i]
    requires NodeInv(s', a)
    requires forall p :: p in s'.air ==> p in s.air || PacketInv(s', p)
    ensures Inv(s')
  {
    hide NodeInv, PacketInv;
    forall i | 0 <= i < |s.nodes| ensures NodeInv(s', i) {
      if i != a {
        NodeUnmoved(s, s', i);
      }
    }
    forall p | p in s'.air ensures PacketInv(s', p) {
      if p in s.air {
        PacketGrows(s, s', p);
      }
    }
  }

  // ---------- the steps ----------

  lemma BroadcastFrom(n: nat, from: nat, wires: seq<Message>, p: Packet)
    requires p in BroadcastAll(n, from, wires)
    ensures p.from == from && p.to < n && p.wire in wires
  {
    if p in Broadcast(n, from, wires[0]) {
    } else {
      BroadcastFrom(n, from, wires[1..], p);
    }
  }

  lemma InBroadcast(n: nat, from: nat, wires: seq<Message>, wire: Message, w: nat)
    requires wire in wires && w < n
    ensures Packet(from, w, wire) in BroadcastAll(n, from, wires)
  {
    if wire == wires[0] {
      assert Broadcast(n, from, wire)[w] == Packet(from, w, wire);
      assert Packet(from, w, wire) in Broadcast(n, from, wires[0]);
    } else {
      InBroadcast(n, from, wires[1..], wire, w);
    }
  }

  lemma SealGenuine(s: Net, m: Message, iv: seq<byte>)
    requires Genuine(s, m) && |iv| == 8
    ensures GenuineWire(s, Seal(s.t, iv, m))
  {
    hide Open, Seal;
    OpenSeal(s.t, iv, m);
  }

  lemma BootInv(s: Net, step: Step)
    requires Inv(s) && step.Boot? && Enabled(s, step)
    ensures Inv(Apply(s, step))
  {
    hide Open, Seal, PacketInv, BufInv, JobsInv, StreamInv;
    var Boot(a, m, iv) := step;
    var s' := Apply(s, step);
    SealGenuine(s', m, iv);
    NodeGrows(s, s', a);
    StepInv(s, s', a);
  }

  lemma StartInv(s: Net, step: Step)
    requires Inv(s) && step.Start? && Enabled(s, step)
    ensures Inv(Apply(s, step))
  {
    hide Open, Seal, PacketInv, BufInv, DcInv, StreamInv, GenuineWire;
    var Start(a, m, iv, wantack) := step;
    var s' := Apply(s, step);
    SealGenuine(s', m, iv);
    NodeGrows(s, s', a);
    forall job | job in s'.nodes[a].jobs ensures JobInv(s', a, job) {
      if job in s.nodes[a].jobs {
        assert JobInv(s, a, job) by { assert NodeInv(s, a); }
        GenuineGrows(s, s', job.m);
        GenuineGrows(s, s', job.wire);
      }
    }
    StepInv(s, s', a);
  }

  /** A call that moves on or returns. */
  lemma AdvanceInv(s: Net, s': Net, a: nat, j: nat, c: Call)
    requires Inv(s) && a < |s.nodes| && j < |s.nodes[a].jobs| && ValidCall(c)
    requires s'.t == s.t && s'.sent == s.sent && s'.nodes == s.nodes[a := Advance(s.nodes[a], j, c)]
    requires forall p :: p in s'.air ==> p in s.air || PacketInv(s', p)
    ensures Inv(s')
  {
    hide PacketInv, DcInv, StreamInv, GenuineWire, Genuine, HeldElsewhere;
    var v, v' := s.nodes[a], s'.nodes[a];
    NodeGrows(s, s', a);
    forall job | job in v'.jobs ensures JobInv(s', a, job) {
      if job !in v.jobs {
        assert v.jobs[j] in v.jobs && job == v.jobs[j].(call := c);
      }
      GenuineGrows(s, s', job.m);
      GenuineGrows(s, s', job.wire);
    }
    if v'.buf != v.buf {
      DeleteInv(s, s', a, v.jobs[j].m.id);
    }
    StepInv(s, s', a);
  }

  lemma DeleteInv(s: Net, s': Net, a: nat, id: MsgId)
    requires Grows(s, s') && a < |s.nodes| && BufInv(s, a)
    requires s'.nodes[a].buf == Delete(s.nodes[a].buf, id)
    ensures BufInv(s', a)
  {
    hide Genuine, HeldElsewhere;
    var buf, buf' := s.nodes[a].buf, s'.nodes[a].buf;
    DeleteKeeps(buf, id);
    forall e | e in buf' ensures e in buf && Genuine(s', e.msg) {
      GenuineGrows(s, s', e.msg);
    }
    forall x: MsgId | x.ip == s'.nodes[a].ip && Count(buf', x) > 1 ensures HeldElsewhere(s', a, x) {
      DeleteCounts(buf, id, x);
      HeldGrows(s, s', a, x);
    }
  }

  lemma TransmitInv(s: Net, step: Step)
    requires Inv(s) && step.Transmit? && Enabled(s, step)
    ensures Inv(Apply(s, step))
  {
    hide BufInv, DcInv, StreamInv, GenuineWire, Genuine;
    var Transmit(a, j, ok) := step;
    var s', job := Apply(s, step), s.nodes[a].jobs[j];
    assert JobInv(s, a, job) by { assert NodeInv(s, a) && job in s.nodes[a].jobs; }
    GenuineGrows(s, s', job.wire);
    forall p | p in s'.air ensures p in s.air || PacketInv(s', p) {
      if p !in s.air {
        assert p in Broadcast(|s.nodes|, a, job.wire);
      }
    }
    AdvanceInv(s, s', a, j, AfterSend(job.call.n, job.wantack, ok));
  }

  lemma CheckInv(s: Net, step: Step)
    requires Inv(s) && step.Check? && Enabled(s, step)
    ensures Inv(Apply(s, step))
  {
    hide BufInv, DcInv, StreamInv, GenuineWire, Genuine, PacketInv;
    var Check(a, j) := step;
    var job := s.nodes[a].jobs[j];
    assert JobInv(s, a, job) by { assert NodeInv(s, a) && job in s.nodes[a].jobs; }
    AdvanceInv(s, Apply(s, step), a, j, AfterWait(job.call.n, Count(s.nodes[a].buf, job.m.id)));
  }

  lemma LoseInv(s: Net, step: Step)
    requires Inv(s) && step.Lose? && Enabled(s, step)
    ensures Inv(Apply(s, step))
  {
    hide NodeInv, PacketInv;
    var s' := Apply(s, step);
    forall a | 0 <= a < |s.nodes| ensures NodeInv(s', a) {
      NodeUnmoved(s, s', a);
    }
    forall p | p in s'.air ensures PacketInv(s', p) {
      PacketGrows(s, s', p);
    }
  }

  lemma NodeUnmoved(s: Net, s': Net, a: nat)
    requires Grows(s, s') && a < |s.nodes| && NodeInv(s, a) && s'.nodes[a] == s.nodes[a]
    ensures NodeInv(s', a)
  {
    hide BufInv, JobsInv, DcInv, StreamInv;
    NodeGrows(s, s', a);
  }

  /** The node that receives a datagram: the buffer part. */
  lemma ReceiveBufInv(s: Net, s': Net, p: Packet, r: int)
    requires Inv(s) && Grows(s, s') && p in s.air && p.from < |s.nodes| && p.to < |s.nodes|
    requires var v := s.nodes[p.to]; var o := Receive(v.ip, s.t, v.buf, s.nodes[p.from].ip, p.wire, r);
             s'.nodes[p.to] == SetBuf(Hear(v, p.wire), o.buf)
    ensures BufInv(s', p.to)
    ensures var v := s.nodes[p.to]; var o := Receive(v.ip, s.t, v.buf, s.nodes[p.from].ip, p.wire, r);
            o.fwd || o.reply ==> ValidKind(p.wire.kind) && p.wire.id in s'.nodes[p.to].ever
  {
    hide Open, Genuine, HeldElsewhere, Forwards;
    var a := p.to;
    var v, src := s.nodes[a], s.nodes[p.from].ip;
    assert NodeInv(s, a) && PacketInv(s, p);
    if !ValidKind(p.wire.kind) || Loopback(v.ip, v.buf, src, p.wire.id) {
      NodeGrows(s, s', a);
    } else {
      var m := Open(s.t, p.wire);
      AddKeeps(v.buf, m);
      AddGenuine(s, s', a, m);
      forall id: MsgId | id.ip == v.ip && Count(s'.nodes[a].buf, id) > 1 ensures HeldElsewhere(s', a, id) {
        AddCountsAtMost(v.buf, m, id);
        if Count(v.buf, id) > 1 {
          HeldGrows(s, s', a, id);
        } else {
          ForeignCopy(s, s', p);
        }
      }
      AddHeld(v.buf, m);
    }
  }

  /** An own message that does not come straight from the node itself has been held by whoever sent this copy. */
  lemma ForeignCopy(s: Net, s': Net, p: Packet)
    requires Inv(s) && Grows(s, s') && p in s.air && ValidKind(p.wire.kind)
    requires p.from < |s.nodes| && p.to < |s.nodes| && p.wire.id.ip == s.nodes[p.to].ip && s.nodes[p.from].ip != s.nodes[p.to].ip
    ensures HeldElsewhere(s', p.to, p.wire.id)
  {
    assert PacketInv(s, p);
    assert p.wire.id in s'.nodes[p.from].ever;
  }

  lemma AddGenuine(s: Net, s': Net, a: nat, m: Message)
    requires Grows(s, s') && a < |s.nodes| && BufInv(s, a) && Genuine(s, m)
    ensures forall e :: e in Add(s.nodes[a].buf, m).0 ==> Genuine(s', e.msg)
  {
    hide Genuine, HeldElsewhere;
    var buf := s.nodes[a].buf;
    forall e | e in Add(buf, m).0 ensures Genuine(s', e.msg) {
      AddEntries(buf, m, e);
      GenuineGrows(s, s', e.msg);
    }
  }

  lemma AddHeld(buf: Buf, m: Message)
    requires Distinct(buf)
    ensures m.id in IdSet(Add(buf, m).0)
  {
    AddCountsAtMost(buf, m, m.id);
    var b := Add(buf, m).0;
    assert b[Find(b, m.id)] in b;
  }

  lemma DeliverInv(s: Net, step: Step)
    requires Inv(s) && step.Deliver? && Enabled(s, step)
    ensures Inv(Apply(s, step))
  {
    hide Open, BufInv, JobsInv, StreamInv, Receive, GenuineWire;
    var Deliver(k, r) := step;
    var p, s' := s.air[k], Apply(s, step);
    var a, v := p.to, s.nodes[p.to];
    var o := Receive(v.ip, s.t, v.buf, s.nodes[p.from].ip, p.wire, r);
    assert p in s.air && PacketInv(s, p) && NodeInv(s, a);
    ReceiveBufInv(s, s', p, r);
    NodeGrows(s, s', a);
    forall q | q in s'.air ensures q in s.air || PacketInv(s', q) {
      var rest := RemoveAt(s.air, k);
      if q in rest {
        assert q in s.air;
      } else {
        var wires := Emitted(o, p.wire, v.dc);
        BroadcastFrom(|s.nodes|, a, wires, q);
        GenuineGrows(s, s', q.wire);
        assert q.wire == p.wire || q.wire == v.dc;
      }
    }
    StepInv(s, s', a);
  }

  lemma DumpGenuine(s: Net, b: nat, m: Message)
    requires b < |s.nodes| && BufInv(s, b) && m in Dump(s.nodes[b].ip, s.nodes[b].buf)
    ensures Genuine(s, m) && m.id in s.nodes[b].ever
  {
    hide Genuine, HeldElsewhere;
    var buf := s.nodes[b].buf;
    DumpMembers(s.nodes[b].ip, buf, m);
    var k :| 0 <= k < |buf| && buf[k].msg == m;
    assert buf[k] in buf;
  }

  lemma SyncOpenInv(s: Net, step: Step)
    requires Inv(s) && step.SyncOpen? && Enabled(s, step)
    ensures Inv(Apply(s, step))
  {
    hide Seal, Open, BufInv, JobsInv, DcInv, PacketInv, GenuineWire;
    var SyncOpen(a, b, ivs, cut) := step;
    var s' := Apply(s, step);
    assert NodeInv(s, a) && NodeInv(s, b);
    NodeGrows(s, s', a);
    forall w | w in s'.nodes[a].stream ensures ValidKind(w.kind) && GenuineWire(s', w) && w.id in s'.nodes[b].ever {
      var ws, d := SealedDump(s.t, s.nodes[b], ivs), Dump(s.nodes[b].ip, s.nodes[b].buf);
      var i :| 0 <= i < |ws| && ws[i] == w;
      assert d[i] in d;
      DumpGenuine(s, b, d[i]);
      SealGenuine(s, d[i], ivs[i]);
      GenuineGrows(s, s', w);
    }
    StepInv(s, s', a);
  }

  lemma HeldBy(s: Net, a: nat, b: nat, id: MsgId)
    requires b < |s.nodes| && b != a && id in s.nodes[b].ever
    ensures HeldElsewhere(s, a, id)
  {
  }

  lemma SyncBufInv(s: Net, s': Net, a: nat)
    requires Inv(s) && Grows(s, s') && a < |s.nodes| && s.nodes[a].stream != []
    requires s'.nodes[a].ip == s.nodes[a].ip && s'.nodes[a].buf == SyncOne(s.nodes[a].buf, Open(s.t, s.nodes[a].stream[0]))
    requires s'.nodes[a].ever == s.nodes[a].ever + IdSet(s'.nodes[a].buf)
    ensures BufInv(s', a)
  {
    hide Open, Genuine, HeldElsewhere;
    var v, v', w := s.nodes[a], s'.nodes[a], s.nodes[a].stream[0];
    var m := Open(s.t, w);
    assert NodeInv(s, a) && w in v.stream;
    SyncOneKeeps(v.buf, m);
    forall e | e in v'.buf ensures Genuine(s', e.msg) {
      GenuineGrows(s, s', e.msg);
    }
    forall id: MsgId | id.ip == v.ip && Count(v'.buf, id) > 1 ensures HeldElsewhere(s', a, id) {
      SyncOneCountsAtMost(v.buf, m, id);
      if Count(v.buf, id) > 1 {
        HeldGrows(s, s', a, id);
      } else {
        HeldBy(s, a, v.peer, id);
        HeldGrows(s, s', a, id);
      }
    }
  }

  lemma SyncReadInv(s: Net, step: Step)
    requires Inv(s) && step.SyncRead? && Enabled(s, step)
    ensures Inv(Apply(s, step))
  {
    hide Open, BufInv, JobsInv, DcInv, PacketInv, GenuineWire, SyncOne;
    var a, s' := step.a, Apply(s, step);
    NodeGrows(s, s', a);
    SyncBufInv(s, s', a);
    assert NodeInv(s, a);
    forall w | w in s'.nodes[a].stream ensures GenuineWire(s', w) && ValidKind(w.kind) && w.id in s'.nodes[s.nodes[a].peer].ever {
      GenuineGrows(s, s', w);
    }
    StepInv(s, s', a);
  }

  lemma SyncCloseInv(s: Net, step: Step)
    requires Inv(s) && step.SyncClose? && Enabled(s, step)
    ensures Inv(Apply(s, step))
  {
    hide BufInv, JobsInv, DcInv, PacketInv;
    NodeGrows(s, Apply(s, step), step.a);
    StepInv(s, Apply(s, step), step.a);
  }

  /** Every step keeps the invariant. */
  lemma ApplyInv(s: Net, step: Step)
    requires Inv(s) && Enabled(s, step)
    ensures Inv(Apply(s, step))
  {
    hide Inv, Enabled, Apply;
    match step
    case Boot(a, m, iv) => BootInv(s, step);
    case Start(a, m, iv, wantack) => StartInv(s, step);
    case Transmit(a, j, ok) => TransmitInv(s, step);
    case Check(a, j) => CheckInv(s, step);
    case Deliver(k, r) => DeliverInv(s, step);
    case Lose(k) => LoseInv(s, step);
    case SyncOpen(a, b, ivs, cut) => SyncOpenInv(s, step);
    case SyncRead(a) => SyncReadInv(s, step);
    case SyncClose(a) => SyncCloseInv(s, step);
  }

  lemma {:induction false} RunInv(s: Net, steps: seq<Step>)
    requires Init(s) && IsRun(s, steps)
    ensures Inv(Exec(s, steps))
  {
    hide Init, Inv, Enabled, Apply;
    if |steps| == 0 {
      InitInv(s);
    } else {
      var n := |steps| - 1;
      RunInv(s, steps[..n]);
      ApplyInv(Exec(s, steps[..n]), steps[n]);
    }
  }

  // ---------- what history means ----------

  /** What a step does to addresses and to the record of what was sent. */
  lemma StepRecord(s: Net, step: Step)
    requires Enabled(s, step)
    ensures var s' := Apply(s, step);
            && |s'.nodes| == |s.nodes| && s'.t == s.t
            && (forall i :: 0 <= i < |s.nodes| ==> s'.nodes[i].ip == s.nodes[i].ip)
            && s'.sent == (if step.Start? || step.Boot? then s.sent[step.m.id := Says(step.m)] else s.sent)
            && (step.Start? || step.Boot? ==> step.a < |s.nodes| && FreshId(s, step.a, step.m))
  {
    hide Receive, SyncOne, IdSet, Open, Seal, Dump;
  }

  /** Prefixes of a run are runs. */
  lemma {:induction false} RunPrefix(s: Net, steps: seq<Step>, k: nat)
    requires IsRun(s, steps) && k <= |steps|
    ensures IsRun(s, steps[..k])
    decreases |steps|
  {
    if k == |steps| {
      assert steps[..k] == steps;
    } else {
      RunPrefix(s, steps[..|steps| - 1], k);
      assert steps[..|steps| - 1][..k] == steps[..k];
    }
  }

  ghost function StateAt(s: Net, steps: seq<Step>, i: nat): (v: Net)
    requires IsRun(s, steps) && i <= |steps|
    ensures i < |steps| ==> Enabled(v, steps[i])
  {
    RunPrefix(s, steps, i);
    if i < |steps| then
      RunPrefix(s, steps, i + 1);
      assert steps[..i + 1][..i] == steps[..i];
      Exec(s, steps[..i])
    else Exec(s, steps[..i])
  }

  /** After k steps of the run, node b holds a message with this id that says `what`. */
  ghost predicate HeldAfter(s: Net, steps: seq<Step>, k: nat, b: nat, what: Content)
    requires IsRun(s, steps)
  {
    && k <= |steps|
    && (RunPrefix(s, steps, k); var v := Exec(s, steps[..k]);
        b < |v.nodes| && exists e :: e in v.nodes[b].buf && Says(e.msg) == what)
  }

  /** An id in a node's history was held by that node at some point of the run, with the content its origin sent. */
  lemma {:induction false} EverHeld(s: Net, steps: seq<Step>, b: nat, id: MsgId) returns (k: nat)
    requires Init(s) && IsRun(s, steps)
    requires b < |Exec(s, steps).nodes| && id in Exec(s, steps).nodes[b].ever
    ensures id in Exec(s, steps).sent && HeldAfter(s, steps, k, b, Exec(s, steps).sent[id])
    decreases |steps|
  {
    hide Init, Inv, Apply, Enabled, Genuine;
    var s' := Exec(s, steps);
    RunInv(s, steps);
    if id in IdSet(s'.nodes[b].buf) {
      k := |steps|;
      assert steps[..k] == steps;
      var e :| e in s'.nodes[b].buf && e.msg.id == id;
      EntryGenuine(s', b, e);
    } else {
      InitEver(s, steps, b, id);
      var n := |steps| - 1;
      var mid := Exec(s, steps[..n]);
      RunInv(s, steps[..n]);
      EverStep(mid, steps[n], b, id);
      k := EverHeld(s, steps[..n], b, id);
      StepRecord(mid, steps[n]);
      RunPrefix(s, steps, k);
      assert steps[..n][..k] == steps[..k];
    }
  }

  lemma EntryGenuine(s: Net, b: nat, e: Entry)
    requires Inv(s) && b < |s.nodes| && e in s.nodes[b].buf
    ensures e.msg.id in s.sent && s.sent[e.msg.id] == Says(e.msg) && ValidKind(e.msg.kind)
  {
    assert NodeInv(s, b) && Genuine(s, e.msg);
  }

  lemma InitEver(s: Net, steps: seq<Step>, b: nat, id: MsgId)
    requires Init(s) && IsRun(s, steps) && b < |Exec(s, steps).nodes| && id in Exec(s, steps).nodes[b].ever
    ensures |steps| > 0
  {
    hide Apply, Enabled;
  }

  lemma EverStep(s: Net, step: Step, b: nat, id: MsgId)
    requires Inv(s) && Enabled(s, step) && b < |Apply(s, step).nodes|
    requires id in Apply(s, step).nodes[b].ever && id !in IdSet(Apply(s, step).nodes[b].buf)
    ensures b < |s.nodes| && id in s.nodes[b].ever
  {
    hide Inv, Receive, SyncOne, IdSet, Open, Seal, Dump;
  }

  // ---------- main results ----------

  /** Step k of the run hands this content to its origin's mcast_send, or sets it up as the discovery message. */
  ghost predicate Originates(s: Net, steps: seq<Step>, k: nat, what: Content) {
    && k < |steps| && (steps[k].Start? || steps[k].Boot?)
    && steps[k].a < |s.nodes| && s.nodes[steps[k].a].ip == what.id.ip
    && Says(steps[k].m) == what
  }

  lemma {:induction false} SameAddresses(s: Net, steps: seq<Step>)
    requires IsRun(s, steps)
    ensures var s' := Exec(s, steps); |s'.nodes| == |s.nodes| && s'.t == s.t && forall i :: 0 <= i < |s.nodes| ==> s'.nodes[i].ip == s.nodes[i].ip
  {
    hide Apply, Enabled;
    if |steps| > 0 {
      var n := |steps| - 1;
      SameAddresses(s, steps[..n]);
      StepRecord(Exec(s, steps[..n]), steps[n]);
    }
  }

  /** The content recorded for an id was handed in by a step of its origin, and every step that used the id handed in the same. */
  lemma {:induction false} SentMeans(s: Net, steps: seq<Step>, id: MsgId) returns (k: nat)
    requires Init(s) && IsRun(s, steps) && id in Exec(s, steps).sent
    ensures Originates(s, steps, k, Exec(s, steps).sent[id]) && Exec(s, steps).sent[id].id == id
    ensures forall i :: 0 <= i < |steps| && (steps[i].Start? || steps[i].Boot?) && steps[i].m.id == id
                        ==> Says(steps[i].m) == Exec(s, steps).sent[id]
  {
    hide Apply, Enabled;
    assert |steps| > 0;
    var n := |steps| - 1;
    var mid, step := Exec(s, steps[..n]), steps[n];
    SameAddresses(s, steps[..n]);
    StepRecord(mid, step);
    if id in mid.sent {
      k := SentMeans(s, steps[..n], id);
      assert forall i :: 0 <= i < n ==> steps[..n][i] == steps[i];
    } else {
      k := n;
      NotSentBefore(s, steps[..n], id);
      assert forall i :: 0 <= i < n ==> steps[..n][i] == steps[i];
    }
  }

  lemma {:induction false} NotSentBefore(s: Net, steps: seq<Step>, id: MsgId)
    requires IsRun(s, steps) && id !in Exec(s, steps).sent
    ensures forall i :: 0 <= i < |steps| && (steps[i].Start? || steps[i].Boot?) ==> steps[i].m.id != id
  {
    hide Apply, Enabled;
    if |steps| > 0 {
      var n := |steps| - 1;
      StepRecord(Exec(s, steps[..n]), steps[n]);
      NotSentBefore(s, steps[..n], id);
      assert forall i :: 0 <= i < n ==> steps[..n][i] == steps[i];
    }
  }

  /** End-to-end agreement: whatever a node holds, by any chain of relays, retransmissions and syncs, has the type, id and text
      its origin passed to mcast_send, and nothing else was ever sent under that id. */
  lemma Agreement(s: Net, steps: seq<Step>, b: nat, e: Entry) returns (k: nat)
    requires Init(s) && IsRun(s, steps) && b < |Exec(s, steps).nodes| && e in Exec(s, steps).nodes[b].buf
    ensures Originates(s, steps, k, Says(e.msg))
    ensures forall i :: 0 <= i < |steps| && (steps[i].Start? || steps[i].Boot?) && steps[i].m.id == e.msg.id
                        ==> Says(steps[i].m) == Says(e.msg)
  {
    hide Init, Inv, Apply, Enabled;
    RunInv(s, steps);
    EntryGenuine(Exec(s, steps), b, e);
    k := SentMeans(s, steps, e.msg.id);
  }

  /** Acknowledgements are sound: when mcast_send is about to return 0 after a wait, some other node held the message
      at some point of the run, with the very content that was sent. */
  lemma AckSoundness(s: Net, steps: seq<Step>, a: nat, j: nat) returns (b: nat, k: nat)
    requires Init(s) && IsRun(s, steps) && Enabled(Exec(s, steps), Check(a, j))
    requires var v := Exec(s, steps).nodes[a]; var job := v.jobs[j];
             AfterWait(job.call.n, Count(v.buf, job.m.id)) == Returned(0)
    ensures b != a && HeldAfter(s, steps, k, b, Says(Exec(s, steps).nodes[a].jobs[j].m))
  {
    hide Init, Inv, Apply, HeldAfter;
    var s' := Exec(s, steps);
    var m := s'.nodes[a].jobs[j].m;
    RunInv(s, steps);
    b := AckHeld(s', a, j);
    k := EverHeld(s, steps, b, m.id);
  }

  lemma AckHeld(s: Net, a: nat, j: nat) returns (b: nat)
    requires Inv(s) && a < |s.nodes| && j < |s.nodes[a].jobs|
    requires Count(s.nodes[a].buf, s.nodes[a].jobs[j].m.id) > 1
    ensures b < |s.nodes| && b != a && s.nodes[a].jobs[j].m.id in s.nodes[b].ever
    ensures var m := s.nodes[a].jobs[j].m; m.id in s.sent && s.sent[m.id] == Says(m)
  {
    var v := s.nodes[a];
    assert NodeInv(s, a) && JobInv(s, a, v.jobs[j]);
    assert HeldElsewhere(s, a, v.jobs[j].m.id);
    b :| 0 <= b < |s.nodes| && b != a && v.jobs[j].m.id in s.nodes[b].ever;
  }
}
