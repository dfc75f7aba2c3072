/** Multi-hop delivery: what flooding achieves when the network loses nothing across its links. */
module Flooding {
  import opened Sequences
  import opened Bytes
  import opened Messages
  import opened Mcast
  import opened Buffer
  import opened Network
  import opened Soundness

  /** A copy of the message crossing a link towards w. */
  ghost predicate OnItsWay(s: Net, links: set<(nat, nat)>, w: nat, id: MsgId) {
    exists p :: p in s.air && p.to == w && p.wire.id == id && ValidKind(p.wire.kind) && (p.from, w) in links
  }

  /** The node has heard the message, or a copy it put on the air is still around. */
  ghost predicate Active(s: Net, v: nat, id: MsgId)
    requires v < |s.nodes|
  {
    id in s.nodes[v].heard || exists p :: p in s.air && p.from == v && p.wire.id == id && ValidKind(p.wire.kind)
  }

  ghost predicate Served(s: Net, links: set<(nat, nat)>, w: nat, id: MsgId)
    requires w < |s.nodes|
  {
    id in s.nodes[w].heard || OnItsWay(s, links, w, id)
  }

  /** Every neighbour of an active node has heard the message or is about to. */
  ghost predicate Spread(s: Net, links: set<(nat, nat)>) {
    forall v, w, id :: 0 <= v < |s.nodes| && 0 <= w < |s.nodes| && (v, w) in links && Active(s, v, id) ==> Served(s, links, w, id)
  }

  /** Only copies between nodes that are not linked get lost. */
  ghost predicate Reliable(s: Net, links: set<(nat, nat)>, step: Step)
    requires Enabled(s, step)
  {
    step.Lose? ==> (s.air[step.k].from, s.air[step.k].to) !in links
  }

  // ---------- what was not heard yet ----------

  /** A message never heard is not held, or it came by synchronisation and is still at count 2. */
  ghost predicate Unheard(heard: set<MsgId>, buf: Buf) {
    forall id :: id !in heard ==> Count(buf, id) == 0 || Count(buf, id) == 2
  }

  /** What was heard was also held, and what was not is uncounted. */
  ghost predicate HeardInv(s: Net) {
    forall a :: 0 <= a < |s.nodes| ==> s.nodes[a].heard <= s.nodes[a].ever && Unheard(s.nodes[a].heard, s.nodes[a].buf)
  }

  lemma AddUnheard(heard: set<MsgId>, buf: Buf, m: Message)
    requires Distinct(buf) && Unheard(heard, buf)
    ensures Unheard(heard + {m.id}, Add(buf, m).0)
  {
    hide Count, Add;
    forall id | id !in heard + {m.id} ensures Count(Add(buf, m).0, id) == 0 || Count(Add(buf, m).0, id) == 2 {
      AddKeepsOrDrops(buf, m, id);
    }
  }

  lemma DeleteUnheard(heard: set<MsgId>, buf: Buf, id: MsgId)
    requires Distinct(buf) && Unheard(heard, buf)
    ensures Unheard(heard, Delete(buf, id))
  {
    hide Count;
    forall x | x !in heard ensures Count(Delete(buf, id), x) == 0 || Count(Delete(buf, id), x) == 2 {
      DeleteCounts(buf, id, x);
    }
  }

  lemma SyncUnheard(heard: set<MsgId>, buf: Buf, m: Message)
    requires Distinct(buf) && Unheard(heard, buf)
    ensures Unheard(heard, SyncOne(buf, m))
  {
    hide Count;
    if !Holds(buf, m.id) {
      forall x | x !in heard ensures Count(SyncOne(buf, m), x) == 0 || Count(SyncOne(buf, m), x) == 2 {
        AppendCounts(buf, Entry(2, m), x);
      }
    }
  }

  /** A datagram that is counted ends up in the history, and one heard for the first time is passed on unless it is the node's own. */
  lemma ReceiveSpreads(s: Net, p: Packet, r: int)
    requires Inv(s) && HeardInv(s) && p in s.air && p.from < |s.nodes| && p.to < |s.nodes| && ValidKind(p.wire.kind)
    ensures var v := s.nodes[p.to]; var src := s.nodes[p.from].ip;
            var o := Receive(v.ip, s.t, v.buf, src, p.wire, r);
            && p.wire.id in v.ever + IdSet(o.buf)
            && (p.wire.id !in v.heard && src != v.ip ==> o.fwd)
            && Unheard(v.heard + {p.wire.id}, o.buf)
  {
    hide Open, HeldElsewhere, JobsInv, DcInv, StreamInv, Unheard;
    var v, src := s.nodes[p.to], s.nodes[p.from].ip;
    assert NodeInv(s, p.to);
    if Loopback(v.ip, v.buf, src, p.wire.id) {
      var k := Find(v.buf, p.wire.id);
      assert v.buf[k] in v.buf;
      UnheardGrows(v.heard, p.wire.id, v.buf);
    } else {
      var m := Open(s.t, p.wire);
      AddHeld(v.buf, m);
      AddUnheard(v.heard, v.buf, m);
      AddCountsAtMost(v.buf, m, m.id);
      if m.id !in v.heard {
        UnheardCount(v.heard, v.buf, m.id);
      }
    }
  }

  lemma UnheardGrows(heard: set<MsgId>, id: MsgId, buf: Buf)
    requires Unheard(heard, buf)
    ensures Unheard(heard + {id}, buf)
  {
  }

  lemma UnheardCount(heard: set<MsgId>, buf: Buf, id: MsgId)
    requires Unheard(heard, buf) && id !in heard
    ensures Count(buf, id) == 0 || Count(buf, id) == 2
  {
  }

  lemma InvalidIgnored(s: Net, p: Packet, r: int)
    requires p.from < |s.nodes| && p.to < |s.nodes| && !ValidKind(p.wire.kind)
    ensures var v := s.nodes[p.to];
            Receive(v.ip, s.t, v.buf, s.nodes[p.from].ip, p.wire, r) == Outcome(v.buf, false, false)
  {
  }

  /** What a step does to the node that takes it. */
  lemma HeardStep(s: Net, step: Step)
    requires Inv(s) && HeardInv(s) && Enabled(s, step)
    ensures HeardInv(Apply(s, step))
  {
    hide Inv, Unheard, Receive, SyncOne, Open, Seal, Dump, Count, Delete;
    match step
    case Deliver(k, r) =>
      var p := s.air[k];
      assert p in s.air;
      if ValidKind(p.wire.kind) {
        ReceiveSpreads(s, p, r);
      } else {
        InvalidIgnored(s, p, r);
      }
    case SyncRead(a) =>
      BufDistinct(s, a);
      SyncUnheard(s.nodes[a].heard, s.nodes[a].buf, Open(s.t, s.nodes[a].stream[0]));
    case Transmit(a, j, ok) =>
      BufDistinct(s, a);
      DeleteUnheard(s.nodes[a].heard, s.nodes[a].buf, s.nodes[a].jobs[j].m.id);
    case Check(a, j) =>
      BufDistinct(s, a);
      DeleteUnheard(s.nodes[a].heard, s.nodes[a].buf, s.nodes[a].jobs[j].m.id);
    case _ =>
  }

  lemma InitHeard(s: Net)
    requires Init(s)
    ensures HeardInv(s)
  {
    assert forall a, id :: 0 <= a < |s.nodes| ==> Count(s.nodes[a].buf, id) == 0;
  }

  // ---------- the steps ----------

  /** Serving carries over when history grows and the copies that disappear were lost off the links or heard by their receiver. */
  lemma ServedGrows(s: Net, s': Net, links: set<(nat, nat)>, w: nat, id: MsgId)
    requires |s.nodes| == |s'.nodes| && w < |s.nodes| && s.nodes[w].heard <= s'.nodes[w].heard && Served(s, links, w, id)
    requires forall p :: p in s.air && p !in s'.air && p.to == w && ValidKind(p.wire.kind) && (p.from, w) in links
                         ==> p.wire.id in s'.nodes[w].heard
    ensures Served(s', links, w, id)
  {
    if id !in s.nodes[w].heard {
      var p :| p in s.air && p.to == w && p.wire.id == id && ValidKind(p.wire.kind) && (p.from, w) in links;
      if p in s'.air {
        assert OnItsWay(s', links, w, id);
      }
    }
  }

  /** Steps other than transmissions, deliveries and losses leave the air and what was heard as they are. */
  lemma QuietStep(s: Net, step: Step)
    requires Enabled(s, step) && !step.Transmit? && !step.Deliver? && !step.Lose?
    ensures var s' := Apply(s, step);
            && s'.air == s.air && |s'.nodes| == |s.nodes|
            && forall i :: 0 <= i < |s.nodes| ==> s'.nodes[i].heard == s.nodes[i].heard
  {
    hide Seal, Count, SyncOne, Dump, Open;
  }

  /** A node once served stays served. */
  lemma ServedKept(s: Net, step: Step, links: set<(nat, nat)>, w: nat, id: MsgId)
    requires Enabled(s, step) && Reliable(s, links, step) && w < |s.nodes| == |Apply(s, step).nodes| && Served(s, links, w, id)
    ensures Served(Apply(s, step), links, w, id)
  {
    hide Receive, OnItsWay, Served, Open, Seal;
    var s' := Apply(s, step);
    match step
    case Deliver(k, r) =>
      forall q | q in s.air && q != s.air[k] ensures q in s'.air {
        InRemoveAt(s.air, k, q);
      }
      ServedGrows(s, s', links, w, id);
    case Lose(k) =>
      forall q | q in s.air && q != s.air[k] ensures q in s'.air {
        InRemoveAt(s.air, k, q);
      }
      ServedGrows(s, s', links, w, id);
    case Transmit(a, j, ok) => ServedGrows(s, s', links, w, id);
    case _ =>
      QuietStep(s, step);
      ServedGrows(s, s', links, w, id);
  }

  /** A broadcast of a valid message serves everybody linked. */
  lemma BroadcastServes(s: Net, links: set<(nat, nat)>, v: nat, w: nat, wire: Message)
    requires w < |s.nodes| && Packet(v, w, wire) in s.air && ValidKind(wire.kind) && (v, w) in links
    ensures Served(s, links, w, wire.id)
  {
    assert OnItsWay(s, links, w, wire.id);
  }

  lemma TransmitServes(s: Net, step: Step, links: set<(nat, nat)>, w: nat)
    requires step.Transmit? && step.ok && Enabled(s, step) && w < |s.nodes| && (step.a, w) in links
    requires ValidKind(s.nodes[step.a].jobs[step.j].wire.kind)
    ensures w < |Apply(s, step).nodes| && Served(Apply(s, step), links, w, s.nodes[step.a].jobs[step.j].wire.id)
  {
    var a, wire := step.a, s.nodes[step.a].jobs[step.j].wire;
    assert Broadcast(|s.nodes|, a, wire)[w] == Packet(a, w, wire);
    BroadcastServes(Apply(s, step), links, a, w, wire);
  }

  lemma TransmitSpreads(s: Net, step: Step, links: set<(nat, nat)>)
    requires Inv(s) && Spread(s, links) && step.Transmit? && Enabled(s, step)
    ensures Spread(Apply(s, step), links)
  {
    hide Inv, OnItsWay;
    var s', wire := Apply(s, step), s.nodes[step.a].jobs[step.j].wire;
    forall v, w, id | 0 <= v < |s.nodes| && 0 <= w < |s.nodes| && (v, w) in links && Active(s', v, id)
      ensures Served(s', links, w, id)
    {
      if Active(s, v, id) {
        ServedKept(s, step, links, w, id);
      } else {
        assert v == step.a && id == wire.id;
        TransmitServes(s, step, links, w);
      }
    }
  }

  lemma DeliverSpreads(s: Net, step: Step, links: set<(nat, nat)>)
    requires Inv(s) && HeardInv(s) && Spread(s, links) && step.Deliver? && Enabled(s, step)
    ensures Spread(Apply(s, step), links)
  {
    hide Inv, HeardInv, OnItsWay, Receive;
    var Deliver(k, r) := step;
    var p, s' := s.air[k], Apply(s, step);
    var a, node := p.to, s.nodes[p.to];
    var o := Receive(node.ip, s.t, node.buf, s.nodes[p.from].ip, p.wire, r);
    var wires := Emitted(o, p.wire, node.dc);
    forall v, w, id | 0 <= v < |s.nodes| && 0 <= w < |s.nodes| && (v, w) in links && Active(s', v, id)
      ensures Served(s', links, w, id)
    {
      if Active(s, v, id) {
        ServedKept(s, step, links, w, id);
      } else {
        NewlyActive(s, step, v, id);
        if id == p.wire.id && o.fwd && ValidKind(p.wire.kind) {
          InBroadcast(|s.nodes|, a, wires, p.wire, w);
          BroadcastServes(s', links, a, w, p.wire);
        } else {
          InBroadcast(|s.nodes|, a, wires, node.dc, w);
          BroadcastServes(s', links, a, w, node.dc);
        }
      }
    }
  }

  /** A node becomes active by passing the message on or by answering with its discovery message. */
  lemma NewlyActive(s: Net, step: Step, v: nat, id: MsgId)
    requires Inv(s) && HeardInv(s) && step.Deliver? && Enabled(s, step) && v < |s.nodes|
    requires !Active(s, v, id) && Active(Apply(s, step), v, id)
    ensures var p := s.air[step.k]; var node := s.nodes[p.to];
            var o := Receive(node.ip, s.t, node.buf, s.nodes[p.from].ip, p.wire, step.r);
            && v == p.to
            && ((id == p.wire.id && o.fwd && ValidKind(p.wire.kind)) || (id == node.dc.id && o.reply && ValidKind(node.dc.kind)))
  {
    hide Inv, HeardInv, Receive;
    var p, s' := s.air[step.k], Apply(s, step);
    var node := s.nodes[p.to];
    var o := Receive(node.ip, s.t, node.buf, s.nodes[p.from].ip, p.wire, step.r);
    assert p in s.air;
    if ValidKind(p.wire.kind) {
      ReceiveSpreads(s, p, step.r);
    } else {
      InvalidIgnored(s, p, step.r);
    }
    if id in s'.nodes[v].heard {
      DistinctIps(s, p.from, p.to);
    } else {
      var q :| q in s'.air && q.from == v && q.wire.id == id && ValidKind(q.wire.kind);
      assert forall x :: x in RemoveAt(s.air, step.k) ==> x in s.air;
      if q !in RemoveAt(s.air, step.k) {
        BroadcastFrom(|s.nodes|, p.to, Emitted(o, p.wire, node.dc), q);
      }
    }
  }

  /** Where nobody becomes active, nothing has to spread. */
  lemma OthersSpread(s: Net, step: Step, links: set<(nat, nat)>)
    requires Spread(s, links) && Enabled(s, step) && !step.Transmit? && !step.Deliver? && Reliable(s, links, step)
    ensures Spread(Apply(s, step), links)
  {
    hide Served, Open, Seal, SyncOne, Count, Dump;
    var s' := Apply(s, step);
    assert forall q :: q in s'.air ==> q in s.air;
    assert |s'.nodes| == |s.nodes| && forall i :: 0 <= i < |s.nodes| ==> s'.nodes[i].heard == s.nodes[i].heard;
    forall v, w, id | 0 <= v < |s.nodes| && 0 <= w < |s.nodes| && (v, w) in links && Active(s', v, id)
      ensures Served(s', links, w, id)
    {
      assert Active(s, v, id) && Served(s, links, w, id);
      ServedKept(s, step, links, w, id);
    }
  }

  /** Every step keeps what flooding has achieved, synchronisation steps included. */
  lemma StepSpreads(s: Net, step: Step, links: set<(nat, nat)>)
    requires Inv(s) && HeardInv(s) && Spread(s, links) && Enabled(s, step) && Reliable(s, links, step)
    ensures Spread(Apply(s, step), links)
  {
    hide Inv, HeardInv, Spread, Enabled, Apply;
    match step
    case Transmit(a, j, ok) => TransmitSpreads(s, step, links);
    case Deliver(k, r) => DeliverSpreads(s, step, links);
    case _ => OthersSpread(s, step, links);
  }

  ghost predicate ReliableRun(s: Net, links: set<(nat, nat)>, steps: seq<Step>)
    requires IsRun(s, steps)
    decreases |steps|
  {
    |steps| > 0 ==>
      var n := |steps| - 1;
      ReliableRun(s, links, steps[..n]) && Reliable(Exec(s, steps[..n]), links, steps[n])
  }

  lemma {:induction false} RunHeard(s: Net, steps: seq<Step>)
    requires Init(s) && IsRun(s, steps)
    ensures HeardInv(Exec(s, steps))
  {
    hide Init, Apply, Enabled, Inv, HeardInv;
    if |steps| == 0 {
      InitHeard(s);
    } else {
      var n := |steps| - 1;
      RunHeard(s, steps[..n]);
      RunInv(s, steps[..n]);
      HeardStep(Exec(s, steps[..n]), steps[n]);
    }
  }

  lemma {:induction false} RunSpreads(s: Net, links: set<(nat, nat)>, steps: seq<Step>)
    requires Init(s) && IsRun(s, steps) && ReliableRun(s, links, steps)
    ensures Spread(Exec(s, steps), links)
  {
    hide Apply, Enabled, Inv, HeardInv, Reliable;
    if |steps| > 0 {
      var n := |steps| - 1;
      RunSpreads(s, links, steps[..n]);
      RunInv(s, steps[..n]);
      RunHeard(s, steps[..n]);
      StepSpreads(Exec(s, steps[..n]), steps[n], links);
    }
  }

  /** A chain of links between nodes of the network. */
  ghost predicate Path(links: set<(nat, nat)>, n: nat, path: seq<nat>) {
    && |path| > 0 && (forall i :: 0 <= i < |path| ==> path[i] < n)
    && forall i :: 0 <= i < |path| - 1 ==> (path[i], path[i + 1]) in links
  }

  lemma {:induction false} Reach(s: Net, links: set<(nat, nat)>, id: MsgId, path: seq<nat>)
    requires Spread(s, links) && Path(links, |s.nodes|, path) && id in s.nodes[path[0]].heard
    requires forall w :: 0 <= w < |s.nodes| ==> !OnItsWay(s, links, w, id)
    ensures id in s.nodes[path[|path| - 1]].heard
  {
    hide OnItsWay;
    if |path| > 1 {
      assert (path[0], path[1]) in links && Active(s, path[0], id);
      assert Served(s, links, path[1], id);
      Reach(s, links, id, path[1..]);
    }
  }

  /** Flooding reaches everyone it can: in a run that loses copies only between nodes not linked, once no copy of a message is
      crossing a link any more, every node joined by links to one that heard the message has heard and held it too, with the very
      content its origin sent. Nodes may synchronise at any time. */
  lemma FloodReaches(s: Net, links: set<(nat, nat)>, steps: seq<Step>, id: MsgId, path: seq<nat>) returns (k: nat)
    requires Init(s) && IsRun(s, steps) && ReliableRun(s, links, steps)
    requires var s' := Exec(s, steps);
             && Path(links, |s'.nodes|, path) && id in s'.nodes[path[0]].heard
             && forall w :: 0 <= w < |s'.nodes| ==> !OnItsWay(s', links, w, id)
    ensures id in Exec(s, steps).nodes[path[|path| - 1]].heard
    ensures id in Exec(s, steps).sent && HeldAfter(s, steps, k, path[|path| - 1], Exec(s, steps).sent[id])
  {
    hide Init, Apply, Enabled, Spread, ReliableRun, HeldAfter, OnItsWay;
    RunSpreads(s, links, steps);
    Reach(Exec(s, steps), links, id, path);
    RunHeard(s, steps);
    k := EverHeld(s, steps, path[|path| - 1], id);
  }

  lemma {:induction false} ServedStays(s: Net, links: set<(nat, nat)>, steps: seq<Step>, i: nat, w: nat, id: MsgId)
    requires IsRun(s, steps) && ReliableRun(s, links, steps) && i <= |steps|
    requires w < |StateAt(s, steps, i).nodes| && Served(StateAt(s, steps, i), links, w, id)
    ensures w < |Exec(s, steps).nodes| && Served(Exec(s, steps), links, w, id)
    decreases |steps|
  {
    hide Apply, Enabled, Reliable, Served;
    if i == |steps| {
      assert steps[..i] == steps;
    } else {
      var n := |steps| - 1;
      assert steps[..n][..i] == steps[..i];
      ServedStays(s, links, steps[..n], i, w, id);
      StepRecord(Exec(s, steps[..n]), steps[n]);
      ServedKept(Exec(s, steps[..n]), steps[n], links, w, id);
    }
  }

  /** The same from the transmission on: whatever mcast_send puts on the air reaches every node joined to it by links. */
  lemma TransmissionReaches(s: Net, links: set<(nat, nat)>, steps: seq<Step>, i: nat, id: MsgId, path: seq<nat>) returns (k: nat)
    requires Init(s) && IsRun(s, steps) && ReliableRun(s, links, steps) && i < |steps| && steps[i].Transmit? && steps[i].ok
    requires id == StateAt(s, steps, i).nodes[steps[i].a].jobs[steps[i].j].m.id
    requires var s' := Exec(s, steps);
             && Path(links, |s'.nodes|, path) && |path| > 1 && path[0] == steps[i].a
             && forall w :: 0 <= w < |s'.nodes| ==> !OnItsWay(s', links, w, id)
    ensures id in Exec(s, steps).nodes[path[|path| - 1]].heard
    ensures id in Exec(s, steps).sent && HeldAfter(s, steps, k, path[|path| - 1], Exec(s, steps).sent[id])
  {
    hide Init, Inv, Apply, ReliableRun, HeldAfter, OnItsWay;
    var v, w := StateAt(s, steps, i), path[1];
    RunPrefix(s, steps, i);
    RunInv(s, steps[..i]);
    SameAddresses(s, steps[..i]);
    SameAddresses(s, steps);
    WireOf(v, steps[i].a, steps[i].j);
    TransmitServes(v, steps[i], links, w);
    RunPrefix(s, steps, i + 1);
    assert steps[..i + 1][..i] == steps[..i];
    assert StateAt(s, steps, i + 1) == Apply(v, steps[i]);
    ServedStays(s, links, steps, i + 1, w, id);
    assert (path[0], path[1]) in links;
    k := FloodReaches(s, links, steps, id, path[1..]);
  }

  lemma WireOf(s: Net, a: nat, j: nat)
    requires Inv(s) && a < |s.nodes| && j < |s.nodes[a].jobs|
    ensures var job := s.nodes[a].jobs[j]; job.wire.id == job.m.id && ValidKind(job.wire.kind)
  {
    assert NodeInv(s, a) && JobInv(s, a, s.nodes[a].jobs[j]);
  }

  /** Without synchronisation every message a node has held it has heard. */
  lemma {:induction false} HeldIsHeard(s: Net, steps: seq<Step>, a: nat)
    requires Init(s) && IsRun(s, steps) && (forall i :: 0 <= i < |steps| ==> !steps[i].SyncRead?) && a < |Exec(s, steps).nodes|
    ensures Exec(s, steps).nodes[a].heard == Exec(s, steps).nodes[a].ever
  {
    hide Apply, Enabled, Inv, HeardInv;
    if |steps| > 0 {
      var n := |steps| - 1;
      var mid := Exec(s, steps[..n]);
      assert forall i :: 0 <= i < n ==> steps[..n][i] == steps[i];
      StepRecord(mid, steps[n]);
      HeldIsHeard(s, steps[..n], a);
      RunInv(s, steps[..n]);
      RunHeard(s, steps);
      EverFromHeard(mid, steps[n], a);
    }
  }

  lemma EverFromHeard(s: Net, step: Step, a: nat)
    requires Inv(s) && Enabled(s, step) && !step.SyncRead? && a < |s.nodes| == |Apply(s, step).nodes|
    requires s.nodes[a].heard == s.nodes[a].ever && HeardInv(Apply(s, step))
    ensures Apply(s, step).nodes[a].heard == Apply(s, step).nodes[a].ever
  {
    hide Inv, Receive, Seal, Open, Dump, Count, Delete;
    if step.Deliver? && s.air[step.k].to == a {
      var p, v := s.air[step.k], s.nodes[a];
      BufDistinct(s, a);
      forall id | id in IdSet(Receive(v.ip, s.t, v.buf, s.nodes[p.from].ip, p.wire, step.r).buf) && id !in v.ever
        ensures ValidKind(p.wire.kind) && id == p.wire.id
      {
        ReceivedIds(s, p, step.r, id);
      }
    }
  }

  lemma ReceivedIds(s: Net, p: Packet, r: int, id: MsgId)
    requires p.from < |s.nodes| && p.to < |s.nodes|
    requires var v := s.nodes[p.to]; id in IdSet(Receive(v.ip, s.t, v.buf, s.nodes[p.from].ip, p.wire, r).buf)
    ensures id in IdSet(s.nodes[p.to].buf) || (ValidKind(p.wire.kind) && id == p.wire.id)
  {
    hide Open, Add;
    var v := s.nodes[p.to];
    var o := Receive(v.ip, s.t, v.buf, s.nodes[p.from].ip, p.wire, r);
    var e :| e in o.buf && e.msg.id == id;
    if ValidKind(p.wire.kind) && !Loopback(v.ip, v.buf, s.nodes[p.from].ip, p.wire.id) {
      AddEntries(v.buf, Open(s.t, p.wire), e);
    }
  }

  // ---------- a node that only synchronised ----------

  lemma Extended(s: Net, links: set<(nat, nat)>, steps: seq<Step>, step: Step)
    requires IsRun(s, steps) && ReliableRun(s, links, steps)
    requires Enabled(Exec(s, steps), step) && Reliable(Exec(s, steps), links, step)
    ensures IsRun(s, steps + [step]) && ReliableRun(s, links, steps + [step])
    ensures Exec(s, steps + [step]) == Apply(Exec(s, steps), step)
  {
    assert (steps + [step])[..|steps|] == steps;
  }

  lemma LoseAll(s: Net, links: set<(nat, nat)>, steps: seq<Step>) returns (more: seq<Step>)
    requires IsRun(s, steps) && ReliableRun(s, links, steps)
    requires forall p :: p in Exec(s, steps).air ==> (p.from, p.to) !in links
    ensures IsRun(s, more) && ReliableRun(s, links, more) && Exec(s, more) == Exec(s, steps).(air := [])
    decreases |Exec(s, steps).air|
  {
    var v := Exec(s, steps);
    more := steps;
    if |v.air| > 0 {
      Extended(s, links, steps, Lose(0));
      more := LoseAll(s, links, steps + [Lose(0)]);
    }
  }

  /** The state after node 0 put a message on the air. */
  lemma FirstSend(s: Net, links: set<(nat, nat)>, m: Message, iv: seq<byte>) returns (steps: seq<Step>)
    requires Init(s) && |s.nodes| > 0 && |iv| == 8 && ValidKind(m.kind) && m.id.ip == s.nodes[0].ip
    ensures IsRun(s, steps) && ReliableRun(s, links, steps)
    ensures var v := Exec(s, steps);
            && |v.nodes| == |s.nodes| && v.t == s.t && (forall i :: 0 < i < |s.nodes| ==> v.nodes[i] == s.nodes[i])
            && v.nodes[0].ip == s.nodes[0].ip && v.air == Broadcast(|s.nodes|, 0, Seal(s.t, iv, m))
  {
    hide Seal;
    assert IsRun(s, []) && ReliableRun(s, links, []);
    var start, transmit := Start(0, m, iv, false), Transmit(0, 0, true);
    Extended(s, links, [], start);
    var s1 := Apply(s, start);
    Extended(s, links, [] + [start], transmit);
    steps := [] + [start] + [transmit];
    assert s1.air == [];
  }

  /** The state after node 1 heard it, too. */
  lemma FirstHop(s: Net, links: set<(nat, nat)>, m: Message, iv: seq<byte>) returns (steps: seq<Step>)
    requires Init(s) && |s.nodes| > 1 && |iv| == 8 && ValidKind(m.kind) && m.id.ip == s.nodes[0].ip
    ensures IsRun(s, steps) && ReliableRun(s, links, steps)
    ensures var v := Exec(s, steps);
            && |v.nodes| == |s.nodes| && v.t == s.t && (forall i :: 1 < i < |s.nodes| ==> v.nodes[i] == s.nodes[i])
            && v.nodes[1].ip == s.nodes[1].ip && v.nodes[1].buf == [Entry(1, Open(s.t, Seal(s.t, iv, m)))]
            && forall p :: p in v.air ==> p.from < 2
  {
    hide Open, Seal, Forwards, Init, IsRun, ReliableRun;
    var n, wire, deliver := |s.nodes|, Seal(s.t, iv, m), Deliver(1, 0);
    var sent := FirstSend(s, links, m, iv);
    var v := Exec(s, sent);
    Extended(s, links, sent, deliver);
    steps := sent + [deliver];
    NothingYet(s, 1);
    InitIps(s);
    var wires := Emitted(Receive(s.nodes[1].ip, s.t, [], s.nodes[0].ip, wire, 0), wire, s.nodes[1].dc);
    forall p | p in Apply(v, deliver).air ensures p.from < 2 {
      if p in BroadcastAll(n, 1, wires) {
        BroadcastFrom(n, 1, wires, p);
      }
    }
  }

  /** Hearing, not holding, is what spreads: a message taken over by synchronisation is not relayed. Here node 2 holds one that it
      got from node 1 that way, nothing is on the air, nothing was lost between 2 and its neighbour 3, and 3 never held it. */
  lemma SyncedIsNotRelayed(s: Net, m: Message, iv: seq<byte>, iv2: seq<byte>) returns (steps: seq<Step>)
    requires Init(s) && |s.nodes| > 3 && |iv| == |iv2| == 8 && ValidKind(m.kind) && m.id.ip == s.nodes[0].ip
    ensures IsRun(s, steps) && ReliableRun(s, {(2, 3)}, steps)
    ensures var v := Exec(s, steps);
            |v.nodes| == |s.nodes| && v.air == [] && Holds(v.nodes[2].buf, m.id) && m.id !in v.nodes[3].ever
  {
    hide Open, Seal, Init;
    var links := {(2, 3)};
    var hop := FirstHop(s, links, m, iv);
    var quiet := LoseAll(s, links, hop);
    var s1 := Exec(s, quiet);
    NothingYet(s, 2);
    NothingYet(s, 3);
    assert s.nodes[0].ip != s.nodes[1].ip by { InitIps(s); }
    var d := Open(s.t, Seal(s.t, iv, m));
    assert Dump(s1.nodes[1].ip, s1.nodes[1].buf) == [d];
    var open := SyncOpen(2, 1, [iv2], 1);
    Extended(s, links, quiet, open);
    var s2 := Apply(s1, open);
    assert s2.nodes[2].stream == [Seal(s.t, iv2, d)];
    Extended(s, links, quiet + [open], SyncRead(2));
    steps := quiet + [open] + [SyncRead(2)];
  }

  lemma NothingYet(s: Net, a: nat)
    requires Init(s) && a < |s.nodes|
    ensures s.nodes[a].buf == [] && s.nodes[a].stream == [] && s.nodes[a].ever == {}
  {
  }

  lemma InitIps(s: Net)
    requires Init(s) && |s.nodes| > 1
    ensures s.nodes[0].ip != s.nodes[1].ip
  {
  }
}
