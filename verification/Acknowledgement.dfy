/** Acknowledgements are complete: what retransmission by the origin's neighbours achieves, the dual of soundness. */
module Acknowledgement {
  import opened Sequences
  import opened Messages
  import opened Mcast
  import opened Buffer
  import opened Network
  import opened Blowfish
  import opened Soundness

  /** A copy of the message on its way from a to b or from b to a. */
  ghost predicate Between(p: Packet, a: nat, b: nat, id: MsgId) {
    && p.wire.id == id && ValidKind(p.wire.kind)
    && ((p.from == a && p.to == b) || (p.from == b && p.to == a))
  }

  ghost predicate InFlight(s: Net, a: nat, b: nat, id: MsgId) {
    exists p :: p in s.air && Between(p, a, b, id)
  }

  /** The step loses no copy of the message between a and b, and a keeps the message once it holds it. */
  ghost predicate Undisturbed(s: Net, step: Step, a: nat, b: nat, id: MsgId)
    requires Enabled(s, step) && a < |s.nodes| == |Apply(s, step).nodes|
  {
    && (step.Lose? ==> !Between(s.air[step.k], a, b, id))
    && (Holds(s.nodes[a].buf, id) ==> Holds(Apply(s, step).nodes[a].buf, id))
  }

  /** The call has put its message on the air at least once. */
  predicate Sent(c: Call) {
    c.Waiting? || (c.Ready? && c.n > 1)
  }

  /** Acknowledged already, or a copy that will see to it is in flight. */
  ghost predicate Answered(s: Net, a: nat, b: nat, id: MsgId)
    requires a < |s.nodes|
  {
    Count(s.nodes[a].buf, id) > 1 || InFlight(s, a, b, id)
  }

  ghost predicate AckInv(s: Net, a: nat, b: nat, id: MsgId)
    requires a < |s.nodes|
  {
    forall job :: job in s.nodes[a].jobs && job.m.id == id && Sent(job.call) ==> Answered(s, a, b, id)
  }

  // ---------- what a counts ----------

  /** The counter of a message that stays never falls. */
  lemma CountStays(s: Net, step: Step, a: nat, id: MsgId)
    requires Inv(s) && Enabled(s, step) && a < |s.nodes| == |Apply(s, step).nodes|
    requires Holds(s.nodes[a].buf, id) ==> Holds(Apply(s, step).nodes[a].buf, id)
    ensures Count(Apply(s, step).nodes[a].buf, id) >= Count(s.nodes[a].buf, id)
  {
    hide Inv, Receive, SyncOne, Seal, Open, Dump, Delete, Count, Holds, IdSet;
    var buf := s.nodes[a].buf;
    BufDistinct(s, a);
    HoldsCount(buf, id);
    match step
    case Deliver(k, r) =>
      var p := s.air[k];
      if p.to == a {
        ReceiveStays(s.nodes[a].ip, s.t, buf, s.nodes[p.from].ip, p.wire, r, id);
      }
    case SyncRead(c) =>
      if c == a {
        SyncStays(buf, Open(s.t, s.nodes[a].stream[0]), id);
      }
    case Transmit(c, j, ok) =>
      if c == a {
        DeleteStays(buf, s.nodes[a].jobs[j].m.id, id);
      }
    case Check(c, j) =>
      if c == a {
        DeleteStays(buf, s.nodes[a].jobs[j].m.id, id);
      }
    case _ =>
  }

  lemma HoldsCount(buf: Buf, id: MsgId)
    requires WellFormed(buf)
    ensures Holds(buf, id) <==> Count(buf, id) > 0
  {
  }

  lemma ReceiveStays(me: nat, t: Tables, buf: Buf, src: nat, wire: Message, r: int, id: MsgId)
    requires WellFormed(buf) && (Holds(buf, id) ==> Holds(Receive(me, t, buf, src, wire, r).buf, id))
    ensures Count(Receive(me, t, buf, src, wire, r).buf, id) >= Count(buf, id)
  {
    hide Open, Forwards;
    if ValidKind(wire.kind) && !Loopback(me, buf, src, wire.id) {
      var m := Open(t, wire);
      AddKeeps(buf, m);
      HoldsCount(buf, id);
      HoldsCount(Add(buf, m).0, id);
      AddCountsAtMost(buf, m, id);
      if id != m.id {
        AddKeepsOrDrops(buf, m, id);
      }
    }
  }

  lemma SyncStays(buf: Buf, m: Message, id: MsgId)
    requires WellFormed(buf) && (Holds(buf, id) ==> Holds(SyncOne(buf, m), id))
    ensures Count(SyncOne(buf, m), id) >= Count(buf, id)
  {
    SyncOneKeeps(buf, m);
    HoldsCount(buf, id);
    HoldsCount(SyncOne(buf, m), id);
    if !Holds(buf, m.id) {
      AppendCounts(buf, Entry(2, m), id);
    }
  }

  lemma DeleteStays(buf: Buf, x: MsgId, id: MsgId)
    requires WellFormed(buf)
    ensures (Holds(buf, id) ==> Holds(Delete(buf, x), id)) ==> Count(Delete(buf, x), id) >= Count(buf, id)
  {
    DeleteKeeps(buf, x);
    HoldsCount(buf, id);
    HoldsCount(Delete(buf, x), id);
    DeleteCounts(buf, x, id);
  }

  // ---------- the exchange between a and b ----------

  /** A node passes on every copy it hears straight from the origin. */
  lemma NeighbourAnswers(s: Net, p: Packet, r: int)
    requires Inv(s) && p in s.air && p.from < |s.nodes| && p.to < |s.nodes| && p.from != p.to
    requires ValidKind(p.wire.kind) && p.wire.id.ip == s.nodes[p.from].ip
    ensures var v := s.nodes[p.to]; Receive(v.ip, s.t, v.buf, s.nodes[p.from].ip, p.wire, r).fwd
  {
    hide Open, Inv;
    DistinctIps(s, p.from, p.to);
    BufDistinct(s, p.to);
    AddReturns(s.nodes[p.to].buf, Open(s.t, p.wire));
  }

  /** The origin counts an own message that somebody else passed on; if it has not held it, it passes it on itself. */
  lemma OriginHears(s: Net, p: Packet, r: int)
    requires Inv(s) && p in s.air && p.from < |s.nodes| && p.to < |s.nodes| && p.from != p.to && ValidKind(p.wire.kind)
    ensures var v := s.nodes[p.to]; var o := Receive(v.ip, s.t, v.buf, s.nodes[p.from].ip, p.wire, r);
            Count(o.buf, p.wire.id) > 1 || o.fwd
  {
    hide Open, Inv;
    DistinctIps(s, p.from, p.to);
    BufDistinct(s, p.to);
    AddReturns(s.nodes[p.to].buf, Open(s.t, p.wire));
  }

  /** A transmission of the message puts a copy on its way to b. */
  lemma TransmitInFlight(s: Net, step: Step, b: nat)
    requires Inv(s) && step.Transmit? && step.ok && Enabled(s, step) && b < |s.nodes|
    ensures InFlight(Apply(s, step), step.a, b, s.nodes[step.a].jobs[step.j].m.id)
  {
    var a, job := step.a, s.nodes[step.a].jobs[step.j];
    assert NodeInv(s, a) && JobInv(s, a, job);
    var p := Packet(a, b, job.wire);
    assert Broadcast(|s.nodes|, a, job.wire)[b] == p;
    assert p in Apply(s, step).air && Between(p, a, b, job.m.id);
  }

  /** Either of the two answers a copy from the other, or the origin has then counted it twice. */
  lemma DeliverAnswered(s: Net, step: Step, a: nat, b: nat, id: MsgId)
    requires Inv(s) && step.Deliver? && Enabled(s, step) && a < |s.nodes| && b < |s.nodes| && a != b && id.ip == s.nodes[a].ip
    requires Between(s.air[step.k], a, b, id)
    ensures a < |Apply(s, step).nodes| && Answered(Apply(s, step), a, b, id)
  {
    hide Inv, Receive, Count;
    var p, s' := s.air[step.k], Apply(s, step);
    var v := s.nodes[p.to];
    var o := Receive(v.ip, s.t, v.buf, s.nodes[p.from].ip, p.wire, step.r);
    assert p in s.air;
    if p.to == a {
      OriginHears(s, p, step.r);
    } else {
      NeighbourAnswers(s, p, step.r);
    }
    if o.fwd {
      InBroadcast(|s.nodes|, p.to, Emitted(o, p.wire, v.dc), p.wire, p.from);
      var q := Packet(p.to, p.from, p.wire);
      assert q in s'.air && Between(q, a, b, id);
    }
  }

  /** A copy in flight stays there unless it is lost or delivered. */
  lemma StaysInFlight(s: Net, step: Step, a: nat, b: nat, id: MsgId)
    requires Enabled(s, step) && InFlight(s, a, b, id)
    requires step.Lose? || step.Deliver? ==> !Between(s.air[step.k], a, b, id)
    ensures InFlight(Apply(s, step), a, b, id)
  {
    hide Receive, SyncOne, Seal, Open, Dump, Count, Delete, IdSet;
    var p :| p in s.air && Between(p, a, b, id);
    if step.Lose? || step.Deliver? {
      InRemoveAt(s.air, step.k, p);
    }
    assert p in Apply(s, step).air;
  }

  lemma AnsweredKept(s: Net, step: Step, a: nat, b: nat, id: MsgId)
    requires Inv(s) && Enabled(s, step) && a < |s.nodes| == |Apply(s, step).nodes| && b < |s.nodes| && a != b
    requires id.ip == s.nodes[a].ip && Undisturbed(s, step, a, b, id) && Answered(s, a, b, id)
    ensures Answered(Apply(s, step), a, b, id)
  {
    hide Inv, Count, Holds, Apply, Between;
    CountStays(s, step, a, id);
    if InFlight(s, a, b, id) {
      if step.Deliver? && Between(s.air[step.k], a, b, id) {
        DeliverAnswered(s, step, a, b, id);
      } else {
        StaysInFlight(s, step, a, b, id);
      }
    }
  }

  /** Calls that have sent after the step had sent before, or this step is their transmission. */
  lemma SentBefore(s: Net, step: Step, a: nat, job: Job)
    requires Inv(s) && Enabled(s, step) && a < |s.nodes| == |Apply(s, step).nodes|
    requires job in Apply(s, step).nodes[a].jobs && Sent(job.call)
    ensures || (exists prev :: prev in s.nodes[a].jobs && prev.m == job.m && Sent(prev.call))
            || (step.Transmit? && step.ok && step.a == a && s.nodes[a].jobs[step.j].m == job.m)
  {
    hide Inv, Receive, SyncOne, Seal, Open, Dump, Count, Delete, IdSet;
    var jobs := s.nodes[a].jobs;
    if job in jobs {
      assert job.m == job.m;
    } else {
      assert jobs[step.j] in jobs;
    }
  }

  lemma AckStep(s: Net, step: Step, a: nat, b: nat, id: MsgId)
    requires Inv(s) && Enabled(s, step) && a < |s.nodes| == |Apply(s, step).nodes| && b < |s.nodes| && a != b
    requires id.ip == s.nodes[a].ip && Undisturbed(s, step, a, b, id) && AckInv(s, a, b, id)
    ensures AckInv(Apply(s, step), a, b, id)
  {
    hide Inv, Apply, Answered, Undisturbed, Sent;
    var s' := Apply(s, step);
    forall job | job in s'.nodes[a].jobs && job.m.id == id && Sent(job.call) ensures Answered(s', a, b, id) {
      SentBefore(s, step, a, job);
      if step.Transmit? && step.ok && step.a == a && s.nodes[a].jobs[step.j].m == job.m {
        TransmitInFlight(s, step, b);
        InFlightAnswers(s', a, b, id);
      } else {
        AnsweredKept(s, step, a, b, id);
      }
    }
  }

  lemma InFlightAnswers(s: Net, a: nat, b: nat, id: MsgId)
    requires a < |s.nodes| && InFlight(s, a, b, id)
    ensures Answered(s, a, b, id)
  {
  }

  // ---------- whole runs ----------

  ghost predicate UndisturbedRun(s: Net, steps: seq<Step>, a: nat, b: nat, id: MsgId)
    requires IsRun(s, steps) && a < |s.nodes|
    decreases |steps|
  {
    |steps| > 0 ==>
      var n := |steps| - 1;
      SameAddresses(s, steps[..n]);
      SameAddresses(s, steps);
      UndisturbedRun(s, steps[..n], a, b, id) && Undisturbed(Exec(s, steps[..n]), steps[n], a, b, id)
  }

  lemma {:induction false} RunAnswered(s: Net, steps: seq<Step>, a: nat, b: nat, id: MsgId)
    requires Init(s) && IsRun(s, steps) && a < |s.nodes| && b < |s.nodes| && a != b && id.ip == s.nodes[a].ip
    requires UndisturbedRun(s, steps, a, b, id)
    ensures a < |Exec(s, steps).nodes| && AckInv(Exec(s, steps), a, b, id)
  {
    hide Apply, Enabled, Inv, Undisturbed, Answered;
    SameAddresses(s, steps);
    if |steps| > 0 {
      var n := |steps| - 1;
      SameAddresses(s, steps[..n]);
      RunAnswered(s, steps[..n], a, b, id);
      RunInv(s, steps[..n]);
      AckStep(Exec(s, steps[..n]), steps[n], a, b, id);
    }
  }

  /** Acknowledgements are complete: if some other node b exchanges copies of the message with its origin a without loss, and a keeps the
      message from when it first holds it, then a waiting mcast_send that checks while no copy is under way between the two returns 0. */
  lemma AckCompleteness(s: Net, steps: seq<Step>, a: nat, b: nat, j: nat)
    requires Init(s) && IsRun(s, steps) && Enabled(Exec(s, steps), Check(a, j)) && a < |s.nodes| && b < |s.nodes| && a != b
    requires var id := Exec(s, steps).nodes[a].jobs[j].m.id;
             UndisturbedRun(s, steps, a, b, id) && !InFlight(Exec(s, steps), a, b, id)
    ensures var v := Exec(s, steps).nodes[a];
            AfterWait(v.jobs[j].call.n, Count(v.buf, v.jobs[j].m.id)) == Returned(0)
  {
    hide Init, IsRun, Inv, UndisturbedRun, InFlight, Count;
    var s' := Exec(s, steps);
    var job := s'.nodes[a].jobs[j];
    RunInv(s, steps);
    SameAddresses(s, steps);
    OwnJob(s', a, j);
    RunAnswered(s, steps, a, b, job.m.id);
    assert job in s'.nodes[a].jobs && Sent(job.call);
  }

  lemma OwnJob(s: Net, a: nat, j: nat)
    requires Inv(s) && a < |s.nodes| && j < |s.nodes[a].jobs|
    ensures s.nodes[a].jobs[j].m.id.ip == s.nodes[a].ip
  {
    assert NodeInv(s, a) && JobInv(s, a, s.nodes[a].jobs[j]);
  }
}
