/** Sums of weights over sequences. */
module Sums {
  function Sum<T>(f: T -> nat, s: seq<T>): nat {
    if |s| == 0 then 0 else f(s[0]) + Sum(f, s[1..])
  }

  lemma {:induction false} SumAppend<T>(f: T -> nat, a: seq<T>, b: seq<T>)
    ensures Sum(f, a + b) == Sum(f, a) + Sum(f, b)
  {
    if |a| == 0 {
      assert a + b == b;
    } else {
      assert (a + b)[1..] == a[1..] + b;
      SumAppend(f, a[1..], b);
    }
  }

  lemma SumSplit<T>(f: T -> nat, s: seq<T>, k: nat)
    requires k < |s|
    ensures Sum(f, s) == Sum(f, s[..k]) + f(s[k]) + Sum(f, s[k + 1..])
  {
    assert s == s[..k] + s[k..];
    SumAppend(f, s[..k], s[k..]);
    assert s[k..][1..] == s[k + 1..];
  }

  lemma SumUpdate<T>(f: T -> nat, s: seq<T>, k: nat, x: T)
    requires k < |s|
    ensures Sum(f, s[k := x]) + f(s[k]) == Sum(f, s) + f(x)
  {
    SumSplit(f, s, k);
    SumSplit(f, s[k := x], k);
    assert s[k := x][..k] == s[..k] && s[k := x][k + 1..] == s[k + 1..];
  }

  lemma SumRemove<T>(f: T -> nat, s: seq<T>, k: nat)
    requires k < |s|
    ensures Sum(f, s[..k] + s[k + 1..]) + f(s[k]) == Sum(f, s)
  {
    SumSplit(f, s, k);
    SumAppend(f, s[..k], s[k + 1..]);
  }

  lemma {:induction false} SumAtMost<T>(f: T -> nat, s: seq<T>, w: nat)
    requires forall i :: 0 <= i < |s| ==> f(s[i]) <= w
    ensures Sum(f, s) <= |s| * w
  {
    if |s| > 0 {
      SumAtMost(f, s[1..], w);
    }
  }
}

/** Every flood dies out: a bound on the work of any run. */
module Termination {
  import opened Sequences
  import opened Messages
  import opened Mcast
  import opened Buffer
  import opened Network
  import opened Soundness
  import opened Sums

  /** A copy heard straight from its origin outweighs the relayed copies it can cause. */
  function OriginWeight(n: nat): nat {
    n + 2
  }

  /** One unit of forwarding budget outweighs a broadcast of origin copies. */
  function Unit(n: nat): nat {
    n * OriginWeight(n) + 1
  }

  function PacketWeight(ips: seq<nat>): Packet -> nat {
    (p: Packet) => if p.from < |ips| && ips[p.from] == p.wire.id.ip then OriginWeight(|ips|) else 1
  }

  /** The budget a node has left for an id it has counted c times; an unseen id may cost one extra broadcast, the discovery reply. */
  function Budget(c: nat): nat {
    if c == 0 then 11 else if c < 10 then 10 - c else 0
  }

  /** What an id may cost that a node holds no counter for. */
  function FullBudget(n: nat): nat {
    11 * Unit(n)
  }

  function IdWeight(n: nat, buf: Buf): MsgId -> nat {
    (id: MsgId) => Unit(n) * Budget(Count(buf, id))
  }

  /** A call may still transmit, and may delete its message and so restore the whole budget for it. */
  function JobWeight(n: nat): Job -> nat {
    (job: Job) => match job.call
      case Ready(k) => (if k <= 11 then 11 - k else 0) * (Unit(n) + 2) + FullBudget(n) + 1
      case Waiting(k) => (if k <= 10 then 10 - k else 0) * (Unit(n) + 2) + FullBudget(n) + 2
      case Returned(ret) => 0
  }

  function NodeWeight(n: nat, ids: seq<MsgId>): Node -> nat {
    (v: Node) => Sum(IdWeight(n, v.buf), ids) + Sum(JobWeight(n), v.jobs)
  }

  function Ips(s: Net): (ips: seq<nat>)
    ensures |ips| == |s.nodes|
  {
    seq(|s.nodes|, i requires 0 <= i < |s.nodes| => s.nodes[i].ip)
  }

  function Measure(s: Net, ids: seq<MsgId>): nat {
    Sum(PacketWeight(Ips(s)), s.air) + Sum(NodeWeight(|s.nodes|, ids), s.nodes)
  }

  ghost predicate NoRepeats(ids: seq<MsgId>) {
    forall i, j :: 0 <= i < j < |ids| ==> ids[i] != ids[j]
  }

  /** All ids in use are among `ids`. */
  ghost predicate Within(s: Net, ids: seq<MsgId>) {
    NoRepeats(ids) && forall id :: id in s.sent ==> id in ids
  }

  // ---------- no eviction ----------

  function Elements(ids: seq<MsgId>): set<MsgId> {
    set id <- ids
  }

  lemma {:induction false} ElementsSize(ids: seq<MsgId>)
    ensures |Elements(ids)| <= |ids|
  {
    if |ids| > 0 {
      ElementsSize(ids[1..]);
      assert Elements(ids) == {ids[0]} + Elements(ids[1..]);
    }
  }

  lemma {:induction false} IdSetSize(buf: Buf)
    requires Distinct(buf)
    ensures |IdSet(buf)| == |buf|
  {
    if |buf| > 0 {
      IdSetSize(buf[1..]);
      assert IdSet(buf) == {buf[0].msg.id} + IdSet(buf[1..]);
      assert buf[0].msg.id !in IdSet(buf[1..]);
    }
  }

  lemma SubsetSize(a: set<MsgId>, b: set<MsgId>)
    requires a <= b
    ensures |a| <= |b|
  {
    assert b == a + (b - a);
  }

  /** While the ids in use fit into the buffer, a message not held finds room. */
  lemma RoomLeft(s: Net, ids: seq<MsgId>, a: nat, id: MsgId)
    requires Inv(s) && Within(s, ids) && |ids| <= MAXMSGS && a < |s.nodes| && id in s.sent && !Holds(s.nodes[a].buf, id)
    ensures |s.nodes[a].buf| < MAXMSGS
  {
    hide Count, HeldElsewhere, JobsInv, DcInv, StreamInv;
    var buf := s.nodes[a].buf;
    assert NodeInv(s, a);
    forall x | x in IdSet(buf) ensures x in Elements(ids) {
      var e :| e in buf && e.msg.id == x;
      assert Genuine(s, e.msg);
    }
    forall e | e in buf ensures e.msg.id != id {
      var k :| 0 <= k < |buf| && buf[k] == e;
      FindIs(buf, k);
    }
    IdSetSize(buf);
    ElementsSize(ids);
    SubsetSize(IdSet(buf) + {id}, Elements(ids));
    assert id !in IdSet(buf);
  }

  // ---------- changes of the measure ----------

  /** A change to the counter of one id changes its term only. */
  lemma {:induction false} BudgetChange(n: nat, buf: Buf, buf': Buf, ids: seq<MsgId>, id: MsgId)
    requires NoRepeats(ids)
    requires forall x :: x != id ==> Count(buf', x) == Count(buf, x)
    ensures var d := Sum(IdWeight(n, buf'), ids) - Sum(IdWeight(n, buf), ids);
            d == if id in ids then IdWeight(n, buf')(id) - IdWeight(n, buf)(id) else 0
  {
    if |ids| > 0 {
      BudgetChange(n, buf, buf', ids[1..], id);
      if ids[0] == id {
        assert id !in ids[1..];
      }
    }
  }

  lemma NodeChange(s: Net, s': Net, a: nat, ids: seq<MsgId>)
    requires a < |s.nodes| == |s'.nodes| && s'.nodes == s.nodes[a := s'.nodes[a]] && s'.nodes[a].ip == s.nodes[a].ip
    ensures Ips(s') == Ips(s)
    ensures var f := NodeWeight(|s.nodes|, ids);
            Measure(s', ids) - Measure(s, ids)
            == Sum(PacketWeight(Ips(s)), s'.air) - Sum(PacketWeight(Ips(s)), s.air) + f(s'.nodes[a]) - f(s.nodes[a])
  {
    SumUpdate(NodeWeight(|s.nodes|, ids), s.nodes, a, s'.nodes[a]);
    assert Ips(s') == Ips(s);
  }

  lemma EmitWeight(ips: seq<nat>, a: nat, wires: seq<Message>, w: nat)
    requires forall i, wire :: wire in wires ==> PacketWeight(ips)(Packet(a, i, wire)) <= w
    ensures Sum(PacketWeight(ips), BroadcastAll(|ips|, a, wires)) <= |wires| * (|ips| * w)
  {
    hide PacketWeight;
    var f := PacketWeight(ips);
    if |wires| > 0 {
      var head, rest := Broadcast(|ips|, a, wires[0]), BroadcastAll(|ips|, a, wires[1..]);
      SumAtMost(f, head, w);
      EmitWeight(ips, a, wires[1..], w);
      SumAppend(f, head, rest);
      OneMore(|wires|, |ips| * w);
    }
  }

  lemma OneMore(k: nat, x: nat)
    requires k > 0
    ensures k * x == x + (k - 1) * x
  {
  }

  /** How many datagrams a step puts on the air. */
  function Sends(s: Net, step: Step): nat
    requires Enabled(s, step)
  {
    match step
    case Transmit(a, j, ok) => if ok then 1 else 0
    case Deliver(k, r) =>
      var p := s.air[k];
      var v := s.nodes[p.to];
      |Emitted(Receive(v.ip, s.t, v.buf, s.nodes[p.from].ip, p.wire, r), p.wire, v.dc)|
    case _ => 0
  }

  /** Transmissions, and one for every sender or datagram step. */
  function Work(s: Net, step: Step): nat
    requires Enabled(s, step)
  {
    Sends(s, step) + if step.Transmit? || step.Check? || step.Deliver? || step.Lose? then 1 else 0
  }

  /** What one mcast_send call may add to the measure. */
  function CallWeight(n: nat): nat {
    10 * (Unit(n) + 2) + FullBudget(n) + 1
  }

  lemma BudgetStep(n: nat, c: nat)
    ensures Unit(n) * Budget(c) - Unit(n) * Budget(c + 1) == if c == 0 then 2 * Unit(n) else if c < 10 then Unit(n) else 0
    ensures Unit(n) * Budget(c) <= FullBudget(n)
  {
    var u := Unit(n);
    if 0 < c < 10 {
      assert u * (10 - c) == u * (10 - (c + 1)) + u;
    }
    assert Budget(c) <= 11;
    assert u * Budget(c) <= u * 11;
  }

  /** Losing the counter of one id costs at most its full budget. */
  lemma BudgetAtMost(n: nat, buf: Buf, buf': Buf, ids: seq<MsgId>, id: MsgId)
    requires NoRepeats(ids)
    requires forall x :: x != id ==> Count(buf', x) == Count(buf, x)
    ensures Sum(IdWeight(n, buf'), ids) <= Sum(IdWeight(n, buf), ids) + FullBudget(n)
  {
    BudgetChange(n, buf, buf', ids, id);
    BudgetStep(n, Count(buf', id));
  }

  // ---------- eviction ----------

  /** Entering a message with this id pushes out the oldest entry. */
  predicate Evicts(buf: Buf, id: MsgId) {
    !Holds(buf, id) && |buf| >= MAXMSGS
  }

  /** That is exactly when counting the message loses an entry that was held. */
  lemma EvictsMeans(buf: Buf, m: Message)
    requires WellFormed(buf)
    ensures Evicts(buf, m.id) <==> exists e :: e in buf && !Holds(Add(buf, m).0, e.msg.id)
  {
    if Evicts(buf, m.id) {
      var b := buf + [Entry(1, m)];
      TailFind(b, b[0].msg.id);
      assert buf[0] in buf && !Holds(Add(buf, m).0, buf[0].msg.id);
    } else {
      forall e | e in buf ensures Holds(Add(buf, m).0, e.msg.id) {
        if Holds(buf, m.id) {
          SameIdsFind(buf, Add(buf, m).0, e.msg.id);
        } else {
          AppendFind(buf, Entry(1, m), e.msg.id);
        }
      }
    }
  }

  /** How many entries a step pushes out of a full buffer. */
  function Evictions(s: Net, step: Step): nat
    requires Enabled(s, step)
  {
    match step
    case Deliver(k, r) =>
      var p := s.air[k];
      if ValidKind(p.wire.kind) && Evicts(s.nodes[p.to].buf, p.wire.id) then 1 else 0
    case SyncRead(a) => if Evicts(s.nodes[a].buf, s.nodes[a].stream[0].id) then 1 else 0
    case _ => 0
  }

  /** An insertion takes the new id's budget down from a full one, and gives back at most a full one by what it pushes out. */
  lemma AppendBudget(n: nat, buf: Buf, e: Entry, ids: seq<MsgId>)
    requires NoRepeats(ids) && Distinct(buf) && !Holds(buf, e.msg.id)
    ensures Sum(IdWeight(n, Append(buf, e)), ids)
            <= Sum(IdWeight(n, buf), ids) + (if e.msg.id in ids then Unit(n) * Budget(e.count) - Unit(n) * Budget(0) else 0)
               + if |buf| >= MAXMSGS then FullBudget(n) else 0
  {
    hide Unit, FullBudget, Budget;
    var b := buf + [e];
    forall x ensures Count(b, x) == if x == e.msg.id then e.count else Count(buf, x) {
      AppendFind(buf, e, x);
    }
    BudgetChange(n, buf, b, ids, e.msg.id);
    if |b| > MAXMSGS {
      forall x | x != b[0].msg.id ensures Count(b[1..], x) == Count(b, x) {
        TailFind(b, x);
      }
      BudgetAtMost(n, b, b[1..], ids, b[0].msg.id);
    }
  }

  /** Delivery of a counted datagram: the copies it causes weigh less than the budget and the copy it uses up. */
  lemma EmissionPaid(s: Net, p: Packet, r: int, c: nat)
    requires Inv(s) && p in s.air && p.from < |s.nodes| && p.to < |s.nodes|
    requires var v := s.nodes[p.to];
             ValidKind(p.wire.kind) && !Loopback(v.ip, v.buf, s.nodes[p.from].ip, p.wire.id) && c == Count(v.buf, p.wire.id)
    ensures var v := s.nodes[p.to]; var n := |s.nodes|;
            var wires := Emitted(Receive(v.ip, s.t, v.buf, s.nodes[p.from].ip, p.wire, r), p.wire, v.dc);
            var f := PacketWeight(Ips(s));
            Sum(f, BroadcastAll(n, p.to, wires)) + |wires| + 1 <= f(p) + Unit(n) * Budget(c) - Unit(n) * Budget(c + 1)
  {
    hide Inv, Open, Sum, Add, Count, Distinct;
    var v, n, src := s.nodes[p.to], |s.nodes|, s.nodes[p.from].ip;
    var o := Receive(v.ip, s.t, v.buf, src, p.wire, r);
    var wires := Emitted(o, p.wire, v.dc);
    var m := Open(s.t, p.wire);
    assert Distinct(v.buf) by { BufDistinct(s, p.to); }
    AddReturns(v.buf, m);
    BudgetStep(n, c);
    if c < 10 {
      EmitWeight(Ips(s), p.to, wires, OriginWeight(n));
      assert |wires| * (n * OriginWeight(n)) + |wires| == |wires| * Unit(n);
      assert |wires| <= if c == 0 then 2 else 1;
    } else if o.fwd {
      assert src == p.wire.id.ip && src != v.ip;
      EmitWeight(Ips(s), p.to, wires, 1);
    } else {
      EmitWeight(Ips(s), p.to, wires, 1);
    }
  }

  /** The datagram step. */
  lemma DeliverWork(s: Net, step: Step, ids: seq<MsgId>)
    requires Inv(s) && Within(s, ids) && step.Deliver? && Enabled(s, step)
    ensures Measure(Apply(s, step), ids) + Work(s, step) <= Measure(s, ids) + Evictions(s, step) * FullBudget(|s.nodes|)
  {
    hide Inv, Open, PacketWeight, Receive, IdWeight, Sum, FullBudget, Holds;
    var Deliver(k, r) := step;
    var p, n, s' := s.air[k], |s.nodes|, Apply(s, step);
    var a, v := p.to, s.nodes[p.to];
    var o := Receive(v.ip, s.t, v.buf, s.nodes[p.from].ip, p.wire, r);
    var wires := Emitted(o, p.wire, v.dc);
    var f, rest := PacketWeight(Ips(s)), RemoveAt(s.air, k);
    NodeChange(s, s', a, ids);
    SumRemove(f, s.air, k);
    SumAppend(f, rest, BroadcastAll(n, a, wires));
    assert Work(s, step) == |wires| + 1;
    ReceiveWork(s, p, r, ids);
  }

  /** What counting a message does to the node's budgets. */
  lemma AddBudget(n: nat, buf: Buf, m: Message, ids: seq<MsgId>)
    requires NoRepeats(ids) && m.id in ids && Distinct(buf)
    ensures var c := Count(buf, m.id);
            Sum(IdWeight(n, Add(buf, m).0), ids)
            <= Sum(IdWeight(n, buf), ids) + Unit(n) * Budget(c + 1) - Unit(n) * Budget(c)
               + if Evicts(buf, m.id) then FullBudget(n) else 0
  {
    hide Unit, FullBudget, Budget;
    if Holds(buf, m.id) {
      forall x ensures Count(Add(buf, m).0, x) == if x == m.id then Count(buf, x) + 1 else Count(buf, x) {
        AddCounts(buf, m, x);
      }
      BudgetChange(n, buf, Add(buf, m).0, ids, m.id);
    } else {
      AppendBudget(n, buf, Entry(1, m), ids);
    }
  }

  lemma CountedWork(s: Net, p: Packet, r: int, ids: seq<MsgId>)
    requires Inv(s) && Within(s, ids) && p in s.air && p.from < |s.nodes| && p.to < |s.nodes|
    requires var v := s.nodes[p.to]; ValidKind(p.wire.kind) && !Loopback(v.ip, v.buf, s.nodes[p.from].ip, p.wire.id)
    ensures var v := s.nodes[p.to]; var n := |s.nodes|;
            var o := Receive(v.ip, s.t, v.buf, s.nodes[p.from].ip, p.wire, r);
            var wires := Emitted(o, p.wire, v.dc);
            Sum(PacketWeight(Ips(s)), BroadcastAll(n, p.to, wires)) + |wires| + 1 + Sum(IdWeight(n, o.buf), ids)
            <= PacketWeight(Ips(s))(p) + Sum(IdWeight(n, v.buf), ids) + if Evicts(v.buf, p.wire.id) then FullBudget(n) else 0
  {
    hide Inv, Open, Add, Sum, PacketWeight, IdWeight, Unit, Budget, FullBudget, BroadcastAll, Emitted, Evicts, Forwards, Loopback;
    var v, n := s.nodes[p.to], |s.nodes|;
    PacketGenuine(s, p);
    BufDistinct(s, p.to);
    EmissionPaid(s, p, r, Count(v.buf, p.wire.id));
    AddBudget(n, v.buf, Open(s.t, p.wire), ids);
  }

  lemma ReceiveWork(s: Net, p: Packet, r: int, ids: seq<MsgId>)
    requires Inv(s) && Within(s, ids) && p in s.air && p.from < |s.nodes| && p.to < |s.nodes|
    ensures var v := s.nodes[p.to]; var n := |s.nodes|;
            var o := Receive(v.ip, s.t, v.buf, s.nodes[p.from].ip, p.wire, r);
            var wires := Emitted(o, p.wire, v.dc);
            Sum(PacketWeight(Ips(s)), BroadcastAll(n, p.to, wires)) + |wires| + 1 + Sum(IdWeight(n, o.buf), ids)
            <= PacketWeight(Ips(s))(p) + Sum(IdWeight(n, v.buf), ids)
               + if ValidKind(p.wire.kind) && Evicts(v.buf, p.wire.id) then FullBudget(n) else 0
  {
    hide Inv, Open, Add, IdWeight, FullBudget;
    var v := s.nodes[p.to];
    if ValidKind(p.wire.kind) && !Loopback(v.ip, v.buf, s.nodes[p.from].ip, p.wire.id) {
      CountedWork(s, p, r, ids);
    }
  }

  lemma PacketGenuine(s: Net, p: Packet)
    requires Inv(s) && p in s.air && ValidKind(p.wire.kind)
    ensures p.wire.id in s.sent
  {
    assert PacketInv(s, p);
  }

  lemma LoseWork(s: Net, step: Step, ids: seq<MsgId>)
    requires step.Lose? && Enabled(s, step)
    ensures Measure(Apply(s, step), ids) + Work(s, step) <= Measure(s, ids)
  {
    SumRemove(PacketWeight(Ips(s)), s.air, step.k);
    assert Ips(Apply(s, step)) == Ips(s);
  }

  /** A call that moves on or returns gives up the difference of its weights, and at most a full budget when it deletes. */
  lemma AdvanceWork(s: Net, a: nat, j: nat, c: Call, ids: seq<MsgId>)
    requires Inv(s) && Within(s, ids) && a < |s.nodes| && j < |s.nodes[a].jobs| && ValidCall(c)
    ensures var n := |s.nodes|; var v := s.nodes[a]; var f := NodeWeight(n, ids);
            f(Advance(v, j, c)) + JobWeight(n)(v.jobs[j])
            <= f(v) + if c.Returned? then (if c.ret < 0 then FullBudget(n) else 0) else JobWeight(n)(v.jobs[j].(call := c))
  {
    hide Inv, JobWeight, IdWeight;
    var n, v := |s.nodes|, s.nodes[a];
    if !c.Returned? {
      SumUpdate(JobWeight(n), v.jobs, j, v.jobs[j].(call := c));
    } else {
      SumRemove(JobWeight(n), v.jobs, j);
      var id := v.jobs[j].m.id;
      BufDistinct(s, a);
      forall x | x != id ensures Count(Delete(v.buf, id), x) == Count(v.buf, x) {
        DeleteCounts(v.buf, id, x);
      }
      BudgetAtMost(n, v.buf, Delete(v.buf, id), ids, id);
    }
  }

  lemma TransmitWork(s: Net, step: Step, ids: seq<MsgId>)
    requires Inv(s) && Within(s, ids) && step.Transmit? && Enabled(s, step)
    ensures Measure(Apply(s, step), ids) + Work(s, step) <= Measure(s, ids)
  {
    hide Inv, Sum, NodeWeight;
    var Transmit(a, j, ok) := step;
    var n, s', job := |s.nodes|, Apply(s, step), s.nodes[a].jobs[j];
    var c := AfterSend(job.call.n, job.wantack, ok);
    JobOf(s, a, j);
    AdvanceIp(s.nodes[a], j, c);
    NodeChange(s, s', a, ids);
    AdvanceWork(s, a, j, c, ids);
    var f, ps := PacketWeight(Ips(s)), Broadcast(n, a, job.wire);
    SumAppend(f, s.air, ps);
    SumAtMost(f, ps, OriginWeight(n));
    assert |ps| * OriginWeight(n) == Unit(n) - 1;
    TryCost(Unit(n), job.call.n);
  }

  lemma TryCost(u: nat, k: nat)
    requires 1 <= k <= 10
    ensures (11 - k) * (u + 2) == (10 - k) * (u + 2) + u + 2
    ensures k < 10 ==> (10 - k) * (u + 2) == (11 - (k + 1)) * (u + 2)
    ensures (10 - k) * (u + 2) >= 0
  {
  }

  lemma JobOf(s: Net, a: nat, j: nat)
    requires Inv(s) && a < |s.nodes| && j < |s.nodes[a].jobs|
    ensures ValidCall(s.nodes[a].jobs[j].call)
  {
    assert NodeInv(s, a) && JobInv(s, a, s.nodes[a].jobs[j]);
  }

  lemma AdvanceIp(v: Node, j: nat, c: Call)
    requires j < |v.jobs|
    ensures Advance(v, j, c).ip == v.ip
  {
  }

  lemma CheckWork(s: Net, step: Step, ids: seq<MsgId>)
    requires Inv(s) && Within(s, ids) && step.Check? && Enabled(s, step)
    ensures Measure(Apply(s, step), ids) + Work(s, step) <= Measure(s, ids)
  {
    hide Inv, Sum, NodeWeight, Count;
    var Check(a, j) := step;
    var n, s', job := |s.nodes|, Apply(s, step), s.nodes[a].jobs[j];
    var c := AfterWait(job.call.n, Count(s.nodes[a].buf, job.m.id));
    JobOf(s, a, j);
    AdvanceIp(s.nodes[a], j, c);
    NodeChange(s, s', a, ids);
    AdvanceWork(s, a, j, c, ids);
    TryCost(Unit(n), job.call.n);
  }

  lemma StartWork(s: Net, step: Step, ids: seq<MsgId>)
    requires step.Start? && Enabled(s, step)
    ensures Measure(Apply(s, step), ids) <= Measure(s, ids) + CallWeight(|s.nodes|)
  {
    hide Sum, IdWeight, Seal;
    var a, n, s' := step.a, |s.nodes|, Apply(s, step);
    NodeChange(s, s', a, ids);
    var job := Job(step.m, Seal(s.t, step.iv, step.m), Ready(1), step.wantack);
    SumAppend(JobWeight(n), s.nodes[a].jobs, [job]);
    SumOne(JobWeight(n), job);
  }

  lemma SumOne<T>(f: T -> nat, x: T)
    ensures Sum(f, [x]) == f(x)
  {
  }

  /** Steps that leave buffers, calls and the air alone. */
  lemma IdleWork(s: Net, step: Step, ids: seq<MsgId>)
    requires (step.Boot? || step.SyncOpen? || step.SyncClose?) && Enabled(s, step)
    ensures Measure(Apply(s, step), ids) <= Measure(s, ids)
  {
    hide Sum, IdWeight, Seal, Dump, JobWeight;
    NodeChange(s, Apply(s, step), step.a, ids);
  }

  lemma SyncReadWork(s: Net, step: Step, ids: seq<MsgId>)
    requires Inv(s) && Within(s, ids) && step.SyncRead? && Enabled(s, step)
    ensures Measure(Apply(s, step), ids) <= Measure(s, ids) + Evictions(s, step) * FullBudget(|s.nodes|)
  {
    hide Inv, Sum, IdWeight, Open, JobWeight, SyncOne, FullBudget, Holds;
    var a, n, v := step.a, |s.nodes|, s.nodes[step.a];
    NodeChange(s, Apply(s, step), a, ids);
    BufDistinct(s, a);
    SyncBudget(n, v.buf, Open(s.t, v.stream[0]), ids);
  }

  lemma SyncBudget(n: nat, buf: Buf, m: Message, ids: seq<MsgId>)
    requires NoRepeats(ids) && Distinct(buf)
    ensures Sum(IdWeight(n, SyncOne(buf, m)), ids)
            <= Sum(IdWeight(n, buf), ids) + if Evicts(buf, m.id) then FullBudget(n) else 0
  {
    hide FullBudget, Unit;
    if !Holds(buf, m.id) {
      AppendBudget(n, buf, Entry(2, m), ids);
      assert Unit(n) * Budget(2) <= Unit(n) * Budget(0);
    }
  }

  lemma StreamGenuine(s: Net, a: nat)
    requires Inv(s) && a < |s.nodes| && s.nodes[a].stream != []
    ensures s.nodes[a].stream[0].id in s.sent
  {
    var w := s.nodes[a].stream[0];
    assert NodeInv(s, a) && w in s.nodes[a].stream && GenuineWire(s, w);
  }

  /** No step does more work than it takes off the measure, save that a new call adds its weight and an eviction a full budget. */
  lemma StepWork(s: Net, step: Step, ids: seq<MsgId>)
    requires Inv(s) && Within(s, ids) && Enabled(s, step)
    ensures Measure(Apply(s, step), ids) + Work(s, step)
            <= Measure(s, ids) + (if step.Start? then CallWeight(|s.nodes|) else 0) + Evictions(s, step) * FullBudget(|s.nodes|)
  {
    hide Inv, Within, Enabled, Apply, Measure, CallWeight, FullBudget;
    match step
    case Boot(a, m, iv) => IdleWork(s, step, ids);
    case Start(a, m, iv, wantack) => StartWork(s, step, ids);
    case Transmit(a, j, ok) => TransmitWork(s, step, ids);
    case Check(a, j) => CheckWork(s, step, ids);
    case Deliver(k, r) => DeliverWork(s, step, ids);
    case Lose(k) => LoseWork(s, step, ids);
    case SyncOpen(a, b, ivs, cut) => IdleWork(s, step, ids);
    case SyncRead(a) => SyncReadWork(s, step, ids);
    case SyncClose(a) => IdleWork(s, step, ids);
  }

  // ---------- main result ----------

  /** All transmissions of a run, and all its sender and datagram steps. */
  ghost function TotalWork(s: Net, steps: seq<Step>): nat
    requires IsRun(s, steps)
    decreases |steps|
  {
    if |steps| == 0 then 0
    else
      var n := |steps| - 1;
      TotalWork(s, steps[..n]) + Work(Exec(s, steps[..n]), steps[n])
  }

  /** The number of mcast_send calls. */
  function Calls(steps: seq<Step>): nat {
    if |steps| == 0 then 0
    else Calls(steps[..|steps| - 1]) + if steps[|steps| - 1].Start? then 1 else 0
  }

  ghost function TotalEvictions(s: Net, steps: seq<Step>): nat
    requires IsRun(s, steps)
    decreases |steps|
  {
    if |steps| == 0 then 0
    else
      var n := |steps| - 1;
      TotalEvictions(s, steps[..n]) + Evictions(Exec(s, steps[..n]), steps[n])
  }

  /** The ids a run uses, its discovery messages included, are all among `ids`. */
  ghost predicate UsesOnly(steps: seq<Step>, ids: seq<MsgId>) {
    && NoRepeats(ids)
    && (forall i :: 0 <= i < |steps| && (steps[i].Start? || steps[i].Boot?) ==> steps[i].m.id in ids)
  }

  lemma {:induction false} RunWithin(s: Net, steps: seq<Step>, ids: seq<MsgId>)
    requires Init(s) && IsRun(s, steps) && UsesOnly(steps, ids)
    ensures Within(Exec(s, steps), ids)
  {
    hide Apply, Enabled;
    if |steps| > 0 {
      var n := |steps| - 1;
      PrefixUsesOnly(steps, ids);
      RunWithin(s, steps[..n], ids);
      StepRecord(Exec(s, steps[..n]), steps[n]);
    }
  }

  lemma PrefixUsesOnly(steps: seq<Step>, ids: seq<MsgId>)
    requires |steps| > 0 && UsesOnly(steps, ids)
    ensures UsesOnly(steps[..|steps| - 1], ids)
  {
    var n := |steps| - 1;
    assert forall i :: 0 <= i < n ==> steps[..n][i] == steps[i];
  }

  lemma InitMeasure(s: Net, ids: seq<MsgId>)
    requires Init(s)
    ensures Measure(s, ids) <= |s.nodes| * (|ids| * FullBudget(|s.nodes|))
  {
    hide FullBudget;
    var n := |s.nodes|;
    var f := NodeWeight(n, ids);
    forall i | 0 <= i < n ensures f(s.nodes[i]) <= |ids| * FullBudget(n) {
      EmptyNode(n, s.nodes[i], ids);
    }
    SumAtMost(f, s.nodes, |ids| * FullBudget(n));
  }

  lemma EmptyNode(n: nat, v: Node, ids: seq<MsgId>)
    requires v.buf == [] && v.jobs == []
    ensures NodeWeight(n, ids)(v) <= |ids| * FullBudget(n)
  {
    forall i | 0 <= i < |ids| ensures IdWeight(n, v.buf)(ids[i]) <= FullBudget(n) {
      BudgetStep(n, Count(v.buf, ids[i]));
    }
    SumAtMost(IdWeight(n, v.buf), ids, FullBudget(n));
  }

  lemma {:induction false} RunWork(s: Net, steps: seq<Step>, ids: seq<MsgId>)
    requires Init(s) && IsRun(s, steps) && UsesOnly(steps, ids)
    ensures Measure(Exec(s, steps), ids) + TotalWork(s, steps)
            <= Measure(s, ids) + Calls(steps) * CallWeight(|s.nodes|) + TotalEvictions(s, steps) * FullBudget(|s.nodes|)
  {
    hide Apply, Enabled, Init, Measure, CallWeight, FullBudget, UsesOnly, Within, Inv, Work, Evictions;
    if |steps| > 0 {
      var n := |steps| - 1;
      var mid := Exec(s, steps[..n]);
      PrefixUsesOnly(steps, ids);
      RunWork(s, steps[..n], ids);
      RunWithin(s, steps[..n], ids);
      RunInv(s, steps[..n]);
      SameAddresses(s, steps[..n]);
      StepWork(mid, steps[n], ids);
      Distribute(TotalEvictions(s, steps[..n]), Evictions(mid, steps[n]), FullBudget(|s.nodes|));
    }
  }

  lemma Distribute(a: nat, b: nat, x: nat)
    ensures (a + b) * x == a * x + b * x
  {
  }

  // ---------- the ids a run uses ----------

  function UsedIds(steps: seq<Step>): seq<MsgId> {
    if |steps| == 0 then []
    else
      var ids, last := UsedIds(steps[..|steps| - 1]), steps[|steps| - 1];
      if (last.Start? || last.Boot?) && last.m.id !in ids then ids + [last.m.id] else ids
  }

  /** The number of discovery messages set up. */
  function Boots(steps: seq<Step>): nat {
    if |steps| == 0 then 0
    else Boots(steps[..|steps| - 1]) + if steps[|steps| - 1].Boot? then 1 else 0
  }

  lemma {:induction false} UsedIdsCover(steps: seq<Step>)
    ensures UsesOnly(steps, UsedIds(steps)) && |UsedIds(steps)| <= Calls(steps) + Boots(steps)
  {
    if |steps| > 0 {
      var n := |steps| - 1;
      UsedIdsCover(steps[..n]);
      assert forall i :: 0 <= i < n ==> steps[..n][i] == steps[i];
    }
  }

  function Booted(): Node -> nat {
    (v: Node) => if v.dc.kind != 0 then 1 else 0
  }

  lemma BootStep(s: Net, step: Step)
    requires Enabled(s, step)
    ensures Sum(Booted(), Apply(s, step).nodes) == Sum(Booted(), s.nodes) + if step.Boot? then 1 else 0
  {
    hide Sum, Receive, SyncOne, IdSet, Open, Dump;
    var s' := Apply(s, step);
    if !step.Lose? {
      var a := if step.Deliver? then s.air[step.k].to else step.a;
      assert s'.nodes == s.nodes[a := s'.nodes[a]];
      SumUpdate(Booted(), s.nodes, a, s'.nodes[a]);
    }
  }

  lemma {:induction false} BootsSoFar(s: Net, steps: seq<Step>)
    requires Init(s) && IsRun(s, steps)
    ensures Boots(steps) == Sum(Booted(), Exec(s, steps).nodes)
  {
    hide Apply, Enabled, Booted;
    if |steps| == 0 {
      NoneBooted(s);
    } else {
      BootsSoFar(s, steps[..|steps| - 1]);
      BootStep(Exec(s, steps[..|steps| - 1]), steps[|steps| - 1]);
    }
  }

  lemma NoneBooted(s: Net)
    requires Init(s)
    ensures Sum(Booted(), s.nodes) == 0
  {
    SumAtMost(Booted(), s.nodes, 0);
  }

  /** Every node sets up its discovery message once, so a run uses no more ids than there are calls and nodes. */
  lemma IdsAtMost(s: Net, steps: seq<Step>)
    requires Init(s) && IsRun(s, steps)
    ensures |UsedIds(steps)| <= Calls(steps) + |s.nodes|
  {
    hide Init, Apply, Enabled;
    UsedIdsCover(steps);
    BootsSoFar(s, steps);
    SameAddresses(s, steps);
    SumAtMost(Booted(), Exec(s, steps).nodes, 1);
  }

  // ---------- main results ----------

  /** Flood termination: with n nodes, loss, loop-back and any forwarding draws, the transmissions, deliveries, losses and sender
      steps of a run are bounded by its mcast_send calls and its evictions, however long it goes on. In particular a run with
      finitely many calls and no eviction transmits finitely often. */
  lemma FloodTermination(s: Net, steps: seq<Step>)
    requires Init(s) && IsRun(s, steps)
    ensures var n := |s.nodes|;
            TotalWork(s, steps) <= n * ((Calls(steps) + n) * FullBudget(n)) + Calls(steps) * CallWeight(n)
                                   + TotalEvictions(s, steps) * FullBudget(n)
  {
    hide Init, IsRun, Measure, UsesOnly, FullBudget, CallWeight, UsedIds, Calls, TotalEvictions, TotalWork, Exec;
    var n, ids := |s.nodes|, UsedIds(steps);
    UsedIdsCover(steps);
    RunWork(s, steps, ids);
    InitMeasure(s, ids);
    IdsAtMost(s, steps);
    Monotone(|ids|, Calls(steps) + n, FullBudget(n));
    Monotone(|ids| * FullBudget(n), (Calls(steps) + n) * FullBudget(n), n);
  }

  lemma Monotone(a: nat, b: nat, x: nat)
    requires a <= b
    ensures a * x <= b * x && x * a <= x * b
  {
  }

  /** A run whose ids fit into a buffer evicts nothing: */
  lemma {:induction false} NoEviction(s: Net, steps: seq<Step>, ids: seq<MsgId>)
    requires Init(s) && IsRun(s, steps) && UsesOnly(steps, ids) && |ids| <= 1000
    ensures TotalEvictions(s, steps) == 0
    ensures forall a :: 0 <= a < |Exec(s, steps).nodes| ==> |Exec(s, steps).nodes[a].buf| <= |ids|
  {
    hide Init, Apply, Enabled, Evictions, UsesOnly;
    if |steps| > 0 {
      var n := |steps| - 1;
      PrefixUsesOnly(steps, ids);
      NoEviction(s, steps[..n], ids);
      RunWithin(s, steps[..n], ids);
      RunInv(s, steps[..n]);
      StepEvictsNothing(Exec(s, steps[..n]), steps[n], ids);
    }
    RunInv(s, steps);
    RunWithin(s, steps, ids);
    forall a | 0 <= a < |Exec(s, steps).nodes| ensures |Exec(s, steps).nodes[a].buf| <= |ids| {
      BufferSize(Exec(s, steps), ids, a);
    }
  }

  lemma StepEvictsNothing(s: Net, step: Step, ids: seq<MsgId>)
    requires Inv(s) && Within(s, ids) && |ids| <= MAXMSGS && Enabled(s, step)
    ensures Evictions(s, step) == 0
  {
    hide Inv, Within;
    match step
    case Deliver(k, r) =>
      var p := s.air[k];
      if ValidKind(p.wire.kind) && !Holds(s.nodes[p.to].buf, p.wire.id) {
        PacketGenuine(s, p);
        RoomLeft(s, ids, p.to, p.wire.id);
      }
    case SyncRead(a) =>
      if !Holds(s.nodes[a].buf, s.nodes[a].stream[0].id) {
        StreamGenuine(s, a);
        RoomLeft(s, ids, a, s.nodes[a].stream[0].id);
      }
    case _ =>
  }

  /** and so its work is bounded by its calls alone. */
  lemma FewIdsTerminate(s: Net, steps: seq<Step>)
    requires Init(s) && IsRun(s, steps) && |UsedIds(steps)| <= 1000
    ensures var n := |s.nodes|;
            TotalWork(s, steps) <= n * ((Calls(steps) + n) * FullBudget(n)) + Calls(steps) * CallWeight(n)
  {
    hide Init, Apply, Enabled, UsesOnly, FullBudget, CallWeight;
    UsedIdsCover(steps);
    NoEviction(s, steps, UsedIds(steps));
    FloodTermination(s, steps);
  }

  lemma BufferSize(s: Net, ids: seq<MsgId>, a: nat)
    requires Inv(s) && Within(s, ids) && a < |s.nodes|
    ensures |s.nodes[a].buf| <= |ids|
  {
    hide HeldElsewhere, JobsInv, DcInv, StreamInv;
    var buf := s.nodes[a].buf;
    assert NodeInv(s, a);
    forall x | x in IdSet(buf) ensures x in Elements(ids) {
      var e :| e in buf && e.msg.id == x;
      assert Genuine(s, e.msg);
    }
    IdSetSize(buf);
    ElementsSize(ids);
    SubsetSize(IdSet(buf), Elements(ids));
  }
}
