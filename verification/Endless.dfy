/** Why floods are bounded only up to eviction: with one message more than fits into a buffer, a relayed copy always comes back to a
    node that has just forgotten it, and two nodes relay for ever. */
module Endless {
  import opened Sequences
  import opened Bytes
  import opened Messages
  import opened Mcast
  import opened Buffer
  import opened Network
  import opened Termination

  /** All transmissions of a run. */
  ghost function Transmissions(s: Net, steps: seq<Step>): nat
    requires IsRun(s, steps)
    decreases |steps|
  {
    if |steps| == 0 then 0
    else
      var n := |steps| - 1;
      Transmissions(s, steps[..n]) + Sends(Exec(s, steps[..n]), steps[n])
  }

  lemma Extend(s: Net, steps: seq<Step>, step: Step)
    requires IsRun(s, steps) && Enabled(Exec(s, steps), step)
    ensures IsRun(s, steps + [step]) && Exec(s, steps + [step]) == Apply(Exec(s, steps), step)
    ensures Transmissions(s, steps + [step]) == Transmissions(s, steps) + Sends(Exec(s, steps), step)
    ensures Calls(steps + [step]) == Calls(steps) + if step.Start? then 1 else 0
    ensures UsedIds(steps + [step])
            == UsedIds(steps) + if (step.Start? || step.Boot?) && step.m.id !in UsedIds(steps) then [step.m.id] else []
  {
    assert (steps + [step])[..|steps|] == steps;
    assert UsedIds(steps) + [] == UsedIds(steps);
  }

  /** The run goes on from `steps` to `more` with so many transmissions and without a new call or id. */
  ghost predicate Longer(s: Net, steps: seq<Step>, more: seq<Step>, sends: nat) {
    && IsRun(s, steps) && IsRun(s, more) && Calls(more) == Calls(steps) && UsedIds(more) == UsedIds(steps)
    && Transmissions(s, more) == Transmissions(s, steps) + sends
  }

  lemma LoseAt(s: Net, steps: seq<Step>, k: nat) returns (more: seq<Step>)
    requires IsRun(s, steps) && k < |Exec(s, steps).air|
    ensures Longer(s, steps, more, 0)
    ensures var v := Exec(s, steps); Exec(s, more) == v.(air := RemoveAt(v.air, k))
  {
    Extend(s, steps, Lose(k));
    more := steps + [Lose(k)];
  }

  /** The copies of a broadcast that go to these nodes, all of them below m. */
  function Chosen(a: nat, keep: set<nat>, wire: Message, m: nat): seq<Packet> {
    if m == 0 then [] else Chosen(a, keep, wire, m - 1) + if m - 1 in keep then [Packet(a, m - 1, wire)] else []
  }

  lemma {:induction false} ChosenOne(a: nat, b: nat, wire: Message, m: nat)
    ensures Chosen(a, {b}, wire, m) == if b < m then [Packet(a, b, wire)] else []
  {
    if m > 0 {
      ChosenOne(a, b, wire, m - 1);
    }
  }

  lemma {:induction false} ChosenTwo(a: nat, wire: Message, m: nat)
    requires m >= 3
    ensures Chosen(a, {1, 2}, wire, m) == [Packet(a, 1, wire), Packet(a, 2, wire)]
  {
    if m > 3 {
      ChosenTwo(a, wire, m - 1);
    } else {
      assert Chosen(a, {1, 2}, wire, 1) == [];
      assert Chosen(a, {1, 2}, wire, 2) == [Packet(a, 1, wire)];
    }
  }

  /** Of a broadcast all copies are lost but those to chosen nodes. */
  lemma {:induction false} Prune(s: Net, steps: seq<Step>, rest: seq<Packet>, a: nat, keep: set<nat>, wire: Message, m: nat, tail: seq<Packet>)
      returns (more: seq<Step>)
    requires IsRun(s, steps) && Exec(s, steps).air == rest + Broadcast(m, a, wire) + tail
    ensures Longer(s, steps, more, 0)
    ensures Exec(s, more) == Exec(s, steps).(air := rest + Chosen(a, keep, wire, m) + tail)
    decreases m
  {
    hide Calls, Transmissions, UsedIds, Exec, IsRun;
    if m == 0 {
      more := steps;
      assert rest + [] + tail == rest + Broadcast(0, a, wire) + tail;
    } else {
      var p, front, kept := Packet(a, m - 1, wire), Broadcast(m - 1, a, wire), Chosen(a, keep, wire, m - 1);
      assert Broadcast(m, a, wire) == front + [p];
      if m - 1 in keep {
        assert rest + (front + [p]) + tail == rest + front + ([p] + tail);
        more := Prune(s, steps, rest, a, keep, wire, m - 1, [p] + tail);
        assert rest + kept + ([p] + tail) == rest + (kept + [p]) + tail;
      } else {
        var first := LoseAt(s, steps, |rest| + m - 1);
        assert RemoveAt(rest + (front + [p]) + tail, |rest| + m - 1) == rest + front + tail;
        more := Prune(s, first, rest, a, keep, wire, m - 1, tail);
        assert kept + [] == kept;
      }
    }
  }

  /** Of a broadcast at the end of the air, only the copy to node b gets through. */
  lemma KeepOne(s: Net, steps: seq<Step>, rest: seq<Packet>, a: nat, b: nat, wire: Message, n: nat) returns (more: seq<Step>)
    requires IsRun(s, steps) && b < n && Exec(s, steps).air == rest + Broadcast(n, a, wire)
    ensures Longer(s, steps, more, 0)
    ensures Exec(s, more) == Exec(s, steps).(air := rest + [Packet(a, b, wire)])
  {
    hide Longer, Exec, IsRun;
    ChosenOne(a, b, wire, n);
    assert rest + Broadcast(n, a, wire) + [] == rest + Broadcast(n, a, wire);
    more := Prune(s, steps, rest, a, {b}, wire, n, []);
    assert rest + [Packet(a, b, wire)] + [] == rest + [Packet(a, b, wire)];
  }

  /** A foreign message not held, at position k of the air, about to be heard by a node that did not send this copy. */
  ghost predicate News(v: Net, k: nat) {
    && k < |v.air|
    && var p := v.air[k];
    && p.from < |v.nodes| && p.to < |v.nodes| && p.wire.kind == CHAT_MSG && !Holds(v.nodes[p.to].buf, p.wire.id)
    && v.nodes[p.from].ip != v.nodes[p.to].ip && p.wire.id.ip != v.nodes[p.to].ip
  }

  lemma NewsReceived(v: Net, k: nat)
    requires News(v, k)
    ensures var p := v.air[k]; var x := v.nodes[p.to];
            Receive(x.ip, v.t, x.buf, v.nodes[p.from].ip, p.wire, 0)
            == Outcome(Append(x.buf, Entry(1, Open(v.t, p.wire))), true, false)
  {
    hide Open, Append;
  }

  /** The node counts it for the first time and nothing else happens to the nodes. */
  ghost predicate Counted(v: Net, u: Net, k: nat) {
    && k < |v.air| && v.air[k].to < |v.nodes| && |u.nodes| == |v.nodes| && u.t == v.t && u.sent == v.sent
    && var p := v.air[k];
    var x, y := v.nodes[p.to], u.nodes[p.to];
    && u.nodes == v.nodes[p.to := y] && y.ip == x.ip && y.jobs == x.jobs
    && y.buf == Append(x.buf, Entry(1, Open(v.t, p.wire)))
  }

  lemma NewsHeard(v: Net, k: nat)
    requires News(v, k)
    ensures var p := v.air[k]; var u := Apply(v, Deliver(k, 0));
            && Counted(v, u, k) && u.air == RemoveAt(v.air, k) + Broadcast(|v.nodes|, p.to, p.wire) && Sends(v, Deliver(k, 0)) == 1
  {
    hide Open, Append, Receive;
    NewsReceived(v, k);
    var p, n := v.air[k], |v.nodes|;
    assert BroadcastAll(n, p.to, [p.wire][1..]) == [];
    assert Broadcast(n, p.to, p.wire) + [] == Broadcast(n, p.to, p.wire);
  }

  /** It passes the message on, and the only copy not lost is the one to node b. */
  lemma Hop(s: Net, steps: seq<Step>, k: nat, b: nat) returns (more: seq<Step>)
    requires IsRun(s, steps) && News(Exec(s, steps), k) && b < |Exec(s, steps).nodes|
    ensures Longer(s, steps, more, 1)
    ensures var v := Exec(s, steps); var u := Exec(s, more);
            Counted(v, u, k) && u.air == RemoveAt(v.air, k) + [Packet(v.air[k].to, b, v.air[k].wire)]
  {
    hide Calls, Transmissions, UsedIds, Open, Append, Apply, Holds;
    var v, p := Exec(s, steps), Exec(s, steps).air[k];
    NewsHeard(v, k);
    Extend(s, steps, Deliver(k, 0));
    more := KeepOne(s, steps + [Deliver(k, 0)], RemoveAt(v.air, k), p.to, b, p.wire, |v.nodes|);
  }

  // ---------- going round ----------

  /** Every message is on its way from node 2 to node 1. */
  function Flying(ws: seq<Message>): (ps: seq<Packet>)
    ensures |ps| == |ws|
  {
    seq(|ws|, i requires 0 <= i < |ws| => Packet(2, 1, ws[i]))
  }

  function Seen(t: Blowfish.Tables, ws: seq<Message>): (buf: Buf)
    ensures |buf| == |ws|
  {
    seq(|ws|, i requires 0 <= i < |ws| => Entry(1, Open(t, ws[i])))
  }

  /** What a buffer holds after these messages. */
  function Kept(t: Blowfish.Tables, ws: seq<Message>): Buf {
    if |ws| > MAXMSGS then Seen(t, ws[1..]) else Seen(t, ws)
  }

  ghost predicate Circling(v: Net, ws: seq<Message>) {
    && |v.nodes| >= 3 && v.nodes[0].jobs == [] && v.nodes[0].buf == []
    && v.nodes[0].ip != v.nodes[1].ip && v.nodes[1].ip != v.nodes[2].ip && v.nodes[2].ip != v.nodes[0].ip
    && |ws| <= MAXMSGS + 1 && v.air == Flying(ws)
    && (forall i :: 0 <= i < |ws| ==> ws[i].kind == CHAT_MSG && ws[i].id.ip == v.nodes[0].ip)
    && DistinctIds(ws)
    && v.nodes[1].buf == v.nodes[2].buf == Kept(v.t, ws)
  }

  lemma NotSeen(t: Blowfish.Tables, ws: seq<Message>, id: MsgId)
    requires forall i :: 0 <= i < |ws| ==> ws[i].id != id
    ensures !Holds(Seen(t, ws), id)
  {
    hide Open;
    FindPast(Seen(t, ws), id);
  }

  /** The message first in line has been forgotten by node 1 when it comes, */
  lemma FirstInLine(v: Net, ws: seq<Message>)
    requires Circling(v, ws) && |ws| == MAXMSGS + 1
    ensures News(v, 0)
  {
    hide Open, Holds;
    NotSeen(v.t, ws[1..], ws[0].id);
  }

  /** and by node 2 when node 1 has passed it on, */
  lemma HalfWay(v: Net, u: Net, ws: seq<Message>)
    requires Circling(v, ws) && |ws| == MAXMSGS + 1 && Counted(v, u, 0)
    requires u.air == RemoveAt(v.air, 0) + [Packet(1, 2, ws[0])]
    ensures |u.nodes| >= 3 && News(u, MAXMSGS) && RemoveAt(u.air, MAXMSGS) == Flying(ws[1..])
  {
    hide Open, Holds, Append;
    NotSeen(v.t, ws[1..], ws[0].id);
    assert RemoveAt(v.air, 0) == Flying(ws[1..]);
  }

  /** after which it is last in line. */
  lemma LastInLine(v: Net, u: Net, x: Net, ws: seq<Message>)
    requires Circling(v, ws) && |ws| == MAXMSGS + 1 && Counted(v, u, 0) && u.air == RemoveAt(v.air, 0) + [Packet(1, 2, ws[0])]
    requires Counted(u, x, MAXMSGS) && x.air == Flying(ws[1..]) + [Packet(2, 1, ws[0])]
    ensures Circling(x, ws[1..] + [ws[0]])
  {
    hide Open, Holds, Append, Kept;
    assert u.air[MAXMSGS] == Packet(1, 2, ws[0]);
    KeptRound(v.t, ws);
    assert x.air == Flying(ws[1..] + [ws[0]]);
  }

  /** One message goes round once, from node 2 to node 1 and back; both forget the next one for it. */
  lemma GoRound(s: Net, steps: seq<Step>, ws: seq<Message>) returns (more: seq<Step>)
    requires IsRun(s, steps) && Circling(Exec(s, steps), ws) && |ws| == MAXMSGS + 1
    ensures Longer(s, steps, more, 2) && Circling(Exec(s, more), ws[1..] + [ws[0]])
  {
    hide Calls, Transmissions, UsedIds, IsRun, Exec, News, Counted;
    var v := Exec(s, steps);
    FirstInLine(v, ws);
    var half := Hop(s, steps, 0, 2);
    HalfWay(v, Exec(s, half), ws);
    more := Hop(s, half, MAXMSGS, 1);
    LastInLine(v, Exec(s, half), Exec(s, more), ws);
  }

  lemma KeptRound(t: Blowfish.Tables, ws: seq<Message>)
    requires |ws| == MAXMSGS + 1
    ensures Append(Kept(t, ws), Entry(1, Open(t, ws[0]))) == Kept(t, ws[1..] + [ws[0]])
  {
    hide Open;
    assert Seen(t, ws[1..]) + [Entry(1, Open(t, ws[0]))] == Seen(t, ws[1..] + [ws[0]]);
    assert Seen(t, ws[1..] + [ws[0]])[1..] == Seen(t, (ws[1..] + [ws[0]])[1..]);
  }

  lemma KeptMore(t: Blowfish.Tables, ws: seq<Message>, w: Message)
    requires |ws| <= MAXMSGS
    ensures Append(Kept(t, ws), Entry(1, Open(t, w))) == Kept(t, ws + [w])
  {
    hide Open;
    assert Seen(t, ws) + [Entry(1, Open(t, w))] == Seen(t, ws + [w]);
    assert Seen(t, ws + [w])[1..] == Seen(t, (ws + [w])[1..]);
  }

  lemma {:induction false} GoOn(s: Net, steps: seq<Step>, ws: seq<Message>, n: nat) returns (more: seq<Step>)
    requires IsRun(s, steps) && Circling(Exec(s, steps), ws) && |ws| == MAXMSGS + 1
    ensures Longer(s, steps, more, 2 * n)
    decreases n
  {
    hide Calls, Transmissions, UsedIds, Circling;
    if n == 0 {
      more := steps;
    } else {
      var round := GoRound(s, steps, ws);
      more := GoOn(s, round, ws[1..] + [ws[0]], n - 1);
    }
  }

  // ---------- getting started ----------

  /** Node 0 with one call in progress. */
  function Calling(v: Net, job: Job): Net
    requires |v.nodes| > 0
  {
    v.(nodes := v.nodes[0 := v.nodes[0].(jobs := [job])])
  }

  ghost predicate Idle(v: Net) {
    |v.nodes| > 0 && v.nodes[0].jobs == [] && v.nodes[0].buf == []
  }

  lemma CallStarts(v: Net, m: Message, iv: seq<byte>)
    requires Idle(v) && |iv| == 8 && ValidKind(m.kind) && FreshId(v, 0, m)
    ensures Apply(v, Start(0, m, iv, true)) == Calling(v.(sent := v.sent[m.id := Says(m)]), Job(m, Seal(v.t, iv, m), Ready(1), true))
  {
    hide Seal;
    var job := Job(m, Seal(v.t, iv, m), Ready(1), true);
    assert v.nodes[0].jobs + [job] == [job];
    assert Apply(v, Start(0, m, iv, true)).nodes == Calling(v, job).nodes;
  }

  lemma CallTransmits(v: Net, job: Job)
    requires Idle(v) && job.call.Ready? && job.wantack
    ensures Apply(Calling(v, job), Transmit(0, 0, true))
            == Calling(v.(air := v.air + Broadcast(|v.nodes|, 0, job.wire)), job.(call := Waiting(job.call.n)))
  {
    var next := job.(call := Waiting(job.call.n));
    assert [job][0 := next] == [next];
    assert Apply(Calling(v, job), Transmit(0, 0, true)).nodes == Calling(v, next).nodes;
  }

  lemma CallHearsNothing(v: Net, job: Job)
    requires Idle(v) && job.call == Waiting(1)
    ensures Apply(Calling(v, job), Check(0, 0)) == Calling(v, job.(call := Ready(2)))
  {
    var next := job.(call := Ready(2));
    assert [job][0 := next] == [next];
    assert Apply(Calling(v, job), Check(0, 0)).nodes == Calling(v, next).nodes;
  }

  lemma CallFails(v: Net, job: Job)
    requires Idle(v) && job.call.Ready?
    ensures Apply(Calling(v, job), Transmit(0, 0, false)) == v
  {
    assert RemoveAt([job], 0) == [];
    assert v.nodes[0].(jobs := []) == v.nodes[0];
  }

  /** A waiting call of mcast_send puts a new message on the air, for nodes 1 and 2 only. It hears nothing during its first wait and
      its second sendto fails, so nothing of it is left at its node. */
  lemma SendOut(s: Net, steps: seq<Step>, m: Message, iv: seq<byte>) returns (more: seq<Step>)
    requires IsRun(s, steps) && |iv| == 8
    requires var v := Exec(s, steps); |v.nodes| >= 3 && Idle(v) && ValidKind(m.kind) && FreshId(v, 0, m)
    ensures IsRun(s, more) && Calls(more) == Calls(steps) + 1
    ensures UsedIds(more) == UsedIds(steps) + if m.id in UsedIds(steps) then [] else [m.id]
    ensures var v := Exec(s, steps); var w := Seal(v.t, iv, m);
            Exec(s, more) == v.(air := v.air + [Packet(0, 1, w), Packet(0, 2, w)], sent := v.sent[m.id := Says(m)])
  {
    hide Calls, Transmissions, UsedIds, Seal, Apply, IsRun, Exec, Chosen;
    var v, w := Exec(s, steps), Seal(Exec(s, steps).t, iv, m);
    var known := v.(sent := v.sent[m.id := Says(m)]);
    var job, out := Job(m, w, Ready(1), true), known.(air := v.air + Broadcast(|v.nodes|, 0, w));
    CallStarts(v, m, iv);
    Extend(s, steps, Start(0, m, iv, true));
    CallTransmits(known, job);
    var s1 := steps + [Start(0, m, iv, true)];
    Extend(s, s1, Transmit(0, 0, true));
    CallHearsNothing(out, job.(call := Waiting(1)));
    var s2 := s1 + [Transmit(0, 0, true)];
    Extend(s, s2, Check(0, 0));
    CallFails(out, job.(call := Ready(2)));
    var s3 := s2 + [Check(0, 0)];
    Extend(s, s3, Transmit(0, 0, false));
    var copies := Broadcast(|v.nodes|, 0, w);
    assert v.air + copies + [] == v.air + copies;
    more := Prune(s, s3 + [Transmit(0, 0, false)], v.air, 0, {1, 2}, w, |v.nodes|, []);
    ChosenTwo(0, w, |v.nodes|);
    assert v.air + [Packet(0, 1, w), Packet(0, 2, w)] + [] == v.air + [Packet(0, 1, w), Packet(0, 2, w)];
    assert UsedIds(steps) + [] == UsedIds(steps);
  }

  /** One more message joins those circling. */
  lemma Join(s: Net, steps: seq<Step>, ws: seq<Message>, m: Message, iv: seq<byte>) returns (more: seq<Step>)
    requires IsRun(s, steps) && Circling(Exec(s, steps), ws) && |ws| <= MAXMSGS && |iv| == 8
    requires m.kind == CHAT_MSG && FreshId(Exec(s, steps), 0, m) && forall i :: 0 <= i < |ws| ==> ws[i].id != m.id
    ensures IsRun(s, more) && Calls(more) == Calls(steps) + 1
    ensures UsedIds(more) == UsedIds(steps) + if m.id in UsedIds(steps) then [] else [m.id]
    ensures var v := Exec(s, steps); var u := Exec(s, more);
            && Circling(u, ws + [Seal(v.t, iv, m)]) && u.t == v.t && u.sent == v.sent[m.id := Says(m)] && u.nodes[0] == v.nodes[0]
  {
    hide Calls, Transmissions, UsedIds, Open, Append, Holds, Seal, IsRun, Exec;
    var v, n := Exec(s, steps), |ws|;
    var w, air := Seal(v.t, iv, m), Flying(ws);
    var out := SendOut(s, steps, m, iv);
    NotSeen(v.t, ws, w.id);
    var first := Hop(s, out, n, 0);
    assert RemoveAt(air + [Packet(0, 1, w), Packet(0, 2, w)], n) == air + [Packet(0, 2, w)];
    var alone := LoseAt(s, first, n + 1);
    assert Exec(s, alone).air == air + [Packet(0, 2, w)];
    more := Hop(s, alone, n, 1);
    assert Exec(s, more).air == Flying(ws + [w]);
    KeptMore(v.t, ws, w);
  }

  function Nulls(n: nat): (b: seq<byte>)
    ensures |b| == n
  {
    seq(n, _ => 0)
  }

  /** Message number i of the origin. */
  function Numbered(ip: nat, i: nat): Message {
    Message(CHAT_MSG, MsgId(ip, i, 0, 0), Nulls(8), Nulls(79))
  }

  function Wires(t: Blowfish.Tables, ip: nat, n: nat): (ws: seq<Message>)
    ensures |ws| == n
    ensures forall i :: 0 <= i < n ==> ws[i].id == Numbered(ip, i).id && ws[i].kind == CHAT_MSG
  {
    seq(n, i requires 0 <= i < n => Seal(t, Nulls(8), Numbered(ip, i)))
  }

  lemma {:induction false} GetStarted(s: Net, n: nat) returns (steps: seq<Step>)
    requires Init(s) && |s.nodes| >= 3 && n <= MAXMSGS + 1
    ensures IsRun(s, steps) && Calls(steps) == |UsedIds(steps)| == n && forall id :: id in UsedIds(steps) ==> id.sec < n
    ensures var v := Exec(s, steps); var ip := s.nodes[0].ip;
            && Circling(v, Wires(s.t, ip, n)) && v.t == s.t && v.nodes[0].ip == ip
            && forall i: nat :: Numbered(ip, i).id in v.sent ==> v.sent[Numbered(ip, i).id] == Says(Numbered(ip, i))
  {
    hide Seal, Nulls, Enabled, Apply;
    if n == 0 {
      steps := [];
    } else {
      var before := GetStarted(s, n - 1);
      var ip := s.nodes[0].ip;
      var ws := Wires(s.t, ip, n - 1);
      steps := Join(s, before, ws, Numbered(ip, n - 1), Nulls(8));
      assert Wires(s.t, ip, n) == ws + [Seal(s.t, Nulls(8), Numbered(ip, n - 1))];
    }
  }

  /** Without the bound on evictions floods need not die out: among three nodes or more, 1001 calls of mcast_send with as many ids
      can lead to any number of transmissions. */
  lemma NeverEnds(s: Net, n: nat) returns (steps: seq<Step>)
    requires Init(s) && |s.nodes| >= 3
    ensures IsRun(s, steps) && Calls(steps) == |UsedIds(steps)| == 1001 && Transmissions(s, steps) >= n
  {
    hide Init, Circling, Calls, Transmissions, UsedIds, Wires;
    var start := GetStarted(s, MAXMSGS + 1);
    steps := GoOn(s, start, Wires(s.t, s.nodes[0].ip, MAXMSGS + 1), n);
  }
}
