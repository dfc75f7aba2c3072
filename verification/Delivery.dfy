/** Liveness: left to deliver, in whatever order and under whatever draws, the network comes to rest, and by then flooding and
    acknowledgement have done their work. */
module Delivery {
  import opened Messages
  import opened Mcast
  import opened Buffer
  import opened Network
  import opened Soundness
  import opened Termination
  import opened Flooding
  import opened Acknowledgement

  /** The run goes on from `steps` to `more` by deliveries only: number i takes the copy and the draw that `order` and `draws` say. */
  ghost predicate Delivering(s: Net, steps: seq<Step>, more: seq<Step>, order: nat -> nat, draws: nat -> nat) {
    && IsRun(s, more) && |steps| <= |more| && more[..|steps|] == steps
    && forall i :: |steps| <= i < |more| ==> Next(StateAt(s, more, i), more[i], order(i), draws(i))
  }

  /** The next delivery. */
  function Choose(v: Net, k: nat, r: nat): Step
    requires |v.air| > 0
  {
    Deliver(k % |v.air|, r % 100)
  }

  ghost predicate Next(v: Net, step: Step, k: nat, r: nat) {
    |v.air| > 0 && step == Choose(v, k, r)
  }

  /** It can be taken, evicts nothing while the ids fit into a buffer, and takes its work off the measure. */
  lemma DeliverySinks(v: Net, k: nat, r: nat, ids: seq<MsgId>)
    requires Inv(v) && Within(v, ids) && |ids| <= MAXMSGS && |v.air| > 0
    ensures Enabled(v, Choose(v, k, r)) && Evictions(v, Choose(v, k, r)) == 0
    ensures Measure(Apply(v, Choose(v, k, r)), ids) < Measure(v, ids)
  {
    hide Within, Measure, Apply, Evictions, FullBudget;
    var step := Choose(v, k, r);
    assert v.air[step.k] in v.air && PacketInv(v, v.air[step.k]);
    StepEvictsNothing(v, step, ids);
    StepWork(v, step, ids);
  }

  lemma Resume(s: Net, steps: seq<Step>, more: seq<Step>, order: nat -> nat, draws: nat -> nat)
    requires IsRun(s, steps) && |Exec(s, steps).air| > 0
    requires Delivering(s, steps + [Choose(Exec(s, steps), order(|steps|), draws(|steps|))], more, order, draws)
    ensures Delivering(s, steps, more, order, draws)
  {
    hide IsRun, Exec;
    var n := |steps|;
    var next := Choose(Exec(s, steps), order(n), draws(n));
    assert more[..n] == more[..n + 1][..n] == (steps + [next])[..n] == steps;
    assert more[n] == more[..n + 1][n] == next;
  }

  /** Whatever the order and the draws, deliveries end with nothing on the air. */
  lemma {:induction false} Drain(s: Net, steps: seq<Step>, order: nat -> nat, draws: nat -> nat, ids: seq<MsgId>) returns (more: seq<Step>)
    requires Init(s) && IsRun(s, steps) && UsesOnly(steps, ids) && |ids| <= MAXMSGS
    ensures Delivering(s, steps, more, order, draws) && Exec(s, more).air == []
    decreases Measure(Exec(s, steps), ids)
  {
    hide Init, Inv, Within, Measure, Apply, Enabled, Choose;
    var v := Exec(s, steps);
    if |v.air| == 0 {
      more := steps;
      assert steps[..|steps|] == steps;
    } else {
      var step := Choose(v, order(|steps|), draws(|steps|));
      RunInv(s, steps);
      RunWithin(s, steps, ids);
      DeliverySinks(v, order(|steps|), draws(|steps|), ids);
      assert (steps + [step])[..|steps|] == steps;
      ChosenDelivers(v, order(|steps|), draws(|steps|));
      assert UsesOnly(steps + [step], ids);
      more := Drain(s, steps + [step], order, draws, ids);
      Resume(s, steps, more, order, draws);
    }
  }

  lemma ChosenDelivers(v: Net, k: nat, r: nat)
    requires |v.air| > 0
    ensures Choose(v, k, r).Deliver?
  {
  }

  lemma Shorter(s: Net, steps: seq<Step>, more: seq<Step>, order: nat -> nat, draws: nat -> nat)
    requires Delivering(s, steps, more, order, draws) && |more| > |steps|
    ensures Delivering(s, steps, more[..|more| - 1], order, draws)
    ensures more[|more| - 1].Deliver? && Enabled(Exec(s, more[..|more| - 1]), more[|more| - 1])
  {
    hide Exec, Enabled;
    var n := |more| - 1;
    RunPrefix(s, more, n);
    assert more[..n][..|steps|] == more[..|steps|];
    forall i | |steps| <= i < n ensures Next(StateAt(s, more[..n], i), more[..n][i], order(i), draws(i)) {
      assert more[..n][..i] == more[..i] && more[..n][i] == more[i];
      assert Next(StateAt(s, more, i), more[i], order(i), draws(i));
    }
    assert Next(StateAt(s, more, n), more[n], order(n), draws(n));
  }

  /** Deliveries lose nothing and use no new ids. */
  lemma {:induction false} DeliveringReliable(s: Net, links: set<(nat, nat)>, steps: seq<Step>, more: seq<Step>,
                                              order: nat -> nat, draws: nat -> nat)
    requires IsRun(s, steps) && ReliableRun(s, links, steps) && Delivering(s, steps, more, order, draws)
    ensures ReliableRun(s, links, more) && UsedIds(more) == UsedIds(steps)
    decreases |more|
  {
    hide Exec, Enabled, Delivering;
    PrefixOf(s, steps, more, order, draws);
    if |more| > |steps| {
      Shorter(s, steps, more, order, draws);
      DeliveringReliable(s, links, steps, more[..|more| - 1], order, draws);
    }
  }

  lemma PrefixOf(s: Net, steps: seq<Step>, more: seq<Step>, order: nat -> nat, draws: nat -> nat)
    requires Delivering(s, steps, more, order, draws)
    ensures IsRun(s, more) && |more| >= |steps| && (|more| == |steps| ==> more == steps)
    ensures forall i :: 0 <= i <= |steps| ==> more[..i] == steps[..i]
  {
    hide IsRun;
    assert more[..|more|] == more;
    forall i | 0 <= i <= |steps| ensures more[..i] == steps[..i] {
      assert more[..i] == more[..|steps|][..i];
    }
  }

  /** Eventual delivery: whatever mcast_send has put on the air in a run that lost copies only between nodes not linked, with no more
      ids in use than fit into a buffer, reaches every node joined to the sender by links, with the content sent, once the network
      is left to deliver, in any order and under any draws. */
  lemma EventualDelivery(s: Net, links: set<(nat, nat)>, steps: seq<Step>, i: nat, id: MsgId, path: seq<nat>,
                         order: nat -> nat, draws: nat -> nat) returns (more: seq<Step>, k: nat)
    requires Init(s) && IsRun(s, steps) && ReliableRun(s, links, steps) && |UsedIds(steps)| <= 1000
    requires i < |steps| && steps[i].Transmit? && steps[i].ok
    requires id == StateAt(s, steps, i).nodes[steps[i].a].jobs[steps[i].j].m.id
    requires Path(links, |s.nodes|, path) && |path| > 1 && path[0] == steps[i].a
    ensures Delivering(s, steps, more, order, draws) && Exec(s, more).air == []
    ensures var v, w := Exec(s, more), path[|path| - 1];
            w < |v.nodes| && id in v.nodes[w].heard && id in v.sent && HeldAfter(s, more, k, w, v.sent[id])
  {
    hide Init, IsRun, ReliableRun, Exec, Delivering, UsesOnly, UsedIds, HeldAfter, Enabled;
    UsedIdsCover(steps);
    more := Drain(s, steps, order, draws, UsedIds(steps));
    PrefixOf(s, steps, more, order, draws);
    DeliveringReliable(s, links, steps, more, order, draws);
    SameAddresses(s, more);
    SameTransmission(s, steps, more, i);
    k := TransmissionReaches(s, links, more, i, id, path);
  }

  lemma SameTransmission(s: Net, steps: seq<Step>, more: seq<Step>, i: nat)
    requires IsRun(s, steps) && IsRun(s, more) && i < |steps| <= |more| && forall j :: 0 <= j <= |steps| ==> more[..j] == steps[..j]
    ensures more[i] == steps[i] && StateAt(s, more, i) == StateAt(s, steps, i)
  {
    hide IsRun, Exec;
    assert more[i] == more[..i + 1][i] == steps[..i + 1][i];
    assert more[..i] == steps[..i];
  }

  // ---------- eventual acknowledgement ----------

  /** A delivery that evicts nothing takes nothing out of a buffer. */
  lemma DeliveryKeeps(v: Net, step: Step, a: nat, b: nat, id: MsgId)
    requires Inv(v) && step.Deliver? && Enabled(v, step) && Evictions(v, step) == 0 && a < |v.nodes| == |Apply(v, step).nodes|
    ensures Undisturbed(v, step, a, b, id) && Apply(v, step).nodes[a].jobs == v.nodes[a].jobs
  {
    hide Inv, Open, Add, Forwards, IdSet, Count;
    var p := v.air[step.k];
    BufDistinct(v, a);
    if p.to == a && ValidKind(p.wire.kind) && Holds(v.nodes[a].buf, id) {
      var buf := v.nodes[a].buf;
      EvictsMeans(buf, Open(v.t, p.wire));
      assert buf[Find(buf, id)] in buf;
    }
  }

  lemma {:induction false} DeliveringUndisturbed(s: Net, steps: seq<Step>, more: seq<Step>, a: nat, b: nat, id: MsgId,
                                                 order: nat -> nat, draws: nat -> nat, ids: seq<MsgId>)
    requires Init(s) && IsRun(s, steps) && a < |s.nodes| && UndisturbedRun(s, steps, a, b, id)
    requires Delivering(s, steps, more, order, draws) && UsesOnly(more, ids) && |ids| <= MAXMSGS
    ensures UndisturbedRun(s, more, a, b, id)
    ensures a < |Exec(s, steps).nodes| == |Exec(s, more).nodes| && Exec(s, more).nodes[a].jobs == Exec(s, steps).nodes[a].jobs
    decreases |more|
  {
    hide Init, Apply, Enabled, Delivering, Inv, Within, Evictions, Undisturbed, UsesOnly;
    PrefixOf(s, steps, more, order, draws);
    SameAddresses(s, steps);
    if |more| > |steps| {
      var n := |more| - 1;
      Shorter(s, steps, more, order, draws);
      PrefixUsesOnly(more, ids);
      DeliveringUndisturbed(s, steps, more[..n], a, b, id, order, draws, ids);
      var v := Exec(s, more[..n]);
      RunInv(s, more[..n]);
      RunWithin(s, more[..n], ids);
      SameAddresses(s, more[..n]);
      SameAddresses(s, more);
      StepEvictsNothing(v, more[n], ids);
      DeliveryKeeps(v, more[n], a, b, id);
    }
  }

  lemma {:induction false} DeliveringUsesOnly(s: Net, steps: seq<Step>, more: seq<Step>, order: nat -> nat, draws: nat -> nat, ids: seq<MsgId>)
    requires Delivering(s, steps, more, order, draws) && UsesOnly(steps, ids)
    ensures UsesOnly(more, ids)
    decreases |more|
  {
    hide Delivering, Exec, IsRun, Enabled;
    PrefixOf(s, steps, more, order, draws);
    if |more| > |steps| {
      Shorter(s, steps, more, order, draws);
      DeliveringUsesOnly(s, steps, more[..|more| - 1], order, draws, ids);
      assert forall i :: 0 <= i < |more| - 1 ==> more[i] == more[..|more| - 1][i];
    }
  }

  /** Eventual acknowledgement: a waiting mcast_send whose origin and one other node lost no copy of the message between them, with the
      message kept and no more ids in use than fit into a buffer, returns 0 if its check comes when the network was left to deliver. */
  lemma EventualAck(s: Net, steps: seq<Step>, a: nat, b: nat, j: nat, order: nat -> nat, draws: nat -> nat) returns (more: seq<Step>)
    requires Init(s) && IsRun(s, steps) && |UsedIds(steps)| <= 1000
    requires Enabled(Exec(s, steps), Check(a, j)) && a < |s.nodes| && b < |s.nodes| && a != b
    requires UndisturbedRun(s, steps, a, b, Exec(s, steps).nodes[a].jobs[j].m.id)
    ensures Delivering(s, steps, more, order, draws) && Exec(s, more).air == []
    ensures Enabled(Exec(s, more), Check(a, j))
            && var v := Exec(s, more).nodes[a];
            && v.jobs[j] == Exec(s, steps).nodes[a].jobs[j]
            && AfterWait(v.jobs[j].call.n, Count(v.buf, v.jobs[j].m.id)) == Returned(0)
  {
    hide Init, IsRun, Exec, Delivering, UsesOnly, UsedIds, UndisturbedRun, Count;
    var id := Exec(s, steps).nodes[a].jobs[j].m.id;
    var ids := UsedIds(steps);
    UsedIdsCover(steps);
    more := Drain(s, steps, order, draws, ids);
    PrefixOf(s, steps, more, order, draws);
    DeliveringUsesOnly(s, steps, more, order, draws, ids);
    DeliveringUndisturbed(s, steps, more, a, b, id, order, draws, ids);
    AckCompleteness(s, more, a, b, j);
  }
}
