/** Whole histories of buffer operations: what the entries and their counters mean. */
module BufferRuns {
  import opened Sequences
  import opened Messages
  import opened Buffer

  datatype Op = Add(m: Message) | SyncIn(m: Message) | Delete(id: MsgId) {
    function Id(): MsgId {
      match this
      case Add(m) => m.id
      case SyncIn(m) => m.id
      case Delete(id) => id
    }
  }

  function Apply(buf: Buf, op: Op): Buf {
    match op
    case Add(m) => Buffer.Add(buf, m).0
    case SyncIn(m) => SyncOne(buf, m)
    case Delete(id) => Buffer.Delete(buf, id)
  }

  /** The buffer after a history that starts at msgbuf_init. */
  function Run(ops: seq<Op>): Buf {
    if |ops| == 0 then [] else Apply(Run(ops[..|ops| - 1]), ops[|ops| - 1])
  }

  lemma {:induction false} RunWellFormed(ops: seq<Op>)
    ensures WellFormed(Run(ops))
  {
    if |ops| > 0 {
      var buf := Run(ops[..|ops| - 1]);
      RunWellFormed(ops[..|ops| - 1]);
      match ops[|ops| - 1]
      case Add(m) => AddKeeps(buf, m);
      case SyncIn(m) => SyncOneKeeps(buf, m);
      case Delete(id) => DeleteKeeps(buf, id);
    }
  }

  /** Does operation p of the history enter a new message? */
  predicate Inserts(ops: seq<Op>, p: nat)
    requires p < |ops|
  {
    !ops[p].Delete? && !Holds(Run(ops[..p]), ops[p].Id())
  }

  /** How many msgbuf_add calls name this id from operation p on. */
  function Adds(ops: seq<Op>, p: nat, id: MsgId): nat
    requires p <= |ops|
  {
    if p == |ops| then 0
    else Adds(ops[..|ops| - 1], p, id) + if ops[|ops| - 1].Add? && ops[|ops| - 1].m.id == id then 1 else 0
  }

  /** The operations that inserted the entries now held, oldest entry first. */
  function Origins(ops: seq<Op>): seq<nat> {
    if |ops| == 0 then []
    else
      var n := |ops| - 1;
      var before, ps := Run(ops[..n]), Origins(ops[..n]);
      var k := Find(before, ops[n].Id());
      if ops[n].Delete? then if k < |ps| then ps[..k] + ps[k + 1..] else ps
      else if Inserts(ops, n) then if |ps| + 1 > MAXMSGS then (ps + [n])[1..] else ps + [n]
      else ps
  }

  /** Entry e was inserted by operation p and has been there since. */
  ghost predicate InsertedBy(ops: seq<Op>, p: nat, e: Entry)
    requires p < |ops|
  {
    && Inserts(ops, p) && e.msg == ops[p].m
    && e.count == (if ops[p].SyncIn? then 2 else 1) + Adds(ops, p + 1, e.msg.id)
    && forall q :: p < q < |ops| ==> ops[q] != Delete(e.msg.id)
  }

  ghost predicate Explained(ops: seq<Op>, ps: seq<nat>, buf: Buf) {
    && |ps| == |buf|
    && (forall i :: 0 <= i < |ps| ==> ps[i] < |ops| && InsertedBy(ops, ps[i], buf[i]))
    && (forall i, j :: 0 <= i < j < |ps| ==> ps[i] < ps[j])
  }

  lemma Extend(ops: seq<Op>, p: nat, e: Entry, e': Entry)
    requires |ops| > 0 && p < |ops| - 1 && InsertedBy(ops[..|ops| - 1], p, e)
    requires var op := ops[|ops| - 1];
             op != Delete(e.msg.id) && e' == if op.Add? && op.m.id == e.msg.id then e.(count := e.count + 1) else e
    ensures InsertedBy(ops, p, e')
  {
    assert ops[..|ops| - 1][..p] == ops[..p];
  }

  lemma Newest(ops: seq<Op>)
    requires |ops| > 0 && Inserts(ops, |ops| - 1)
    ensures var op := ops[|ops| - 1]; InsertedBy(ops, |ops| - 1, Entry(if op.SyncIn? then 2 else 1, op.m))
  {
  }

  /** Every entry held was put there, unchanged, by one operation that found its id absent; its counter is the number of
      msgbuf_add calls since then, that one included, or 2 more when it came by sync; and the list is in insertion order. */
  lemma {:induction false} EntriesExplained(ops: seq<Op>)
    ensures Explained(ops, Origins(ops), Run(ops))
  {
    hide InsertedBy;
    if |ops| > 0 {
      var n := |ops| - 1;
      var op, before, ps := ops[n], Run(ops[..n]), Origins(ops[..n]);
      EntriesExplained(ops[..n]);
      RunWellFormed(ops[..n]);
      var k := Find(before, op.Id());
      if op.Delete? {
        ExplainDelete(ops, ps, before, k);
      } else if k < |before| {
        ExplainSeen(ops, ps, before, k);
      } else {
        ExplainNew(ops, ps, before);
      }
    }
  }

  lemma DeletedRun(ops: seq<Op>)
    requires |ops| > 0 && ops[|ops| - 1].Delete?
    ensures var before := Run(ops[..|ops| - 1]); var k := Find(before, ops[|ops| - 1].id);
            Run(ops) == if k < |before| then RemoveAt(before, k) else before
  {
    hide Find, Buffer.Add, SyncOne;
  }

  lemma DeletedOrigins(ops: seq<Op>)
    requires |ops| > 0 && ops[|ops| - 1].Delete?
    ensures var ps := Origins(ops[..|ops| - 1]); var k := Find(Run(ops[..|ops| - 1]), ops[|ops| - 1].id);
            Origins(ops) == if k < |ps| then RemoveAt(ps, k) else ps
  {
    hide Find, Run, Inserts;
  }

  lemma ExplainedWithout(ops: seq<Op>, ps: seq<nat>, buf: Buf, k: nat)
    requires Explained(ops, ps, buf) && k < |ps|
    ensures Explained(ops, RemoveAt(ps, k), RemoveAt(buf, k))
  {
    hide InsertedBy;
  }

  /** A delete of something else does not concern these entries. */
  lemma ExplainedOn(ops: seq<Op>, ps: seq<nat>, buf: Buf)
    requires |ops| > 0 && ops[|ops| - 1].Delete? && Explained(ops[..|ops| - 1], ps, buf)
    requires forall i :: 0 <= i < |buf| ==> buf[i].msg.id != ops[|ops| - 1].id
    ensures Explained(ops, ps, buf)
  {
    hide InsertedBy;
    forall i | 0 <= i < |ps| ensures ps[i] < |ops| && InsertedBy(ops, ps[i], buf[i]) {
      Extend(ops, ps[i], buf[i], buf[i]);
    }
  }

  lemma ExplainDelete(ops: seq<Op>, ps: seq<nat>, before: Buf, k: nat)
    requires |ops| > 0 && ops[|ops| - 1].Delete? && k == Find(before, ops[|ops| - 1].Id())
    requires Explained(ops[..|ops| - 1], ps, before) && Distinct(before)
    requires before == Run(ops[..|ops| - 1]) && ps == Origins(ops[..|ops| - 1])
    ensures Explained(ops, Origins(ops), Run(ops))
  {
    hide InsertedBy, Run, Origins;
    DeletedRun(ops);
    DeletedOrigins(ops);
    if k < |before| {
      ExplainedWithout(ops[..|ops| - 1], ps, before, k);
    }
    ExplainedOn(ops, Origins(ops), Run(ops));
  }

  lemma ExplainSeen(ops: seq<Op>, ps: seq<nat>, before: Buf, k: nat)
    requires |ops| > 0 && !ops[|ops| - 1].Delete? && k == Find(before, ops[|ops| - 1].Id()) < |before|
    requires Explained(ops[..|ops| - 1], ps, before) && Distinct(before)
    requires before == Run(ops[..|ops| - 1]) && ps == Origins(ops[..|ops| - 1])
    ensures Explained(ops, Origins(ops), Run(ops))
  {
    hide InsertedBy;
    var qs, buf := Origins(ops), Run(ops);
    assert !Inserts(ops, |ops| - 1);
    forall i | 0 <= i < |qs| ensures qs[i] < |ops| && InsertedBy(ops, qs[i], buf[i]) {
      Extend(ops, ps[i], before[i], buf[i]);
    }
  }

  function EntryOf(op: Op): Entry
    requires !op.Delete?
  {
    Entry(if op.SyncIn? then 2 else 1, op.m)
  }

  lemma ExplainLonger(ops: seq<Op>, ps: seq<nat>, before: Buf)
    requires |ops| > 0 && Inserts(ops, |ops| - 1)
    requires Explained(ops[..|ops| - 1], ps, before) && before == Run(ops[..|ops| - 1])
    ensures Explained(ops, ps + [|ops| - 1], before + [EntryOf(ops[|ops| - 1])])
  {
    hide InsertedBy, Run;
    var n := |ops| - 1;
    Newest(ops);
    var qs, buf := ps + [n], before + [EntryOf(ops[n])];
    forall i | 0 <= i < |qs| ensures qs[i] < |ops| && InsertedBy(ops, qs[i], buf[i]) {
      if i < |ps| {
        assert before[i].msg.id != ops[n].Id();
        Extend(ops, ps[i], before[i], before[i]);
      }
    }
  }

  lemma ExplainNew(ops: seq<Op>, ps: seq<nat>, before: Buf)
    requires |ops| > 0 && !ops[|ops| - 1].Delete? && Inserts(ops, |ops| - 1)
    requires Explained(ops[..|ops| - 1], ps, before) && |ps| == |before|
    requires before == Run(ops[..|ops| - 1]) && ps == Origins(ops[..|ops| - 1])
    ensures Explained(ops, Origins(ops), Run(ops))
  {
    hide Explained, Inserts;
    ExplainLonger(ops, ps, before);
    ExplainedRest(ops, ps + [|ops| - 1], before + [EntryOf(ops[|ops| - 1])]);
    NewState(ops);
  }

  lemma NewState(ops: seq<Op>)
    requires |ops| > 0 && Inserts(ops, |ops| - 1)
    ensures var n := |ops| - 1;
            var qs, buf := Origins(ops[..n]) + [n], Run(ops[..n]) + [EntryOf(ops[n])];
            && Origins(ops) == (if |qs| > MAXMSGS then qs[1..] else qs)
            && Run(ops) == if |buf| > MAXMSGS then buf[1..] else buf
  {
  }

  lemma ExplainedRest(ops: seq<Op>, ps: seq<nat>, buf: Buf)
    requires Explained(ops, ps, buf) && |ps| > 0
    ensures Explained(ops, ps[1..], buf[1..])
  {
  }

  /** All inserting operations of a history, evicted ones included. */
  function Insertions(ops: seq<Op>): seq<nat> {
    if |ops| == 0 then []
    else
      var n := |ops| - 1;
      Insertions(ops[..n]) + if Inserts(ops, n) then [n] else []
  }

  /** Without deletes the buffer is exactly the last MAXMSGS insertions: a sliding window. */
  lemma {:induction false} SlidingWindow(ops: seq<Op>)
    requires forall p :: 0 <= p < |ops| ==> !ops[p].Delete?
    ensures var all := Insertions(ops);
            Origins(ops) == if |all| <= 1000 then all else all[|all| - 1000..]
  {
    hide Inserts;
    if |ops| > 0 {
      SlidingWindow(ops[..|ops| - 1]);
    }
  }
}
