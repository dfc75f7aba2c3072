/** The chat network as a state machine: nodes, the copies of datagrams on the air, and every step any node can take. */
module Network {
  import opened Sequences
  import opened Messages
  import opened Blowfish
  import opened Mcast
  import opened Bytes
  import opened Buffer

  /** One mcast_send call in progress; `call` is never Returned here. */
  datatype Job = Job(m: Message, wire: Message, call: Call, wantack: bool)

  /** `dc` is the sealed discovery message, of kind 0 until chat_mcast_reader_start has set it up. `stream` is what a peer
      dumped and the sync thread has not read yet. The rest is history: `ever` the ids this node has ever held, `heard` those
      that reached it in a datagram of valid type. */
  datatype Node = Node(ip: nat, buf: Buf, jobs: seq<Job>, dc: Message, peer: nat, stream: seq<Message>,
                       ever: set<MsgId>, heard: set<MsgId>)

  /** A copy of a datagram on its way from node `from` to node `to`. */
  datatype Packet = Packet(from: nat, to: nat, wire: Message)

  /** `sent` is history: what the origins passed to mcast_send, by id. */
  datatype Net = Net(t: Tables, nodes: seq<Node>, air: seq<Packet>, sent: map<MsgId, Content>)

  datatype Step =
    | Boot(a: nat, m: Message, iv: seq<byte>)
    | Start(a: nat, m: Message, iv: seq<byte>, wantack: bool)
    | Transmit(a: nat, j: nat, ok: bool)
    | Check(a: nat, j: nat)
    | Deliver(k: nat, r: int)
    | Lose(k: nat)
    | SyncOpen(a: nat, b: nat, ivs: seq<seq<byte>>, cut: nat)
    | SyncRead(a: nat)
    | SyncClose(a: nat)

  ghost predicate Init(s: Net) {
    && s.air == [] && s.sent == map[]
    && (forall i :: 0 <= i < |s.nodes| ==>
          var v := s.nodes[i]; v.buf == [] && v.jobs == [] && v.stream == [] && v.ever == {} && v.heard == {} && v.dc.kind == 0)
    && (forall i, j :: 0 <= i < j < |s.nodes| ==> s.nodes[i].ip != s.nodes[j].ip)
  }

  /** msgbuf_setid stamps the node's own address and an id not used for anything else. */
  predicate FreshId(s: Net, a: nat, m: Message)
    requires a < |s.nodes|
  {
    m.id.ip == s.nodes[a].ip && (m.id in s.sent ==> s.sent[m.id] == Says(m))
  }

  predicate Enabled(s: Net, step: Step) {
    match step
    case Boot(a, m, iv) =>
      a < |s.nodes| && |iv| == 8 && s.nodes[a].dc.kind == 0 && m.kind == CHAT_DISCOVER && FreshId(s, a, m)
    case Start(a, m, iv, wantack) =>
      a < |s.nodes| && |iv| == 8 && ValidKind(m.kind) && FreshId(s, a, m)
    case Transmit(a, j, ok) =>
      a < |s.nodes| && j < |s.nodes[a].jobs| && s.nodes[a].jobs[j].call.Ready?
    case Check(a, j) =>
      a < |s.nodes| && j < |s.nodes[a].jobs| && s.nodes[a].jobs[j].call.Waiting?
    case Deliver(k, r) =>
      k < |s.air| && s.air[k].from < |s.nodes| && s.air[k].to < |s.nodes| && 0 <= r < 100
    case Lose(k) => k < |s.air|
    case SyncOpen(a, b, ivs, cut) =>
      && a < |s.nodes| && b < |s.nodes| && a != b && s.nodes[a].stream == [] && s.nodes[b].buf != []
      && |ivs| == |Dump(s.nodes[b].ip, s.nodes[b].buf)| && cut <= |ivs|
      && forall i :: 0 <= i < |ivs| ==> |ivs[i]| == 8
    case SyncRead(a) => a < |s.nodes| && s.nodes[a].stream != []
    case SyncClose(a) => a < |s.nodes|
  }

  function IdSet(buf: Buf): set<MsgId> {
    set e <- buf :: e.msg.id
  }

  function SetBuf(v: Node, buf: Buf): Node {
    v.(buf := buf, ever := v.ever + IdSet(buf))
  }

  function Hear(v: Node, wire: Message): Node {
    if ValidKind(wire.kind) then v.(heard := v.heard + {wire.id}) else v
  }

  /** One copy for every node, the sender's own loop-back included; who is out of reach loses its copy. */
  function Broadcast(n: nat, from: nat, wire: Message): (ps: seq<Packet>)
    ensures |ps| == n
  {
    seq(n, i requires 0 <= i < n => Packet(from, i, wire))
  }

  function BroadcastAll(n: nat, from: nat, wires: seq<Message>): seq<Packet> {
    if |wires| == 0 then [] else Broadcast(n, from, wires[0]) + BroadcastAll(n, from, wires[1..])
  }

  /** The call of job j moves on; a call that returns gives up its job, and deletes its message when it failed. */
  function Advance(v: Node, j: nat, c: Call): Node
    requires j < |v.jobs|
  {
    if !c.Returned? then v.(jobs := v.jobs[j := v.jobs[j].(call := c)])
    else
      var w := v.(jobs := RemoveAt(v.jobs, j));
      if c.ret < 0 then w.(buf := Delete(w.buf, v.jobs[j].m.id)) else w
  }

  /** A call that fails takes its message out of the buffer and nothing else; one that succeeds or goes on leaves the buffer alone. */
  lemma AdvanceMeaning(v: Node, j: nat, c: Call, other: MsgId)
    requires j < |v.jobs| && Distinct(v.buf)
    ensures var w, id := Advance(v, j, c), v.jobs[j].m.id; var failed := c.Returned? && c.ret < 0;
            && (!failed ==> w.buf == v.buf)
            && (failed ==> !Holds(w.buf, id) && forall e :: e in w.buf <==> e in v.buf && e.msg.id != id)
            && (failed ==> Count(w.buf, other) == if other == id then 0 else Count(v.buf, other))
            && w.jobs == (if c.Returned? then RemoveAt(v.jobs, j) else v.jobs[j := v.jobs[j].(call := c)])
            && w == v.(buf := w.buf, jobs := w.jobs)
  {
    DeleteEntries(v.buf, v.jobs[j].m.id);
    DeleteCounts(v.buf, v.jobs[j].m.id, other);
  }

  /** An encrypted msgbuf_dump. */
  function SealedDump(t: Tables, v: Node, ivs: seq<seq<byte>>): (ws: seq<Message>)
    requires |ivs| == |Dump(v.ip, v.buf)| && forall i :: 0 <= i < |ivs| ==> |ivs[i]| == 8
    ensures |ws| == |ivs|
  {
    seq(|ivs|, i requires 0 <= i < |ivs| => Seal(t, ivs[i], Dump(v.ip, v.buf)[i]))
  }

  function Apply(s: Net, step: Step): Net
    requires Enabled(s, step)
  {
    match step
    case Boot(a, m, iv) =>
      s.(nodes := s.nodes[a := s.nodes[a].(dc := Seal(s.t, iv, m))], sent := s.sent[m.id := Says(m)])
    case Start(a, m, iv, wantack) =>
      var job := Job(m, Seal(s.t, iv, m), Ready(1), wantack);
      s.(nodes := s.nodes[a := s.nodes[a].(jobs := s.nodes[a].jobs + [job])], sent := s.sent[m.id := Says(m)])
    case Transmit(a, j, ok) =>
      var job := s.nodes[a].jobs[j];
      s.(nodes := s.nodes[a := Advance(s.nodes[a], j, AfterSend(job.call.n, job.wantack, ok))],
         air := if ok then s.air + Broadcast(|s.nodes|, a, job.wire) else s.air)
    case Check(a, j) =>
      var job := s.nodes[a].jobs[j];
      s.(nodes := s.nodes[a := Advance(s.nodes[a], j, AfterWait(job.call.n, Count(s.nodes[a].buf, job.m.id)))])
    case Deliver(k, r) =>
      var p := s.air[k];
      var v := s.nodes[p.to];
      var o := Receive(v.ip, s.t, v.buf, s.nodes[p.from].ip, p.wire, r);
      s.(nodes := s.nodes[p.to := SetBuf(Hear(v, p.wire), o.buf)],
         air := RemoveAt(s.air, k) + BroadcastAll(|s.nodes|, p.to, Emitted(o, p.wire, v.dc)))
    case Lose(k) => s.(air := RemoveAt(s.air, k))
    case SyncOpen(a, b, ivs, cut) =>
      s.(nodes := s.nodes[a := s.nodes[a].(peer := b, stream := SealedDump(s.t, s.nodes[b], ivs)[..cut])])
    case SyncRead(a) =>
      var v := s.nodes[a];
      var w := v.(stream := v.stream[1..]);
      s.(nodes := s.nodes[a := SetBuf(w, SyncOne(v.buf, Open(s.t, v.stream[0])))])
    case SyncClose(a) =>
      s.(nodes := s.nodes[a := s.nodes[a].(stream := [])])
  }

  /** Every step of the run is enabled where it is taken. */
  ghost predicate IsRun(s: Net, steps: seq<Step>)
    decreases |steps|, 0
  {
    |steps| > 0 ==> IsRun(s, steps[..|steps| - 1]) && Enabled(Exec(s, steps[..|steps| - 1]), steps[|steps| - 1])
  }

  /** The state a run leads to. */
  ghost function Exec(s: Net, steps: seq<Step>): Net
    requires IsRun(s, steps)
    decreases |steps|, 1
  {
    if |steps| == 0 then s else Apply(Exec(s, steps[..|steps| - 1]), steps[|steps| - 1])
  }
}
