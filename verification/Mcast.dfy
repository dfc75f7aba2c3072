/** The decisions of chat_mcast.c: what a node does with a datagram, and when a sender stops retransmitting. */
module Mcast {
  import opened Messages
  import opened Blowfish
  import Buffer

  const MSG_RESEND_TIMES := 10

  /** What receiving a datagram leads to. */
  datatype Outcome = Outcome(buf: Buffer.Buf, fwd: bool, reply: bool)

  /** The forwarding rule, on the count after this sighting and `r` drawn from 0..99. The comment in the source speaks of a
      decreasing probability; the code forwards more readily the more often the message was seen. */
  predicate Forwards(me: nat, src: nat, origin: nat, seen: nat, r: int) {
    && src != me
    && (|| 1 <= seen <= 5
        || (seen > 1 && src == origin)
        || (1 < seen <= MSG_RESEND_TIMES && r <= seen * 10))
  }

  /** Of the hundred draws, how many forward a sighting. */
  function Chances(me: nat, src: nat, origin: nat, seen: nat): nat {
    |DrawsThatForward(me, src, origin, seen)|
  }

  function DrawsThatForward(me: nat, src: nat, origin: nat, seen: nat): set<nat> {
    set r: nat | r < 100 && Forwards(me, src, origin, seen, r)
  }

  function FirstDraws(n: nat): set<nat> {
    if n == 0 then {} else FirstDraws(n - 1) + {n - 1}
  }

  lemma {:induction false} CountDraws(n: nat)
    ensures |FirstDraws(n)| == n && forall r: nat :: r in FirstDraws(n) <==> r < n
  {
    if n > 0 {
      CountDraws(n - 1);
    }
  }

  /** The forwarding rule in numbers: never a node's own copy; always the first five sightings, the tenth, and every copy straight
      from the origin; from the sixth to the ninth sighting of a relayed copy 61, 71, 81 and 91 of the hundred draws; nothing else. */
  lemma ForwardingChances(me: nat, src: nat, origin: nat, seen: nat)
    requires seen > 0
    ensures Chances(me, src, origin, seen)
            == if src == me then 0
               else if seen <= 5 || seen == 10 || src == origin then 100
               else if seen == 6 then 61 else if seen == 7 then 71 else if seen == 8 then 81 else if seen == 9 then 91
               else 0
  {
    var s := DrawsThatForward(me, src, origin, seen);
    if src == me || (seen > 10 && src != origin) {
      assert s == {};
    } else if seen <= 5 || seen == 10 || src == origin {
      CountDraws(100);
      assert s == FirstDraws(100);
    } else {
      CountDraws(10 * seen + 1);
      assert s == FirstDraws(10 * seen + 1);
    }
  }

  /** Whether a relayed copy passes from the sixth to the ninth sighting depends on the draw alone: up to ten times the count it does. */
  lemma DrawDecides(me: nat, src: nat, origin: nat, seen: nat, r: nat)
    requires 6 <= seen <= 9 && src != me && src != origin
    ensures Forwards(me, src, origin, seen, r) <==> r <= 10 * seen
  {
  }

  /** A node's own message coming back while it is still held. */
  predicate Loopback(me: nat, buf: Buffer.Buf, src: nat, id: MsgId) {
    Buffer.Count(buf, id) > 0 && src == me && id.ip == me
  }

  /** The body of the mcast_read loop for a full-size datagram from `src`. */
  function Receive(me: nat, t: Tables, buf: Buffer.Buf, src: nat, wire: Message, r: int): Outcome {
    if !ValidKind(wire.kind) || Loopback(me, buf, src, wire.id) then Outcome(buf, false, false)
    else
      var (b, seen) := Buffer.Add(buf, Open(t, wire));
      Outcome(b, Forwards(me, src, wire.id.ip, seen, r), wire.kind == CHAT_DISCOVER && seen == 1)
  }

  /** What is put on the air in response: the ciphertext as received, then the node's own discovery message. */
  function Emitted<T>(o: Outcome, wire: T, dc: T): seq<T> {
    (if o.fwd then [wire] else []) + if o.reply then [dc] else []
  }

  /** Messages of any type but the two known ones change nothing and cause nothing. */
  lemma OtherTypesIgnored(me: nat, t: Tables, buf: Buffer.Buf, src: nat, wire: Message, r: int)
    requires wire.kind != 1 && wire.kind != 2
    ensures Receive(me, t, buf, src, wire, r) == Outcome(buf, false, false)
  {
  }

  /** Those two are counted, unless they are the node's own message coming back. */
  lemma KnownTypesCounted(me: nat, t: Tables, buf: Buffer.Buf, src: nat, wire: Message, r: int)
    requires Buffer.Distinct(buf) && (wire.kind == 1 || wire.kind == 2) && (src != me || wire.id.ip != me)
    ensures Buffer.Count(Receive(me, t, buf, src, wire, r).buf, wire.id) == Buffer.Count(buf, wire.id) + 1
  {
    Buffer.AddCountsAtMost(buf, Open(t, wire), wire.id);
  }

  // ---------- mcast_send ----------

  /** One mcast_send call between its steps: about to transmit try number n, waiting after try n, or returned. */
  datatype Call = Ready(n: nat) | Waiting(n: nat) | Returned(ret: int)

  predicate ValidCall(c: Call) {
    match c
    case Ready(n) => 1 <= n <= MSG_RESEND_TIMES
    case Waiting(n) => 1 <= n <= MSG_RESEND_TIMES
    case Returned(ret) => ret == 0 || ret == -1
  }

  /** After sendto, which may fail. */
  function AfterSend(n: nat, wantack: bool, ok: bool): Call {
    if !ok then Returned(-1) else if !wantack then Returned(0) else Waiting(n)
  }

  /** After the wait, with the count msgbuf_exist reports. */
  function AfterWait(n: nat, count: nat): Call {
    if count > 1 then Returned(0) else if n < MSG_RESEND_TIMES then Ready(n + 1) else Returned(-1)
  }

  /** The return value and the number of transmissions from try n on, when sendto number i succeeds iff ok[i]
      and the i-th check sees counts[i]. */
  function Outlook(n: nat, wantack: bool, ok: seq<bool>, counts: seq<nat>): (int, nat)
    requires 1 <= n <= MSG_RESEND_TIMES && |ok| == |counts| == MSG_RESEND_TIMES
    decreases MSG_RESEND_TIMES - n
  {
    var sent := AfterSend(n, wantack, ok[n - 1]);
    if sent.Returned? then (sent.ret, if ok[n - 1] then 1 else 0)
    else
      var waited := AfterWait(n, counts[n - 1]);
      if waited.Returned? then (waited.ret, 1)
      else var (ret, sends) := Outlook(n + 1, wantack, ok, counts); (ret, sends + 1)
  }

  ghost predicate Unanswered(i: nat, ok: seq<bool>, counts: seq<nat>)
    requires |ok| == |counts| == MSG_RESEND_TIMES && 1 <= i <= MSG_RESEND_TIMES
  {
    ok[i - 1] && counts[i - 1] <= 1
  }

  /** Try i succeeds: every earlier one went out without an acknowledgement, this one goes out and finds the message
      seen more than once. */
  ghost predicate Succeeds(n: nat, i: nat, ok: seq<bool>, counts: seq<nat>)
    requires |ok| == |counts| == MSG_RESEND_TIMES && 1 <= n <= i <= MSG_RESEND_TIMES
  {
    && (forall j :: n <= j < i ==> Unanswered(j, ok, counts))
    && ok[i - 1] && counts[i - 1] > 1
  }

  /** A call that wants an acknowledgement returns 0 exactly when some try succeeds; otherwise it returns -1, after ten
      transmissions unless a sendto failed. */
  lemma {:induction false} OutlookMeaning(n: nat, ok: seq<bool>, counts: seq<nat>)
    requires 1 <= n <= MSG_RESEND_TIMES && |ok| == |counts| == MSG_RESEND_TIMES
    ensures var (ret, sends) := Outlook(n, true, ok, counts);
            && (ret == 0 || ret == -1)
            && sends <= MSG_RESEND_TIMES + 1 - n
            && (ret == 0 <==> exists i :: n <= i <= MSG_RESEND_TIMES && Succeeds(n, i, ok, counts))
            && (ret == -1 && (forall i :: 0 <= i < |ok| ==> ok[i]) ==> sends == MSG_RESEND_TIMES + 1 - n)
    decreases MSG_RESEND_TIMES - n
  {
    if ok[n - 1] && counts[n - 1] > 1 {
      assert Succeeds(n, n, ok, counts);
    }
    if Unanswered(n, ok, counts) && n < MSG_RESEND_TIMES {
      var n' := n + 1;
      OutlookMeaning(n', ok, counts);
      assert !Succeeds(n, n, ok, counts);
      assert forall i :: n' <= i <= MSG_RESEND_TIMES ==> (Succeeds(n, i, ok, counts) <==> Succeeds(n', i, ok, counts));
    }
  }

  /** Without a wish for acknowledgement there is one try, and it fails only with its sendto. */
  lemma OutlookNoWait(ok: seq<bool>, counts: seq<nat>)
    requires |ok| == |counts| == 10
    ensures Outlook(1, false, ok, counts) == if ok[0] then (0, 1) else (-1, 0)
  {
  }

  /** A call nobody acknowledges gives up after ten transmissions. */
  lemma TenTries(ok: seq<bool>, counts: seq<nat>)
    requires |ok| == |counts| == 10 && (forall i :: 0 <= i < 10 ==> ok[i] && counts[i] <= 1)
    ensures Outlook(1, true, ok, counts) == (-1, 10)
  {
    OutlookMeaning(1, ok, counts);
    assert forall i :: 1 <= i <= 10 ==> !Succeeds(1, i, ok, counts);
  }
}
