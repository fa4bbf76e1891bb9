/**
 * The fair output queue: one virtual queue per flow, served by deficit round robin.
 * The functions give each operation on values; the class changes its fields in place and is proved
 * to do what they say.
 */
module DeficitRoundRobin {
  import opened Collections
  import Names

  const QUANTUM: nat := 80000
  const COUNTER_LIMIT: nat := 80000

  datatype Packet = Packet(content: string, port: nat, size: nat, id: nat)

  function Flow(p: Packet): string {
    Names.FlowName(p.content, p.port)
  }

  lemma OneQueuePerContentAndPort(p: Packet, q: Packet)
    ensures Flow(p) == Flow(q) <==> p.content == q.content && p.port == q.port
  {
    if Flow(p) == Flow(q) {
      Names.FlowNameInjective(p.content, p.port, q.content, q.port);
    }
  }

  datatype VirtualQueue =
    VirtualQueue(name: string, counter: nat, deficit: nat, length: nat, packets: seq<Packet>)

  function NewQueue(name: string): VirtualQueue {
    VirtualQueue(name, COUNTER_LIMIT, 0, 0, [])
  }

  /** What happens to the flows, in order. Erase records the deficit that the flow gives up. */
  datatype Act =
    | Arrive(p: Packet)
    | Visit(name: string)
    | Schedule(p: Packet)
    | Depart(p: Packet)
    | Erase(name: string, lost: nat)

  /** cur is the position of the current queue, events the number of departures that are scheduled. */
  datatype State = State(queues: seq<VirtualQueue>, cur: nat, length: nat, events: nat, log: seq<Act>)

  const EMPTY := State([], 0, 0, 0, [])

  ghost function Sum(ps: seq<Packet>): nat {
    if ps == [] then 0 else ps[0].size + Sum(ps[1..])
  }

  ghost predicate QueueOk(q: VirtualQueue) {
    && q.length == Sum(q.packets)
    && q.counter <= COUNTER_LIMIT
    && forall p :: p in q.packets ==> p.size > 0 && Flow(p) == q.name
  }

  /** A queue that has a packet, and not yet the right to send it. */
  ghost predicate Waiting(q: VirtualQueue) {
    q.packets != [] && q.deficit < q.packets[0].size
  }

  /** Every queue is in order, and every queue but the current one waits for its turn. */
  ghost predicate Ready(queues: seq<VirtualQueue>, cur: nat) {
    && (if queues == [] then cur == 0 else cur < |queues|)
    && (forall i :: 0 <= i < |queues| ==> QueueOk(queues[i]))
    && (forall i :: 0 <= i < |queues| && i != cur ==> Waiting(queues[i]))
  }

  /** The position of the flow's queue, or one past the end. */
  function Find(queues: seq<VirtualQueue>, name: string): (i: nat)
    ensures i <= |queues|
    ensures i < |queues| ==> queues[i].name == name
    ensures forall k :: 0 <= k < i ==> queues[k].name != name
  {
    if queues == [] || queues[0].name == name then 0 else 1 + Find(queues[1..], name)
  }

  function Min(a: nat, b: nat): nat {
    if a <= b then a else b
  }

  function IncCount(q: VirtualQueue): VirtualQueue {
    q.(counter := Min(COUNTER_LIMIT, q.counter + QUANTUM))
  }

  ghost function IncCounts(queues: seq<VirtualQueue>): (r: seq<VirtualQueue>)
    ensures |r| == |queues| && forall i :: 0 <= i < |r| ==> r[i] == IncCount(queues[i])
  {
    if queues == [] then [] else [IncCount(queues[0])] + IncCounts(queues[1..])
  }

  /** A counter rises by a quantum, or as far as its limit, and nothing else of the queue changes. */
  lemma CountersRise(queues: seq<VirtualQueue>, i: nat)
    requires i < |queues| && queues[i].counter <= COUNTER_LIMIT
    ensures var c := IncCounts(queues)[i].counter;
      && IncCounts(queues)[i] == queues[i].(counter := c)
      && (c == queues[i].counter + QUANTUM || c == COUNTER_LIMIT) && queues[i].counter <= c <= COUNTER_LIMIT
  {
  }

  /** The current queue may send its first packet. */
  ghost predicate Fits(q: VirtualQueue)
    requires QueueOk(q)
  {
    q.length != 0 && q.packets[0].size <= q.deficit
  }

  /** Off the current queue, and past the end back to the first; an empty queue goes. */
  ghost function Leave(s: State): State
    requires s.queues != [] && Ready(s.queues, s.cur)
  {
    var q := s.queues[s.cur];
    var t := if q.length == 0
      then s.(queues := RemoveAt(s.queues, s.cur), log := s.log + [Erase(q.name, q.deficit)])
      else s.(cur := s.cur + 1);
    if t.cur == |t.queues| then t.(cur := 0, queues := IncCounts(t.queues)) else t
  }

  ghost function VisitCurrent(s: State): State
    requires s.queues != [] && s.cur < |s.queues|
  {
    var q := s.queues[s.cur];
    s.(queues := s.queues[s.cur := q.(deficit := q.deficit + QUANTUM)], log := s.log + [Visit(q.name)])
  }

  ghost function NextQueue(s: State): State
    requires s.queues != [] && Ready(s.queues, s.cur)
  {
    var t := Leave(s);
    if t.queues == [] then t else VisitCurrent(t)
  }

  predicate Raised(before: nat, after: nat) {
    before <= after <= COUNTER_LIMIT && (after == before + QUANTUM || after == COUNTER_LIMIT)
  }

  /** The queues that are left when the turn leaves the current one. */
  function Kept(queues: seq<VirtualQueue>, cur: nat): seq<VirtualQueue>
    requires cur < |queues|
  {
    if queues[cur].length == 0 then RemoveAt(queues, cur) else queues
  }

  lemma KeptOk(queues: seq<VirtualQueue>, cur: nat, i: nat)
    requires Ready(queues, cur) && queues != [] && i < |Kept(queues, cur)|
    ensures QueueOk(Kept(queues, cur)[i])
  {
  }

  lemma LeaveRaisesCounters(s: State, i: nat)
    requires s.queues != [] && Ready(s.queues, s.cur)
    ensures var kept, t := Kept(s.queues, s.cur), Leave(s).queues;
      && |t| == |kept|
      && (i < |kept| ==> if s.cur == |s.queues| - 1 then Raised(kept[i].counter, t[i].counter) else t[i] == kept[i])
  {
    var kept := Kept(s.queues, s.cur);
    if i < |kept| {
      KeptOk(s.queues, s.cur, i);
      CountersRise(kept, i);
    }
  }

  /** The counters rise each time the turn comes to the end of the table, and only then. */
  lemma RoundRaisesCounters(s: State, i: nat)
    requires s.queues != [] && Ready(s.queues, s.cur)
    ensures var kept, t := Kept(s.queues, s.cur), NextQueue(s).queues;
      && |t| == |kept|
      && (i < |kept| ==>
           if s.cur == |s.queues| - 1 then Raised(kept[i].counter, t[i].counter)
           else t[i].counter == kept[i].counter)
  {
    LeaveRaisesCounters(s, i);
  }

  ghost function ScheduleHead(s: State): State
    requires s.queues != [] && Ready(s.queues, s.cur) && Fits(s.queues[s.cur])
  {
    var q := s.queues[s.cur];
    s.(queues := s.queues[s.cur := q.(deficit := q.deficit - q.packets[0].size)],
       events := s.events + 1, log := s.log + [Schedule(q.packets[0])])
  }

  /** How much deficit the queues still lack to send their first packets. */
  ghost function Lack(queues: seq<VirtualQueue>): nat {
    if queues == [] then 0 else
      (if Waiting(queues[0]) then queues[0].packets[0].size - queues[0].deficit else 0) + Lack(queues[1..])
  }

  lemma {:induction false} LackConcat(a: seq<VirtualQueue>, b: seq<VirtualQueue>)
    ensures Lack(a + b) == Lack(a) + Lack(b)
  {
    if a == [] {
      assert a + b == b;
    } else {
      assert (a + b)[1..] == a[1..] + b;
      LackConcat(a[1..], b);
    }
  }

  lemma LackAt(queues: seq<VirtualQueue>, i: nat)
    requires i < |queues|
    ensures Lack(queues) == Lack(queues[..i]) + Lack([queues[i]]) + Lack(queues[i + 1..])
  {
    assert queues == queues[..i] + ([queues[i]] + queues[i + 1..]);
    LackConcat(queues[..i], [queues[i]] + queues[i + 1..]);
    LackConcat([queues[i]], queues[i + 1..]);
  }

  lemma {:induction false} LackOfCounted(queues: seq<VirtualQueue>)
    ensures Lack(IncCounts(queues)) == Lack(queues)
  {
    if queues != [] {
      assert IncCounts(queues)[1..] == IncCounts(queues[1..]);
      LackOfCounted(queues[1..]);
    }
  }

  lemma VisitLowersLack(s: State)
    requires s.queues != [] && s.cur < |s.queues| && Waiting(s.queues[s.cur])
    ensures Lack(VisitCurrent(s).queues) < Lack(s.queues)
  {
    var t := VisitCurrent(s).queues;
    LackAt(s.queues, s.cur);
    LackAt(t, s.cur);
    assert t[..s.cur] == s.queues[..s.cur] && t[s.cur + 1..] == s.queues[s.cur + 1..];
    assert Lack([t[s.cur]]) < Lack([s.queues[s.cur]]);
  }

  ghost predicate AllWait(queues: seq<VirtualQueue>) {
    forall i :: 0 <= i < |queues| ==> QueueOk(queues[i]) && Waiting(queues[i])
  }

  lemma ErasedAllWait(queues: seq<VirtualQueue>, cur: nat)
    requires cur < |queues| && Ready(queues, cur)
    ensures AllWait(RemoveAt(queues, cur))
  {
  }

  lemma CountedAllWait(queues: seq<VirtualQueue>)
    requires AllWait(queues)
    ensures AllWait(IncCounts(queues)) && Lack(IncCounts(queues)) == Lack(queues)
  {
    LackOfCounted(queues);
  }

  /** After leaving a queue that cannot send, every queue in the table waits. */
  lemma LeaveAllWaiting(s: State)
    requires s.queues != [] && Ready(s.queues, s.cur) && !Fits(s.queues[s.cur])
    ensures var t := Leave(s);
      && AllWait(t.queues)
      && (if t.queues == [] then t.cur == 0 else t.cur < |t.queues|)
      && |t.queues| <= |s.queues|
      && (|t.queues| == |s.queues| ==> Lack(t.queues) == Lack(s.queues))
  {
    if s.queues[s.cur].length == 0 {
      ErasedAllWait(s.queues, s.cur);
      CountedAllWait(RemoveAt(s.queues, s.cur));
    } else {
      CountedAllWait(s.queues);
    }
  }

  /** One turn without a departure makes the table smaller, or brings the queues closer to sending. */
  lemma NextQueueIsCloser(s: State)
    requires s.queues != [] && Ready(s.queues, s.cur) && !Fits(s.queues[s.cur])
    ensures var t := NextQueue(s);
      && Ready(t.queues, t.cur)
      && (|t.queues| < |s.queues| || (|t.queues| == |s.queues| && Lack(t.queues) < Lack(s.queues)))
  {
    LeaveAllWaiting(s);
    var t := Leave(s);
    if t.queues != [] { VisitLowersLack(t); }
  }

  ghost function Dequeue(s: State): State
    requires Ready(s.queues, s.cur)
    decreases |s.queues|, Lack(s.queues)
  {
    if s.queues == [] then s
    else if Fits(s.queues[s.cur]) then ScheduleHead(s)
    else NextQueueIsCloser(s); Dequeue(NextQueue(s))
  }

  ghost predicate AllWaitButCurrent(s: State) {
    && Ready(s.queues, s.cur)
    && (s.queues != [] ==> s.queues[s.cur].packets != [])
  }

  /** The scheduled packet leaves from the head of the current queue. */
  ghost function Transmit(s: State): State
    requires s.queues != [] && AllWaitButCurrent(s) && s.events > 0 && s.queues[s.cur].packets[0].size <= s.length
  {
    var q := s.queues[s.cur];
    var p := q.packets[0];
    s.(queues := s.queues[s.cur := q.(packets := q.packets[1..], length := Sum(q.packets[1..]))],
       length := s.length - p.size, events := s.events - 1, log := s.log + [Depart(p)])
  }

  function Place(queues: seq<VirtualQueue>, at: nat): nat {
    if at <= |queues| then at else |queues|
  }

  /** A new empty queue goes to any place in the table; the current queue stays the same one. */
  ghost function WithQueue(s: State, name: string, at: nat): State {
    if Find(s.queues, name) < |s.queues| then s
    else
      var k := Place(s.queues, at);
      s.(queues := InsertAt(s.queues, k, NewQueue(name)),
         cur := if s.queues != [] && k <= s.cur then s.cur + 1 else s.cur)
  }

  /** A new flow gets the place asked for, the queues keep their order, and the turn stays with the same queue. */
  lemma NewFlowTakesPlace(s: State, name: string, at: nat)
    requires (forall i :: 0 <= i < |s.queues| ==> s.queues[i].name != name) && at <= |s.queues|
    requires s.queues != [] ==> s.cur < |s.queues|
    ensures var t := WithQueue(s, name, at);
      && t.queues == s.queues[..at] + [VirtualQueue(name, COUNTER_LIMIT, 0, 0, [])] + s.queues[at..]
      && (s.queues != [] ==> t.cur < |t.queues| && t.queues[t.cur] == s.queues[s.cur])
  {
    assert Find(s.queues, name) == |s.queues|;
    SameTurn(s.queues, s.cur, at, NewQueue(name));
  }

  lemma SameTurn(queues: seq<VirtualQueue>, cur: nat, k: nat, q: VirtualQueue)
    requires k <= |queues|
    ensures cur < |queues| ==> InsertAt(queues, k, q)[if k <= cur then cur + 1 else cur] == queues[cur]
  {
  }

  ghost function AddPacket(s: State, p: Packet): State {
    var i := Find(s.queues, Flow(p));
    if i == |s.queues| then s else
      var q := s.queues[i];
      s.(queues := s.queues[i := q.(packets := q.packets + [p], length := q.length + p.size)],
       length := s.length + p.size, log := s.log + [Arrive(p)])
  }

  lemma {:induction false} SumAppend(ps: seq<Packet>, p: Packet)
    ensures Sum(ps + [p]) == Sum(ps) + p.size
  {
    if ps != [] {
      assert (ps + [p])[1..] == ps[1..] + [p];
      SumAppend(ps[1..], p);
    }
  }

  lemma {:induction false} SumPositive(ps: seq<Packet>)
    requires forall p :: p in ps ==> p.size > 0
    ensures Sum(ps) == 0 <==> ps == []
  {
    if ps != [] { assert ps[0] in ps; }
  }

  /** The first packet of an empty queue gets its turn at once. */
  ghost function StartService(s: State): State
    requires s.queues != [] && Ready(s.queues, 0)
  {
    Dequeue(VisitCurrent(s.(cur := 0)))
  }

  ghost predicate Steady(s: State) {
    && AllWaitButCurrent(s)
    && (s.queues == [] <==> s.length == 0)
    && s.events == (if s.queues == [] then 0 else 1)
    && (s.queues != [] ==> s.queues[s.cur].packets[0].size <= s.length)
  }

  /** The flow's queue, with every queue but that one as before. */
  ghost predicate OneMayBeEmpty(queues: seq<VirtualQueue>, cur: nat, i: nat) {
    && i < |queues| && cur < |queues|
    && (forall k :: 0 <= k < |queues| ==> QueueOk(queues[k]))
    && (forall k :: 0 <= k < |queues| && k != cur && k != i ==> Waiting(queues[k]))
    && (i == cur || queues[cur].packets != [])
    && (if queues[i].packets == [] then queues[i].deficit == 0 else i == cur || Waiting(queues[i]))
  }

  lemma InsertedShape(queues: seq<VirtualQueue>, cur: nat, k: nat, name: string)
    requires queues != [] && Ready(queues, cur) && queues[cur].packets != [] && k <= |queues|
    ensures OneMayBeEmpty(InsertAt(queues, k, NewQueue(name)), if k <= cur then cur + 1 else cur, k)
  {
  }

  lemma FoundShape(queues: seq<VirtualQueue>, cur: nat, name: string)
    requires Ready(queues, cur) && Find(queues, name) < |queues| && queues[cur].packets != []
    ensures OneMayBeEmpty(queues, cur, Find(queues, name))
  {
  }

  lemma WithQueueShape(s: State, name: string, at: nat)
    requires AllWaitButCurrent(s)
    ensures var u := WithQueue(s, name, at);
      && OneMayBeEmpty(u.queues, u.cur, Find(u.queues, name))
      && (s.queues == [] ==> u.cur == 0 && |u.queues| == 1)
  {
    if Find(s.queues, name) == |s.queues| {
      var k := Place(s.queues, at);
      FindInserted(s.queues, name, k);
      if s.queues != [] { InsertedShape(s.queues, s.cur, k, name); }
    } else {
      FoundShape(s.queues, s.cur, name);
    }
  }

  lemma FindInserted(queues: seq<VirtualQueue>, name: string, k: nat)
    requires k <= |queues| && Find(queues, name) == |queues|
    ensures Find(InsertAt(queues, k, NewQueue(name)), name) == k
  {
    var t := InsertAt(queues, k, NewQueue(name));
    var i := Find(t, name);
    assert t[k].name == name;
    assert forall j :: 0 <= j < k ==> t[j] == queues[j];
  }

  lemma AddedIsReady(u: State, p: Packet)
    requires var i := Find(u.queues, Flow(p)); OneMayBeEmpty(u.queues, u.cur, i) && p.size > 0
    ensures AllWaitButCurrent(AddPacket(u, p))
  {
    var i := Find(u.queues, Flow(p));
    SumAppend(u.queues[i].packets, p);
    var t := AddPacket(u, p).queues;
    assert QueueOk(t[i]);
    assert i != u.cur ==> Waiting(t[i]);
  }

  /** What enqueue may rely on: the flow has a queue, and the first packet finds a table with one queue. */
  lemma EnqueueSteps(s: State, p: Packet, at: nat)
    requires Steady(s) && p.size > 0
    ensures var u := WithQueue(s, Flow(p), at);
      && Find(u.queues, Flow(p)) < |u.queues|
      && AllWaitButCurrent(AddPacket(u, p)) && AddPacket(u, p).queues != []
      && (AddPacket(u, p).length == p.size <==> s.queues == [])
      && (s.queues == [] ==> u.cur == 0)
  {
    WithQueueShape(s, Flow(p), at);
    AddedIsReady(WithQueue(s, Flow(p), at), p);
  }

  /** The whole of enqueue, for a packet that does not overflow the queue. */
  ghost function Enqueue(s: State, p: Packet, at: nat): State
    requires Steady(s) && p.size > 0
  {
    EnqueueSteps(s, p, at);
    var t := AddPacket(WithQueue(s, Flow(p), at), p);
    if t.length == p.size then StartService(t) else t
  }

  lemma TransmittedIsReady(s: State)
    requires Steady(s) && s.queues != []
    ensures Ready(Transmit(s).queues, s.cur)
  {
    var q := s.queues[s.cur];
    assert forall p :: p in q.packets[1..] ==> p in q.packets;
  }

  /** The node's reaction to a departure: send the packet, then look for the next one. */
  ghost function Departure(s: State): State
    requires Steady(s) && s.queues != []
  {
    TransmittedIsReady(s);
    Dequeue(Transmit(s))
  }
}
