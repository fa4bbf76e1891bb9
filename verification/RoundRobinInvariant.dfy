/** What every operation of the fair queue keeps: shape, bounds, and the account of every flow. */
module RoundRobinInvariant {
  import opened Collections
  import opened DeficitRoundRobin

  /** What a log says of one flow. */
  datatype Ledger = Ledger(visits: nat, bytes: nat, lost: nat, erases: nat,
                           arrived: seq<Packet>, scheduled: seq<Packet>, departed: seq<Packet>)

  ghost function Post(l: Ledger, a: Act, f: string): Ledger {
    match a
    case Arrive(p) => if Flow(p) == f then l.(arrived := l.arrived + [p]) else l
    case Visit(name) => if name == f then l.(visits := l.visits + 1) else l
    case Schedule(p) =>
      if Flow(p) == f then l.(bytes := l.bytes + p.size, scheduled := l.scheduled + [p]) else l
    case Depart(p) => if Flow(p) == f then l.(departed := l.departed + [p]) else l
    case Erase(name, lost) => if name == f then l.(lost := l.lost + lost, erases := l.erases + 1) else l
  }

  ghost function LedgerOf(log: seq<Act>, f: string): Ledger {
    if log == [] then Ledger(0, 0, 0, 0, [], [], [])
    else Post(LedgerOf(log[..|log| - 1], f), log[|log| - 1], f)
  }

  function FlowOf(a: Act): string {
    match a
    case Arrive(p) => Flow(p)
    case Visit(name) => name
    case Schedule(p) => Flow(p)
    case Depart(p) => Flow(p)
    case Erase(name, lost) => name
  }

  lemma Posted(log: seq<Act>, a: Act, f: string)
    ensures LedgerOf(log + [a], f) == Post(LedgerOf(log, f), a, f)
  {
    assert (log + [a])[..|log|] == log;
  }

  ghost predicate Distinct(queues: seq<VirtualQueue>) {
    forall i, j :: 0 <= i < j < |queues| ==> queues[i].name != queues[j].name
  }

  ghost function Total(queues: seq<VirtualQueue>): nat {
    if queues == [] then 0 else queues[0].length + Total(queues[1..])
  }

  /** The flow's queue; a flow without one is like a new queue. */
  ghost function QueueOf(queues: seq<VirtualQueue>, f: string): (q: VirtualQueue)
    ensures q.name == f
  {
    var i := Find(queues, f);
    if i < |queues| then queues[i] else NewQueue(f)
  }

  /** The packet whose departure is scheduled, if it is of this flow. */
  ghost function Outstanding(s: State, f: string): seq<Packet> {
    if s.events > 0 && s.cur < |s.queues| && s.queues[s.cur].name == f && s.queues[s.cur].packets != []
    then [s.queues[s.cur].packets[0]] else []
  }

  /**
   * The account of a flow: the quantum of every visit is spent on scheduled bytes, lost with an erased
   * queue, or still there as deficit; packets leave in the order they came, each one after it was scheduled.
   */
  ghost predicate Balanced(l: Ledger, q: VirtualQueue, outstanding: seq<Packet>) {
    && QUANTUM * l.visits == l.bytes + l.lost + q.deficit
    && l.arrived == l.departed + q.packets
    && l.scheduled == l.departed + outstanding
  }

  ghost predicate Accounted(s: State, f: string) {
    Balanced(LedgerOf(s.log, f), QueueOf(s.queues, f), Outstanding(s, f))
  }

  ghost predicate SizesUpTo(queues: seq<VirtualQueue>, max: nat) {
    forall i, p :: 0 <= i < |queues| && p in queues[i].packets ==> p.size <= max
  }

  ghost predicate Books(s: State, max: nat) {
    && Distinct(s.queues)
    && SizesUpTo(s.queues, max)
    && s.length == Total(s.queues)
    && forall f :: Accounted(s, f)
  }

  /** Between a transmission and the next scheduled departure. */
  ghost predicate Between(s: State, max: nat) {
    && Ready(s.queues, s.cur)
    && Books(s, max)
    && s.events == 0
    && (s.queues != [] ==> s.queues[s.cur].deficit < QUANTUM + max)
  }

  /**
   * Between events: exactly one departure is outstanding if the table has a queue, none if it has not;
   * no queue is empty, and no deficit reaches a quantum and a packet of the greatest size.
   */
  ghost predicate Inv(s: State, max: nat) {
    && Steady(s)
    && Books(s, max)
    && (s.queues != [] ==> s.queues[s.cur].deficit < QUANTUM + max)
  }

  lemma EmptyInv(max: nat)
    ensures Inv(EMPTY, max)
  {
  }

  // Queues by name, and sums, under each change of the table.

  lemma FindIs(queues: seq<VirtualQueue>, i: nat)
    requires i < |queues| && Distinct(queues)
    ensures Find(queues, queues[i].name) == i
  {
  }

  lemma UpdatedOf(queues: seq<VirtualQueue>, i: nat, q: VirtualQueue, f: string)
    requires i < |queues| && Distinct(queues) && q.name == queues[i].name
    ensures Distinct(queues[i := q])
    ensures QueueOf(queues[i := q], f) == if f == q.name then q else QueueOf(queues, f)
  {
    var t := queues[i := q];
    FindIs(queues, i);
    FindIs(t, i);
    var k := Find(queues, f);
    if f != q.name && k < |queues| {
      assert t[k] == queues[k];
      FindIs(t, k);
    }
  }

  lemma RemovedOf(queues: seq<VirtualQueue>, c: nat, f: string)
    requires c < |queues| && Distinct(queues)
    ensures Distinct(RemoveAt(queues, c))
    ensures QueueOf(RemoveAt(queues, c), f) == if f == queues[c].name then NewQueue(f) else QueueOf(queues, f)
  {
    var t := RemoveAt(queues, c);
    var k := Find(queues, f);
    if f != queues[c].name && k < |queues| {
      var k' := if k < c then k else k - 1;
      assert t[k'] == queues[k];
      FindIs(t, k');
    }
  }

  lemma CountedOf(queues: seq<VirtualQueue>, f: string)
    requires Distinct(queues)
    ensures Distinct(IncCounts(queues))
    ensures var q, r := QueueOf(queues, f), QueueOf(IncCounts(queues), f);
      r.deficit == q.deficit && r.packets == q.packets
  {
    var t := IncCounts(queues);
    var k := Find(queues, f);
    if k < |queues| {
      assert t[k] == IncCount(queues[k]);
      FindIs(t, k);
    }
  }

  lemma InsertedDistinct(queues: seq<VirtualQueue>, k: nat, q: VirtualQueue)
    requires k <= |queues| && Distinct(queues) && forall i :: 0 <= i < |queues| ==> queues[i].name != q.name
    ensures Distinct(InsertAt(queues, k, q))
  {
  }

  lemma InsertedOf(queues: seq<VirtualQueue>, k: nat, name: string, f: string)
    requires k <= |queues| && Distinct(queues) && Find(queues, name) == |queues|
    ensures Distinct(InsertAt(queues, k, NewQueue(name)))
    ensures QueueOf(InsertAt(queues, k, NewQueue(name)), f) == QueueOf(queues, f)
  {
    var t := InsertAt(queues, k, NewQueue(name));
    InsertedDistinct(queues, k, NewQueue(name));
    FindIs(t, k);
    var i := Find(queues, f);
    if i < |queues| {
      var i' := if i < k then i else i + 1;
      assert t[i'] == queues[i];
      FindIs(t, i');
    }
  }

  lemma {:induction false} TotalAt(queues: seq<VirtualQueue>, i: nat)
    requires i < |queues|
    ensures Total(queues) == Total(RemoveAt(queues, i)) + queues[i].length
  {
    if i == 0 {
      assert RemoveAt(queues, 0) == queues[1..];
    } else {
      TotalAt(queues[1..], i - 1);
      assert RemoveAt(queues, i)[1..] == RemoveAt(queues[1..], i - 1);
    }
  }

  lemma TotalUpdated(queues: seq<VirtualQueue>, i: nat, q: VirtualQueue)
    requires i < |queues|
    ensures Total(queues[i := q]) == Total(queues) - queues[i].length + q.length
  {
    TotalAt(queues, i);
    TotalAt(queues[i := q], i);
    assert RemoveAt(queues[i := q], i) == RemoveAt(queues, i);
  }

  lemma TotalInserted(queues: seq<VirtualQueue>, k: nat, q: VirtualQueue)
    requires k <= |queues|
    ensures Total(InsertAt(queues, k, q)) == Total(queues) + q.length
  {
    TotalAt(InsertAt(queues, k, q), k);
    assert RemoveAt(InsertAt(queues, k, q), k) == queues;
  }

  lemma {:induction false} TotalCounted(queues: seq<VirtualQueue>)
    ensures Total(IncCounts(queues)) == Total(queues)
  {
    if queues != [] {
      assert IncCounts(queues)[1..] == IncCounts(queues[1..]);
      TotalCounted(queues[1..]);
    }
  }

  // The operations.

  /** Queue i becomes q, and the log says so with act a. */
  ghost predicate Replaces(s: State, t: State, i: nat, q: VirtualQueue, a: Act) {
    && i < |s.queues| && q.name == s.queues[i].name == FlowOf(a)
    && t.queues == s.queues[i := q] && t.log == s.log + [a]
    && t.length == s.length - s.queues[i].length + q.length
    && t.cur == s.cur && (i == s.cur || t.events == s.events)
  }

  lemma ReplacedAccount(s: State, t: State, i: nat, q: VirtualQueue, a: Act, f: string)
    requires Replaces(s, t, i, q, a) && Distinct(s.queues) && Accounted(s, f)
    requires Balanced(Post(LedgerOf(s.log, q.name), a, q.name), q, Outstanding(t, q.name))
    ensures Accounted(t, f)
  {
    UpdatedOf(s.queues, i, q, f);
    Posted(s.log, a, f);
  }

  lemma ReplacedBooks(s: State, t: State, i: nat, q: VirtualQueue, a: Act, max: nat)
    requires Replaces(s, t, i, q, a) && Books(s, max)
    requires forall p :: p in q.packets ==> p.size <= max
    requires Balanced(Post(LedgerOf(s.log, q.name), a, q.name), q, Outstanding(t, q.name))
    ensures Books(t, max)
  {
    TotalUpdated(s.queues, i, q);
    UpdatedOf(s.queues, i, q, "");
    forall f: string ensures Accounted(t, f) {
      assert Accounted(s, f);
      ReplacedAccount(s, t, i, q, a, f);
    }
  }

  /** The account of a queue in the table, read off its own fields. */
  lemma AccountAt(s: State, i: nat)
    requires i < |s.queues| && Distinct(s.queues) && Accounted(s, s.queues[i].name)
    ensures Balanced(LedgerOf(s.log, s.queues[i].name), s.queues[i], Outstanding(s, s.queues[i].name))
  {
    FindIs(s.queues, i);
  }

  lemma ErasedBooks(s: State, max: nat)
    requires Between(s, max) && s.queues != [] && s.queues[s.cur].length == 0
    ensures var q := s.queues[s.cur];
      Books(s.(queues := RemoveAt(s.queues, s.cur), log := s.log + [Erase(q.name, q.deficit)]), max)
  {
    var q := s.queues[s.cur];
    var t := s.(queues := RemoveAt(s.queues, s.cur), log := s.log + [Erase(q.name, q.deficit)]);
    SumPositive(q.packets);
    TotalAt(s.queues, s.cur);
    forall f: string ensures Accounted(t, f) {
      assert Accounted(s, f);
      FindIs(s.queues, s.cur);
      RemovedOf(s.queues, s.cur, f);
      Posted(s.log, Erase(q.name, q.deficit), f);
    }
    RemovedOf(s.queues, s.cur, "");
  }

  lemma WrappedBooks(s: State, max: nat)
    requires Books(s, max) && s.events == 0
    ensures Books(s.(cur := 0, queues := IncCounts(s.queues)), max)
  {
    var t := s.(cur := 0, queues := IncCounts(s.queues));
    TotalCounted(s.queues);
    CountedOf(s.queues, "");
    forall f: string ensures Accounted(t, f) {
      assert Accounted(s, f);
      CountedOf(s.queues, f);
    }
  }

  lemma AdvancedBooks(s: State, max: nat)
    requires Books(s, max) && s.events == 0
    ensures Books(s.(cur := s.cur + 1), max)
  {
    var t := s.(cur := s.cur + 1);
    forall f: string ensures Accounted(t, f) {
      assert Accounted(s, f);
    }
  }

  lemma LeaveBooks(s: State, max: nat)
    requires Between(s, max) && s.queues != []
    ensures Books(Leave(s), max) && Leave(s).events == 0
  {
    var q := s.queues[s.cur];
    if q.length == 0 {
      ErasedBooks(s, max);
      WrappedBooks(s.(queues := RemoveAt(s.queues, s.cur), log := s.log + [Erase(q.name, q.deficit)]), max);
    } else {
      AdvancedBooks(s, max);
      WrappedBooks(s.(cur := s.cur + 1), max);
    }
  }

  lemma VisitBooks(s: State, max: nat)
    requires Books(s, max) && s.cur < |s.queues| && s.events == 0
    ensures Books(VisitCurrent(s), max)
  {
    var q := s.queues[s.cur];
    AccountAt(s, s.cur);
    ReplacedBooks(s, VisitCurrent(s), s.cur, q.(deficit := q.deficit + QUANTUM), Visit(q.name), max);
  }

  lemma NextQueueKeeps(s: State, max: nat)
    requires Between(s, max) && s.queues != [] && !Fits(s.queues[s.cur])
    ensures Between(NextQueue(s), max)
  {
    NextQueueIsCloser(s);
    LeaveAllWaiting(s);
    LeaveBooks(s, max);
    var t := Leave(s);
    if t.queues != [] {
      VisitBooks(t, max);
      assert t.queues[t.cur].packets[0] in t.queues[t.cur].packets;
    }
  }

  lemma ScheduledBooks(s: State, max: nat)
    requires Between(s, max) && s.queues != [] && Fits(s.queues[s.cur])
    ensures Books(ScheduleHead(s), max)
  {
    var q := s.queues[s.cur];
    var p := q.packets[0];
    assert p in q.packets;
    AccountAt(s, s.cur);
    ReplacedBooks(s, ScheduleHead(s), s.cur, q.(deficit := q.deficit - p.size), Schedule(p), max);
  }

  lemma {:induction false} TotalAtLeast(queues: seq<VirtualQueue>, i: nat)
    requires i < |queues|
    ensures queues[i].length <= Total(queues)
  {
    TotalAt(queues, i);
  }

  lemma ScheduleIsSteady(s: State, max: nat)
    requires Between(s, max) && s.queues != [] && Fits(s.queues[s.cur])
    ensures Inv(ScheduleHead(s), max)
  {
    ScheduledBooks(s, max);
    TotalAtLeast(s.queues, s.cur);
    assert s.queues[s.cur].packets[0] in s.queues[s.cur].packets;
  }

  /** Wherever the search for a queue that may send ends, the invariant holds again. */
  lemma {:induction false} DequeueKeeps(s: State, max: nat)
    requires Between(s, max)
    ensures Inv(Dequeue(s), max)
    decreases |s.queues|, Lack(s.queues)
  {
    if s.queues != [] {
      if Fits(s.queues[s.cur]) {
        ScheduleIsSteady(s, max);
      } else {
        NextQueueKeeps(s, max);
        NextQueueIsCloser(s);
        DequeueKeeps(NextQueue(s), max);
      }
    }
  }

  lemma DepartedBalanced(l: Ledger, q: VirtualQueue, p: Packet, r: VirtualQueue)
    requires Balanced(l, q, [p]) && Flow(p) == q.name && q.packets == [p] + r.packets && r.deficit == q.deficit
    ensures Balanced(Post(l, Depart(p), q.name), r, [])
  {
  }

  lemma TransmitBooks(s: State, max: nat)
    requires Steady(s) && Books(s, max) && s.queues != []
    ensures Books(Transmit(s), max)
  {
    var q := s.queues[s.cur];
    var p, rest := q.packets[0], q.packets[1..];
    assert p in q.packets && q.packets == [p] + rest;
    assert forall r :: r in rest ==> r in q.packets;
    AccountAt(s, s.cur);
    var r := q.(packets := rest, length := Sum(rest));
    DepartedBalanced(LedgerOf(s.log, q.name), q, p, r);
    ReplacedBooks(s, Transmit(s), s.cur, r, Depart(p), max);
  }

  lemma TransmitKeeps(s: State, max: nat)
    requires Inv(s, max) && s.queues != []
    ensures Between(Transmit(s), max)
  {
    TransmittedIsReady(s);
    TransmitBooks(s, max);
  }

  /** A departure keeps the invariant. */
  lemma DepartureKeeps(s: State, max: nat)
    requires Inv(s, max) && s.queues != []
    ensures Inv(Departure(s), max)
  {
    TransmitKeeps(s, max);
    DequeueKeeps(Transmit(s), max);
  }

  /** An empty queue that comes in leaves the current queue, and so what is outstanding. */
  lemma InsertedOutstanding(s: State, t: State, k: nat, name: string, f: string)
    requires k <= |s.queues| && t.queues == InsertAt(s.queues, k, NewQueue(name)) && t.events == s.events
    requires t.cur == if s.queues != [] && k <= s.cur then s.cur + 1 else s.cur
    ensures Outstanding(t, f) == Outstanding(s, f)
  {
  }

  lemma InsertedAccount(s: State, t: State, k: nat, name: string, f: string)
    requires k <= |s.queues| && Distinct(s.queues) && Find(s.queues, name) == |s.queues| && Accounted(s, f)
    requires t.queues == InsertAt(s.queues, k, NewQueue(name)) && t.events == s.events && t.log == s.log
    requires t.cur == if s.queues != [] && k <= s.cur then s.cur + 1 else s.cur
    ensures Accounted(t, f)
  {
    InsertedOf(s.queues, k, name, f);
    InsertedOutstanding(s, t, k, name, f);
  }

  lemma InsertedSizes(queues: seq<VirtualQueue>, k: nat, name: string, max: nat)
    requires k <= |queues| && SizesUpTo(queues, max)
    ensures SizesUpTo(InsertAt(queues, k, NewQueue(name)), max)
  {
  }

  lemma WithQueueBooks(s: State, name: string, at: nat, max: nat)
    requires Books(s, max)
    ensures Books(WithQueue(s, name, at), max)
  {
    if Find(s.queues, name) == |s.queues| {
      var k := Place(s.queues, at);
      TotalInserted(s.queues, k, NewQueue(name));
      InsertedOf(s.queues, k, name, "");
      InsertedSizes(s.queues, k, name, max);
      forall f: string ensures Accounted(WithQueue(s, name, at), f) {
        assert Accounted(s, f);
        InsertedAccount(s, WithQueue(s, name, at), k, name, f);
      }
    }
  }

  lemma AddedBooks(s: State, p: Packet, max: nat)
    requires Books(s, max) && Find(s.queues, Flow(p)) < |s.queues| && p.size <= max
    requires s.events > 0 ==> s.cur < |s.queues| && s.queues[s.cur].packets != []
    ensures Books(AddPacket(s, p), max)
  {
    var i := Find(s.queues, Flow(p));
    var q := s.queues[i];
    AccountAt(s, i);
    ReplacedBooks(s, AddPacket(s, p), i, q.(packets := q.packets + [p], length := q.length + p.size), Arrive(p), max);
  }

  lemma VisitedBetween(t: State, max: nat)
    requires Books(t, max) && AllWaitButCurrent(t) && t.queues != [] && t.cur == 0 && t.events == 0
    requires t.queues[0].deficit < max
    ensures Between(VisitCurrent(t), max)
  {
    VisitBooks(t, max);
    var u := VisitCurrent(t);
    assert u.queues[0].packets == t.queues[0].packets && u.queues[u.cur].deficit == t.queues[0].deficit + QUANTUM;
  }

  /** An arrival keeps the invariant, wherever a new flow goes in the table. */
  lemma EnqueueKeeps(s: State, p: Packet, at: nat, max: nat)
    requires Inv(s, max) && 0 < p.size <= max
    ensures Inv(Enqueue(s, p, at), max)
  {
    EnqueueSteps(s, p, at);
    var u := WithQueue(s, Flow(p), at);
    WithQueueBooks(s, Flow(p), at, max);
    AddedBooks(u, p, max);
    var t := AddPacket(u, p);
    if s.queues == [] {
      VisitedBetween(t, max);
      DequeueKeeps(VisitCurrent(t), max);
    } else {
      TotalAtLeast(t.queues, t.cur);
    }
  }
}
