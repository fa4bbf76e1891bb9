/** Runs of the fair queue, and how far the service of two backlogged flows can differ. */
module Fairness {
  import opened Collections
  import opened DeficitRoundRobin
  import opened RoundRobinInvariant

  /** A packet comes, a new flow going to place at of the table; or the scheduled departure happens. */
  datatype Event = Arrival(p: Packet, at: nat) | DepartureDue

  predicate SizeOk(e: Event, max: nat) {
    e.Arrival? ==> 0 < e.p.size <= max
  }

  ghost function Step(s: State, e: Event): State
    requires Steady(s) && (e.Arrival? ==> e.p.size > 0)
  {
    match e
    case Arrival(p, at) => Enqueue(s, p, at)
    case DepartureDue => if s.queues == [] then s else Departure(s)
  }

  /** In every run each event finds the invariant and leaves it. */
  ghost function Run(s: State, es: seq<Event>, max: nat): (t: State)
    requires Inv(s, max) && forall e :: e in es ==> SizeOk(e, max)
    ensures Inv(t, max)
    decreases |es|
  {
    if es == [] then s else
      StepKeeps(s, es[0], max);
      Run(Step(s, es[0]), es[1..], max)
  }

  lemma StepKeeps(s: State, e: Event, max: nat)
    requires Inv(s, max) && SizeOk(e, max)
    ensures Inv(Step(s, e), max)
  {
    match e
    case Arrival(p, at) => EnqueueKeeps(s, p, at, max);
    case DepartureDue => if s.queues != [] { DepartureKeeps(s, max); }
  }

  /** 1 if the turn has passed f since it last passed g, 0 if it has not. */
  ghost function Lead(queues: seq<VirtualQueue>, cur: nat, f: string, g: string): int {
    var i, j := Find(queues, f), Find(queues, g);
    if i < j then (if i <= cur < j then 1 else 0) else if j <= cur < i then 0 else 1
  }

  /** How many visits f is ahead of g, apart from those of the present round. */
  ghost function Gap(s: State, f: string, g: string): int {
    LedgerOf(s.log, f).visits - LedgerOf(s.log, g).visits - Lead(s.queues, s.cur, f, g)
  }

  ghost predicate Has(s: State, f: string) {
    Find(s.queues, f) < |s.queues|
  }

  ghost function Erases(s: State, f: string): nat {
    LedgerOf(s.log, f).erases
  }

  /** The deficit that the flow has given up. */
  ghost function Lost(s: State, f: string): nat {
    LedgerOf(s.log, f).lost
  }

  /** As long as neither flow is erased, both stay in the table and the visits keep pace. */
  ghost predicate KeepsPace(s: State, t: State, f: string, g: string) {
    && Erases(s, f) <= Erases(t, f) && Erases(s, g) <= Erases(t, g)
    && (Erases(s, f) == Erases(t, f) && Erases(s, g) == Erases(t, g) && Has(s, f) && Has(s, g) ==>
          && Has(t, f) && Has(t, g) && Gap(t, f, g) == Gap(s, f, g)
          && Lost(t, f) == Lost(s, f) && Lost(t, g) == Lost(s, g))
  }

  lemma QuietAct(log: seq<Act>, a: Act, f: string)
    requires !a.Visit? && !a.Erase?
    ensures LedgerOf(log + [a], f).visits == LedgerOf(log, f).visits
    ensures LedgerOf(log + [a], f).erases == LedgerOf(log, f).erases
    ensures LedgerOf(log + [a], f).lost == LedgerOf(log, f).lost
  {
    Posted(log, a, f);
  }

  /** A change that leaves the names, the turn and the visits as they are. */
  lemma QuietStep(s: State, t: State, i: nat, q: VirtualQueue, a: Act, f: string, g: string)
    requires Replaces(s, t, i, q, a) && !a.Visit? && !a.Erase?
    ensures KeepsPace(s, t, f, g)
  {
    QuietAct(s.log, a, f);
    QuietAct(s.log, a, g);
    SameNames(s.queues, t.queues, f);
    SameNames(s.queues, t.queues, g);
  }

  lemma SameNames(a: seq<VirtualQueue>, b: seq<VirtualQueue>, f: string)
    requires |a| == |b| && forall k :: 0 <= k < |a| ==> a[k].name == b[k].name
    ensures Find(a, f) == Find(b, f)
  {
  }

  lemma FindWithout(queues: seq<VirtualQueue>, c: nat, f: string)
    requires c < |queues| && Distinct(queues) && Find(queues, f) < |queues| && queues[c].name != f
    ensures var k := Find(queues, f); Find(RemoveAt(queues, c), f) == if k < c then k else k - 1
  {
    var k := Find(queues, f);
    var k' := if k < c then k else k - 1;
    RemovedOf(queues, c, f);
    assert RemoveAt(queues, c)[k'] == queues[k];
    FindIs(RemoveAt(queues, c), k');
  }

  lemma FindWith(queues: seq<VirtualQueue>, k: nat, name: string, f: string)
    requires k <= |queues| && Distinct(queues) && Find(queues, name) == |queues| && Find(queues, f) < |queues|
    ensures var i := Find(queues, f); Find(InsertAt(queues, k, NewQueue(name)), f) == if i < k then i else i + 1
  {
    var i := Find(queues, f);
    var i' := if i < k then i else i + 1;
    InsertedOf(queues, k, name, f);
    assert InsertAt(queues, k, NewQueue(name))[i'] == queues[i];
    FindIs(InsertAt(queues, k, NewQueue(name)), i');
  }

  ghost function Next(queues: seq<VirtualQueue>, cur: nat): nat
  {
    if cur + 1 == |queues| then 0 else cur + 1
  }

  /** The turn goes on by one place: whoever is there gains a visit, and the lead follows. */
  lemma LeadFollows(queues: seq<VirtualQueue>, cur: nat, f: string, g: string)
    requires Distinct(queues) && cur < |queues| && f != g
    requires Find(queues, f) < |queues| && Find(queues, g) < |queues|
    ensures var n := Next(queues, cur);
      Lead(queues, n, f, g) - Lead(queues, cur, f, g)
        == (if queues[n].name == f then 1 else 0) - (if queues[n].name == g then 1 else 0)
  {
    FindIs(queues, Next(queues, cur));
  }

  /** The current queue goes and its successor takes the turn. */
  lemma LeadFollowsErase(queues: seq<VirtualQueue>, cur: nat, f: string, g: string)
    requires Distinct(queues) && cur < |queues| && f != g && queues[cur].name != f && queues[cur].name != g
    requires Find(queues, f) < |queues| && Find(queues, g) < |queues|
    ensures var n := if cur == |queues| - 1 then 0 else cur;
      && |queues| > 1
      && Find(RemoveAt(queues, cur), f) < |queues| - 1 && Find(RemoveAt(queues, cur), g) < |queues| - 1
      && Lead(RemoveAt(queues, cur), n, f, g) - Lead(queues, cur, f, g)
        == (if RemoveAt(queues, cur)[n].name == f then 1 else 0) - (if RemoveAt(queues, cur)[n].name == g then 1 else 0)
  {
    FindWithout(queues, cur, f);
    FindWithout(queues, cur, g);
    LeadFollows(queues, cur, f, g);
    FindIs(queues, Next(queues, cur));
  }

  lemma VisitAct(log: seq<Act>, name: string, f: string)
    ensures LedgerOf(log + [Visit(name)], f).visits == LedgerOf(log, f).visits + if name == f then 1 else 0
    ensures LedgerOf(log + [Visit(name)], f).erases == LedgerOf(log, f).erases
    ensures LedgerOf(log + [Visit(name)], f).lost == LedgerOf(log, f).lost
  {
    Posted(log, Visit(name), f);
  }

  lemma VisitNames(t: State, f: string)
    requires t.cur < |t.queues|
    ensures Find(VisitCurrent(t).queues, f) == Find(t.queues, f)
  {
    SameNames(t.queues, VisitCurrent(t).queues, f);
  }

  lemma VisitLedger(t: State, f: string)
    requires t.cur < |t.queues|
    ensures var u := VisitCurrent(t);
      && LedgerOf(u.log, f).visits == LedgerOf(t.log, f).visits + (if t.queues[t.cur].name == f then 1 else 0)
      && Erases(u, f) == Erases(t, f) && Lost(u, f) == Lost(t, f) && Find(u.queues, f) == Find(t.queues, f)
  {
    VisitAct(t.log, t.queues[t.cur].name, f);
    VisitNames(t, f);
  }

  lemma VisitGap(t: State, f: string, g: string)
    requires t.cur < |t.queues|
    ensures Gap(VisitCurrent(t), f, g) == Gap(t, f, g)
      + (if t.queues[t.cur].name == f then 1 else 0) - (if t.queues[t.cur].name == g then 1 else 0)
  {
    VisitLedger(t, f);
    VisitLedger(t, g);
    var u := VisitCurrent(t);
    assert u.cur == t.cur;
  }

  lemma ErasedShape(s: State)
    requires s.queues != [] && Ready(s.queues, s.cur) && s.queues[s.cur].length == 0
    ensures var t, r := Leave(s), RemoveAt(s.queues, s.cur);
      && t.cur == (if s.cur == |s.queues| - 1 then 0 else s.cur) && |t.queues| == |r|
      && forall k :: 0 <= k < |r| ==> t.queues[k].name == r[k].name
  {
  }

  lemma ErasedTurn(s: State, f: string, g: string)
    requires s.queues != [] && Ready(s.queues, s.cur) && Distinct(s.queues) && f != g
    requires s.queues[s.cur].length == 0 && s.queues[s.cur].name != f && s.queues[s.cur].name != g
    requires Has(s, f) && Has(s, g)
    ensures var t := Leave(s);
      && t.queues != [] && t.cur < |t.queues| && Has(t, f) && Has(t, g)
      && Lead(t.queues, t.cur, f, g) - Lead(s.queues, s.cur, f, g)
        == (if t.queues[t.cur].name == f then 1 else 0) - (if t.queues[t.cur].name == g then 1 else 0)
  {
    var t := Leave(s);
    ErasedShape(s);
    LeadFollowsErase(s.queues, s.cur, f, g);
    SameNames(RemoveAt(s.queues, s.cur), t.queues, f);
    SameNames(RemoveAt(s.queues, s.cur), t.queues, g);
  }

  lemma AdvancedTurn(s: State, f: string, g: string)
    requires s.queues != [] && Ready(s.queues, s.cur) && Distinct(s.queues) && f != g
    requires s.queues[s.cur].length != 0 && Has(s, f) && Has(s, g)
    ensures var t := Leave(s);
      && t.queues != [] && t.cur < |t.queues| && Has(t, f) && Has(t, g)
      && Lead(t.queues, t.cur, f, g) - Lead(s.queues, s.cur, f, g)
        == (if t.queues[t.cur].name == f then 1 else 0) - (if t.queues[t.cur].name == g then 1 else 0)
  {
    var t := Leave(s);
    LeadFollows(s.queues, s.cur, f, g);
    SameNames(s.queues, t.queues, f);
    SameNames(s.queues, t.queues, g);
  }

  lemma LeaveTurn(s: State, f: string, g: string)
    requires s.queues != [] && Ready(s.queues, s.cur) && Distinct(s.queues) && f != g
    requires Has(s, f) && Has(s, g)
    requires s.queues[s.cur].length != 0 || (s.queues[s.cur].name != f && s.queues[s.cur].name != g)
    ensures var t := Leave(s);
      && t.queues != [] && t.cur < |t.queues| && Has(t, f) && Has(t, g)
      && Lead(t.queues, t.cur, f, g) - Lead(s.queues, s.cur, f, g)
        == (if t.queues[t.cur].name == f then 1 else 0) - (if t.queues[t.cur].name == g then 1 else 0)
  {
    if s.queues[s.cur].length == 0 { ErasedTurn(s, f, g); } else { AdvancedTurn(s, f, g); }
  }

  lemma LeaveLedger(s: State, f: string)
    requires s.queues != [] && Ready(s.queues, s.cur)
    ensures LedgerOf(Leave(s).log, f).visits == LedgerOf(s.log, f).visits
    ensures var q := s.queues[s.cur];
      if q.length == 0 && q.name == f then Erases(Leave(s), f) == Erases(s, f) + 1
      else Erases(Leave(s), f) == Erases(s, f) && Lost(Leave(s), f) == Lost(s, f)
  {
    var q := s.queues[s.cur];
    Posted(s.log, Erase(q.name, q.deficit), f);
  }

  lemma NextQueueKeepsPace(s: State, f: string, g: string)
    requires s.queues != [] && Ready(s.queues, s.cur) && Distinct(s.queues) && f != g
    ensures KeepsPace(s, NextQueue(s), f, g)
  {
    LeaveLedger(s, f);
    LeaveLedger(s, g);
    var t := Leave(s);
    if t.queues != [] {
      VisitLedger(t, f);
      VisitLedger(t, g);
      VisitGap(t, f, g);
    }
    if Has(s, f) && Has(s, g) && Erases(t, f) == Erases(s, f) && Erases(t, g) == Erases(s, g) {
      LeaveTurn(s, f, g);
    }
  }

  lemma {:induction false} DequeueKeepsPace(s: State, f: string, g: string, max: nat)
    requires Between(s, max) && f != g
    ensures KeepsPace(s, Dequeue(s), f, g)
    decreases |s.queues|, Lack(s.queues)
  {
    if s.queues != [] {
      var q := s.queues[s.cur];
      if Fits(q) {
        assert q.packets[0] in q.packets;
        QuietStep(s, ScheduleHead(s), s.cur, q.(deficit := q.deficit - q.packets[0].size),
                  Schedule(q.packets[0]), f, g);
      } else {
        NextQueueKeeps(s, max);
        NextQueueIsCloser(s);
        NextQueueKeepsPace(s, f, g);
        DequeueKeepsPace(NextQueue(s), f, g, max);
      }
    }
  }

  lemma DepartureKeepsPace(s: State, f: string, g: string, max: nat)
    requires Inv(s, max) && s.queues != [] && f != g
    ensures KeepsPace(s, Departure(s), f, g)
  {
    var q := s.queues[s.cur];
    var rest := q.packets[1..];
    assert q.packets[0] in q.packets;
    QuietStep(s, Transmit(s), s.cur, q.(packets := rest, length := Sum(rest)), Depart(q.packets[0]), f, g);
    TransmitKeeps(s, max);
    DequeueKeepsPace(Transmit(s), f, g, max);
  }

  lemma LeadWith(queues: seq<VirtualQueue>, cur: nat, k: nat, name: string, f: string, g: string)
    requires k <= |queues| && Distinct(queues) && Find(queues, name) == |queues|
    requires Find(queues, f) < |queues| && Find(queues, g) < |queues|
    ensures var t := InsertAt(queues, k, NewQueue(name));
      && Find(t, f) < |t| && Find(t, g) < |t|
      && Lead(t, if k <= cur then cur + 1 else cur, f, g) == Lead(queues, cur, f, g)
  {
    FindWith(queues, k, name, f);
    FindWith(queues, k, name, g);
  }

  lemma WithQueueKeepsPace(s: State, name: string, at: nat, f: string, g: string)
    requires Distinct(s.queues)
    ensures KeepsPace(s, WithQueue(s, name, at), f, g)
  {
    if Find(s.queues, name) == |s.queues| && Has(s, f) && Has(s, g) {
      LeadWith(s.queues, s.cur, Place(s.queues, at), name, f, g);
    }
  }

  lemma AddKeepsPace(u: State, p: Packet, f: string, g: string)
    requires Has(u, Flow(p)) && Distinct(u.queues) && u.cur < |u.queues|
    ensures KeepsPace(u, AddPacket(u, p), f, g)
  {
    var i := Find(u.queues, Flow(p));
    var q := u.queues[i];
    QuietStep(u, AddPacket(u, p), i, q.(packets := q.packets + [p], length := q.length + p.size), Arrive(p), f, g);
  }

  lemma StartKeepsPace(t: State, f: string, g: string, max: nat)
    requires t.queues != [] && t.cur == 0 && f != g && Between(VisitCurrent(t), max)
    ensures Erases(t, f) <= Erases(Dequeue(VisitCurrent(t)), f)
    ensures Erases(t, g) <= Erases(Dequeue(VisitCurrent(t)), g)
  {
    VisitLedger(t, f);
    VisitLedger(t, g);
    DequeueKeepsPace(VisitCurrent(t), f, g, max);
  }

  lemma EnqueueKeepsPace(s: State, p: Packet, at: nat, f: string, g: string, max: nat)
    requires Inv(s, max) && 0 < p.size <= max && f != g
    ensures KeepsPace(s, Enqueue(s, p, at), f, g)
  {
    EnqueueSteps(s, p, at);
    var u := WithQueue(s, Flow(p), at);
    var t := AddPacket(u, p);
    WithQueueBooks(s, Flow(p), at, max);
    WithQueueKeepsPace(s, Flow(p), at, f, g);
    AddKeepsPace(u, p, f, g);
    if s.queues == [] {
      AddedBooks(u, p, max);
      VisitedBetween(t, max);
      StartKeepsPace(t, f, g, max);
    }
  }

  lemma StepKeepsPace(s: State, e: Event, f: string, g: string, max: nat)
    requires Inv(s, max) && SizeOk(e, max) && f != g
    ensures KeepsPace(s, Step(s, e), f, g)
  {
    match e
    case Arrival(p, at) => EnqueueKeepsPace(s, p, at, f, g, max);
    case DepartureDue => if s.queues != [] { DepartureKeepsPace(s, f, g, max); }
  }

  lemma {:induction false} RunKeepsPace(s: State, es: seq<Event>, f: string, g: string, max: nat)
    requires Inv(s, max) && (forall e :: e in es ==> SizeOk(e, max)) && f != g
    ensures KeepsPace(s, Run(s, es, max), f, g)
    decreases |es|
  {
    if es != [] {
      StepKeeps(s, es[0], max);
      StepKeepsPace(s, es[0], f, g, max);
      RunKeepsPace(Step(s, es[0]), es[1..], f, g, max);
    }
  }

  // A flow that has its queue after every event has never been erased.

  /** Without an arrival a flow that is gone stays away, and a flow that is there was not erased. */
  ghost predicate GoneOrKept(s: State, t: State, f: string) {
    (!Has(s, f) ==> !Has(t, f)) && (Has(t, f) ==> Erases(t, f) == Erases(s, f))
  }

  lemma QuietGone(s: State, t: State, i: nat, q: VirtualQueue, a: Act, f: string)
    requires Replaces(s, t, i, q, a) && !a.Visit? && !a.Erase?
    ensures GoneOrKept(s, t, f) && Erases(t, f) == Erases(s, f) && (Has(s, f) ==> Has(t, f))
  {
    QuietAct(s.log, a, f);
    SameNames(s.queues, t.queues, f);
  }

  lemma LeaveGone(s: State, f: string)
    requires s.queues != [] && Ready(s.queues, s.cur) && Distinct(s.queues)
    ensures GoneOrKept(s, Leave(s), f)
  {
    LeaveLedger(s, f);
    if s.queues[s.cur].length == 0 {
      ErasedShape(s);
      SameNames(RemoveAt(s.queues, s.cur), Leave(s).queues, f);
      RemovedNames(s.queues, s.cur, f);
    } else {
      SameNames(s.queues, Leave(s).queues, f);
    }
  }

  lemma RemovedNames(queues: seq<VirtualQueue>, c: nat, f: string)
    requires c < |queues| && Distinct(queues)
    ensures Find(RemoveAt(queues, c), f) < |queues| - 1 ==> Find(queues, f) < |queues| && queues[c].name != f
  {
    var r := RemoveAt(queues, c);
    var k := Find(r, f);
    if k < |r| {
      assert r[k] == queues[if k < c then k else k + 1];
    }
  }

  lemma NextQueueGone(s: State, f: string)
    requires s.queues != [] && Ready(s.queues, s.cur) && Distinct(s.queues)
    ensures GoneOrKept(s, NextQueue(s), f)
  {
    LeaveGone(s, f);
    if Leave(s).queues != [] { VisitLedger(Leave(s), f); }
  }

  lemma {:induction false} DequeueGone(s: State, f: string, max: nat)
    requires Between(s, max)
    ensures GoneOrKept(s, Dequeue(s), f)
    decreases |s.queues|, Lack(s.queues)
  {
    if s.queues != [] {
      var q := s.queues[s.cur];
      if Fits(q) {
        assert q.packets[0] in q.packets;
        QuietGone(s, ScheduleHead(s), s.cur, q.(deficit := q.deficit - q.packets[0].size), Schedule(q.packets[0]), f);
      } else {
        NextQueueKeeps(s, max);
        NextQueueIsCloser(s);
        NextQueueGone(s, f);
        DequeueGone(NextQueue(s), f, max);
      }
    }
  }

  lemma DepartureGone(s: State, f: string, max: nat)
    requires Inv(s, max) && s.queues != []
    ensures GoneOrKept(s, Departure(s), f)
  {
    var q := s.queues[s.cur];
    var rest := q.packets[1..];
    assert q.packets[0] in q.packets;
    QuietGone(s, Transmit(s), s.cur, q.(packets := rest, length := Sum(rest)), Depart(q.packets[0]), f);
    TransmitKeeps(s, max);
    DequeueGone(Transmit(s), f, max);
  }

  /** An arrival erases nothing once there is a queue. */
  lemma EnqueueErasesNone(s: State, p: Packet, at: nat, f: string, max: nat)
    requires Inv(s, max) && 0 < p.size <= max && s.queues != []
    ensures Erases(Enqueue(s, p, at), f) == Erases(s, f)
  {
    EnqueueSteps(s, p, at);
    var u := WithQueue(s, Flow(p), at);
    var i := Find(u.queues, Flow(p));
    var q := u.queues[i];
    QuietAct(u.log, Arrive(p), f);
  }

  lemma StepErasesNone(s: State, e: Event, f: string, max: nat)
    requires Inv(s, max) && SizeOk(e, max) && Has(s, f) && Has(Step(s, e), f)
    ensures Erases(Step(s, e), f) == Erases(s, f)
  {
    match e
    case Arrival(p, at) => EnqueueErasesNone(s, p, at, f, max);
    case DepartureDue => DepartureGone(s, f, max);
  }

  /** The flow has its queue before the run and after every event of it. */
  ghost predicate StaysBacklogged(s: State, es: seq<Event>, f: string, max: nat)
    requires Inv(s, max) && forall e :: e in es ==> SizeOk(e, max)
  {
    forall k {:trigger es[..k]} :: 0 <= k <= |es| ==> Has(Run(s, es[..k], max), f)
  }

  lemma BackloggedTail(s: State, es: seq<Event>, f: string, max: nat)
    requires Inv(s, max) && (forall e :: e in es ==> SizeOk(e, max)) && es != [] && StaysBacklogged(s, es, f, max)
    ensures SizeOk(es[0], max) && Inv(Step(s, es[0]), max) && Has(s, f) && Has(Step(s, es[0]), f)
    ensures StaysBacklogged(Step(s, es[0]), es[1..], f, max)
  {
    StepKeeps(s, es[0], max);
    assert es[..0] == [] && es[..1] == [es[0]];
    assert Run(s, es[..1], max) == Step(s, es[0]);
    var tail := es[1..];
    forall k {:trigger tail[..k]} | 0 <= k <= |tail| ensures Has(Run(Step(s, es[0]), tail[..k], max), f) {
      var pre := es[..k + 1];
      assert pre[0] == es[0] && pre[1..] == tail[..k];
      assert Has(Run(s, pre, max), f);
    }
  }

  lemma {:induction false} BackloggedIsNotErased(s: State, es: seq<Event>, f: string, max: nat)
    requires Inv(s, max) && (forall e :: e in es ==> SizeOk(e, max)) && StaysBacklogged(s, es, f, max)
    ensures Erases(Run(s, es, max), f) == Erases(s, f)
    decreases |es|
  {
    if es != [] {
      BackloggedTail(s, es, f, max);
      StepErasesNone(s, es[0], f, max);
      BackloggedIsNotErased(Step(s, es[0]), es[1..], f, max);
    }
  }

  /**
   * Fairness: over any run in which two flows stay backlogged, whatever else comes and goes, the bytes
   * scheduled for them differ by less than a quantum and two packets of the greatest size.
   */
  lemma ServiceIsFair(s: State, es: seq<Event>, f: string, g: string, max: nat)
    requires Inv(s, max) && (forall e :: e in es ==> SizeOk(e, max)) && f != g
    requires StaysBacklogged(s, es, f, max) && StaysBacklogged(s, es, g, max)
    ensures var t := Run(s, es, max);
      var served, other := LedgerOf(t.log, f).bytes - LedgerOf(s.log, f).bytes,
                           LedgerOf(t.log, g).bytes - LedgerOf(s.log, g).bytes;
      -(QUANTUM + 2 * max) < served - other < QUANTUM + 2 * max
  {
    var t := Run(s, es, max);
    assert es[..0] == [] && Has(Run(s, es[..0], max), f) && Has(Run(s, es[..0], max), g);
    BackloggedIsNotErased(s, es, f, max);
    BackloggedIsNotErased(s, es, g, max);
    RunKeepsPace(s, es, f, g, max);
    Standing(s, f, g, max);
    Standing(t, f, g, max);
  }

  /** What a flow may still claim, against the other: never more than a quantum and a packet. */
  lemma Standing(s: State, f: string, g: string, max: nat)
    requires Inv(s, max) && f != g && Has(s, f) && Has(s, g)
    ensures var claim := QUANTUM * Lead(s.queues, s.cur, f, g)
                         - QueueOf(s.queues, f).deficit + QueueOf(s.queues, g).deficit;
      -(max as int) < claim < QUANTUM + max
    ensures Accounted(s, f) && Accounted(s, g)
  {
    var i, j := Find(s.queues, f), Find(s.queues, g);
    assert Accounted(s, f) && Accounted(s, g);
    DeficitBound(s, i, max);
    DeficitBound(s, j, max);
  }

  lemma DeficitBound(s: State, i: nat, max: nat)
    requires Inv(s, max) && i < |s.queues|
    ensures s.queues[i].deficit < if i == s.cur then QUANTUM + max else max
  {
    assert s.queues[i].packets[0] in s.queues[i].packets;
  }
}
