/** The fair output queue as an object: its methods change the table, the current queue and the counts. */
module FairQueue {
  import opened DeficitRoundRobin
  import RoundRobinInvariant

  class FQ {
    /** The number of bytes that the queue may hold. */
    const limit: nat
    var queues: seq<VirtualQueue>
    var cur: nat
    var length: nat
    /** Departures that are scheduled and have not happened yet. */
    var events: nat
    ghost var log: seq<Act>

    constructor (limit: nat)
      ensures this.limit == limit && Now() == EMPTY
      ensures forall max: nat :: RoundRobinInvariant.Inv(Now(), max)
    {
      this.limit := limit;
      queues, cur, length, events, log := [], 0, 0, 0, [];
    }

    ghost function Now(): State
      reads this
    {
      State(queues, cur, length, events, log)
    }

    method IncrementCounts()
      modifies this`queues
      ensures queues == IncCounts(old(queues))
    {
      var i := 0;
      while i < |queues|
        invariant 0 <= i <= |queues| == |old(queues)|
        invariant forall k :: 0 <= k < i ==> queues[k] == IncCount(old(queues[k]))
        invariant forall k :: i <= k < |queues| ==> queues[k] == old(queues[k])
      {
        queues := queues[i := IncCount(queues[i])];
        i := i + 1;
      }
    }

    method NextQueue()
      requires queues != [] && Ready(queues, cur)
      modifies this
      ensures Now() == DeficitRoundRobin.NextQueue(old(Now()))
    {
      if queues[cur].length == 0 {
        log := log + [Erase(queues[cur].name, queues[cur].deficit)];
        queues := queues[..cur] + queues[cur + 1..];
      } else {
        cur := cur + 1;
      }
      if cur == |queues| {
        cur := 0;
        IncrementCounts();
      }
      if queues != [] {
        IncrementDeficit();
      }
    }

    method IncrementDeficit()
      requires cur < |queues|
      modifies this
      ensures Now() == VisitCurrent(old(Now()))
    {
      log := log + [Visit(queues[cur].name)];
      queues := queues[cur := queues[cur].(deficit := queues[cur].deficit + QUANTUM)];
    }

    /** Serves the queue: 1 if the current queue sends at once, 0 if the turn had to move first. */
    method Dequeue() returns (r: int)
      requires Ready(queues, cur)
      modifies this
      ensures Now() == DeficitRoundRobin.Dequeue(old(Now()))
      ensures r == 1 <==> old(queues) != [] && Fits(old(queues)[old(cur)])
      ensures r == 1 || r == 0
      decreases |queues|, Lack(queues)
    {
      if queues == [] { return 0; }
      var q := queues[cur];
      if q.length != 0 && q.packets[0].size <= q.deficit {
        queues := queues[cur := q.(deficit := q.deficit - q.packets[0].size)];
        events := events + 1;
        log := log + [Schedule(q.packets[0])];
        return 1;
      }
      NextQueueIsCloser(Now());
      NextQueue();
      var inner := Dequeue();
      return 0;
    }

    /** The head of the current queue goes to the link. */
    method Transmit() returns (p: Packet)
      requires Steady(Now()) && queues != []
      modifies this
      ensures Now() == DeficitRoundRobin.Transmit(old(Now()))
      ensures p == old(queues[cur].packets[0])
    {
      var q := queues[cur];
      p := q.packets[0];
      length := length - p.size;
      events := events - 1;
      log := log + [Depart(p)];
      queues := queues[cur := q.(packets := q.packets[1..], length := q.length - p.size)];
    }

    /** What the node does when the scheduled departure happens. */
    method DequeuePacket() returns (p: Packet)
      requires Steady(Now()) && queues != []
      modifies this
      ensures Now() == Departure(old(Now()))
      ensures p == old(queues[cur].packets[0])
      ensures forall max: nat :: RoundRobinInvariant.Inv(old(Now()), max) ==> RoundRobinInvariant.Inv(Now(), max)
    {
      p := Transmit();
      TransmittedIsReady(old(Now()));
      var r := Dequeue();
      forall max: nat | RoundRobinInvariant.Inv(old(Now()), max) ensures RoundRobinInvariant.Inv(Now(), max) {
        RoundRobinInvariant.DepartureKeeps(old(Now()), max);
      }
    }

    method InsertQueue(name: string, at: nat)
      requires Find(queues, name) == |queues| && AllWaitButCurrent(Now())
      modifies this`queues, this`cur
      ensures Now() == WithQueue(old(Now()), name, at)
    {
      var k := Place(queues, at);
      if queues != [] && k <= cur { cur := cur + 1; }
      queues := queues[..k] + [NewQueue(name)] + queues[k..];
    }

    method PushBack(p: Packet)
      requires Find(queues, Flow(p)) < |queues|
      modifies this
      ensures Now() == AddPacket(old(Now()), p)
    {
      var i := Find(queues, Flow(p));
      queues := queues[i := queues[i].(packets := queues[i].packets + [p], length := queues[i].length + p.size)];
      length := length + p.size;
      log := log + [Arrive(p)];
    }

    method Start()
      requires queues != [] && Ready(queues, 0)
      modifies this
      ensures Now() == StartService(old(Now()))
    {
      cur := 0;
      IncrementDeficit();
      var r := Dequeue();
    }

    /** at is the place that the hash table finds for a flow it does not have yet. */
    method Enqueue(p: Packet, at: nat)
      requires Steady(Now()) && p.size > 0 && length + p.size <= limit
      modifies this
      ensures Now() == DeficitRoundRobin.Enqueue(old(Now()), p, at)
      ensures forall max: nat :: p.size <= max && RoundRobinInvariant.Inv(old(Now()), max) ==>
        RoundRobinInvariant.Inv(Now(), max)
    {
      EnqueueSteps(Now(), p, at);
      if Find(queues, Flow(p)) == |queues| {
        InsertQueue(Flow(p), at);
      }
      PushBack(p);
      if length == p.size {
        Start();
      }
      forall max: nat | p.size <= max && RoundRobinInvariant.Inv(old(Now()), max)
        ensures RoundRobinInvariant.Inv(Now(), max)
      {
        RoundRobinInvariant.EnqueueKeeps(old(Now()), p, at, max);
      }
    }
  }
}
