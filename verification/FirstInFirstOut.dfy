/** The first-in first-out output queue. */
module FirstInFirstOut {
  import opened DeficitRoundRobin

  class FIFO {
    const limit: nat
    var packets: seq<Packet>
    var length: nat
    /** Departures that are scheduled and have not happened yet. */
    var events: nat
    ghost var accepted: seq<Packet>
    ghost var departed: seq<Packet>

    /**
     * Exactly one departure is outstanding while there is a packet; the length is that of the packets and
     * within the limit; accepted packets leave in the order they came.
     */
    ghost predicate Valid()
      reads this
    {
      && events == (if packets == [] then 0 else 1)
      && InOrder()
    }

    ghost predicate InOrder()
      reads this
    {
      && length == Sum(packets) <= limit
      && (forall p :: p in packets ==> p.size > 0)
      && accepted == departed + packets
    }

    constructor (limit: nat)
      ensures Valid() && this.limit == limit && packets == [] && accepted == departed == []
    {
      this.limit := limit;
      packets, length, events, accepted, departed := [], 0, 0, [], [];
    }

    /** A packet that does not fit is dropped and changes nothing; any other goes to the end. */
    method Enqueue(p: Packet) returns (r: int)
      requires Valid() && p.size > 0
      modifies this
      ensures Valid()
      ensures r == (if old(length) + p.size > limit then 0 else 1)
      ensures packets == (if r == 0 then old(packets) else old(packets) + [p])
      ensures accepted == (if r == 0 then old(accepted) else old(accepted) + [p])
      ensures departed == old(departed)
    {
      if length + p.size > limit { return 0; }
      SumAppend(packets, p);
      SumPositive(packets);
      packets := packets + [p];
      length := length + p.size;
      accepted := accepted + [p];
      if length == p.size {
        r := Dequeue();
      } else {
        r := 1;
      }
    }

    method Transmit()
      requires Valid() && packets != []
      modifies this
      ensures InOrder() && events == 0
      ensures packets == old(packets[1..]) && accepted == old(accepted)
      ensures departed == old(departed) + [old(packets[0])]
    {
      assert packets == [packets[0]] + packets[1..];
      assert forall p :: p in packets[1..] ==> p in packets;
      events := events - 1;
      length := length - packets[0].size;
      departed := departed + [packets[0]];
      packets := packets[1..];
    }

    method Dequeue() returns (r: int)
      requires InOrder() && events == 0
      modifies this`events
      ensures Valid() && r == (if packets == [] then 0 else 1)
    {
      if |packets| == 0 { return 0; }
      events := events + 1;
      return 1;
    }

    /** What the node does when the scheduled departure happens. */
    method DequeuePacket()
      requires Valid() && packets != []
      modifies this
      ensures Valid()
      ensures packets == old(packets[1..]) && accepted == old(accepted)
      ensures departed == old(departed) + [old(packets[0])]
    {
      Transmit();
      var r := Dequeue();
    }
  }
}
