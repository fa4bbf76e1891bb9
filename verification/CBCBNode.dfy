/** The routing node as an object. Its packets go out as messages to a neighbour. */
module CBCBNode {
  import opened Collections
  import opened BroadcastTree
  import opened RoutingNode

  /** The destination of an advertisement for every node of the tree. */
  const ALL := -1

  class CBCBNode {
    const pid: int
    var local: Predicate
    /** The predicate of each neighbour. */
    var table: map<int, Predicate>
    var quiet: set<int>
    var responses: map<nat, Response>

    constructor (pid: int, neighbours: set<int>)
      ensures Now() == Node(pid, {}, map n | n in neighbours :: {}, {}, map[])
    {
      this.pid := pid;
      local, quiet, responses := {}, {}, map[];
      table := map n | n in neighbours :: {};
    }

    ghost function Now(): Node
      reads this
    {
      Node(pid, local, table, quiet, responses)
    }

    /** Adds a predicate to the one of a neighbour, unless that one covers it. An advertisement for one
        destination only is always reported as a change. */
    method UpdateRouteTable(from: int, pred: Predicate, dest: int) returns (changed: bool)
      requires from in table
      modifies this`table
      ensures Now() == Advertised(old(Now()), from, pred)
      ensures table == old(table)[from := old(table)[from] + pred]
      ensures changed <==> table != old(table) || dest != ALL
    {
      if pred <= table[from] && dest == ALL {
        assert table[from] + pred == table[from];
        assert table[from := table[from]] == table;
        return false;
      }
      table := table[from := table[from] + pred];
      assert pred <= old(table)[from] || table[from] != old(table)[from];
      return true;
    }

    method PropagateRA(t: Tree, pred: Predicate) returns (sent: seq<Msg>)
      ensures multiset(sent) == multiset(Forwards(Now(), t, pred))
    {
      sent := [];
      var todo := Children(t, pid);
      ghost var done: set<Msg> := {};
      while todo != {}
        invariant todo <= Children(t, pid) && multiset(sent) == multiset(done)
        invariant forall m :: m in done <==> m in Forwards(Now(), t, pred) && m.to !in todo
        decreases todo
      {
        var c := PickOne(todo);
        OneMore(done, RA(pid, c, pred));
        sent := sent + [RA(pid, c, pred)];
        done := done + {RA(pid, c, pred)};
        todo := todo - {c};
      }
      assert done == Forwards(Now(), t, pred);
    }

    method ProcessRA(t: Tree, from: int, pred: Predicate) returns (sent: seq<Msg>)
      requires from in table
      modifies this`table
      ensures Now() == Advertised(old(Now()), from, pred)
      ensures multiset(sent) == multiset(Forwards(old(Now()), t, pred))
    {
      var changed := UpdateRouteTable(from, pred, ALL);
      sent := PropagateRA(t, pred);
    }

    /** Sends a request to the children that may have something to say, and notes that they have to answer. */
    method PropagateSR(t: Tree, number: nat) returns (sent: seq<Msg>)
      requires Children(t, pid) <= table.Keys
      modifies this`responses
      ensures Now() == Propagated(old(Now()), t, number)
      ensures multiset(sent) == multiset(Requests(old(Now()), t, number))
      ensures sent == [] <==> Asked(old(Now()), t) == {}
    {
      sent := [];
      var todo := Children(t, pid);
      ghost var all := Asked(Now(), t);
      AskedChildren(Now(), t);
      while todo != {}
        invariant todo <= Children(t, pid)
        invariant multiset(sent) == multiset(RequestsTo(pid, all - todo, number))
        invariant sent == [] <==> all - todo == {}
        invariant Now() == Noted(old(Now()), t, number, all - todo)
        decreases todo
      {
        var c := PickOne(todo);
        if table[c] != {} && c !in quiet {
          OneMoreRequest(pid, all, todo, c, number);
          NotedOneMore(old(Now()), t, number, all, todo, c);
          sent := sent + [SR(pid, c, number)];
          Note(t, c, number);
        } else {
          SkipOne(all, todo, c);
        }
        todo := todo - {c};
      }
      AllAsked(all, todo);
    }

    /** A request goes on to the children; a node with nobody to ask answers its parent at once. */
    method ProcessSR(t: Tree, number: nat) returns (sent: seq<Msg>)
      requires Children(t, pid) <= table.Keys
      modifies this`responses
      ensures Now() == Propagated(old(Now()), t, number)
      ensures multiset(sent) == multiset(AfterSR(old(Now()), t, number))
    {
      sent := PropagateSR(t, number);
      if sent == [] {
        sent := [UR(pid, Parent(t, pid), number, local)];
      }
    }

    /** An answer: the issuer takes it as the sender's predicate, any other node collects it for its own answer. */
    method ProcessUR(t: Tree, from: int, number: nat, pred: Predicate) returns (sent: seq<Msg>)
      requires pid != t.root && number in responses ==> from in responses[number].respondees
      modifies this`table, this`responses
      ensures Now() == Answered(old(Now()), t, from, number, pred)
      ensures multiset(sent) == multiset(AfterUR(old(Now()), t, from, number, pred))
    {
      sent := [];
      if t.root == pid {
        table := table[from := pred];
      } else if number in responses {
        var r := responses[number];
        r := Response(r.respondees - {from}, r.pred + pred);
        if r.respondees == {} {
          r := r.(pred := r.pred + local);
          sent := [UR(pid, Parent(t, pid), number, r.pred)];
          responses := responses - {number};
        } else {
          responses := responses[number := r];
        }
      }
    }

    method Note(t: Tree, c: int, number: nat)
      modifies this`responses
      ensures Now() == Noted(old(Now()), t, number, {c})
    {
      if t.root != pid {
        var r := if number in responses then responses[number] else Response({}, {});
        responses := responses[number := r.(respondees := r.respondees + {c})];
      }
    }
  }

  ghost function RequestsTo(pid: int, s: set<int>, number: nat): set<Msg> {
    set c | c in s :: SR(pid, c, number)
  }

  lemma AskedChildren(n: Node, t: Tree)
    ensures Asked(n, t) - Children(t, n.pid) == {}
  {
  }

  lemma SkipOne(all: set<int>, todo: set<int>, c: int)
    requires c !in all
    ensures all - (todo - {c}) == all - todo
  {
  }

  lemma AllAsked(all: set<int>, todo: set<int>)
    requires todo == {}
    ensures all - todo == all
  {
  }

  lemma OneMoreRequest(pid: int, all: set<int>, todo: set<int>, c: int, number: nat)
    requires c in all && c in todo
    ensures var m := SR(pid, c, number);
      multiset(RequestsTo(pid, all - (todo - {c}), number)) ==
      multiset(RequestsTo(pid, all - todo, number)) + multiset{m}
  {
    var a, m := RequestsTo(pid, all - todo, number), SR(pid, c, number);
    OneMore(a, m);
    assert RequestsTo(pid, all - (todo - {c}), number) == a + {m};
  }

  lemma NotedOneMore(n: Node, t: Tree, number: nat, all: set<int>, todo: set<int>, c: int)
    requires c in all && c in todo
    ensures Noted(Noted(n, t, number, all - todo), t, number, {c}) == Noted(n, t, number, all - (todo - {c}))
    ensures all - (todo - {c}) != {}
  {
    assert all - (todo - {c}) == (all - todo) + {c};
    if all - todo == {} { assert all - (todo - {c}) == {c}; }
    if n.pid != t.root && all - todo != {} {
      var r := ResponseOf(n, number);
      var r' := r.(respondees := r.respondees + (all - todo));
      var r'' := r'.(respondees := r'.respondees + {c});
      assert r'.respondees + {c} == r.respondees + (all - (todo - {c}));
      assert n.responses[number := r'][number := r''] == n.responses[number := r''];
    }
  }

  /** The node when it has noted some of the children it asks. */
  ghost function Noted(n: Node, t: Tree, number: nat, asked: set<int>): Node {
    if n.pid == t.root || asked == {} then n
    else
      var r := ResponseOf(n, number);
      n.(responses := n.responses[number := r.(respondees := r.respondees + asked)])
  }
}
