/**
 * A round of requests down the issuer's tree and answers up again: what a run of it does, that it ends, and
 * what the issuer knows in the end.
 */
module Convergecast {
  import opened Collections
  import opened BroadcastTree
  import opened RoutingNode

  /** The nodes, the messages on their way, and all messages that were ever sent. */
  datatype Net = Net(nodes: map<int, Node>, pool: multiset<Msg>, sent: multiset<Msg>)

  /** A round: the tree, its number, and the nodes as they are before it. */
  datatype Round = Round(t: Tree, k: nat, nodes: map<int, Node>)

  /** Every node of the tree is there and has an entry for each child; none waits for answers of this number. */
  ghost predicate Shaped(r: Round) {
    && r.nodes.Keys == r.t.parent.Keys && r.t.root in r.t.parent
    && (forall y :: y in r.nodes ==> r.nodes[y].pid == y && r.k !in r.nodes[y].responses)
    && forall y {:trigger r.t.parent[y]} :: y in r.t.parent && y != r.t.root ==>
         r.t.parent[y] in r.nodes && y in r.nodes[r.t.parent[y]].table
  }

  ghost predicate Ready(r: Round) {
    IsTree(r.t) && Shaped(r)
  }

  /** c is a child of y, and y has some filter for it and has not had too few messages for it. */
  ghost predicate Wants(r: Round, y: int, c: int) {
    && c in r.t.parent && c != r.t.root && r.t.parent[c] == y
    && y in r.nodes && c in r.nodes[y].table && r.nodes[y].table[c] != {} && c !in r.nodes[y].quiet
  }

  /** The children that the request should go to from y. */
  ghost function AskedBy(r: Round, y: int): set<int> {
    set c | c in r.t.parent && Wants(r, y, c)
  }

  /** The node asks just those. */
  lemma AsksWanted(r: Round, y: int)
    requires y in r.nodes && r.nodes[y].pid == y
    ensures Asked(r.nodes[y], r.t) == AskedBy(r, y)
  {
    var a, b := Asked(r.nodes[y], r.t), AskedBy(r, y);
    forall c ensures c in a <==> c in b {}
    SameSet(a, b);
  }

  ghost function Start(r: Round): Net
    requires r.t.root in r.nodes
  {
    var first := multiset(Requests(r.nodes[r.t.root], r.t, r.k));
    Net(r.nodes[r.t.root := Propagated(r.nodes[r.t.root], r.t, r.k)], first, first)
  }

  /** Some message of the round arrives, and the node there does what it does. */
  ghost predicate Step(r: Round, net: Net, m: Msg, next: Net) {
    && m in net.pool && m.to in net.nodes && !m.RA? && m.number == r.k
    && var n := net.nodes[m.to];
       var more := multiset(if m.SR? then AfterSR(n, r.t, r.k) else AfterUR(n, r.t, m.from, r.k, m.pred));
       var n' := if m.SR? then Propagated(n, r.t, r.k) else Answered(n, r.t, m.from, r.k, m.pred);
       next == Net(net.nodes[m.to := n'], net.pool - multiset{m} + more, net.sent + more)
  }

  /** The messages ms arrive one after the other, and lead from one state to the other. */
  ghost predicate Runs(r: Round, from: Net, ms: seq<Msg>, to: Net)
    decreases |ms|
  {
    if ms == [] then to == from
    else
      var before, m := ms[..|ms| - 1], ms[|ms| - 1];
      exists mid :: Runs(r, from, before, mid) && Step(r, mid, m, to)
  }

  // What the answers should be.

  /** Each node of the path asks the next one. */
  ghost predicate AskPath(r: Round, p: seq<int>) {
    |p| > 0 && forall i :: 0 <= i < |p| - 1 ==> AskHop(r, p, i)
  }

  ghost predicate AskHop(r: Round, p: seq<int>, i: nat)
    requires i + 1 < |p|
  {
    Wants(r, p[i], p[i + 1])
  }

  ghost predicate PathFrom(r: Round, y: int, z: int, p: seq<int>) {
    AskPath(r, p) && p[0] == y && p[|p| - 1] == z
  }

  /** z is y, or the request gets to z from y, each node asking the next one. */
  ghost predicate Reaches(r: Round, y: int, z: int) {
    exists p :: PathFrom(r, y, z, p)
  }

  /** The union of the local predicates of the nodes that the request reaches through y. */
  ghost function Goal(r: Round, y: int): Predicate {
    set z, f | z in r.nodes && Reaches(r, y, z) && f in r.nodes[z].local :: f
  }

  ghost function Goals(r: Round, s: set<int>): Predicate {
    set c, f | c in s && f in Goal(r, c) :: f
  }

  lemma ReachesItself(r: Round, y: int)
    ensures Reaches(r, y, y)
  {
    assert PathFrom(r, y, y, [y]);
  }

  lemma ReachesThroughChild(r: Round, y: int, z: int) returns (c: int)
    requires Reaches(r, y, z) && z != y
    ensures c in AskedBy(r, y) && Reaches(r, c, z)
  {
    var p :| PathFrom(r, y, z, p);
    assert AskHop(r, p, 0);
    c := p[1];
    var q := p[1..];
    forall i | 0 <= i < |q| - 1 ensures AskHop(r, q, i) {
      assert AskHop(r, p, i + 1);
    }
    assert PathFrom(r, c, z, q);
  }

  lemma ChildReaches(r: Round, y: int, c: int, z: int)
    requires c in AskedBy(r, y) && Reaches(r, c, z)
    ensures Reaches(r, y, z)
  {
    var q :| PathFrom(r, c, z, q);
    var p := [y] + q;
    forall i | 0 <= i < |p| - 1 ensures AskHop(r, p, i) {
      if i > 0 { assert AskHop(r, q, i - 1); }
    }
    assert PathFrom(r, y, z, p);
  }

  /** A node's answer is its own predicate and the answers of the children it asks. */
  lemma GoalSplits(r: Round, y: int)
    requires y in r.nodes
    ensures Goal(r, y) == r.nodes[y].local + Goals(r, AskedBy(r, y))
  {
    forall f | f in Goal(r, y) ensures f in r.nodes[y].local + Goals(r, AskedBy(r, y)) {
      var z :| z in r.nodes && Reaches(r, y, z) && f in r.nodes[z].local;
      if z != y {
        var c := ReachesThroughChild(r, y, z);
        assert f in Goal(r, c);
      }
    }
    forall f | f in Goals(r, AskedBy(r, y)) ensures f in Goal(r, y) {
      var c :| c in AskedBy(r, y) && f in Goal(r, c);
      var z :| z in r.nodes && Reaches(r, c, z) && f in r.nodes[z].local;
      ChildReaches(r, y, c, z);
    }
    ReachesItself(r, y);
  }

  lemma GoalsOneMore(r: Round, s: set<int>, c: int)
    ensures Goals(r, s + {c}) == Goals(r, s) + Goal(r, c)
  {
  }

  // The state of a round, told by the nodes that got the request and those whose answer has arrived.

  /** down holds the nodes that got the request, up those whose answer has arrived at their parent. */
  datatype Phase = Phase(down: set<int>, up: set<int>)

  /** The request was sent to y. */
  ghost predicate WasAsked(r: Round, ph: Phase, y: int) {
    && y in r.t.parent && y != r.t.root
    && y in AskedBy(r, r.t.parent[y]) && (r.t.parent[y] == r.t.root || r.t.parent[y] in ph.down)
  }

  /** y has answered: it got the request, and all children that it asked have answered. */
  ghost predicate HasAnswered(r: Round, ph: Phase, y: int) {
    y in ph.down && AskedBy(r, y) <= ph.up
  }

  ghost predicate Consistent(r: Round, ph: Phase) {
    && (forall y :: y in ph.down ==> WasAsked(r, ph, y))
    && forall y :: y in ph.up ==> HasAnswered(r, ph, y)
  }

  ghost predicate IsRequest(r: Round, m: Msg) {
    m.SR? && m.to in r.t.parent && m == SR(r.t.parent[m.to], m.to, r.k)
  }

  ghost predicate IsAnswer(r: Round, m: Msg) {
    m.UR? && m.from in r.t.parent && m == UR(m.from, r.t.parent[m.from], r.k, Goal(r, m.from))
  }

  ghost function SentTimes(r: Round, ph: Phase, m: Msg): nat {
    if (IsRequest(r, m) && WasAsked(r, ph, m.to)) || (IsAnswer(r, m) && HasAnswered(r, ph, m.from)) then 1 else 0
  }

  ghost function PoolTimes(r: Round, ph: Phase, m: Msg): nat {
    if (m.SR? && m.to in ph.down) || (m.UR? && m.from in ph.up) then 0 else SentTimes(r, ph, m)
  }

  ghost function NodeNow(r: Round, ph: Phase, y: int): Node
    requires y in r.nodes
  {
    var n := r.nodes[y];
    if y == r.t.root then
      n.(table := map c | c in n.table :: if c in AskedBy(r, y) && c in ph.up then Goal(r, c) else n.table[c])
    else if y in ph.down && !HasAnswered(r, ph, y) then
      n.(responses := n.responses[r.k := Response(AskedBy(r, y) - ph.up, Goals(r, AskedBy(r, y) * ph.up))])
    else n
  }

  ghost predicate NodesNow(r: Round, ph: Phase, now: map<int, Node>) {
    now.Keys == r.nodes.Keys && forall y :: y in r.nodes && y in now ==> now[y] == NodeNow(r, ph, y)
  }

  ghost predicate Inv(r: Round, ph: Phase, net: Net) {
    match net
    case Net(now, pool, sent) =>
      && Consistent(r, ph)
      && NodesNow(r, ph, now)
      && (forall m :: pool[m] == PoolTimes(r, ph, m))
      && forall m :: sent[m] == SentTimes(r, ph, m)
  }

  lemma AskedIsChild(r: Round, y: int, c: int)
    requires Shaped(r) && c in AskedBy(r, y)
    ensures c in r.t.parent && c != r.t.root && r.t.parent[c] == y && y in r.t.parent
  {
  }

  // A request arrives at y.

  ghost function Down(ph: Phase, y: int): Phase {
    Phase(ph.down + {y}, ph.up)
  }

  /** The children that y asks have not got the request before. */
  lemma ChildrenAreNew(r: Round, ph: Phase, y: int)
    requires Shaped(r) && Consistent(r, ph) && WasAsked(r, ph, y) && y !in ph.down
    ensures forall c :: c in AskedBy(r, y) ==> c !in ph.down && c !in ph.up && !WasAsked(r, ph, c)
  {
    forall c | c in AskedBy(r, y) ensures c !in ph.down && c !in ph.up && !WasAsked(r, ph, c) {
      AskedIsChild(r, y, c);
    }
  }

  lemma DownAsked(r: Round, ph: Phase, y: int, x: int)
    requires Shaped(r) && Consistent(r, ph) && WasAsked(r, ph, y) && y !in ph.down
    ensures WasAsked(r, Down(ph, y), x) <==> WasAsked(r, ph, x) || x in AskedBy(r, y)
    ensures HasAnswered(r, Down(ph, y), x) <==> HasAnswered(r, ph, x) || (x == y && AskedBy(r, y) == {})
  {
    ChildrenAreNew(r, ph, y);
    if x in AskedBy(r, y) { AskedIsChild(r, y, x); }
    if x == y && AskedBy(r, y) != {} {
      var c := Pick(AskedBy(r, y));
      assert c !in ph.up;
    }
  }

  lemma DownConsistent(r: Round, ph: Phase, y: int)
    requires Shaped(r) && Consistent(r, ph) && WasAsked(r, ph, y) && y !in ph.down
    ensures Consistent(r, Down(ph, y))
  {
    forall x | x in Down(ph, y).down ensures WasAsked(r, Down(ph, y), x) {
      DownAsked(r, ph, y, x);
    }
    forall x | x in ph.up ensures HasAnswered(r, Down(ph, y), x) {
      DownAsked(r, ph, y, x);
    }
  }

  lemma LeafGoal(r: Round, y: int)
    requires Shaped(r) && y in r.nodes && AskedBy(r, y) == {}
    ensures Goal(r, y) == r.nodes[y].local
  {
    GoalSplits(r, y);
  }

  lemma SentAfterSR(r: Round, ph: Phase, y: int, x: Msg)
    requires Shaped(r) && Consistent(r, ph) && WasAsked(r, ph, y) && y !in ph.down
    ensures SentTimes(r, Down(ph, y), x) ==
      SentTimes(r, ph, x) + (if x in AfterSR(r.nodes[y], r.t, r.k) then 1 else 0)
    ensures PoolTimes(r, Down(ph, y), x) ==
      (if x == SR(r.t.parent[y], y, r.k) then 0 else PoolTimes(r, ph, x))
      + (if x in AfterSR(r.nodes[y], r.t, r.k) then 1 else 0)
  {
    ChildrenAreNew(r, ph, y);
    AsksWanted(r, y);
    if AskedBy(r, y) == {} { LeafGoal(r, y); }
    if x.SR? {
      DownAsked(r, ph, y, x.to);
      if x.to in AskedBy(r, y) { AskedIsChild(r, y, x.to); }
    } else if x.UR? {
      DownAsked(r, ph, y, x.from);
    }
  }

  lemma NodeAfterSR(r: Round, ph: Phase, y: int)
    requires Shaped(r) && Consistent(r, ph) && WasAsked(r, ph, y) && y !in ph.down
    ensures NodeNow(r, ph, y) == r.nodes[y]
    ensures NodeNow(r, Down(ph, y), y) == Propagated(r.nodes[y], r.t, r.k)
  {
    ChildrenAreNew(r, ph, y);
    AsksWanted(r, y);
    DownAsked(r, ph, y, y);
    var asked := AskedBy(r, y);
    NoneUp(asked, ph.up);
    assert Goals(r, {}) == {};
    assert {} + asked == asked;
  }

  lemma NoneUp<T>(asked: set<T>, up: set<T>)
    requires forall c :: c in asked ==> c !in up
    ensures asked - up == asked && asked * up == {}
  {
  }

  lemma OthersAfterSR(r: Round, ph: Phase, y: int, x: int)
    requires Shaped(r) && Consistent(r, ph) && WasAsked(r, ph, y) && y !in ph.down && x in r.nodes && x != y
    ensures NodeNow(r, Down(ph, y), x) == NodeNow(r, ph, x)
  {
    DownAsked(r, ph, y, x);
  }

  lemma PoolAfterSR(r: Round, ph: Phase, y: int, pool: multiset<Msg>, sent: multiset<Msg>)
    requires Shaped(r) && Consistent(r, ph) && WasAsked(r, ph, y) && y !in ph.down
    requires forall x :: pool[x] == PoolTimes(r, ph, x)
    requires forall x :: sent[x] == SentTimes(r, ph, x)
    ensures var more := multiset(AfterSR(r.nodes[y], r.t, r.k)); var m := SR(r.t.parent[y], y, r.k);
      && (forall x :: (pool - multiset{m} + more)[x] == PoolTimes(r, Down(ph, y), x))
      && (forall x :: (sent + more)[x] == SentTimes(r, Down(ph, y), x))
  {
    var more, m := multiset(AfterSR(r.nodes[y], r.t, r.k)), SR(r.t.parent[y], y, r.k);
    assert PoolTimes(r, ph, m) == 1;
    forall x: Msg
      ensures (pool - multiset{m} + more)[x] == PoolTimes(r, Down(ph, y), x)
      ensures (sent + more)[x] == SentTimes(r, Down(ph, y), x)
    {
      SentAfterSR(r, ph, y, x);
      SetCount(AfterSR(r.nodes[y], r.t, r.k), x);
    }
  }

  lemma NodesAfterSR(r: Round, ph: Phase, y: int, now: map<int, Node>)
    requires Shaped(r) && Consistent(r, ph) && WasAsked(r, ph, y) && y !in ph.down && NodesNow(r, ph, now)
    ensures now[y] == r.nodes[y] && NodesNow(r, Down(ph, y), now[y := Propagated(r.nodes[y], r.t, r.k)])
  {
    NodeAfterSR(r, ph, y);
    var next := now[y := Propagated(r.nodes[y], r.t, r.k)];
    forall x | x in r.nodes && x in next ensures next[x] == NodeNow(r, Down(ph, y), x) {
      if x != y { OthersAfterSR(r, ph, y, x); }
    }
  }

  /** A request that arrives is new to its node, and the node passes it on or answers. */
  lemma RequestStep(r: Round, ph: Phase, net: Net, m: Msg, next: Net)
    requires Shaped(r) && Inv(r, ph, net) && Step(r, net, m, next) && m.SR?
    ensures m.to !in ph.down && m.to in r.t.parent && Inv(r, Down(ph, m.to), next)
  {
    assert net.pool[m] == PoolTimes(r, ph, m) > 0;
    NodesAfterSR(r, ph, m.to, net.nodes);
    DownConsistent(r, ph, m.to);
    PoolAfterSR(r, ph, m.to, net.pool, net.sent);
  }

  // An answer of y arrives at its parent.

  ghost function Up(ph: Phase, y: int): Phase {
    Phase(ph.down, ph.up + {y})
  }

  lemma UpAnswered(r: Round, ph: Phase, y: int, x: int)
    requires Shaped(r) && Consistent(r, ph) && HasAnswered(r, ph, y) && y !in ph.up
    ensures WasAsked(r, Up(ph, y), x) <==> WasAsked(r, ph, x)
    ensures HasAnswered(r, Up(ph, y), x) <==>
      HasAnswered(r, ph, x) || (x == r.t.parent[y] && x in ph.down && AskedBy(r, x) <= ph.up + {y})
    ensures HasAnswered(r, ph, x) && x == r.t.parent[y] ==> x == r.t.root
  {
    assert WasAsked(r, ph, y);
    if y in AskedBy(r, x) { AskedIsChild(r, x, y); }
  }

  lemma UpConsistent(r: Round, ph: Phase, y: int)
    requires Shaped(r) && Consistent(r, ph) && HasAnswered(r, ph, y) && y !in ph.up
    ensures Consistent(r, Up(ph, y))
  {
    forall x | x in ph.down ensures WasAsked(r, Up(ph, y), x) {
      UpAnswered(r, ph, y, x);
    }
    forall x | x in Up(ph, y).up ensures HasAnswered(r, Up(ph, y), x) {
      UpAnswered(r, ph, y, x);
    }
  }

  lemma RestOf(asked: set<int>, up: set<int>, y: int)
    requires y in asked && y !in up
    ensures asked - up - {y} == asked - (up + {y})
    ensures asked * (up + {y}) == asked * up + {y}
    ensures asked - up - {y} == {} <==> asked <= up + {y}
    ensures asked <= up + {y} ==> asked * up + {y} == asked
  {
    assert asked - up - {y} == asked - (up + {y});
    assert asked - (up + {y}) == {} <==> asked <= up + {y};
  }

  lemma PutAndDrop<K, V>(m: map<K, V>, k: K, v: V)
    requires k !in m
    ensures m[k := v] - {k} == m
  {
  }

  /** What the parent of y has collected, and what it answers when y was the last one it waited for. */
  lemma Collected(r: Round, ph: Phase, y: int)
    requires Shaped(r) && Consistent(r, ph) && HasAnswered(r, ph, y) && y !in ph.up && r.t.parent[y] != r.t.root
    ensures var p := r.t.parent[y]; var n := NodeNow(r, ph, p);
      && p in ph.down && !HasAnswered(r, ph, p) && y in AskedBy(r, p)
      && r.k in n.responses && y in n.responses[r.k].respondees
      && n.responses[r.k].pred + Goal(r, y) == Goals(r, AskedBy(r, p) * (ph.up + {y}))
      && n.responses[r.k].respondees - {y} == AskedBy(r, p) - (ph.up + {y})
      && (AskedBy(r, p) <= ph.up + {y} ==> n.responses[r.k].pred + Goal(r, y) + n.local == Goal(r, p))
  {
    var p := r.t.parent[y];
    assert WasAsked(r, ph, y);
    UpAnswered(r, ph, y, p);
    RestOf(AskedBy(r, p), ph.up, y);
    GoalsOneMore(r, AskedBy(r, p) * ph.up, y);
    GoalSplits(r, p);
  }

  lemma NodeAfterUR(r: Round, ph: Phase, y: int)
    requires Shaped(r) && Consistent(r, ph) && HasAnswered(r, ph, y) && y !in ph.up
    ensures var p := r.t.parent[y];
      p in r.nodes && NodeNow(r, Up(ph, y), p) == Answered(NodeNow(r, ph, p), r.t, y, r.k, Goal(r, y))
  {
    var p := r.t.parent[y];
    assert WasAsked(r, ph, y);
    UpAnswered(r, ph, y, p);
    if p == r.t.root {
      var a, b := NodeNow(r, Up(ph, y), p).table, NodeNow(r, ph, p).table[y := Goal(r, y)];
      assert y in r.nodes[p].table;
      assert a.Keys == b.Keys;
      SameMap(a, b);
    } else {
      Collected(r, ph, y);
      RestOf(AskedBy(r, p), ph.up, y);
      var n := r.nodes[p];
      PutAndDrop(n.responses, r.k, NodeNow(r, ph, p).responses[r.k]);
      SecondPut(n.responses, r.k, NodeNow(r, ph, p).responses[r.k],
        Response(AskedBy(r, p) - (ph.up + {y}), Goals(r, AskedBy(r, p) * (ph.up + {y}))));
    }
  }

  lemma SecondPut<K, V>(m: map<K, V>, k: K, v: V, w: V)
    ensures m[k := v][k := w] == m[k := w]
  {
  }

  /** The answers of y that its parent's own answer waits for. */
  lemma MoreAfterUR(r: Round, ph: Phase, y: int)
    requires Shaped(r) && Consistent(r, ph) && HasAnswered(r, ph, y) && y !in ph.up
    ensures var p := r.t.parent[y];
      && p in r.nodes && y in AskedBy(r, p) && (p == r.t.root || p in ph.down) && !HasAnswered(r, ph, p)
      && AfterUR(NodeNow(r, ph, p), r.t, y, r.k, Goal(r, y)) ==
           if p != r.t.root && AskedBy(r, p) <= ph.up + {y} then {UR(p, Parent(r.t, p), r.k, Goal(r, p))} else {}
  {
    var p := r.t.parent[y];
    assert WasAsked(r, ph, y);
    UpAnswered(r, ph, y, p);
    if p != r.t.root {
      Collected(r, ph, y);
      RestOf(AskedBy(r, p), ph.up, y);
    }
  }

  lemma SentAfterUR(r: Round, ph: Phase, y: int, x: Msg)
    requires Shaped(r) && Consistent(r, ph) && HasAnswered(r, ph, y) && y !in ph.up
    ensures r.t.parent[y] in r.nodes
    ensures var more := AfterUR(NodeNow(r, ph, r.t.parent[y]), r.t, y, r.k, Goal(r, y));
      && SentTimes(r, Up(ph, y), x) == SentTimes(r, ph, x) + (if x in more then 1 else 0)
      && PoolTimes(r, Up(ph, y), x) == (if x == UR(y, r.t.parent[y], r.k, Goal(r, y)) then 0 else PoolTimes(r, ph, x))
           + (if x in more then 1 else 0)
  {
    MoreAfterUR(r, ph, y);
    if x.SR? {
      UpAnswered(r, ph, y, x.to);
    } else if x.UR? {
      UpAnswered(r, ph, y, x.from);
    }
  }

  lemma OthersAfterUR(r: Round, ph: Phase, y: int, x: int)
    requires Shaped(r) && Consistent(r, ph) && HasAnswered(r, ph, y) && y !in ph.up
    requires x in r.nodes && x != r.t.parent[y]
    ensures NodeNow(r, Up(ph, y), x) == NodeNow(r, ph, x)
  {
    UpAnswered(r, ph, y, x);
    assert WasAsked(r, ph, y);
    if y in AskedBy(r, x) { AskedIsChild(r, x, y); }
    NotAmong(AskedBy(r, x), ph.up, y);
    if x == r.t.root {
      SameMap(NodeNow(r, Up(ph, y), x).table, NodeNow(r, ph, x).table);
    }
  }

  lemma NotAmong<T>(asked: set<T>, up: set<T>, y: T)
    requires y !in asked
    ensures asked - (up + {y}) == asked - up && asked * (up + {y}) == asked * up
  {
  }

  lemma PoolAfterUR(r: Round, ph: Phase, y: int, pool: multiset<Msg>, sent: multiset<Msg>)
    requires Shaped(r) && Consistent(r, ph) && HasAnswered(r, ph, y) && y !in ph.up && r.t.parent[y] in r.nodes
    requires forall x :: pool[x] == PoolTimes(r, ph, x)
    requires forall x :: sent[x] == SentTimes(r, ph, x)
    ensures var more := multiset(AfterUR(NodeNow(r, ph, r.t.parent[y]), r.t, y, r.k, Goal(r, y)));
      var m := UR(y, r.t.parent[y], r.k, Goal(r, y));
      && (forall x :: (pool - multiset{m} + more)[x] == PoolTimes(r, Up(ph, y), x))
      && (forall x :: (sent + more)[x] == SentTimes(r, Up(ph, y), x))
  {
    var s := AfterUR(NodeNow(r, ph, r.t.parent[y]), r.t, y, r.k, Goal(r, y));
    var more, m := multiset(s), UR(y, r.t.parent[y], r.k, Goal(r, y));
    assert PoolTimes(r, ph, m) == 1;
    forall x: Msg
      ensures (pool - multiset{m} + more)[x] == PoolTimes(r, Up(ph, y), x)
      ensures (sent + more)[x] == SentTimes(r, Up(ph, y), x)
    {
      SentAfterUR(r, ph, y, x);
      SetCount(s, x);
    }
  }

  lemma NodesAfterUR(r: Round, ph: Phase, y: int, now: map<int, Node>)
    requires Shaped(r) && Consistent(r, ph) && HasAnswered(r, ph, y) && y !in ph.up && NodesNow(r, ph, now)
    ensures var p := r.t.parent[y];
      && p in now && now[p] == NodeNow(r, ph, p)
      && NodesNow(r, Up(ph, y), now[p := Answered(now[p], r.t, y, r.k, Goal(r, y))])
  {
    var p := r.t.parent[y];
    NodeAfterUR(r, ph, y);
    var next := now[p := Answered(now[p], r.t, y, r.k, Goal(r, y))];
    forall x | x in r.nodes && x in next ensures next[x] == NodeNow(r, Up(ph, y), x) {
      if x != p { OthersAfterUR(r, ph, y, x); }
    }
  }

  /** An answer that arrives is the first one of its node, and its parent waits for it or is the issuer. */
  lemma AnswerStep(r: Round, ph: Phase, net: Net, m: Msg, next: Net)
    requires Shaped(r) && Inv(r, ph, net) && Step(r, net, m, next) && m.UR?
    ensures m.from !in ph.up && m.from in r.t.parent && Inv(r, Up(ph, m.from), next)
    ensures m.to == r.t.root ||
            (r.k in net.nodes[m.to].responses && m.from in net.nodes[m.to].responses[r.k].respondees)
  {
    assert net.pool[m] == PoolTimes(r, ph, m) > 0;
    var y := m.from;
    NodesAfterUR(r, ph, y, net.nodes);
    UpConsistent(r, ph, y);
    PoolAfterUR(r, ph, y, net.pool, net.sent);
    if m.to != r.t.root { Collected(r, ph, y); }
  }

  // Whole runs.

  lemma StartInv(r: Round)
    requires Shaped(r)
    ensures Inv(r, Phase({}, {}), Start(r))
  {
    var root, ph := r.nodes[r.t.root], Phase({}, {});
    SameMap(Start(r).nodes, r.nodes);
    SameMap(NodeNow(r, ph, r.t.root).table, root.table);
    forall m: Msg ensures Start(r).sent[m] == SentTimes(r, ph, m) == PoolTimes(r, ph, m) {
      SetCount(Requests(root, r.t, r.k), m);
    }
  }

  lemma StepInv(r: Round, ph: Phase, net: Net, m: Msg, next: Net) returns (after: Phase)
    requires Shaped(r) && Inv(r, ph, net) && Step(r, net, m, next)
    ensures Inv(r, after, next) && |after.down| + |after.up| == |ph.down| + |ph.up| + 1
  {
    if m.SR? {
      RequestStep(r, ph, net, m, next);
      OneMoreSize(ph.down, m.to);
      after := Down(ph, m.to);
    } else {
      AnswerStep(r, ph, net, m, next);
      OneMoreSize(ph.up, m.from);
      after := Up(ph, m.from);
    }
  }

  lemma {:induction false} RunInv(r: Round, ms: seq<Msg>, net: Net) returns (ph: Phase)
    requires Shaped(r) && Runs(r, Start(r), ms, net)
    ensures Inv(r, ph, net) && |ph.down| + |ph.up| == |ms|
    decreases |ms|
  {
    if ms == [] {
      StartInv(r);
      ph := Phase({}, {});
    } else {
      var before, m := ms[..|ms| - 1], ms[|ms| - 1];
      var mid :| Runs(r, Start(r), before, mid) && Step(r, mid, m, net);
      var ph' := RunInv(r, before, mid);
      ph := StepInv(r, ph', mid, m, net);
    }
  }

  /** A round ends: no run has more arrivals than two for each node. */
  lemma RoundEnds(r: Round, ms: seq<Msg>, net: Net)
    requires Ready(r) && Runs(r, Start(r), ms, net)
    ensures |ms| <= 2 * |r.t.parent|
  {
    var ph := RunInv(r, ms, net);
    assert ph.down <= r.t.parent.Keys by {
      forall y | y in ph.down ensures y in r.t.parent.Keys { assert WasAsked(r, ph, y); }
    }
    assert ph.up <= r.t.parent.Keys by {
      forall y | y in ph.up ensures y in r.t.parent.Keys { assert HasAnswered(r, ph, y); }
    }
    SubsetSize(ph.down, r.t.parent.Keys);
    SubsetSize(ph.up, r.t.parent.Keys);
  }

  lemma MessageInPool(r: Round, ph: Phase, net: Net, m: Msg)
    requires Shaped(r) && Inv(r, ph, net) && m in net.pool
    ensures m.to in net.nodes && !m.RA? && m.number == r.k
  {
    assert net.pool[m] == PoolTimes(r, ph, m) > 0;
    if m.UR? { assert WasAsked(r, ph, m.from); }
  }

  /** No run gets stuck: any message on its way can arrive. */
  lemma AnyMessageCanArrive(r: Round, ms: seq<Msg>, net: Net, m: Msg) returns (next: Net)
    requires Ready(r) && Runs(r, Start(r), ms, net) && m in net.pool
    ensures Step(r, net, m, next)
  {
    var ph := RunInv(r, ms, net);
    MessageInPool(r, ph, net, m);
    var n := net.nodes[m.to];
    var more := multiset(if m.SR? then AfterSR(n, r.t, r.k) else AfterUR(n, r.t, m.from, r.k, m.pred));
    var n' := if m.SR? then Propagated(n, r.t, r.k) else Answered(n, r.t, m.from, r.k, m.pred);
    next := Net(net.nodes[m.to := n'], net.pool - multiset{m} + more, net.sent + more);
  }

  /**
   * At every moment of a run: what a node has sent up is one answer at most, to its parent, with the whole of
   * what the request reached through it; and by then all children that it asked have sent theirs, and they arrived.
   */
  lemma AnswersComeLast(r: Round, ms: seq<Msg>, net: Net, m: Msg)
    requires Ready(r) && Runs(r, Start(r), ms, net) && m.UR? && m in net.sent
    ensures m.from in r.t.parent && m == UR(m.from, r.t.parent[m.from], r.k, Goal(r, m.from)) && net.sent[m] == 1
    ensures forall c :: c in AskedBy(r, m.from) ==> Arrived(r, net, c)
  {
    var ph := RunInv(r, ms, net);
    assert net.sent[m] == SentTimes(r, ph, m) > 0;
    forall c | c in AskedBy(r, m.from) ensures Arrived(r, net, c) {
      ArrivedNow(r, ph, net, c);
    }
  }

  lemma ArrivedNow(r: Round, ph: Phase, net: Net, c: int)
    requires Shaped(r) && Inv(r, ph, net) && c in ph.up
    ensures Arrived(r, net, c)
  {
    assert HasAnswered(r, ph, c) && WasAsked(r, ph, c);
    var a := UR(c, r.t.parent[c], r.k, Goal(r, c));
    assert net.sent[a] == SentTimes(r, ph, a) && net.pool[a] == PoolTimes(r, ph, a);
  }

  /** The answer of c was sent once and is no longer on its way. */
  ghost predicate Arrived(r: Round, net: Net, c: int) {
    c in r.t.parent &&
    var a := UR(c, r.t.parent[c], r.k, Goal(r, c)); net.sent[a] == 1 && net.pool[a] == 0
  }

  // When no message is left.

  ghost function Ancestors(t: Tree, y: int): (s: set<int>)
    requires IsTree(t) && y in t.parent
    ensures forall x :: x in s ==> x in t.parent && Depth(t, x) <= Depth(t, y)
    ensures |s| == Depth(t, y) + 1
    decreases Depth(t, y)
  {
    DepthStep(t, y);
    if y == t.root then {y}
    else
      var s := Ancestors(t, t.parent[y]);
      OneMoreSize(s, y);
      s + {y}
  }

  lemma DepthBound(t: Tree, y: int)
    requires IsTree(t) && y in t.parent
    ensures Depth(t, y) < |t.parent|
  {
    var s := Ancestors(t, y);
    assert s <= t.parent.Keys by {
      forall x | x in s ensures x in t.parent.Keys {}
    }
    SubsetSize(s, t.parent.Keys);
  }

  /** Every request and every answer has arrived. */
  ghost predicate AllArrived(r: Round, ph: Phase) {
    && (forall y :: WasAsked(r, ph, y) ==> y in ph.down)
    && forall y :: HasAnswered(r, ph, y) ==> y in ph.up
  }

  lemma NothingLeft(r: Round, ph: Phase, net: Net)
    requires Inv(r, ph, net) && net.pool == multiset{}
    ensures AllArrived(r, ph)
  {
    forall y | WasAsked(r, ph, y) ensures y in ph.down {
      assert PoolTimes(r, ph, SR(r.t.parent[y], y, r.k)) == 0;
    }
    forall y | HasAnswered(r, ph, y) ensures y in ph.up {
      assert WasAsked(r, ph, y);
      assert PoolTimes(r, ph, UR(y, r.t.parent[y], r.k, Goal(r, y))) == 0;
    }
  }

  lemma {:induction false} ReachedGotIt(r: Round, ph: Phase, p: seq<int>)
    requires Shaped(r) && AllArrived(r, ph) && AskPath(r, p) && p[0] == r.t.root && |p| > 1
    ensures p[|p| - 1] in ph.down
    decreases |p|
  {
    var n := |p| - 1;
    var q := p[..n];
    assert AskHop(r, p, n - 1);
    AskedIsChild(r, p[n - 1], p[n]);
    if n > 1 {
      forall i | 0 <= i < |q| - 1 ensures AskHop(r, q, i) { assert AskHop(r, p, i); }
      ReachedGotIt(r, ph, q);
    }
    assert WasAsked(r, ph, p[n]);
  }

  lemma {:induction false} GotItAnswered(r: Round, ph: Phase, y: int)
    requires Ready(r) && AllArrived(r, ph) && y in ph.down && y in r.t.parent
    ensures y in ph.up
    decreases |r.t.parent| - Depth(r.t, y)
  {
    DepthBound(r.t, y);
    forall c | c in AskedBy(r, y) ensures c in ph.up {
      AskedIsChild(r, y, c);
      DepthStep(r.t, c);
      DepthBound(r.t, c);
      assert WasAsked(r, ph, c);
      GotItAnswered(r, ph, c);
    }
    assert HasAnswered(r, ph, y);
  }

  /** Only nodes that the request reaches have got it. */
  lemma {:induction false} GotItReached(r: Round, ph: Phase, y: int)
    requires Ready(r) && Consistent(r, ph) && y in ph.down
    ensures y in r.t.parent && Reaches(r, r.t.root, y)
    decreases if y in r.t.parent then Depth(r.t, y) else 0
  {
    assert WasAsked(r, ph, y);
    var p := r.t.parent[y];
    assert Wants(r, p, y);
    if p == r.t.root {
      ReachesItself(r, p);
    } else {
      DepthStep(r.t, y);
      GotItReached(r, ph, p);
    }
    ReachesOneMore(r, r.t.root, p, y);
  }

  lemma ReachesOneMore(r: Round, x: int, y: int, c: int)
    requires Reaches(r, x, y) && Wants(r, y, c)
    ensures Reaches(r, x, c)
  {
    var p :| PathFrom(r, x, y, p);
    var q := p + [c];
    forall i | 0 <= i < |q| - 1 ensures AskHop(r, q, i) {
      if i < |p| - 1 { assert AskHop(r, p, i); }
    }
    assert PathFrom(r, x, c, q);
  }

  /** In the end a node of the tree has got the request exactly if it reaches it. */
  lemma GotItIff(r: Round, ph: Phase, y: int)
    requires Ready(r) && Consistent(r, ph) && AllArrived(r, ph) && y != r.t.root
    ensures y in ph.down <==> Reaches(r, r.t.root, y)
  {
    if y in ph.down {
      GotItReached(r, ph, y);
    } else if Reaches(r, r.t.root, y) {
      var p :| PathFrom(r, r.t.root, y, p);
      ReachedGotIt(r, ph, p);
    }
  }

  lemma SentIfWanted(r: Round, ph: Phase, y: int, c: int)
    requires IsRequest(r, SR(y, c, r.k)) && WasAsked(r, ph, c)
    ensures Wants(r, y, c) && (y == r.t.root || y in ph.down)
  {
  }

  lemma WantedIsSent(r: Round, ph: Phase, y: int, c: int)
    requires Wants(r, y, c) && (y == r.t.root || y in ph.down)
    ensures SentTimes(r, ph, SR(y, c, r.k)) == 1
  {
  }

  lemma RequestTimes(r: Round, ph: Phase, y: int, c: int)
    requires Ready(r) && Consistent(r, ph) && AllArrived(r, ph)
    ensures SentTimes(r, ph, SR(y, c, r.k)) == if Reaches(r, r.t.root, y) && Wants(r, y, c) then 1 else 0
  {
    if y == r.t.root { ReachesItself(r, y); } else { GotItIff(r, ph, y); }
    if Wants(r, y, c) && (y == r.t.root || y in ph.down) {
      WantedIsSent(r, ph, y, c);
    } else if SentTimes(r, ph, SR(y, c, r.k)) == 1 {
      SentIfWanted(r, ph, y, c);
    }
  }

  /** In the end the request has gone from y to c, and then once, exactly if it reached y, c is a child of y, and y
      had some filter for c and not too few messages for it. */
  lemma RequestsSent(r: Round, ms: seq<Msg>, net: Net, y: int, c: int)
    requires Ready(r) && Runs(r, Start(r), ms, net) && net.pool == multiset{}
    ensures net.sent[SR(y, c, r.k)] == if Reaches(r, r.t.root, y) && Wants(r, y, c) then 1 else 0
  {
    var ph := RunInv(r, ms, net);
    NothingLeft(r, ph, net);
    SentOf(r, ph, net, SR(y, c, r.k));
    RequestTimes(r, ph, y, c);
  }

  lemma SentOf(r: Round, ph: Phase, net: Net, m: Msg)
    requires Inv(r, ph, net)
    ensures Consistent(r, ph) && net.sent[m] == SentTimes(r, ph, m)
  {
  }

  /** In the end every node that the request reaches has answered its parent, exactly once, and the answer arrived. */
  lemma EveryNodeAnswersOnce(r: Round, ms: seq<Msg>, net: Net, y: int)
    requires Ready(r) && Runs(r, Start(r), ms, net) && net.pool == multiset{}
    requires Reaches(r, r.t.root, y) && y != r.t.root
    ensures Arrived(r, net, y)
    ensures y in net.nodes && y in r.nodes && net.nodes[y] == r.nodes[y]
  {
    var ph := RunInv(r, ms, net);
    NothingLeft(r, ph, net);
    var p :| PathFrom(r, r.t.root, y, p);
    ReachedGotIt(r, ph, p);
    assert WasAsked(r, ph, y);
    GotItAnswered(r, ph, y);
    ArrivedNow(r, ph, net, y);
    assert net.nodes[y] == NodeNow(r, ph, y);
  }

  /** The issuer's table at any moment: the answers that have arrived, and what it had before. */
  lemma IssuerTable(r: Round, ph: Phase, net: Net)
    requires Shaped(r) && Inv(r, ph, net)
    ensures r.t.root in net.nodes && net.nodes[r.t.root].table.Keys == r.nodes[r.t.root].table.Keys
    ensures net.nodes[r.t.root].local == r.nodes[r.t.root].local
    ensures net.nodes[r.t.root].responses == r.nodes[r.t.root].responses
    ensures forall c :: c in r.nodes[r.t.root].table ==>
      net.nodes[r.t.root].table[c] ==
        (if c in AskedBy(r, r.t.root) && c in ph.up then Goal(r, c) else r.nodes[r.t.root].table[c])
  {
    assert net.nodes[r.t.root] == NodeNow(r, ph, r.t.root);
  }

  lemma FirstAnswered(r: Round, ph: Phase, c: int)
    requires Ready(r) && AllArrived(r, ph) && c in AskedBy(r, r.t.root)
    ensures c in ph.up && c in r.nodes[r.t.root].table
  {
    AskedIsChild(r, r.t.root, c);
    assert WasAsked(r, ph, c);
    GotItAnswered(r, ph, c);
  }

  /**
   * In the end the issuer's predicate for each neighbour that it asked is the union of the local predicates of the
   * nodes that the request reached through it; the others stay as they were.
   */
  lemma IssuerKnowsAll(r: Round, ms: seq<Msg>, net: Net)
    requires Ready(r) && Runs(r, Start(r), ms, net) && net.pool == multiset{}
    ensures r.t.root in net.nodes && net.nodes[r.t.root].table.Keys == r.nodes[r.t.root].table.Keys
    ensures net.nodes[r.t.root].local == r.nodes[r.t.root].local
    ensures net.nodes[r.t.root].responses == r.nodes[r.t.root].responses
    ensures forall c :: c in AskedBy(r, r.t.root) ==> Learned(r, net, c)
    ensures forall c :: c in r.nodes[r.t.root].table && c !in AskedBy(r, r.t.root) ==>
      net.nodes[r.t.root].table[c] == r.nodes[r.t.root].table[c]
  {
    var ph := RunInv(r, ms, net);
    NothingLeft(r, ph, net);
    IssuerTable(r, ph, net);
    forall c | c in AskedBy(r, r.t.root) ensures Learned(r, net, c) {
      FirstAnswered(r, ph, c);
      GoalMembers(r, c);
    }
  }

  lemma GoalMembers(r: Round, c: int)
    ensures forall f :: f in Goal(r, c) <==> SomeNodeHas(r, c, f)
  {
  }

  /** A node that the request reaches through c has the filter. */
  ghost predicate SomeNodeHas(r: Round, c: int, f: Filter) {
    exists z :: z in r.nodes && Reaches(r, c, z) && f in r.nodes[z].local
  }

  /** The issuer's entry for c has a filter just if a node that the request reaches through c has it. */
  ghost predicate Learned(r: Round, net: Net, c: int) {
    && r.t.root in net.nodes && c in net.nodes[r.t.root].table
    && forall f :: f in net.nodes[r.t.root].table[c] <==> SomeNodeHas(r, c, f)
  }
}
