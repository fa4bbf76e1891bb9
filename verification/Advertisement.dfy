/** The flood of an advertisement down the issuer's tree: which nodes it reaches, how often, and what it
    leaves there. */
module Advertisement {
  import opened Collections
  import opened BroadcastTree
  import opened RoutingNode

  /** The nodes, the messages on their way, and how often each node has got the advertisement. */
  datatype Net = Net(nodes: map<int, Node>, pool: multiset<Msg>, got: multiset<int>)

  /** Every node of the tree is there and has an entry for each neighbour in the tree. */
  ghost predicate Shaped(t: Tree, nodes: map<int, Node>) {
    match t
    case Tree(root, parent) =>
      && nodes.Keys == parent.Keys && root in parent && parent[root] == root
      && (forall y :: y in nodes ==> nodes[y].pid == y)
      && forall y {:trigger Linked(t, nodes, y)} :: y in parent && y != root ==> Linked(t, nodes, y)
  }

  /** y and its parent have entries for each other. */
  ghost predicate Linked(t: Tree, nodes: map<int, Node>, y: int)
    requires y in t.parent && y in nodes
  {
    var p := t.parent[y]; p in nodes && p in nodes[y].table && y in nodes[p].table
  }

  ghost predicate Placed(t: Tree, nodes: map<int, Node>) {
    match t
    case Tree(_, _) => IsTree(t) && Shaped(t, nodes)
  }

  /** The issuer sends its predicate to its children. */
  ghost function Start(t: Tree, nodes: map<int, Node>, pred: Predicate): Net
    requires t.root in nodes
  {
    Net(nodes, multiset(Forwards(nodes[t.root], t, pred)), multiset{})
  }

  /** Some message arrives. */
  ghost predicate Step(t: Tree, net: Net, m: Msg, next: Net) {
    && m in net.pool && m.RA? && m.to in net.nodes && m.from in net.nodes[m.to].table
    && next == Net(net.nodes[m.to := Advertised(net.nodes[m.to], m.from, m.pred)],
                   net.pool - multiset{m} + multiset(Forwards(net.nodes[m.to], t, m.pred)),
                   net.got + multiset{m.to})
  }

  /** The messages ms arrive one after the other, and lead from one state to the other. */
  ghost predicate Runs(t: Tree, from: Net, ms: seq<Msg>, to: Net)
    decreases |ms|
  {
    if ms == [] then to == from
    else
      var before, m := ms[..|ms| - 1], ms[|ms| - 1];
      exists mid :: Runs(t, from, before, mid) && Step(t, mid, m, to)
  }

  ghost function InTransit(t: Tree, pred: Predicate, done: set<int>, m: Msg): nat {
    if m.RA? && m.to in t.parent && m.to != t.root && m.to !in done && t.parent[m.to] in done
       && m == RA(t.parent[m.to], m.to, pred) then 1 else 0
  }

  ghost predicate Closed(t: Tree, done: set<int>) {
    t.root in done && done <= t.parent.Keys &&
    forall y {:trigger t.parent[y]} :: y in done && y in t.parent ==> t.parent[y] in done
  }

  /** A node of the tree, once the advertisement has reached it. */
  ghost function Reached(t: Tree, n: Node, pred: Predicate): Node {
    if n.pid in t.parent && t.parent[n.pid] in n.table then Advertised(n, t.parent[n.pid], pred) else n
  }

  ghost predicate NodesAfter(t: Tree, nodes: map<int, Node>, pred: Predicate, now: map<int, Node>, done: set<int>) {
    && now.Keys == nodes.Keys
    && forall y :: y in nodes && y in now ==>
         now[y] == if y in done && y != t.root then Reached(t, nodes[y], pred) else nodes[y]
  }

  /** done holds the issuer and the nodes that were reached: each once, with a message to each child still to come. */
  ghost predicate Inv(t: Tree, nodes: map<int, Node>, pred: Predicate, net: Net, done: set<int>) {
    match net
    case Net(now, pool, got) =>
      && Closed(t, done)
      && (forall m :: pool[m] == InTransit(t, pred, done, m))
      && (forall y :: got[y] == if y in done && y != t.root then 1 else 0)
      && NodesAfter(t, nodes, pred, now, done)
  }

  lemma StartInv(t: Tree, nodes: map<int, Node>, pred: Predicate)
    requires Shaped(t, nodes)
    ensures Inv(t, nodes, pred, Start(t, nodes, pred), {t.root})
  {
    var net := Start(t, nodes, pred);
    forall m: Msg ensures net.pool[m] == InTransit(t, pred, {t.root}, m) {
      SetCount(Forwards(nodes[t.root], t, pred), m);
      ForwardsTo(t, nodes[t.root], pred, m);
    }
  }

  lemma ForwardsTo(t: Tree, n: Node, pred: Predicate, m: Msg)
    ensures m in Forwards(n, t, pred) <==>
      m.RA? && m.to in t.parent && m.to != t.root && t.parent[m.to] == n.pid && m == RA(n.pid, m.to, pred)
  {
  }

  /** What a message in transit leads to: a node of the tree that was not reached yet, from its parent. */
  lemma MessageIsNew(t: Tree, nodes: map<int, Node>, pred: Predicate, net: Net, done: set<int>, m: Msg)
    requires Shaped(t, nodes) && Inv(t, nodes, pred, net, done) && m in net.pool
    ensures InTransit(t, pred, done, m) == 1 && net.nodes[m.to] == nodes[m.to]
    ensures t.parent[m.to] in nodes[m.to].table
  {
    assert net.pool[m] > 0;
    assert Linked(t, nodes, m.to);
  }

  lemma PoolAfter(t: Tree, pred: Predicate, done: set<int>, n: Node, m: Msg, x: Msg)
    requires InTransit(t, pred, done, m) == 1 && n.pid == m.to && Closed(t, done)
    ensures InTransit(t, pred, done + {m.to}, x) ==
      (if x == m then 0 else InTransit(t, pred, done, x)) + (if x in Forwards(n, t, pred) then 1 else 0)
    ensures m !in Forwards(n, t, pred)
  {
    ForwardsTo(t, n, pred, x);
    ForwardsTo(t, n, pred, m);
  }

  lemma PoolStep(t: Tree, pred: Predicate, done: set<int>, n: Node, m: Msg, pool: multiset<Msg>)
    requires InTransit(t, pred, done, m) == 1 && n.pid == m.to && Closed(t, done)
    requires forall x :: pool[x] == InTransit(t, pred, done, x)
    ensures var next := pool - multiset{m} + multiset(Forwards(n, t, pred));
      forall x :: next[x] == InTransit(t, pred, done + {m.to}, x)
  {
    var next := pool - multiset{m} + multiset(Forwards(n, t, pred));
    forall x: Msg ensures next[x] == InTransit(t, pred, done + {m.to}, x) {
      PoolAfter(t, pred, done, n, m, x);
      SetCount(Forwards(n, t, pred), x);
    }
  }

  lemma NodesStep(t: Tree, nodes: map<int, Node>, pred: Predicate, now: map<int, Node>, done: set<int>, y: int)
    requires NodesAfter(t, nodes, pred, now, done) && y in nodes && y in t.parent && y != t.root && y !in done
    requires nodes[y].pid == y && t.parent[y] in nodes[y].table
    ensures now[y] == nodes[y]
    ensures NodesAfter(t, nodes, pred, now[y := Advertised(now[y], t.parent[y], pred)], done + {y})
  {
  }

  lemma ClosedStep(t: Tree, done: set<int>, y: int)
    requires Closed(t, done) && y in t.parent && t.parent[y] in done
    ensures Closed(t, done + {y})
  {
  }

  lemma GotStep(t: Tree, got: multiset<int>, done: set<int>, y: int)
    requires y !in done && y != t.root && forall x :: got[x] == if x in done && x != t.root then 1 else 0
    ensures forall x :: (got + multiset{y})[x] == if x in done + {y} && x != t.root then 1 else 0
  {
  }

  /** Each message that arrives reaches one node more. */
  lemma StepInv(t: Tree, nodes: map<int, Node>, pred: Predicate, net: Net, m: Msg, next: Net, done: set<int>)
    requires Shaped(t, nodes) && Inv(t, nodes, pred, net, done) && Step(t, net, m, next)
    ensures Inv(t, nodes, pred, next, done + {m.to}) && m.to in t.parent && m.to !in done
  {
    MessageIsNew(t, nodes, pred, net, done, m);
    PoolStep(t, pred, done, net.nodes[m.to], m, net.pool);
    NodesStep(t, nodes, pred, net.nodes, done, m.to);
    ClosedStep(t, done, m.to);
    GotStep(t, net.got, done, m.to);
  }

  lemma {:induction false} RunInv(t: Tree, nodes: map<int, Node>, pred: Predicate, ms: seq<Msg>, net: Net)
    returns (done: set<int>)
    requires Shaped(t, nodes) && Runs(t, Start(t, nodes, pred), ms, net)
    ensures Inv(t, nodes, pred, net, done) && |done| == |ms| + 1
    decreases |ms|
  {
    if ms == [] {
      StartInv(t, nodes, pred);
      done := {t.root};
    } else {
      var before, m := ms[..|ms| - 1], ms[|ms| - 1];
      var mid :| Runs(t, Start(t, nodes, pred), before, mid) && Step(t, mid, m, net);
      done := RunInv(t, nodes, pred, before, mid);
      StepInv(t, nodes, pred, mid, m, net, done);
      OneMoreSize(done, m.to);
      done := done + {m.to};
    }
  }

  /** No run gets stuck: any message on its way can arrive. */
  lemma AnyMessageCanArrive(t: Tree, nodes: map<int, Node>, pred: Predicate, ms: seq<Msg>, net: Net, m: Msg)
    returns (next: Net)
    requires Shaped(t, nodes) && Runs(t, Start(t, nodes, pred), ms, net) && m in net.pool
    ensures Step(t, net, m, next)
  {
    var done := RunInv(t, nodes, pred, ms, net);
    MessageIsNew(t, nodes, pred, net, done, m);
    next := Net(net.nodes[m.to := Advertised(net.nodes[m.to], m.from, m.pred)],
                net.pool - multiset{m} + multiset(Forwards(net.nodes[m.to], t, m.pred)), net.got + multiset{m.to});
  }

  /** The flood ends: no run is longer than the number of nodes beyond the issuer. */
  lemma FloodEnds(t: Tree, nodes: map<int, Node>, pred: Predicate, ms: seq<Msg>, net: Net)
    requires Shaped(t, nodes) && Runs(t, Start(t, nodes, pred), ms, net)
    ensures |ms| < |t.parent|
  {
    var done := RunInv(t, nodes, pred, ms, net);
    SubsetSize(done, t.parent.Keys);
  }

  lemma {:induction false} EmptyPoolReached(t: Tree, nodes: map<int, Node>, pred: Predicate, net: Net,
                                             done: set<int>, y: int)
    requires Placed(t, nodes) && Inv(t, nodes, pred, net, done) && net.pool == multiset{} && y in t.parent
    ensures y in done
    decreases Depth(t, y)
  {
    if y != t.root {
      DepthStep(t, y);
      EmptyPoolReached(t, nodes, pred, net, done, t.parent[y]);
      assert net.pool[RA(t.parent[y], y, pred)] == 0;
    }
  }

  /** What the flood adds to the entry of y for its neighbour c. */
  ghost function Added(t: Tree, pred: Predicate, y: int, c: int): Predicate {
    if y in t.parent && y != t.root && c == t.parent[y] then pred else {}
  }

  /** Every entry has what it had before, and the entries for the parents have the predicate as well. */
  ghost predicate EntriesGrown(t: Tree, before: map<int, Node>, pred: Predicate, after: map<int, Node>) {
    match t
    case Tree(_, _) =>
      && after.Keys == before.Keys
      && forall y {:trigger EntriesOf(t, before[y], pred, after[y], y)} ::
           y in before && y in after ==> EntriesOf(t, before[y], pred, after[y], y)
  }

  ghost predicate EntriesOf(t: Tree, n: Node, pred: Predicate, after: Node, y: int) {
    match after
    case Node(pid, local, table, quiet, responses) =>
      && pid == n.pid && local == n.local && quiet == n.quiet && responses == n.responses
      && table.Keys == n.table.Keys
      && forall c :: c in n.table && c in table ==> table[c] == n.table[c] + Added(t, pred, y, c)
  }

  /** When no message is left, the flood has added the predicate to the entries for the parents, and has neither
      taken a filter away nor changed anything else. */
  lemma FloodOnlyAdds(t: Tree, nodes: map<int, Node>, pred: Predicate, ms: seq<Msg>, net: Net)
    requires Placed(t, nodes) && Runs(t, Start(t, nodes, pred), ms, net) && net.pool == multiset{}
    ensures EntriesGrown(t, nodes, pred, net.nodes)
  {
    var done := RunInv(t, nodes, pred, ms, net);
    forall y | y in nodes ensures y in done {
      EmptyPoolReached(t, nodes, pred, net, done, y);
    }
    AllReachedGrown(t, nodes, pred, net.nodes, done);
  }

  lemma AllReachedGrown(t: Tree, nodes: map<int, Node>, pred: Predicate, now: map<int, Node>, done: set<int>)
    requires Shaped(t, nodes) && NodesAfter(t, nodes, pred, now, done) && forall y :: y in nodes ==> y in done
    ensures EntriesGrown(t, nodes, pred, now)
  {
    forall y | y in nodes && y in now ensures EntriesOf(t, nodes[y], pred, now[y], y) {
      if y != t.root { assert Linked(t, nodes, y); }
      ReachedEntries(t, nodes[y], pred, y);
    }
  }

  lemma ReachedEntries(t: Tree, n: Node, pred: Predicate, y: int)
    requires n.pid == y && y in t.parent && (y != t.root ==> t.parent[y] in n.table)
    ensures EntriesOf(t, n, pred, if y != t.root then Reached(t, n, pred) else n, y)
  {
    forall c | c in n.table && c != t.parent[y] ensures n.table[c] + Added(t, pred, y, c) == n.table[c] {}
  }

  /**
   * When no message is left, every node beyond the issuer has got the advertisement exactly once, and its entry
   * for its parent in the tree covers the predicate.
   */
  lemma FloodReachesAll(t: Tree, nodes: map<int, Node>, pred: Predicate, ms: seq<Msg>, net: Net, y: int)
    requires Placed(t, nodes) && Runs(t, Start(t, nodes, pred), ms, net)
    requires net.pool == multiset{} && y in t.parent && y != t.root
    ensures net.got[y] == 1
    ensures y in net.nodes && t.parent[y] in net.nodes[y].table && pred <= net.nodes[y].table[t.parent[y]]
  {
    var done := RunInv(t, nodes, pred, ms, net);
    EmptyPoolReached(t, nodes, pred, net, done, y);
    FloodOnlyAdds(t, nodes, pred, ms, net);
    assert Linked(t, nodes, y);
    assert EntriesOf(t, nodes[y], pred, net.nodes[y], y);
  }

  lemma StaysShaped(t: Tree, u: Tree, nodes: map<int, Node>, pred: Predicate, now: map<int, Node>)
    requires EntriesGrown(t, nodes, pred, now) && Shaped(u, nodes)
    ensures Shaped(u, now)
  {
    forall y | y in nodes ensures now[y].pid == nodes[y].pid && now[y].table.Keys == nodes[y].table.Keys {
      assert EntriesOf(t, nodes[y], pred, now[y], y);
    }
    forall y | y in u.parent && y != u.root ensures Linked(u, now, y) {
      assert Linked(u, nodes, y);
    }
  }

  /** A route that is there stays there. */
  lemma StillLeads(t: Tree, nodes: map<int, Node>, pred: Predicate, now: map<int, Node>, p: Predicate, y: int, c: int)
    requires EntriesGrown(t, nodes, pred, now) && Leads(nodes, p, y, c)
    ensures Leads(now, p, y, c)
  {
    assert EntriesOf(t, nodes[y], pred, now[y], y);
  }

  lemma LeadsAfter(t: Tree, nodes: map<int, Node>, p: Predicate, ms: seq<Msg>, net: Net, y: int)
    requires Placed(t, nodes) && Runs(t, Start(t, nodes, p), ms, net) && net.pool == multiset{}
    requires y in t.parent && y != t.root
    ensures Leads(net.nodes, p, y, t.parent[y])
  {
    FloodReachesAll(t, nodes, p, ms, net, y);
  }

  lemma LeadsStill(t: Tree, nodes: map<int, Node>, pred: Predicate, ms: seq<Msg>, net: Net,
                   p: Predicate, y: int, c: int)
    requires Placed(t, nodes) && Runs(t, Start(t, nodes, pred), ms, net) && net.pool == multiset{}
    requires Leads(nodes, p, y, c)
    ensures Leads(net.nodes, p, y, c)
  {
    FloodOnlyAdds(t, nodes, pred, ms, net);
    StillLeads(t, nodes, pred, net.nodes, p, y, c);
  }

  /** An advertisement does not cost another one its route: after two floods, of the same issuer or of two, every
      node leads toward each issuer with its predicate. */
  lemma FloodsAddUp(t: Tree, u: Tree, nodes: map<int, Node>, p: Predicate, q: Predicate,
                    ms: seq<Msg>, mid: Net, ns: seq<Msg>, net: Net, y: int)
    requires Placed(t, nodes) && Placed(u, nodes)
    requires Runs(t, Start(t, nodes, p), ms, mid) && mid.pool == multiset{}
    requires u.root in mid.nodes && Runs(u, Start(u, mid.nodes, q), ns, net) && net.pool == multiset{}
    ensures y in t.parent && y != t.root ==> Leads(net.nodes, p, y, t.parent[y])
    ensures y in u.parent && y != u.root ==> Leads(net.nodes, q, y, u.parent[y])
  {
    FloodOnlyAdds(t, nodes, p, ms, mid);
    StaysShaped(t, u, nodes, p, mid.nodes);
    if y in t.parent && y != t.root {
      LeadsAfter(t, nodes, p, ms, mid, y);
      LeadsStill(u, mid.nodes, q, ns, net, p, y, t.parent[y]);
    }
    if y in u.parent && y != u.root {
      LeadsAfter(u, mid.nodes, q, ns, net, y);
    }
  }

  /** From any node, the entries that cover the predicate lead hop by hop to the issuer. */
  lemma RouteLeadsToIssuer(t: Tree, nodes: map<int, Node>, pred: Predicate, ms: seq<Msg>, net: Net, y: int)
    returns (w: seq<int>)
    requires Placed(t, nodes) && Runs(t, Start(t, nodes, pred), ms, net)
    requires net.pool == multiset{} && y in t.parent
    ensures |w| > 0 && w[0] == y && w[|w| - 1] == t.root
    ensures forall i :: 0 <= i < |w| - 1 ==> Leads(net.nodes, pred, w[i], w[i + 1])
  {
    w := ChainOf(t, y);
    forall i | 0 <= i < |w| - 1 ensures Leads(net.nodes, pred, w[i], w[i + 1]) {
      FloodReachesAll(t, nodes, pred, ms, net, w[i]);
    }
  }

  ghost predicate Leads(nodes: map<int, Node>, pred: Predicate, from: int, to: int) {
    from in nodes && to in nodes[from].table && pred <= nodes[from].table[to]
  }
}
