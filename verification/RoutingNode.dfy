/**
 * A routing node: its predicates for each neighbour, and what it does with advertisements (RA), requests for
 * predicates (SR) and the answers to them (UR). A predicate is the set of its filters.
 */
module RoutingNode {
  import opened BroadcastTree

  datatype Filter = Filter(id: nat)

  type Predicate = set<Filter>

  datatype Msg =
    | RA(from: int, to: int, pred: Predicate)
    | SR(from: int, to: int, number: nat)
    | UR(from: int, to: int, number: nat, pred: Predicate)

  /** The children that still have to answer, and what the others said. */
  datatype Response = Response(respondees: set<int>, pred: Predicate)

  /** quiet holds the neighbours to which too few messages went to ask them. */
  datatype Node = Node(pid: int, local: Predicate, table: map<int, Predicate>, quiet: set<int>,
                       responses: map<nat, Response>)

  /** The children that a request goes to: those with a predicate, and not quiet. */
  function Asked(n: Node, t: Tree): set<int> {
    set c | c in Children(t, n.pid) && c in n.table && n.table[c] != {} && c !in n.quiet
  }

  function Parent(t: Tree, y: int): int {
    if y in t.parent then t.parent[y] else t.root
  }

  ghost function Advertised(n: Node, from: int, pred: Predicate): Node
    requires from in n.table
  {
    n.(table := n.table[from := n.table[from] + pred])
  }

  ghost function Forwards(n: Node, t: Tree, pred: Predicate): set<Msg> {
    set c | c in Children(t, n.pid) :: RA(n.pid, c, pred)
  }

  ghost function Requests(n: Node, t: Tree, number: nat): set<Msg> {
    set c | c in Asked(n, t) :: SR(n.pid, c, number)
  }

  ghost function ResponseOf(n: Node, number: nat): Response {
    if number in n.responses then n.responses[number] else Response({}, {})
  }

  /** A node that asks its children, and is not the issuer, waits for their answers. */
  ghost function Propagated(n: Node, t: Tree, number: nat): Node {
    if n.pid == t.root || Asked(n, t) == {} then n
    else
      var r := ResponseOf(n, number);
      n.(responses := n.responses[number := r.(respondees := r.respondees + Asked(n, t))])
  }

  /** A node that has nobody to ask answers at once. */
  ghost function AfterSR(n: Node, t: Tree, number: nat): set<Msg> {
    if Asked(n, t) == {} then {UR(n.pid, Parent(t, n.pid), number, n.local)} else Requests(n, t, number)
  }

  /** An answer from a child it waits for is collected; at the issuer it becomes the child's predicate. */
  ghost function Answered(n: Node, t: Tree, from: int, number: nat, pred: Predicate): Node {
    if n.pid == t.root then n.(table := n.table[from := pred])
    else if number !in n.responses then n
    else
      var r := n.responses[number];
      if r.respondees - {from} == {} then n.(responses := n.responses - {number})
      else n.(responses := n.responses[number := Response(r.respondees - {from}, r.pred + pred)])
  }

  /** The last answer sends the collected predicate, with the node's own, up the tree. */
  ghost function AfterUR(n: Node, t: Tree, from: int, number: nat, pred: Predicate): set<Msg> {
    if n.pid == t.root || number !in n.responses || n.responses[number].respondees - {from} != {} then {}
    else {UR(n.pid, Parent(t, n.pid), number, n.responses[number].pred + pred + n.local)}
  }

  /** An answer of a round that the node does not know changes nothing, and nothing is sent. */
  lemma UnexpectedAnswer(n: Node, t: Tree, from: int, number: nat, pred: Predicate)
    requires n.pid != t.root && number !in n.responses
    ensures Answered(n, t, from, number, pred) == n && AfterUR(n, t, from, number, pred) == {}
  {
  }

  /** A second request of the same round drops no child that still has to answer, and nothing that was collected. */
  lemma RequestsAddUp(n: Node, t: Tree, number: nat)
    requires number in n.responses
    ensures var r := Propagated(n, t, number).responses;
      && r.Keys == n.responses.Keys
      && r[number].pred == n.responses[number].pred && n.responses[number].respondees <= r[number].respondees
      && (forall m: Msg :: n.pid != t.root && m in Requests(n, t, number) ==> m.to in r[number].respondees)
      && forall k :: k in n.responses && k != number ==> r[k] == n.responses[k]
  {
  }

  lemma SetCount(s: set<Msg>, m: Msg)
    ensures multiset(s)[m] == if m in s then 1 else 0
  {
  }

  lemma OneMore(s: set<Msg>, m: Msg)
    requires m !in s
    ensures multiset(s + {m}) == multiset(s) + multiset{m}
  {
  }
}
