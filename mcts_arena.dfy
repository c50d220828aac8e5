/**
 * The search tree of MCTS.py held as an arena: node i is `nodes[i]`, references between nodes
 * are indices, node 0 is the root and its parent is -1 (Python's `None`).
 */
module MctsArena {
  import opened Options
  import opened Seqs
  import opened MctsGame

  /** A `Node`: its state, parent, children, expanded actions and statistics. */
  datatype Node<S> = Node(
    state: S,
    parent: int,
    children: seq<int>,
    actionsTaken: seq<int>,
    visits: nat,
    value: int)

  /** `Node(state, parent)`: no children, no actions taken, no visits, value 0. */
  function NewNode<S>(state: S, parent: int): (r: Node<S>)
    ensures r.state == state && r.parent == parent
    ensures parent == -1 ==> Completed([r], 0)
  {
    Node(state, parent, [], [], 0, 0)
  }

  // ---------------------------------------------------------------- shape

  /** Node 0 is the root; every other node's parent comes before it. */
  ghost predicate ParentsFirst<S>(nodes: seq<Node<S>>) {
    |nodes| > 0 && nodes[0].parent == -1 &&
    forall i :: 0 < i < |nodes| ==> 0 <= nodes[i].parent < i
  }

  /** Node i lists distinct children, each after it and each pointing back to it. */
  ghost predicate ChildrenPointBack<S>(nodes: seq<Node<S>>, i: int)
    requires 0 <= i < |nodes|
  {
    Distinct(nodes[i].children) &&
    forall j :: 0 <= j < |nodes[i].children| ==>
      i < nodes[i].children[j] < |nodes| && nodes[nodes[i].children[j]].parent == i
  }

  /**
   * The tree invariant of the arena: one action per child, children and parents agree, and
   * every node but the root is listed (exactly once) by its parent.
   */
  ghost predicate Shaped<S>(nodes: seq<Node<S>>) {
    ParentsFirst(nodes) &&
    (forall i :: 0 <= i < |nodes| ==> |nodes[i].children| == |nodes[i].actionsTaken|) &&
    (forall i :: 0 <= i < |nodes| ==> ChildrenPointBack(nodes, i)) &&
    (forall i :: 0 < i < |nodes| ==> i in nodes[nodes[i].parent].children)
  }

  /**
   * Every action a node has expanded is distinct and legal in its state, and the child made for
   * it holds the state that action leads to.
   */
  ghost predicate Explored<S>(g: Game<S>, nodes: seq<Node<S>>) {
    forall i :: 0 <= i < |nodes| ==> ExploredAt(g, nodes, i)
  }

  ghost predicate ExploredAt<S>(g: Game<S>, nodes: seq<Node<S>>, i: int)
    requires 0 <= i < |nodes|
  {
    var nd := nodes[i];
    Distinct(nd.actionsTaken) && |nd.children| == |nd.actionsTaken| &&
    forall j :: 0 <= j < |nd.actionsTaken| ==>
      nd.actionsTaken[j] in g.legal(nd.state) &&
      0 <= nd.children[j] < |nodes| && nodes[nd.children[j]].state == g.play(nd.state, nd.actionsTaken[j])
  }

  // ---------------------------------------------------------------- statistics

  ghost predicate InArena<S>(nodes: seq<Node<S>>, cs: seq<int>) {
    forall j :: 0 <= j < |cs| ==> 0 <= cs[j] < |nodes|
  }

  /** The total visit count of the nodes `cs` (an index outside the arena counts 0). */
  ghost function SumVisits<S>(nodes: seq<Node<S>>, cs: seq<int>): nat {
    if cs == [] then 0
    else (if 0 <= cs[0] < |nodes| then nodes[cs[0]].visits else 0) + SumVisits(nodes, cs[1..])
  }

  /** A node's visit count covers the visit counts of its children. */
  ghost predicate Covered<S>(nodes: seq<Node<S>>)
    requires Shaped(nodes)
  {
    forall i :: 0 <= i < |nodes| ==> nodes[i].visits >= SumVisits(nodes, nodes[i].children)
  }

  /** Every node but the root has been visited. */
  ghost predicate Visited<S>(nodes: seq<Node<S>>) {
    forall i :: 0 < i < |nodes| ==> nodes[i].visits >= 1
  }

  /** The state of the tree after `k` completed iterations. */
  ghost predicate Completed<S>(nodes: seq<Node<S>>, k: int) {
    Shaped(nodes) && Covered(nodes) && Visited(nodes) &&
    nodes[0].visits == k && nodes[0].value == 0
  }

  /** Every score `select` may compute has positive child and parent visits. */
  ghost predicate Scorable<S>(nodes: seq<Node<S>>) {
    |nodes| > 0 && Visited(nodes) && (nodes[0].children != [] ==> nodes[0].visits > 0)
  }

  /** The children of `p` and `p` itself have positive visit counts, as `calc_UCB` needs. */
  ghost predicate CanScore<S>(nodes: seq<Node<S>>, p: int)
    requires 0 <= p < |nodes|
  {
    nodes[p].visits > 0 &&
    forall j :: 0 <= j < |nodes[p].children| ==>
      0 <= nodes[p].children[j] < |nodes| && nodes[nodes[p].children[j]].visits > 0
  }

  /** In a scorable tree every node that has children can be scored against. */
  lemma ScorableAt<S>(nodes: seq<Node<S>>, p: int)
    requires Shaped(nodes) && Scorable(nodes) && 0 <= p < |nodes| && nodes[p].children != []
    ensures CanScore(nodes, p)
  {
    assert ChildrenPointBack(nodes, p);
  }

  /** After a completed iteration, the root is visited whenever it has children. */
  lemma CompletedIsScorable<S>(nodes: seq<Node<S>>, k: int)
    requires Completed(nodes, k)
    ensures Scorable(nodes)
  {
    var cs := nodes[0].children;
    assert ChildrenPointBack(nodes, 0);
    if cs != [] {
      assert SumVisits(nodes, cs) >= nodes[cs[0]].visits;
    }
  }

  /** `calc_UCB(child, parent)` for the `j`-th child of `p`. */
  function Ucb<S>(nodes: seq<Node<S>>, score: Score, p: int, j: int): real
    requires UcbDefined(score) && 0 <= p < |nodes| && CanScore(nodes, p)
    requires 0 <= j < |nodes[p].children|
  {
    var c := nodes[p].children[j];
    score(nodes[c].value, nodes[c].visits, nodes[p].visits)
  }

  // ---------------------------------------------------------------- selection

  /**
   * The position among the first `len` children of `p` that the loop of `select` settles on:
   * the first child whose score no later child strictly exceeds.
   */
  function BestIndex<S>(nodes: seq<Node<S>>, score: Score, p: int, len: nat): (k: nat)
    requires UcbDefined(score) && 0 <= p < |nodes| && CanScore(nodes, p)
    requires 0 < len <= |nodes[p].children|
    ensures k < len
    ensures forall j :: 0 <= j < len ==> Ucb(nodes, score, p, j) <= Ucb(nodes, score, p, k)
    ensures forall j :: 0 <= j < k ==> Ucb(nodes, score, p, j) < Ucb(nodes, score, p, k)
    decreases len
  {
    if len == 1 then 0
    else
      var k := BestIndex(nodes, score, p, len - 1);
      if Ucb(nodes, score, p, len - 1) > Ucb(nodes, score, p, k) then len - 1 else k
  }

  /**
   * The node `select` reaches from `n`: descend to the best-scoring child while the node has
   * children and its state reports them exhausted.
   */
  function Descend<S>(g: Game<S>, nodes: seq<Node<S>>, score: Score, n: int): (r: int)
    requires Shaped(nodes) && Scorable(nodes) && UcbDefined(score) && 0 <= n < |nodes|
    ensures n <= r < |nodes|
    ensures nodes[r].children == [] || !g.stateExhausted(nodes[r].state, |nodes[r].children|)
    decreases |nodes| - n
  {
    var cs := nodes[n].children;
    if |cs| > 0 && g.stateExhausted(nodes[n].state, |cs|) then
      ScorableAt(nodes, n);
      assert ChildrenPointBack(nodes, n);
      Descend(g, nodes, score, cs[BestIndex(nodes, score, n, |cs|)])
    else n
  }

  // ---------------------------------------------------------------- final choice

  /**
   * `sorted(children, key=visits, reverse=True)[0]`: Python's sort is stable, so this is the
   * position of the first child with the largest visit count.
   */
  function MostVisited<S>(nodes: seq<Node<S>>, cs: seq<int>): (k: nat)
    requires InArena(nodes, cs)
    requires cs != []
    ensures k < |cs|
    ensures forall j :: 0 <= j < |cs| ==> nodes[cs[j]].visits <= nodes[cs[k]].visits
    ensures forall j :: 0 <= j < k ==> nodes[cs[j]].visits < nodes[cs[k]].visits
  {
    if |cs| == 1 then 0
    else
      var k := MostVisited(nodes, cs[1..]) + 1;
      if nodes[cs[0]].visits >= nodes[cs[k]].visits then 0 else k
  }

  // ---------------------------------------------------------------- expansion

  /** The arena after node `n` expanded action `a` into a new child holding `t`. */
  ghost function Expanded<S>(nodes: seq<Node<S>>, n: int, a: int, t: S): seq<Node<S>>
    requires 0 <= n < |nodes|
  {
    nodes[n := nodes[n].(actionsTaken := nodes[n].actionsTaken + [a],
                         children := nodes[n].children + [|nodes|])]
    + [NewNode(t, n)]
  }

  /**
   * Expansion appends one action to node `n` and one child after the last node: the child
   * points back to `n` and has no children, actions, visits or value; nothing else changes.
   */
  lemma ExpandedChanges<S>(nodes: seq<Node<S>>, n: int, a: int, t: S)
    requires 0 <= n < |nodes|
    ensures var e := Expanded(nodes, n, a, t);
      |e| == |nodes| + 1 &&
      e[n].actionsTaken == nodes[n].actionsTaken + [a] &&
      e[n].children == nodes[n].children + [|nodes|] &&
      e[n].state == nodes[n].state && e[n].parent == nodes[n].parent &&
      e[n].visits == nodes[n].visits && e[n].value == nodes[n].value &&
      e[|nodes|].state == t && e[|nodes|].parent == n &&
      e[|nodes|].children == [] && e[|nodes|].actionsTaken == [] &&
      e[|nodes|].visits == 0 && e[|nodes|].value == 0 &&
      forall i :: 0 <= i < |nodes| && i != n ==> e[i] == nodes[i]
  {
  }

  lemma SumSameVisits<S>(a: seq<Node<S>>, b: seq<Node<S>>, cs: seq<int>)
    requires InArena(a, cs) && InArena(b, cs)
    requires forall j :: 0 <= j < |cs| ==> a[cs[j]].visits == b[cs[j]].visits
    ensures SumVisits(a, cs) == SumVisits(b, cs)
  {
  }

  lemma SumAppend<S>(nodes: seq<Node<S>>, cs: seq<int>, c: int)
    requires InArena(nodes, cs)
    requires 0 <= c < |nodes|
    ensures SumVisits(nodes, cs + [c]) == SumVisits(nodes, cs) + nodes[c].visits
  {
    if cs != [] {
      assert (cs + [c])[1..] == cs[1..] + [c];
      SumAppend(nodes, cs[1..], c);
    }
  }

  /** Expansion keeps the tree shaped, adds a child with no visits, and keeps the visit cover. */
  lemma ExpandedShaped<S>(nodes: seq<Node<S>>, n: int, a: int, t: S)
    requires Shaped(nodes) && 0 <= n < |nodes|
    ensures Shaped(Expanded(nodes, n, a, t))
    ensures Covered(nodes) ==> Covered(Expanded(nodes, n, a, t))
  {
    var e := Expanded(nodes, n, a, t);
    forall i | 0 <= i < |e| ensures ChildrenPointBack(e, i) {
      ExpandedPointsBack(nodes, n, a, t, i);
    }
    forall i | 0 < i < |e| ensures i in e[e[i].parent].children {
      ExpandedListed(nodes, n, a, t, i);
    }
    assert Shaped(e);
    if Covered(nodes) {
      forall i | 0 <= i < |e| ensures e[i].visits >= SumVisits(e, e[i].children) {
        ExpandedCovers(nodes, n, a, t, i);
      }
    }
  }

  lemma ExpandedListed<S>(nodes: seq<Node<S>>, n: int, a: int, t: S, i: int)
    requires Shaped(nodes) && 0 <= n < |nodes| && 0 < i <= |nodes|
    ensures var e := Expanded(nodes, n, a, t); i in e[e[i].parent].children
  {
    if i < |nodes| {
      assert i in nodes[nodes[i].parent].children;
    }
  }

  lemma ExpandedPointsBack<S>(nodes: seq<Node<S>>, n: int, a: int, t: S, i: int)
    requires Shaped(nodes) && 0 <= n < |nodes| && 0 <= i <= |nodes|
    ensures ChildrenPointBack(Expanded(nodes, n, a, t), i)
  {
    var e := Expanded(nodes, n, a, t);
    var m := |nodes|;
    if i < m {
      assert ChildrenPointBack(nodes, i);
      if i == n {
        assert e[i].children == nodes[i].children + [m];
        forall j, k | 0 <= j < k < |e[i].children| ensures e[i].children[j] != e[i].children[k] {
          if k < |nodes[i].children| {
            assert e[i].children[j] == nodes[i].children[j];
            assert e[i].children[k] == nodes[i].children[k];
          } else {
            assert e[i].children[j] in nodes[i].children;
          }
        }
      }
    }
  }

  lemma ExpandedCovers<S>(nodes: seq<Node<S>>, n: int, a: int, t: S, i: int)
    requires Shaped(nodes) && Covered(nodes) && 0 <= n < |nodes| && 0 <= i <= |nodes|
    ensures Expanded(nodes, n, a, t)[i].visits >= SumVisits(Expanded(nodes, n, a, t), Expanded(nodes, n, a, t)[i].children)
  {
    var e := Expanded(nodes, n, a, t);
    var m := |nodes|;
    if i < m {
      assert ChildrenPointBack(nodes, i);
      SumSameVisits(e, nodes, nodes[i].children);
      if i == n {
        SumAppend(e, nodes[i].children, m);
      }
    }
  }

  /** Expanding an unexplored legal action keeps every node explored. */
  lemma ExpandedExplored<S>(g: Game<S>, nodes: seq<Node<S>>, n: int, a: int, t: S)
    requires Shaped(nodes) && 0 <= n < |nodes| && Explored(g, nodes)
    requires a in g.legal(nodes[n].state) && a !in nodes[n].actionsTaken
    requires t == g.play(nodes[n].state, a)
    ensures Shaped(Expanded(nodes, n, a, t)) && Explored(g, Expanded(nodes, n, a, t))
  {
    ExpandedShaped(nodes, n, a, t);
    var e := Expanded(nodes, n, a, t);
    forall i | 0 <= i < |e| ensures ExploredAt(g, e, i) {
      if i == n {
        assert ExploredAt(g, nodes, n);
        forall j, k | 0 <= j < k < |e[i].actionsTaken|
          ensures e[i].actionsTaken[j] != e[i].actionsTaken[k]
        {
          if k == |nodes[n].actionsTaken| {
            assert e[i].actionsTaken[j] in nodes[n].actionsTaken;
          }
        }
      } else if i < |nodes| {
        assert ExploredAt(g, nodes, i);
      }
    }
  }

  // ---------------------------------------------------------------- backpropagation

  /** The nodes `backpropogate` walks from `n`: `n` and its ancestors up to the root. */
  ghost function Chain<S>(nodes: seq<Node<S>>, n: int): set<int>
    requires ParentsFirst(nodes) && 0 <= n < |nodes|
    decreases n
  {
    if nodes[n].parent < 0 then {n} else {n} + Chain(nodes, nodes[n].parent)
  }

  lemma {:induction false} ChainBelow<S>(nodes: seq<Node<S>>, n: int, x: int)
    requires ParentsFirst(nodes) && 0 <= n < |nodes| && x in Chain(nodes, n)
    ensures 0 <= x <= n
    decreases n
  {
    if x != n {
      ChainBelow(nodes, nodes[n].parent, x);
    }
  }

  lemma {:induction false} RootOnChain<S>(nodes: seq<Node<S>>, n: int)
    requires ParentsFirst(nodes) && 0 <= n < |nodes|
    ensures 0 in Chain(nodes, n)
    decreases n
  {
    if nodes[n].parent >= 0 {
      RootOnChain(nodes, nodes[n].parent);
    }
  }

  /** The chain is closed under taking parents. */
  lemma {:induction false} ChainClosed<S>(nodes: seq<Node<S>>, n: int, x: int)
    requires ParentsFirst(nodes) && 0 <= n < |nodes| && 0 <= x < |nodes| && x in Chain(nodes, n)
    requires nodes[x].parent >= 0
    ensures nodes[x].parent in Chain(nodes, n)
    decreases n
  {
    ChainBelow(nodes, n, x);
    if x != n {
      ChainClosed(nodes, nodes[n].parent, x);
    }
  }

  /** No two nodes of a chain share a parent. */
  lemma {:induction false} ChainSiblings<S>(nodes: seq<Node<S>>, n: int, x: int, y: int)
    requires ParentsFirst(nodes) && 0 <= n < |nodes| && 0 <= x < |nodes| && 0 <= y < |nodes|
    requires x in Chain(nodes, n) && y in Chain(nodes, n)
    requires nodes[x].parent == nodes[y].parent >= 0
    ensures x == y
    decreases n
  {
    if x != n && y != n {
      ChainSiblings(nodes, nodes[n].parent, x, y);
    } else if x != n {
      ChainBelow(nodes, nodes[n].parent, x);
    } else if y != n {
      ChainBelow(nodes, nodes[n].parent, y);
    }
  }

  /** One pass of `backpropogate` over a node of the chain. */
  function Bumped<S>(g: Game<S>, nd: Node<S>, sim: S): Node<S> {
    nd.(visits := nd.visits + 1,
        value := if nd.parent < 0 then nd.value else nd.value + g.updateValue(nd.state, sim))
  }

  /** The arena after `backpropogate(n, sim)`. */
  ghost function Backpropagated<S>(g: Game<S>, nodes: seq<Node<S>>, n: int, sim: S): seq<Node<S>>
    requires ParentsFirst(nodes) && 0 <= n < |nodes|
  {
    seq(|nodes|, i requires 0 <= i < |nodes| =>
      if i in Chain(nodes, n) then Bumped(g, nodes[i], sim) else nodes[i])
  }

  /**
   * Backpropagation from `n` adds one visit to every node on the chain from `n` to the root, adds
   * `update_value(sim)` of its state to the value of every such node but the root, and changes
   * nothing else.
   */
  lemma BackpropagatedChanges<S>(g: Game<S>, nodes: seq<Node<S>>, n: int, sim: S)
    requires ParentsFirst(nodes) && 0 <= n < |nodes|
    ensures |Backpropagated(g, nodes, n, sim)| == |nodes|
    ensures n in Chain(nodes, n) && 0 in Chain(nodes, n)
    ensures forall i :: 0 <= i < |nodes| ==>
      var b := Backpropagated(g, nodes, n, sim)[i];
      b.state == nodes[i].state && b.parent == nodes[i].parent &&
      b.children == nodes[i].children && b.actionsTaken == nodes[i].actionsTaken &&
      b.visits == nodes[i].visits + (if i in Chain(nodes, n) then 1 else 0) &&
      b.value == nodes[i].value + (if i in Chain(nodes, n) && i != 0 then g.updateValue(nodes[i].state, sim) else 0)
  {
    RootOnChain(nodes, n);
  }

  ghost function CountIn(cs: seq<int>, c: set<int>): nat {
    if cs == [] then 0 else (if cs[0] in c then 1 else 0) + CountIn(cs[1..], c)
  }

  lemma {:induction false} CountNone(cs: seq<int>, c: set<int>)
    requires forall j :: 0 <= j < |cs| ==> cs[j] !in c
    ensures CountIn(cs, c) == 0
  {
    if cs != [] {
      CountNone(cs[1..], c);
    }
  }

  /** A distinct sequence meets a set at most once when no two of its elements lie in the set. */
  lemma {:induction false} CountAtMostOne(cs: seq<int>, c: set<int>)
    requires Distinct(cs)
    requires forall i, j :: 0 <= i < |cs| && 0 <= j < |cs| && cs[i] in c && cs[j] in c ==> i == j
    ensures CountIn(cs, c) <= 1
  {
    if cs != [] {
      assert Distinct(cs[1..]) by {
        forall i, j | 0 <= i < j < |cs[1..]| ensures cs[1..][i] != cs[1..][j] {
          assert cs[1..][i] == cs[i + 1] && cs[1..][j] == cs[j + 1];
        }
      }
      if cs[0] in c {
        forall j | 0 <= j < |cs[1..]| ensures cs[1..][j] !in c {
          assert cs[1..][j] == cs[j + 1];
        }
        CountNone(cs[1..], c);
      } else {
        CountAtMostOne(cs[1..], c);
      }
    }
  }

  lemma {:induction false} SumBumped<S>(a: seq<Node<S>>, b: seq<Node<S>>, cs: seq<int>, c: set<int>)
    requires |a| == |b|
    requires InArena(a, cs)
    requires forall j :: 0 <= j < |cs| ==> b[cs[j]].visits == a[cs[j]].visits + (if cs[j] in c then 1 else 0)
    ensures SumVisits(b, cs) == SumVisits(a, cs) + CountIn(cs, c)
  {
    if cs != [] {
      SumBumped(a, b, cs[1..], c);
    }
  }

  /** At most one child of a node lies on a chain, and none unless the node does. */
  lemma ChildrenOnChain<S>(nodes: seq<Node<S>>, n: int, p: int)
    requires Shaped(nodes) && 0 <= n < |nodes| && 0 <= p < |nodes|
    ensures CountIn(nodes[p].children, Chain(nodes, n)) <= (if p in Chain(nodes, n) then 1 else 0)
  {
    var cs := nodes[p].children;
    var ch := Chain(nodes, n);
    assert ChildrenPointBack(nodes, p);
    if p in ch {
      forall i, j | 0 <= i < |cs| && 0 <= j < |cs| && cs[i] in ch && cs[j] in ch ensures i == j {
        ChainSiblings(nodes, n, cs[i], cs[j]);
      }
      CountAtMostOne(cs, ch);
    } else {
      forall j | 0 <= j < |cs| ensures cs[j] !in ch {
        if cs[j] in ch {
          ChainClosed(nodes, n, cs[j]);
        }
      }
      CountNone(cs, ch);
    }
  }

  /**
   * Backpropagation from `n` keeps the tree's shape and exploration, keeps every visit count
   * covering its children's, adds one visit to the root and leaves the root's value alone.
   */
  lemma BackpropagatedKeeps<S>(g: Game<S>, nodes: seq<Node<S>>, n: int, sim: S)
    requires Shaped(nodes) && 0 <= n < |nodes|
    ensures Shaped(Backpropagated(g, nodes, n, sim))
    ensures Explored(g, nodes) ==> Explored(g, Backpropagated(g, nodes, n, sim))
    ensures Covered(nodes) ==> Covered(Backpropagated(g, nodes, n, sim))
    ensures (forall i :: 0 < i < |nodes| && i != n ==> nodes[i].visits >= 1) ==>
      Visited(Backpropagated(g, nodes, n, sim))
    ensures Backpropagated(g, nodes, n, sim)[0].visits == nodes[0].visits + 1
    ensures Backpropagated(g, nodes, n, sim)[0].value == nodes[0].value
  {
    var b := Backpropagated(g, nodes, n, sim);
    BackpropagatedChanges(g, nodes, n, sim);
    SameLinks(nodes, b);
    if Explored(g, nodes) {
      SameExplored(g, nodes, b);
    }
    if Covered(nodes) {
      var ch := Chain(nodes, n);
      forall i | 0 <= i < |b| ensures b[i].visits >= SumVisits(b, b[i].children) {
        assert ChildrenPointBack(nodes, i);
        SumBumped(nodes, b, nodes[i].children, ch);
        ChildrenOnChain(nodes, n, i);
      }
    }
  }

  /** Changing only statistics keeps a tree shaped. */
  lemma SameLinks<S>(nodes: seq<Node<S>>, b: seq<Node<S>>)
    requires Shaped(nodes) && |b| == |nodes|
    requires forall i :: 0 <= i < |b| ==>
      b[i].parent == nodes[i].parent && b[i].children == nodes[i].children &&
      b[i].actionsTaken == nodes[i].actionsTaken
    ensures Shaped(b)
  {
    forall i | 0 <= i < |b| ensures ChildrenPointBack(b, i) {
      assert ChildrenPointBack(nodes, i);
    }
  }

  /** Changing only statistics keeps a tree explored. */
  lemma SameExplored<S>(g: Game<S>, nodes: seq<Node<S>>, b: seq<Node<S>>)
    requires Explored(g, nodes) && |b| == |nodes|
    requires forall i :: 0 <= i < |b| ==>
      b[i].state == nodes[i].state && b[i].children == nodes[i].children &&
      b[i].actionsTaken == nodes[i].actionsTaken
    ensures Explored(g, b)
  {
    forall i | 0 <= i < |b| ensures ExploredAt(g, b, i) {
      assert ExploredAt(g, nodes, i);
    }
  }

}
