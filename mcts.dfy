/**
 * The four steps of MCTS.py (`select`, `expand`, `simulate`, `backpropogate`) and the search
 * loop `MonteCarloTreeSearch` that repeats them, over the arena of MctsArena.
 */
module Mcts {
  import opened Options
  import opened Seqs
  import opened MctsGame
  import opened MctsArena

  /** The search tree rooted at a `Node(initial_state)`; its nodes are updated in place. */
  class Tree<S> {
    const game: Game<S>
    var nodes: seq<Node<S>>

    /** `Node(initial_state)`: a lone root with no parent, no children and no statistics. */
    constructor(g: Game<S>, initial: S)
      ensures game == g && nodes == [NewNode(initial, -1)]
      ensures Completed(nodes, 0)
    {
      game := g;
      nodes := [NewNode(initial, -1)];
    }

    /**
     * `select(root)`: from the root, move to the first child of largest score while the node
     * has children and its state reports them all explored.
     */
    method Select(score: Score) returns (selected: int)
      requires Shaped(nodes) && Scorable(nodes) && UcbDefined(score)
      ensures selected == Descend(game, nodes, score, 0)
      ensures 0 <= selected < |nodes|
      ensures nodes[selected].children == [] ||
              !game.stateExhausted(nodes[selected].state, |nodes[selected].children|)
    {
      var ns := nodes;
      var cur := 0;
      while |ns[cur].children| > 0 && game.stateExhausted(ns[cur].state, |ns[cur].children|)
        invariant 0 <= cur < |ns|
        invariant Descend(game, ns, score, cur) == Descend(game, ns, score, 0)
        decreases |ns| - cur
      {
        ScorableAt(ns, cur);
        assert ChildrenPointBack(ns, cur);
        var best := BestChild(ns, score, cur);
        cur := ns[cur].children[best];
      }
      selected := cur;
    }

    /**
     * `expand(node)`: a terminated node is returned as it is; otherwise one action the node has
     * not taken is drawn (with `pick`), recorded, and given a new child holding its state.
     */
    method Expand(n: int, pick: nat) returns (r: Result<int>)
      requires 0 <= n < |nodes|
      modifies this
      ensures game.terminated(old(nodes)[n].state) ==> r == Ok(n) && nodes == old(nodes)
      ensures !game.terminated(old(nodes)[n].state) &&
              game.randomAction(old(nodes)[n].state, old(nodes)[n].actionsTaken, pick).None? ==>
                r == Err(EmptyChoice) && nodes == old(nodes)
      ensures !game.terminated(old(nodes)[n].state) &&
              game.randomAction(old(nodes)[n].state, old(nodes)[n].actionsTaken, pick).Some? ==>
                var (a, t) := game.randomAction(old(nodes)[n].state, old(nodes)[n].actionsTaken, pick).value;
                r == Ok(|old(nodes)|) && nodes == Expanded(old(nodes), n, a, t)
    {
      var nd := nodes[n];
      if game.terminated(nd.state) {
        return Ok(n);
      }
      var drawn := game.randomAction(nd.state, nd.actionsTaken, pick);
      if drawn.None? {
        return Err(EmptyChoice);
      }
      var (a, t) := drawn.value;
      var m := |nodes|;
      nodes := nodes[n := nd.(actionsTaken := nd.actionsTaken + [a], children := nd.children + [m])];
      nodes := nodes + [NewNode(t, n)];
      r := Ok(m);
    }

    /**
     * `backpropogate(node, sim_state)`: every node from `n` up to the root gains a visit, and
     * every such node but the root adds its state's `update_value(sim_state)` to its value.
     */
    method Backpropagate(n: int, sim: S)
      requires Shaped(nodes) && 0 <= n < |nodes|
      modifies this
      ensures nodes == Backpropagated(game, old(nodes), n, sim)
    {
      ghost var before := nodes;
      ghost var full := Chain(before, n);
      var cur := n;
      while nodes[cur].parent >= 0
        invariant |nodes| == |before| && 0 <= cur < |nodes| && cur in full
        invariant forall i :: 0 <= i < |nodes| ==>
          nodes[i] == if i in full && i !in Chain(before, cur) then Bumped(game, before[i], sim) else before[i]
        decreases cur
      {
        ChainStep(before, n, cur);
        var up := nodes[cur].parent;
        nodes := nodes[cur := Bumped(game, nodes[cur], sim)];
        cur := up;
      }
      ChainStep(before, n, cur);
      nodes := nodes[cur := Bumped(game, nodes[cur], sim)];
      assert nodes == Backpropagated(game, before, n, sim);
    }
  }

  /**
   * The `for child in temp_node.children` loop of `select`: the position of the first child
   * of `p` whose score no later child strictly exceeds.
   */
  method BestChild<S>(nodes: seq<Node<S>>, score: Score, p: int) returns (best: nat)
    requires UcbDefined(score) && 0 <= p < |nodes| && CanScore(nodes, p) && nodes[p].children != []
    ensures best == BestIndex(nodes, score, p, |nodes[p].children|)
  {
    var cs := nodes[p].children;
    var bestUcb := 0.0;
    best := 0;
    for j := 0 to |cs|
      invariant j == 0 ==> best == 0
      invariant 0 < j ==> best < j && best == BestIndex(nodes, score, p, j)
      invariant 0 < j ==> bestUcb == Ucb(nodes, score, p, best)
    {
      var c := cs[j];
      var u := score(nodes[c].value, nodes[c].visits, nodes[p].visits);
      if j == 0 {
        // the running maximum starts as the first child, whose score this is
        bestUcb := u;
      } else if u > bestUcb {
        best, bestUcb := j, u;
      }
    }
  }

  /** A node of the chain from `n` lies below its parent there, and its own chain is inside. */
  lemma {:induction false} ChainStep<S>(nodes: seq<Node<S>>, n: int, x: int)
    requires ParentsFirst(nodes) && 0 <= n < |nodes| && 0 <= x < |nodes| && x in Chain(nodes, n)
    ensures forall y :: y in Chain(nodes, x) ==> y in Chain(nodes, n)
    ensures nodes[x].parent >= 0 ==> nodes[x].parent in Chain(nodes, n) && x !in Chain(nodes, nodes[x].parent)
    ensures nodes[x].parent < 0 ==> Chain(nodes, x) == {x}
    decreases n
  {
    ChainBelow(nodes, n, x);
    if x != n {
      ChainStep(nodes, nodes[n].parent, x);
    }
    if nodes[x].parent >= 0 {
      ChainClosed(nodes, n, x);
      if x in Chain(nodes, nodes[x].parent) {
        ChainBelow(nodes, nodes[x].parent, x);
      }
    }
  }

  /**
   * In a lawful game, `expand` never runs out of actions on the node `select` returns: a live
   * state with no children has a legal action, and one whose children are not exhausted has
   * more legal actions than it has taken.
   */
  lemma ExpandNeverEmpty<S(!new)>(g: Game<S>, nodes: seq<Node<S>>, n: int, pick: nat)
    requires Lawful(g) && Explored(g, nodes) && 0 <= n < |nodes|
    requires !g.terminated(nodes[n].state)
    requires nodes[n].children == [] || !g.stateExhausted(nodes[n].state, |nodes[n].children|)
    ensures g.randomAction(nodes[n].state, nodes[n].actionsTaken, pick).Some?
  {
    var s := nodes[n].state;
    var taken := nodes[n].actionsTaken;
    assert ExploredAt(g, nodes, n);
    assert Distinct(g.legal(s));
    assert |taken| < |g.legal(s)| by {
      if taken != [] {
        assert !g.stateExhausted(s, |taken|);
      } else {
        assert g.legal(s) != [];
      }
    }
    forall x | x in taken ensures x in g.legal(s) {
      var j :| 0 <= j < |taken| && taken[j] == x;
    }
    var a := Unused(taken, g.legal(s));
    assert g.randomAction(s, taken, pick).Some? <==> exists b :: b in g.legal(s) && b !in taken;
  }

  // ---------------------------------------------------------------- simulation

  /**
   * The outcome of `simulate` from `s` when draw number `tick` and those after it are taken from
   * `rng`: random actions with nothing excluded until a terminated state, paired with the number
   * of the next unused draw.
   */
  function Playout<S(!new)>(g: Game<S>, s: S, rng: nat -> nat, tick: nat): (r: (Result<S>, nat))
    requires Progressing(g)
    ensures r.0.Ok? ==> g.terminated(r.0.value)
    ensures g.terminated(s) ==> r.0.Ok? && r.1 == tick
    ensures r.1 >= tick
    decreases g.measure(s)
  {
    if g.terminated(s) then (Ok(s), tick)
    else
      match g.randomAction(s, [], rng(tick))
      case None => (Err(EmptyChoice), tick + 1)
      case Some((_, t)) => Playout(g, t, rng, tick + 1)
  }

  /** A playout of a game whose live states always have a move never fails. */
  lemma {:induction false} PlayoutSucceeds<S(!new)>(g: Game<S>, s: S, rng: nat -> nat, tick: nat)
    requires Progressing(g) && ChoosesUnexplored(g) && LiveHasMoves(g)
    ensures Playout(g, s, rng, tick).0.Ok?
    decreases g.measure(s)
  {
    if !g.terminated(s) {
      var legal := g.legal(s);
      var none: seq<int> := [];
      assert legal != [];
      var w := legal[0];
      assert w in legal && w !in none;
      assert g.randomAction(s, none, rng(tick)).Some? <==> exists b :: b in legal && b !in none;
      var step := g.randomAction(s, none, rng(tick));
      PlayoutSucceeds(g, step.value.1, rng, tick + 1);
    }
  }

  /** `simulate(node)`: play random actions from the node's state until the game ends. */
  method Simulate<S(!new)>(g: Game<S>, s: S, rng: nat -> nat, tick: nat) returns (r: Result<S>, next: nat)
    requires Progressing(g)
    ensures (r, next) == Playout(g, s, rng, tick)
  {
    var sim := s;
    next := tick;
    while !g.terminated(sim)
      invariant Playout(g, sim, rng, next) == Playout(g, s, rng, tick)
      decreases g.measure(sim)
    {
      var step := g.randomAction(sim, [], rng(next));
      next := next + 1;
      if step.None? {
        return Err(EmptyChoice), next;
      }
      sim := step.value.1;
    }
    r := Ok(sim);
  }

  // ---------------------------------------------------------------- the search

  /** What holds of the tree before round `i` of the search loop. */
  ghost predicate SearchInvariant<S(!new)>(g: Game<S>, nodes: seq<Node<S>>, initial: S, i: int) {
    Completed(nodes, i) && nodes[0].state == initial &&
    (ChoosesUnexplored(g) ==> Explored(g, nodes)) &&
    (g.terminated(initial) || i == 0 ==> |nodes| == 1) &&
    (Lawful(g) && i >= 1 && !g.terminated(initial) ==> nodes[0].children != [])
  }

  /** What holds of the tree after the expansion of round `i`, with `leaf` the expanded node. */
  ghost predicate GrownInvariant<S(!new)>(g: Game<S>, nodes: seq<Node<S>>, leaf: int, initial: S, i: int) {
    Shaped(nodes) && Covered(nodes) && 0 <= leaf < |nodes| &&
    (forall k :: 0 < k < |nodes| && k != leaf ==> nodes[k].visits >= 1) &&
    nodes[0].visits == i && nodes[0].value == 0 && nodes[0].state == initial &&
    (ChoosesUnexplored(g) ==> Explored(g, nodes)) &&
    (g.terminated(initial) ==> |nodes| == 1) &&
    (Lawful(g) && !g.terminated(initial) ==> nodes[0].children != [])
  }

  /** The outcome of a successful `expand(n)`, as `Tree.Expand` states it. */
  ghost predicate ExpandedTo<S>(g: Game<S>, before: seq<Node<S>>, n: int, pick: nat, after: seq<Node<S>>, leaf: int)
    requires 0 <= n < |before|
  {
    if g.terminated(before[n].state) then leaf == n && after == before
    else
      g.randomAction(before[n].state, before[n].actionsTaken, pick).Some? &&
      var (a, t) := g.randomAction(before[n].state, before[n].actionsTaken, pick).value;
      leaf == |before| && after == Expanded(before, n, a, t)
  }

  /**
   * One whole round from `before`, reading the draws from number `tick` on: the node `select`
   * reaches is expanded with draw `tick`, the leaf's state is played out from draw `tick + 1`,
   * and the final state of that playout is backpropagated from the leaf. `after` is the tree
   * the round leaves and `next` the first draw it did not use.
   */
  ghost predicate RoundFrom<S(!new)>(g: Game<S>, score: Score, rng: nat -> nat,
                                    before: seq<Node<S>>, tick: nat, after: seq<Node<S>>, next: nat) {
    Progressing(g) && UcbDefined(score) && Shaped(before) && Scorable(before) &&
    exists grown: seq<Node<S>>, leaf: int ::
      ExpandedTo(g, before, Descend(g, before, score, 0), rng(tick), grown, leaf) &&
      ParentsFirst(grown) && 0 <= leaf < |grown| &&
      Playout(g, grown[leaf].state, rng, tick + 1).0.Ok? &&
      next == Playout(g, grown[leaf].state, rng, tick + 1).1 &&
      after == Backpropagated(g, grown, leaf, Playout(g, grown[leaf].state, rng, tick + 1).0.value)
  }

  /**
   * The trees of a search from `initial`: the lone root first, then each tree the round after
   * the one before it leaves, with `ticks` the draw each round starts from.
   */
  ghost predicate SearchHistory<S(!new)>(g: Game<S>, score: Score, rng: nat -> nat, initial: S,
                                        trees: seq<seq<Node<S>>>, ticks: seq<nat>) {
    |trees| == |ticks| >= 1 && trees[0] == [NewNode(initial, -1)] && ticks[0] == 0 &&
    forall k :: 0 <= k < |trees| - 1 ==> RoundFrom(g, score, rng, trees[k], ticks[k], trees[k + 1], ticks[k + 1])
  }

  /** A round from the last recorded tree extends the history. */
  lemma HistoryGrows<S(!new)>(g: Game<S>, score: Score, rng: nat -> nat, initial: S,
                              trees: seq<seq<Node<S>>>, ticks: seq<nat>, after: seq<Node<S>>, next: nat)
    requires SearchHistory(g, score, rng, initial, trees, ticks)
    requires RoundFrom(g, score, rng, trees[|trees| - 1], ticks[|ticks| - 1], after, next)
    ensures SearchHistory(g, score, rng, initial, trees + [after], ticks + [next])
  {
    var trees', ticks' := trees + [after], ticks + [next];
    forall k | 0 <= k < |trees'| - 1
      ensures RoundFrom(g, score, rng, trees'[k], ticks'[k], trees'[k + 1], ticks'[k + 1])
    {
      if k < |trees| - 1 {
        assert RoundFrom(g, score, rng, trees[k], ticks[k], trees[k + 1], ticks[k + 1]);
      }
    }
  }

  /** Expanding the selected node keeps the tree shaped and gives a live root a child. */
  lemma ExpansionRound<S(!new)>(g: Game<S>, score: Score, before: seq<Node<S>>, initial: S, i: int,
                                 pick: nat, after: seq<Node<S>>, leaf: int)
    requires UcbDefined(score) && SearchInvariant(g, before, initial, i) && Scorable(before)
    requires ExpandedTo(g, before, Descend(g, before, score, 0), pick, after, leaf)
    ensures GrownInvariant(g, after, leaf, initial, i)
  {
    CompletedIsScorable(before, i);
    var n := Descend(g, before, score, 0);
    if !g.terminated(before[n].state) {
      var (a, t) := g.randomAction(before[n].state, before[n].actionsTaken, pick).value;
      ExpandedShaped(before, n, a, t);
      if ChoosesUnexplored(g) {
        ExpandedExplored(g, before, n, a, t);
      }
    }
    if Lawful(g) && !g.terminated(initial) && before[0].children == [] {
      ExpandNeverEmpty(g, before, 0, pick);
    }
  }

  /** Backpropagating from the expanded node completes round `i`. */
  lemma BackpropagationRound<S(!new)>(g: Game<S>, nodes: seq<Node<S>>, leaf: int, initial: S, i: int, sim: S)
    requires GrownInvariant(g, nodes, leaf, initial, i)
    ensures SearchInvariant(g, Backpropagated(g, nodes, leaf, sim), initial, i + 1)
  {
    BackpropagatedKeeps(g, nodes, leaf, sim);
  }

  /**
   * After the rounds, the root has children exactly when a lawful game's initial state is live
   * and some round ran, and each child holds the state of a legal action from the initial state.
   */
  lemma SearchOutcome<S(!new)>(g: Game<S>, nodes: seq<Node<S>>, initial: S, i: int)
    requires SearchInvariant(g, nodes, initial, i)
    ensures InArena(nodes, nodes[0].children)
    ensures Lawful(g) ==> (nodes[0].children != [] <==> i >= 1 && !g.terminated(initial))
    ensures ChoosesUnexplored(g) ==> forall k :: 0 <= k < |nodes[0].children| ==>
      exists a :: a in g.legal(initial) && nodes[nodes[0].children[k]].state == g.play(initial, a)
  {
    assert ChildrenPointBack(nodes, 0);
    if ChoosesUnexplored(g) {
      assert ExploredAt(g, nodes, 0);
      forall k | 0 <= k < |nodes[0].children|
        ensures exists a :: a in g.legal(initial) && nodes[nodes[0].children[k]].state == g.play(initial, a)
      {
        var a := nodes[0].actionsTaken[k];
        assert a in g.legal(initial) && nodes[nodes[0].children[k]].state == g.play(initial, a);
      }
    }
  }

  /**
   * One round of the search loop: select, expand, simulate, backpropagate. `ok` is false when
   * `random_action` had nothing to choose, which a lawful game never allows.
   */
  method SearchRound<S(!new)>(tree: Tree<S>, initial: S, i: int, score: Score, rng: nat -> nat, tick: nat)
    returns (ok: bool, next: nat)
    requires Progressing(tree.game) && UcbDefined(score) && SearchInvariant(tree.game, tree.nodes, initial, i)
    modifies tree
    ensures |tree.nodes| > 0 && tree.nodes[0].state == initial
    ensures ok ==> SearchInvariant(tree.game, tree.nodes, initial, i + 1)
    ensures ok ==> RoundFrom(tree.game, score, rng, old(tree.nodes), tick, tree.nodes, next)
    ensures Lawful(tree.game) ==> ok
  {
    var g := tree.game;
    CompletedIsScorable(tree.nodes, i);
    var selected := tree.Select(score);
    ghost var before := tree.nodes;
    var expanded := tree.Expand(selected, rng(tick));
    if expanded.Err? {
      if Lawful(g) && !g.terminated(before[selected].state) {
        ExpandNeverEmpty(g, before, selected, rng(tick));
      }
      return false, tick + 1;
    }
    var leaf := expanded.value;
    ExpansionRound(g, score, before, initial, i, rng(tick), tree.nodes, leaf);
    var simulated, after := Simulate(g, tree.nodes[leaf].state, rng, tick + 1);
    if simulated.Err? {
      if Lawful(g) {
        PlayoutSucceeds(g, tree.nodes[leaf].state, rng, tick + 1);
      }
      return false, after;
    }
    ghost var grown := tree.nodes;
    tree.Backpropagate(leaf, simulated.value);
    BackpropagationRound(g, grown, leaf, initial, i, simulated.value);
    assert ExpandedTo(g, before, selected, rng(tick), grown, leaf);
    return true, after;
  }

  /**
   * `MonteCarloTreeSearch(initial_state, iterations)`: `iterations` rounds of selection,
   * expansion, simulation and backpropagation, then the state of the root's first most-visited
   * child. Draws are read from `rng` in order, one per expansion and one per playout move.
   * `trees` and `ticks` record the tree before each round and after the last, and the draw
   * each round starts from.
   */
  method MonteCarloTreeSearch<S(!new)>(g: Game<S>, initial: S, iterations: int, score: Score, rng: nat -> nat)
    returns (result: Result<S>, tree: Tree<S>, ghost trees: seq<seq<Node<S>>>, ghost ticks: seq<nat>)
    requires Progressing(g) && UcbDefined(score)
    ensures tree.game == g && |tree.nodes| > 0 && tree.nodes[0].state == initial
    ensures result != Err(EmptyChoice) ==>
      SearchHistory(g, score, rng, initial, trees, ticks) &&
      |trees| == (if iterations < 0 then 0 else iterations) + 1 && trees[|trees| - 1] == tree.nodes
    ensures ChoosesUnexplored(g) && result != Err(EmptyChoice) ==> Explored(g, tree.nodes)
    ensures Lawful(g) ==> (result.Ok? <==> iterations >= 1 && !g.terminated(initial))
    ensures Lawful(g) ==> result != Err(EmptyChoice)
    ensures result != Err(EmptyChoice) ==> Completed(tree.nodes, if iterations < 0 then 0 else iterations)
    ensures result == Err(NoChildToReturn) <==> tree.nodes[0].children == [] && result != Err(EmptyChoice)
    ensures result.Ok? ==>
      InArena(tree.nodes, tree.nodes[0].children) && tree.nodes[0].children != [] &&
      result.value == tree.nodes[tree.nodes[0].children[MostVisited(tree.nodes, tree.nodes[0].children)]].state
    ensures ChoosesUnexplored(g) && result.Ok? ==>
      exists a :: a in g.legal(initial) && result.value == g.play(initial, a)
  {
    tree := new Tree(g, initial);
    var tick := 0;
    var i := 0;
    trees, ticks := [tree.nodes], [0];
    while i < iterations
      invariant tree.game == g && 0 <= i && (iterations >= 0 ==> i <= iterations) && (iterations < 0 ==> i == 0)
      invariant SearchInvariant(g, tree.nodes, initial, i)
      invariant SearchHistory(g, score, rng, initial, trees, ticks)
      invariant |trees| == i + 1 && trees[i] == tree.nodes && ticks[i] == tick
      decreases iterations - i
    {
      var ok;
      ok, tick := SearchRound(tree, initial, i, score, rng, tick);
      if !ok {
        return Err(EmptyChoice), tree, trees, ticks;
      }
      HistoryGrows(g, score, rng, initial, trees, ticks, tree.nodes, tick);
      trees, ticks := trees + [tree.nodes], ticks + [tick];
      i := i + 1;
    }
    SearchOutcome(g, tree.nodes, initial, i);
    var cs := tree.nodes[0].children;
    if cs == [] {
      return Err(NoChildToReturn), tree, trees, ticks;
    }
    var k := MostVisited(tree.nodes, cs);
    result := Ok(tree.nodes[cs[k]].state);
  }
}
