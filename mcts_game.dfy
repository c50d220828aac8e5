/**
 * The State capability set of MCTS.py (`AbstractState`), as a record of functions over an
 * arbitrary state type S, and the laws a game must obey for the search to behave.
 */
module MctsGame {
  import opened Options
  import opened Seqs

  /**
   * The four operations the engine calls, and three views of a state that only the laws use:
   * `legal` lists the distinct actions of a state, `play` is the successor an action leads to,
   * and `measure` bounds how many moves remain.
   * `randomAction(s, excluded, pick)` is `s.random_action(excluded)`, where `pick` stands for the
   * random draw; None is the case where the state has nothing left to choose and raises.
   */
  datatype Game<!S> = Game(
    terminated: S -> bool,
    randomAction: (S, seq<int>, nat) -> Option<(int, S)>,
    updateValue: (S, S) -> int,
    stateExhausted: (S, int) -> bool,
    legal: S -> seq<int>,
    play: (S, int) -> S,
    measure: S -> nat)

  /**
   * `random_action` succeeds exactly when some legal action is not excluded; it then returns
   * such an action and the state that action leads to.
   */
  ghost predicate ChoosesUnexplored<S(!new)>(g: Game<S>) {
    forall s, excluded, pick ::
      (g.randomAction(s, excluded, pick).Some? <==> exists a :: a in g.legal(s) && a !in excluded) &&
      (g.randomAction(s, excluded, pick).Some? ==>
        var a := g.randomAction(s, excluded, pick).value.0;
        a in g.legal(s) && a !in excluded &&
        g.randomAction(s, excluded, pick).value.1 == g.play(s, a))
  }

  /** Every action brings the game closer to its end, so random playouts terminate. */
  ghost predicate Progressing<S(!new)>(g: Game<S>) {
    forall s, excluded, pick :: g.randomAction(s, excluded, pick).Some? ==>
      g.measure(g.randomAction(s, excluded, pick).value.1) < g.measure(s)
  }

  /** `state_exhausted(n)` holds once `n` reaches the number of legal actions. */
  ghost predicate CountsExhaustion<S(!new)>(g: Game<S>) {
    forall s, n :: g.stateExhausted(s, n) <==> n >= |g.legal(s)|
  }

  /** A state that is not terminated has a legal action. */
  ghost predicate LiveHasMoves<S(!new)>(g: Game<S>) {
    forall s :: !g.terminated(s) ==> g.legal(s) != []
  }

  ghost predicate DistinctMoves<S(!new)>(g: Game<S>) {
    forall s :: Distinct(g.legal(s))
  }

  ghost predicate Lawful<S(!new)>(g: Game<S>) {
    ChoosesUnexplored(g) && Progressing(g) && CountsExhaustion(g) && LiveHasMoves(g) && DistinctMoves(g)
  }

  /**
   * The selection score `calc_UCB` of a child from the child's value and visits and the parent's
   * visits. Its floating-point formula is not modelled; only its precondition is.
   */
  type Score = (int, int, int) --> real

  /** The score is defined whenever both visit counts are positive. */
  ghost predicate UcbDefined(score: Score) {
    forall v, childVisits, parentVisits :: childVisits > 0 && parentVisits > 0 ==>
      score.requires(v, childVisits, parentVisits)
  }

  /** What makes a search call fail: `random.choice` on nothing, or `sorted([])[0]`. */
  datatype SearchError = EmptyChoice | NoChildToReturn

  datatype Result<+T> = Ok(value: T) | Err(error: SearchError)
}
