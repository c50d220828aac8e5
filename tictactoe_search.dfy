/**
 * `TTT_state` of tictactoe.py plugged into the search engine of MCTS.py, as the console game
 * of that file does when it asks `MonteCarloTreeSearch` for the computer's move.
 */
module TicTacToeSearch {
  import opened Options
  import opened Seqs
  import opened Grid
  import opened TicTacToe
  import opened MctsGame
  import opened MctsArena
  import opened Mcts

  /** The state an action leads to: the other player marks cell `a` (no move off the board). */
  function Play(s: State, a: int): State {
    if 0 <= a < 9 then State(TakeAction(s.board, a, Other(s.player)), Other(s.player)) else s
  }

  /**
   * The State capability set of `TTT_state`; the legal actions are the empty cells and the
   * measure is their number.
   */
  function TicTacToeGame(): Game<State> {
    Game(
      Terminated,
      RandomAction,
      UpdateValue,
      StateExhausted,
      (s: State) => PossibleActions(s.board),
      Play,
      (s: State) => |PossibleActions(s.board)|)
  }

  /** Each step of `random_action` fills one empty cell, so playouts get shorter. */
  lemma TicTacToeProgressing()
    ensures Progressing(TicTacToeGame())
  {
    var g := TicTacToeGame();
    forall s, excluded, pick | g.randomAction(s, excluded, pick).Some?
      ensures g.measure(g.randomAction(s, excluded, pick).value.1) < g.measure(s)
    {
      var (a, t) := RandomAction(s, excluded, pick).value;
      PossibleActionsAfterMark(s.board, a, Mark(Other(s.player)));
    }
  }

  /**
   * Tic-tac-toe obeys every law the search relies on: `random_action` draws exactly the
   * empty cells not yet taken, playouts shorten, `state_exhausted` counts the empty cells,
   * an undecided board has an empty cell, and the empty cells are listed once each.
   */
  lemma TicTacToeLawful()
    ensures Lawful(TicTacToeGame())
  {
    var g := TicTacToeGame();
    TicTacToeProgressing();
    forall s, excluded, pick
      ensures (g.randomAction(s, excluded, pick).Some? <==> exists a :: a in g.legal(s) && a !in excluded)
      ensures g.randomAction(s, excluded, pick).Some? ==>
        var a := g.randomAction(s, excluded, pick).value.0;
        a in g.legal(s) && a !in excluded && g.randomAction(s, excluded, pick).value.1 == g.play(s, a)
    {
      var r := RandomAction(s, excluded, pick);
      if r.Some? {
        assert r.value.0 in PossibleActions(s.board);
      }
    }
    forall s, n ensures g.stateExhausted(s, n) <==> n >= |g.legal(s)| {
      PossibleActionsCount(s.board);
    }
    forall s | !g.terminated(s) ensures g.legal(s) != [] {
      FullIffNoActions(s.board);
    }
    forall s ensures Distinct(g.legal(s)) {
      var r := PossibleActions(s.board);
      forall i, j | 0 <= i < j < |r| ensures r[i] != r[j] {
        assert r[i] < r[j];
      }
    }
  }

  /**
   * `MonteCarloTreeSearch(TTT_state(board, player), iterations)`: on an undecided board and at
   * least one iteration the search returns the board with one more mark, put by the other
   * player into a cell that was empty; otherwise it fails on `sorted([])[0]`. It never fails
   * on a draw from an empty list.
   */
  method TicTacToeMove(s: State, iterations: int, score: Score, rng: nat -> nat) returns (result: Result<State>)
    requires UcbDefined(score)
    ensures result.Ok? <==> iterations >= 1 && !Terminated(s)
    ensures result.Err? ==> result.error == NoChildToReturn
    ensures result.Ok? ==> exists a ::
      0 <= a < 9 && s.board[a] == 0 &&
      result.value == State(TakeAction(s.board, a, Other(s.player)), Other(s.player))
  {
    var g := TicTacToeGame();
    TicTacToeLawful();
    var tree;
    ghost var trees, ticks;
    result, tree, trees, ticks := MonteCarloTreeSearch(g, s, iterations, score, rng);
    if result.Ok? {
      var a :| a in g.legal(s) && result.value == g.play(s, a);
      assert 0 <= a < 9 && s.board[a] == 0;
    }
  }
}
