/**
 * The tic-tac-toe state of tictactoe.py: an immutable board of nine cells (1 for the first
 * player, 2 for the second, 0 empty) and the player who made the last move.
 */
module TicTacToe {
  import opened Options
  import opened Seqs
  import opened Grid

  datatype Player = Player1 | Player2

  datatype GameState = Continue | Player1Won | Player2Won | Draw

  function Other(p: Player): Player {
    if p == Player1 then Player2 else Player1
  }

  /** The value a player writes into a cell. */
  function Mark(p: Player): int {
    if p == Player1 then 1 else 2
  }

  // ---------------------------------------------------------------- TTT_board

  /** `take_action`: a fresh board equal to `b` except that cell `loc` holds the player's mark. */
  function TakeAction(b: Board, loc: int, p: Player): (r: Board)
    requires -9 <= loc < 9
    ensures r[PyIndex(loc)] == (if p == Player1 then 1 else 2)
    ensures forall i :: 0 <= i < 9 && i != PyIndex(loc) ==> r[i] == b[i]
  {
    b[PyIndex(loc) := Mark(p)]
  }

  /** The winner named by the mark in a completed line: 1 is the first player, any other the second. */
  function Owner(v: int): GameState {
    if v == 1 then Player1Won else Player2Won
  }

  /** The body of the `for i in range(3)` loop of `check_game_state` from iteration `i` on. */
  function CheckFrom(b: Board, i: nat): GameState
    requires i <= 3
    decreases 3 - i
  {
    if i < 3 then
      if b[3 * i] != 0 && b[3 * i] == b[3 * i + 1] && b[3 * i + 1] == b[3 * i + 2] then Owner(b[3 * i])
      else if b[i] != 0 && b[i] == b[i + 3] && b[i + 3] == b[i + 6] then Owner(b[i])
      else CheckFrom(b, i + 1)
    else if b[0] != 0 && b[0] == b[4] && b[4] == b[8] then Owner(b[0])
    else if b[2] != 0 && b[2] == b[4] && b[4] == b[6] then Owner(b[2])
    else if |PossibleActions(b)| == 0 then Draw
    else Continue
  }

  /** From iteration `i` on, the loop reports the first completed line from position 2i of `Lines`. */
  lemma {:induction false} CheckFromFirstWin(b: Board, i: nat)
    requires i <= 3
    ensures var w := FirstWinFrom(b, 2 * i);
      CheckFrom(b, i) ==
        if w.Some? then Owner(b[Lines[w.value].x])
        else if Full(b) then Draw
        else Continue
    decreases 3 - i
  {
    FullIffNoActions(b);
    if i < 3 {
      FirstWinRowColumn(b, i);
      CheckFromFirstWin(b, i + 1);
    } else {
      FirstWinDiagonals(b);
    }
  }

  /**
   * `check_game_state`: the owner of the first completed line in the order of `Lines`;
   * otherwise Draw on a full board and Continue while a cell is empty.
   */
  function CheckGameState(b: Board): (r: GameState)
    ensures (r == Player1Won || r == Player2Won) <==> FirstWin(b).Some?
    ensures FirstWin(b).Some? ==> r == Owner(WinningMark(b))
    ensures r == Draw <==> FirstWin(b).None? && Full(b)
    ensures r == Continue <==> FirstWin(b).None? && !Full(b)
  {
    CheckFromFirstWin(b, 0);
    CheckFrom(b, 0)
  }

  /** A full board is never classified Continue. */
  lemma FullBoardIsDecided(b: Board)
    requires Full(b)
    ensures CheckGameState(b) != Continue
  {
  }

  /** The character of a decimal digit. */
  function DigitChar(d: nat): char
    requires d < 10
  {
    "0123456789"[d]
  }

  /** Python's `str` of a non-negative integer: its decimal digits, most significant first. */
  function NatString(n: nat): (r: string)
    ensures |r| >= 1
    ensures n < 10 ==> r == [DigitChar(n)]
    decreases n
  {
    if n < 10 then [DigitChar(n)] else NatString(n / 10) + [DigitChar(n % 10)]
  }

  /** Python's `str` of an integer. */
  function IntString(v: int): (r: string)
    ensures |r| >= 1
  {
    if v < 0 then "-" + NatString(-v) else NatString(v)
  }

  /** `__str__`: the three rows of cells, each cell followed by a space, rows ending in a newline but the last. */
  function Render(b: Board): (r: string)
    ensures |r| >= 19
  {
    RenderRow(b, 0) + " \n" + RenderRow(b, 3) + " \n" + RenderRow(b, 6)
  }

  /**
   * On a board of one-digit cells the text is nineteen characters: the cells' digits in
   * order, a space after each cell but the last, and a newline after the space ending each
   * of the first two rows.
   */
  lemma RenderLayout(b: Board)
    requires forall i :: 0 <= i < 9 ==> 0 <= b[i] < 10
    ensures Render(b) ==
      [DigitChar(b[0]), ' ', DigitChar(b[1]), ' ', DigitChar(b[2]), ' ', '\n',
       DigitChar(b[3]), ' ', DigitChar(b[4]), ' ', DigitChar(b[5]), ' ', '\n',
       DigitChar(b[6]), ' ', DigitChar(b[7]), ' ', DigitChar(b[8])]
  {
    var r0, r3, r6 := RenderRow(b, 0), RenderRow(b, 3), RenderRow(b, 6);
    var d0, d1, d2 := DigitChar(b[0]), DigitChar(b[1]), DigitChar(b[2]);
    var d3, d4, d5 := DigitChar(b[3]), DigitChar(b[4]), DigitChar(b[5]);
    var first := r0 + " \n";
    assert first == [d0, ' ', d1, ' ', d2, ' ', '\n'];
    var second := first + r3;
    assert second == [d0, ' ', d1, ' ', d2, ' ', '\n', d3, ' ', d4, ' ', d5];
    var third := second + " \n";
    assert third == [d0, ' ', d1, ' ', d2, ' ', '\n', d3, ' ', d4, ' ', d5, ' ', '\n'];
    assert Render(b) == third + r6;
  }

  /** The three cells from `i` on, separated by spaces. */
  function RenderRow(b: Board, i: nat): (r: string)
    requires i <= 6
    ensures 0 <= b[i] < 10 && 0 <= b[i + 1] < 10 && 0 <= b[i + 2] < 10 ==>
      r == [DigitChar(b[i]), ' ', DigitChar(b[i + 1]), ' ', DigitChar(b[i + 2])]
  {
    IntString(b[i]) + " " + IntString(b[i + 1]) + " " + IntString(b[i + 2])
  }

  // ---------------------------------------------------------------- TTT_state

  /** A position and the player who made the move that led to it. */
  datatype State = State(board: Board, player: Player)

  /** `terminated`: a line is complete or no cell is empty. */
  function Terminated(s: State): (r: bool)
    ensures r <==> FirstWin(s.board).Some? || Full(s.board)
  {
    CheckGameState(s.board) != Continue
  }

  /** The comprehension `[x for x in xs if x not in excluded]`. */
  function Without(xs: seq<int>, excluded: seq<int>): (r: seq<int>)
    ensures forall x :: x in r <==> x in xs && x !in excluded
    ensures Increasing(xs) ==> Increasing(r)
    ensures |r| <= |xs|
    ensures |xs| == 1 ==> r == if xs[0] in excluded then [] else xs
  {
    if xs == [] then []
    else
      var rest := Without(xs[1..], excluded);
      if xs[0] in excluded then rest
      else
        PrependIncreasing(xs, rest);
        [xs[0]] + rest
  }

  /** Each element not excluded is kept as often as it occurs; an excluded one never. */
  lemma {:induction false} WithoutCounts(xs: seq<int>, excluded: seq<int>)
    ensures forall x :: multiset(Without(xs, excluded))[x] == if x in excluded then 0 else multiset(xs)[x]
  {
    if xs != [] {
      WithoutCounts(xs[1..], excluded);
      assert xs == [xs[0]] + xs[1..];
      assert multiset(xs) == multiset([xs[0]]) + multiset(xs[1..]);
    }
  }

  /**
   * The filter of a concatenation is the concatenation of the filters; with the one-element
   * case of `Without`, this says the kept elements stay in their order, repeats included.
   */
  lemma {:induction false} WithoutAppend(xs: seq<int>, ys: seq<int>, excluded: seq<int>)
    ensures Without(xs + ys, excluded) == Without(xs, excluded) + Without(ys, excluded)
  {
    if xs != [] {
      assert (xs + ys)[1..] == xs[1..] + ys;
      WithoutAppend(xs[1..], ys, excluded);
    } else {
      assert xs + ys == ys;
    }
  }

  /**
   * `random_action`: an empty cell not in `actionsTaken`, chosen by `pick` among those left,
   * marked by the other player, who is the player of the new state. None when no such cell is
   * left, where `random.choice` raises.
   */
  function RandomAction(s: State, actionsTaken: seq<int>, pick: nat): (r: Option<(int, State)>)
    ensures r.None? <==> forall a :: a in PossibleActions(s.board) ==> a in actionsTaken
    ensures r.Some? ==> 0 <= r.value.0 < 9 && s.board[r.value.0] == 0 && r.value.0 !in actionsTaken
    ensures r.Some? ==>
      r.value.1 == State(TakeAction(s.board, r.value.0, Other(s.player)), Other(s.player))
  {
    var locations := Without(PossibleActions(s.board), actionsTaken);
    if |locations| == 0 then None
    else
      var a := locations[pick % |locations|];
      assert a in locations;
      var other := Other(s.player);
      Some((a, State(TakeAction(s.board, a, other), other)))
  }

  /**
   * `update_value`: 0 for a draw, +1 when the winner is this state's player and -1 otherwise.
   * A board that is not decided falls through to the second player's branch.
   */
  function UpdateValue(s: State, t: State): (r: int)
    ensures CheckGameState(t.board) == Draw ==> r == 0
    ensures CheckGameState(t.board) == Player1Won ==> r == (if s.player == Player1 then 1 else -1)
    ensures CheckGameState(t.board) in {Player2Won, Continue} ==>
      r == (if s.player == Player2 then 1 else -1)
  {
    var finished := CheckGameState(t.board);
    if finished == Draw then 0
    else if finished == Player1Won then (if s.player == Player1 then 1 else -1)
    else if s.player == Player2 then 1 else -1
  }

  /** The reward of an outcome to one player is the negation of its reward to the other. */
  lemma UpdateValueAlternates(s: State, t: State)
    ensures UpdateValue(State(s.board, Other(s.player)), t) == -UpdateValue(s, t)
  {
  }

  /** `state_exhausted`: `n` children cover every empty cell. */
  function StateExhausted(s: State, n: int): (r: bool)
    ensures r <==> n >= |ZeroCells(s.board)|
  {
    PossibleActionsCount(s.board);
    n >= |PossibleActions(s.board)|
  }
}
