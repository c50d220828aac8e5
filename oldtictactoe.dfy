/**
 * The older tic-tac-toe of OLDtictactoe.py: a board object written in place and a state object
 * that caches its number of empty cells and whose outcome is assigned after construction.
 */
module OldTicTacToe {
  import opened Options
  import opened Seqs
  import opened Grid
  import TicTacToe

  datatype Termination = Continue | Player1 | Player2 | Draw

  /** The winner named by the mark in a completed line: 1 is the first player, any other the second. */
  function Winner(v: int): Termination {
    if v == 1 then Player1 else Player2
  }

  /** The body of the `for i in range(3)` loop of `checkGameOver` from iteration `i` on. */
  function OverFrom(b: Board, i: nat): Termination
    requires i <= 3
    decreases 3 - i
  {
    if i < 3 then
      if b[3 * i] != 0 && b[3 * i] == b[3 * i + 1] && b[3 * i + 1] == b[3 * i + 2] then Winner(b[3 * i])
      else if b[i] != 0 && b[i] == b[i + 3] && b[i + 3] == b[i + 6] then Winner(b[i])
      else OverFrom(b, i + 1)
    else if b[0] != 0 && b[0] == b[4] && b[4] == b[8] then Winner(b[0])
    else if b[2] != 0 && b[2] == b[4] && b[4] == b[6] then Winner(b[2])
    else if |PossibleActions(b)| == 0 then Draw
    else Continue
  }

  /** The outcome of tictactoe.py's `check_game_state` under the names of this file. */
  function Translate(st: TicTacToe.GameState): Termination {
    match st
    case Continue => Continue
    case Player1Won => Player1
    case Player2Won => Player2
    case Draw => Draw
  }

  /** Both files classify every board alike, iteration by iteration. */
  lemma {:induction false} OverFromAgrees(b: Board, i: nat)
    requires i <= 3
    ensures OverFrom(b, i) == Translate(TicTacToe.CheckFrom(b, i))
    decreases 3 - i
  {
    if i < 3 {
      OverFromAgrees(b, i + 1);
    }
  }

  /** `TTT_Board`: nine cells written in place. */
  class OldBoard {
    var cells: Board

    /** `TTT_Board()`: nine empty cells. */
    constructor Empty()
      ensures cells == EmptyBoard
    {
      cells := EmptyBoard;
    }

    /** `TTT_Board(b)`: a copy of `b`, whose length must be nine. */
    constructor Copy(b: seq<int>)
      requires |b| == 9
      ensures cells == b
    {
      cells := b;
    }

    /** `action(location, player)`: cell `location` (negative counts from the end) becomes `player`. */
    method Action(location: int, player: int)
      requires -9 <= location < 9
      modifies this
      ensures cells[PyIndex(location)] == player
      ensures forall i :: 0 <= i < 9 && i != PyIndex(location) ==> cells[i] == old(cells)[i]
    {
      cells := cells[PyIndex(location) := player];
    }

    /** `possible_actions`: the empty cells in increasing order. */
    function PossibleCells(): (r: seq<int>)
      reads this
      ensures forall x :: x in r <==> 0 <= x < 9 && cells[x] == 0
      ensures Increasing(r)
    {
      PossibleActions(cells)
    }

    /**
     * `checkGameOver`: the owner of the first completed line in the order rows and columns by
     * index, then the two diagonals; otherwise Draw on a full board and Continue.
     */
    function CheckGameOver(): (r: Termination)
      reads this
      ensures (r == Player1 || r == Player2) <==> FirstWin(cells).Some?
      ensures FirstWin(cells).Some? ==> r == Winner(WinningMark(cells))
      ensures r == Draw <==> FirstWin(cells).None? && Full(cells)
      ensures r == Continue <==> FirstWin(cells).None? && !Full(cells)
      ensures r == Translate(TicTacToe.CheckGameState(cells))
    {
      OverFromAgrees(cells, 0);
      assert OverFrom(cells, 0) == Translate(TicTacToe.CheckGameState(cells));
      OverFrom(cells, 0)
    }
  }

  /** `TTT_State`: whose turn it is, a shared board, an outcome set from outside, and a cached count. */
  class OldState {
    const player1: bool
    const board: OldBoard
    var terminate: Termination
    const numNextStates: int

    /** `TTT_State(player1, board)`: not terminated, whatever the board, and counting its empty cells. */
    constructor(player1: bool, board: OldBoard)
      ensures this.player1 == player1 && this.board == board
      ensures terminate == Continue
      ensures numNextStates == |ZeroCells(board.cells)|
    {
      this.player1 := player1;
      this.board := board;
      terminate := Continue;
      numNextStates := |board.PossibleCells()|;
      PossibleActionsCount(board.cells);
    }

    /** `update_value`: +1 when the recorded winner is this state's player, -1 for the other, else 0. */
    function UpdateValue(t: OldState): (r: int)
      reads t
      ensures t.terminate == Player1 ==> r == (if player1 then 1 else -1)
      ensures t.terminate == Player2 ==> r == (if player1 then -1 else 1)
      ensures t.terminate == Draw || t.terminate == Continue ==> r == 0
    {
      if t.terminate == Player1 then (if player1 then 1 else -1)
      else if t.terminate == Player2 then (if !player1 then 1 else -1)
      else 0
    }

    /**
     * `terminated`: an outcome other than Continue has been recorded. The constructor and
     * `RandomAction` state what it is for the states they make.
     */
    predicate Terminated()
      reads this
    {
      terminate != Continue
    }

    /**
     * `state_exhausted(n)`: `n` reaches the count cached at construction, which the constructor
     * and `RandomAction` relate to the board's empty cells.
     */
    predicate StateExhausted(n: int) {
      n >= numNextStates
    }

    /**
     * `random_action`: ignores `actionsTaken`, marks one empty cell (`pick` chooses which) of a
     * copy of the board with 2 when this is the first player's state and 1 otherwise, and
     * returns action id 0 with a fresh state for the other player whose outcome is the new
     * board's. None when the board has no empty cell, where `random.randint(0, -1)` raises.
     */
    method RandomAction(actionsTaken: seq<int>, pick: nat) returns (r: Option<(int, OldState)>)
      ensures r.None? <==> Full(board.cells)
      ensures r.Some? ==> r.value.0 == 0
      ensures r.Some? ==> fresh(r.value.1) && fresh(r.value.1.board)
      ensures r.Some? ==>
        var next := r.value.1;
        next.player1 == !player1 &&
        next.terminate == next.board.CheckGameOver() &&
        exists a :: 0 <= a < 9 && board.cells[a] == 0 &&
          next.board.cells == board.cells[a := if player1 then 2 else 1]
      ensures r.Some? ==> r.value.1.numNextStates == |ZeroCells(board.cells)| - 1
      ensures r.Some? ==>
        (r.value.1.Terminated() <==> FirstWin(r.value.1.board.cells).Some? || Full(r.value.1.board.cells))
      ensures r.Some? ==> forall n :: r.value.1.StateExhausted(n) <==> n >= |ZeroCells(r.value.1.board.cells)|
    {
      var newBoard := new OldBoard.Copy(board.cells);
      var locations := newBoard.PossibleCells();
      FullIffNoActions(board.cells);
      if |locations| == 0 {
        return None;
      }
      var a := locations[pick % |locations|];
      assert a in locations;
      ghost var before := newBoard.cells;
      newBoard.Action(a, if player1 then 2 else 1);
      assert newBoard.cells == before[a := if player1 then 2 else 1];
      var next := new OldState(!player1, newBoard);
      next.terminate := newBoard.CheckGameOver();
      PossibleActionsCount(board.cells);
      PossibleActionsCount(newBoard.cells);
      PossibleActionsAfterMark(before, a, if player1 then 2 else 1);
      return Some((0, next));
    }
  }
}
