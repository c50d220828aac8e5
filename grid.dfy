/**
 * The 3x3 board geometry shared by tictactoe.py and OLDtictactoe.py: nine integer cells
 * stored row by row, 0 meaning empty, and the eight lines a player can complete.
 */
module Grid {
  import opened Options
  import opened Seqs

  /** Both board classes hold a list of nine cells. */
  type Board = b: seq<int> | |b| == 9 witness [0, 0, 0, 0, 0, 0, 0, 0, 0]

  /** An index of a board cell. */
  type Cell = i: nat | i < 9

  /** The board both constructors build when given no list. */
  const EmptyBoard: Board := [0, 0, 0, 0, 0, 0, 0, 0, 0]

  /** Python list indexing: a location from -9 to -1 counts from the end. */
  function PyIndex(loc: int): Cell
    requires -9 <= loc < 9
  {
    if loc < 0 then loc + 9 else loc
  }

  /** The indices `i` with `i >= k` whose cell holds 0, in increasing order. */
  function EmptyFrom(cells: seq<int>, k: nat): (r: seq<int>)
    requires k <= |cells|
    ensures forall j :: 0 <= j < |r| ==> k <= r[j] < |cells| && cells[r[j]] == 0
    ensures forall i :: k <= i < |cells| && cells[i] == 0 ==> i in r
    ensures Increasing(r)
    decreases |cells| - k
  {
    if k == |cells| then []
    else if cells[k] == 0 then [k] + EmptyFrom(cells, k + 1)
    else EmptyFrom(cells, k + 1)
  }

  /** On cells that are all empty, the empty cells from `k` on are `k`, `k + 1`, and so on. */
  lemma {:induction false} AllEmptyFrom(cells: seq<int>, k: nat)
    requires k <= |cells|
    requires forall i :: 0 <= i < |cells| ==> cells[i] == 0
    ensures |EmptyFrom(cells, k)| == |cells| - k
    ensures forall j :: 0 <= j < |cells| - k ==> EmptyFrom(cells, k)[j] == k + j
    decreases |cells| - k
  {
    if k < |cells| {
      AllEmptyFrom(cells, k + 1);
      var rest := EmptyFrom(cells, k + 1);
      assert EmptyFrom(cells, k) == [k] + rest;
    }
  }

  /** Every cell of a board of empty cells is a possible action. */
  lemma AllEmptyActions(cells: seq<int>)
    requires forall i :: 0 <= i < |cells| ==> cells[i] == 0
    ensures PossibleActions(cells) == seq(|cells|, j => j)
  {
    AllEmptyFrom(cells, 0);
  }

  /** `possible_actions`: the indices whose cell is 0, in increasing order. */
  function PossibleActions(cells: seq<int>): (r: seq<int>)
    ensures forall x :: x in r ==> 0 <= x < |cells| && cells[x] == 0
    ensures forall i :: 0 <= i < |cells| && cells[i] == 0 ==> i in r
    ensures Increasing(r)
  {
    EmptyFrom(cells, 0)
  }

  ghost function ZeroCells(cells: seq<int>): set<int> {
    set i | 0 <= i < |cells| && cells[i] == 0
  }

  /** The number of possible actions is the number of empty cells. */
  lemma PossibleActionsCount(cells: seq<int>)
    ensures |PossibleActions(cells)| == |ZeroCells(cells)|
  {
    var r := PossibleActions(cells);
    assert Elements(r) == ZeroCells(cells);
    DistinctCard(r);
  }

  /** Writing a non-zero mark into an empty cell removes exactly one possible action. */
  lemma PossibleActionsAfterMark(cells: seq<int>, a: int, v: int)
    requires 0 <= a < |cells| && cells[a] == 0 && v != 0
    ensures |PossibleActions(cells[a := v])| == |PossibleActions(cells)| - 1
  {
    PossibleActionsCount(cells);
    PossibleActionsCount(cells[a := v]);
    assert ZeroCells(cells[a := v]) == ZeroCells(cells) - {a};
  }

  /** A line of three cells; a player owns it when all three hold the same non-zero mark. */
  datatype Line = Line(x: Cell, y: Cell, z: Cell)

  function RowLine(i: nat): Line requires i < 3 { Line(3 * i, 3 * i + 1, 3 * i + 2) }
  function ColumnLine(i: nat): Line requires i < 3 { Line(i, i + 3, i + 6) }

  /**
   * The lines in the order both boards test them: row i, then column i, for i = 0, 1, 2,
   * then the diagonal 0-4-8, then the diagonal 2-4-6.
   */
  const Lines: seq<Line> := [
    RowLine(0), ColumnLine(0), RowLine(1), ColumnLine(1), RowLine(2), ColumnLine(2),
    Line(0, 4, 8), Line(2, 4, 6)]

  predicate Completes(b: Board, l: Line) {
    b[l.x] != 0 && b[l.x] == b[l.y] && b[l.y] == b[l.z]
  }

  /** The first line at position `k` or later in `Lines` that some player completes. */
  ghost function FirstWinFrom(b: Board, k: nat): (r: Option<nat>)
    requires k <= |Lines|
    ensures r.Some? ==> k <= r.value < |Lines| && Completes(b, Lines[r.value])
    ensures r.Some? ==> forall j :: k <= j < r.value ==> !Completes(b, Lines[j])
    ensures r.None? ==> forall j :: k <= j < |Lines| ==> !Completes(b, Lines[j])
    decreases |Lines| - k
  {
    if k == |Lines| then None
    else if Completes(b, Lines[k]) then Some(k)
    else FirstWinFrom(b, k + 1)
  }

  /** The first completed line in priority order, if any. */
  ghost function FirstWin(b: Board): Option<nat> {
    FirstWinFrom(b, 0)
  }

  /** The mark in the first completed line; defined when there is one. */
  ghost function WinningMark(b: Board): int
    requires FirstWin(b).Some?
  {
    b[Lines[FirstWin(b).value].x]
  }

  ghost predicate Full(b: Board) {
    forall i :: 0 <= i < 9 ==> b[i] != 0
  }

  /** One step of the row/column loop: row i and column i are the lines at 2i and 2i + 1. */
  lemma FirstWinRowColumn(b: Board, i: nat)
    requires i < 3
    ensures FirstWinFrom(b, 2 * i) ==
      if Completes(b, RowLine(i)) then Some(2 * i)
      else if Completes(b, ColumnLine(i)) then Some(2 * i + 1)
      else FirstWinFrom(b, 2 * i + 2)
  {
    assert Lines[2 * i] == RowLine(i) && Lines[2 * i + 1] == ColumnLine(i);
    assert FirstWinFrom(b, 2 * i + 1) == if Completes(b, Lines[2 * i + 1]) then Some(2 * i + 1)
      else FirstWinFrom(b, 2 * i + 2);
  }

  /** After the six rows and columns come the two diagonals. */
  lemma FirstWinDiagonals(b: Board)
    ensures FirstWinFrom(b, 6) ==
      if Completes(b, Line(0, 4, 8)) then Some(6)
      else if Completes(b, Line(2, 4, 6)) then Some(7)
      else None
  {
    assert FirstWinFrom(b, 7) == if Completes(b, Lines[7]) then Some(7) else FirstWinFrom(b, 8);
  }

  /** A board with no empty cell has no possible action, and conversely. */
  lemma FullIffNoActions(b: Board)
    ensures Full(b) <==> |PossibleActions(b)| == 0
  {
    var r := PossibleActions(b);
    if |r| > 0 {
      assert b[r[0]] == 0;
    }
    if !Full(b) {
      var i :| 0 <= i < 9 && b[i] == 0;
      assert i in r;
    }
  }
}
