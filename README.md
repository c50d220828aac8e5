# Monte Carlo Tree Search and tic-tac-toe, modelled in Dafny

This project models the Monte Carlo Tree Search engine of `MCTS.py` and the two tic-tac-toe
games that plug into it, `tictactoe.py` and the older `OLDtictactoe.py`. It proves properties of
the model.

## The engine (`MCTS.py`)

- `mcts_game.dfy` (module `MctsGame`) models the state interface `AbstractState` as a record
  `Game<S>` of four functions: `terminated`, `random_action`, `update_value` and
  `state_exhausted`.
  - The record also carries three views that only the proofs use: the legal actions, the state
    an action leads to, and a measure of the moves left.
  - Five laws (`Lawful`) say what a well-behaved game owes the engine.
  - The UCB score is a partial function that only needs to be defined when both visit counts are
    positive: the child's count is the divisor in `calc_UCB`, and the parent's count is the
    argument of its `math.log`.
- `mcts_arena.dfy` (module `MctsArena`) holds the tree of `Node`s as an arena.
  - Node `i` is `nodes[i]` and references between nodes are indices.
  - Node 0 is the root, and its parent is -1, standing for Python's `None`.
  - The module states the tree invariants:
    - `Shaped`: one action per child, children listed once and pointing back, parents before
      children.
    - `Explored`: every expanded action is legal and distinct, and leads to its child's state.
    - `Covered`: a node's visits cover its children's visits.
    - `Visited`: every non-root node has been visited.
    - `Completed`: `Shaped`, `Covered` and `Visited`, and the root's visit count equals the
      number of rounds. `Explored` is kept beside it wherever the game draws only untaken legal
      actions.
  - It also gives the specification functions of `select` (`BestIndex`, `Descend`), of
    `expand` (`Expanded`), of `backpropogate` (`Backpropagated`) and of the final
    most-visited choice (`MostVisited`). Lemmas prove that each step keeps the invariants.
- `mcts.dfy` (module `Mcts`) is the imperative engine.
  - A `Tree` class holds the arena. Its methods `Select`, `Expand` and `Backpropagate` are
    proved against those functions.
  - `Simulate` is the playout loop.
  - `MonteCarloTreeSearch` is the search loop. For a lawful game it is proved that:
    - the search fails only on a terminated initial state or when no round ran;
    - `random_action` is never called with nothing left to choose;
    - the root's visit count equals the number of rounds;
    - the result is the state of the root's first most-visited child, which is one legal move
      away from the initial state.

    For every game, a search that does not fail on an empty draw also returns its history: the
    lone root, then for each round the tree obtained by expanding the node `select` reaches,
    playing out the new leaf, and backpropagating the playout's final state (`RoundFrom`).

Randomness is modelled explicitly:
- `random_action` takes a `pick` that stands for the random draw.
- The search reads its draws, in order, from a stream `rng: nat -> nat`:
  - one draw per expansion, taken even when the selected node is terminated;
  - one draw per playout move.
- The tic-tac-toe instances choose `list[pick % len(list)]`.

A call that raises in Python returns an error value instead:
- `random.choice([])` and `random.randint(0, -1)` become `None` from `random_action`, and
  `Err(EmptyChoice)` from the search.
- `sorted([])[0]` becomes `Err(NoChildToReturn)`.

## The games

- `grid.dfy` (module `Grid`) holds the board logic shared by both files:
  - nine cells, with Python's negative indexing;
  - the increasing list of empty cells;
  - the eight lines in the order the row/column loop and the two diagonal tests visit them;
  - `FirstWin`, a reference definition: the first completed line in that order.
- `tictactoe.dfy` (module `TicTacToe`) models the pure `TTT_board` and `TTT_state`.
  - `check_game_state` is proved to report the owner of the first completed line, then Draw on
    a full board, then Continue.
  - `random_action` is proved to pick exactly an empty cell not yet taken.
- `tictactoe_search.dfy` (module `TicTacToeSearch`) plugs `TTT_state` into the engine.
  - It proves that tic-tac-toe obeys every law.
  - Hence a search on an undecided board returns the board with one more mark, put by the
    other player into an empty cell.
- `oldtictactoe.dfy` (module `OldTicTacToe`) models `OLDtictactoe.py` with classes:
  - a `TTT_Board` whose cells are written in place by `action`;
  - a `TTT_State` that shares its board, caches its count of empty cells, and has its outcome
    assigned after construction.
  - `checkGameOver` is proved to agree with the newer `check_game_state` on every board.
  - The old `random_action` is modelled as written: it ignores the excluded actions and always
    reports action id 0.

`options.dfy` and `seqs.dfy` hold an `Option` type and facts about sequences of distinct or
increasing integers.

## Model

| member | source | states |
|---|---|---|
| `Mcts.Tree.constructor` | MCTS.py:83-93 | the root `Node(initial_state)` has parent None (-1), no children, no actions taken, 0 visits and value 0; this tree is the completed tree of zero rounds |
| `MctsArena.NewNode` | MCTS.py:83-93 | a new node holds the given state and parent, and a new node without a parent is, alone, the completed tree of zero rounds |
| `MctsArena.ExpandedChanges` | MCTS.py:202-212 | expansion appends the action to the node's `actions_taken` and a new last node to its children; the new node has that node as parent and no children, actions, visits or value; every other node is unchanged |
| `MctsArena.ExpandedShaped` | MCTS.py:205-210 | expansion keeps `len(children) == len(actions_taken)`, children pointing back to their parent, and every node's visits covering its children's visits |
| `MctsArena.ExpandedExplored` | MCTS.py:202-210 | expanding a legal action the node has not taken keeps every recorded action distinct and legal, with the child holding the state it leads to |
| `Mcts.Tree.Expand` | MCTS.py:194-212 | a terminated node is returned, with the tree unchanged; otherwise the drawn action and its state are added as above and the new child is returned; an empty draw is an `EmptyChoice` error |
| `Mcts.ExpandNeverEmpty` | MCTS.py:196-204 | in a lawful game, `random_action` never runs out on a live node that `select` can return (no children, or children not exhausted) |
| `MctsArena.BestIndex` | MCTS.py:184-189 | the child it picks has the largest score among the children, and every earlier child's score is strictly smaller: the first of equals wins |
| `Mcts.BestChild` | MCTS.py:184-189 | the inner `for` loop ends on the position `BestIndex` names: the first child of strictly largest score |
| `MctsArena.Descend` | MCTS.py:179-191 | the node reached is numbered at least the start and either has no children or is not `state_exhausted(len(children))` |
| `Mcts.Tree.Select` | MCTS.py:178-191 | the loop ends on the node `Descend` reaches from the root, which has no children or unexhausted children |
| `MctsArena.ScorableAt` | MCTS.py:111-112 | in a tree where every non-root node is visited, every score `select` computes has positive child and parent visits, so the divisions and the logarithm are defined |
| `MctsArena.CompletedIsScorable` | MCTS.py:136-140 | after any number of completed rounds, the root has visits whenever it has children, so `select` can score them |
| `Mcts.Playout` | MCTS.py:215-221 | a successful playout ends in a terminated state, a terminated start is returned at once, and draws are only consumed |
| `Mcts.PlayoutSucceeds` | MCTS.py:218-219 | when every live state has a move and `random_action` draws among the legal ones, a playout never fails |
| `Mcts.Simulate` | MCTS.py:215-221 | the `while not terminated` loop computes exactly the playout |
| `MctsArena.RootOnChain` | MCTS.py:226-229 | walking parents from any node reaches the root |
| `MctsArena.ChainBelow` | MCTS.py:226-229 | the nodes walked from `n` are numbered at most `n`, so the walk ends |
| `MctsArena.ChainClosed` | MCTS.py:226-229 | the parent of a walked node (other than the root) is walked too |
| `MctsArena.ChainSiblings` | MCTS.py:226-229 | no two walked nodes share a parent |
| `Mcts.ChainStep` | MCTS.py:226-229 | the walk from a walked node stays within the walk, reaches its parent next, and ends at a node without parent |
| `MctsArena.ChildrenOnChain` | MCTS.py:226-229 | at most one child of a node is walked, and none unless the node itself is |
| `MctsArena.BackpropagatedChanges` | MCTS.py:224-232 | each node from `n` up to the root gains exactly one visit, each such node but the root adds `update_value(sim_state)` to its value, and no other node or field changes |
| `MctsArena.BackpropagatedKeeps` | MCTS.py:224-232 | backpropagation keeps the tree shaped and explored and keeps visits covering children's visits; all non-root nodes become visited; the root gains one visit and keeps its value |
| `Mcts.Tree.Backpropagate` | MCTS.py:224-232 | the parent-chain loop leaves the arena exactly as `Backpropagated` describes |
| `MctsArena.MostVisited` | MCTS.py:153-155 | the chosen child has the most visits, and every earlier child has strictly fewer: the stable descending sort puts the first one of most visits first |
| `Mcts.ExpansionRound` | MCTS.py:137-138 | selecting and expanding keeps the tree shaped, explored and covered; the root keeps its visits and value; only the new leaf is unvisited; a live root of a lawful game has a child |
| `Mcts.BackpropagationRound` | MCTS.py:139-140 | backpropagating from the new leaf completes the round: the root's visits go up by one |
| `Mcts.SearchRound` | MCTS.py:136-140 | a round that does not fail keeps the search invariant with one more round, and leaves exactly the tree `RoundFrom` describes: the node `select` reaches expanded with the round's first draw, the playout of the new leaf from the next draws, and its final state backpropagated from the leaf; in a lawful game a round never fails |
| `Mcts.HistoryGrows` | MCTS.py:136-140 | a round from the last tree of a search history extends the history by the tree it leaves |
| `Mcts.SearchOutcome` | MCTS.py:152-155 | in a lawful game, the root has children exactly when a round ran and the initial state is live; each child holds a state one legal action from the initial state |
| `Mcts.MonteCarloTreeSearch` | MCTS.py:116-175 | for a lawful game it fails exactly when `iterations < 1` or the initial state is terminated, and then only with `NoChildToReturn`; the root has as many visits as iterations ran; the returned history starts at the lone root and steps by one `RoundFrom` round per iteration to the final tree; with untaken legal draws the final tree is `Explored`; the result is the state of the first most-visited root child, one legal move from the initial state |
| `Grid.AllEmptyActions` | tictactoe.py:139-140 | the default board of nine zeros (`EmptyBoard`) has every cell as a possible action, in order |
| `Grid.EmptyFrom` | tictactoe.py:164 | the scan from index `k` lists, in increasing order, exactly the indices from `k` on that hold 0 |
| `Grid.PossibleActions` | tictactoe.py:157-164 | the result lists, in increasing order, exactly the indices whose cell is 0 |
| `Grid.PossibleActionsCount` | tictactoe.py:157-164 | the number of possible actions is the number of empty cells |
| `Grid.PossibleActionsAfterMark` | tictactoe.py:153-164 | writing a non-zero mark into an empty cell removes exactly one possible action |
| `Grid.FirstWinFrom` | tictactoe.py:173-193 | the line found is completed and every line before it, in the order visited, is not; with none found, no line from there on is completed |
| `Grid.FirstWinRowColumn` | tictactoe.py:173-187 | iteration `i` of the loop tests row `i` and then column `i`, in the order `FirstWin` uses |
| `Grid.FirstWinDiagonals` | tictactoe.py:190-193 | the two diagonal tests come after the rows and columns, 0-4-8 before 2-4-6 |
| `Grid.FullIffNoActions` | tictactoe.py:196-197 | a board has no possible action exactly when no cell is 0 |
| `TicTacToe.TakeAction` | tictactoe.py:142-155 | the new board holds 1 for PLAYER1 and 2 for PLAYER2 at `location` (Python negative indices counted from the end) and the old value everywhere else; the old board, a value, is untouched |
| `TicTacToe.CheckFromFirstWin` | tictactoe.py:173-199 | the loop from iteration `i` on reports the owner of the first completed line from there on, else Draw on a full board, else Continue |
| `TicTacToe.CheckGameState` | tictactoe.py:166-199 | PLAYER1 or PLAYER2 exactly when some line of three equal non-zero cells exists, namely the owner of the first such line (mark 1 is PLAYER1, any other mark PLAYER2); DRAW exactly when there is no such line and no empty cell; CONTINUE exactly when there is no such line and an empty cell |
| `TicTacToe.FullBoardIsDecided` | tictactoe.py:195-199 | a full board is never CONTINUE |
| `TicTacToe.NatString` | tictactoe.py:211 | `str` of a non-negative integer is non-empty, and is its one digit below 10 |
| `TicTacToe.RenderRow` | tictactoe.py:211 | a row of one-digit cells is the three digits separated by single spaces |
| `TicTacToe.RenderLayout` | tictactoe.py:201-211 | a board of one-digit cells is shown as 19 characters: the nine digits in cell order, a space after each cell but the last, and a newline after the space ending each of the first two rows |
| `TicTacToe.Render` | tictactoe.py:201-211 | the text of any board is at least 19 characters: nine cells, eight single spaces and two newlines; `RenderLayout` gives it exactly for one-digit cells |
| `TicTacToe.Terminated` | tictactoe.py:49-56 | a state is terminated exactly when some line is completed or no cell is empty |
| `TicTacToe.Without` | tictactoe.py:73-75 | the filter keeps exactly the elements not excluded, no more of them; on an increasing list the result is increasing; a one-element list is kept or dropped whole |
| `TicTacToe.WithoutAppend` | tictactoe.py:73-75 | the filter of a concatenation is the concatenation of the filters, so with the one-element case the comprehension keeps the order of the list |
| `TicTacToe.WithoutCounts` | tictactoe.py:73-75 | every element not excluded is kept as many times as it occurs, and an excluded one never |
| `TicTacToe.RandomAction` | tictactoe.py:58-88 | it fails exactly when every empty cell is excluded; otherwise the action is an empty cell not excluded, and the successor has the other player and the board with that player's mark there |
| `TicTacToe.UpdateValue` | tictactoe.py:90-113 | 0 on DRAW, +1 when the PLAYER1 winner is this state's player, -1 for the other; PLAYER2 and CONTINUE fall through to +1 for PLAYER2 and -1 for PLAYER1 |
| `TicTacToe.UpdateValueAlternates` | tictactoe.py:104-113 | the reward of an outcome to one player is the negation of its reward to the other |
| `TicTacToe.StateExhausted` | tictactoe.py:115-126 | exhausted exactly when the count reaches the number of empty cells |
| `TicTacToeSearch.TicTacToeProgressing` | tictactoe.py:72-88 | each random action leaves one empty cell fewer, so a playout ends within nine moves |
| `TicTacToeSearch.TicTacToeLawful` | tictactoe.py:49-126 | `TTT_state` obeys every law: `random_action` chooses exactly among the untaken empty cells and leads to `take_action`; playouts shorten; `state_exhausted` counts empty cells; an undecided board has an empty cell; the empty cells are listed once each |
| `TicTacToeSearch.TicTacToeMove` | tictactoe.py:225-227 | the search succeeds exactly on an undecided board with at least one iteration, never fails on an empty draw, and returns the board with the other player's mark in one empty cell |
| `OldTicTacToe.OldBoard.Empty` | OLDtictactoe.py:78-80 | the default board is nine zeros |
| `OldTicTacToe.OldBoard.Copy` | OLDtictactoe.py:78-80 | the board holds a copy of the given nine cells |
| `OldTicTacToe.OldBoard.Action` | OLDtictactoe.py:82-83 | cell `location` (negative indices counted from the end) becomes `player` in place; the other eight cells keep their values |
| `OldTicTacToe.OldBoard.PossibleCells` | OLDtictactoe.py:85-86 | the result lists, in increasing order, exactly the indices whose cell is 0 |
| `OldTicTacToe.OverFromAgrees` | OLDtictactoe.py:88-119 | each iteration of the old loop classifies the board exactly as the new `check_game_state` does |
| `OldTicTacToe.OldBoard.CheckGameOver` | OLDtictactoe.py:88-119 | the same first-completed-line, Draw and Continue classification as the new board, and equal to it on every board |
| `OldTicTacToe.OldState.constructor` | OLDtictactoe.py:15-19 | a new state has `terminate = CONTINUE` whatever its board (so `terminated()` is false), shares the given board and caches its number of empty cells for `state_exhausted` |
| `OldTicTacToe.OldState.UpdateValue` | OLDtictactoe.py:55-61 | +1 when the recorded winner matches `player1`, -1 when it does not, 0 for DRAW and CONTINUE |
| `OldTicTacToe.OldState.StateExhausted` | OLDtictactoe.py:66-67 | `n` reaches the count cached at construction; it has no contract of its own: the constructor's caching of the board's empty-cell count in `numNextStates` and `RandomAction`'s clause on the successor make it hold exactly when `n` reaches the number of empty cells the board had when the state was made |
| `OldTicTacToe.OldState.Terminated` | OLDtictactoe.py:63-64 | true exactly when an outcome other than CONTINUE has been recorded; it has no contract of its own: the constructor's `terminate == Continue` makes it false for a new state, and `RandomAction`'s clause makes it hold on the successor exactly when its board has a completed line or is full |
| `OldTicTacToe.OldState.RandomAction` | OLDtictactoe.py:21-53 | it fails exactly on a full board; otherwise it reports action 0 and a fresh state with a fresh board: the old board with one empty cell set to 2 (first player's state) or 1, `player1` flipped, `terminate` set to that board's `checkGameOver`, so `terminated()` holds exactly on a decided board and `state_exhausted(n)` exactly when `n` reaches its empty cells; `actions_taken` is ignored and the caller's board is untouched |

## Left out

- The floating-point formula of `calc_UCB` (`math.sqrt`, `math.log`, the float division and the exploration parameter) and the `ucb` field it fills. The score is an arbitrary real-valued function, required to be defined only when both visit counts are positive.
- Randomness. Every draw is a parameter, or a stream the search reads in order, so no claim about the probability of a result is made.
- Mcts.SearchRound: a draw is taken from the stream for every expansion, even of a terminated node, where Python draws nothing. This changes which draws later steps see but not any stated property.
- The debug printing of `MonteCarloTreeSearch` and the `DEBUG` flag. The warning print of the old `random_action` is left out too.
- The interactive `__main__` loops of both game files, and `main.py`, which are console drivers around `input()` and `print`.
- The `ABC`/`Generic`/`TypeVar` machinery of `MCTS.py`. `AbstractState` is a record of functions, and `__str__` of a state is not part of it.
- Object identity of `Node`s: nodes are arena entries addressed by index, so Python's sharing of `Node` objects is represented by indices, not references.
- Mcts.MonteCarloTreeSearch: requires `Progressing` (every random action shortens the game), because Dafny needs the playout loop to terminate; a game whose playouts can run forever is not modelled. It also returns the final tree, so that its contract can describe the choice.
- Boards of a length other than nine. The new `TTT_board(board)` accepts any list, and the model fixes nine cells. `take_action` and `action` require a location in `-9..8`, where Python raises `IndexError` otherwise.
- TicTacToe.RenderLayout: states the layout only for cells holding one digit, which is all the games write; `Render` itself also covers other integers through `str`.
- The `__str__` of `OLDtictactoe.py` (the same rows with a trailing newline) and of `TTT_state`, which only forwards to the board.
- The tuple payloads of the `Players` and `GameState` enums (`PLAYER1 = (1,)`), which only affect printing: the enums are plain constructors.
- The old `TTT_State` is not plugged into the engine. Its states are mutable objects, and `Game` needs functions of values. Its random action also always reports action id 0 and ignores exclusions, so it does not meet the engine's laws.
