# NonZero puzzle solver — a Dafny model

`nonzero.go` solves a peg-solitaire-like puzzle on a rectangular board of
`xMax` columns and `yMax` rows, stored row after row in one flat array
(`chessboard[xMax*i + j]` is row `i`, column `j`). Each cell holds a count;
exactly one cell is negative — the blank. A move carries the whole count of
an occupied orthogonal neighbour of the blank into the blank, and that
neighbour becomes the new blank. When the cell on the far side of the blank
is on the board, the move is a capture: that cell loses one, and so does
the carried count. Otherwise the count just slides. The game is won when
every cell but the blank holds zero. `solve` is a depth-first search. It
plays each move of the blank on a copy of the board and searches the copy.
The list it returns holds the last move first. `Solve` reverses that list
and reports "not a game" or "no result" as errors.

The model has five modules:

- `Rules` (rules.dfy): the board as a sequence of counts, and the functions
  that specify the methods. These are the move list (`Moves`), a move
  (`Apply`), the validity and end checks, and lemmas about each.
- `Termination` (termination.dfy): why the search ends. Every move lowers
  the pair (sum of the positive counts, number of borders the blank sits
  on) when the board has no side of length two. A 2 by 2 board can cycle.
- `Search` (search.dfy): the search as functions, with soundness and
  completeness. The list found, reversed, solves the board. The search
  fails only when no list of moves solves the board.
- `NonZero` (board.dfy): class `Board`. It holds the source's fields and
  changes its array in place. Each method is proved against the functions
  above. The module also sets up the test board of `nonzero_test.go`.
- `Findings` (findings.dfy): the move-list and capture guards as the source
  writes them, with the inputs on which they go wrong.

Moves are written out as the 1-based (row, column) pair that `Step.String`
prints, kept as a pair of integers rather than a formatted string.

The end check (nonzero.go:142-150) holds when `xMax*yMax - 1` cells are
zero. On a game this means every cell but the blank is zero
(`Rules.EndIff`): a board where one positive count remains does not pass
the end check.

## Model

| member | source | states |
|---|---|---|
| Rules.Label | nonzero.go:13-15 | a step is written out as its 1-based (row, column) pair, from which `Unlabel` recovers the step |
| Rules.Pick | nonzero.go:67-78 | one neighbour test: a false guard adds nothing; a true guard adds the cell exactly when it is on the board and holds a count above zero |
| Rules.Moves | nonzero.go:63-80 | the blank has at most four moves, and each names a cell holding a count above zero |
| Rules.MovesSound | nonzero.go:63-80 | every move offered is an on-board orthogonal neighbour of the blank |
| Rules.MovesComplete | nonzero.go:63-80 | a step is offered exactly when it is an orthogonal neighbour of the blank that is on the board and holds a positive count |
| Rules.MovesOrdered | nonzero.go:67-78 | moves come strictly in the order up, left, down, right |
| Rules.MovesAtBorder | nonzero.go:63-80 | a blank in a corner has at most two moves, and one on an edge at most three |
| Rules.Opposite | nonzero.go:37-38 | the cell reflected through the blank; no contract of its own, stated by `Rules.OppositeAdjacent` |
| Rules.OppositeAdjacent | nonzero.go:37-38 | for a neighbour of the blank, the reflected cell is the neighbour on the other side, in the reverse direction, and reflecting it again gives back the first |
| Rules.Shift | nonzero.go:39-45 | the cell updates of a move keep the board's size |
| Rules.ShiftEffect | nonzero.go:39-45 | the source cell becomes -1; the blank gets the carried count, one less on a capture; on a capture the opposite cell loses one; nothing else changes |
| Rules.Apply | nonzero.go:34-46 | a move keeps the board's size; its effect is stated by `Rules.ApplyEffect` |
| Rules.MoveIndices | nonzero.go:35-38 | the moved cell is on the board and is not the blank; the opposite cell, when on the board, sits at flat index `2*blank - source` |
| Rules.ApplyEffect | nonzero.go:34-46 | a move to the blank: the source cell turns blank, the old blank receives the count (one less on a capture), the opposite cell loses one exactly when it is on the board, and every other cell is unchanged |
| Rules.IsValid | nonzero.go:160-163 | a game has exactly one negative cell; no contract of its own, its meaning is stated by `Rules.ValidIff` |
| Rules.Blank | nonzero.go:152-164 | on a game, the blank reported is an index of the board holding a negative count |
| Rules.IsEnd | nonzero.go:149 | the end check: the zero cells number one less than the cells; no contract of its own, its meaning on a game is stated by `Rules.EndIff` |
| Rules.LastNeg | nonzero.go:152-164 | the index reported is 0 when no cell is negative, otherwise a negative cell with no negative cell after it |
| Rules.ValidIff | nonzero.go:152-164 | a board is a game with its blank at `k` exactly when `k` is its only negative cell |
| Rules.BlankUnique | nonzero.go:152-164 | on a game, the reported index holds the negative cell and every other cell is zero or more |
| Rules.EndIff | nonzero.go:142-150 | on a game, the end check holds exactly when every cell but the blank is zero |
| Termination.CaptureLowersSum | nonzero.go:41-44 | a capture lowers the sum of the positive counts |
| Termination.SlideLeavesBorder | nonzero.go:39-45 | on a board with no side of length two, a slide keeps the sum of positive counts and moves the blank off a border |
| Termination.MoveDecreases | nonzero.go:126-134 | on a board with no side of length two, every move lowers (positive sum, border count) lexicographically, so the recursion of `solve` ends |
| Termination.SideTwoCycles | nonzero.go:118-140 | on the 2 by 2 game [-1,1,0,0], the first move leads to [1,-1,0,0], whose first move leads back, so `solve` recurses forever |
| Search.Reverse | nonzero.go:110-114 | the reversed list has the same length, and element `k` is element `n-1-k` of the input |
| Search.Labels | nonzero.go:136 | each step of the list is written out as its 1-based pair, in the same order |
| Search.UnlabelsLabels | nonzero.go:13-15 | reading the written-out pairs back gives the steps |
| Search.SearchSpec | nonzero.go:118-140 | the search succeeds only on a game, and answers with no moves exactly when the game already passes the end check |
| Search.TryMoves | nonzero.go:126-139 | the loop over the blank's moves succeeds only with a non-empty list whose last entry, the first move played, is one of the blank's moves |
| Search.Child | nonzero.go:130-131 | the board after the `k`-th move of the blank has the same size and is lower in the search's measure |
| Search.SearchSound | nonzero.go:118-140 | when the search succeeds, its list reversed is a legal sequence of moves that ends on a board passing the end check |
| Search.SolvableFound | nonzero.go:126-138 | if some sequence of moves solves the board, the search succeeds |
| Search.SearchComplete | nonzero.go:118-140 | the search fails only when no sequence of moves solves the board |
| Search.SearchIff | nonzero.go:118-140 | the search succeeds exactly when the board can be solved |
| Search.SolveSpec | nonzero.go:102-116 | "not a game" exactly when the board does not have one negative cell, and an empty list of moves exactly when the game already passes the end check |
| Search.SolveCorrect | nonzero.go:102-116 | "not a game" exactly when the board does not have one negative cell; "no result" exactly when it is a game that cannot be solved; otherwise the pairs returned, read as steps and played in order, solve the board |
| Search.SolvesEnds | nonzero.go:142-150 | a solution played out ends on a game whose every cell but the blank is zero |
| Search.CaptureOverZero | nonzero.go:41-44 | on a board of any size, a capture over a zero cell leaves two negative cells, so the search rejects that branch |
| NonZero.Board.New | nonzero.go:25-31 | a board of `x` columns and `y` rows with `x*y` cells, every cell -1 |
| NonZero.Board.Of | nonzero.go:86 | a board made of the given array and dimensions |
| NonZero.Board.At | nonzero.go:49-51 | the count of row `i`, column `j` is the cell at flat index `xMax*i + j` |
| NonZero.Board.SetAt | nonzero.go:53-55 | only the cell at flat index `xMax*i + j` changes, and it becomes `v` |
| NonZero.Board.Set | nonzero.go:58-60 | only the cell of 1-based row `i` and column `j` changes, and it becomes `v` |
| NonZero.Board.GetAllStep | nonzero.go:63-80 | the steps returned are the move list `Rules.Moves` of the blank |
| NonZero.Board.RunStep | nonzero.go:34-46 | the new contents are the old contents with the move applied (`Rules.Apply`) |
| NonZero.Board.Copy | nonzero.go:83-87 | a new board with a new array, the same dimensions and the same contents |
| NonZero.Board.CheckValid | nonzero.go:152-164 | `ok` holds exactly when one cell is negative; the index is the last negative cell; when `ok`, it is the only cell below zero |
| NonZero.Board.CheckEnd | nonzero.go:142-150 | the result is the end check; on a game it holds exactly when every cell but the blank is zero |
| NonZero.Board.Search | nonzero.go:118-140 | succeeds exactly when the search succeeds, and returns its list written out (last move first); otherwise returns nothing |
| NonZero.Board.TryEach | nonzero.go:126-139 | succeeds exactly when one of the blank's moves, tried in order on a copy, leads to a board the search solves, and returns the list found for the first such move with that move appended |
| NonZero.Board.Solve | nonzero.go:102-116 | the result is `SolveSpec`: the two errors, or the moves written out in playing order |
| NonZero.Board.ReverseFill | nonzero.go:110-114 | the array filled from the back holds the list reversed |
| NonZero.SampleBoard | nonzero_test.go:9-17 | the test's board is [1,2,-1,0,2,2,1,1,1]: a game with the blank at index 2, not finished, with moves (0,1) then (1,2) |
| Findings.Read | nonzero.go:49-51 | a read succeeds exactly when the flat index lies in the array, and then it returns that cell |
| Findings.PickAsWritten | nonzero.go:67-78 | a false guard adds nothing; a true guard panics exactly when the flat index is outside the array, and otherwise adds the cell exactly when it holds a count above zero, whether or not it is on the board |
| Findings.MovesAsWritten | nonzero.go:63-80 | the step list as written, when it does not panic, has at most four steps, each naming an array cell that holds a count above zero |
| Findings.ApplyAsWritten | nonzero.go:34-46 | a move as written panics exactly when the source index is outside the array, or the as-written capture guard (opposite row below `w`, column below `h`) holds and the opposite index is outside the array; otherwise it keeps the board's size and gives the blank the carried count, one less exactly when that guard holds |
| Findings.OffBoardStep | nonzero.go:76 | on a 2-column, 3-row board the step list as written offers (0,2), a cell off the board, where the correct list is empty |
| Findings.ReadPastEnd | nonzero.go:73 | on a 3-column, 2-row board with the blank at row 1, column 0, the step list as written reads past the array |
| Findings.MissedCapture | nonzero.go:41 | on a 2-column, 3-row board a move whose opposite cell is on the board slides as written instead of capturing |
| Findings.SquareMovesAgree | nonzero.go:73-78 | on a square board the step list as written equals `Rules.Moves` |
| Findings.SquareApplyAgrees | nonzero.go:41 | on a square board a move played as written equals `Rules.Apply` |

## Left out

- `NonZero.String` (nonzero.go:89-99) and the formatting in `Step.String`: they only render text. A step's written form is kept as its 1-based pair (`Rules.Label`).
- Error values are the datatype `Search.Error` (`NotAGame`, `NoResult`), not Go error strings.
- The output that `nonzero_test.go` prints after line 17. Only the board the test builds is modelled (`NonZero.SampleBoard`).
- 64-bit integer width: counts, indices and dimensions are unbounded integers. The source's `int64` could overflow only for boards far beyond any real puzzle.
- Negative dimensions: `New` takes natural numbers. In Go, exactly one negative dimension makes `x*y` negative and `make` panics; with both negative, `x*y` is positive and the source builds a board with a negative `xMax` and `yMax`, which this model does not cover.
- NonZero.Board.Search, NonZero.Board.Solve, Search.SearchSpec, Search.SolveSpec: on a game that does not yet pass the end check, require that neither side of the board has length two (`Search.Searchable`). On such boards the source's recursion need not end (`Termination.SideTwoCycles`). A board that is not a game, or already passes the end check, is answered at once on any board size, as in the source.
- NonZero.Board.TryEach, Search.TryMoves: require no side of length two, since they only run on a game that does not pass the end check.
- NonZero.Board.At, NonZero.Board.SetAt, NonZero.Board.Set, NonZero.Board.RunStep: require the flat index to lie in the array. The source panics otherwise; `Findings.Read` models that case as `None`.
- NonZero.Board.GetAllStep, NonZero.Board.RunStep, Rules.Pick, Rules.Moves, Rules.Apply, Search.SearchSpec, Search.TryMoves: use the corrected bounds (row against `yMax`, column against `xMax`), not the bounds as written at nonzero.go:41, :73 and :76. The as-written guards are modelled in `Findings`, and they agree with the corrected ones on square boards (`Findings.SquareMovesAgree`, `Findings.SquareApplyAgrees`).
- Go's `/` and `%` truncate toward zero. The blank's index is never negative, so Dafny's Euclidean operators agree with Go's here.

## Findings

| source | as written | input that shows it | evidently intended | confidence | as-written member | corrected member |
|---|---|---|---|---|---|---|
| nonzero.go:76 | `y < n.yMax-1` bounds the column by the number of rows | 2 columns, 3 rows, cells [0,-1,1,0,0,0], blank at index 1: step (0,2) is offered, a column that does not exist | `y < n.xMax-1` | high (not executed) | Findings.OffBoardStep | Rules.MovesSound |
| nonzero.go:73 | `x < n.xMax-1` bounds the row by the number of columns | 3 columns, 2 rows, blank at index 3 (row 1): row 2 is read, past the end of the array | `x < n.yMax-1` | high (not executed) | Findings.ReadPastEnd | Rules.MovesComplete |
| nonzero.go:41 | `xO < n.xMax && yO < n.yMax` swaps the two bounds | 2 columns, 3 rows, cells [1,0,-1,0,1,0], move (0,0) into the blank at index 2: the opposite cell (2,0) is on the board, but the code slides instead of capturing | `xO < n.yMax && yO < n.xMax` | high (not executed) | Findings.MissedCapture | Rules.ApplyEffect |
