# Game of Life history, sudoku solvers and Ruby-style enumerables in Dafny

This project models three parts of the go-start repository and proves properties of them.

**The Game of Life engine of gtk-app.**
- `LifeGrid.Grid` is one generation (`BooleanBufferImpl`): a row-major array of cells with bounds-checked
  `get`/`set`, edge-clamped Moore-neighbour counting, the B3/S23 step `nextGeneration`, `equals`, and two
  resizes.
- Each grid has an abstract value, `LifeGrid.Cells`. The B3/S23 rules are stated once, on that value, by
  the functions `Step`, `Neighbors` and `Resized`. Every loop of the grid is proved to compute them.
- `LifeRing.Ring` is the history (`BooleanBuffersImpl`): a fixed ring of optional grid slots and a pointer.
  It provides the navigation `relative`/`next`/`prev`, `progress`, `changeSizes`, and the ring's
  `nextGeneration`.
- `nextGeneration` computes the successor into the following slot. It then rewinds when the pattern repeats
  or stops changing.
- A grid reused in that slot is resized by `changeSizeDestructing`, which keeps its old bounds. The step
  therefore halts when a write fails under those bounds. `Reallocate` is the corrected resize.
- The ring's invariant `Valid` says three things:
  - the slot at the pointer is occupied;
  - every occupied slot owns its grid and its storage;
  - the ghost list `Gens` records each slot's generation.

**The sudoku solvers.**
- `SudokuRules` states the rules on the 81 cells of a board, cell (x, y) at `y * 9 + x`:
  - `Placeable`, which is what `isValid` checks;
  - `FirstEmpty`, which is what `findEmptyCell` returns;
  - the backtracking search `Solve`/`TryFrom`.
- `SudokuHeuristic` states the naked-singles heuristic in the same way. `NonUniques` is `getNonUniques`.
  `HeuristicAsWritten` is `SolveByHeuristic`.
- `SudokuBoard.Board` is the board package's `sudokuBoardImpl`. `SudokuArray` is the command's solver over a
  9 by 9 array. Their methods are proved to compute these functions. The array is shown through the same
  flat layout as the board.

**The go-ruby enumerables.**
- An `Enumerable` holds a generator: a range `R(start, end, step)` or a slice `E(data)`.
- Every operation creates an `Enumerator` and loops while `hasNext`, taking `next`. The enumerator is a
  class whose `pos` field `next` advances.
- `Run` is the sequence of elements such a loop takes, and whether it ended. Each operation is proved to
  return what the source returns on that sequence.
- The slice enumerator never advances, so a loop over a non-empty slice does not end. Each loop therefore
  takes a fuel bound. A loop still going when the fuel is spent reports `OutOfFuel`.
- Lemmas give the elements of a range, their count, and the slice enumerator's endless repetition of the
  first element.

## Model

| member | source | states |
|---|---|---|
| LifeGrid.WithAt | gtk-app/buffers.go:71-77 | the value after writing cell (x, y) has v there and every other cell unchanged |
| LifeGrid.EmptyIsDead | gtk-app/buffers.go:50-57 | every cell of the grid initBuffer makes is dead, inside and outside its bounds |
| LifeGrid.Neighbors | gtk-app/buffers.go:101-115 | the live-neighbour count is at most 8 |
| LifeGrid.StepAt | gtk-app/buffers.go:127-141 | every cell of the next generation is live exactly when B3/S23 says so over the old cell and its eight neighbours |
| LifeGrid.StepChangedIff | gtk-app/buffers.go:124-144 | the next generation differs from the grid exactly when some in-bounds cell flips |
| LifeGrid.EmptyIsFixedPoint | gtk-app/buffers.go:117-145 | the all-dead grid is its own successor |
| LifeGrid.ResizedAt | gtk-app/buffers.go:87-99 | inside the new bounds a resized grid shows the old cell, and is dead where the old grid had no cell |
| LifeGrid.ResizedSame | gtk-app/buffers.go:96-98 | resizing to the current dimensions gives back the same value |
| LifeGrid.ResizeRoundTrip | gtk-app/buffers.go:87-99 | resizing away and back keeps exactly the cells inside both sizes; every other cell comes back dead |
| LifeGrid.Grid.Init | gtk-app/buffers.go:50-57 | initBuffer: w by h cells, all dead, in fresh storage |
| LifeGrid.Grid.NewEmptyBuffer | gtk-app/buffers.go:79-85 | a fresh all-dead grid with the receiver's dimensions |
| LifeGrid.Grid.Get | gtk-app/buffers.go:63-69 | defined only inside the grid; returns the cell (x, y) stored at x + y * maxX |
| LifeGrid.Grid.Set | gtk-app/buffers.go:71-77 | halts (log.Fatal, or the index panic) exactly when (x, y) fails the bound check or x + y * maxX lies beyond the storage; otherwise only that element changes; inside a well-formed grid cell (x, y) becomes v and no other cell changes |
| LifeGrid.Grid.Equals | gtk-app/buffers.go:34-48 | true exactly when the dimensions match and every cell agrees |
| LifeGrid.Grid.ChangeSizeDestructing | gtk-app/buffers.go:59-61 | as written: fresh storage of w * h dead cells, while maxX and maxY keep their old values |
| LifeGrid.Grid.Reallocate | gtk-app/buffers.go:59-61 | the destructive resize with the dimensions updated too: an all-dead w by h grid |
| LifeGrid.Grid.ChangeSizeNotDestructing | gtk-app/buffers.go:87-99 | the receiver itself when the dimensions are equal; otherwise a fresh grid holding the top-left overlap with every other cell dead; the receiver is unchanged |
| LifeGrid.Grid.CountNeighbors | gtk-app/buffers.go:101-115 | the number of live in-bounds Moore neighbours, with no wraparound, at most 8 |
| LifeGrid.Grid.CountRow | gtk-app/buffers.go:104-113 | one row pass of countNeighbors: the live in-bounds cells of row y + dy beside x, the centre excluded |
| LifeGrid.Grid.CellSuccessor | gtk-app/buffers.go:131-137 | the current cell and its B3/S23 successor |
| LifeGrid.Grid.NextGeneration | gtk-app/buffers.go:117-145 | as written: a target of other dimensions gets maxX * maxY fresh cells but keeps its bounds; the step halts exactly when a write of the successor fails under those bounds (StaleFails); otherwise the storage holds the successor in the source's layout and changed is true exactly when some cell differs; a nil target, or one of equal dimensions, holds the successor as a grid; the source is unchanged |
| LifeGrid.Grid.NextGenerationIntended | gtk-app/buffers.go:117-145 | corrected: a target of other dimensions is reallocated with its bounds updated, so the target, or a fresh grid for nil, always holds the B3/S23 successor; changed is true exactly when some cell differs |
| LifeGrid.Grid.WriteSuccessor | gtk-app/buffers.go:127-144 | the two loops of nextGeneration: they halt exactly when some write fails under the target's bounds; otherwise the target's storage is the successor and changed is true exactly when some cell differs |
| LifeGrid.Grid.NextRow | gtk-app/buffers.go:130-142 | one row of the step: it halts only when some write fails; otherwise every write of row y passes, row y of the successor lands where the source keeps it, and changed also covers that row |
| LifeGrid.StaleBoundsAfterDestructiveResize | gtk-app/buffers.go:59-61 | after changeSizeDestructing(3, 3) on a 2 by 2 grid the width is still 2 with 9 cells, so x = 2 is out of set's bounds |
| LifeGrid.StaleFailsIff | gtk-app/buffers.go:59-61 | writing a w by h successor into a target that kept bounds tw by th fails exactly when the source has cells and the target is narrower, or lower, or wider while the source has at least two rows |
| LifeGrid.StaleWritesLand | gtk-app/buffers.go:71-77 | when no write fails, each write passes set's checks and lands at the element a w-wide grid keeps the cell in |
| LifeRing.GoRem | gtk-app/buffers.go:182 | Go's % truncates toward zero: the remainder lies strictly between -n and n and has the sign of the dividend |
| LifeRing.Wrap | gtk-app/buffers.go:182-185 | relative's slot is always inside the ring |
| LifeRing.WrapIsMod | gtk-app/buffers.go:182-185 | the truncated remainder lifted by size is the residue of ptr + diff modulo size, for either sign |
| LifeRing.WrapStep | gtk-app/buffers.go:211-217 | next and prev go one slot forward or back, wrapping at the ends, and agree with progress's (ptr + 1) % size |
| LifeRing.WrapRoundTrip | gtk-app/buffers.go:219-225 | prev after next, and next after prev or after progress, return to the slot of departure |
| LifeRing.NeighbourSlotsDistinct | gtk-app/buffers.go:196-241 | with size >= 3 the slots p - 2, p - 1, p and p + 1 are pairwise distinct, except that p - 2 is p + 1 when size is 3 |
| LifeRing.AsWrittenLanding | gtk-app/buffers.go:230-239 | where nextGeneration as written leaves the pointer; it halts exactly on a repeat that is also unchanged when slot p - 2 is empty |
| LifeRing.IntendedLanding | gtk-app/buffers.go:230-239 | the pointer with the rewinds as alternatives is always a slot of the ring |
| LifeRing.LandingsAgreeIff | gtk-app/buffers.go:230-239 | the two landings agree exactly when the successor is not both a repeat and unchanged |
| LifeRing.Ring.Init | gtk-app/buffers.go:163-170 | initBuffers: pointer 0, slot 0 an all-dead w by h grid, every other slot empty |
| LifeRing.Ring.Current | gtk-app/buffers.go:172-178 | the grid at the pointer, which the invariant keeps non-nil, holding the generation shown |
| LifeRing.Ring.Relative | gtk-app/buffers.go:180-194 | moves to the slot (ptr + diff) mod size exactly when it is occupied and reports it; otherwise ptr stays; no slot's generation changes, since the resize result is discarded |
| LifeRing.Ring.Next | gtk-app/buffers.go:211-213 | relative(1) |
| LifeRing.Ring.Prev | gtk-app/buffers.go:215-217 | relative(-1) |
| LifeRing.Ring.Progress | gtk-app/buffers.go:196-209 | the pointer moves to (ptr + 1) mod size; an empty slot there receives an all-dead grid of the current dimensions; an occupied one keeps its generation; no other slot changes |
| LifeRing.Ring.ChangeSizes | gtk-app/buffers.go:247-250 | only the slot at the pointer changes, to the current generation resized with its overlap kept |
| LifeRing.Ring.LookBack | gtk-app/buffers.go:220-225 | the peek at the previous slot: prev is the grid of slot p - 1 (nil when empty) and the pointer ends where it began |
| LifeRing.Ring.StepInto | gtk-app/buffers.go:228-229 | the successor of slot p - 1 is written into slot p: halted exactly when the step as written fails; stale exactly when it does not fail but the slot kept other bounds, and then only that slot's storage changed; otherwise slot p records the successor and no other slot changes |
| LifeRing.Ring.StepGrid | gtk-app/buffers.go:229 | the grid step inside the ring, as written or corrected: the target alone changes; it halts exactly when the step as written fails, and holds the successor otherwise |
| LifeRing.Ring.Advance | gtk-app/buffers.go:220-230 | the first half of nextGeneration: the pointer moves to p + 1; halted or stale as for the step into that slot's grid or the new dead one; otherwise slot p + 1 holds the successor of slot p and repeat is true exactly when that equals slot p - 1 |
| LifeRing.Ring.StepAndCompare | gtk-app/buffers.go:228-230 | progress, the step and, when the step neither halted nor left the slot stale, the comparison with the remembered grid |
| LifeRing.Ring.ProgressAndStep | gtk-app/buffers.go:228-229 | progress then the step: the pointer moves to p + 1, whose grid receives the successor, halting or stale as for StepInto; no other slot's grid changes |
| LifeRing.Ring.NextGeneration | gtk-app/buffers.go:219-241 | as written: halted when the grid of slot p + 1 kept bounds under which a write of the successor fails; stale when its bounds differ but no write fails, and then its storage holds the successor; with equal bounds slot p + 1 holds the successor, changed is true exactly when it differs, and the pointer and the halt are AsWrittenLanding's |
| LifeRing.Ring.Rewind | gtk-app/buffers.go:230-239 | the two rewinds as written, one after the other, with log.Fatal as halted |
| LifeRing.Ring.NextGenerationIntended | gtk-app/buffers.go:219-241 | corrected in both places (Reallocate for the resize, the rewinds as alternatives): p - 1 on a repeat, p when unchanged, p + 1 otherwise; the generation shown is always the successor |
| LifeRing.Ring.RewindIntended | gtk-app/buffers.go:230-239 | the rewinds as alternatives |
| LifeRing.StillLifeHalts | gtk-app/buffers.go:219-241 | on a ring of 100 slots of an 80 by 80 dead grid, nextGeneration, next and nextGeneration end in log.Fatal |
| LifeRing.FirstSteps | gtk-app/buffers.go:219-241 | the first step and next of that run: slots 0 and 1 hold the dead grid, the pointer is at 1, and slot 99 is empty |
| LifeRing.ResizeThenStepHalts | gtk-app/buffers.go:219-250 | on a ring of 3 slots of a 2 by 2 dead grid, nextGeneration, changeSizes(3, 3) and nextGeneration halt: slot 2 kept bounds 2 by 2, so writing cell (2, 0) of the 3 by 3 successor hits log.Fatal |
| LifeRing.StepThenResize | gtk-app/buffers.go:219-250 | the first two calls of that run: the pointer is at 0 with a 3 by 3 grid, and slot 1 holds the 2 by 2 dead grid |
| SudokuRules.FirstEmptyIff | sudoku/board/board.go:100-109 | the first empty cell exists exactly when the board is not filled; it is empty, and every cell before it with x outer and y inner is filled |
| SudokuRules.FirstEmptyAt | sudoku/board/board.go:100-109 | an empty cell with every earlier cell filled is the first empty cell; with every cell filled there is none |
| SudokuRules.ZerosFilled | sudoku/board/board.go:68-75 | a board without empty cells is exactly a filled one |
| SudokuRules.ZerosUpdate | sudoku/board/board.go:148 | writing a digit into an empty cell leaves one empty cell fewer |
| SudokuRules.SolveSound | sudoku/board/board.go:140-159 | a successful search leaves a filled board that keeps every given and puts digits 1 to 9 in the empty cells; a failed one leaves the board as it was |
| SudokuRules.TryFromSound | sudoku/board/board.go:146-158 | the same for the digit loop from a given digit on |
| SudokuRules.CompletesUpdate | sudoku/board/board.go:148-150 | a completion of the board with one more digit placed is a completion of the board |
| SudokuHeuristic.CandidatesBelowSpec | sudoku/board/board.go:171-176 | the digits listed are exactly those below the bound that isValid allows, in ascending order |
| SudokuHeuristic.PossibilitiesBelowSpec | sudoku/board/board.go:168-180 | every possibility names an empty cell below the bound, in ascending index order |
| SudokuHeuristic.PossibilitiesBelowEntries | sudoku/board/board.go:169-177 | each possibility lists the candidates of its cell |
| SudokuHeuristic.PossibilitiesBelowComplete | sudoku/board/board.go:168-180 | every empty cell below the bound has a possibility |
| SudokuHeuristic.PossibilitiesPending | sudoku/board/board.go:166-182 | createPossibilities names empty cells in ascending order, with entries in 1 to 9 |
| SudokuHeuristic.NoPossibilitiesIffFilled | sudoku/board/board.go:166-182 | there is no possibility exactly when the board is filled |
| SudokuHeuristic.AscendingLast | sudoku/board/board.go:168 | in ascending order the last possibility comes after every other |
| SudokuHeuristic.Round | sudoku/board/board.go:191-196 | one round of writing single entries keeps the board's size |
| SudokuHeuristic.RoundOutside | sudoku/board/board.go:191-196 | a round changes no cell that no possibility names |
| SudokuHeuristic.RoundProgress | sudoku/board/board.go:191-196 | a round keeps every given, never adds an empty cell, and removes one when some possibility has a single entry |
| SudokuHeuristic.RoundWithoutUnique | sudoku/board/board.go:191-199 | a round without a single entry changes nothing |
| SudokuHeuristic.NonUniquesSpec | sudoku/board/board.go:184-201 | getNonUniques terminates, keeps every given, never adds an empty cell, and returns possibilities for the final board that are empty exactly when it is filled |
| SudokuHeuristic.NonUniquesSettled | sudoku/board/board.go:186-199 | the list returned is createPossibilities of the final board, and none has a single entry, so each has 0 or at least 2 |
| SudokuHeuristic.FillsSpec | sudoku/board/board.go:214-216 | the copies tried for one possibility are the board with its cell set to each entry, each with one empty cell fewer and the givens kept |
| SudokuHeuristic.TriesSpec | sudoku/board/board.go:213-216 | every copy tried has fewer empty cells and keeps the givens |
| SudokuHeuristic.TriesOffset | sudoku/board/board.go:213-214 | the copies of the first a possibilities come first, and all of them make up the list |
| SudokuHeuristic.TriesAt | sudoku/board/board.go:213-216 | copy number Offset(a) + b is the board with possibility a's cell set to its entry b |
| SudokuHeuristic.TriesPrefix | sudoku/board/board.go:213-214 | the copies of a prefix of the possibilities are a prefix of the copies |
| SudokuHeuristic.TriesLength | sudoku/board/board.go:213-214 | the possibilities before a contribute Offset(a) copies |
| SudokuHeuristic.AsWrittenFrom | sudoku/board/board.go:213-223 | one outcome per remaining copy |
| SudokuHeuristic.AsWrittenStep | sudoku/board/board.go:218-221 | the loop panics at a copy that panics or succeeds, and otherwise goes on with the next copy |
| SudokuHeuristic.LoopsWithoutPointers | sudoku/board/board.go:213-230 | when no copy returns a pointer, the loops panic exactly when some copy panics or succeeds, and otherwise return false with nil |
| SudokuHeuristic.AsWrittenFromNeverCollect | sudoku/board/board.go:218-221 | as written no copy ever returns a solutions pointer |
| SudokuHeuristic.AsWrittenNeverCollects | sudoku/board/board.go:204-232 | as written SolveByHeuristic never returns a pointer, and returns true only when getNonUniques leaves nothing |
| SudokuHeuristic.LoopsSound | sudoku/board/board.go:213-230 | over sound outcomes the loops are sound and succeed exactly when some copy does |
| SudokuHeuristic.LoopsAgree | sudoku/board/board.go:213-230 | the loops as written panic exactly when the corrected loops over the same copies succeed |
| SudokuHeuristic.HeuristicCorrected | sudoku/board/board.go:204-232 | with the base case returning its board as the one solution, the solver returns, succeeds exactly with a non-empty list, and lists only filled boards keeping the givens |
| SudokuHeuristic.CorrectedFrom | sudoku/board/board.go:213-223 | every corrected outcome over the copies is sound |
| SudokuHeuristic.FromAgree | sudoku/board/board.go:213-223 | copy by copy, the one as written panics or succeeds exactly when the corrected one succeeds |
| SudokuHeuristic.AsWrittenVersusCorrected | sudoku/board/board.go:204-232 | with nothing left, as written returns (true, nil) and corrected returns the board; otherwise as written panics exactly when corrected succeeds and returns (false, nil) when it fails |
| SudokuArray.FlatCell | sudoku/sudoku.go:14-52 | board[row][col] is cell (row, col) of the flat view |
| SudokuArray.Store | sudoku/sudoku.go:63 | board[row][col] = v changes that one cell of the flat view |
| SudokuArray.FindEmptyCell | sudoku/sudoku.go:14-23 | the first empty cell in row-major order, or (255, 255, false) when there is none |
| SudokuArray.IsValid | sudoku/sudoku.go:26-52 | true exactly when num is absent from the row, the column and the 3 by 3 box |
| SudokuArray.NotInRow | sudoku/sudoku.go:28-32 | true exactly when num is not in board[row] |
| SudokuArray.NotInColumn | sudoku/sudoku.go:35-39 | true exactly when num is not in column col |
| SudokuArray.NotInBox | sudoku/sudoku.go:42-49 | true exactly when num is not in the box at (row - row % 3, col - col % 3) |
| SudokuArray.SolveSudoku | sudoku/sudoku.go:55-74 | the result and the final board are those of the search Solve on the initial board |
| SudokuArray.TryDigits | sudoku/sudoku.go:61-73 | the digit loop computes TryFrom from digit 1 |
| SudokuArray.TryDigit | sudoku/sudoku.go:62-70 | on failure the written cell is reset to 0, so the board is as before and the search goes on with the next digit |
| SudokuArray.SolveSudokuOutcome | sudoku/sudoku.go:55-74 | true leaves no zero and keeps every clue; false leaves every cell as it was |
| SudokuBoard.Board.constructor | sudoku/board/board.go:21-23 | CreateEmptyBoard: size * size (in uint8) cells, all 0 |
| SudokuBoard.Board.Get | sudoku/board/board.go:47-49 | reads vals[y * size + x], on a 9 by 9 board cell (x, y) |
| SudokuBoard.Board.Set | sudoku/board/board.go:52-54 | writes vals[y * size + x] and no other entry |
| SudokuBoard.Board.XY | sudoku/board/board.go:56-58 | x is below size and y * size + x is the position given, so Index of the result is that position, for any size |
| SudokuBoard.Board.XYRoundTrip | sudoku/board/board.go:56-58 | on a 9 by 9 board xY inverts the position of every cell and names a cell for every position |
| SudokuBoard.Board.Equals | sudoku/board/board.go:60-66 | true exactly when both slices have the same length and agree everywhere |
| SudokuBoard.Board.IsFilled | sudoku/board/board.go:68-75 | true exactly when no cell is 0 |
| SudokuBoard.Board.Copy | sudoku/board/board.go:77-83 | a fresh board, not aliasing this one, of the same size and Equals to it |
| SudokuBoard.Board.FindEmptyCell | sudoku/board/board.go:100-109 | the first zero cell scanning x outer and y inner, or (255, 255, false) |
| SudokuBoard.Board.IsValid | sudoku/board/board.go:112-138 | true exactly when num is absent from the cells with this x, those with this y and the 3 by 3 box at (x - x % 3, y - y % 3) |
| SudokuBoard.Board.NotInLineX | sudoku/board/board.go:114-118 | true exactly when num is not among the cells with this x |
| SudokuBoard.Board.NotInLineY | sudoku/board/board.go:121-125 | true exactly when num is not among the cells with this y |
| SudokuBoard.Board.NotInBox | sudoku/board/board.go:128-135 | true exactly when num is not in the box |
| SudokuBoard.Board.SolveSudoku | sudoku/board/board.go:140-159 | the result and the final cells are those of Solve, so true leaves a filled completion and false the board as it was |
| SudokuBoard.Board.TryDigits | sudoku/board/board.go:146-158 | the digit loop computes TryFrom from digit 1 |
| SudokuBoard.Board.TryDigit | sudoku/board/board.go:147-155 | on failure the cell is reset, so the board is as before and the search goes on with the next digit |
| SudokuBoard.Board.CreatePossibilities | sudoku/board/board.go:166-182 | exactly the possibilities of the board: its empty cells in index order with their candidates |
| SudokuBoard.Board.Entries | sudoku/board/board.go:171-176 | the candidates of (x, y) in ascending order |
| SudokuBoard.Board.GetNonUniques | sudoku/board/board.go:184-201 | the final cells and the list returned are NonUniques of the initial board |
| SudokuBoard.Board.WriteUniques | sudoku/board/board.go:191-196 | one round: the board becomes Round of the list, and foundUnique is true exactly when some possibility has a single entry |
| SudokuBoard.Board.SolveByHeuristic | sudoku/board/board.go:204-232 | the board ends as getNonUniques leaves it; it panics (halted) exactly when HeuristicAsWritten does, and otherwise returns its result with no solutions |
| SudokuBoard.Board.TryPossibilities | sudoku/board/board.go:213-230 | the outer loop panics exactly when the loops as written do, and otherwise returns false with nil |
| SudokuBoard.Board.TryEntries | sudoku/board/board.go:214-223 | the inner loop panics on the first copy that panics or succeeds, and otherwise continues where the next possibility's copies begin |
| SudokuBoard.CreateBoard | sudoku/board/board.go:25-34 | a 9 by 9 board whose cell (i, j) is arr[i][j] |
| RubyEnumerable.Run | go-ruby/ruby/enumerable.go:10-13 | a loop takes at most fuel elements, and takes fuel of them whenever it has not ended |
| RubyEnumerable.Enumerator.constructor | go-ruby/ruby/range.go:28-30 | create: a range enumerator starts at start, a slice enumerator at 0 (slice.go:16-18) |
| RubyEnumerable.Enumerator.HasNext | go-ruby/ruby/range.go:14-16 | true exactly when one more iteration takes an element (slice.go:20-22 likewise); once false, the loop ends whatever the fuel |
| RubyEnumerable.Enumerator.Next | go-ruby/ruby/range.go:18-22 | next returns the old pos and adds step for a range; for a slice it returns data[pos] and pos stays (slice.go:24-26) |
| RubyEnumerable.Enumerable.Each | go-ruby/ruby/enumerable.go:9-14 | f receives exactly the elements of the run, in order |
| RubyEnumerable.Enumerable.EachWithIndex | go-ruby/ruby/enumerable.go:16-23 | f receives each element of the run with its position as the index |
| RubyEnumerable.Enumerable.Includes | go-ruby/ruby/enumerable.go:25-34 | true as soon as some element el has le(t, el) and le(el, t); false when the elements run out without one |
| RubyEnumerable.Enumerable.Entries | go-ruby/ruby/enumerable.go:36-42 | the elements of the run in enumeration order |
| RubyEnumerable.Enumerable.All | go-ruby/ruby/enumerable.go:55-72 | more than one predicate panics; with one, false on an element failing it, else true; with none, true (no int is nil) |
| RubyEnumerable.Enumerable.Any | go-ruby/ruby/enumerable.go:74-82 | as written: true exactly when some element fails f |
| RubyEnumerable.Enumerable.None | go-ruby/ruby/enumerable.go:84-86 | the negation of Any: true exactly when no element fails f |
| RubyEnumerable.Enumerable.FirstFailure | go-ruby/ruby/enumerable.go:64-70 | the loop All and Any share: the given answer on the first element failing f, its negation when the elements run out |
| RubyEnumerable.Enumerable.One | go-ruby/ruby/enumerable.go:88-101 | false once two elements satisfy f, else true exactly when one does |
| RubyEnumerable.Enumerable.Count | go-ruby/ruby/enumerable.go:103-121 | more than one predicate panics; with one, the number of elements satisfying it; with none, the number of elements |
| RubyEnumerable.Enumerable.CountSatisfying | go-ruby/ruby/enumerable.go:112-119 | the loop of Count with one predicate |
| RubyEnumerable.Enumerable.AnyIntended | go-ruby/ruby/enumerable.go:74-82 | corrected: true exactly when some element satisfies f |
| RubyEnumerable.Exhausted | go-ruby/ruby/enumerable.go:11 | a loop that stops has seen the whole run, which ended exactly when hasNext is false |
| RubyEnumerable.CountAll | go-ruby/ruby/enumerable.go:107-110 | counting with the always-true predicate counts every element |
| RubyEnumerable.CountSplit | go-ruby/ruby/enumerable.go:103-121 | the elements satisfying f and those satisfying its negation together are all the elements |
| RubyEnumerable.CountsSplit | go-ruby/ruby/enumerable.go:103-121 | Count(f) and Count(not f) finish exactly when Count() does, and then add up to it |
| RubyEnumerable.AnyIsNotAll | go-ruby/ruby/enumerable.go:55-82 | Any(f) as written and All(f) run out of fuel together, and when they finish Any answers the negation of All |
| RubyEnumerable.RunRange | go-ruby/ruby/range.go:14-30 | with step > 0 and enough fuel the loop takes exactly the range's elements and ends |
| RubyEnumerable.RunRangeShort | go-ruby/ruby/range.go:14-30 | with fuel short of the range the loop takes its first fuel elements and has not ended |
| RubyEnumerable.RangeFromSpec | go-ruby/ruby/range.go:5-30 | element i of a range is start + i * step, every element is below end, and there are just enough for the step to reach end |
| RubyEnumerable.RangeLength | go-ruby/ruby/range.go:5-30 | a range with step > 0 has ceil((end - start) / step) elements, or 0 when start >= end |
| RubyEnumerable.RunSlice | go-ruby/ruby/slice.go:20-26 | over an empty slice the loop ends at once; over any other it never ends, taking data[0] every time |
| RubyEnumerable.SliceNeverEnds | go-ruby/ruby/slice.go:20-26 | Each over the slice [7] does not end within any fuel, while the corrected enumerator takes 7 and stops |
| RubyEnumerable.RunSliceIntended | go-ruby/ruby/slice.go:20-26 | corrected: an enumerator that advances takes the slice's elements in order and ends |
| RubyEnumerable.AnyAsWrittenDiffers | go-ruby/ruby/enumerable.go:74-82 | over the range [1] with f(x) = (x == 1) no element fails f, so Any as written is false, although an element satisfies f |
| RubyEnumerable.NewRangeEnumerates | go-ruby/enumerable.go:101-103 | NewRange(start, end, step) with step > 0 enumerates the range's elements and ends when the fuel suffices, and its first fuel elements otherwise (R, ruby/range.go:5-7, likewise) |
| RubyEnumerable.NewSliceEnumerates | go-ruby/enumerable.go:43-45 | NewSliceEnumerable over an empty slice ends at once, and over any other takes data[0] on every iteration without end (E, ruby/slice.go:3-5, likewise) |
| RubyEnumerable.RangeOneToTen | go-ruby/enumerable_test.go:9-15 | NewRange(1, 11, 1) enumerates exactly 1 to 10 and ends, so the i-th element is i + 1 and EachWithIndex's index is count - 1 |
| RubyEnumerable.IncludesOneToTen | go-ruby/enumerable_test.go:16-25 | on that range Includes(el, <=) holds for every element el and Includes(el + 10, <=) does not |

## Copies

The same grid and ring appear in four files. The model follows gtk-app/buffers.go. The other files map onto it as follows.

- gtk-app/buffer.go:17-142 is the grid of gtk-app/buffers.go:20-145, line for line, 3 lines earlier. That is
  `equals` 31-45, `initBuffer` 47-54, `changeSizeDestructing` 56-58, `get` 60-66, `set` 68-74,
  `newEmptyBuffer` 76-82, `changeSizeNotDestructing` 84-96, `countNeighbors` 98-112 and `nextGeneration`
  114-142.
- gtk-app/conway/conwayBuffer.go:17-142 is the same grid with exported names.
  - `MaxX`/`MaxY` are at 23-29, `Get`/`Set` at 60-74, and `ChangeSizeNotDestructing` at 84-96.
  - The other lines are as in gtk-app/buffer.go.
  - The same members model it.
- gtk-app/conway/conwayBuffers.go is the ring of gtk-app/buffers.go:147-250 with `uint32` sizes:
  - `InitBuffers` 19-26 is `Ring.Init`.
  - `Current` 35-41 is `Ring.Current`.
  - `relative` 47-61 and `progress` 63-76 are `Ring.Relative` and `Ring.Progress`.
  - `Next` 78-80 and `Prev` 82-84 are `Ring.Next` and `Ring.Prev`.
  - `NextGeneration` 86-108 is `Ring.NextGeneration`.
  - `changeSizes` 114-117 is `Ring.ChangeSizes`. So is `ChangeSizeNotDestructing` 119-123, with its lock
    left out.
- go-ruby/enumerable.go repeats part of go-ruby/ruby. Its `Each` 51-56, `EachWithIndex` 58-65 and `Includes`
  67-76 are ruby/enumerable.go:9-34.
  - `RangeEnumerator` and its generator (78-99) and `NewRange` 101-103 are ruby/range.go.
  - `SliceEnumerator` and its generator (22-41) and `NewSliceEnumerable` 43-45 are ruby/slice.go.
  - `RubyEnumerable.NewRange` and `RubyEnumerable.NewSliceEnumerable` are the constructors, as `R` and `E`
    are in go-ruby/ruby.

## Left out

- The GTK window:
  - canvas drawing, mouse events and the ticker goroutine are the user interface;
  - gtk-app/varconst.go's constants appear only as the 100 slots and the 80 by 80 grid of `LifeRing.StillLifeHalts`.
- The mutex, `Mu()` and the Lock/Unlock around the ring's `ChangeSizeNotDestructing`. This is concurrency. Each
  ring call is taken as atomic.
- `CurrentBounds`: it returns package globals that no file defines.
- `maxX()`/`maxY()` and `Size()` are field reads. The model reads the fields directly.
- The two declarations of `BooleanBufferImpl` in one package, and the ring in the conway package calling
  names its grid does not define. These are build errors of the copies. One grid and one ring are modelled
  (see "## Copies").
- LifeGrid.Grid: the dimensions are unbounded naturals. The `uint` overflow of `x + y * maxX` and of
  `maxX * maxY` is not modelled.
- LifeGrid.Grid.NextGeneration: when a write fails, the cells written before it are not described. Only the halt is stated, since log.Fatal ends the program.
- LifeRing.Ring.NextGeneration: when the grid of slot p + 1 kept other bounds and no write fails (a source with no cells, a lower source of the same width, or a one-row source narrower than the target), the model stops after the step and reports `stale`. The `equals` on that grid, and the rewinds after it, are not modelled. The ring is then `ValidBut` that slot, and its other operations need `Valid`.
- LifeRing.Ring.NextGeneration requires a ring of at least 3 slots. With 1 or 2, the slot written aliases
  the source grid or the remembered one.
- SudokuBoard.Board.SolveSudoku and the other solver methods require a 9 by 9 board (`Nine`), as the
  solvers' digit loops and 3 by 3 boxes assume. Get, Set, Index and the constructor take any size, with
  the `uint8` products taken modulo 256.
- SudokuBoard.Board.XYRoundTrip is stated for 9 by 9 boards only.
- `PrintBoard`, `main` and the timing wrappers of the sudoku command are output and clocks.
- SudokuBoard.Board.Equals takes a `Board` only. The type assertion that makes it false for another kind
  of `SudokuBoard` is not modelled.
- SudokuBoard.Board.SolveByHeuristic returns `halted` for the nil-pointer panic. Its solutions are always
  None, since as written no call returns a pointer (see "## Findings").
- The callbacks of `Each` and `EachWithIndex` are modelled by the arguments they receive, in order. Their own
  effects are not modelled.
- The predicates and `lessOrEqual` are pure total functions. A Go callback that panics or has effects is
  not modelled.
- RubyEnumerable.Enumerable: elements are Go `int`s. The generic element type `T` is fixed to `int`. The
  reflection in `isNil` is evaluated only for them: no int is nil, so `All()` with no predicate is true
  wherever the loop ends.
- RubyEnumerable.Enumerator.Next: `pos + step` is unbounded. Go's wrap-around at the integer width is not
  modelled, so a range with a step of 0 or less, or one that would overflow, is an endless loop here.
- Every loop over an enumerator runs for at most `fuel` iterations. A loop that the source would run
  forever appears only as `OutOfFuel`.
- go-ruby/ruby/types.go and the interface declarations of go-ruby/enumerable.go:7-20 declare signatures
  only.
- g3n-grid/main.go is a 3D scene with floating-point geometry and a render loop.

## Findings

| source | as written | input that shows it | evidently intended | confidence | as-written member | corrected member |
|---|---|---|---|---|---|---|
| gtk-app/buffers.go:59-61 | `changeSizeDestructing` replaces the cells but keeps `maxXVal`/`maxYVal`, so `nextGeneration` into a target of other dimensions writes under stale bounds | `initBuffers(3, 2, 2)`, `nextGeneration()`, `changeSizes(3, 3)`, `nextGeneration()`: slot 2 keeps width 2 with 9 cells, and `set(2, 0)` hits `log.Fatal` | the dimensions updated with the cells | high, not executed | LifeGrid.Grid.NextGeneration, LifeGrid.StaleFailsIff, LifeRing.ResizeThenStepHalts, LifeGrid.StaleBoundsAfterDestructiveResize | LifeGrid.Grid.NextGenerationIntended, with LifeGrid.Grid.Reallocate (used by LifeRing.Ring.NextGenerationIntended) |
| gtk-app/buffers.go:230-239 | the rewind on a repeat and the rewind on an unchanged step are two consecutive `if`s | a ring of 100 slots over an 80 by 80 dead grid, then `nextGeneration`, `next` and `nextGeneration`: the second step is both a repeat and unchanged, so it rewinds three slots onto the empty slot 99 and hits `log.Fatal` | the two rewinds as alternatives, ending at p - 1 on a repeat and at p when unchanged | high, not executed | LifeRing.Ring.NextGeneration, LifeRing.StillLifeHalts, LifeRing.LandingsAgreeIff | LifeRing.Ring.NextGenerationIntended |
| sudoku/board/board.go:207-221 | the base case returns `(isFilled, nil)`, and a caller whose copy succeeds dereferences that nil pointer | a solved board with the four cells of a 1/2 rectangle cleared. The rectangle spans two boxes of one band, so each cleared cell has candidates {1, 2} and there is no single. The first copy is completed by singles, returns `(true, nil)`, and `*foundSolutions` panics | the base case returns its board as the one solution | high, not executed | SudokuHeuristic.HeuristicAsWritten, SudokuBoard.Board.SolveByHeuristic, SudokuHeuristic.AsWrittenVersusCorrected | SudokuHeuristic.HeuristicCorrected |
| go-ruby/ruby/slice.go:24-26 | `next` returns `data[pos]` without advancing `pos` | `E([]int{7}).Each(f)`: `hasNext` stays true and `f(7)` is called forever | `next` moves `pos` on by one | high, not executed | RubyEnumerable.RunSlice, RubyEnumerable.SliceNeverEnds | RubyEnumerable.RunSliceIntended |
| go-ruby/ruby/enumerable.go:74-82 | `Any` returns true on the first element that fails `f` | `R(1, 2, 1).Any(x == 1)` is false although its one element satisfies the predicate | true on the first element that satisfies `f` | high, not executed | RubyEnumerable.Enumerable.Any, RubyEnumerable.AnyAsWrittenDiffers | RubyEnumerable.Enumerable.AnyIntended |
