# libsudoku in Dafny

This project models the core of libsudoku: the 9x9 grid value type, the
puzzle generator and the Dancing Links solver of SudokuLib, and the
stand-alone Python grid generator `generate_sudoku.py`. It states and proves
what each operation computes.

- **The grid** (`grid.dfy`, module `SudokuGrid`). A grid is a sequence of 81
  integers. Cell `(x, y)` is at index `x + 9*y`, and 0 means empty.
  - Access goes through `At` and `Set`. Like `at()`, they check only the
    flat index.
  - `Row`, `Column` and `Square` collect the non-zero entries of a group.
  - `Verify` reports a grid with no repeated value in any group.
    `VerifiedIffNoConflict` proves this means no two cells of one row,
    column or square hold the same digit.
  - `IsComplete`, `Equal` and `NotEqual` cover the other queries.
  - Two constructors are modelled: from a flat vector (`FromFlat`) and from
    text lines (`Parse`).
- **The C++ generator** (`generator.dfy`, module `GridGenerator`).
  - `GenerateGrid` fills a solution cell by cell with backtracking. The
    candidate values of each cell come from `GetPossibilities`.
  - `FindPuzzle` clears symmetric pairs of cells until the difficulty
    measure hits its target. Each recursive call gets the later choices
    followed by zeros, as the C++ vector of `choices.size() - 1` entries
    holds them, so pair 0 may be tried again at any depth.
  - `GenerateRandomSolution` and `GenerateRandomPuzzle` wire these together.
    `GenerateRandomPuzzle` calls the search as written, including the early
    success described under Findings. `GenerateRandomPuzzleCorrected` calls
    the corrected search instead.
  - The random shuffles are modelled as arbitrary permutations, so every
    result is proved for every shuffle.
  - The difficulty measure is a function parameter.
- **The Python generator** (`generate_sudoku.dfy`, module `GenerateSudoku`).
  - `generate_grid`, `possible_next_values`, `values_in_block` and
    `grid_to_string` become functions over lists of rows.
  - The shuffle is a parameter that must return a permutation of its input.
    It is one fixed function, so the same list is always shuffled the same
    way. Every property is proved for every such function, so none depends
    on that.
- **The DLX solver**, in several files:
  - `links.dfy` (`DancingLinks`) holds the node records and the pure link
    operations of `DLXItem`, with their inverses.
  - `matrix.dfy` (`ExactCover`) holds the matrix invariant, and covering
    and uncovering a column.
  - `arena_ops.dfy` (`ArenaOps`) does the same operations in place on an
    array of nodes.
  - `labels.dfy` (`SudokuMatrix`) numbers the 324 constraints and the 729
    candidates.
  - `setup.dfy` (`SolverSetup`) and `build.dfy` (`MatrixBuild`) build the
    matrix, as the `DLX` constructor does.
  - `search.dfy` (`SearchMeaning`) says what the search state means for the
    grid.
  - `steps.dfy` (`SearchSteps`) holds the single steps of `solveAll`.
  - `solver.dfy` (`SudokuSolver`) is the `DLX` class itself, with fields
    `stepsTaken`, `solutionFound`, `uniqueSolution`, `solution` and
    `currentSolution`.
  - Nodes live in one array (`arena`), and a pointer is an index into it.
    Index 0 is the root. The column headers follow in creation order, then
    four nodes for each candidate row. This is the order in which the C++
    allocates them with `new`.

The solver's main guarantee is on `DLX.Solve`. If a solution was found and
the givens are digits 0..9, then `solution`:
- is complete;
- keeps every given;
- is conflict-free whenever the givens are.

The matrix is restored exactly after every call of `SolveAll`.

## Model

| member | source | states |
|---|---|---|
| SudokuGrid.At | SudokuLib/SudokuGrid.cpp:210-212 | the read succeeds exactly when the flat index x+9y is in [0,81); inside the grid it yields cell (x, y) |
| SudokuGrid.Set | SudokuLib/SudokuGrid.cpp:210-212 | the write succeeds exactly when the flat index is in range; the cell then holds v and every other cell is unchanged |
| SudokuGrid.AtWrapsToNextRow | SudokuLib/SudokuGrid.cpp:210-212 | the index check lets x = 9 through: at(9, y) reads cell (0, y+1) |
| SudokuGrid.SetThenAt | SudokuLib/SudokuGrid.cpp:210-212 | reading after a write yields the written value at that cell and the old value everywhere else |
| SudokuGrid.FromFlat | SudokuLib/SudokuGrid.cpp:137-145 | the grid takes the first min(n, 81) values of the vector and is zero after them |
| SudokuGrid.Parse | SudokuLib/SudokuGrid.cpp:147-164 | every cell is the digit at column x of line y, or 0 when that character is missing or not a digit |
| SudokuGrid.ParseFirstLine | SudokuLib/SudokuGrid.cpp:147-164 | a line "53..7...." gives 5 and 3 in the first cells, 0 for '.', and 7 in the fifth cell |
| SudokuGrid.Row | SudokuLib/SudokuGrid.cpp:224-232 | the non-zero values of row y, left to right |
| SudokuGrid.Column | SudokuLib/SudokuGrid.cpp:214-222 | the non-zero values of column x, top to bottom |
| SudokuGrid.Square | SudokuLib/SudokuGrid.cpp:234-244 | the non-zero values of the 3x3 square (squareX, squareY), row by row |
| SudokuGrid.NonZeroContents | SudokuLib/SudokuGrid.cpp:214-244 | the collected entries are exactly the non-zero values of the group, each with its multiplicity |
| SudokuGrid.HasDuplicatesIff | SudokuLib/SudokuGrid.cpp:16-19 | hasDuplicates holds exactly when two positions of the list hold the same value |
| SudokuGrid.Verify | SudokuLib/SudokuGrid.cpp:246-253 | true exactly when no row, column or square repeats a value |
| SudokuGrid.VerifiedIffNoConflict | SudokuLib/SudokuGrid.cpp:246-253 | verify() holds exactly when no two distinct cells of one row, column or square hold the same non-zero value |
| SudokuGrid.IsComplete | SudokuLib/SudokuGrid.cpp:255-261 | true exactly when no cell is 0 |
| SudokuGrid.Equal | SudokuLib/SudokuGrid.cpp:202-204 | equal exactly when all 81 cells agree |
| SudokuGrid.NotEqual | SudokuLib/SudokuGrid.cpp:206-208 | some cell differs, the negation of == |
| GridGenerator.GetBlock | SudokuLib/SudokuGrid.cpp:21-35 | the values of the partial grid that lie in the 3x3 block of (posX, posY); at the next free cell, exactly the values already in its block |
| GridGenerator.GetPossibilities | SudokuLib/SudokuGrid.cpp:37-57 | each value in 1..9 not yet in the next cell's row, column or block, each at most once, in any shuffled order |
| GridGenerator.ShuffledCandidates | SudokuLib/SudokuGrid.cpp:50-56 | a shuffle of the ascending candidate list has the same members, without repeats |
| GridGenerator.TakenInPrefixes | SudokuLib/SudokuGrid.cpp:37-57 | a value clashing with the next cell lies in its row prefix, its column prefix or its block prefix |
| GridGenerator.GenerateGrid | SudokuLib/SudokuGrid.cpp:59-73 | on success, 81 values that extend the input, each in 1..9 and clashing with no earlier cell; on failure, the input unchanged |
| GridGenerator.FullConsistent | SudokuLib/SudokuGrid.cpp:59-73 | a full grid built without clashes is complete and passes verify() |
| GridGenerator.GenerateRandomSolution | SudokuLib/SudokuGrid.cpp:168-174 | the result passes verify() and is either complete or the empty grid (when no fill was found) |
| GridGenerator.EmptyVerified | SudokuLib/SudokuGrid.cpp:132-133 | the default, all-zero grid passes verify() |
| GridGenerator.Partner | SudokuLib/SudokuGrid.cpp:94-96 | the cell paired with (x, y) is (8-x, 8-y): flat index 80-i |
| GridGenerator.FindPuzzleAsWritten | SudokuLib/SudokuGrid.cpp:83-124 | findPuzzle as written, recursing on the later choices padded with zeros: succeeds on an empty choice list, leaving the puzzle as it is; a success only promises a result rated at the target, rated validly below it, or the unchanged puzzle; with one choice it succeeds exactly when clearing that pair rates at or below the target; over disjoint revealed pairs, only the pairs of the choices and pair 0 change, each ending cleared (on success only), at its entry values or at the solution's |
| GridGenerator.NewChoices | SudokuLib/SudokuGrid.cpp:109-110 | the recursive call's list has one entry fewer than the caller's, and each entry is a later choice or a zero left by the vector's value-initialisation |
| GridGenerator.ClearStep | SudokuLib/SudokuGrid.cpp:92-99 | clearing the pair of a touched choice empties that pair and leaves every other touched pair and every other cell as it was |
| GridGenerator.CarvedCompose | SudokuLib/SudokuGrid.cpp:107-115 | a successful recursive call over a subset of the touched choices leaves each touched pair cleared, at its entry values or at the solution's, and no other cell changed |
| GridGenerator.RestoreStep | SudokuLib/SudokuGrid.cpp:117-121 | after a failed recursive call, writing the solution back into the current pair leaves each touched pair at its entry values or at the solution's, and no other cell changed |
| GridGenerator.EntryAgrees | SudokuLib/SudokuGrid.cpp:117-121 | when the entry puzzle agrees with the solution on the touched pairs, a failed search gives back the entry puzzle and a successful one only clears whole touched pairs of it |
| GridGenerator.SuccessBelowTarget | SudokuLib/SudokuGrid.cpp:87-88 | for any puzzle and any in-grid cell c given as the one choice, with a measure rating every grid 0 and target 1, findPuzzle as written returns true for a puzzle whose difficulty is not the target |
| GridGenerator.FindPuzzle | SudokuLib/SudokuGrid.cpp:83-124 | corrected findPuzzle, with the zero padding kept: success means the difficulty equals the target; with one choice it succeeds exactly when clearing that pair hits the target; over disjoint revealed pairs, only the pairs of the choices and pair 0 change, each ending cleared (on success only), at its entry values or at the solution's |
| GridGenerator.CorrectedRejectsBelowTarget | SudokuLib/SudokuGrid.cpp:87-88 | the same input as SuccessBelowTarget is rejected by the corrected findPuzzle |
| GridGenerator.RevealedCoords | SudokuLib/SudokuGrid.cpp:184-192 | 41 coordinates: the first four rows and the first five cells of row 4, the k-th at flat index k |
| GridGenerator.RevealedPairsDisjoint | SudokuLib/SudokuGrid.cpp:184-192 | two different revealed entries clear disjoint pairs of cells |
| GridGenerator.RevealedCoverAll | SudokuLib/SudokuGrid.cpp:184-192 | every cell is a revealed cell or the partner of one |
| GridGenerator.ClearingKeepsVerified | SudokuLib/SudokuGrid.cpp:94-99 | clearing cells of a grid that passes verify() keeps it passing |
| GridGenerator.SymmetricHoles | SudokuLib/SudokuGrid.cpp:176-200 | a puzzle carved from a complete solution has cell i empty exactly when cell 80-i is |
| GridGenerator.PairSymmetric | SudokuLib/SudokuGrid.cpp:94-99 | clearing or restoring a pair keeps the two cells of the pair both empty or both filled |
| GridGenerator.PuzzleChoices | SudokuLib/SudokuGrid.cpp:184-197 | the 41 revealed coordinates and each index into them exactly once, whose pairs are pairwise disjoint |
| GridGenerator.CarvedPuzzle | SudokuLib/SudokuGrid.cpp:198-199 | whatever findPuzzle carves out of a generated solution passes verify() and has point-symmetric holes |
| GridGenerator.SearchFromSolution | SudokuLib/SudokuGrid.cpp:176-200 | started on the solution over every revealed index, the search gives back the solution on failure, and otherwise a puzzle that passes verify() with point-symmetric holes |
| GridGenerator.GenerateRandomPuzzle | SudokuLib/SudokuGrid.cpp:176-200 | the puzzle passes verify() and is point-symmetric in its holes; findPuzzle's answer is ignored, so the puzzle rates at the target, or rates validly below it (the early success on an empty choice list), or is the untouched solution: complete, or empty when no solution was generated |
| GridGenerator.GenerateRandomPuzzleCorrected | SudokuLib/SudokuGrid.cpp:176-200 | with the corrected findPuzzle: the puzzle passes verify(), has symmetric holes, and rates at the target or is the untouched solution |
| GenerateSudoku.ValuesInBlock | generate_sudoku.py:53-60 | exactly the values of the rows and columns sharing (x, y)'s 3x3 block |
| GenerateSudoku.ValuesInBlockMembers | generate_sudoku.py:53-60 | the slice-and-flatten comprehension yields exactly the block's values |
| GenerateSudoku.ColumnAbove | generate_sudoku.py:46 | the values of the earlier rows in the current column, top to bottom |
| GenerateSudoku.PossibleNextValues | generate_sudoku.py:41-49 | the values 1..9 missing from the current row, the column above and the block, without repeats |
| GenerateSudoku.PossibleNextValuesAgree | generate_sudoku.py:41-49 | the Python candidates are the same set as the C++ getPossibilities candidates for the flattened grid |
| GenerateSudoku.GenerateGrid | generate_sudoku.py:19-36 | a result is a full 9x9 grid that extends the input, and stays clash-free when the input was |
| GenerateSudoku.TryValues | generate_sudoku.py:32-36 | trying the shuffled values in turn; a result is full and extends the grid |
| GenerateSudoku.TryValuesNone | generate_sudoku.py:32-36 | None exactly when every tried value leads to None |
| GenerateSudoku.NoneMeansAllFailed | generate_sudoku.py:19-36 | when generate_grid gives None, every possible next value leads to None |
| GenerateSudoku.Generate | generate_sudoku.py:19-21 | starting from [[]], a result is a full grid that is a valid sudoku solution |
| GenerateSudoku.GeneratedIsValid | generate_sudoku.py:19-36 | a full grid grown clash-free has no repeat in any row, column or block |
| GenerateSudoku.RowString | generate_sudoku.py:14 | one character per value, the value's digit |
| GenerateSudoku.RowStrings | generate_sudoku.py:14 | one string per row, in order |
| GenerateSudoku.JoinLinesLayout | generate_sudoku.py:15 | joining 9-character lines puts line y at offset 10y with newlines between |
| GenerateSudoku.GridToStringLayout | generate_sudoku.py:13-15 | a full grid prints as 89 characters, digit (x, y) at offset 10y+x, newline after each row but the last |
| GenerateSudoku.RowStringsParseBack | generate_sudoku.py:13-15 | the printed rows read back through the C++ stream constructor give the same grid |
| DancingLinks.NewItem | SudokuLib/SudokuSolver.h:16-18 | a fresh item links to itself in both directions and has no header |
| DancingLinks.NewColumn | SudokuLib/SudokuSolver.h:30 | a fresh column is its own header, links to itself, and has columnSum 0 |
| DancingLinks.Unlink | SudokuLib/SudokuSolver.cpp:90-93 | the neighbours of x skip over it; no other link changes |
| DancingLinks.Relink | SudokuLib/SudokuSolver.cpp:95-98 | the neighbours of x point back at x; no other link changes |
| DancingLinks.RelinkUnlink | SudokuLib/SudokuSolver.cpp:90-98 | relinking a node undoes unlinking it |
| DancingLinks.RemoveCol | SudokuLib/SudokuSolver.cpp:90-93 | removeCol: the left and right neighbours of x link to each other; only horizontal links change |
| DancingLinks.ReplaceCol | SudokuLib/SudokuSolver.cpp:95-98 | replaceCol: both horizontal neighbours link back to x; only horizontal links change |
| DancingLinks.ReplaceRemoveCol | SudokuLib/SudokuSolver.cpp:90-98 | replaceCol after removeCol restores the arena exactly |
| DancingLinks.AddToSum | SudokuLib/SudokuSolver.cpp:103 | only the header's columnSum changes, by delta |
| DancingLinks.RemoveRow | SudokuLib/SudokuSolver.cpp:100-104 | removeRow: vertical neighbours skip x and its header's count drops by one |
| DancingLinks.ReplaceRow | SudokuLib/SudokuSolver.cpp:106-110 | replaceRow: vertical neighbours point back at x and its header's count rises by one |
| DancingLinks.ReplaceRemoveRow | SudokuLib/SudokuSolver.cpp:100-110 | replaceRow after removeRow restores the arena exactly, counts included |
| DancingLinks.InsertColumn | SudokuLib/SudokuSolver.cpp:77-81 | insertColumn: only horizontal links of x, before and before's left neighbour change |
| DancingLinks.InsertColumnLinks | SudokuLib/SudokuSolver.cpp:77-81 | after insertColumn, x sits between before's old left neighbour and before |
| DancingLinks.InsertRow | SudokuLib/SudokuSolver.cpp:83-88 | insertRow: x takes before's header, that header's count rises by one, horizontal links stay |
| DancingLinks.InsertRowLinks | SudokuLib/SudokuSolver.cpp:83-88 | after insertRow, x sits just above before in its column |
| DancingLinks.RingUnlink | SudokuLib/SudokuSolver.cpp:90-93 | unlinking a non-first member of a ring leaves the ring without it |
| DancingLinks.RingInsert | SudokuLib/SudokuSolver.cpp:77-88 | inserting a new node before a ring's first member appends it to the ring |
| DancingLinks.RemoveRows | SudokuLib/SudokuSolver.cpp:33-36 | removing a row's items in turn changes only vertical links and counts |
| DancingLinks.ReplaceRows | SudokuLib/SudokuSolver.cpp:42-45 | replacing items in turn changes only vertical links and counts |
| DancingLinks.ReplaceRemoveRows | SudokuLib/SudokuSolver.cpp:28-48 | replacing a row's items in reverse order undoes removing them |
| ExactCover.CoverState | SudokuLib/SudokuSolver.cpp:28-38 | the arena after coverColumn keeps its size |
| ExactCover.CoverIsReady | SudokuLib/SudokuSolver.cpp:28-38 | any active column of a well-formed matrix can be covered |
| ExactCover.CoverKeepsInv | SudokuLib/SudokuSolver.cpp:28-38 | covering a column leaves a well-formed matrix without that column and without the rows it held; the column keeps its own rows and count |
| ExactCover.UncoverCover | SudokuLib/SudokuSolver.cpp:28-48 | uncoverColumn after coverColumn restores the arena exactly |
| ArenaOps.RemoveColAt | SudokuLib/SudokuSolver.cpp:90-93 | in place: the array becomes RemoveCol of its old contents |
| ArenaOps.ReplaceColAt | SudokuLib/SudokuSolver.cpp:95-98 | in place: the array becomes ReplaceCol of its old contents |
| ArenaOps.RemoveRowAt | SudokuLib/SudokuSolver.cpp:100-104 | in place: the array becomes RemoveRow of its old contents |
| ArenaOps.ReplaceRowAt | SudokuLib/SudokuSolver.cpp:106-110 | in place: the array becomes ReplaceRow of its old contents |
| ArenaOps.InsertColumnAt | SudokuLib/SudokuSolver.cpp:77-81 | in place: the array becomes InsertColumn of its old contents |
| ArenaOps.InsertRowAt | SudokuLib/SudokuSolver.cpp:83-88 | in place: the array becomes InsertRow of its old contents |
| ArenaOps.CoverColumn | SudokuLib/SudokuSolver.cpp:28-38 | in place: the column can be covered and the array becomes its cover state |
| ArenaOps.UncoverColumn | SudokuLib/SudokuSolver.cpp:40-48 | in place: the array returns to exactly the state before the cover |
| ArenaOps.HideRow | SudokuLib/SudokuSolver.cpp:33-36 | the three other items of a row are removed from their columns in turn |
| ArenaOps.RestoreRow | SudokuLib/SudokuSolver.cpp:42-45 | the three items are replaced in reverse order, giving back the state before HideRow |
| SudokuMatrix.ColumnIndexes | SudokuLib/SudokuSolver.cpp:21-26 | the four constraint columns of (x, y, value) fall one in each group of 81: cell, row, column, square |
| SudokuMatrix.IndexParts | SudokuLib/SudokuSolver.cpp:141 | the index 81t+9y+x splits back into t, y and x |
| SudokuMatrix.CandidateKinds | SudokuLib/SudokuSolver.cpp:131-137 | a candidate's cell column is a position column for its (x, y) and its other three are value columns for value+1 |
| SudokuMatrix.GivenIsSatisfied | SudokuLib/SudokuSolver.cpp:116-126 | for a grid of digits, a column is ignored exactly when the givens already satisfy its constraint |
| SudokuMatrix.ColumnsMeaning | SudokuLib/SudokuSolver.cpp:21-26 | the cell column of (x, y, v) is satisfied exactly when the cell is filled, and each value column exactly when v+1 is already in that row, column or square; the move is open exactly when none is satisfied |
| SudokuMatrix.Present | SudokuLib/SudokuSolver.cpp:138-152 | the headers that exist, one per constraint that was not ignored |
| SolverSetup.MarkGivens | SudokuLib/SudokuSolver.cpp:116-126 | currentSolution copies the grid, and ignoreCols holds exactly the four columns of every given |
| SolverSetup.AddConstraint | SudokuLib/SudokuSolver.cpp:141-149 | one constraint: a new header linked before the root, or no header (-1) for an ignored column |
| SolverSetup.AddColumns | SudokuLib/SudokuSolver.cpp:138-152 | 324 entries, headers for the columns not ignored, linked in order |
| SolverSetup.RowsStart | SudokuLib/SudokuSolver.cpp:153-154 | the column phase leaves a matrix ready for rows, with no rows yet |
| SolverSetup.AddRow | SudokuLib/SudokuSolver.cpp:169-175 | four new items, one under each of the candidate's headers, linked into one horizontal ring |
| SolverSetup.AdmitCandidate | SudokuLib/SudokuSolver.cpp:169-175 | a candidate with all four columns present becomes the next row |
| SolverSetup.AddCandidate | SudokuLib/SudokuSolver.cpp:157-175 | a candidate gets a row exactly when none of its four columns is ignored |
| SolverSetup.AddRows | SudokuLib/SudokuSolver.cpp:153-178 | all 729 candidates visited, in (y, x, value) order |
| MatrixBuild.Start | SudokuLib/SudokuSolver.cpp:112-113 | a fresh arena whose root links to itself, with no columns and no rows |
| MatrixBuild.BuiltInv | SudokuLib/SudokuSolver.cpp:112-179 | the built matrix satisfies the search invariant with every column and every row active |
| SearchMeaning.Place | SudokuLib/SudokuSolver.cpp:237 | currentSolution.at(x, y) = value: only the candidate's cell changes, to value+1 |
| SearchMeaning.InitialState | SudokuLib/SudokuSolver.cpp:112-179 | after construction every active cell column has an empty cell; for a grid of digits the active columns are exactly the unsatisfied constraints |
| SearchMeaning.Commit | SudokuLib/SudokuSolver.cpp:229-240 | a row chosen in the search names an empty cell and an open move, and placing it keeps both search facts on the smaller column list |
| SearchMeaning.TracksEmpty | SudokuLib/SudokuSolver.cpp:200-205 | no column left means every constraint is satisfied: the grid is a solution |
| SearchMeaning.PlaceKeepsNoConflict | SudokuLib/SudokuSolver.cpp:237 | placing an open move keeps a conflict-free grid conflict-free |
| SearchMeaning.SolvesPlace | SudokuLib/SudokuSolver.cpp:237-240 | a completion of the grid after an open move completes the grid before it |
| SearchSteps.SmallestColumn | SudokuLib/SudokuSolver.cpp:213-222 | the column chosen has the least columnSum, and it is the first one with that sum in root order |
| SearchSteps.GetSudokuData | SudokuLib/SudokuSolver.cpp:52-73 | walks the row's ring and returns the position and value of the last position and value headers it meets, or none when one is missing |
| SearchSteps.CandidateData | SudokuLib/SudokuSolver.cpp:52-73 | on a row of candidate n, getSudokuData yields n's x, y and value+1 |
| SearchSteps.RowPrep | SudokuLib/SudokuSolver.cpp:226-233 | a row of the selected column is a four-item ring of a live candidate whose other three headers are active |
| SearchSteps.CoverRowColumns | SudokuLib/SudokuSolver.cpp:230-233 | covering the row's three other columns leaves a well-formed matrix without exactly those three columns |
| SearchSteps.UncoverRowColumns | SudokuLib/SudokuSolver.cpp:243-246 | uncovering them in reverse order restores the matrix exactly |
| SudokuSolver.RowData | SudokuLib/SudokuSolver.cpp:236 | the row under the cursor is a ring whose data is its candidate's x, y and value+1 |
| SudokuSolver.RowColumns | SudokuLib/SudokuSolver.cpp:230-233 | after covering the row, the active headers are the old ones minus the candidate's four |
| SudokuSolver.PlaceSet | SudokuLib/SudokuSolver.cpp:237 | the write at(x, y) = value is in range and yields Place |
| SudokuSolver.ClearPlace | SudokuLib/SudokuSolver.cpp:242 | resetting the cell to 0 gives back the grid before the placement |
| SudokuSolver.DLX.constructor | SudokuLib/SudokuSolver.cpp:112-179 | builds the matrix of the givens: a column per constraint the givens leave open, a row per candidate whose columns all exist |
| SudokuSolver.DLX.Solve | SudokuLib/SudokuSolver.cpp:191-196 | returns whether a solution was found and it was unique; a found solution completes the givens, keeping them and adding no conflict |
| SudokuSolver.DLX.SolveAll | SudokuLib/SudokuSolver.cpp:198-250 | restores the matrix and currentSolution; returns true exactly when a second solution was seen; a first solution found completes currentSolution; a solution found earlier is kept |
| SudokuSolver.DLX.SelectColumn | SudokuLib/SudokuSolver.cpp:213-222 | the selected column is active and has the least columnSum |
| SudokuSolver.DLX.SearchColumn | SudokuLib/SudokuSolver.cpp:213-249 | the non-empty case of solveAll, with the same guarantees |
| SudokuSolver.DLX.CoverSelected | SudokuLib/SudokuSolver.cpp:223 | covers the selected column and keeps the matrix well formed and labelled |
| SudokuSolver.DLX.TryRows | SudokuLib/SudokuSolver.cpp:226-247 | the loop over the selected column's rows; it stops after a second solution and keeps the matrix |
| SudokuSolver.DLX.TryRow | SudokuLib/SudokuSolver.cpp:229-246 | one row: cover, place, recurse, reset, uncover; the matrix and grid come back unchanged |
| SudokuSolver.DLX.CoverRow | SudokuLib/SudokuSolver.cpp:230-237 | covers the row's other columns and reads the candidate's x, y and value+1 |
| SudokuSolver.DLX.PlaceAndRecurse | SudokuLib/SudokuSolver.cpp:237-242 | writes the value, counts a step, recurses and clears the cell again |
| SudokuSolver.SolveGrid | SudokuLib/SudokuGrid.cpp:263-271 | on failure the grid is unchanged; on success the grid is a solution of the old one, complete and passing verify() when the old one passed it |

## Left out

- The destructor `~DLX` and `freeColumn` are not modelled. Nodes live in one preallocated array, so there is nothing to free.
- `approximateDifficulty` is not modelled, because it uses floating point. The generator takes the difficulty as a function parameter.
- Random number generators and clocks are not modelled. In the C++ generator, each shuffle is an arbitrary permutation chosen afresh, and the results are proved for all of them. In the Python generator, the shuffle is one fixed permutation function given as a parameter: the same list always gets the same order, and the results are proved for every such function.
- Stream mechanics are not modelled. `Parse` takes the lines already read, and `getline`/`eof` become the length of that list. Each element of a line stands for one byte of the `std::string`, so `line.at(column)` is the element at index `column`; there is no multi-byte character handling.
- The exception classes are not modelled. `getSudokuData`'s throw is proved unreachable, and `at()` out of range is an empty Option.
- The command-line front end, the test program and the Python `main` are not part of this model; they only do I/O.
- SudokuSolver.DLX.Solve: only soundness is proved. The model does not prove that an existing solution is always found, or that "unique" means exactly one solution.
- SudokuSolver.DLX.Solve: a solution is proved correct only when every given is a digit 0..9. For other values `mapColumnIndexes` marks unrelated constraints as given.
- SudokuSolver.DLX.SolveAll: `stepsTaken` is proved only to grow, not to count row commits exactly. Its 32-bit overflow is not modelled.
- SudokuSolver.DLX.constructor: the C++ constructor leaves `stepsTaken`, `solutionFound` and `uniqueSolution` uninitialised until `solve()` runs. The model gives them defined values. `solution` is zero-filled by the default `SudokuGrid()` constructor, as in the model.
- SudokuGrid.Row, SudokuGrid.Column require an index in 0..8, because the source's `at()` throws for any other row or column index.
- SudokuGrid.Square requires squareX and squareY in 0..2. Some out-of-range squares do not throw in the source; their flat indices wrap into other rows. For example, `square(3, 0)` reads cells 9-11, 18-20 and 27-29. The model does not cover these wrapped squares. `verify()` only asks for squares in range.
- SudokuSolver.SolveGrid: only soundness is proved, as for `DLX.Solve`. When it reports success, the grid is a solution of the old one. It is not proved that a grid with exactly one solution makes it report success.
- GridGenerator.FindPuzzleAsWritten: failure is promised to give back the entry puzzle only where the entry puzzle agrees with the solution on pair 0 and on the chosen pairs (`GridGenerator.EntryAgrees`). A padded zero may write pair 0 back from the solution in a nested call. The top-level call in `generateRandomPuzzle` starts from the solution itself, so there the search does give back its entry puzzle.
- GridGenerator.FindPuzzle: the same as `FindPuzzleAsWritten`, since the corrected search keeps the zero padding.
- GridGenerator.GenerateRandomSolution: it is not proved that the backtracking fill always succeeds. On failure the model returns the empty grid, as the flat-vector constructor would.
- The `at()` bound check tests only the flat index `x + 9*y`, not each coordinate. The model follows the code; see `SudokuGrid.AtWrapsToNextRow`.

## Findings

| source | as written | input that shows it | evidently intended | confidence | as-written member | corrected member |
|---|---|---|---|---|---|---|
| SudokuLib/SudokuGrid.cpp:87-88 | `findPuzzle` returns true when `choices` is empty. Each call recurses (lines 109-112) on a list one entry shorter than its own, so a call with a one-element list recurses on the empty list whenever clearing its pair still rates below the target. `generateRandomPuzzle` (lines 198-199) then returns a puzzle rated below the target. | Target 1, one choice (any cell, e.g. (0, 0)), a difficulty measure rating every grid 0: the recursive call gets an empty list and reports success | An empty choice list means no puzzle of the target difficulty was found, so return false | not executed | GridGenerator.FindPuzzleAsWritten, GridGenerator.SuccessBelowTarget, GridGenerator.GenerateRandomPuzzle | GridGenerator.FindPuzzle, GridGenerator.CorrectedRejectsBelowTarget, GridGenerator.GenerateRandomPuzzleCorrected |
