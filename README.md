# Min-conflicts N-Queens solver, modelled in Dafny

This project models the `Board` class of `MinConflictsQueensSolver`. The class solves
N-Queens by min-conflicts local search. The board is an `int[] rows` holding one queen
per column: `rows[c]` is the row of column `c`'s queen. The class has four operations:

- `scramble` refills the board with a random permutation of the rows.
- `conflicts(row, col)` counts the queens of other columns that attack a cell.
- `solve` runs the search. Each step moves a most-conflicted queen to a least-conflicted
  row, breaking ties at random. After `2n` moves the board is scrambled afresh.
- `print` renders the board as a grid of `Q` and `|` characters.

Files:

- `queens_spec.dfy` (module `QueensSpec`) holds the pure specification of a board as a
  `seq<int>`. It defines the conflict count, legality, permutations and the rendered grid.
  The lemmas about them live here too.
- `board.dfy` (module `MinConflictsQueensSolver`) holds class `Board`. Its field
  `rows: array<int>` is updated in place, as in the source. Each method is proved against
  the functions of `QueensSpec`.

Every draw `random.nextInt(k)` is the method `NextInt(k)`. It yields some value in
`[0, k)`, and which one is left open, so every property holds for all random outcomes.
The two scans inside `solve`'s loop are written as their own read-only methods,
`MostConflictedColumns` and `LeastConflictedRows`. The source's `ArrayList<Integer>
candidates` becomes the `seq<int>` each of them returns. `Move` is the search part of one
iteration. `Step` is a whole iteration: the move, then the restart policy, with the move
counter passed in and returned. `Solve` runs the steps.

## Model

| member | source | states |
|---|---|---|
| MinConflictsQueensSolver.NextInt | src/main/java/dev/bk/edu/MinConflictsQueensSolver.java:44 | a random draw for bound `k > 0` lies in `[0, k)` |
| MinConflictsQueensSolver.Board.constructor | src/main/java/dev/bk/edu/MinConflictsQueensSolver.java:31-34 | a new board has `n` columns and its rows are a permutation of `0..n-1` |
| MinConflictsQueensSolver.Board.Scramble | src/main/java/dev/bk/edu/MinConflictsQueensSolver.java:39-48 | after the identity fill and the forward pass of swaps, the rows are a permutation of `0..n-1` (same multiset as the identity), so every queen is on the board |
| MinConflictsQueensSolver.Board.Conflicts | src/main/java/dev/bk/edu/MinConflictsQueensSolver.java:51-63 | the counting loop returns exactly the conflict count of cell `(row, col)`, for any `row` and `col`, and changes nothing |
| MinConflictsQueensSolver.Board.MostConflictedColumns | src/main/java/dev/bk/edu/MinConflictsQueensSolver.java:76-88 | `maxConflicts` is the largest conflict count of any queen (0 on an empty board); the candidates are exactly the columns at that maximum, in increasing order, and not empty when the board is not |
| MinConflictsQueensSolver.Board.LeastConflictedRows | src/main/java/dev/bk/edu/MinConflictsQueensSolver.java:99-111 | `minConflicts` is the least conflict count of any row for the column; the candidates are exactly the rows at that minimum, in increasing order, and never empty on a non-empty board, because the start value `n` is never below a count; for a column on the board the minimum is below `n` |
| MinConflictsQueensSolver.Board.Move | src/main/java/dev/bk/edu/MinConflictsQueensSolver.java:76-116 | one iteration: it stops, leaving the board alone, exactly when no queen has a conflict; otherwise it picks a column whose queen has the most conflicts (more than zero) and changes only that column, to a row with the fewest conflicts, which leaves that queen with no more conflicts than before; all rows stay on the board |
| MinConflictsQueensSolver.Board.Step | src/main/java/dev/bk/edu/MinConflictsQueensSolver.java:76-123 | one full iteration with the move counter: it stops exactly when no queen has a conflict, leaving board and counter alone; otherwise the counter becomes `moves + 1`, or 0 when that reaches `2n`, so it stays in `[0, 2n)`; on a restart the board is a fresh permutation, and otherwise it differs from the old board only in the moved column, which was a most-conflicted column and now holds a least-conflicted row |
| MinConflictsQueensSolver.Board.Solve | src/main/java/dev/bk/edu/MinConflictsQueensSolver.java:68-125 | when the search returns, the board is a legal arrangement; as loop invariants, the move counter lies in `[0, 2n)` at the top of every iteration (0 on an empty board), and whenever it is 0 after an iteration the board is a permutation, just scrambled; all rows stay on the board; on a board of size 2 or 3 it never returns success; on a board of size 0 or 1 it succeeds in the first iteration |
| MinConflictsQueensSolver.Board.Print | src/main/java/dev/bk/edu/MinConflictsQueensSolver.java:130-137 | the nested printing loops produce exactly the lines of the rendered grid |
| QueensSpec.ConflictCountIsAttackers | src/main/java/dev/bk/edu/MinConflictsQueensSolver.java:55-63 | the conflict count equals the size of the set of other columns whose queen shares the cell's row or diagonal |
| QueensSpec.ZeroConflictsIff | src/main/java/dev/bk/edu/MinConflictsQueensSolver.java:55-63 | a cell has zero conflicts if and only if no queen of another column attacks it |
| QueensSpec.ConflictCountBound | src/main/java/dev/bk/edu/MinConflictsQueensSolver.java:57-61 | a conflict count is at most `n`, and at most `n - 1` for a column on the board, because the column itself is skipped |
| QueensSpec.ConflictCountIgnoresOwnColumn | src/main/java/dev/bk/edu/MinConflictsQueensSolver.java:58 | the queen of column `col` is never counted: changing `rows[col]` does not change any count for `col` |
| QueensSpec.NoConflictsIffLegal | src/main/java/dev/bk/edu/MinConflictsQueensSolver.java:65-67 | every queen has zero conflicts if and only if no two distinct columns share a row or a diagonal |
| QueensSpec.RelocationDoesNotWorsen | src/main/java/dev/bk/edu/MinConflictsQueensSolver.java:99-116 | after a queen moves to a least-conflicted row, its conflicts equal that row's count, which is no more than it had before |
| QueensSpec.NoLegalBoardOfSizeTwoOrThree | src/main/java/dev/bk/edu/MinConflictsQueensSolver.java:90-93 | no board of size 2 or 3 is legal, so the loop's only exit is never taken there |
| QueensSpec.PermutationIsInRangeAndDistinct | src/main/java/dev/bk/edu/MinConflictsQueensSolver.java:36-48 | a permutation of `0..n-1` has every row on the board, no row twice, and every row present |
| QueensSpec.Grid | src/main/java/dev/bk/edu/MinConflictsQueensSolver.java:130-137 | the grid has `n` lines of `n` characters |
| QueensSpec.GridShowsQueens | src/main/java/dev/bk/edu/MinConflictsQueensSolver.java:133 | the character at line `r`, column `c` is `Q` when `rows[c] == r` and the bar character otherwise |
| QueensSpec.GridOfPermutation | src/main/java/dev/bk/edu/MinConflictsQueensSolver.java:130-137 | on a permutation board every line and every column of the grid holds exactly one `Q` |

## Left out

- `main` is not modelled. It does console output, wall-clock timing and a floating-point seconds value.
- Print: the `PrintStream` is not modelled. The method returns the lines it would print; the newline after each line is the boundary between two lines.
- NextInt: the `java.util.Random` algorithm is not modelled, and neither are seeding, reproducibility or the uniformity of the shuffle and of the tie-breaking. Only the range of each draw is.
- Solve: the source's `while (true)` loop has no bound. The model's loop runs at most `fuel` iterations and returns `false` when they run out, an exit the source does not have. Termination and convergence of the search are not claimed.
- Solve: the move counter is a local of the method and is not returned. Its bound is a loop invariant, and its update is the contract of `Step`.
- Board.constructor: a negative `n`, which makes Java throw `NegativeArraySizeException`, is excluded by the parameter's type `nat`.
- Java's 32-bit `int` arithmetic is not modelled: integers are unbounded. This matters for `rows.length * 2` and for the counter `moves`, which counts up to `2n`: both overflow when `n` is at least 2^30. Row and column differences stay within `[-n, n]`.
- The source reuses one `ArrayList` for both scans. The model gives each scan a fresh sequence, since the list is cleared before each use anyway.
