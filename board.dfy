/**
 * The min-conflicts N-Queens solver: a board that keeps one queen per column
 * in an array `rows` (the row of each column's queen) and updates it in place.
 */
module MinConflictsQueensSolver {
  import opened QueensSpec

  /**
   * A draw from the random source: some value in [0, bound). Which value is
   * drawn is left open, so every property below holds for all draws.
   */
  method NextInt(bound: int) returns (j: int)
    requires bound > 0
    ensures 0 <= j < bound
  {
    j :| 0 <= j < bound;
  }

  class Board {
    /** The row of each column's queen. */
    var rows: array<int>

    /** Every queen stands on a row of the board. */
    ghost predicate Valid()
      reads this, rows
    {
      InRange(rows[..])
    }

    /** A new n x n board, randomly filled with one queen in each column. */
    constructor (n: nat)
      ensures fresh(rows) && rows.Length == n
      ensures Valid() && IsPermutation(rows[..])
    {
      rows := new int[n];
      new;
      Scramble();
    }

    /** Refills the board with a random permutation of the rows. */
    method Scramble()
      modifies rows
      ensures Valid() && IsPermutation(rows[..])
    {
      var n := rows.Length;
      for i := 0 to n
        invariant forall k :: 0 <= k < i ==> rows[k] == k
      {
        rows[i] := i;
      }
      assert rows[..] == Identity(n);
      for i := 0 to n
        invariant multiset(rows[..]) == multiset(Identity(n))
      {
        var j := NextInt(n);
        var rowToSwap := rows[i];
        rows[i] := rows[j];
        rows[j] := rowToSwap;
      }
      PermutationIsInRangeAndDistinct(rows[..]);
    }

    /** The number of queens that attack (row, col), not counting the queen of column col. */
    method Conflicts(row: int, col: int) returns (count: int)
      ensures count == ConflictCount(rows[..], row, col)
    {
      count := 0;
      for c := 0 to rows.Length
        invariant count == CountAttackers(rows[..], row, col, c)
      {
        if c == col {
          continue;
        }
        var r := rows[c];
        if r == row || Abs(r - row) == Abs(c - col) {
          count := count + 1;
        }
      }
    }

    /**
     * The scan for the nastiest queen: the largest conflict count of any
     * column's queen, and the columns, in increasing order, whose queen has it.
     */
    method MostConflictedColumns() returns (candidates: seq<int>, maxConflicts: int)
      ensures maxConflicts >= 0
      ensures forall c :: 0 <= c < rows.Length ==> QueenConflicts(rows[..], c) <= maxConflicts
      ensures forall c :: c in candidates <==> 0 <= c < rows.Length && QueenConflicts(rows[..], c) == maxConflicts
      ensures rows.Length > 0 ==> candidates != []
      ensures rows.Length == 0 ==> maxConflicts == 0
      ensures forall i, j :: 0 <= i < j < |candidates| ==> candidates[i] < candidates[j]
    {
      maxConflicts := 0;
      candidates := [];
      for c := 0 to rows.Length
        invariant maxConflicts >= 0
        invariant forall k :: 0 <= k < c ==> QueenConflicts(rows[..], k) <= maxConflicts
        invariant forall k :: k in candidates <==> 0 <= k < c && QueenConflicts(rows[..], k) == maxConflicts
        invariant c == 0 ==> maxConflicts == 0
        invariant c > 0 ==> candidates != []
        invariant forall i :: 0 <= i < |candidates| ==> candidates[i] < c
        invariant forall i, j :: 0 <= i < j < |candidates| ==> candidates[i] < candidates[j]
      {
        var conflicts := Conflicts(rows[c], c);
        if conflicts == maxConflicts {
          candidates := candidates + [c];
        } else if conflicts > maxConflicts {
          maxConflicts := conflicts;
          candidates := [c];
        }
      }
    }

    /**
     * The scan for the best place of column col's queen: the smallest conflict
     * count of any row for that column, and the rows, in increasing order, that have it.
     */
    method LeastConflictedRows(col: int) returns (candidates: seq<int>, minConflicts: int)
      ensures forall r :: 0 <= r < rows.Length ==> minConflicts <= ConflictCount(rows[..], r, col)
      ensures forall r :: r in candidates <==> 0 <= r < rows.Length && ConflictCount(rows[..], r, col) == minConflicts
      ensures rows.Length > 0 ==> candidates != []
      ensures 0 <= col < rows.Length ==> minConflicts < rows.Length
      ensures forall i, j :: 0 <= i < j < |candidates| ==> candidates[i] < candidates[j]
    {
      minConflicts := rows.Length;
      candidates := [];
      for r := 0 to rows.Length
        invariant minConflicts <= rows.Length
        invariant forall k :: 0 <= k < r ==> minConflicts <= ConflictCount(rows[..], k, col)
        invariant forall k :: k in candidates <==> 0 <= k < r && ConflictCount(rows[..], k, col) == minConflicts
        invariant r == 0 ==> minConflicts == rows.Length
        invariant r > 0 ==> candidates != []
        invariant forall i :: 0 <= i < |candidates| ==> candidates[i] < r
        invariant forall i, j :: 0 <= i < j < |candidates| ==> candidates[i] < candidates[j]
      {
        var conflicts := Conflicts(r, col);
        ConflictCountBound(rows[..], r, col);
        if conflicts == minConflicts {
          candidates := candidates + [r];
        } else if conflicts < minConflicts {
          minConflicts := conflicts;
          candidates := [r];
        }
      }
      if 0 <= col < rows.Length {
        ConflictCountBound(rows[..], 0, col);
      }
    }

    /**
     * One step of the search. When no queen has a conflict the board is left
     * alone and `done` is returned; otherwise a most-conflicted column is picked
     * and its queen moved to a least-conflicted row.
     */
    method Move() returns (done: bool, column: int, row: int)
      requires Valid()
      modifies rows
      ensures Valid()
      ensures done <==> NoConflicts(old(rows[..]))
      ensures done ==> rows[..] == old(rows[..])
      ensures !done ==> IsMostConflicted(old(rows[..]), column) && QueenConflicts(old(rows[..]), column) > 0
      ensures !done ==> IsLeastConflictedRow(old(rows[..]), column, row)
      ensures !done ==> rows[..] == old(rows[..])[column := row]
      ensures !done ==> QueenConflicts(rows[..], column) <= QueenConflicts(old(rows[..]), column)
    {
      var worst, maxConflicts := MostConflictedColumns();
      if maxConflicts == 0 {
        return true, 0, 0;
      }
      var pick := NextInt(|worst|);
      column := worst[pick];
      assert column in worst;
      var best, minConflicts := LeastConflictedRows(column);
      row := rows[column];
      if best != [] {
        pick := NextInt(|best|);
        row := best[pick];
        assert row in best;
        rows[column] := row;
      }
      RelocationDoesNotWorsen(old(rows[..]), column, row);
      done := false;
    }

    /**
     * One full iteration of the search loop: a move, then the restart policy.
     * `moves` is the number of moves since the last scramble; when it reaches
     * `2 * n` the board is scrambled afresh and the count starts over.
     */
    method Step(moves: int) returns (done: bool, column: int, row: int, next: int)
      requires Valid()
      requires 0 <= moves && (moves == 0 || moves < 2 * rows.Length)
      modifies rows
      ensures Valid()
      ensures done <==> NoConflicts(old(rows[..]))
      ensures done ==> rows[..] == old(rows[..]) && next == moves
      ensures !done ==> 0 < rows.Length && next == if moves + 1 == 2 * rows.Length then 0 else moves + 1
      ensures !done ==> 0 <= next < 2 * rows.Length
      ensures !done ==> IsMostConflicted(old(rows[..]), column) && IsLeastConflictedRow(old(rows[..]), column, row)
      ensures !done && next == 0 ==> IsPermutation(rows[..])
      ensures !done && next != 0 ==> rows[..] == old(rows[..])[column := row]
    {
      done, column, row := Move();
      next := moves;
      if done {
        return;
      }
      next := next + 1;
      if next == rows.Length * 2 {
        Scramble();
        next := 0;
      }
    }

    /**
     * The search loop, bounded by `fuel` iterations. Every `2 * n` moves the
     * board is scrambled afresh. When it returns `solved`, the board is a legal
     * arrangement of queens.
     */
    method Solve(fuel: nat) returns (solved: bool)
      requires Valid()
      modifies rows
      ensures Valid()
      ensures solved ==> Legal(rows[..])
      ensures rows.Length == 2 || rows.Length == 3 ==> !solved
      ensures rows.Length <= 1 && fuel > 0 ==> solved
    {
      var moves := 0;
      var remaining := fuel;
      while remaining > 0
        invariant Valid()
        invariant 0 <= moves && (moves == 0 || moves < 2 * rows.Length)
        invariant moves == 0 && remaining < fuel ==> IsPermutation(rows[..])
        invariant rows.Length <= 1 ==> remaining == fuel
      {
        if rows.Length == 1 {
          assert QueenConflicts(rows[..], 0) == CountAttackers(rows[..], rows[0], 0, 0) == 0;
        }
        var done, column, row;
        done, column, row, moves := Step(moves);
        if done {
          NoConflictsIffLegal(rows[..]);
          if rows.Length == 2 || rows.Length == 3 {
            NoLegalBoardOfSizeTwoOrThree(rows[..]);
          }
          return true;
        }
        remaining := remaining - 1;
      }
      return false;
    }

    /** The lines the board prints: row by row, a `Q` where a queen stands and `|` elsewhere. */
    method Print() returns (lines: seq<string>)
      ensures lines == Grid(rows[..])
    {
      GridShowsQueens(rows[..]);
      lines := [];
      for r := 0 to rows.Length
        invariant lines == Grid(rows[..])[..r]
      {
        var line := "";
        for c := 0 to rows.Length
          invariant line == Grid(rows[..])[r][..c]
        {
          line := line + [if rows[c] == r then 'Q' else '|'];
        }
        assert line == Grid(rows[..])[r];
        lines := lines + [line];
      }
    }
  }
}
