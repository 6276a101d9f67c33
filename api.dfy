// The public entry point sudoku_solver of sudok_solver.hpp: it checks the
// declared size, loads the caller's 81 values, rejects a puzzle that repeats a
// digit in a row, a column or a box, runs the backtracking search and, on
// success, writes the digits back into the caller's buffer.

module Api {
  import opened Cells
  import opened Grids
  import opened Boards
  import opened Deduction
  import opened Solver

  /** The outcomes the entry point reports. */
  datatype Status = InvalidSize | SizeMismatch | InvalidPuzzle | Solved | NoSolution

  /** The text returned to the caller for each outcome. */
  function Message(st: Status): string
  {
    match st
    case InvalidSize => "Invalid size"
    case SizeMismatch => "Size mismatch with declared size"
    case InvalidPuzzle => "Invalid puzzle"
    case Solved => "Solved"
    case NoSolution => "No solution found"
  }

  /** Reading back a completed board that narrows the loaded puzzle p gives a
      digit 1..9 in every cell, and the given digit in every cell p gives. */
  lemma SolvedReadback(p: seq<int8>, s: Grid)
    requires |p| >= 81 && GridNarrows(LoadedGrid(p), s) && AllConfirmed(s) && AllValid(s)
    ensures forall i :: 0 <= i < 81 ==> 1 <= s[i].ConfirmedValue() <= 9
    ensures forall i :: 0 <= i < 81 && 1 <= p[i] <= 9 ==> s[i].ConfirmedValue() == p[i] as int
  {
    LoadedGridSpec(p);
    GridNarrowsKeeps(LoadedGrid(p), s);
    forall i | 0 <= i < 81
      ensures 1 <= s[i].ConfirmedValue() <= 9
    {
      ConfirmedDigit(s[i]);
    }
  }

  /** The first 81 entries of buf are getConfirmedValue of the cells of g. */
  ghost predicate ReadsBack(buf: seq<int8>, g: Grid)
  {
    |buf| >= 81 && |g| == 81 && forall i :: 0 <= i < 81 ==> buf[i] as int == g[i].ConfirmedValue()
  }

  /** Every one of the 81 cells is given. */
  predicate FullyGiven(p: seq<int8>)
    requires |p| >= 81
  {
    forall i :: 0 <= i < 81 ==> 1 <= p[i] <= 9
  }

  /** A puzzle that gives every cell loads as a board of confirmed valid
      cells, which propagation leaves as it is. */
  lemma GivenGridFixed(p: seq<int8>)
    requires |p| >= 81
    ensures FullyGiven(p) ==>
      DeducedFull(LoadedGrid(p)) == Deduced(LoadedGrid(p), true) && AllConfirmed(LoadedGrid(p))
  {
    if FullyGiven(p) {
      LoadedGridSpec(p);
      FullConfirmed(LoadedGrid(p));
    }
  }

  /** A buffer that agrees with p on every given of a full puzzle and on
      everything past the 81 cells is p. */
  lemma SameBuffer(q: seq<int8>, p: seq<int8>)
    requires |q| == |p| >= 81
    requires forall i :: 0 <= i < 81 && 1 <= p[i] <= 9 ==> q[i] == p[i]
    requires q[81..] == p[81..]
    ensures FullyGiven(p) ==> q == p
  {
    if FullyGiven(p) {
      forall i | 0 <= i < |q|
        ensures q[i] == p[i]
      {
        if i >= 81 {
          assert q[i] == q[81..][i - 81];
        }
      }
    }
  }

  /** The loop that copies getConfirmedValue of each cell of the solved board
      into the caller's buffer. */
  method WriteBack(puzzle: array<int8>, board: Board, ghost p: seq<int8>)
    requires board.Valid() && puzzle.Length >= 81 && puzzle[..] == p
    requires GridNarrows(LoadedGrid(p), board.cells[..])
    requires AllConfirmed(board.cells[..]) && AllValid(board.cells[..])
    modifies puzzle
    ensures forall i :: 0 <= i < 81 ==> 1 <= puzzle[i] <= 9 && puzzle[i] as int == board.cells[i].ConfirmedValue()
    ensures forall i :: 0 <= i < 81 && 1 <= p[i] <= 9 ==> puzzle[i] == p[i]
    ensures puzzle[81..] == p[81..]
  {
    ghost var s: Grid := board.cells[..];
    SolvedReadback(p, s);
    for i := 0 to 81
      invariant board.cells[..] == s
      invariant forall j :: 0 <= j < i ==> puzzle[j] as int == s[j].ConfirmedValue()
      invariant forall j :: i <= j < puzzle.Length ==> puzzle[j] == p[j]
    {
      puzzle[i] := board.cells[i].ConfirmedValue() as int8;
    }
  }

  /** sudoku_solver(puzzle, size). A size other than 81 is refused before the
      buffer is read; a puzzle is refused exactly when it repeats a given digit
      in a unit; "Solved" fills every cell of the buffer with a digit 1..9 and
      keeps every given; any other outcome leaves the buffer as it was. */
  method SudokuSolver(puzzle: array<int8>, size: nat)
    returns (status: Status, ghost final: Grid, ghost run: seq<Stack>)
    requires size == 81 ==> puzzle.Length >= 81
    modifies puzzle
    ensures size != 81 <==> status == InvalidSize
    ensures status != SizeMismatch
    ensures size == 81 ==> (status == InvalidPuzzle <==> !DistinctGivens(old(puzzle[..])))
    ensures status != Solved ==> puzzle[..] == old(puzzle[..])
    ensures status == Solved ==>
      (forall i :: 0 <= i < 81 ==> 1 <= puzzle[i] <= 9) &&
      (forall i :: 0 <= i < 81 && 1 <= old(puzzle[..])[i] <= 9 ==> puzzle[i] == old(puzzle[..])[i]) &&
      puzzle[81..] == old(puzzle[..])[81..]
    ensures size == 81 && FullyGiven(old(puzzle[..])) && DistinctGivens(old(puzzle[..])) ==>
      status == Solved && puzzle[..] == old(puzzle[..])
    ensures size == 81 && status != InvalidPuzzle ==>
      SolveOutcome(LoadedGrid(old(puzzle[..])), status == Solved, final, run)
    ensures status == Solved ==> ReadsBack(puzzle[..], final)
  {
    if size != 81 {
      return InvalidSize, seq(81, _ => SudokuCell(0)), [];
    }
    status, final, run := LoadAndSolve(puzzle, puzzle[..]);
  }

  /** sudoku_solver once the size is known to be 81: `Board board{}`,
      load_int8_t, and the rest. */
  method LoadAndSolve(puzzle: array<int8>, ghost p: seq<int8>)
    returns (status: Status, ghost final: Grid, ghost run: seq<Stack>)
    requires puzzle.Length >= 81 && puzzle[..] == p
    modifies puzzle
    ensures status == InvalidPuzzle || status == Solved || status == NoSolution
    ensures status == InvalidPuzzle <==> !DistinctGivens(p)
    ensures status != Solved ==> puzzle[..] == p
    ensures status == Solved ==>
      (forall i :: 0 <= i < 81 ==> 1 <= puzzle[i] <= 9) &&
      (forall i :: 0 <= i < 81 && 1 <= p[i] <= 9 ==> puzzle[i] == p[i]) &&
      puzzle[81..] == p[81..]
    ensures FullyGiven(p) && DistinctGivens(p) ==> status == Solved && puzzle[..] == p
    ensures status != InvalidPuzzle ==> SolveOutcome(LoadedGrid(p), status == Solved, final, run)
    ensures status == Solved ==> ReadsBack(puzzle[..], final)
  {
    var board := new Board();
    board.LoadInt8(puzzle);
    status, final, run := SolveLoaded(puzzle, board, p);
  }

  /** The part of sudoku_solver after load_int8_t: check the givens, then
      search. */
  method SolveLoaded(puzzle: array<int8>, board: Board, ghost p: seq<int8>)
    returns (status: Status, ghost final: Grid, ghost run: seq<Stack>)
    requires board.Valid() && puzzle.Length >= 81 && puzzle[..] == p
    requires board.cells[..] == LoadedGrid(p)
    modifies puzzle, board.cells
    ensures status == InvalidPuzzle || status == Solved || status == NoSolution
    ensures status == InvalidPuzzle <==> !DistinctGivens(p)
    ensures status != Solved ==> puzzle[..] == p
    ensures status == Solved ==>
      (forall i :: 0 <= i < 81 ==> 1 <= puzzle[i] <= 9) &&
      (forall i :: 0 <= i < 81 && 1 <= p[i] <= 9 ==> puzzle[i] == p[i]) &&
      puzzle[81..] == p[81..]
    ensures FullyGiven(p) && DistinctGivens(p) ==> status == Solved && puzzle[..] == p
    ensures status != InvalidPuzzle ==> SolveOutcome(LoadedGrid(p), status == Solved, final, run)
    ensures status == Solved ==> ReadsBack(puzzle[..], final)
  {
    LoadedUnitsOk(p);
    var valid := board.CheckInitialValid();
    if !valid {
      return InvalidPuzzle, board.cells[..], [];
    }
    status, final, run := SolveChecked(puzzle, board, p);
  }

  /** The last part of sudoku_solver: solve, and on success copy the digits
      into the caller's buffer. */
  method SolveChecked(puzzle: array<int8>, board: Board, ghost p: seq<int8>)
    returns (status: Status, ghost final: Grid, ghost run: seq<Stack>)
    requires board.Valid() && puzzle.Length >= 81 && puzzle[..] == p
    requires board.cells[..] == LoadedGrid(p)
    modifies puzzle, board.cells
    ensures status == Solved || status == NoSolution
    ensures status != Solved ==> puzzle[..] == p
    ensures status == Solved ==>
      (forall i :: 0 <= i < 81 ==> 1 <= puzzle[i] <= 9) &&
      (forall i :: 0 <= i < 81 && 1 <= p[i] <= 9 ==> puzzle[i] == p[i]) &&
      puzzle[81..] == p[81..]
    ensures FullyGiven(p) ==> status == Solved && puzzle[..] == p
    ensures SolveOutcome(LoadedGrid(p), status == Solved, final, run)
    ensures status == Solved ==> ReadsBack(puzzle[..], final)
  {
    GivenGridFixed(p);
    var solved;
    solved, run := Solve(board);
    final := board.cells[..];
    status := Report(puzzle, board, p, solved);
  }

  /** `if (solve(board))`: copy the solved board into the buffer and report
      "Solved", otherwise report "No solution found". */
  method Report(puzzle: array<int8>, board: Board, ghost p: seq<int8>, solved: bool) returns (status: Status)
    requires board.Valid() && puzzle.Length >= 81 && puzzle[..] == p
    requires solved ==>
      GridNarrows(LoadedGrid(p), board.cells[..]) && AllConfirmed(board.cells[..]) && AllValid(board.cells[..])
    modifies puzzle
    ensures status == (if solved then Solved else NoSolution)
    ensures !solved ==> puzzle[..] == p
    ensures solved ==>
      (forall i :: 0 <= i < 81 ==> 1 <= puzzle[i] <= 9) &&
      (forall i :: 0 <= i < 81 && 1 <= p[i] <= 9 ==> puzzle[i] == p[i]) &&
      puzzle[81..] == p[81..]
    ensures solved && FullyGiven(p) ==> puzzle[..] == p
    ensures solved ==> ReadsBack(puzzle[..], board.cells[..])
  {
    if !solved {
      return NoSolution;
    }
    WriteBack(puzzle, board, p);
    SameBuffer(puzzle[..], p);
    return Solved;
  }
}
