/** The unit-test fixtures of the engine, and the grids that exhibit where the
    code departs from what its comments and tests intend. */
module Fixtures {
  import opened Grid
  import opened Solver

  const ValidPuzzle: string :=
    "5..91372." +
    "3...8.5.9" +
    ".9.25..8." +
    "68.47.23." +
    "..95..46." +
    "7.4.....5" +
    ".2......." +
    "4..8916.." +
    "85.72...3"
  const BadCharacterPuzzle: string :=
    "1x5xx2.84" +
    "..63.12.7" +
    ".2..5...." +
    ".9..1...." +
    "8.2.3674." +
    "3.7.2..9." +
    "47...8..1" +
    "..16....9" +
    "26914.37."
  const ShortPuzzle: string :=
    "..839.7.5" +
    "75.....96" +
    "..1......" +
    ".16.29846" +
    ".9.312.7." +
    ".754....." +
    "62..5.78." +
    "8...3.2.." +
    ".492...1"
  const PlacementPuzzle: string :=
    "1.5..2.84" +
    "..63.12.7" +
    ".2..5...." +
    ".9..1...." +
    "8.2.3674." +
    "3.7.2..9." +
    "47...8..1" +
    "..16....9" +
    "26914.37."

  /** The grid whose row `r` is the digits 1..9 rotated left by `r`
      ("123456789", "234567891", ..., "912345678"): every row and column is
      distinct, the regions are not. */
  const ShiftedRows: string :=
    seq(81, k requires 0 <= k < 81 => Digit(Rotated(k / 9, k % 9)))

  /** Entry `a` of the digits 1..9 rotated left by `r`. */
  function Rotated(r: int, a: int): (d: int)
    requires 0 <= r < 9 && 0 <= a < 9
    ensures 1 <= d <= 9
  {
    if r + a < 9 then r + a + 1 else r + a - 8
  }

  lemma ValidateFixtures()
    ensures SudokuSolver.Validate(ValidPuzzle) == Valid
    ensures SudokuSolver.Validate(BadCharacterPuzzle) == Invalid(CharacterError)
    ensures SudokuSolver.Validate(ShortPuzzle) == Invalid(LengthError)
  {
    assert !IsPuzzleChar(BadCharacterPuzzle[1]);
  }

  lemma RowPlacementFixtures()
    ensures SudokuSolver.CheckRowPlacement(PlacementPuzzle, 0, 1, '3')
    ensures !SudokuSolver.CheckRowPlacement(PlacementPuzzle, 0, 1, '5')
  {
    assert Row(PlacementPuzzle, 0)[2] == '5';
  }

  /** The verdicts `CheckColPlacement` returns on the column fixtures. */
  lemma ColumnPlacementFixtures()
    ensures ColumnAdmits(PlacementPuzzle, 0, 1, '3')
    ensures !ColumnAdmits(PlacementPuzzle, 0, 1, '2')
  {
    assert Column(PlacementPuzzle, 1)[2] == '2';
  }

  /** The region fixtures: `'6'` already sits in the region of `(0, 1)`, so the
      corrected check rejects it, while `CheckRegionPlacement` accepts every value. */
  lemma RegionPlacementFixtures()
    ensures RegionAdmits(PlacementPuzzle, 0, 1, '3')
    ensures !RegionAdmits(PlacementPuzzle, 0, 1, '6')
  {
    assert Region(PlacementPuzzle, 0, 1)[5] == '6';
  }

  lemma ShiftedRowsRowsDistinct()
    ensures forall r :: 0 <= r < 9 ==> IsUnique(Row(ShiftedRows, r))
  {
    forall r | 0 <= r < 9
      ensures IsUnique(Row(ShiftedRows, r))
    {
      forall a | 0 <= a < 9
        ensures Row(ShiftedRows, r)[a] == Digit(Rotated(r, a))
      {
        assert (r * 9 + a) / 9 == r && (r * 9 + a) % 9 == a;
      }
    }
  }

  lemma ShiftedRowsColumnsDistinct()
    ensures forall c :: 0 <= c < 9 ==> IsUnique(Column(ShiftedRows, c))
  {
    forall c | 0 <= c < 9
      ensures IsUnique(Column(ShiftedRows, c))
    {
      forall a | 0 <= a < 9
        ensures Column(ShiftedRows, c)[a] == Digit(Rotated(a, c))
      {
        assert (a * 9 + c) / 9 == a && (a * 9 + c) % 9 == c;
      }
    }
  }

  /** With the region loop disabled, `solve` returns a completed grid whose
      regions repeat digits. */
  lemma ShiftedRowsIsReturned()
    ensures SudokuSolver.Validate(ShiftedRows) == Valid && Blank !in ShiftedRows
    ensures RowsAndColumnsDistinct(ShiftedRows) && !RegionsDistinct(ShiftedRows)
    ensures Solution(ShiftedRows, "") == Outcome(Solved(ShiftedRows), "")
  {
    ShiftedRowsRowsDistinct();
    ShiftedRowsColumnsDistinct();
    assert Box(ShiftedRows, 0)[1] == ShiftedRows[1] == ShiftedRows[9] == Box(ShiftedRows, 0)[3];
  }

  /** A valid grid: row 0 is blank at column 0 and holds 2..9 after it, cell
      (1, 1) holds `1`, every other cell is blank. */
  const RegionBlindGrid: string :=
    seq(81, k requires 0 <= k < 81 => if 1 <= k < 9 then Digit(k + 1) else if k == 10 then '1' else Blank)

  /** Row and column leave only `1` at cell (0, 0): trying the digits 1..n
      gives the list `["1"]`. */
  lemma {:induction false} RegionBlindCandidates(n: int)
    requires 1 <= n <= 9
    ensures CandidatesUpTo(RegionBlindGrid, 0, n) == ['1']
  {
    var g := RegionBlindGrid;
    if n == 1 {
      assert SolverAccepts(g, 0, Digit(1));
    } else {
      RegionBlindCandidates(n - 1);
      assert Row(g, 0)[n - 1] == g[n - 1] == Digit(n);
    }
  }

  /** The region of cell (0, 0) holds `1`, so the corrected test leaves no candidate there. */
  lemma RegionBlindCorrectedCandidates()
    ensures CorrectedCandidates(RegionBlindGrid, 0) == []
  {
    var g := RegionBlindGrid;
    RegionBlindCandidates(9);
    assert Region(g, 0, 0)[4] == g[10] == '1';
    assert RegionFilter(g, 0, ['1']) == RegionFilter(g, 0, []);
  }

  /** The grid passes `validate`. */
  lemma RegionBlindGridValid()
    ensures SudokuSolver.Validate(RegionBlindGrid) == Valid
  {
    assert forall k :: 0 <= k < 81 ==> IsPuzzleChar(RegionBlindGrid[k]);
  }

  /** The pass as written fills cell (0, 0) with `1` although the region
      already holds `1` at (1, 1), so the region of the result repeats a digit. */
  lemma RegionBlindPassRepeats()
    ensures Pass(RegionBlindGrid)[0] == '1' && !IsUnique(Region(Pass(RegionBlindGrid), 0, 0))
  {
    var g := RegionBlindGrid;
    RegionBlindCandidates(9);
    var q := Pass(g);
    assert q[0] == PassCell(g, 0) == '1';
    assert q[10] == g[10] == '1';
    var r := Region(q, 0, 0);
    assert r[0] == q[0] && r[4] == q[10];
  }

  /** The corrected pass finds no candidate at cell (0, 0) and leaves it blank. */
  lemma RegionBlindCorrectedBlank()
    ensures CorrectedPass(RegionBlindGrid)[0] == Blank
  {
    RegionBlindCorrectedCandidates();
  }

  /** The grid with every cell blank. */
  const EmptyGrid: string := seq(81, k => Blank)

  /** On the empty grid every digit is accepted everywhere, so the first pass
      fills nothing and the guard ends the run. */
  lemma EmptyGridIsStuck(last: string)
    requires last != EmptyGrid
    ensures Solution(EmptyGrid, last) == Outcome(NotSolved, EmptyGrid)
  {
    forall i | 0 <= i < 81
      ensures Pass(EmptyGrid)[i] == EmptyGrid[i]
    {
      assert SolverAccepts(EmptyGrid, i, '1') && SolverAccepts(EmptyGrid, i, '2');
    }
    assert Pass(EmptyGrid) == EmptyGrid;
    StuckPassFails(EmptyGrid, last);
  }

  /** A fresh solver returns the completed grid `ShiftedRows` although its
      regions repeat digits, and returns it again when asked twice. */
  method SolveShiftedRowsTwice() returns (first: SolveResult, second: SolveResult)
    ensures first == second == Solved(ShiftedRows)
  {
    var solver := new SudokuSolver();
    ShiftedRowsIsReturned();
    first := solver.Solve(ShiftedRows);
    SolvedGridIsReturned(ShiftedRows, solver.actualPuzzle);
    second := solver.Solve(ShiftedRows);
  }

  /** A fresh solver fails on the empty grid and remembers it, so submitting
      the same grid again is refused by the guard. */
  method SolveEmptyGridTwice() returns (first: SolveResult, second: SolveResult, remembered: string)
    ensures first == second == NotSolved && remembered == EmptyGrid
  {
    var solver := new SudokuSolver();
    EmptyGridIsStuck("");
    first := solver.Solve(EmptyGrid);
    second := solver.Solve(EmptyGrid);
    remembered := solver.actualPuzzle;
  }
}
