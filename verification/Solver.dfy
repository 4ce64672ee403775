/** The puzzle engine: format validation, the three placement checks, and the
    recursive single-candidate solver with its resubmission guard. */
module Solver {
  import opened Grid

  /** What `validate` returns: `true`, or an object carrying an error message. */
  datatype Validity = Valid | Invalid(error: string)

  const LengthError: string := "Expected puzzle to be 81 characters long"
  const CharacterError: string := "Invalid characters in puzzle"

  /** What `solve` returns: the completed puzzle string, or `false`. */
  datatype SolveResult = NotSolved | Solved(grid: string)

  /** The outcome of a solve call: its result and the new value of `actualPuzzle`. */
  datatype Outcome = Outcome(result: SolveResult, actualPuzzle: string)

  /** The character class `[0-9.]`. */
  predicate IsPuzzleChar(ch: char)
  {
    '0' <= ch <= '9' || ch == Blank
  }

  /** The regular expression `/^[0-9.]{n}$/`: `n` characters of the class, then the end. */
  predicate MatchesPattern(s: string, n: nat)
  {
    if n == 0 then s == [] else s != [] && IsPuzzleChar(s[0]) && MatchesPattern(s[1..], n - 1)
  }

  lemma {:induction false} MatchesPatternExactly(s: string, n: nat)
    ensures MatchesPattern(s, n) <==> |s| == n && forall i :: 0 <= i < |s| ==> IsPuzzleChar(s[i])
  {
    if n > 0 && s != [] {
      MatchesPatternExactly(s[1..], n - 1);
      assert forall i :: 1 <= i < |s| ==> s[i] == s[1..][i - 1];
    }
  }

  /** The digit character for `j` in 0..9, as `j.toString()` gives it. */
  function Digit(j: int): (d: char)
    requires 0 <= j <= 9
    ensures '0' <= d <= '9' && d as int - '0' as int == j
  {
    (48 + j) as char
  }

  /** Whether the solver's three checks accept digit `v` at cell `i`. The region
      check it calls accepts every value (see `CheckRegionPlacement`), so only
      the row and the column decide. */
  predicate SolverAccepts(p: string, i: int, v: char)
    requires |p| == 81 && 0 <= i < 81
  {
    RowAdmits(p, i / 9, i % 9, v) && ColumnAdmits(p, i / 9, i % 9, v)
  }

  /** The `possibleVals` of cell `i` once the digits 1..n have been tried:
      the accepted ones, in ascending order. */
  function CandidatesUpTo(p: string, i: int, n: int): (cs: seq<char>)
    requires |p| == 81 && 0 <= i < 81 && 0 <= n <= 9
    ensures forall v :: v in cs <==> '1' <= v && v as int <= '0' as int + n && SolverAccepts(p, i, v)
    ensures forall a, b :: 0 <= a < b < |cs| ==> cs[a] < cs[b]
  {
    if n == 0 then []
    else
      var earlier := CandidatesUpTo(p, i, n - 1);
      assert forall a :: 0 <= a < |earlier| ==> earlier[a] in earlier;
      assert forall a :: 0 <= a < |earlier| ==> earlier[a] as int < Digit(n) as int;
      earlier + (if SolverAccepts(p, i, Digit(n)) then [Digit(n)] else [])
  }

  /** The entry `tempSolution[i]` after the first loop of a pass: the cell
      itself when filled, the candidate list when blank. */
  function TempEntry(p: string, i: int): string
    requires |p| == 81 && 0 <= i < 81
  {
    if p[i] != Blank then [p[i]] else CandidatesUpTo(p, i, 9)
  }

  /** What the second loop of a pass makes of an entry of `tempSolution`: its
      one character when it has exactly one, a blank otherwise. */
  function Settle(entry: string): char
  {
    if |entry| == 1 then entry[0] else Blank
  }

  /** The new value of cell `i` after one pass over the snapshot `p`: the
      entry's one character when it has exactly one, a blank otherwise. */
  function PassCell(p: string, i: int): (ch: char)
    requires |p| == 81 && 0 <= i < 81
    ensures p[i] != Blank ==> ch == p[i]
    ensures ch == Blank || ch == p[i] || '1' <= ch <= '9'
  {
    var entry := TempEntry(p, i);
    assert |entry| == 1 ==> entry[0] in entry;
    Settle(entry)
  }

  /** A blank takes digit `ch` only when `ch` is the one digit the checks accept
      there, and stays blank only when no digit is uniquely accepted. */
  lemma PassCellForced(p: string, i: int)
    requires |p| == 81 && 0 <= i < 81 && p[i] == Blank
    ensures var ch := PassCell(p, i);
      (ch != Blank ==>
        '1' <= ch <= '9' && SolverAccepts(p, i, ch) &&
        forall v :: '1' <= v <= '9' && v != ch ==> !SolverAccepts(p, i, v)) &&
      (ch == Blank ==>
        forall v :: '1' <= v <= '9' && SolverAccepts(p, i, v) ==>
          exists w :: '1' <= w <= '9' && w != v && SolverAccepts(p, i, w))
  {
    var cs := CandidatesUpTo(p, i, 9);
    assert TempEntry(p, i) == cs;
    if |cs| == 1 {
      assert PassCell(p, i) == cs[0] && cs[0] in cs;
    } else {
      assert PassCell(p, i) == Blank;
      if |cs| >= 2 {
        assert cs[0] in cs && cs[1] in cs && cs[0] != cs[1];
      }
    }
  }

  /** One propagation pass over the snapshot `p`. */
  function Pass(p: string): (q: string)
    requires |p| == 81
    ensures |q| == 81
    ensures forall i :: 0 <= i < 81 && p[i] != Blank ==> q[i] == p[i]
    ensures forall i :: 0 <= i < 81 && q[i] == Blank ==> p[i] == Blank
    ensures forall i :: 0 <= i < 81 ==> q[i] == Blank || q[i] == p[i] || '1' <= q[i] <= '9'
  {
    seq(81, i requires 0 <= i < 81 => PassCell(p, i))
  }

  /** The pass output of a valid puzzle is valid again. */
  lemma PassKeepsFormat(p: string)
    requires SudokuSolver.Validate(p) == Valid
    ensures SudokuSolver.Validate(Pass(p)) == Valid
  {
  }

  /** Every blank the pass fills gets the one digit the checks accept there. */
  lemma PassFillsForcedCells(p: string)
    requires |p| == 81
    ensures forall i :: 0 <= i < 81 && p[i] == Blank && Pass(p)[i] != Blank ==>
      '1' <= Pass(p)[i] <= '9' && SolverAccepts(p, i, Pass(p)[i]) &&
      forall v :: '1' <= v <= '9' && v != Pass(p)[i] ==> !SolverAccepts(p, i, v)
  {
    forall i | 0 <= i < 81 && p[i] == Blank
      ensures Pass(p)[i] != Blank ==>
        '1' <= Pass(p)[i] <= '9' && SolverAccepts(p, i, Pass(p)[i]) &&
        forall v :: '1' <= v <= '9' && v != Pass(p)[i] ==> !SolverAccepts(p, i, v)
    {
      PassCellForced(p, i);
    }
  }

  /** A pass never adds a blank, and a pass that fills nothing returns its input. */
  lemma PassProgress(p: string)
    requires |p| == 81
    ensures Blanks(Pass(p)) <= Blanks(p)
    ensures Blanks(Pass(p)) == Blanks(p) ==> Pass(p) == p
  {
    FillingShrinks(p, Pass(p));
  }

  /** The string `tempSolution.join("")` builds. */
  function Join(parts: seq<string>): string
  {
    if parts == [] then "" else parts[0] + Join(parts[1..])
  }

  lemma {:induction false} JoinSingletons(parts: seq<string>)
    requires forall k :: 0 <= k < |parts| ==> |parts[k]| == 1
    ensures |Join(parts)| == |parts|
    ensures forall k :: 0 <= k < |parts| ==> Join(parts)[k] == parts[k][0]
  {
    if parts != [] {
      JoinSingletons(parts[1..]);
      assert forall k :: 1 <= k < |parts| ==> parts[k] == parts[1..][k - 1];
    }
  }

  /** What `solve(puzzle)` returns and leaves in `actualPuzzle`, when called
      with `actualPuzzle == last`. */
  function Solution(puzzle: string, last: string): (o: Outcome)
    decreases Blanks(puzzle), if puzzle == last then 0 else 1
    ensures SudokuSolver.Validate(puzzle) != Valid ==> o == Outcome(NotSolved, last)
    ensures puzzle == last ==> o == Outcome(NotSolved, last)
    ensures o.result.Solved? ==>
      var g := o.result.grid;
      |g| == |puzzle| == 81 && Blank !in g && SudokuSolver.Validate(g) == Valid &&
      RowsAndColumnsDistinct(g) &&
      forall i :: 0 <= i < 81 && puzzle[i] != Blank ==> g[i] == puzzle[i]
    ensures o.actualPuzzle == last || (Blank in o.actualPuzzle && SudokuSolver.Validate(o.actualPuzzle) == Valid)
  {
    if SudokuSolver.Validate(puzzle) != Valid then Outcome(NotSolved, last)
    else if puzzle == last then Outcome(NotSolved, last)
    else if Blank in puzzle then
      PassProgress(puzzle);
      Solution(Pass(puzzle), puzzle)
    else if RowsAndColumnsDistinct(puzzle) then Outcome(Solved(puzzle), last)
    else Outcome(NotSolved, last)
  }

  /** A completed grid is returned unchanged exactly when its rows and columns
      are distinct, and `actualPuzzle` is left alone, provided `actualPuzzle`
      holds what `solve` ever stores there (the initial `""` or a string with a blank). */
  lemma SolvedGridIsReturned(puzzle: string, last: string)
    requires SudokuSolver.Validate(puzzle) == Valid && Blank !in puzzle
    requires last == "" || Blank in last
    ensures Solution(puzzle, last) ==
      Outcome(if RowsAndColumnsDistinct(puzzle) then Solved(puzzle) else NotSolved, last)
  {
  }

  /** Solving the returned solution again, with whatever the first call left in
      `actualPuzzle`, returns it once more. */
  lemma SolutionIsStable(puzzle: string, last: string)
    requires last == "" || Blank in last
    requires Solution(puzzle, last).result.Solved?
    ensures var o := Solution(puzzle, last);
      Solution(o.result.grid, o.actualPuzzle) == o
  {
    var o := Solution(puzzle, last);
    SolvedGridIsReturned(o.result.grid, o.actualPuzzle);
  }

  /** A pass that fills no blank ends the run unsolved: the recursive call
      meets the string it has just stored in `actualPuzzle`. */
  lemma StuckPassFails(puzzle: string, last: string)
    requires SudokuSolver.Validate(puzzle) == Valid && Blank in puzzle && puzzle != last
    requires Pass(puzzle) == puzzle
    ensures Solution(puzzle, last) == Outcome(NotSolved, puzzle)
  {
  }

  /** The candidate test with the corrected region check (`false` on a
      conflict): the row, the column and the region must all admit `v`. */
  predicate CorrectedAccepts(p: string, i: int, v: char)
    requires |p| == 81 && 0 <= i < 81
  {
    SolverAccepts(p, i, v) && RegionAdmits(p, i / 9, i % 9, v)
  }

  /** The characters of the ascending list `cs` that the region of cell `i`
      admits, in their order. */
  function RegionFilter(p: string, i: int, cs: seq<char>): (rs: seq<char>)
    requires |p| == 81 && 0 <= i < 81
    requires forall a, b :: 0 <= a < b < |cs| ==> cs[a] < cs[b]
    ensures forall v :: v in rs <==> v in cs && RegionAdmits(p, i / 9, i % 9, v)
    ensures forall a, b :: 0 <= a < b < |rs| ==> rs[a] < rs[b]
  {
    if cs == [] then []
    else
      var rest := RegionFilter(p, i, cs[1..]);
      assert forall v :: v in cs[1..] ==> cs[0] < v;
      assert forall a :: 0 <= a < |rest| ==> rest[a] in rest;
      (if RegionAdmits(p, i / 9, i % 9, cs[0]) then [cs[0]] else []) + rest
  }

  /** The `possibleVals` of cell `i` under the corrected region check: the
      digits 1-9 that the row, the column and the region admit, ascending. */
  function CorrectedCandidates(p: string, i: int): (cs: seq<char>)
    requires |p| == 81 && 0 <= i < 81
    ensures forall v :: v in cs <==> '1' <= v <= '9' && CorrectedAccepts(p, i, v)
    ensures forall a, b :: 0 <= a < b < |cs| ==> cs[a] < cs[b]
  {
    RegionFilter(p, i, CandidatesUpTo(p, i, 9))
  }

  /** One pass over the snapshot `p` with the corrected candidate test. */
  function CorrectedPass(p: string): (q: string)
    requires |p| == 81
    ensures |q| == 81
    ensures forall i :: 0 <= i < 81 && p[i] != Blank ==> q[i] == p[i]
  {
    seq(81, i requires 0 <= i < 81 => if p[i] != Blank then p[i] else Settle(CorrectedCandidates(p, i)))
  }

  /** A blank the corrected pass fills gets the one digit that the row, the
      column and the region all admit; that digit occurs in none of the three
      houses of the cell. */
  lemma CorrectedPassFillsForcedCells(p: string, i: int)
    requires |p| == 81 && 0 <= i < 81 && p[i] == Blank && CorrectedPass(p)[i] != Blank
    ensures var d := CorrectedPass(p)[i];
      '1' <= d <= '9' &&
      d !in Row(p, i / 9) && d !in Column(p, i % 9) && d !in Region(p, i / 9, i % 9) &&
      forall v :: '1' <= v <= '9' && v != d ==> !CorrectedAccepts(p, i, v)
  {
    var cs := CorrectedCandidates(p, i);
    assert CorrectedPass(p)[i] == Settle(cs);
    assert |cs| == 1 && cs[0] in cs;
    assert p[(i / 9) * 9 + i % 9] == Blank;
    forall v | v in cs
      ensures v == cs[0]
    {
      var k :| 0 <= k < |cs| && cs[k] == v;
    }
  }

  class SudokuSolver {
    /** The last unsolved puzzle string `solve` attempted. */
    var actualPuzzle: string

    /** `actualPuzzle` holds what `solve` ever stores there: the initial `""`,
        or a valid puzzle string with a blank. */
    predicate Invariant()
      reads this
    {
      actualPuzzle == "" || (Blank in actualPuzzle && Validate(actualPuzzle) == Valid)
    }

    constructor()
      ensures actualPuzzle == "" && Invariant()
    {
      actualPuzzle := "";
    }

    /** The length is checked first; only a string of length 81 is checked
        against the pattern `/^[0-9.]{81}$/`. */
    static function Validate(puzzle: string): (r: Validity)
      ensures |puzzle| != 81 ==> r == Invalid(LengthError)
      ensures |puzzle| == 81 ==>
        (r == Valid <==> forall i :: 0 <= i < 81 ==> IsPuzzleChar(puzzle[i]))
      ensures |puzzle| == 81 && r != Valid ==> r == Invalid(CharacterError)
    {
      if |puzzle| != 81 then Invalid(LengthError)
      else
        MatchesPatternExactly(puzzle, 81);
        if !MatchesPattern(puzzle, 81) then Invalid(CharacterError) else Valid
    }

    static function CheckRowPlacement(puzzle: string, row: int, column: int, value: char): (ok: bool)
      requires |puzzle| == 81 && 0 <= row < 9 && 0 <= column < 9
      ensures ok == RowAdmits(puzzle, row, column, value)
    {
      var checkedRow := puzzle[row * 9 .. row * 9 + 9];
      assert checkedRow == Row(puzzle, row);
      if checkedRow[column] == value then true
      else if value in checkedRow && checkedRow[column] != value then false
      // The guard `!checkedRow[column] === "."` compares a boolean with a string: never true.
      else true
    }

    static method CheckColPlacement(puzzle: string, row: int, column: int, value: char) returns (ok: bool)
      requires |puzzle| == 81 && 0 <= row < 9 && 0 <= column < 9
      ensures ok == ColumnAdmits(puzzle, row, column, value)
    {
      var checkedCol := "";
      for i := 0 to 9
        invariant checkedCol == Column(puzzle, column)[..i]
      {
        checkedCol := checkedCol + [puzzle[i * 9 + column]];
      }
      assert checkedCol == Column(puzzle, column);
      if checkedCol[row] == value {
        return true;
      }
      if value in checkedCol && checkedCol[row] != value {
        return false;
      }
      // The guard `!checkedCol[row] === "."` is never true.
      return true;
    }

    /** The region check as written: a value found in the region is answered
        with `true` too, so every call accepts. */
    static method CheckRegionPlacement(puzzle: string, row: int, column: int, value: char) returns (ok: bool)
      requires |puzzle| == 81 && 0 <= row < 9 && 0 <= column < 9
      ensures ok
    {
      var checkedRegion := "";
      var regionRow := row / 3;
      var regionCol := column / 3;
      for i := regionRow * 3 to regionRow * 3 + 3 {
        for j := regionCol * 3 to regionCol * 3 + 3 {
          checkedRegion := checkedRegion + [puzzle[i * 9 + j]];
        }
      }
      var cell := puzzle[row * 9 + column];
      if cell == value {
        return true;
      }
      if value in checkedRegion && cell != value {
        return true;
      }
      // The guard `!checkedRegion[...] === "."` is never true.
      return true;
    }

    /** The region check with the conflict branch answering `false`, as the
        comment beside it and the unit test expect. */
    static method CheckRegionPlacementCorrected(puzzle: string, row: int, column: int, value: char) returns (ok: bool)
      requires |puzzle| == 81 && 0 <= row < 9 && 0 <= column < 9
      ensures ok == RegionAdmits(puzzle, row, column, value)
    {
      var checkedRegion := "";
      var regionRow := row / 3;
      var regionCol := column / 3;
      for i := regionRow * 3 to regionRow * 3 + 3
        invariant checkedRegion == Region(puzzle, row, column)[..3 * (i - regionRow * 3)]
      {
        for j := regionCol * 3 to regionCol * 3 + 3
          invariant checkedRegion == Region(puzzle, row, column)[..3 * (i - regionRow * 3) + (j - regionCol * 3)]
        {
          ghost var k := 3 * (i - regionRow * 3) + (j - regionCol * 3);
          assert k / 3 == i - regionRow * 3 && k % 3 == j - regionCol * 3;
          assert Region(puzzle, row, column)[k] == puzzle[i * 9 + j];
          checkedRegion := checkedRegion + [puzzle[i * 9 + j]];
        }
      }
      assert checkedRegion == Region(puzzle, row, column);
      var cell := puzzle[row * 9 + column];
      if cell == value {
        return true;
      }
      if value in checkedRegion && cell != value {
        return false;
      }
      return true;
    }

    /** The candidate digits of blank cell `i`: each of 1..9 that the row,
        column and region checks all accept, in ascending order. */
    static method PossibleValues(puzzle: string, i: int) returns (possibleVals: string)
      requires |puzzle| == 81 && 0 <= i < 81
      ensures possibleVals == CandidatesUpTo(puzzle, i, 9)
    {
      possibleVals := [];
      for j := 1 to 10
        invariant possibleVals == CandidatesUpTo(puzzle, i, j - 1)
      {
        var v := Digit(j);
        var ok := CheckRowPlacement(puzzle, i / 9, i % 9, v);
        if ok {
          ok := CheckColPlacement(puzzle, i / 9, i % 9, v);
        }
        if ok {
          ok := CheckRegionPlacement(puzzle, i / 9, i % 9, v);
        }
        if ok {
          possibleVals := possibleVals + [v];
        }
      }
    }

    /** One propagation pass (the body of `solve` for an unsolved puzzle). */
    static method PropagationPass(puzzle: string) returns (newPuzzle: string)
      requires |puzzle| == 81
      ensures newPuzzle == Pass(puzzle)
    {
      // Each entry is first the one-character string of a filled cell, or the
      // list of candidate digits of a blank; then the character the cell gets.
      var tempSolution := new string[81];
      for i := 0 to 81
        invariant forall k :: 0 <= k < i ==> tempSolution[k] == TempEntry(puzzle, k)
      {
        if puzzle[i] != Blank {
          tempSolution[i] := [puzzle[i]];
        } else {
          tempSolution[i] := PossibleValues(puzzle, i);
        }
      }
      ghost var entries := tempSolution[..];
      for k := 0 to 81
        invariant forall m :: 0 <= m < k ==> |tempSolution[m]| == 1 && tempSolution[m][0] == Settle(entries[m])
        invariant forall m :: k <= m < 81 ==> tempSolution[m] == entries[m]
      {
        if |tempSolution[k]| == 1 {
          tempSolution[k] := [tempSolution[k][0]];
        } else {
          tempSolution[k] := [Blank];
        }
      }
      JoinSingletons(tempSolution[..]);
      newPuzzle := Join(tempSolution[..]);
      assert forall m :: 0 <= m < 81 ==> newPuzzle[m] == Settle(TempEntry(puzzle, m)) == Pass(puzzle)[m];
    }

    /** The check on a puzzle without blanks: every row, then every column, must
        hold distinct characters. The region loop that follows runs while
        `reg < 0`, that is never, so regions are not checked. */
    static method CheckSolved(puzzle: string) returns (ok: bool)
      requires |puzzle| == 81
      ensures ok == RowsAndColumnsDistinct(puzzle)
    {
      for i := 0 to 9
        invariant forall r :: 0 <= r < i ==> IsUnique(Row(puzzle, r))
      {
        assert puzzle[i * 9 .. i * 9 + 9] == Row(puzzle, i);
        if !IsUnique(puzzle[i * 9 .. i * 9 + 9]) {
          return false;
        }
      }
      for j := 0 to 9
        invariant forall c :: 0 <= c < j ==> IsUnique(Column(puzzle, c))
      {
        var column := "";
        for i := 0 to 9
          invariant column == Column(puzzle, j)[..i]
        {
          column := column + [puzzle[i * 9 + j]];
        }
        assert column == Column(puzzle, j);
        if !IsUnique(column) {
          return false;
        }
      }
      return true;
    }

    /** The check on a puzzle without blanks with its region loop running over
        all nine regions. */
    static method CheckSolvedCorrected(puzzle: string) returns (ok: bool)
      requires |puzzle| == 81
      ensures ok == (RowsAndColumnsDistinct(puzzle) && RegionsDistinct(puzzle))
    {
      ok := CheckSolved(puzzle);
      if !ok {
        return;
      }
      for reg := 0 to 9
        invariant forall b :: 0 <= b < reg ==> IsUnique(Box(puzzle, b))
      {
        var box := "";
        for i := 0 to 3
          invariant box == Box(puzzle, reg)[..3 * i]
        {
          for j := 0 to 3
            invariant box == Box(puzzle, reg)[..3 * i + j]
          {
            box := box + [puzzle[(reg / 3) * 27 + i * 9 + (reg % 3) * 3 + j]];
          }
        }
        assert box == Box(puzzle, reg);
        if !IsUnique(box) {
          return false;
        }
      }
    }

    method Solve(puzzle: string) returns (result: SolveResult)
      requires Invariant()
      modifies this
      decreases Blanks(puzzle), if puzzle == actualPuzzle then 0 else 1
      ensures Outcome(result, actualPuzzle) == Solution(puzzle, old(actualPuzzle))
      ensures Invariant()
    {
      if Validate(puzzle) != Valid {
        return NotSolved;
      }
      if puzzle == actualPuzzle {
        return NotSolved;
      }
      if Blank in puzzle {
        actualPuzzle := puzzle;
        var newPuzzle := PropagationPass(puzzle);
        PassProgress(puzzle);
        result := Solve(newPuzzle);
      } else {
        var ok := CheckSolved(puzzle);
        result := if ok then Solved(puzzle) else NotSolved;
      }
    }
  }
}
