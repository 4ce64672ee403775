/** The puzzle encoding: 81 characters, row-major (`index = row * 9 + column`),
    with `.` marking a blank cell; and the three kinds of house of a cell. */
module Grid {

  const Blank: char := '.'

  /** Row `r`: the cells `r * 9 + k` for `k` in 0..8. */
  function Row(p: string, r: int): seq<char>
    requires |p| == 81 && 0 <= r < 9
  {
    seq(9, k requires 0 <= k < 9 => p[r * 9 + k])
  }

  /** Row `r` is the nine-character slice starting at `r * 9`. */
  lemma RowIsSlice(p: string, r: int)
    requires |p| == 81 && 0 <= r < 9
    ensures Row(p, r) == p[r * 9 .. r * 9 + 9]
  {
  }

  /** Column `c`: the cells `k * 9 + c` for `k` in 0..8. */
  function Column(p: string, c: int): seq<char>
    requires |p| == 81 && 0 <= c < 9
  {
    seq(9, k requires 0 <= k < 9 => p[k * 9 + c])
  }

  /** The 3x3 region holding cell `(r, c)`, read row by row: the cells
      `(3 * (r / 3) + i) * 9 + 3 * (c / 3) + j` for `i, j` in 0..2. */
  function Region(p: string, r: int, c: int): seq<char>
    requires |p| == 81 && 0 <= r < 9 && 0 <= c < 9
  {
    seq(9, k requires 0 <= k < 9 => p[(3 * (r / 3) + k / 3) * 9 + 3 * (c / 3) + k % 3])
  }

  /** Region number `b` (0..8, row-major over the 3x3 regions), indexed as the
      solved-grid check indexes it: `(b / 3) * 27 + i * 9 + (b % 3) * 3 + j`. */
  function Box(p: string, b: int): seq<char>
    requires |p| == 81 && 0 <= b < 9
  {
    seq(9, k requires 0 <= k < 9 => p[(b / 3) * 27 + (k / 3) * 9 + (b % 3) * 3 + k % 3])
  }

  /** The missing `isUnique` helper: the characters are pairwise distinct. */
  predicate IsUnique(s: seq<char>)
  {
    forall a, b :: 0 <= a < b < |s| ==> s[a] != s[b]
  }

  /** Every row and every column holds distinct characters. */
  predicate RowsAndColumnsDistinct(p: string)
    requires |p| == 81
  {
    (forall r :: 0 <= r < 9 ==> IsUnique(Row(p, r))) &&
    (forall c :: 0 <= c < 9 ==> IsUnique(Column(p, c)))
  }

  /** Every 3x3 region holds distinct characters. */
  predicate RegionsDistinct(p: string)
    requires |p| == 81
  {
    forall b :: 0 <= b < 9 ==> IsUnique(Box(p, b))
  }

  /** The row verdict: `v` may go at `(r, c)` when that cell already holds
      `v`, or when `v` occurs nowhere in the row. */
  predicate RowAdmits(p: string, r: int, c: int, v: char)
    requires |p| == 81 && 0 <= r < 9 && 0 <= c < 9
  {
    p[r * 9 + c] == v || v !in Row(p, r)
  }

  /** The column verdict, as `RowAdmits` over column `c`. */
  predicate ColumnAdmits(p: string, r: int, c: int, v: char)
    requires |p| == 81 && 0 <= r < 9 && 0 <= c < 9
  {
    p[r * 9 + c] == v || v !in Column(p, c)
  }

  /** The intended region verdict, as `RowAdmits` over the region of `(r, c)`. */
  predicate RegionAdmits(p: string, r: int, c: int, v: char)
    requires |p| == 81 && 0 <= r < 9 && 0 <= c < 9
  {
    p[r * 9 + c] == v || v !in Region(p, r, c)
  }

  /** In a house without repeated characters, the verdict "the cell holds `v`
      or the house lacks `v`" is exactly "no other cell of the house holds `v`". */
  lemma {:induction false} VerdictInDistinctHouse(h: seq<char>, pos: int, v: char)
    requires IsUnique(h) && 0 <= pos < |h|
    ensures (h[pos] == v || v !in h) <==> forall k :: 0 <= k < |h| && k != pos ==> h[k] != v
  {
    if !(h[pos] == v || v !in h) {
      var k :| 0 <= k < |h| && h[k] == v;
      assert k != pos;
    }
  }

  /** The number of blank cells. */
  function Blanks(s: string): nat
  {
    if s == [] then 0 else (if s[0] == Blank then 1 else 0) + Blanks(s[1..])
  }

  /** Position `(r % 3) * 3 + c % 3` of the region string is the cell `(r, c)` itself. */
  lemma RegionPositionOfCell(p: string, r: int, c: int)
    requires |p| == 81 && 0 <= r < 9 && 0 <= c < 9
    ensures Region(p, r, c)[(r % 3) * 3 + c % 3] == p[r * 9 + c]
  {
    var k := (r % 3) * 3 + c % 3;
    assert k / 3 == r % 3 && k % 3 == c % 3;
  }

  /** The region of a cell, as the placement check builds it, is the box that
      the solved-grid check numbers `(r / 3) * 3 + c / 3`, cell for cell. */
  lemma RegionIsBox(p: string, r: int, c: int)
    requires |p| == 81 && 0 <= r < 9 && 0 <= c < 9
    ensures 0 <= (r / 3) * 3 + c / 3 < 9
    ensures Region(p, r, c) == Box(p, (r / 3) * 3 + c / 3)
  {
    var b := (r / 3) * 3 + c / 3;
    assert b / 3 == r / 3 && b % 3 == c / 3;
    forall k | 0 <= k < 9
      ensures Region(p, r, c)[k] == Box(p, b)[k]
    {
      assert (3 * (r / 3) + k / 3) * 9 + 3 * (c / 3) + k % 3
          == (b / 3) * 27 + (k / 3) * 9 + (b % 3) * 3 + k % 3;
    }
  }

  /** A step that only turns blanks into something else, keeping every filled
      cell, never adds a blank; and if it keeps the same number of blanks, it
      changed nothing. */
  lemma {:induction false} FillingShrinks(s: string, t: string)
    requires |s| == |t|
    requires forall i :: 0 <= i < |s| && s[i] != Blank ==> t[i] == s[i]
    requires forall i :: 0 <= i < |t| && t[i] == Blank ==> s[i] == Blank
    ensures Blanks(t) <= Blanks(s)
    ensures Blanks(t) == Blanks(s) ==> t == s
  {
    if s != [] {
      assert forall i :: 0 <= i < |s| - 1 ==> s[1..][i] == s[i + 1] && t[1..][i] == t[i + 1];
      FillingShrinks(s[1..], t[1..]);
      if Blanks(t) == Blanks(s) {
        assert t[0] == s[0];
        assert t == [t[0]] + t[1..] && s == [s[0]] + s[1..];
      }
    }
  }
}
