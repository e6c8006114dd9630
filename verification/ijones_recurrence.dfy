/**
 * The counting problem ijones/ijones.cs solves, stated without the table.
 *
 * A corridor is a `height` x `width` grid of symbols. A walk starts anywhere
 * in the leftmost column and ends on the top or bottom cell of the rightmost
 * column. From a cell, a step goes either to the next cell of the same row or
 * to any cell further right that shows the same symbol.
 *
 * `Cell` is the recurrence the program fills its table with, right to left;
 * `Paths` counts walks directly from the step rule. `CellCountsPaths` proves
 * the two equal.
 */
module IjonesRecurrence {

  datatype Corridor = Corridor(rows: seq<string>, width: int, height: int) {
    /** The shape `Solve` indexes: every one of the `height` rows holds at least `width` symbols. */
    predicate WellShaped() {
      && width >= 1
      && height >= 1
      && |rows| >= height
      && forall j :: 0 <= j < height ==> |rows[j]| >= width
    }

    predicate IsExit(j: int, i: int) {
      i == width - 1 && (j == 0 || j == height - 1)
    }
  }

  // ---------------------------------------------------------------------
  // The recurrence of the table

  /**
   * The table entry for row `j`, column `i`: in the last column 1 for an exit
   * and 0 otherwise; further left, the entry to the right unless it shows the
   * same symbol, plus every entry further right with this cell's symbol.
   */
  function Cell(c: Corridor, j: int, i: int): (r: int)
    requires c.WellShaped() && 0 <= j < c.height && 0 <= i < c.width
    ensures r >= 0
    decreases c.width - i, 0
  {
    if i == c.width - 1 then
      (if c.IsExit(j, i) then 1 else 0)
    else
      (if c.rows[j][i] != c.rows[j][i + 1] then Cell(c, j, i + 1) else 0)
      + SymbolSum(c, c.rows[j][i], i + 1)
  }

  /** The sum of `Cell` over the cells of columns `k` and beyond that show `symbol`. */
  function SymbolSum(c: Corridor, symbol: char, k: int): (r: int)
    requires c.WellShaped() && 0 <= k <= c.width
    ensures r >= 0
    decreases c.width - k, 2
  {
    if k == c.width then 0 else ColumnSum(c, symbol, k, c.height) + SymbolSum(c, symbol, k + 1)
  }

  /** The sum of `Cell` over the first `count` cells of column `k` that show `symbol`. */
  function ColumnSum(c: Corridor, symbol: char, k: int, count: int): (r: int)
    requires c.WellShaped() && 0 <= k < c.width && 0 <= count <= c.height
    ensures r >= 0
    decreases c.width - k, 1, count
  {
    if count == 0 then 0
    else ColumnSum(c, symbol, k, count - 1)
         + (if c.rows[count - 1][k] == symbol then Cell(c, count - 1, k) else 0)
  }

  /** The sum of `Cell` over the first `count` cells of the leftmost column. */
  function StartSum(c: Corridor, count: int): (r: int)
    requires c.WellShaped() && 0 <= count <= c.height
    ensures r >= 0
  {
    if count == 0 then 0 else StartSum(c, count - 1) + Cell(c, count - 1, 0)
  }

  /** The exit column contributes one per exit cell showing `symbol`; a one-row corridor has one exit. */
  lemma {:induction false} ExitColumnSum(c: Corridor, symbol: char, count: int)
    requires c.WellShaped() && 0 <= count <= c.height
    ensures ColumnSum(c, symbol, c.width - 1, count) ==
              (if count >= 1 && c.rows[0][c.width - 1] == symbol then 1 else 0)
              + (if count == c.height && c.height > 1 && c.rows[c.height - 1][c.width - 1] == symbol then 1 else 0)
  {
    if count > 0 {
      ExitColumnSum(c, symbol, count - 1);
    }
  }

  // ---------------------------------------------------------------------
  // Walks counted from the step rule

  /** A step from (j, i) may land on (j', k): the next cell of the row, or a cell further right with the same symbol. */
  predicate CanStep(c: Corridor, j: int, i: int, j': int, k: int)
    requires c.WellShaped() && 0 <= j < c.height && 0 <= i < c.width
    requires 0 <= j' < c.height && i < k < c.width
  {
    (j' == j && k == i + 1) || c.rows[j'][k] == c.rows[j][i]
  }

  /** The number of walks from (j, i) to an exit. */
  function Paths(c: Corridor, j: int, i: int): (r: int)
    requires c.WellShaped() && 0 <= j < c.height && 0 <= i < c.width
    ensures r >= 0
    decreases c.width - i, 0
  {
    if i == c.width - 1 then (if c.IsExit(j, i) then 1 else 0)
    else StepsFrom(c, j, i, i + 1)
  }

  /** The walks from (j, i) whose first step lands in column `k` or beyond. */
  function StepsFrom(c: Corridor, j: int, i: int, k: int): (r: int)
    requires c.WellShaped() && 0 <= j < c.height && 0 <= i < c.width
    requires i < k <= c.width
    ensures r >= 0
    decreases c.width - k, 2
  {
    if k == c.width then 0 else StepsInColumn(c, j, i, k, c.height) + StepsFrom(c, j, i, k + 1)
  }

  /** The walks from (j, i) whose first step lands on one of the first `count` cells of column `k`. */
  function StepsInColumn(c: Corridor, j: int, i: int, k: int, count: int): (r: int)
    requires c.WellShaped() && 0 <= j < c.height && 0 <= i < c.width
    requires i < k < c.width && 0 <= count <= c.height
    ensures r >= 0
    decreases c.width - k, 1, count
  {
    if count == 0 then 0
    else StepsInColumn(c, j, i, k, count - 1)
         + (if CanStep(c, j, i, count - 1, k) then Paths(c, count - 1, k) else 0)
  }

  /** All walks through the corridor: the sum of `Paths` over the first `count` cells of the leftmost column. */
  function WalkCount(c: Corridor, count: int): (r: int)
    requires c.WellShaped() && 0 <= count <= c.height
    ensures r >= 0
  {
    if count == 0 then 0 else WalkCount(c, count - 1) + Paths(c, count - 1, 0)
  }

  // ---------------------------------------------------------------------
  // The recurrence counts walks

  /** `Cell` and `Paths` agree on every column from `k` rightward. */
  ghost predicate AgreeFrom(c: Corridor, k: int)
    requires c.WellShaped() && 0 <= k <= c.width
  {
    forall j, k' :: 0 <= j < c.height && k <= k' < c.width ==> Cell(c, j, k') == Paths(c, j, k')
  }

  /**
   * Steps into column `k` split into the jumps to cells with the same symbol
   * and the plain step to the next cell, counted apart only when that cell
   * shows a different symbol.
   */
  lemma {:induction false} StepsInColumnSplit(c: Corridor, j: int, i: int, k: int, count: int)
    requires c.WellShaped() && 0 <= j < c.height && 0 <= i < c.width
    requires i < k < c.width && 0 <= count <= c.height
    requires AgreeFrom(c, k)
    ensures StepsInColumn(c, j, i, k, count) ==
              ColumnSum(c, c.rows[j][i], k, count)
              + (if k == i + 1 && j < count && c.rows[j][k] != c.rows[j][i] then Cell(c, j, k) else 0)
    decreases count
  {
    if count > 0 {
      StepsInColumnSplit(c, j, i, k, count - 1);
    }
  }

  lemma {:induction false} StepsFromSplit(c: Corridor, j: int, i: int, k: int)
    requires c.WellShaped() && 0 <= j < c.height && 0 <= i < c.width
    requires i < k <= c.width
    requires AgreeFrom(c, k)
    ensures StepsFrom(c, j, i, k) ==
              SymbolSum(c, c.rows[j][i], k)
              + (if k == i + 1 && k < c.width && c.rows[j][k] != c.rows[j][i] then Cell(c, j, k) else 0)
    decreases c.width - k
  {
    if k < c.width {
      StepsFromSplit(c, j, i, k + 1);
      StepsInColumnSplit(c, j, i, k, c.height);
    }
  }

  lemma {:induction false} CellCountsPathsFrom(c: Corridor, k: int)
    requires c.WellShaped() && 0 <= k < c.width
    ensures AgreeFrom(c, k)
    decreases c.width - k
  {
    if k < c.width - 1 {
      CellCountsPathsFrom(c, k + 1);
      forall j | 0 <= j < c.height
        ensures Cell(c, j, k) == Paths(c, j, k)
      {
        StepsFromSplit(c, j, k, k + 1);
      }
    }
  }

  /** Every table entry is the number of walks from its cell to an exit. */
  lemma CellCountsPaths(c: Corridor, j: int, i: int)
    requires c.WellShaped() && 0 <= j < c.height && 0 <= i < c.width
    ensures Cell(c, j, i) == Paths(c, j, i)
  {
    CellCountsPathsFrom(c, i);
  }

  /** Summing the leftmost column of the table counts every walk through the corridor. */
  lemma {:induction false} StartSumCountsWalks(c: Corridor, count: int)
    requires c.WellShaped() && 0 <= count <= c.height
    ensures StartSum(c, count) == WalkCount(c, count)
  {
    if count > 0 {
      StartSumCountsWalks(c, count - 1);
      CellCountsPaths(c, count - 1, 0);
    }
  }

  /** In a one-column corridor every walk starts on an exit: one if a single row, else two. */
  lemma {:induction false} SingleColumnWalks(c: Corridor, count: int)
    requires c.WellShaped() && c.width == 1 && 0 <= count <= c.height
    ensures WalkCount(c, count) ==
              (if count >= 1 then 1 else 0) + (if count == c.height && c.height > 1 then 1 else 0)
  {
    if count > 0 {
      SingleColumnWalks(c, count - 1);
    }
  }

  // ---------------------------------------------------------------------
  // An entry depends only on its own symbol and the columns to its right

  /** Two corridors of one shape that show the same symbols in every column from `k` rightward. */
  ghost predicate SameFrom(c: Corridor, d: Corridor, k: int)
    requires c.WellShaped() && d.WellShaped() && 0 <= k
  {
    && c.width == d.width && c.height == d.height
    && forall j, k' :: 0 <= j < c.height && k <= k' < c.width ==> c.rows[j][k'] == d.rows[j][k']
  }

  lemma {:induction false} ColumnSumSame(c: Corridor, d: Corridor, symbol: char, k: int, count: int)
    requires c.WellShaped() && d.WellShaped() && 0 <= k < c.width && 0 <= count <= c.height
    requires SameFrom(c, d, k)
    requires forall j :: 0 <= j < c.height ==> Cell(c, j, k) == Cell(d, j, k)
    ensures ColumnSum(c, symbol, k, count) == ColumnSum(d, symbol, k, count)
    decreases count
  {
    if count > 0 {
      ColumnSumSame(c, d, symbol, k, count - 1);
    }
  }

  lemma {:induction false} SameFromSameCells(c: Corridor, d: Corridor, k: int)
    requires c.WellShaped() && d.WellShaped() && 0 <= k <= c.width
    requires SameFrom(c, d, k)
    ensures forall j, k' :: 0 <= j < c.height && k <= k' < c.width ==> Cell(c, j, k') == Cell(d, j, k')
    ensures forall symbol :: SymbolSum(c, symbol, k) == SymbolSum(d, symbol, k)
    decreases c.width - k
  {
    if k < c.width {
      SameFromSameCells(c, d, k + 1);
      forall j | 0 <= j < c.height
        ensures Cell(c, j, k) == Cell(d, j, k)
      {
      }
      forall symbol
        ensures SymbolSum(c, symbol, k) == SymbolSum(d, symbol, k)
      {
        ColumnSumSame(c, d, symbol, k, c.height);
      }
    }
  }

  /**
   * The entries of one column do not influence each other: an entry stays
   * the same whatever the other cells of its column, or the columns to its
   * left, show.
   */
  lemma ColumnEntriesIndependent(c: Corridor, d: Corridor, j: int, i: int)
    requires c.WellShaped() && d.WellShaped() && 0 <= j < c.height && 0 <= i < c.width
    requires SameFrom(c, d, i + 1) && c.rows[j][i] == d.rows[j][i]
    ensures Cell(c, j, i) == Cell(d, j, i)
  {
    SameFromSameCells(c, d, i + 1);
  }
}
