/**
 * `Ijones.Solve` of ijones/ijones.cs: counts the walks through a corridor of
 * symbols by filling a table right to left, one column at a time, keeping
 * per-symbol running totals of the table entries already filled.
 * `BigInteger` is Dafny's unbounded `int`.
 */
module Ijones {
  import opened IjonesRecurrence

  /** A dictionary read after its key has been inserted with 0: a missing symbol counts as 0. */
  function Get(m: map<char, int>, symbol: char): (r: int)
    ensures r == (if symbol in m then m else m[symbol := 0])[symbol]
    ensures symbol !in m ==> r == 0
  {
    if symbol in m then m[symbol] else 0
  }

  /** `Solve`: the number of walks; a one-column corridor is answered without reading it. */
  method Solve(corridor: seq<string>, width: int, height: int) returns (r: int)
    requires width >= 1
    requires width > 1 ==> Corridor(corridor, width, height).WellShaped()
    ensures r >= 0
    ensures width == 1 ==> r == (if height == 1 then 1 else 2)
    ensures width > 1 ==> r == StartSum(Corridor(corridor, width, height), height)
    ensures Corridor(corridor, width, height).WellShaped() ==>
              r == WalkCount(Corridor(corridor, width, height), height)
  {
    ghost var c := Corridor(corridor, width, height);
    if width == 1 {
      r := if height == 1 then 1 else 2;
      if c.WellShaped() {
        SingleColumnWalks(c, height);
      }
      return;
    }

    var solutions, previous, processing := SeedExitColumn(c, corridor, width, height);

    var i := width - 2;
    while i >= 0
      invariant -1 <= i <= width - 2
      invariant solutions.Length0 == height && solutions.Length1 == width
      invariant forall j, k :: 0 <= j < height && i < k < width ==> solutions[j, k] == Cell(c, j, k)
      invariant processing == previous
      invariant forall symbol :: Get(previous, symbol) == SymbolSum(c, symbol, i + 1)
      decreases i
    {
      previous, processing := FillColumn(c, corridor, solutions, i, previous, processing);

      // Publish the finished column's totals for the next column to read.
      previous := previous + processing;
      i := i - 1;
    }

    var result := SumFirstColumn(c, solutions);
    StartSumCountsWalks(c, height);
    r := result;
  }

  /**
   * One pass of the column loop: fills column `i` of the table top to bottom
   * and returns the per-symbol totals with that column added. Every entry
   * reads the totals of the columns to its right only, so the entries of
   * one column do not influence each other.
   */
  method FillColumn(ghost c: Corridor, corridor: seq<string>, solutions: array2<int>, i: int,
                    previous0: map<char, int>, processing0: map<char, int>)
      returns (previous: map<char, int>, processing: map<char, int>)
    requires c == Corridor(corridor, c.width, c.height) && c.WellShaped()
    requires solutions.Length0 == c.height && solutions.Length1 == c.width
    requires 0 <= i < c.width - 1
    requires forall j, k :: 0 <= j < c.height && i < k < c.width ==> solutions[j, k] == Cell(c, j, k)
    requires processing0 == previous0
    requires forall symbol :: Get(previous0, symbol) == SymbolSum(c, symbol, i + 1)
    modifies solutions
    ensures forall j, k :: 0 <= j < c.height && i <= k < c.width ==> solutions[j, k] == Cell(c, j, k)
    ensures forall symbol :: Get(processing, symbol) == SymbolSum(c, symbol, i)
    ensures forall symbol :: Get(previous, symbol) == SymbolSum(c, symbol, i + 1)
    ensures previous.Keys <= processing.Keys
    ensures forall j, k :: 0 <= j < c.height && 0 <= k < i ==> solutions[j, k] == old(solutions[j, k])
  {
    previous := previous0;
    processing := processing0;
    var j := 0;
    while j < solutions.Length0
      invariant 0 <= j <= c.height
      invariant forall j', k :: 0 <= j' < c.height && 0 <= k < c.width && k != i ==>
                  solutions[j', k] == old(solutions[j', k])
      invariant forall j' :: 0 <= j' < j ==> solutions[j', i] == Cell(c, j', i)
      invariant forall symbol :: Get(previous, symbol) == SymbolSum(c, symbol, i + 1)
      invariant previous.Keys <= processing.Keys
      invariant forall symbol ::
                  Get(processing, symbol) == SymbolSum(c, symbol, i + 1) + ColumnSum(c, symbol, i, j)
    {
      var current := corridor[j][i];
      var entry;
      assert solutions[j, i + 1] == old(solutions[j, i + 1]);
      previous, entry := ComputeEntry(c, corridor, solutions, i, j, previous);
      solutions[j, i] := entry;
      processing := AddToTotal(c, processing, current, entry, i, j);
      j := j + 1;
    }
    forall symbol
      ensures Get(processing, symbol) == SymbolSum(c, symbol, i)
    {
    }
  }

  /** Adds the entry of row `j`, column `i` to its symbol's running total, entering the symbol with 0 first if it is new. */
  method AddToTotal(ghost c: Corridor, processing0: map<char, int>, current: char, entry: int, ghost i: int, ghost j: int)
      returns (processing: map<char, int>)
    requires c.WellShaped() && 0 <= i < c.width - 1 && 0 <= j < c.height
    requires current == c.rows[j][i] && entry == Cell(c, j, i)
    requires forall symbol :: Get(processing0, symbol) == SymbolSum(c, symbol, i + 1) + ColumnSum(c, symbol, i, j)
    ensures processing.Keys == processing0.Keys + {current}
    ensures forall symbol :: Get(processing, symbol) == SymbolSum(c, symbol, i + 1) + ColumnSum(c, symbol, i, j + 1)
  {
    processing := processing0;
    if current !in processing {
      processing := processing[current := 0];
    }
    processing := processing[current := processing[current] + entry];
  }

  /**
   * The entry of row `j`, column `i`, computed from the column to its right
   * and the finished totals; a symbol seen for the first time is entered
   * into the totals with 0.
   */
  method ComputeEntry(ghost c: Corridor, corridor: seq<string>, solutions: array2<int>, i: int, j: int,
                      previous0: map<char, int>)
      returns (previous: map<char, int>, entry: int)
    requires c == Corridor(corridor, c.width, c.height) && c.WellShaped()
    requires solutions.Length0 == c.height && solutions.Length1 == c.width
    requires 0 <= i < c.width - 1 && 0 <= j < c.height
    requires solutions[j, i + 1] == Cell(c, j, i + 1)
    requires forall symbol :: Get(previous0, symbol) == SymbolSum(c, symbol, i + 1)
    ensures entry == Cell(c, j, i)
    ensures corridor[j][i] in previous
    ensures previous.Keys == previous0.Keys + {corridor[j][i]}
    ensures forall symbol :: Get(previous, symbol) == SymbolSum(c, symbol, i + 1)
  {
    var current := corridor[j][i];
    var next := corridor[j][i + 1];

    previous := previous0;
    if current !in previous {
      previous := previous[current := 0];
    }
    assert forall symbol :: Get(previous, symbol) == Get(previous0, symbol);

    // The entry is built up as in the table: 0, plus the entry to the
    // right when that shows a different symbol (a different symbol can
    // only be stepped onto, not jumped to), plus the running total of
    // this symbol over the columns already finished.
    entry := 0;
    if current != next && solutions[j, i + 1] != 0 {
      entry := entry + solutions[j, i + 1];
    }
    assert Get(previous, current) == SymbolSum(c, current, i + 1);
    entry := entry + previous[current];
  }

  /** The table and totals before the column loop: the two exit cells of the last column hold 1. */
  method SeedExitColumn(ghost c: Corridor, corridor: seq<string>, width: int, height: int)
      returns (solutions: array2<int>, previous: map<char, int>, processing: map<char, int>)
    requires c == Corridor(corridor, width, height) && c.WellShaped() && width > 1
    ensures fresh(solutions)
    ensures solutions.Length0 == height && solutions.Length1 == width
    ensures forall j, k :: 0 <= j < height && width - 1 <= k < width ==> solutions[j, k] == Cell(c, j, k)
    ensures processing == previous
    ensures forall symbol :: Get(previous, symbol) == SymbolSum(c, symbol, width - 1)
  {
    solutions := new int[height, width]((_, _) => 0);
    processing := map[];
    previous := map[];

    var exitTop := corridor[0][width - 1];
    var exitBottom := corridor[height - 1][width - 1];
    solutions[0, width - 1] := 1;
    solutions[height - 1, width - 1] := 1;

    previous := previous[exitTop := 0];
    previous := previous[exitBottom := 0];
    if height == 1 {
      previous := previous[exitTop := previous[exitTop] + 1];
    } else {
      previous := previous[exitTop := previous[exitTop] + 1];
      previous := previous[exitBottom := previous[exitBottom] + 1];
    }
    processing := processing[exitTop := previous[exitTop]];
    processing := processing[exitBottom := previous[exitBottom]];

    forall symbol: char
      ensures Get(previous, symbol) == SymbolSum(c, symbol, width - 1)
    {
      ExitColumnSum(c, symbol, height);
    }
  }

  /** The answer: the sum of the first column of a filled table. */
  method SumFirstColumn(ghost c: Corridor, solutions: array2<int>) returns (result: int)
    requires c.WellShaped() && solutions.Length0 == c.height && solutions.Length1 == c.width
    requires forall j :: 0 <= j < c.height ==> solutions[j, 0] == Cell(c, j, 0)
    ensures result == StartSum(c, c.height)
  {
    result := 0;
    var row := 0;
    while row < solutions.Length0
      invariant 0 <= row <= c.height
      invariant result == StartSum(c, row)
    {
      result := result + solutions[row, 0];
      row := row + 1;
    }
  }
}
