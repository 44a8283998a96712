// The grid part of ProblemInstance.cs: obstacle and free-cell counts, the
// row-major numbering of free cells (their cardinality), the permutation
// counts and the tile validity test.

module Problems {
  import opened Wrappers
  import opened FixedWidth
  import opened BoolMatrix
  import Enumeration

  /** Every row as long as row 0, and at least one row (row 0 is read). */
  ghost predicate Rectangular(grid: seq<seq<bool>>)
  {
    |grid| >= 1 && forall i :: 0 <= i < |grid| ==> |grid[i]| == |grid[0]|
  }

  /** The free cells of row[0..k). */
  function FreeUpTo(row: seq<bool>, k: nat): (r: nat)
    requires k <= |row|
    ensures r <= k
  {
    k - CountUpTo(row, k)
  }

  /** The free cells of rows 0..i-1. */
  function FreeRows(grid: seq<seq<bool>>, i: nat): nat
    requires i <= |grid|
  {
    if i == 0 then 0 else FreeRows(grid, i - 1) + FreeUpTo(grid[i - 1], |grid[i - 1]|)
  }

  /** The free cells before (i, j) in row-major order. */
  function FreeBefore(grid: seq<seq<bool>>, i: nat, j: nat): nat
    requires i < |grid| && j <= |grid[i]|
  {
    FreeRows(grid, i) + FreeUpTo(grid[i], j)
  }

  /** The cardinality table precomputeCardinality produces. */
  ghost predicate IsCardinality(grid: seq<seq<bool>>, c: array2<int>)
    reads c
  {
    Rectangular(grid) && c.Length0 == |grid| && c.Length1 == |grid[0]|
    && forall i, j :: 0 <= i < |grid| && 0 <= j < |grid[0]| ==>
         c[i, j] == (if grid[i][j] then -1 else FreeBefore(grid, i, j))
  }

  lemma {:induction false} FreeUpToMono(row: seq<bool>, j: nat, k: nat)
    requires j <= k <= |row|
    ensures FreeUpTo(row, j) <= FreeUpTo(row, k)
    decreases k - j
  {
    if j < k {
      FreeUpToMono(row, j, k - 1);
    }
  }

  lemma {:induction false} FreeRowsMono(grid: seq<seq<bool>>, i: nat, k: nat)
    requires i <= k <= |grid|
    ensures FreeRows(grid, i) <= FreeRows(grid, k)
    decreases k - i
  {
    if i < k {
      FreeRowsMono(grid, i, k - 1);
    }
  }

  /** A free cell's number is below the numbers of every later free cell. */
  lemma FreeBeforeOrdered(grid: seq<seq<bool>>, i: nat, j: nat, i2: nat, j2: nat)
    requires Rectangular(grid) && i < |grid| && j < |grid[0]| && i2 < |grid| && j2 < |grid[0]|
    requires !grid[i][j] && (i < i2 || (i == i2 && j < j2))
    ensures FreeBefore(grid, i, j) < FreeBefore(grid, i2, j2)
  {
    if i == i2 {
      FreeUpToMono(grid[i], j + 1, j2);
    } else {
      FreeUpToMono(grid[i], j + 1, |grid[i]|);
      FreeRowsMono(grid, i + 1, i2);
    }
  }

  /** A free cell's number lies in 0..(free cells)-1. */
  lemma FreeBeforeRange(grid: seq<seq<bool>>, i: nat, j: nat)
    requires Rectangular(grid) && i < |grid| && j < |grid[0]| && !grid[i][j]
    ensures FreeBefore(grid, i, j) < FreeRows(grid, |grid|)
  {
    FreeUpToMono(grid[i], j + 1, |grid[i]|);
    FreeRowsMono(grid, i + 1, |grid|);
  }

  /** Free cells plus obstacles fill the rectangle. */
  lemma {:induction false} FreePlusObstacles(grid: seq<seq<bool>>, k: nat)
    requires Rectangular(grid) && k <= |grid|
    ensures FreeRows(grid, k) + TotalUpTo(grid, k) == k * |grid[0]|
  {
    if k > 0 {
      FreePlusObstacles(grid, k - 1);
      assert k * |grid[0]| == (k - 1) * |grid[0]| + |grid[0]|;
    }
  }

  class ProblemInstance {
    var grid: seq<seq<bool>>
    var numAgents: nat
    var numObstacles: int
    var numLocations: int
    var permutations: array<int>
    var cardinality: array2<int>

    ghost predicate Valid()
      reads this
    {
      Rectangular(grid)
    }

    /** init: the counts are computed when given as -1, and the permutation
        and cardinality tables when not given. */
    method Init(numAgents: nat, grid: seq<seq<bool>>, nObstacles: int, nLocations: int,
                permutations: Option<array<int>>, cardinality: Option<array2<int>>)
      requires Rectangular(grid)
      requires permutations.None? ==> numAgents >= 1
      modifies this
      ensures Valid() && this.grid == grid && this.numAgents == numAgents
      ensures numObstacles == ToUInt(if nObstacles == -1 then Total(grid) else nObstacles)
      ensures numLocations == ToUInt(if nLocations == -1 then ToUInt(|grid| * |grid[0]|) - numObstacles else nLocations)
      ensures permutations.Some? ==> this.permutations == permutations.value
      ensures permutations.None? ==> fresh(this.permutations) && this.permutations.Length == numAgents
      ensures permutations.None? ==> this.permutations[numAgents - 1] == 1
      ensures permutations.None? ==> forall i :: 0 <= i < numAgents - 1 ==>
        this.permutations[i] == Enumeration.NextPermutation(this.permutations[i + 1], numLocations, i)
      ensures permutations.None? && numAgents <= numLocations
              && Enumeration.Arrangements(numLocations, 0, numAgents) < ULONG_RANGE ==>
        Enumeration.ExactPermutations(this.permutations[..], numLocations)
      ensures cardinality.Some? ==> this.cardinality == cardinality.value
      ensures cardinality.None? ==> fresh(this.cardinality) && IsCardinality(grid, this.cardinality)
    {
      var obstacles := if nObstacles == -1 then Total(grid) else nObstacles;
      var obs := ToUInt(obstacles);
      var locs := if nLocations == -1 then ToUInt(ToUInt(|grid| * |grid[0]|) - obs) else ToUInt(nLocations);
      var perms: array<int>;
      if permutations.None? {
        perms := Enumeration.Permutations(numAgents, locs);
      } else {
        perms := permutations.value;
      }
      var card: array2<int>;
      if cardinality.None? {
        card := NumberFreeCells(grid);
      } else {
        card := cardinality.value;
      }
      this.numAgents, this.grid, numObstacles, numLocations := numAgents, grid, obs, locs;
      this.permutations, this.cardinality := perms, card;
    }

    /** isValidTile: inside the grid and not an obstacle. */
    function IsValidTile(x: int, y: int): (r: bool)
      reads this
      requires Valid()
      ensures r ==> 0 <= x < |grid| && 0 <= y < |grid[0]|
      ensures 0 <= x < |grid| && 0 <= y < |grid[0]| ==> (r <==> !grid[x][y])
    {
      0 <= x < |grid| && 0 <= y < |grid[0]| && !grid[x][y]
    }
  }

  /** What precomputeCardinality stores for cell (i, j). */
  function Expected(grid: seq<seq<bool>>, i: nat, j: nat): int
    requires i < |grid| && j < |grid[i]|
  {
    if grid[i][j] then -1 else FreeBefore(grid, i, j)
  }

  /** Row a of c holds its free cells' numbers. */
  ghost predicate RowDone(grid: seq<seq<bool>>, c: array2<int>, a: nat)
    reads c
    requires Rectangular(grid) && a < |grid| && c.Length0 == |grid| && c.Length1 == |grid[0]|
  {
    forall b :: 0 <= b < c.Length1 ==> c[a, b] == Expected(grid, a, b)
  }

  /** precomputeCardinality: free cells numbered 0, 1, ... in row-major
      order, obstacles -1. */
  method NumberFreeCells(grid: seq<seq<bool>>) returns (c: array2<int>)
    requires Rectangular(grid)
    ensures fresh(c) && IsCardinality(grid, c)
  {
    var rows, cols := |grid|, |grid[0]|;
    c := new int[rows, cols];
    var maxCardinality := 0;
    var i := 0;
    while i < rows
      invariant 0 <= i <= rows && maxCardinality == FreeRows(grid, i)
      invariant forall a :: 0 <= a < i ==> RowDone(grid, c, a)
    {
      label Row:
      maxCardinality := NumberRow(grid, c, i, maxCardinality);
      forall a | 0 <= a < i ensures RowDone(grid, c, a) {
        assert old@Row(RowDone(grid, c, a));
      }
      i := i + 1;
    }
    forall a, b | 0 <= a < rows && 0 <= b < cols ensures c[a, b] == Expected(grid, a, b) {
      assert RowDone(grid, c, a);
    }
  }

  /** The inner loop of precomputeCardinality: row i, numbered on from the
      free cells of the rows above. */
  method NumberRow(grid: seq<seq<bool>>, c: array2<int>, i: nat, start: int) returns (next: int)
    requires Rectangular(grid) && i < |grid| && c.Length0 == |grid| && c.Length1 == |grid[0]|
    requires start == FreeRows(grid, i)
    modifies c
    ensures RowDone(grid, c, i) && next == FreeRows(grid, i + 1)
    ensures forall a, b :: 0 <= a < c.Length0 && 0 <= b < c.Length1 && a != i ==> c[a, b] == old(c[a, b])
  {
    next := start;
    var j := 0;
    while j < c.Length1
      invariant 0 <= j <= c.Length1 && next == FreeBefore(grid, i, j)
      invariant forall b :: 0 <= b < j ==> c[i, b] == Expected(grid, i, b)
      invariant forall a, b :: 0 <= a < c.Length0 && 0 <= b < c.Length1 && a != i ==> c[a, b] == old(c[a, b])
    {
      if grid[i][j] {
        c[i, j] := -1;
      } else {
        c[i, j] := next;
        next := next + 1;
      }
      j := j + 1;
    }
  }

  /** A tile is valid exactly when it is on the grid and has a cardinality. */
  lemma ValidTileHasCardinality(p: ProblemInstance, x: int, y: int)
    requires p.Valid() && IsCardinality(p.grid, p.cardinality)
    ensures p.IsValidTile(x, y) <==>
      0 <= x < |p.grid| && 0 <= y < |p.grid[0]| && p.cardinality[x, y] >= 0
  {
  }

  /** Free cells get distinct numbers in 0..(free cells)-1, the number of
      free cells is the rectangle minus the obstacles, and so it is the
      numLocations that init computes when the cell count fits in a uint. */
  lemma CardinalityIsPerfect(grid: seq<seq<bool>>, c: array2<int>)
    requires IsCardinality(grid, c)
    ensures forall i, j :: 0 <= i < |grid| && 0 <= j < |grid[0]| && !grid[i][j] ==>
      0 <= c[i, j] < FreeRows(grid, |grid|)
    ensures forall i, j, i2, j2 ::
      (0 <= i < |grid| && 0 <= j < |grid[0]| && 0 <= i2 < |grid| && 0 <= j2 < |grid[0]|
       && !grid[i][j] && !grid[i2][j2] && (i, j) != (i2, j2)) ==> c[i, j] != c[i2, j2]
    ensures FreeRows(grid, |grid|) == |grid| * |grid[0]| - Total(grid)
    ensures |grid| * |grid[0]| < UINT_RANGE ==>
      FreeRows(grid, |grid|) == ToUInt(ToUInt(|grid| * |grid[0]|) - ToUInt(Total(grid)))
  {
    forall i, j | 0 <= i < |grid| && 0 <= j < |grid[0]| && !grid[i][j]
      ensures 0 <= c[i, j] < FreeRows(grid, |grid|)
    {
      FreeBeforeRange(grid, i, j);
    }
    forall i, j, i2, j2 | 0 <= i < |grid| && 0 <= j < |grid[0]| && 0 <= i2 < |grid| && 0 <= j2 < |grid[0]|
      && !grid[i][j] && !grid[i2][j2] && (i, j) != (i2, j2)
      ensures c[i, j] != c[i2, j2]
    {
      if i < i2 || (i == i2 && j < j2) {
        FreeBeforeOrdered(grid, i, j, i2, j2);
      } else {
        FreeBeforeOrdered(grid, i2, j2, i, j);
      }
    }
    FreePlusObstacles(grid, |grid|);
  }
}
