/** The simulation engine of app.py as the program runs it: nested loops over
    a mutable grid. A grid here is an `array2<int>` indexed [x, y], with
    Length0 the width and Length1 the height; each method is proved against
    the pure definitions of LifeSpec through the grid's contents, Cells(a).
 */
module LifeEngine {
  import opened LifeSpec

  /** The contents of an array grid as a LifeSpec grid. */
  ghost function Cells(a: array2<int>): (g: Grid)
    reads a
    ensures Rectangular(g) && Width(g) == a.Length0
    ensures forall x | 0 <= x < a.Length0 :: |g[x]| == a.Length1
    ensures forall x, y | 0 <= x < a.Length0 && 0 <= y < a.Length1 :: g[x][y] == a[x, y]
  {
    seq(a.Length0, x requires 0 <= x < a.Length0 reads a =>
      seq(a.Length1, y requires 0 <= y < a.Length1 reads a => a[x, y]))
  }

  /** create_matrix_list_filled_with_zeros, as the allocation initialize_grid
      seeds afterwards: a fresh grid of zeros. (UpdateGrid makes the same
      allocation inline.) */
  method NewZeroGrid(width: int, height: int) returns (a: array2<int>)
    ensures fresh(a)
    ensures a.Length0 == (if width > 0 then width else 0)
    ensures a.Length1 == (if height > 0 then height else 0)
    ensures Cells(a) == ZeroMatrix(width, height)
  {
    var w := if width > 0 then width else 0;
    var h := if height > 0 then height else 0;
    a := new int[w, h]((_, _) => 0);
    var z := ZeroMatrix(width, height);
    assert forall x | 0 <= x < w :: Cells(a)[x] == z[x];
  }

  // ----- count_neighbors -----

  /** What the inner loop of count_neighbors adds for position (i, j): one
      when (i, j) is on the grid, is not (x, y) and holds a 1. */
  function Counted(g: Grid, x: int, y: int, i: int, j: int): nat
    requires Rectangular(g)
  {
    if InBounds(g, i, j) && (i != x || j != y) && g[i][j] == 1 then 1 else 0
  }

  /** The inner loop's total over j in [y - 1, j). */
  function RowCounted(g: Grid, x: int, y: int, i: int, j: int): nat
    requires Rectangular(g) && y - 1 <= j
    decreases j - y
  {
    if j == y - 1 then 0 else RowCounted(g, x, y, i, j - 1) + Counted(g, x, y, i, j - 1)
  }

  /** The outer loop's total over the full rows i in [x - 1, i). */
  function WindowCounted(g: Grid, x: int, y: int, i: int): nat
    requires Rectangular(g) && x - 1 <= i
    decreases i - x
  {
    if i == x - 1 then 0 else WindowCounted(g, x, y, i - 1) + RowCounted(g, x, y, i - 1, y + 2)
  }

  /** The nine positions the loops visit, with the centre skipped, add up to
      the eight-neighbour count. */
  lemma WindowIsNeighbourCount(g: Grid, x: int, y: int)
    requires Rectangular(g)
    ensures WindowCounted(g, x, y, x + 2) == LiveNeighbours(g, x, y)
  {
    forall i
      ensures RowCounted(g, x, y, i, y + 2) ==
        Counted(g, x, y, i, y - 1) + Counted(g, x, y, i, y) + Counted(g, x, y, i, y + 1)
    {
      assert RowCounted(g, x, y, i, y) == Counted(g, x, y, i, y - 1);
      assert RowCounted(g, x, y, i, y + 1) == RowCounted(g, x, y, i, y) + Counted(g, x, y, i, y);
    }
    forall i, j | i != x || j != y
      ensures Counted(g, x, y, i, j) == LiveAt(g, i, j)
    {
    }
    assert WindowCounted(g, x, y, x - 1) == 0;
    assert WindowCounted(g, x, y, x) == RowCounted(g, x, y, x - 1, y + 2);
    assert WindowCounted(g, x, y, x + 1) == WindowCounted(g, x, y, x) + RowCounted(g, x, y, x, y + 2);
    assert Counted(g, x, y, x, y) == 0;
    LiveNeighboursExpanded(g, x, y);
  }

  /** count_neighbors(grid, x, y): the two loops over the 3 x 3 window, each
      position counted when it is on the grid, is not (x, y) and holds a 1.
      Any x and y are accepted, on or off the grid. */
  method CountNeighbors(a: array2<int>, x: int, y: int) returns (count: nat)
    ensures count == LiveNeighbours(Cells(a), x, y)
    ensures count <= 8
  {
    ghost var g := Cells(a);
    count := 0;
    for i := x - 1 to x + 2
      invariant count == WindowCounted(g, x, y, i)
    {
      for j := y - 1 to y + 2
        invariant count == WindowCounted(g, x, y, i) + RowCounted(g, x, y, i, j)
      {
        if i >= 0 && i < a.Length0 && j >= 0 && j < a.Length1 {
          if (i != x || j != y) && a[i, j] == 1 {
            count := count + 1;
          }
        }
      }
    }
    WindowIsNeighbourCount(g, x, y);
  }

  // ----- update_grid -----

  /** update_grid(grid): a fresh grid of the same size, each cell set from
      the count and the state in the old grid, which is left unchanged. */
  method UpdateGrid(a: array2<int>) returns (b: array2<int>)
    requires a.Length0 > 0
    ensures fresh(b)
    ensures b.Length0 == a.Length0 && b.Length1 == a.Length1
    ensures Cells(b) == NextGeneration(Cells(a))
  {
    ghost var g := Cells(a);
    var w, h := a.Length0, a.Length1;
    b := new int[w, h]((_, _) => 0);  // create_matrix_list_filled_with_zeros(w, h)
    for x := 0 to w
      invariant b.Length0 == w && b.Length1 == h
      invariant forall i, j | 0 <= i < x && 0 <= j < h ::
        b[i, j] == ApplyRules(g[i][j], LiveNeighbours(g, i, j))
    {
      for y := 0 to h
        invariant forall i, j | 0 <= i < x && 0 <= j < h ::
          b[i, j] == ApplyRules(g[i][j], LiveNeighbours(g, i, j))
        invariant forall j | 0 <= j < y ::
          b[x, j] == ApplyRules(g[x][j], LiveNeighbours(g, x, j))
      {
        var liveNeighbours := CountNeighbors(a, x, y);
        assert liveNeighbours == LiveNeighbours(g, x, y) && a[x, y] == g[x][y];
        b[x, y] := ApplyRules(a[x, y], liveNeighbours);
        // Extend the row invariant to y: cells before y come from the
        // invariant, cell y is the one just written. The empty branch only
        // makes the verifier consider the two cases apart.
        forall j | 0 <= j <= y
          ensures b[x, j] == ApplyRules(g[x][j], LiveNeighbours(g, x, j))
        {
          if j < y {
          }
        }
      }
      // Extend the outer invariant to column x, again split into the columns
      // before x and column x itself.
      forall i, j | 0 <= i <= x && 0 <= j < h
        ensures b[i, j] == ApplyRules(g[i][j], LiveNeighbours(g, i, j))
      {
        if i < x {
        }
      }
    }
    NextGenerationIsCellwise(g, Cells(b));
  }

  // ----- initiate_live_cells / initialize_grid -----

  /** initiate_live_cells(grid, probability), in place, with the random
      draws given as hit(l, c): a hit sets the cell to 1, a miss leaves it. */
  method InitiateLiveCells(grid: array2<int>, hit: (int, int) -> bool)
    modifies grid
    ensures Cells(grid) == Seeded(old(Cells(grid)), hit)
  {
    ghost var g := Cells(grid);
    for l := 0 to grid.Length0
      invariant forall i, j | 0 <= i < grid.Length0 && 0 <= j < grid.Length1 ::
        grid[i, j] == if i < l && hit(i, j) then 1 else g[i][j]
    {
      for c := 0 to grid.Length1
        invariant forall i, j | 0 <= i < grid.Length0 && 0 <= j < grid.Length1 ::
          grid[i, j] == if (i < l || (i == l && j < c)) && hit(i, j) then 1 else g[i][j]
      {
        if hit(l, c) {
          grid[l, c] := 1;
        }
      }
    }
    var s := Seeded(g, hit);
    assert forall i | 0 <= i < grid.Length0 :: Cells(grid)[i] == s[i];
  }

  /** initialize_grid(width, height, probability): a zero grid, then seeded. */
  method InitializeGrid(width: int, height: int, hit: (int, int) -> bool) returns (grid: array2<int>)
    ensures fresh(grid)
    ensures Cells(grid) == Seeded(ZeroMatrix(width, height), hit)
  {
    grid := NewZeroGrid(width, height);
    InitiateLiveCells(grid, hit);
  }
}
