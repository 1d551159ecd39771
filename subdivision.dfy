// The index pattern of `subdivide_triangle` (src/main.rs:151-196): a
// triangular lattice of `cols + 1` rows over a base triangle, with
// `cols = 2^detail`, and the order in which the small triangles of that
// lattice are emitted.

module Subdivision {
  import opened Geometry

  /** `2usize.pow(detail)`. */
  function Pow2(d: nat): (r: nat)
    ensures r >= 1
  {
    if d == 0 then 1 else 2 * Pow2(d - 1)
  }

  function Pow4(d: nat): nat {
    if d == 0 then 1 else 4 * Pow4(d - 1)
  }

  lemma {:induction false} Pow2Squared(d: nat)
    ensures Pow2(d) * Pow2(d) == Pow4(d)
  {
    if d > 0 {
      Pow2Squared(d - 1);
      calc {
        Pow2(d) * Pow2(d);
        (2 * Pow2(d - 1)) * (2 * Pow2(d - 1));
        4 * (Pow2(d - 1) * Pow2(d - 1));
      }
    }
  }

  /** A point of the lattice: `new_vertices[row][col]`. */
  datatype GridIndex = GridIndex(row: nat, col: nat)

  /** Row `row` of the lattice holds `cols - row + 1` points. */
  predicate InGrid(cols: nat, g: GridIndex) {
    g.row <= cols && g.col <= cols - g.row
  }

  /** Number of triangles emitted for lattice row `i`. */
  function RowCells(cols: nat, i: nat): nat
    requires i < cols
  {
    2 * (cols - i) - 1
  }

  /** The three lattice points of the `j`-th triangle of row `i`, in the
      order the program writes them into the triangle. */
  datatype Corners = Corners(a: GridIndex, b: GridIndex, c: GridIndex)

  /** Triangle `j` of row `i`: an even `j` is an "upward" triangle with two
      corners in row `i`, an odd `j` a "downward" one with two corners in row
      `i + 1`. All three corners lie inside the lattice (so every access to
      `new_vertices` is in bounds) and are pairwise different. */
  function CornersOf(cols: nat, i: nat, j: nat): (r: Corners)
    requires i < cols && j < RowCells(cols, i)
    ensures InGrid(cols, r.a) && InGrid(cols, r.b) && InGrid(cols, r.c)
    ensures r.a != r.b && r.b != r.c && r.a != r.c
    ensures r.a.row == i && r.b.row == i + 1
    ensures r.c.row == (if j % 2 == 0 then i else i + 1)
  {
    var k := j / 2;
    if j % 2 == 0 then
      Corners(GridIndex(i, k + 1), GridIndex(i + 1, k), GridIndex(i, k))
    else
      Corners(GridIndex(i, k + 1), GridIndex(i + 1, k + 1), GridIndex(i + 1, k))
  }

  /** The triangles of row `i`, in emission order. */
  function RowPattern(cols: nat, i: nat): seq<Corners>
    requires i < cols
  {
    seq(RowCells(cols, i), j requires 0 <= j < RowCells(cols, i) => CornersOf(cols, i, j))
  }

  /** The triangles of rows `0 .. i`, in emission order. */
  function PatternUpTo(cols: nat, i: nat): seq<Corners>
    requires i <= cols
  {
    if i == 0 then [] else PatternUpTo(cols, i - 1) + RowPattern(cols, i - 1)
  }

  /** Every triangle `subdivide_triangle` emits, in order. */
  function CellPattern(cols: nat): seq<Corners> {
    PatternUpTo(cols, cols)
  }

  /** Where row `i` starts in the emission order. */
  function RowOffset(cols: nat, i: nat): nat
    requires i <= cols
  {
    i * (2 * cols - i)
  }

  /** Rows `0 .. i` hold `sum (2(cols - r) - 1) = i (2 cols - i)` triangles. */
  lemma {:induction false} PatternUpToLength(cols: nat, i: nat)
    requires i <= cols
    ensures |PatternUpTo(cols, i)| == RowOffset(cols, i)
  {
    if i > 0 {
      PatternUpToLength(cols, i - 1);
      calc {
        |PatternUpTo(cols, i)|;
        RowOffset(cols, i - 1) + RowCells(cols, i - 1);
        (i - 1) * (2 * cols - (i - 1)) + 2 * (cols - (i - 1)) - 1;
        { assert (i - 1) * (2 * cols - (i - 1)) == i * (2 * cols - i) - 2 * cols + 2 * i - 1; }
        i * (2 * cols - i);
      }
    }
  }

  /** The emission order is row by row: triangle `j` of row `i` sits at
      `RowOffset(cols, i) + j`. */
  lemma {:induction false} PatternUpToAt(cols: nat, n: nat, i: nat, j: nat)
    requires i < n <= cols && j < RowCells(cols, i)
    ensures RowOffset(cols, i) + j < |PatternUpTo(cols, n)|
    ensures PatternUpTo(cols, n)[RowOffset(cols, i) + j] == CornersOf(cols, i, j)
  {
    PatternUpToLength(cols, n - 1);
    PatternUpToLength(cols, n);
    if i < n - 1 {
      PatternUpToAt(cols, n - 1, i, j);
    } else {
      assert PatternUpTo(cols, n) == PatternUpTo(cols, n - 1) + RowPattern(cols, i);
    }
  }

  /** Emitting triangle `j` of row `i` extends the emitted prefix by the
      corners of that triangle. */
  lemma RowPrefixStep(cols: nat, i: nat, j: nat)
    requires i < cols && j < RowCells(cols, i)
    ensures PatternUpTo(cols, i) + RowPattern(cols, i)[..j + 1]
            == (PatternUpTo(cols, i) + RowPattern(cols, i)[..j]) + [CornersOf(cols, i, j)]
  {
    assert RowPattern(cols, i)[..j + 1] == RowPattern(cols, i)[..j] + [CornersOf(cols, i, j)];
  }

  /** Once row `i` is complete the emitted prefix is the pattern of rows
      `0 .. i + 1`. */
  lemma RowPrefixFull(cols: nat, i: nat)
    requires i < cols
    ensures PatternUpTo(cols, i) + RowPattern(cols, i)[..RowCells(cols, i)] == PatternUpTo(cols, i + 1)
  {
    assert RowPattern(cols, i)[..RowCells(cols, i)] == RowPattern(cols, i);
  }

  /** The lattice of one base triangle is tiled by `cols^2` triangles, which
      is `4^detail`. */
  lemma CellPatternLength(detail: nat)
    ensures |CellPattern(Pow2(detail))| == Pow4(detail)
  {
    PatternUpToLength(Pow2(detail), Pow2(detail));
    Pow2Squared(detail);
  }

  /** Triangle `j` of row `i` is entry `RowOffset(cols, i) + j` of the full
      pattern. */
  lemma CellPatternAt(cols: nat, i: nat, j: nat)
    requires i < cols && j < RowCells(cols, i)
    ensures RowOffset(cols, i) + j < |CellPattern(cols)|
    ensures CellPattern(cols)[RowOffset(cols, i) + j] == CornersOf(cols, i, j)
  {
    PatternUpToAt(cols, cols, i, j);
  }

  /** The inputs of `subdivide_triangle` that fix its lattice: the base
      corners, the radius, the number of columns and the projection onto the
      unit sphere (`normalize`, which needs a square root and is not modelled
      here). */
  datatype Lattice = Lattice(a: Vec3, b: Vec3, c: Vec3, radius: real, cols: nat, normalize: Vec3 -> Vec3)

  lemma DivSelf(x: real)
    requires x != 0.0
    ensures x / x == 1.0
  {
  }

  /** The lattice point `new_vertices[g.row][g.col]`: row `i` runs between
      `lerp(a, c, i/cols)` and `lerp(b, c, i/cols)`, each point is projected
      with `normalize` and scaled to `radius`, and the single point of the
      last row is handled on its own because that row has no width. So the
      first point of each row lies on the edge from `a` to `c`, the last on
      the edge from `b` to `c`, and the last row is `c`. */
  function GridPoint(lat: Lattice, g: GridIndex): (r: Vec3)
    requires lat.cols > 0 && InGrid(lat.cols, g)
    ensures g.col == 0 ==> r == Mul(lat.normalize(Lerp(lat.a, lat.c, g.row as real / lat.cols as real)), lat.radius)
    ensures g.row < lat.cols && g.col == lat.cols - g.row ==>
              r == Mul(lat.normalize(Lerp(lat.b, lat.c, g.row as real / lat.cols as real)), lat.radius)
    ensures g.row == lat.cols ==> r == Mul(lat.normalize(lat.c), lat.radius)
  {
    var aj := Lerp(lat.a, lat.c, g.row as real / lat.cols as real);
    var bj := Lerp(lat.b, lat.c, g.row as real / lat.cols as real);
    var rows := lat.cols - g.row;
    assert g.row == lat.cols ==> g.row as real / lat.cols as real == 1.0 by {
      DivSelf(lat.cols as real);
    }
    assert rows > 0 ==> rows as real / rows as real == 1.0 by {
      if rows > 0 {
        DivSelf(rows as real);
      }
    }
    if g.col == 0 && g.row == lat.cols then
      Mul(lat.normalize(aj), lat.radius)
    else
      Mul(lat.normalize(Lerp(aj, bj, g.col as real / rows as real)), lat.radius)
  }

  /** `new_vertices` as `subdivide_triangle` fills it: row `i` holds the
      `cols - i + 1` points `GridPoint(lat, (i, j))`. */
  function LatticeGrid(lat: Lattice): (grid: seq<seq<Vec3>>)
    requires lat.cols > 0
    ensures GridShape(grid, lat.cols)
  {
    seq(lat.cols + 1, i requires 0 <= i <= lat.cols =>
      seq(lat.cols - i + 1, j requires 0 <= j <= lat.cols - i => GridPoint(lat, GridIndex(i, j))))
  }

  /** The points of the lattice `grid`. */
  ghost function GridSet(grid: seq<seq<Vec3>>): set<Vec3> {
    set r, k | 0 <= r < |grid| && 0 <= k < |grid[r]| :: grid[r][k]
  }

  lemma GridSetHas(grid: seq<seq<Vec3>>, r: nat, k: nat)
    ensures r < |grid| && k < |grid[r]| ==> grid[r][k] in GridSet(grid)
  {
  }

  /** `grid` has the triangular shape of a lattice with `cols` columns. */
  predicate GridShape(grid: seq<seq<Vec3>>, cols: nat) {
    |grid| == cols + 1 && forall i :: 0 <= i <= cols ==> |grid[i]| == cols - i + 1
  }

  /** The three corners of the lattice are the three base corners, projected
      and scaled. */
  lemma GridCorners(lat: Lattice)
    requires lat.cols > 0
    ensures GridPoint(lat, GridIndex(0, 0)) == Mul(lat.normalize(lat.a), lat.radius)
    ensures GridPoint(lat, GridIndex(0, lat.cols)) == Mul(lat.normalize(lat.b), lat.radius)
    ensures GridPoint(lat, GridIndex(lat.cols, 0)) == Mul(lat.normalize(lat.c), lat.radius)
  {
    var n := lat.cols as real;
    assert 0 as real / n == 0.0;
    assert n / n == 1.0;
    assert Lerp(lat.a, lat.c, 0.0) == lat.a && Lerp(lat.b, lat.c, 0.0) == lat.b && Lerp(lat.a, lat.b, 1.0) == lat.b;
    assert Lerp(lat.a, lat.c, 1.0) == lat.c;
  }

  /** All three corners of a pattern entry are lattice points. */
  predicate CornersInGrid(cols: nat, cs: Corners) {
    InGrid(cols, cs.a) && InGrid(cols, cs.b) && InGrid(cols, cs.c)
  }

  lemma {:induction false} PatternUpToInGrid(cols: nat, i: nat)
    requires i <= cols
    ensures forall n :: 0 <= n < |PatternUpTo(cols, i)| ==> CornersInGrid(cols, PatternUpTo(cols, i)[n])
  {
    if i > 0 {
      PatternUpToInGrid(cols, i - 1);
    }
  }
}
