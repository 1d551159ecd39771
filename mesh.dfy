// The `Polyhedron` of src/main.rs: a mesh that is built in place by welding
// positions, subdividing the base icosahedron, and truncating a finished mesh
// into a hexsphere.

module Mesh {
  import opened Geometry
  import opened Welding
  import opened Subdivision
  import opened Topology
  import opened Dual
  import opened Truncation

  /** The golden ratio as the program computes it in `f32`:
      `(1 + sqrt(5)) / 2` rounds to 13573053 / 2^23. */
  const GOLDEN: real := 1.61803400516510009765625

  /** The twelve positions `new_isocahedron` adds to the base icosahedron,
      in the order it adds them, with `t` the golden ratio. */
  const BASE_POSITIONS: seq<Vec3> := [
    Vec3(-1.0, GOLDEN, 0.0), Vec3(1.0, GOLDEN, 0.0), Vec3(-1.0, -GOLDEN, 0.0), Vec3(1.0, -GOLDEN, 0.0),
    Vec3(0.0, -1.0, GOLDEN), Vec3(0.0, 1.0, GOLDEN), Vec3(0.0, -1.0, -GOLDEN), Vec3(0.0, 1.0, -GOLDEN),
    Vec3(GOLDEN, 0.0, -1.0), Vec3(GOLDEN, 0.0, 1.0), Vec3(-GOLDEN, 0.0, -1.0), Vec3(-GOLDEN, 0.0, 1.0)
  ]

  /** The welding keys of the base coordinates. */
  lemma BaseAxisKeys()
    ensures QuantizeAxis(0.0) == 0
    ensures QuantizeAxis(1.0) == 10000 && QuantizeAxis(-1.0) == -10000
    ensures QuantizeAxis(GOLDEN) == 16180 && QuantizeAxis(-GOLDEN) == -16180
  {
  }

  /** The twelve base positions have twelve different welding keys, so none
      of them is welded to an earlier one. */
  lemma BaseKeysDistinct()
    ensures forall i, j :: 0 <= i < j < |BASE_POSITIONS| ==> Quantize(BASE_POSITIONS[i]) != Quantize(BASE_POSITIONS[j])
  {
    BaseAxisKeys();
  }

  /** Adding base position `n` to a store that holds the first `n` base
      positions appends it. */
  lemma AddBasePositionAppends(s: Store, n: nat)
    requires s.WellFormed() && n < |BASE_POSITIONS| && s.positions == BASE_POSITIONS[..n]
    ensures Insert(s, BASE_POSITIONS[n]).0.positions == BASE_POSITIONS[..n + 1]
  {
    BaseKeysDistinct();
  }

  /** Cell `t` is welded to the three points of `grid` (a lattice with `cols`
      columns) that `cs` names. */
  ghost predicate CellWelds(positions: seq<Vec3>, t: Triangle, grid: seq<seq<Vec3>>, cols: nat, cs: Corners) {
    && GridShape(grid, cols)
    && CornersInGrid(cols, cs)
    && Welded(positions, t.a, grid[cs.a.row][cs.a.col])
    && Welded(positions, t.b, grid[cs.b.row][cs.b.col])
    && Welded(positions, t.c, grid[cs.c.row][cs.c.col])
  }

  /** The cells from index `start` on follow `pattern` over `grid`: cell
      `start + n` is welded to the corners of `pattern[n]`. */
  ghost predicate Emitted(positions: seq<Vec3>, cells: seq<Triangle>, start: nat, grid: seq<seq<Vec3>>, cols: nat, pattern: seq<Corners>) {
    && start + |pattern| <= |cells|
    && forall n :: 0 <= n < |pattern| ==> CellWelds(positions, cells[start + n], grid, cols, pattern[n])
  }

  /** Growing the position and cell lists keeps every emitted cell. */
  lemma EmittedExtends(positions: seq<Vec3>, cells: seq<Triangle>, positions': seq<Vec3>, cells': seq<Triangle>,
                       start: nat, grid: seq<seq<Vec3>>, cols: nat, pattern: seq<Corners>)
    requires Emitted(positions, cells, start, grid, cols, pattern)
    requires Extends(positions, positions') && Extends(cells, cells')
    ensures Emitted(positions', cells', start, grid, cols, pattern)
  {
    forall n | 0 <= n < |pattern| ensures CellWelds(positions', cells'[start + n], grid, cols, pattern[n]) {
      assert CellWelds(positions, cells[start + n], grid, cols, pattern[n]);
    }
  }

  lemma EmittedAppend(positions: seq<Vec3>, cells: seq<Triangle>, start: nat, grid: seq<seq<Vec3>>, cols: nat,
                      pattern: seq<Corners>, cs: Corners)
    requires Emitted(positions, cells, start, grid, cols, pattern)
    requires start + |pattern| < |cells| && CellWelds(positions, cells[start + |pattern|], grid, cols, cs)
    ensures Emitted(positions, cells, start, grid, cols, pattern + [cs])
  {
  }

  /** Over the lattice of `subdivide_triangle`, an emitted cell is welded to
      the projected lattice points its pattern entry names. */
  lemma EmittedLatticePoints(positions: seq<Vec3>, cells: seq<Triangle>, start: nat, lat: Lattice, pattern: seq<Corners>, n: nat)
    requires lat.cols > 0 && Emitted(positions, cells, start, LatticeGrid(lat), lat.cols, pattern) && n < |pattern|
    ensures InGrid(lat.cols, pattern[n].a) && InGrid(lat.cols, pattern[n].b) && InGrid(lat.cols, pattern[n].c)
    ensures Welded(positions, cells[start + n].a, GridPoint(lat, pattern[n].a))
    ensures Welded(positions, cells[start + n].b, GridPoint(lat, pattern[n].b))
    ensures Welded(positions, cells[start + n].c, GridPoint(lat, pattern[n].c))
  {
    assert CellWelds(positions, cells[start + n], LatticeGrid(lat), lat.cols, pattern[n]);
  }

  /** The lattice that `subdivide` spans over base cell `t` of `other`. */
  function LatticeOver(positions: seq<Vec3>, t: Triangle, radius: real, detail: nat, normalize: Vec3 -> Vec3): Lattice
    requires t.a < |positions| && t.b < |positions| && t.c < |positions|
  {
    Lattice(positions[t.a], positions[t.b], positions[t.c], radius, Pow2(detail), normalize)
  }

  /** The first half of `subdivide_triangle`: the lattice points, row by row,
      as `new_vertices`. */
  method LatticePoints(a: Vec3, b: Vec3, c: Vec3, radius: real, cols: nat, normalize: Vec3 -> Vec3)
    returns (newVertices: seq<seq<Vec3>>)
    requires cols > 0
    ensures newVertices == LatticeGrid(Lattice(a, b, c, radius, cols, normalize))
  {
    ghost var lat := Lattice(a, b, c, radius, cols, normalize);
    newVertices := [];
    for i := 0 to cols + 1
      invariant |newVertices| == i
      invariant forall r :: 0 <= r < i ==> newVertices[r] == LatticeGrid(lat)[r]
    {
      newVertices := newVertices + [[]];
      var aj := Lerp(a, c, i as real / cols as real);
      var bj := Lerp(b, c, i as real / cols as real);
      var rows := cols - i;

      for j := 0 to rows + 1
        invariant |newVertices| == i + 1 && |newVertices[i]| == j
        invariant forall r :: 0 <= r < i ==> newVertices[r] == LatticeGrid(lat)[r]
        invariant forall j' :: 0 <= j' < j ==> newVertices[i][j'] == GridPoint(lat, GridIndex(i, j'))
      {
        if j == 0 && i == cols {
          newVertices := newVertices[i := newVertices[i] + [Mul(normalize(aj), radius)]];
        } else {
          newVertices := newVertices[i := newVertices[i] + [Mul(normalize(Lerp(aj, bj, j as real / rows as real)), radius)]];
        }
      }
      assert newVertices[i] == LatticeGrid(lat)[i];
    }
  }

  /** A cell welded to the three points `subdivide_triangle` picks for the
      upward triangle `j` (even) of row `i` follows `CornersOf`. */
  lemma UpCellWelds(grid: seq<seq<Vec3>>, cols: nat, positions: seq<Vec3>, t: Triangle, i: nat, j: nat, k: nat)
    requires GridShape(grid, cols) && i < cols && j < RowCells(cols, i) && j % 2 == 0 && k == j / 2
    requires k + 1 < |grid[i]| && k < |grid[i + 1]|
    requires Welded(positions, t.a, grid[i][k + 1]) && Welded(positions, t.b, grid[i + 1][k])
    requires Welded(positions, t.c, grid[i][k])
    ensures CellWelds(positions, t, grid, cols, CornersOf(cols, i, j))
  {
  }

  /** A cell welded to the three points `subdivide_triangle` picks for the
      downward triangle `j` (odd) of row `i` follows `CornersOf`. */
  lemma DownCellWelds(grid: seq<seq<Vec3>>, cols: nat, positions: seq<Vec3>, t: Triangle, i: nat, j: nat, k: nat)
    requires GridShape(grid, cols) && i < cols && j < RowCells(cols, i) && j % 2 == 1 && k == j / 2
    requires k + 1 < |grid[i]| && k + 1 < |grid[i + 1]|
    requires Welded(positions, t.a, grid[i][k + 1]) && Welded(positions, t.b, grid[i + 1][k + 1])
    requires Welded(positions, t.c, grid[i + 1][k])
    ensures CellWelds(positions, t, grid, cols, CornersOf(cols, i, j))
  {
  }

  /** Block `t` of `4^detail` cells from index `start` on is the subdivision
      of base cell `t`: it follows `CellPattern` over the lattice spanned by
      that base cell. */
  ghost predicate BlockEmitted(positions: seq<Vec3>, cells: seq<Triangle>, start: nat,
                               basePositions: seq<Vec3>, baseCells: seq<Triangle>, t: nat,
                               radius: real, detail: nat, normalize: Vec3 -> Vec3)
    requires CellsInBounds(baseCells, |basePositions|) && t < |baseCells|
  {
    Emitted(positions, cells, start + t * Pow4(detail),
            LatticeGrid(LatticeOver(basePositions, baseCells[t], radius, detail, normalize)),
            Pow2(detail), CellPattern(Pow2(detail)))
  }

  /** The first `count` blocks from index `start` on are the subdivisions of
      the first `count` base cells, in order. */
  ghost predicate Subdivided(positions: seq<Vec3>, cells: seq<Triangle>, start: nat,
                             basePositions: seq<Vec3>, baseCells: seq<Triangle>, count: nat,
                             radius: real, detail: nat, normalize: Vec3 -> Vec3)
  {
    && count <= |baseCells|
    && CellsInBounds(baseCells, |basePositions|)
    && forall t :: 0 <= t < count ==>
         BlockEmitted(positions, cells, start, basePositions, baseCells, t, radius, detail, normalize)
  }

  /** The lattice points of the first `count` base cells. */
  ghost function SubdivisionPoints(basePositions: seq<Vec3>, baseCells: seq<Triangle>, count: nat,
                                   radius: real, detail: nat, normalize: Vec3 -> Vec3): set<Vec3>
    requires CellsInBounds(baseCells, |basePositions|) && count <= |baseCells|
  {
    if count == 0 then
      {}
    else
      SubdivisionPoints(basePositions, baseCells, count - 1, radius, detail, normalize)
        + GridSet(LatticeGrid(LatticeOver(basePositions, baseCells[count - 1], radius, detail, normalize)))
  }

  /** The positions one more base cell adds are points of its lattice. */
  lemma SubdivisionPointsStep(positions: seq<Vec3>, positions': seq<Vec3>, n0: nat,
                              basePositions: seq<Vec3>, baseCells: seq<Triangle>, t: nat,
                              radius: real, detail: nat, normalize: Vec3 -> Vec3)
    requires CellsInBounds(baseCells, |basePositions|) && t < |baseCells|
    requires AddedFrom(positions, n0, SubdivisionPoints(basePositions, baseCells, t, radius, detail, normalize))
    requires Extends(positions, positions')
    requires AddedFrom(positions', |positions|,
                       GridSet(LatticeGrid(LatticeOver(basePositions, baseCells[t], radius, detail, normalize))))
    ensures AddedFrom(positions', n0, SubdivisionPoints(basePositions, baseCells, t + 1, radius, detail, normalize))
  {
    var points := SubdivisionPoints(basePositions, baseCells, t + 1, radius, detail, normalize);
    AddedFromWiden(positions, n0, SubdivisionPoints(basePositions, baseCells, t, radius, detail, normalize), points);
    AddedFromWiden(positions', |positions|,
                   GridSet(LatticeGrid(LatticeOver(basePositions, baseCells[t], radius, detail, normalize))), points);
    AddedFromGrow(positions, positions', n0, points);
  }

  lemma SubdividedAppend(positions: seq<Vec3>, cells: seq<Triangle>, start: nat,
                          basePositions: seq<Vec3>, baseCells: seq<Triangle>, count: nat,
                          radius: real, detail: nat, normalize: Vec3 -> Vec3)
    requires Subdivided(positions, cells, start, basePositions, baseCells, count, radius, detail, normalize)
    requires count < |baseCells|
    requires BlockEmitted(positions, cells, start, basePositions, baseCells, count, radius, detail, normalize)
    ensures Subdivided(positions, cells, start, basePositions, baseCells, count + 1, radius, detail, normalize)
  {
  }

  lemma SubdividedExtends(positions: seq<Vec3>, cells: seq<Triangle>, positions': seq<Vec3>, cells': seq<Triangle>,
                           start: nat, basePositions: seq<Vec3>, baseCells: seq<Triangle>, count: nat,
                           radius: real, detail: nat, normalize: Vec3 -> Vec3)
    requires Subdivided(positions, cells, start, basePositions, baseCells, count, radius, detail, normalize)
    requires Extends(positions, positions') && Extends(cells, cells')
    ensures Subdivided(positions', cells', start, basePositions, baseCells, count, radius, detail, normalize)
  {
    forall t | 0 <= t < count
      ensures BlockEmitted(positions', cells', start, basePositions, baseCells, t, radius, detail, normalize)
    {
      BlockEmittedExtends(positions, cells, positions', cells', start, basePositions, baseCells, t, radius, detail, normalize);
    }
  }

  lemma BlockEmittedExtends(positions: seq<Vec3>, cells: seq<Triangle>, positions': seq<Vec3>, cells': seq<Triangle>,
                            start: nat, basePositions: seq<Vec3>, baseCells: seq<Triangle>, t: nat,
                            radius: real, detail: nat, normalize: Vec3 -> Vec3)
    requires CellsInBounds(baseCells, |basePositions|) && t < |baseCells|
    requires BlockEmitted(positions, cells, start, basePositions, baseCells, t, radius, detail, normalize)
    requires Extends(positions, positions') && Extends(cells, cells')
    ensures BlockEmitted(positions', cells', start, basePositions, baseCells, t, radius, detail, normalize)
  {
    var grid := LatticeGrid(LatticeOver(basePositions, baseCells[t], radius, detail, normalize));
    var pattern := CellPattern(Pow2(detail));
    var blockStart := start + t * Pow4(detail);
    assert BlockEmitted(positions, cells, start, basePositions, baseCells, t, radius, detail, normalize)
        == Emitted(positions, cells, blockStart, grid, Pow2(detail), pattern);
    assert BlockEmitted(positions', cells', start, basePositions, baseCells, t, radius, detail, normalize)
        == Emitted(positions', cells', blockStart, grid, Pow2(detail), pattern);
    EmittedExtends(positions, cells, positions', cells', blockStart, grid, Pow2(detail), pattern);
  }

  /** `find_center_of_triangles`: add up the centroids of the listed
      triangles in order and divide by their number; the result is the mean
      `Center` of those centroids. */
  method CenterOfTriangles(triangleIndices: seq<nat>, triangleCentroids: map<nat, Vec3>) returns (centerPoint: Vec3)
    requires |triangleIndices| > 0
    requires forall k :: 0 <= k < |triangleIndices| ==> triangleIndices[k] in triangleCentroids
    ensures centerPoint == Center(triangleIndices, triangleCentroids)
  {
    centerPoint := ZERO;
    for k := 0 to |triangleIndices|
      invariant centerPoint == SumCentroids(triangleIndices[..k], triangleCentroids)
    {
      assert triangleIndices[..k + 1][..k] == triangleIndices[..k];
      centerPoint := Add(centerPoint, triangleCentroids[triangleIndices[k]]);
    }
    assert triangleIndices[..|triangleIndices|] == triangleIndices;
    centerPoint := Div(centerPoint, |triangleIndices| as real);
  }

  /** The body of the loop of `vert_to_faces`: record triangle `i` under
      its corners `a`, `b`, `c` in turn. This appends its hits to every
      list and gives a list to exactly its corners. */
  method RecordCorners(m: map<nat, seq<nat>>, triangle: Triangle, i: nat) returns (r: map<nat, seq<nat>>)
    ensures forall v :: (v in r <==> v in m || HasCorner(triangle, v)) && ListOf(r, v) == ListOf(m, v) + Hits(triangle, v, i)
  {
    var m1 := RecordCorner(m, triangle.a, i);
    var m2 := RecordCorner(m1, triangle.b, i);
    r := RecordCorner(m2, triangle.c, i);
    forall v ensures ListOf(r, v) == ListOf(m, v) + Hits(triangle, v, i) {
      var x, y, z := (if v == triangle.a then [i] else []), (if v == triangle.b then [i] else []), (if v == triangle.c then [i] else []);
      assert ListOf(r, v) == ListOf(m, v) + x + y + z;
      AppendThree(ListOf(m, v), x, y, z);
    }
  }

  class Polyhedron {
    var positions: seq<Vec3>
    var cells: seq<Triangle>
    var normals: seq<Vec3>
    var addedVertCache: map<VertexKey, nat>
    var faces: seq<seq<nat>>

    /** The welding store made of this polyhedron's fields. */
    ghost function WeldStore(): Store
      reads this`positions, this`normals, this`addedVertCache
    {
      Store(positions, normals, addedVertCache)
    }

    /** The object invariant: the welding store is well formed. */
    ghost predicate Valid()
      reads this`positions, this`normals, this`addedVertCache
    {
      WeldStore().WellFormed()
    }

    /** `Polyhedron::new()`: everything empty. */
    constructor ()
      ensures Valid()
      ensures positions == [] && cells == [] && normals == [] && addedVertCache == map[] && faces == []
    {
      positions, cells, normals, addedVertCache, faces := [], [], [], map[], [];
    }

    /** A polyhedron whose cells are given before any position is added, as
        the base icosahedron is built. */
    constructor WithCells(cells0: seq<Triangle>)
      ensures Valid()
      ensures positions == [] && cells == cells0 && normals == [] && addedVertCache == map[] && faces == []
    {
      positions, cells, normals, addedVertCache, faces := [], cells0, [], map[], [];
    }

    /** `add_position`: weld `vertex` into the store and return its index. */
    method AddPosition(vertex: Vec3) returns (index: nat)
      requires Valid()
      modifies this
      ensures (WeldStore(), index) == Insert(old(WeldStore()), vertex)
      ensures Valid() && Welded(positions, index, vertex) && Extends(old(positions), positions)
      ensures forall j :: |old(positions)| <= j < |positions| ==> positions[j] == vertex
      ensures cells == old(cells) && faces == old(faces)
    {
      var vertexKey := Quantize(vertex);
      if vertexKey in addedVertCache {
        index := addedVertCache[vertexKey];
      } else {
        positions := positions + [vertex];
        normals := normals + [ZERO];
        index := |positions| - 1;
        addedVertCache := addedVertCache[vertexKey := index];
      }
    }

    /** The body of the emission loop of `subdivide_triangle` once the three
        lattice points are chosen: weld them in order `pa`, `pb`, `pc` and push
        the triangle of their indices. */
    method PushWelded(pa: Vec3, pb: Vec3, pc: Vec3) returns (triangle: Triangle)
      requires Valid() && CellsInBounds(cells, |positions|)
      modifies this
      ensures Valid() && CellsInBounds(cells, |positions|)
      ensures faces == old(faces)
      ensures Extends(old(positions), positions) && cells == old(cells) + [triangle]
      ensures var sa := Insert(old(WeldStore()), pa);
              var sb := Insert(sa.0, pb);
              var sc := Insert(sb.0, pc);
              WeldStore() == sc.0 && triangle == Triangle(sa.1, sb.1, sc.1)
      ensures Welded(positions, triangle.a, pa) && Welded(positions, triangle.b, pb) && Welded(positions, triangle.c, pc)
    {
      triangle := Triangle(0, 0, 0);
      var ia, ib := AddPositionPair(pa, pb);
      ghost var positions2 := positions;
      var ic := AddPosition(pc);
      WeldedExtends(positions2, positions, ia, pa);
      WeldedExtends(positions2, positions, ib, pb);
      triangle := triangle.(a := ia, b := ib, c := ic);
      CellsInBoundsGrow(cells, |old(positions)|, |positions|);
      PushCell(triangle);
    }

    /** The cell `j` of lattice row `i` of `subdivide_triangle`: for `j`
        even the upward triangle over `k = j / 2`, with corners
        `new_vertices[i][k + 1]`, `new_vertices[i + 1][k]` and
        `new_vertices[i][k]`; for `j` odd the downward one, with corners
        `new_vertices[i][k + 1]`, `new_vertices[i + 1][k + 1]` and
        `new_vertices[i + 1][k]`. The corners are welded in that order and the
        cell pushed; it follows `CornersOf`, and only lattice points are
        added. */
    method PushLatticeCell(newVertices: seq<seq<Vec3>>, cols: nat, i: nat, j: nat, ghost n0: nat)
      returns (triangle: Triangle)
      requires Valid() && CellsInBounds(cells, |positions|)
      requires GridShape(newVertices, cols) && i < cols && j < RowCells(cols, i)
      requires AddedFrom(positions, n0, GridSet(newVertices))
      modifies this
      ensures Valid() && CellsInBounds(cells, |positions|)
      ensures faces == old(faces)
      ensures Extends(old(positions), positions) && cells == old(cells) + [triangle]
      ensures CellWelds(positions, triangle, newVertices, cols, CornersOf(cols, i, j))
      ensures var cs := CornersOf(cols, i, j);
              WeldStore() == Insert(Insert(Insert(old(WeldStore()), newVertices[cs.a.row][cs.a.col]).0,
                                           newVertices[cs.b.row][cs.b.col]).0,
                                    newVertices[cs.c.row][cs.c.col]).0
      ensures AddedFrom(positions, n0, GridSet(newVertices))
    {
      ghost var s0 := WeldStore();
      ghost var cs := CornersOf(cols, i, j);
      var k := j / 2;
      var pa, pb, pc;
      if j % 2 == 0 {
        pa, pb, pc := newVertices[i][k + 1], newVertices[i + 1][k], newVertices[i][k];
      } else {
        pa, pb, pc := newVertices[i][k + 1], newVertices[i + 1][k + 1], newVertices[i + 1][k];
      }
      assert pa == newVertices[cs.a.row][cs.a.col] && pb == newVertices[cs.b.row][cs.b.col]
          && pc == newVertices[cs.c.row][cs.c.col];
      GridSetHas(newVertices, cs.a.row, cs.a.col);
      GridSetHas(newVertices, cs.b.row, cs.b.col);
      GridSetHas(newVertices, cs.c.row, cs.c.col);
      triangle := PushWelded(pa, pb, pc);
      InsertThreeAddedFrom(s0, pa, pb, pc, n0, GridSet(newVertices));
    }

    /** One pass of the inner emission loop of `subdivide_triangle`: weld
        the corners of triangle `j` of lattice row `i` and push the cell right
        after the `done` cells emitted from index `start` on. */
    method EmitCell(newVertices: seq<seq<Vec3>>, cols: nat, i: nat, j: nat, ghost start: nat, ghost done: seq<Corners>,
                    ghost n0: nat)
      requires Valid() && CellsInBounds(cells, |positions|)
      requires GridShape(newVertices, cols) && i < cols && j < RowCells(cols, i)
      requires |cells| == start + |done| && Emitted(positions, cells, start, newVertices, cols, done)
      requires AddedFrom(positions, n0, GridSet(newVertices))
      modifies this
      ensures Valid() && CellsInBounds(cells, |positions|)
      ensures faces == old(faces)
      ensures Extends(old(positions), positions) && Extends(old(cells), cells)
      ensures |cells| == start + |done| + 1
      ensures Emitted(positions, cells, start, newVertices, cols, done + [CornersOf(cols, i, j)])
      ensures var cs := CornersOf(cols, i, j);
              WeldStore() == Insert(Insert(Insert(old(WeldStore()), newVertices[cs.a.row][cs.a.col]).0,
                                           newVertices[cs.b.row][cs.b.col]).0,
                                    newVertices[cs.c.row][cs.c.col]).0
      ensures AddedFrom(positions, n0, GridSet(newVertices))
    {
      ghost var positions0, cells0 := positions, cells;
      var triangle := PushLatticeCell(newVertices, cols, i, j, n0);
      EmittedExtends(positions0, cells0, positions, cells, start, newVertices, cols, done);
      assert cells[start + |done|] == triangle;
      EmittedAppend(positions, cells, start, newVertices, cols, done, CornersOf(cols, i, j));
    }

    /** One pass of the outer emission loop of `subdivide_triangle`: the
        `2 (cols - i) - 1` triangles of lattice row `i`, in order, after the
        cells of rows `0 .. i` emitted from index `start` on. */
    method EmitRow(newVertices: seq<seq<Vec3>>, cols: nat, i: nat, ghost start: nat, ghost n0: nat)
      requires Valid() && CellsInBounds(cells, |positions|)
      requires GridShape(newVertices, cols) && i < cols
      requires |cells| == start + |PatternUpTo(cols, i)|
      requires Emitted(positions, cells, start, newVertices, cols, PatternUpTo(cols, i))
      requires AddedFrom(positions, n0, GridSet(newVertices))
      modifies this
      ensures Valid() && CellsInBounds(cells, |positions|)
      ensures faces == old(faces)
      ensures Extends(old(positions), positions) && Extends(old(cells), cells)
      ensures |cells| == start + |PatternUpTo(cols, i + 1)|
      ensures Emitted(positions, cells, start, newVertices, cols, PatternUpTo(cols, i + 1))
      ensures AddedFrom(positions, n0, GridSet(newVertices))
    {
      ghost var done := PatternUpTo(cols, i);
      for j := 0 to 2 * (cols - i) - 1
        invariant Valid() && CellsInBounds(cells, |positions|)
        invariant faces == old(faces)
        invariant Extends(old(positions), positions) && Extends(old(cells), cells)
        invariant done == PatternUpTo(cols, i) + RowPattern(cols, i)[..j]
        invariant |cells| == start + |done|
        invariant Emitted(positions, cells, start, newVertices, cols, done)
        invariant AddedFrom(positions, n0, GridSet(newVertices))
      {
        EmitCell(newVertices, cols, i, j, start, done, n0);
        RowPrefixStep(cols, i, j);
        done := done + [CornersOf(cols, i, j)];
      }
      RowPrefixFull(cols, i);
    }

    /** `subdivide_triangle`: compute the lattice over `a`, `b`, `c` with
        `2^detail` columns, then emit its `4^detail` triangles row by row,
        welding every corner. The new cells follow `CellPattern` over that
        lattice exactly, and cells and positions that were there before are
        kept. */
    method SubdivideTriangle(a: Vec3, b: Vec3, c: Vec3, radius: real, detail: nat, normalize: Vec3 -> Vec3)
      requires Valid() && CellsInBounds(cells, |positions|)
      modifies this
      ensures Valid() && CellsInBounds(cells, |positions|)
      ensures faces == old(faces)
      ensures Extends(old(positions), positions) && Extends(old(cells), cells)
      ensures |cells| == |old(cells)| + Pow4(detail)
      ensures Emitted(positions, cells, |old(cells)|, LatticeGrid(Lattice(a, b, c, radius, Pow2(detail), normalize)),
                      Pow2(detail), CellPattern(Pow2(detail)))
      ensures AddedFrom(positions, |old(positions)|, GridSet(LatticeGrid(Lattice(a, b, c, radius, Pow2(detail), normalize))))
    {
      var cols := Pow2(detail);
      var newVertices := LatticePoints(a, b, c, radius, cols, normalize);

      ghost var start := |cells|;
      for i := 0 to cols
        invariant Valid() && CellsInBounds(cells, |positions|)
        invariant faces == old(faces)
        invariant Extends(old(positions), positions) && Extends(old(cells), cells) && |old(cells)| == start
        invariant |cells| == start + |PatternUpTo(cols, i)|
        invariant Emitted(positions, cells, start, newVertices, cols, PatternUpTo(cols, i))
        invariant AddedFrom(positions, |old(positions)|, GridSet(newVertices))
      {
        EmitRow(newVertices, cols, i, start, |old(positions)|);
      }
      CellPatternLength(detail);
    }
  
    /** One pass of the loop of `subdivide`: subdivide base cell `t` right
        after the blocks of the base cells before it. */
    method SubdivideBaseCell(basePositions: seq<Vec3>, baseCells: seq<Triangle>, t: nat,
                             radius: real, detail: nat, normalize: Vec3 -> Vec3, ghost start: nat, ghost n0: nat)
      requires Valid() && CellsInBounds(cells, |positions|)
      requires CellsInBounds(baseCells, |basePositions|) && t < |baseCells|
      requires |cells| == start + t * Pow4(detail)
      requires Subdivided(positions, cells, start, basePositions, baseCells, t, radius, detail, normalize)
      requires AddedFrom(positions, n0, SubdivisionPoints(basePositions, baseCells, t, radius, detail, normalize))
      modifies this
      ensures Valid() && CellsInBounds(cells, |positions|)
      ensures faces == old(faces)
      ensures Extends(old(positions), positions) && Extends(old(cells), cells)
      ensures |cells| == start + (t + 1) * Pow4(detail)
      ensures Subdivided(positions, cells, start, basePositions, baseCells, t + 1, radius, detail, normalize)
      ensures AddedFrom(positions, n0, SubdivisionPoints(basePositions, baseCells, t + 1, radius, detail, normalize))
    {
      var triangle := baseCells[t];
      var a := basePositions[triangle.a];
      var b := basePositions[triangle.b];
      var c := basePositions[triangle.c];
      ghost var positions0, cells0 := positions, cells;
      SubdivideTriangle(a, b, c, radius, detail, normalize);
      SubdividedExtends(positions0, cells0, positions, cells, start, basePositions, baseCells, t, radius, detail, normalize);
      SubdividedAppend(positions, cells, start, basePositions, baseCells, t, radius, detail, normalize);
      SubdivisionPointsStep(positions0, positions, n0, basePositions, baseCells, t, radius, detail, normalize);
      assert start + (t + 1) * Pow4(detail) == start + t * Pow4(detail) + Pow4(detail);
    }

    /** `subdivide`: subdivide every cell of `other` in order, each into
        `4^detail` cells of this polyhedron. */
    method Subdivide(other: Polyhedron, radius: real, detail: nat, normalize: Vec3 -> Vec3)
      requires other != this
      requires Valid() && CellsInBounds(cells, |positions|)
      requires CellsInBounds(other.cells, |other.positions|)
      modifies this
      ensures Valid() && CellsInBounds(cells, |positions|)
      ensures faces == old(faces)
      ensures Extends(old(positions), positions) && Extends(old(cells), cells)
      ensures |cells| == |old(cells)| + |other.cells| * Pow4(detail)
      ensures Subdivided(positions, cells, |old(cells)|, other.positions, other.cells, |other.cells|, radius, detail, normalize)
      ensures AddedFrom(positions, |old(positions)|,
                        SubdivisionPoints(other.positions, other.cells, |other.cells|, radius, detail, normalize))
    {
      ghost var start := |cells|;
      for t := 0 to |other.cells|
        invariant Valid() && CellsInBounds(cells, |positions|)
        invariant faces == old(faces)
        invariant Extends(old(positions), positions) && Extends(old(cells), cells) && |old(cells)| == start
        invariant |cells| == start + t * Pow4(detail)
        invariant Subdivided(positions, cells, start, other.positions, other.cells, t, radius, detail, normalize)
        invariant AddedFrom(positions, |old(positions)|,
                            SubdivisionPoints(other.positions, other.cells, t, radius, detail, normalize))
      {
        SubdivideBaseCell(other.positions, other.cells, t, radius, detail, normalize, start, |old(positions)|);
      }
    }
  
    /** The first half of `new_isocahedron`: the base icosahedron, with the
        twenty cells of `BASE_CELLS` and the twelve `BASE_POSITIONS` added in
        order, all welded apart. The program writes the twelve `add_position`
        calls out one by one; here they run as a loop over the table. */
    static method BaseIcosahedron() returns (baseIcosahedron: Polyhedron)
      ensures fresh(baseIcosahedron)
      ensures baseIcosahedron.Valid() && baseIcosahedron.faces == []
      ensures baseIcosahedron.positions == BASE_POSITIONS && baseIcosahedron.cells == BASE_CELLS
    {
      baseIcosahedron := new Polyhedron.WithCells(BASE_CELLS);
      for n := 0 to |BASE_POSITIONS|
        invariant baseIcosahedron.Valid() && baseIcosahedron.positions == BASE_POSITIONS[..n]
        invariant baseIcosahedron.cells == BASE_CELLS && baseIcosahedron.faces == []
      {
        ghost var s := baseIcosahedron.WeldStore();
        var _ := baseIcosahedron.AddPosition(BASE_POSITIONS[n]);
        AddBasePositionAppends(s, n);
      }
      assert BASE_POSITIONS[..|BASE_POSITIONS|] == BASE_POSITIONS;
    }

    /** `new_isocahedron`: the base icosahedron subdivided into a fresh
        polyhedron; every base cell becomes `4^detail` cells. */
    static method NewIcosahedron(radius: real, detail: nat, normalize: Vec3 -> Vec3) returns (subdivided: Polyhedron)
      ensures fresh(subdivided)
      ensures subdivided.Valid() && CellsInBounds(subdivided.cells, |subdivided.positions|) && subdivided.faces == []
      ensures |subdivided.cells| == 20 * Pow4(detail)
      ensures Subdivided(subdivided.positions, subdivided.cells, 0, BASE_POSITIONS, BASE_CELLS, 20, radius, detail, normalize)
      ensures AddedFrom(subdivided.positions, 0, SubdivisionPoints(BASE_POSITIONS, BASE_CELLS, 20, radius, detail, normalize))
    {
      var baseIcosahedron := BaseIcosahedron();
      BaseCellsInBounds();

      subdivided := new Polyhedron();
      subdivided.Subdivide(baseIcosahedron, radius, detail, normalize);
    }

    /** `vert_to_faces`: for every triangle in order, record it under each of
        its corners `a`, `b`, `c`. A vertex gets a list exactly when it lies
        on some triangle, and its list is `Incident`: the triangles that have
        it as a corner, in ascending order, once per matching corner. */
    method VertToFaces() returns (vertToFaces: map<nat, seq<nat>>)
      ensures forall v :: v in vertToFaces <==> Incident(cells, v) != []
      ensures forall v :: v in vertToFaces ==> vertToFaces[v] == Incident(cells, v)
    {
      vertToFaces := map[];
      for i := 0 to |cells|
        invariant forall v :: v in vertToFaces <==> IncidentUpTo(cells, v, i) != []
        invariant forall v :: ListOf(vertToFaces, v) == IncidentUpTo(cells, v, i)
      {
        var triangle := cells[i];
        vertToFaces := RecordCorners(vertToFaces, triangle, i);
        forall v ensures v in vertToFaces <==> IncidentUpTo(cells, v, i + 1) != [] {
          HitsMembers(triangle, v, i);
        }
      }
      forall v | v in vertToFaces ensures vertToFaces[v] == Incident(cells, v) {
        assert ListOf(vertToFaces, v) == Incident(cells, v);
      }
    }

    /** `triangle_centroids`: the centroid of every cell, keyed by its
        index; the map is `Centroids` of the positions and cells. */
    method TriangleCentroids() returns (triangleCentroids: map<nat, Vec3>)
      requires CellsInBounds(cells, |positions|)
      ensures triangleCentroids == Centroids(positions, cells)
    {
      triangleCentroids := map[];
      for i := 0 to |cells|
        invariant forall f: nat :: f in triangleCentroids <==> f < i
        invariant forall f: nat :: f in triangleCentroids ==>
                    triangleCentroids[f] == Centroid(positions[cells[f].a], positions[cells[f].b], positions[cells[f].c])
      {
        var triangle := cells[i];
        var a := positions[triangle.a];
        var b := positions[triangle.b];
        var c := positions[triangle.c];
        triangleCentroids := triangleCentroids[i := Centroid(a, b, c)];
      }
    }

    /** Pushes a cell whose corners are already positions. */
    method PushCell(t: Triangle)
      requires CellsInBounds(cells, |positions|)
      requires t.a < |positions| && t.b < |positions| && t.c < |positions|
      modifies this`cells
      ensures cells == old(cells) + [t] && CellsInBounds(cells, |positions|)
    {
      CellsInBoundsAppend(cells, t, |positions|, |positions|);
      cells := cells + [t];
    }

    /** Pushes two cells whose corners are already positions. */
    method PushPair(first: Triangle, second: Triangle)
      requires CellsInBounds(cells, |positions|)
      requires first.a < |positions| && first.b < |positions| && first.c < |positions|
      requires second.a < |positions| && second.b < |positions| && second.c < |positions|
      modifies this`cells
      ensures Extends(old(cells), cells) && |cells| == |old(cells)| + 2
      ensures cells[|old(cells)|] == first && cells[|old(cells)| + 1] == second
      ensures CellsInBounds(cells, |positions|)
    {
      CellsInBoundsAppend(cells, first, |positions|, |positions|);
      cells := cells + [first];
      CellsInBoundsAppend(cells, second, |positions|, |positions|);
      cells := cells + [second];
    }

    /** Two `add_position` calls in a row, `p` first. */
    method AddPositionPair(p: Vec3, q: Vec3) returns (ip: nat, iq: nat)
      requires Valid()
      modifies this
      ensures Valid() && Extends(old(positions), positions)
      ensures var sp := Insert(old(WeldStore()), p);
              var sq := Insert(sp.0, q);
              WeldStore() == sq.0 && ip == sp.1 && iq == sq.1
      ensures Welded(positions, ip, p) && Welded(positions, iq, q)
      ensures forall j :: |old(positions)| <= j < |positions| ==> positions[j] in {p, q}
      ensures cells == old(cells) && faces == old(faces)
    {
      ip := AddPosition(p);
      ghost var positions1 := positions;
      iq := AddPosition(q);
      WeldedExtends(positions1, positions, ip, p);
    }

    /** The welds of one pass of the fan loop of `truncated`: the centre
        and the centroid, then `mid_b` and `mid_c`, each pair by
        `AddPositionPair`. */
    method AddFanPoints(centerPoint: Vec3, centroid: Vec3, midB: Vec3, midC: Vec3, ghost n0: nat, ghost points: set<Vec3>)
      returns (centerPointIndex: nat, centroidIndex: nat, midBIndex: nat, midCIndex: nat)
      requires Valid() && AddedFrom(positions, n0, points)
      requires centerPoint in points && centroid in points && midB in points && midC in points
      modifies this
      ensures Valid() && Extends(old(positions), positions) && cells == old(cells) && faces == old(faces)
      ensures Welded(positions, centerPointIndex, centerPoint) && Welded(positions, centroidIndex, centroid)
      ensures Welded(positions, midBIndex, midB) && Welded(positions, midCIndex, midC)
      ensures AddedFrom(positions, n0, points)
    {
      centerPointIndex, centroidIndex := AddPositionPair(centerPoint, centroid);
      AddedFromPair(old(positions), positions, centerPoint, centroid, n0, points);
      ghost var positions1 := positions;
      midBIndex, midCIndex := AddPositionPair(midB, midC);
      AddedFromPair(positions1, positions, midB, midC, n0, points);
      WeldedExtends(positions1, positions, centerPointIndex, centerPoint);
      WeldedExtends(positions1, positions, centroidIndex, centroid);
    }

    /** One pass of the fan loop of `truncated` once the centre, the
        centroid and the two mid-centroids are known: weld the four points in
        the order centre, centroid, `mid_b`, `mid_c`, push
        `(center, mid_c, centroid)` and `(center, centroid, mid_b)`, and append
        the index of each pushed cell to `newFace`. */
    method EmitFanPair(centerPoint: Vec3, centroid: Vec3, midB: Vec3, midC: Vec3, newFace: seq<nat>,
                       ghost n0: nat, ghost points: set<Vec3>)
      returns (newFace': seq<nat>)
      requires Valid() && CellsInBounds(cells, |positions|)
      requires AddedFrom(positions, n0, points)
      requires centerPoint in points && centroid in points && midB in points && midC in points
      modifies this
      ensures Valid() && CellsInBounds(cells, |positions|) && faces == old(faces)
      ensures Extends(old(positions), positions) && Extends(old(cells), cells)
      ensures |cells| == |old(cells)| + 2 && newFace' == newFace + [|old(cells)|, |old(cells)| + 1]
      ensures FanPair(positions, cells, |old(cells)|, centerPoint, centroid)
      ensures Welded(positions, cells[|old(cells)|].b, midC) && Welded(positions, cells[|old(cells)| + 1].c, midB)
      ensures AddedFrom(positions, n0, points)
    {
      var first := |cells|;
      newFace' := newFace + [first, first + 1];
      var centerPointIndex, centroidIndex, midBIndex, midCIndex := AddFanPoints(centerPoint, centroid, midB, midC, n0, points);
      CellsInBoundsGrow(cells, |old(positions)|, |positions|);
      PushPair(Triangle(centerPointIndex, midCIndex, centroidIndex), Triangle(centerPointIndex, centroidIndex, midBIndex));
    }

    /** The first half of one pass of the fan loop of `truncated`, for
        triangle `faceIndex` of the fan `faces` of vertex `i`: its two other
        corners (fewer is a panic) and the mid-centroids across the edges
        from `i` to them (an edge without a second triangle is a panic), in
        that order, with the cache they grow. It succeeds exactly when the
        triangle can be truncated. */
    static method FanTriangleMids(otherCells: seq<Triangle>, i: nat, faces: seq<nat>, faceIndex: nat, centroid: Vec3,
                                  triangleCentroids: map<nat, Vec3>, cache: map<MidKey, Vec3>)
      returns (result: Outcome<(Vec3, Vec3, map<MidKey, Vec3>)>)
      requires FacesIn(otherCells, faces) && forall k :: 0 <= k < |faces| ==> faces[k] in triangleCentroids
      requires faceIndex in faces && HasCorner(otherCells[faceIndex], i)
      requires centroid == triangleCentroids[faceIndex] && CacheSound(otherCells, triangleCentroids, cache)
      ensures result.Ok? <==> FanOk(otherCells, i, faces, faceIndex)
      ensures result.Err? ==> FanFailure(otherCells, i, faces, result.error)
      ensures result.Ok? ==>
                var ov := OtherVerts(otherCells[faceIndex], i);
                var rb := CalculateMidCentroid(otherCells, i, ov[0], faces, faceIndex, centroid, triangleCentroids, cache);
                && rb.Some?
                && var rc := CalculateMidCentroid(otherCells, i, ov[1], faces, faceIndex, centroid, triangleCentroids, rb.value.1);
                   && rc.Some?
                   && result.value == (rb.value.0, rc.value.0, rc.value.1)
      ensures result.Ok? ==>
                var ov := OtherVerts(otherCells[faceIndex], i);
                && CacheGrows(cache, result.value.2)
                && CacheSound(otherCells, triangleCentroids, result.value.2)
                && MidAcross(otherCells, triangleCentroids, i, ov[0], faceIndex, result.value.0)
                && MidAcross(otherCells, triangleCentroids, i, ov[1], faceIndex, result.value.1)
                && result.value.0 in MidPoints(triangleCentroids) && result.value.1 in MidPoints(triangleCentroids)
    {
      var otherVerts := OtherVerts(otherCells[faceIndex], i);
      if |otherVerts| < 2 {
        return Err(DegenerateTriangle(i, faceIndex));
      }
      var sortedTriangle := Triangle(i, otherVerts[0], otherVerts[1]);
      var midB := CalculateMidCentroid(otherCells, sortedTriangle.a, sortedTriangle.b, faces, faceIndex,
                                       centroid, triangleCentroids, cache);
      if midB.None? {
        return Err(NoAdjacentFace(i, otherVerts[0], faceIndex));
      }
      FanMidsSound(otherCells, i, faces, faceIndex, centroid, triangleCentroids, cache);
      var midC := CalculateMidCentroid(otherCells, sortedTriangle.a, sortedTriangle.c, faces, faceIndex,
                                       centroid, triangleCentroids, midB.value.1);
      if midC.None? {
        return Err(NoAdjacentFace(i, otherVerts[1], faceIndex));
      }
      result := Ok((midB.value.0, midC.value.0, midC.value.1));
    }

    /** The second half of one pass of the fan loop: the pair of the
        triangle `done` places from the end of `fan`, right after the pairs
        of the triangles after it, pushed from cell index `start` on. */
    method EmitFanStep(centerPoint: Vec3, centroid: Vec3, midB: Vec3, midC: Vec3, newFace: seq<nat>,
                       ghost start: nat, ghost otherCells: seq<Triangle>, ghost centroids: map<nat, Vec3>,
                       ghost i: nat, ghost fan: seq<nat>, ghost done: nat, ghost n0: nat, ghost points: set<Vec3>)
      returns (newFace': seq<nat>)
      requires Valid() && CellsInBounds(cells, |positions|)
      requires AddedFrom(positions, n0, points)
      requires centerPoint in points && centroid in points && midB in points && midC in points
      requires FanEmitted(positions, cells, start, centerPoint, otherCells, centroids, i, fan, done)
      requires done < |fan| && centroid == centroids[fan[|fan| - 1 - done]]
      requires var f := fan[|fan| - 1 - done];
               && f < |otherCells| && |OtherVerts(otherCells[f], i)| >= 2
               && MidAcross(otherCells, centroids, i, OtherVerts(otherCells[f], i)[0], f, midB)
               && MidAcross(otherCells, centroids, i, OtherVerts(otherCells[f], i)[1], f, midC)
      requires |cells| == start + 2 * done && newFace == FaceRange(start, 2 * done)
      modifies this
      ensures Valid() && CellsInBounds(cells, |positions|) && faces == old(faces)
      ensures Extends(old(positions), positions) && Extends(old(cells), cells)
      ensures |cells| == start + 2 * (done + 1) && newFace' == FaceRange(start, 2 * (done + 1))
      ensures FanEmitted(positions, cells, start, centerPoint, otherCells, centroids, i, fan, done + 1)
      ensures AddedFrom(positions, n0, points)
    {
      ghost var positions0, cells0 := positions, cells;
      newFace' := EmitFanPair(centerPoint, centroid, midB, midC, newFace, n0, points);
      FanEmittedStep(positions0, cells0, positions, cells, start, centerPoint, otherCells, centroids, i, fan, done, midB, midC);
      FaceRangeGrow(start, 2 * done);
    }

    /** One pass of the fan loop of `truncated`: the triangle at position
        `n` of the fan `faces` of vertex `i`, after the triangles behind it.
        It fails exactly when that triangle cannot be truncated; otherwise its
        pair is pushed from cell index `start + 2 (|faces| - n - 1)` on and
        the grown face and cache are returned. */
    method TruncateFanTriangle(otherCells: seq<Triangle>, i: nat, faces: seq<nat>, n: nat, centerPoint: Vec3,
                               triangleCentroids: map<nat, Vec3>, cache: map<MidKey, Vec3>, newFace: seq<nat>,
                               ghost start: nat, ghost n0: nat)
      returns (result: Outcome<(seq<nat>, map<MidKey, Vec3>)>)
      requires Valid() && CellsInBounds(cells, |positions|)
      requires FacesIn(otherCells, faces) && forall k :: 0 <= k < |faces| ==> faces[k] in triangleCentroids
      requires forall k :: 0 <= k < |faces| ==> HasCorner(otherCells[faces[k]], i)
      requires CacheSound(otherCells, triangleCentroids, cache)
      requires n < |faces| && |cells| == start + 2 * (|faces| - n - 1)
      requires newFace == FaceRange(start, 2 * (|faces| - n - 1))
      requires FanEmitted(positions, cells, start, centerPoint, otherCells, triangleCentroids, i, faces, |faces| - n - 1)
      requires AddedFrom(positions, n0, FanPoints(centerPoint, triangleCentroids))
      modifies this
      ensures Valid() && CellsInBounds(cells, |positions|) && this.faces == old(this.faces)
      ensures Extends(old(positions), positions) && Extends(old(cells), cells)
      ensures result.Ok? <==> FanOk(otherCells, i, faces, faces[n])
      ensures result.Err? ==> FanFailure(otherCells, i, faces, result.error)
      ensures result.Ok? ==>
                && |cells| == start + 2 * (|faces| - n)
                && result.value.0 == FaceRange(start, 2 * (|faces| - n))
                && FanEmitted(positions, cells, start, centerPoint, otherCells, triangleCentroids, i, faces, |faces| - n)
                && CacheSound(otherCells, triangleCentroids, result.value.1)
      ensures AddedFrom(positions, n0, FanPoints(centerPoint, triangleCentroids))
    {
      var faceIndex := faces[n];
      var centroid := triangleCentroids[faceIndex];
      var mids := FanTriangleMids(otherCells, i, faces, faceIndex, centroid, triangleCentroids, cache);
      if mids.Err? {
        return Err(mids.error);
      }
      var midB, midC, cache' := mids.value.0, mids.value.1, mids.value.2;
      ghost var done := |faces| - n - 1;
      assert faces[|faces| - 1 - done] == faceIndex;
      ghost var points := FanPoints(centerPoint, triangleCentroids);
      assert centroid in CentroidPoints(triangleCentroids);
      assert centerPoint in points && centroid in points && midB in points && midC in points;
      var newFace' := EmitFanStep(centerPoint, centroid, midB, midC, newFace, start, otherCells, triangleCentroids,
                                  i, faces, done, n0, points);
      result := Ok((newFace', cache'));
    }

    /** The fan loop of `truncated` for vertex `i` with incident triangles
        `faces`, visited from the last to the first: for each triangle, its
        two other corners (fewer is a panic), its centroid, the mid-centroids
        across the edges to those corners (an edge without a second triangle
        is a panic) and the two cells of the pair. It succeeds exactly when
        every triangle of the fan can be truncated; it then has appended one
        pair per triangle and returns the new face, the indices of those
        cells, with the grown cache. */
    method TruncateFan(otherCells: seq<Triangle>, i: nat, faces: seq<nat>, centerPoint: Vec3,
                       triangleCentroids: map<nat, Vec3>, cache: map<MidKey, Vec3>)
      returns (result: Outcome<(seq<nat>, map<MidKey, Vec3>)>)
      requires Valid() && CellsInBounds(cells, |positions|)
      requires FacesIn(otherCells, faces) && forall k :: 0 <= k < |faces| ==> faces[k] in triangleCentroids
      requires forall k :: 0 <= k < |faces| ==> HasCorner(otherCells[faces[k]], i)
      requires CacheSound(otherCells, triangleCentroids, cache)
      modifies this
      ensures Valid() && CellsInBounds(cells, |positions|) && this.faces == old(this.faces)
      ensures Extends(old(positions), positions) && Extends(old(cells), cells)
      ensures result.Ok? <==> FanOkFrom(otherCells, i, faces, 0)
      ensures result.Err? ==> FanFailure(otherCells, i, faces, result.error)
      ensures result.Ok? ==>
                && |cells| == |old(cells)| + 2 * |faces|
                && result.value.0 == FaceRange(|old(cells)|, 2 * |faces|)
                && FanEmitted(positions, cells, |old(cells)|, centerPoint, otherCells, triangleCentroids, i, faces, |faces|)
                && CacheSound(otherCells, triangleCentroids, result.value.1)
      ensures AddedFrom(positions, |old(positions)|, FanPoints(centerPoint, triangleCentroids))
    {
      var midCentroidCache := cache;
      var newFace: seq<nat> := [];
      var n := |faces|;
      while n > 0
        invariant n <= |faces|
        invariant Valid() && CellsInBounds(cells, |positions|) && this.faces == old(this.faces)
        invariant Extends(old(positions), positions) && Extends(old(cells), cells)
        invariant |cells| == |old(cells)| + 2 * (|faces| - n)
        invariant newFace == FaceRange(|old(cells)|, 2 * (|faces| - n))
        invariant FanEmitted(positions, cells, |old(cells)|, centerPoint, otherCells, triangleCentroids, i, faces, |faces| - n)
        invariant CacheSound(otherCells, triangleCentroids, midCentroidCache)
        invariant AddedFrom(positions, |old(positions)|, FanPoints(centerPoint, triangleCentroids))
        invariant FanOkFrom(otherCells, i, faces, n)
      {
        n := n - 1;
        var step := TruncateFanTriangle(otherCells, i, faces, n, centerPoint, triangleCentroids, midCentroidCache,
                                        newFace, |old(cells)|, |old(positions)|);
        if step.Err? {
          result := Err(step.error);
          FanFailureRefutes(otherCells, i, faces, result.error);
          return;
        }
        newFace, midCentroidCache := step.value.0, step.value.1;
        FanOkFromStep(otherCells, i, faces, n);
      }
      result := Ok((newFace, midCentroidCache));
    }

    /** One pass of the vertex loop of `truncated` for vertex `i` with
        incident triangles `fan`: the centre of the fan, the fan loop, and the
        new face pushed after the faces of the vertices before `i`. It fails
        exactly when the fan cannot be truncated; otherwise vertex `i` is
        truncated and the grown cache is returned. */
    method TruncateVertex(otherCells: seq<Triangle>, i: nat, fan: seq<nat>, triangleCentroids: map<nat, Vec3>,
                          cache: map<MidKey, Vec3>, ghost cells0: nat, ghost faces0: nat)
      returns (result: Outcome<map<MidKey, Vec3>>)
      requires Valid() && CellsInBounds(cells, |positions|)
      requires fan == Incident(otherCells, i) && fan != []
      requires forall f: nat :: f < |otherCells| ==> f in triangleCentroids
      requires |faces| == faces0 + i && |cells| == cells0 + 2 * DegreeSum(otherCells, i)
      requires CacheSound(otherCells, triangleCentroids, cache)
      modifies this
      ensures Valid() && CellsInBounds(cells, |positions|)
      ensures Extends(old(positions), positions) && Extends(old(cells), cells) && Extends(old(faces), faces)
      ensures result.Ok? <==> FanOkFrom(otherCells, i, fan, 0)
      ensures result.Err? ==> FanFailure(otherCells, i, fan, result.error)
      ensures result.Ok? ==>
                && |faces| == faces0 + i + 1
                && |cells| == |old(cells)| + 2 * |fan|
                && VertexTruncated(positions, cells, faces, cells0, faces0, otherCells, triangleCentroids, i)
                && CacheSound(otherCells, triangleCentroids, result.value)
      ensures AddedFrom(positions, |old(positions)|, FanPoints(Center(fan, triangleCentroids), triangleCentroids))
    {
      IncidentFacesIn(otherCells, i);
      FacesHaveCentroids(otherCells, fan, triangleCentroids);
      var centerPoint := CenterOfTriangles(fan, triangleCentroids);
      var truncatedFan := TruncateFan(otherCells, i, fan, centerPoint, triangleCentroids, cache);
      if truncatedFan.Ok? {
        faces := faces + [truncatedFan.value.0];
        VertexTruncatedAt(positions, cells, faces, cells0, faces0, otherCells, triangleCentroids, i);
        result := Ok(truncatedFan.value.1);
      } else {
        result := Err(truncatedFan.error);
      }
    }

    /** One pass of the vertex loop of `truncated`, for vertex `i` of the
        `n` vertices of a mesh with cells `otherCells`: look up the fan of `i`
        (a vertex on no triangle is a panic), count it as a hexagon when it
        has six triangles and as a pentagon otherwise, and truncate it. */
    method TruncateStep(otherCells: seq<Triangle>, n: nat, i: nat, vertToFaces: map<nat, seq<nat>>,
                        triangleCentroids: map<nat, Vec3>, cache: map<MidKey, Vec3>, hexCount: nat, pentCount: nat,
                        ghost positions0: seq<Vec3>, ghost cells0: seq<Triangle>,
                        ghost faces0: seq<seq<nat>>)
      returns (result: Outcome<(map<MidKey, Vec3>, nat, nat)>)
      requires Valid() && CellsInBounds(cells, |positions|)
      requires i < n
      requires Extends(positions0, positions) && Extends(cells0, cells) && Extends(faces0, faces)
      requires i in vertToFaces <==> Incident(otherCells, i) != []
      requires i in vertToFaces ==> vertToFaces[i] == Incident(otherCells, i)
      requires forall f: nat :: f < |otherCells| ==> f in triangleCentroids
      requires Truncatable(otherCells, i)
      requires hexCount == HexCount(otherCells, i) && hexCount + pentCount == i
      requires |faces| == |faces0| + i && |cells| == |cells0| + 2 * DegreeSum(otherCells, i)
      requires forall v :: 0 <= v < i ==> VertexTruncated(positions, cells, faces, |cells0|, |faces0|, otherCells, triangleCentroids, v)
      requires CacheSound(otherCells, triangleCentroids, cache)
      requires AddedFrom(positions, |positions0|, DualPoints(otherCells, triangleCentroids, i))
      modifies this
      ensures Valid() && CellsInBounds(cells, |positions|)
      ensures Extends(old(positions), positions) && Extends(old(cells), cells) && Extends(old(faces), faces)
      ensures Extends(positions0, positions) && Extends(cells0, cells) && Extends(faces0, faces)
      ensures result.Err? ==> Failure(otherCells, n, result.error) && !Truncatable(otherCells, n)
      ensures result.Ok? ==>
                && Truncatable(otherCells, i + 1)
                && CacheSound(otherCells, triangleCentroids, result.value.0)
                && AddedFrom(positions, |positions0|, DualPoints(otherCells, triangleCentroids, i + 1))
                && result.value.1 == HexCount(otherCells, i + 1) && result.value.1 + result.value.2 == i + 1
                && |faces| == |faces0| + i + 1
                && |cells| == |cells0| + 2 * DegreeSum(otherCells, i + 1)
                && forall v :: 0 <= v < i + 1 ==>
                     VertexTruncated(positions, cells, faces, |cells0|, |faces0|, otherCells, triangleCentroids, v)
    {
      if i !in vertToFaces {
        result := Err(MissingVertex(i));
        FailureRefutes(otherCells, n, result.error);
        return;
      }
      var fan := vertToFaces[i];
      var hexCount', pentCount' := hexCount, pentCount;
      if |fan| == 6 {
        hexCount' := hexCount' + 1;
      } else {
        pentCount' := pentCount' + 1;
      }
      HexCountNext(otherCells, i);
      ghost var positions1, cells1, faces1 := positions, cells, faces;
      var truncatedVertex := TruncateVertex(otherCells, i, fan, triangleCentroids, cache, |cells0|, |faces0|);
      if truncatedVertex.Err? {
        result := Err(truncatedVertex.error);
        FailureRefutes(otherCells, n, result.error);
        return;
      }
      ExtendsTrans(positions0, positions1, positions);
      ExtendsTrans(cells0, cells1, cells);
      ExtendsTrans(faces0, faces1, faces);
      VertexTruncatedExtends(positions1, cells1, faces1, positions, cells, faces, |cells0|, |faces0|, otherCells, triangleCentroids, i);
      VertexTruncatedNext(positions, cells, faces, |cells0|, |faces0|, otherCells, triangleCentroids, i);
      FanPointsInDual(otherCells, triangleCentroids, i);
      AddedFromWiden(positions, |old(positions)|, FanPoints(Center(fan, triangleCentroids), triangleCentroids),
                     DualPoints(otherCells, triangleCentroids, i + 1));
      DualPointsStep(positions1, positions, |positions0|, otherCells, triangleCentroids, i);
      DegreeSumNext(otherCells, i);
      TruncatableStep(otherCells, i);
      result := Ok((truncatedVertex.value, hexCount', pentCount'));
    }

    /** The vertex loop of `truncated` over the `n` vertices of a mesh with
        cells `otherCells`, given its `vert_to_faces` map and centroids. It
        fails exactly when the mesh cannot be truncated; otherwise every
        vertex is truncated in order and the hexagon and pentagon counts are
        returned. */
    method TruncateVertices(otherCells: seq<Triangle>, n: nat, vertToFaces: map<nat, seq<nat>>,
                            triangleCentroids: map<nat, Vec3>)
      returns (result: Outcome<(nat, nat)>)
      requires Valid() && CellsInBounds(cells, |positions|)
      requires forall v :: v in vertToFaces <==> Incident(otherCells, v) != []
      requires forall v :: v in vertToFaces ==> vertToFaces[v] == Incident(otherCells, v)
      requires forall f: nat :: f < |otherCells| ==> f in triangleCentroids
      modifies this
      ensures Valid() && CellsInBounds(cells, |positions|)
      ensures Extends(old(positions), positions) && Extends(old(cells), cells) && Extends(old(faces), faces)
      ensures result.Ok? <==> Truncatable(otherCells, n)
      ensures result.Err? ==> Failure(otherCells, n, result.error)
      ensures result.Ok? ==>
                && |faces| == |old(faces)| + n
                && |cells| == |old(cells)| + 2 * DegreeSum(otherCells, n)
                && result.value.0 == HexCount(otherCells, n)
                && result.value.0 + result.value.1 == n
                && (forall v :: 0 <= v < n ==>
                      VertexTruncated(positions, cells, faces, |old(cells)|, |old(faces)|, otherCells, triangleCentroids, v))
                && AddedFrom(positions, |old(positions)|, DualPoints(otherCells, triangleCentroids, n))
    {
      var midCentroidCache: map<MidKey, Vec3> := map[];
      var hexCount, pentCount := 0, 0;
      for i := 0 to n
        invariant Valid() && CellsInBounds(cells, |positions|)
        invariant Extends(old(positions), positions) && Extends(old(cells), cells) && Extends(old(faces), faces)
        invariant |faces| == |old(faces)| + i
        invariant |cells| == |old(cells)| + 2 * DegreeSum(otherCells, i)
        invariant Truncatable(otherCells, i)
        invariant hexCount == HexCount(otherCells, i) && hexCount + pentCount == i
        invariant CacheSound(otherCells, triangleCentroids, midCentroidCache)
        invariant AddedFrom(positions, |old(positions)|, DualPoints(otherCells, triangleCentroids, i))
        invariant forall v :: 0 <= v < i ==>
                    VertexTruncated(positions, cells, faces, |old(cells)|, |old(faces)|, otherCells, triangleCentroids, v)
      {
        var step := TruncateStep(otherCells, n, i, vertToFaces, triangleCentroids, midCentroidCache,
                                 hexCount, pentCount, old(positions), old(cells), old(faces));
        if step.Err? {
          return Err(step.error);
        }
        midCentroidCache, hexCount, pentCount := step.value.0, step.value.1, step.value.2;
      }
      result := Ok((hexCount, pentCount));
    }

    /** `truncated`: the truncated polyhedron (the Goldberg hexsphere) of
        `other`, added to this one. Every vertex `v` of `other` in turn
        becomes a new face: the `2 |Incident(v)|` cells of the pairs of its
        fan, visited in reverse order, around the centre of the centroids of
        its triangles, and pushed right after the faces of the vertices
        before it. The run fails, as the program panics, exactly when some
        vertex cannot be truncated, and the error names where. On success
        the returned pair counts the vertices that lie on six triangles
        (hexagons) and the rest (pentagons), and `6 |other.cells|` cells were
        added. */
    method Truncated(other: Polyhedron) returns (result: Outcome<(nat, nat)>)
      requires other != this
      requires Valid() && CellsInBounds(cells, |positions|)
      requires CellsInBounds(other.cells, |other.positions|)
      modifies this
      ensures Valid() && CellsInBounds(cells, |positions|)
      ensures Extends(old(positions), positions) && Extends(old(cells), cells) && Extends(old(faces), faces)
      ensures result.Ok? <==> Truncatable(other.cells, |other.positions|)
      ensures result.Err? ==> Failure(other.cells, |other.positions|, result.error)
      ensures result.Ok? ==>
                && |faces| == |old(faces)| + |other.positions|
                && |cells| == |old(cells)| + 6 * |other.cells|
                && result.value.0 == HexCount(other.cells, |other.positions|)
                && result.value.0 + result.value.1 == |other.positions|
                && (forall v :: 0 <= v < |other.positions| ==>
                      VertexTruncated(positions, cells, faces, |old(cells)|, |old(faces)|, other.cells,
                                      Centroids(other.positions, other.cells), v))
                && AddedFrom(positions, |old(positions)|,
                             DualPoints(other.cells, Centroids(other.positions, other.cells), |other.positions|))
    {
      var vertToFaces := other.VertToFaces();
      var originalVertCount := |other.positions|;
      var triangleCentroids := other.TriangleCentroids();
      result := TruncateVertices(other.cells, originalVertCount, vertToFaces, triangleCentroids);
      DegreeSumTotal(other.cells, originalVertCount);
    }

    /** `new_truncated_isocahedron`: the icosahedron of `detail`
        subdivisions, then truncated into a fresh polyhedron with
        `120 * 4^detail` cells, six per cell of the icosahedron, when
        truncation succeeds. */
    static method NewTruncatedIcosahedron(radius: real, detail: nat, normalize: Vec3 -> Vec3)
      returns (truncated: Polyhedron, result: Outcome<(nat, nat)>)
      ensures fresh(truncated)
      ensures truncated.Valid() && CellsInBounds(truncated.cells, |truncated.positions|)
      ensures result.Ok? ==> |truncated.cells| == 120 * Pow4(detail)
    {
      var icosahedron := NewIcosahedron(radius, detail, normalize);
      truncated := new Polyhedron();
      result := truncated.Truncated(icosahedron);
    }
  }
}
