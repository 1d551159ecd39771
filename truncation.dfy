// What `Polyhedron::truncated` (src/main.rs:215-286) leaves in the cell and
// face lists of the truncated polyhedron: for every vertex of the input, a
// face made of two cells per incident triangle, visited in reverse.

module Truncation {
  import opened Geometry
  import opened Welding
  import opened Topology
  import opened Dual

  /** The two cells `truncated` pushes for one triangle of a fan, at
      indices `k` and `k + 1`: `(center, mid_c, centroid)` and then
      `(center, centroid, mid_b)`. They share the centre vertex and the
      centroid vertex, welded to `center` and `centroid`. */
  ghost predicate FanPair(positions: seq<Vec3>, cells: seq<Triangle>, k: nat, center: Vec3, centroid: Vec3) {
    && k + 1 < |cells|
    && cells[k + 1].a == cells[k].a
    && cells[k + 1].b == cells[k].c
    && Welded(positions, cells[k].a, center)
    && Welded(positions, cells[k].c, centroid)
  }

  /** The mid-centroid corners of the pair at `k` for triangle `f` of the
      fan of `i` in the input mesh `otherCells`: the last corner of the
      second cell is welded to the mid-centroid across the edge from `i` to
      the first other corner of `f`, the middle corner of the first cell to
      the one across the edge to the second, wherever that edge lies on
      exactly two triangles. */
  ghost predicate MidsWelded(positions: seq<Vec3>, cells: seq<Triangle>, k: nat, otherCells: seq<Triangle>,
                             centroids: map<nat, Vec3>, i: nat, f: nat) {
    && k + 1 < |cells| && f < |otherCells|
    && var ov := OtherVerts(otherCells[f], i);
       && |ov| >= 2
       && (forall g :: EdgeFaces(otherCells, i, ov[0], f, g) && f in centroids && g in centroids ==>
             Welded(positions, cells[k + 1].c, Lerp(centroids[f], centroids[g], 0.5)))
       && (forall g :: EdgeFaces(otherCells, i, ov[1], f, g) && f in centroids && g in centroids ==>
             Welded(positions, cells[k].b, Lerp(centroids[f], centroids[g], 0.5)))
  }

  /** The mid-centroid corners of the pair at `k`, welded to `midB` and
      `midC`, the midpoints across the edges from `i` to the first and the
      second other corner of `f`, are welded as `MidsWelded` says. */
  lemma MidsWeldedOf(positions: seq<Vec3>, cells: seq<Triangle>, k: nat, otherCells: seq<Triangle>,
                     centroids: map<nat, Vec3>, i: nat, f: nat, midB: Vec3, midC: Vec3)
    requires k + 1 < |cells| && f < |otherCells| && |OtherVerts(otherCells[f], i)| >= 2
    requires Welded(positions, cells[k + 1].c, midB) && Welded(positions, cells[k].b, midC)
    requires MidAcross(otherCells, centroids, i, OtherVerts(otherCells[f], i)[0], f, midB)
    requires MidAcross(otherCells, centroids, i, OtherVerts(otherCells[f], i)[1], f, midC)
    ensures MidsWelded(positions, cells, k, otherCells, centroids, i, f)
  {
  }

  /** The last `done` triangles of `fan`, the fan of `i` in `otherCells`,
      taken from its end, have their cell pairs from index `start` on, around
      `center` and their centroids, with their mid-centroid corners welded. */
  ghost predicate FanEmitted(positions: seq<Vec3>, cells: seq<Triangle>, start: nat, center: Vec3,
                             otherCells: seq<Triangle>, centroids: map<nat, Vec3>, i: nat, fan: seq<nat>, done: nat) {
    && done <= |fan|
    && (forall k :: 0 <= k < |fan| ==> fan[k] in centroids)
    && forall q :: 0 <= q < done ==> PairEmitted(positions, cells, start, center, otherCells, centroids, i, fan, q)
  }

  /** The pair of the triangle `q` places from the end of `fan` is at
      `start + 2 q`, around `center` and its centroid, with its mid-centroid
      corners welded. */
  ghost predicate PairEmitted(positions: seq<Vec3>, cells: seq<Triangle>, start: nat, center: Vec3,
                              otherCells: seq<Triangle>, centroids: map<nat, Vec3>, i: nat, fan: seq<nat>, q: nat) {
    && q < |fan| && fan[|fan| - 1 - q] in centroids
    && FanPair(positions, cells, start + 2 * q, center, centroids[fan[|fan| - 1 - q]])
    && MidsWelded(positions, cells, start + 2 * q, otherCells, centroids, i, fan[|fan| - 1 - q])
  }

  lemma FanPairExtends(positions: seq<Vec3>, cells: seq<Triangle>, positions': seq<Vec3>, cells': seq<Triangle>,
                       k: nat, center: Vec3, centroid: Vec3)
    requires FanPair(positions, cells, k, center, centroid)
    requires Extends(positions, positions') && Extends(cells, cells')
    ensures FanPair(positions', cells', k, center, centroid)
  {
    assert cells'[k] == cells[k] && cells'[k + 1] == cells[k + 1];
  }

  lemma MidsWeldedExtends(positions: seq<Vec3>, cells: seq<Triangle>, positions': seq<Vec3>, cells': seq<Triangle>,
                          k: nat, otherCells: seq<Triangle>, centroids: map<nat, Vec3>, i: nat, f: nat)
    requires MidsWelded(positions, cells, k, otherCells, centroids, i, f)
    requires Extends(positions, positions') && Extends(cells, cells')
    ensures MidsWelded(positions', cells', k, otherCells, centroids, i, f)
  {
    assert cells'[k] == cells[k] && cells'[k + 1] == cells[k + 1];
    var ov := OtherVerts(otherCells[f], i);
    forall g | EdgeFaces(otherCells, i, ov[0], f, g) && f in centroids && g in centroids
      ensures Welded(positions', cells'[k + 1].c, Lerp(centroids[f], centroids[g], 0.5))
    {
      WeldedExtends(positions, positions', cells[k + 1].c, Lerp(centroids[f], centroids[g], 0.5));
    }
    forall g | EdgeFaces(otherCells, i, ov[1], f, g) && f in centroids && g in centroids
      ensures Welded(positions', cells'[k].b, Lerp(centroids[f], centroids[g], 0.5))
    {
      WeldedExtends(positions, positions', cells[k].b, Lerp(centroids[f], centroids[g], 0.5));
    }
  }

  /** Appending positions and cells keeps the pairs already emitted. */
  lemma FanEmittedExtends(positions: seq<Vec3>, cells: seq<Triangle>, positions': seq<Vec3>, cells': seq<Triangle>,
                          start: nat, center: Vec3, otherCells: seq<Triangle>, centroids: map<nat, Vec3>, i: nat,
                          fan: seq<nat>, done: nat)
    requires FanEmitted(positions, cells, start, center, otherCells, centroids, i, fan, done)
    requires Extends(positions, positions') && Extends(cells, cells')
    ensures FanEmitted(positions', cells', start, center, otherCells, centroids, i, fan, done)
  {
    forall q | 0 <= q < done
      ensures PairEmitted(positions', cells', start, center, otherCells, centroids, i, fan, q)
    {
      assert PairEmitted(positions, cells, start, center, otherCells, centroids, i, fan, q);
      FanPairExtends(positions, cells, positions', cells', start + 2 * q, center, centroids[fan[|fan| - 1 - q]]);
      MidsWeldedExtends(positions, cells, positions', cells', start + 2 * q, otherCells, centroids, i, fan[|fan| - 1 - q]);
    }
  }

  /** One more pair, for the next triangle from the end of the fan: the
      pairs pushed before `positions0` and `cells0` grew are kept, and the
      new pair at `start + 2 done` is around the centre and the centroid of
      that triangle, with its mid-centroid corners welded to `midB` and
      `midC`, the midpoints across its edges from `i`. */
  lemma FanEmittedStep(positions0: seq<Vec3>, cells0: seq<Triangle>, positions: seq<Vec3>, cells: seq<Triangle>,
                       start: nat, center: Vec3, otherCells: seq<Triangle>, centroids: map<nat, Vec3>, i: nat,
                       fan: seq<nat>, done: nat, midB: Vec3, midC: Vec3)
    requires FanEmitted(positions0, cells0, start, center, otherCells, centroids, i, fan, done) && done < |fan|
    requires Extends(positions0, positions) && Extends(cells0, cells)
    requires FanPair(positions, cells, start + 2 * done, center, centroids[fan[|fan| - 1 - done]])
    requires var f := fan[|fan| - 1 - done];
             && f < |otherCells| && |OtherVerts(otherCells[f], i)| >= 2
             && Welded(positions, cells[start + 2 * done + 1].c, midB)
             && Welded(positions, cells[start + 2 * done].b, midC)
             && MidAcross(otherCells, centroids, i, OtherVerts(otherCells[f], i)[0], f, midB)
             && MidAcross(otherCells, centroids, i, OtherVerts(otherCells[f], i)[1], f, midC)
    ensures FanEmitted(positions, cells, start, center, otherCells, centroids, i, fan, done + 1)
  {
    FanEmittedExtends(positions0, cells0, positions, cells, start, center, otherCells, centroids, i, fan, done);
    MidsWeldedOf(positions, cells, start + 2 * done, otherCells, centroids, i, fan[|fan| - 1 - done], midB, midC);
  }

  /** Vertex `v` of the input mesh `otherCells` is truncated: face
      `faces0 + v` lists the `2 |Incident(v)|` cells from
      `cells0 + 2 DegreeSum(v)` on, and those cells are the pairs of the
      fan of `v`, in reverse order, around the centre of the fan, each with
      its centroid and its two mid-centroids welded. */
  ghost predicate VertexTruncated(positions: seq<Vec3>, cells: seq<Triangle>, faces: seq<seq<nat>>,
                                  cells0: nat, faces0: nat, otherCells: seq<Triangle>,
                                  centroids: map<nat, Vec3>, v: nat) {
    var fan := Incident(otherCells, v);
    var start := cells0 + 2 * DegreeSum(otherCells, v);
    && fan != []
    && faces0 + v < |faces|
    && faces[faces0 + v] == FaceRange(start, 2 * |fan|)
    && (forall k :: 0 <= k < |fan| ==> fan[k] in centroids)
    && FanEmitted(positions, cells, start, Center(fan, centroids), otherCells, centroids, v, fan, |fan|)
  }

  /** Vertex `i` is truncated once its face is in place and the pairs of
      its fan are emitted. */
  lemma VertexTruncatedAt(positions: seq<Vec3>, cells: seq<Triangle>, faces: seq<seq<nat>>,
                          cells0: nat, faces0: nat, otherCells: seq<Triangle>, centroids: map<nat, Vec3>, i: nat)
    requires Incident(otherCells, i) != [] && forall k :: 0 <= k < |Incident(otherCells, i)| ==> Incident(otherCells, i)[k] in centroids
    requires faces0 + i < |faces|
    requires faces[faces0 + i] == FaceRange(cells0 + 2 * DegreeSum(otherCells, i), 2 * |Incident(otherCells, i)|)
    requires FanEmitted(positions, cells, cells0 + 2 * DegreeSum(otherCells, i),
                        Center(Incident(otherCells, i), centroids), otherCells, centroids, i,
                        Incident(otherCells, i), |Incident(otherCells, i)|)
    ensures VertexTruncated(positions, cells, faces, cells0, faces0, otherCells, centroids, i)
  {
  }

  lemma VertexTruncatedNext(positions: seq<Vec3>, cells: seq<Triangle>, faces: seq<seq<nat>>,
                            cells0: nat, faces0: nat, otherCells: seq<Triangle>, centroids: map<nat, Vec3>, i: nat)
    requires forall v :: 0 <= v < i ==> VertexTruncated(positions, cells, faces, cells0, faces0, otherCells, centroids, v)
    requires VertexTruncated(positions, cells, faces, cells0, faces0, otherCells, centroids, i)
    ensures forall v :: 0 <= v < i + 1 ==> VertexTruncated(positions, cells, faces, cells0, faces0, otherCells, centroids, v)
  {
  }

  /** Appending positions, cells and faces keeps every truncated vertex. */
  lemma VertexTruncatedExtends(positions: seq<Vec3>, cells: seq<Triangle>, faces: seq<seq<nat>>,
                               positions': seq<Vec3>, cells': seq<Triangle>, faces': seq<seq<nat>>,
                               cells0: nat, faces0: nat, otherCells: seq<Triangle>, centroids: map<nat, Vec3>, n: nat)
    requires forall v :: 0 <= v < n ==> VertexTruncated(positions, cells, faces, cells0, faces0, otherCells, centroids, v)
    requires Extends(positions, positions') && Extends(cells, cells') && Extends(faces, faces')
    ensures forall v :: 0 <= v < n ==> VertexTruncated(positions', cells', faces', cells0, faces0, otherCells, centroids, v)
  {
    forall v | 0 <= v < n
      ensures VertexTruncated(positions', cells', faces', cells0, faces0, otherCells, centroids, v)
    {
      assert VertexTruncated(positions, cells, faces, cells0, faces0, otherCells, centroids, v);
      var fan := Incident(otherCells, v);
      var start := cells0 + 2 * DegreeSum(otherCells, v);
      assert faces'[faces0 + v] == faces[faces0 + v];
      FanEmittedExtends(positions, cells, positions', cells', start, Center(fan, centroids), otherCells, centroids, v, fan, |fan|);
    }
  }

  /** The points the fan loop of one vertex adds: its centre, centroids and
      midpoints of two centroids. */
  ghost function FanPoints(center: Vec3, centroids: map<nat, Vec3>): set<Vec3> {
    {center} + CentroidPoints(centroids) + MidPoints(centroids)
  }

  /** The centres of the fans of the vertices `0 .. n` that lie on some
      triangle. */
  ghost function CenterPoints(cells: seq<Triangle>, centroids: map<nat, Vec3>, n: nat): set<Vec3> {
    if n == 0 then
      {}
    else
      var fan := Incident(cells, n - 1);
      CenterPoints(cells, centroids, n - 1)
        + if fan != [] && forall k :: 0 <= k < |fan| ==> fan[k] in centroids then {Center(fan, centroids)} else {}
  }

  /** The points truncating the vertices `0 .. n` may add. */
  ghost function DualPoints(cells: seq<Triangle>, centroids: map<nat, Vec3>, n: nat): set<Vec3> {
    CenterPoints(cells, centroids, n) + CentroidPoints(centroids) + MidPoints(centroids)
  }

  /** The points of the fan of vertex `v` are points of truncating the
      vertices up to `v`. */
  lemma FanPointsInDual(cells: seq<Triangle>, centroids: map<nat, Vec3>, v: nat)
    requires Incident(cells, v) != [] && forall k :: 0 <= k < |Incident(cells, v)| ==> Incident(cells, v)[k] in centroids
    ensures FanPoints(Center(Incident(cells, v), centroids), centroids) <= DualPoints(cells, centroids, v + 1)
  {
  }

  /** Positions added for vertex `i` after positions added for the vertices
      before it are points of truncating the vertices up to `i`. */
  lemma DualPointsStep(positions: seq<Vec3>, positions': seq<Vec3>, n0: nat,
                       cells: seq<Triangle>, centroids: map<nat, Vec3>, i: nat)
    requires AddedFrom(positions, n0, DualPoints(cells, centroids, i)) && Extends(positions, positions')
    requires AddedFrom(positions', |positions|, DualPoints(cells, centroids, i + 1))
    ensures AddedFrom(positions', n0, DualPoints(cells, centroids, i + 1))
  {
    AddedFromWiden(positions, n0, DualPoints(cells, centroids, i), DualPoints(cells, centroids, i + 1));
    AddedFromGrow(positions, positions', n0, DualPoints(cells, centroids, i + 1));
  }
}
