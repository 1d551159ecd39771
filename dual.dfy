// The pure side of `Polyhedron::truncated` (src/main.rs:215-286): which
// fans can be truncated, the centre of a fan, the memoised mid-centroids
// (`calculate_mid_centroid`, src/main.rs:324-351), the triangle centroids
// (`triangle_centroids`, src/main.rs:314-322) and the hexagon count.

module Dual {
  import opened Geometry
  import opened Topology

  /** Why `truncated` panics: a vertex with no incident triangle
      (`vert_to_faces[&i]`), a triangle that has the vertex as more than one
      corner (`other_verts[1]`), or an edge with no second triangle in the fan
      (the `unwrap` in `calculate_mid_centroid`). */
  datatype DualError =
    | MissingVertex(vertex: nat)
    | DegenerateTriangle(vertex: nat, face: nat)
    | NoAdjacentFace(spoke: nat, vertex: nat, face: nat)

  datatype Outcome<T> = Ok(value: T) | Err(error: DualError)

  /** The corners of `t` other than `v`, in the order `a`, `b`, `c`. */
  function OtherVerts(t: Triangle, v: nat): (r: seq<nat>)
    ensures |r| + Multiplicity(t, v) == 3
    ensures forall k :: 0 <= k < |r| ==> r[k] != v && (r[k] == t.a || r[k] == t.b || r[k] == t.c)
  {
    (if t.a != v then [t.a] else []) + (if t.b != v then [t.b] else []) + (if t.c != v then [t.c] else [])
  }

  /** In a triangle with three different corners, one of them `v`, the other
      two corners are the remaining two, in the order `a`, `b`, `c`. */
  lemma OtherVertsOfCorner(t: Triangle, v: nat)
    requires t.a != t.b && t.b != t.c && t.a != t.c && HasCorner(t, v)
    ensures |OtherVerts(t, v)| == 2
    ensures t.a == v ==> OtherVerts(t, v) == [t.b, t.c]
    ensures t.b == v ==> OtherVerts(t, v) == [t.a, t.c]
    ensures t.c == v ==> OtherVerts(t, v) == [t.a, t.b]
  {
  }

  /** `u` lists the corners of `t` in the same cyclic order. */
  predicate SameWinding(t: Triangle, u: Triangle) {
    u == t || u == Triangle(t.b, t.c, t.a) || u == Triangle(t.c, t.a, t.b)
  }

  /** The triangle `(v, other_verts[0], other_verts[1])` that `truncated`
      rebuilds keeps the winding of `t` exactly when `v` is not its middle
      corner `b`. */
  lemma SortedTriangleWinding(t: Triangle, v: nat)
    requires t.a != t.b && t.b != t.c && t.a != t.c && HasCorner(t, v)
    ensures |OtherVerts(t, v)| == 2
    ensures SameWinding(t, Triangle(v, OtherVerts(t, v)[0], OtherVerts(t, v)[1])) <==> v != t.b
  {
    OtherVertsOfCorner(t, v);
  }

  /** Every listed face is a cell index. */
  predicate FacesIn(cells: seq<Triangle>, faces: seq<nat>) {
    forall k :: 0 <= k < |faces| ==> faces[k] < |cells|
  }

  lemma IncidentFacesIn(cells: seq<Triangle>, v: nat)
    ensures FacesIn(cells, Incident(cells, v))
  {
    IncidentMembers(cells, v);
    forall k | 0 <= k < |Incident(cells, v)| ensures Incident(cells, v)[k] < |cells| {
      assert Incident(cells, v)[k] in Incident(cells, v);
    }
  }

  /** Triangle `f` of the fan `faces` of vertex `i` can be truncated: it has
      two corners besides `i`, and both edges from `i` to them have a second
      triangle in the fan. */
  predicate FanOk(cells: seq<Triangle>, i: nat, faces: seq<nat>, f: nat) {
    && FacesIn(cells, faces)
    && f < |cells|
    && var ov := OtherVerts(cells[f], i);
       && |ov| >= 2
       && FindAdjacentFace(cells, i, ov[0], faces, f).Some?
       && FindAdjacentFace(cells, i, ov[1], faces, f).Some?
  }

  /** A position at which `f` is listed in `faces`. */
  function IndexOf(faces: seq<nat>, f: nat): (k: nat)
    requires f in faces
    ensures k < |faces| && faces[k] == f
  {
    if faces[0] == f then 0 else 1 + IndexOf(faces[1..], f)
  }

  /** The triangles of `faces` from position `n` on can be truncated. */
  predicate FanOkFrom(cells: seq<Triangle>, i: nat, faces: seq<nat>, n: nat) {
    forall k {:trigger FanOk(cells, i, faces, faces[k])} :: n <= k < |faces| ==> FanOk(cells, i, faces, faces[k])
  }

  lemma FanOkFromStep(cells: seq<Triangle>, i: nat, faces: seq<nat>, n: nat)
    requires n < |faces| && FanOkFrom(cells, i, faces, n + 1) && FanOk(cells, i, faces, faces[n])
    ensures FanOkFrom(cells, i, faces, n)
  {
  }

  /** The whole fan can be truncated exactly when every listed triangle
      can. */
  lemma FanOkFromAll(cells: seq<Triangle>, i: nat, faces: seq<nat>)
    ensures FanOkFrom(cells, i, faces, 0) <==> forall f :: f in faces ==> FanOk(cells, i, faces, f)
  {
    if FanOkFrom(cells, i, faces, 0) {
      forall f | f in faces ensures FanOk(cells, i, faces, f) {
        var k := IndexOf(faces, f);
      }
    }
  }

  /** `truncated` runs to the end on a mesh whose cells are `cells` and
      whose first `n` vertices are truncated: every vertex lies on some
      triangle and every triangle of its fan can be truncated. */
  predicate Truncatable(cells: seq<Triangle>, n: nat) {
    forall v :: 0 <= v < n ==> VertexOk(cells, v)
  }

  /** Vertex `v` lies on some triangle and every triangle of its fan can be
      truncated. */
  predicate VertexOk(cells: seq<Triangle>, v: nat) {
    && Incident(cells, v) != []
    && forall f {:trigger FanOk(cells, v, Incident(cells, v), f)} :: f in Incident(cells, v) ==> FanOk(cells, v, Incident(cells, v), f)
  }

  /** Truncating one more vertex whose fan can be truncated. */
  lemma TruncatableStep(cells: seq<Triangle>, n: nat)
    requires Truncatable(cells, n) && Incident(cells, n) != []
    requires FanOkFrom(cells, n, Incident(cells, n), 0)
    ensures Truncatable(cells, n + 1)
  {
    FanOkFromAll(cells, n, Incident(cells, n));
  }

  /** `e` names a step at which `truncated` really panics on the fan
      `faces` of vertex `i`: a listed triangle with fewer than two other
      corners, or an edge from `i` to one of them with no second triangle in
      the fan. */
  predicate FanFailure(cells: seq<Triangle>, i: nat, faces: seq<nat>, e: DualError) {
    && FacesIn(cells, faces)
    && match e
       case MissingVertex(_) => false
       case DegenerateTriangle(v, f) => v == i && f in faces && f < |cells| && |OtherVerts(cells[f], i)| < 2
       case NoAdjacentFace(s, v, f) =>
         && s == i && f in faces && f < |cells|
         && var ov := OtherVerts(cells[f], i);
            && |ov| >= 2 && (v == ov[0] || v == ov[1])
            && FindAdjacentFace(cells, i, v, faces, f).None?
  }

  /** A failure in a fan is a triangle of the fan that cannot be truncated. */
  lemma FanFailureRefutes(cells: seq<Triangle>, i: nat, faces: seq<nat>, e: DualError)
    requires FanFailure(cells, i, faces, e)
    ensures !FanOkFrom(cells, i, faces, 0)
  {
    FanOkFromAll(cells, i, faces);
    match e
    case DegenerateTriangle(_, f) =>
      assert !FanOk(cells, i, faces, f);
    case NoAdjacentFace(_, _, f) =>
      assert !FanOk(cells, i, faces, f);
  }

  /** `e` names a step at which `truncated` panics on a mesh with cells
      `cells` and `n` vertices: a vertex on no triangle, or a failure in
      the fan of a vertex. */
  predicate Failure(cells: seq<Triangle>, n: nat, e: DualError) {
    match e
    case MissingVertex(v) => v < n && Incident(cells, v) == []
    case DegenerateTriangle(v, _) => v < n && FanFailure(cells, v, Incident(cells, v), e)
    case NoAdjacentFace(s, _, _) => s < n && FanFailure(cells, s, Incident(cells, s), e)
  }

  /** A mesh with a failure cannot be truncated. */
  lemma FailureRefutes(cells: seq<Triangle>, n: nat, e: DualError)
    requires Failure(cells, n, e)
    ensures !Truncatable(cells, n)
  {
    match e
    case MissingVertex(v) =>
      assert !VertexOk(cells, v);
    case DegenerateTriangle(v, _) =>
      FanFailureRefutes(cells, v, Incident(cells, v), e);
      assert !VertexOk(cells, v);
    case NoAdjacentFace(s, _, _) =>
      FanFailureRefutes(cells, s, Incident(cells, s), e);
      assert !VertexOk(cells, s);
  }

  // ---------------------------------------------------------------------
  // Centroids

  /** Every face of a fan has a centroid when every cell has one. */
  lemma FacesHaveCentroids(cells: seq<Triangle>, faces: seq<nat>, centroids: map<nat, Vec3>)
    requires FacesIn(cells, faces) && forall f: nat :: f < |cells| ==> f in centroids
    ensures forall k :: 0 <= k < |faces| ==> faces[k] in centroids
  {
  }

  /** `triangle_centroids`: the centroid of every cell, keyed by cell index. */
  function Centroids(positions: seq<Vec3>, cells: seq<Triangle>): (m: map<nat, Vec3>)
    requires CellsInBounds(cells, |positions|)
    ensures forall f: nat :: f in m <==> f < |cells|
  {
    map f: nat | f < |cells| :: Centroid(positions[cells[f].a], positions[cells[f].b], positions[cells[f].c])
  }

  /** The sum of the centroids of `indices`, added from the front. */
  function SumFromFront(indices: seq<nat>, centroids: map<nat, Vec3>): Vec3
    requires forall k :: 0 <= k < |indices| ==> indices[k] in centroids
  {
    if indices == [] then ZERO else Add(centroids[indices[0]], SumFromFront(indices[1..], centroids))
  }

  /** Adding one more centroid at the back of a sum taken from the front. */
  lemma {:induction false} SumFromFrontSnoc(indices: seq<nat>, centroids: map<nat, Vec3>)
    requires indices != [] && forall k :: 0 <= k < |indices| ==> indices[k] in centroids
    ensures SumFromFront(indices, centroids)
            == Add(SumFromFront(indices[..|indices| - 1], centroids), centroids[indices[|indices| - 1]])
  {
    if |indices| > 1 {
      var rest := indices[1..];
      SumFromFrontSnoc(rest, centroids);
      assert rest[..|rest| - 1] == indices[..|indices| - 1][1..];
    }
  }

  /** The sum of the centroids of `indices`, added left to right as
      `find_center_of_triangles` does; adding from the back or from the
      front gives the same sum. */
  function SumCentroids(indices: seq<nat>, centroids: map<nat, Vec3>): (r: Vec3)
    requires forall k :: 0 <= k < |indices| ==> indices[k] in centroids
    ensures r == SumFromFront(indices, centroids)
  {
    if indices == [] then
      ZERO
    else
      SumFromFrontSnoc(indices, centroids);
      Add(SumCentroids(indices[..|indices| - 1], centroids), centroids[indices[|indices| - 1]])
  }

  /** Dividing a vector by a non-zero scalar and multiplying it back gives
      the vector. */
  lemma ScaleBack(v: Vec3, n: real)
    requires n != 0.0
    ensures Mul(Div(v, n), n) == v
  {
    assert v.x / n * n == v.x && v.y / n * n == v.y && v.z / n * n == v.z;
  }

  /** `find_center_of_triangles`: the mean of the centroids of `indices`;
      scaled back by their number it is their sum. */
  function Center(indices: seq<nat>, centroids: map<nat, Vec3>): (r: Vec3)
    requires |indices| > 0 && forall k :: 0 <= k < |indices| ==> indices[k] in centroids
    ensures Mul(r, |indices| as real) == SumCentroids(indices, centroids)
  {
    var sum := SumCentroids(indices, centroids);
    var n := |indices| as real;
    ScaleBack(sum, n);
    Div(sum, n)
  }

  lemma {:induction false} SumOfEqualCentroids(indices: seq<nat>, centroids: map<nat, Vec3>, c: Vec3)
    requires forall k :: 0 <= k < |indices| ==> indices[k] in centroids && centroids[indices[k]] == c
    ensures SumCentroids(indices, centroids) == Mul(c, |indices| as real)
  {
    if indices != [] {
      var init := indices[..|indices| - 1];
      assert forall k :: 0 <= k < |init| ==> init[k] == indices[k];
      SumOfEqualCentroids(init, centroids, c);
      var n := |init| as real;
      assert SumCentroids(indices, centroids) == Add(SumCentroids(init, centroids), c);
      MulSucc(c, n);
    }
  }

  lemma MulSucc(c: Vec3, n: real)
    ensures Add(Mul(c, n), c) == Mul(c, n + 1.0)
  {
    assert c.x * n + c.x == c.x * (n + 1.0);
    assert c.y * n + c.y == c.y * (n + 1.0);
    assert c.z * n + c.z == c.z * (n + 1.0);
  }

  /** The centre of triangles that all have the same centroid is that
      centroid. */
  lemma CenterOfEqualCentroids(indices: seq<nat>, centroids: map<nat, Vec3>, c: Vec3)
    requires |indices| > 0
    requires forall k :: 0 <= k < |indices| ==> indices[k] in centroids && centroids[indices[k]] == c
    ensures Center(indices, centroids) == c
  {
    SumOfEqualCentroids(indices, centroids, c);
  }

  // ---------------------------------------------------------------------
  // Memoised mid-centroids

  /** The key of `mid_centroid_cache`: spoke vertex, other vertex of the
      edge, and the adjacent face. */
  datatype MidKey = MidKey(spoke: nat, vertex: nat, adjFace: nat)

  /** `cache'` keeps every entry of `cache`. */
  predicate CacheGrows(cache: map<MidKey, Vec3>, cache': map<MidKey, Vec3>) {
    forall key :: key in cache ==> key in cache' && cache'[key] == cache[key]
  }

  /** `calculate_mid_centroid`: find the neighbour of `current` across the
      edge `spoke`-`vertex` (none is a panic), then return the cached value for
      (`spoke`, `vertex`, neighbour) or compute the midpoint of `centroid` and
      the neighbour's centroid and cache it. Either way the result is then
      cached under that key, and no entry already cached changes. */
  function CalculateMidCentroid(cells: seq<Triangle>, spoke: nat, vertex: nat, faces: seq<nat>, current: nat,
                                centroid: Vec3, centroids: map<nat, Vec3>, cache: map<MidKey, Vec3>)
    : (r: Option<(Vec3, map<MidKey, Vec3>)>)
    requires FacesIn(cells, faces) && forall k :: 0 <= k < |faces| ==> faces[k] in centroids
    ensures r.None? <==> FindAdjacentFace(cells, spoke, vertex, faces, current).None?
    ensures r.Some? ==>
              var key := MidKey(spoke, vertex, FindAdjacentFace(cells, spoke, vertex, faces, current).value);
              && key in r.value.1 && r.value.1[key] == r.value.0
              && CacheGrows(cache, r.value.1)
              && (key in cache ==> r.value == (cache[key], cache))
              && (key !in cache ==> r.value.1 == cache[key := r.value.0])
  {
    match FindAdjacentFace(cells, spoke, vertex, faces, current)
    case None => None
    case Some(adjFace) =>
      var key := MidKey(spoke, vertex, adjFace);
      if key in cache then
        Some((cache[key], cache))
      else
        var midCentroid := Lerp(centroid, centroids[adjFace], 0.5);
        Some((midCentroid, cache[key := midCentroid]))
  }

  /** A mid-centroid that is not cached yet is the midpoint of the two
      centroids on either side of the edge. */
  lemma MidCentroidFresh(cells: seq<Triangle>, spoke: nat, vertex: nat, faces: seq<nat>, current: nat,
                         centroid: Vec3, centroids: map<nat, Vec3>, cache: map<MidKey, Vec3>)
    requires FacesIn(cells, faces) && forall k :: 0 <= k < |faces| ==> faces[k] in centroids
    requires FindAdjacentFace(cells, spoke, vertex, faces, current).Some?
    requires MidKey(spoke, vertex, FindAdjacentFace(cells, spoke, vertex, faces, current).value) !in cache
    ensures var adj := centroids[FindAdjacentFace(cells, spoke, vertex, faces, current).value];
            CalculateMidCentroid(cells, spoke, vertex, faces, current, centroid, centroids, cache).value.0
              == Vec3((centroid.x + adj.x) / 2.0, (centroid.y + adj.y) / 2.0, (centroid.z + adj.z) / 2.0)
  {
  }

  /** Memoisation: repeating a successful call on the cache it produced
      returns the same value and leaves that cache as it is. */
  lemma MidCentroidRepeat(cells: seq<Triangle>, spoke: nat, vertex: nat, faces: seq<nat>, current: nat,
                          centroid: Vec3, centroid': Vec3, centroids: map<nat, Vec3>, cache: map<MidKey, Vec3>)
    requires FacesIn(cells, faces) && forall k :: 0 <= k < |faces| ==> faces[k] in centroids
    requires CalculateMidCentroid(cells, spoke, vertex, faces, current, centroid, centroids, cache).Some?
    ensures var r := CalculateMidCentroid(cells, spoke, vertex, faces, current, centroid, centroids, cache).value;
            CalculateMidCentroid(cells, spoke, vertex, faces, current, centroid', centroids, r.1) == Some(r)
  {
  }

  /** Where three triangles share an edge, two of them can find the same
      neighbour and so use the same key: in the fan `[0, 1, 2]` of vertex 0
      with all three triangles on the edge 0-1, the reverse loop visits
      triangle 2 first and caches the midpoint of its centroid and that of
      its neighbour 0; triangle 1 then finds neighbour 0 too, reads that
      value back, and gets the midpoint for triangle 2 instead of the one
      across its own edge. */
  lemma SharedKeyReadBack(c0: Vec3, c1: Vec3, c2: Vec3)
    requires c1.x != c2.x
    ensures var cells := [Triangle(0, 1, 2), Triangle(0, 1, 3), Triangle(0, 1, 4)];
            var centroids := map[0 := c0, 1 := c1, 2 := c2];
            var first := CalculateMidCentroid(cells, 0, 1, [0, 1, 2], 2, c2, centroids, map[]);
            && first.Some?
            && var second := CalculateMidCentroid(cells, 0, 1, [0, 1, 2], 1, c1, centroids, first.value.1);
               && second.Some?
               && second.value.0 == Lerp(c2, c0, 0.5)
               && second.value.0 != Lerp(c1, c0, 0.5)
  {
    var cells := [Triangle(0, 1, 2), Triangle(0, 1, 3), Triangle(0, 1, 4)];
    var centroids := map[0 := c0, 1 := c1, 2 := c2];
    assert FindAdjacentFace(cells, 0, 1, [0, 1, 2], 2) == Some(0);
    assert FindAdjacentFace(cells, 0, 1, [0, 1, 2], 1) == Some(0);
    MidCentroidFresh(cells, 0, 1, [0, 1, 2], 2, c2, centroids, map[]);
  }

  /** The edge `s`-`v` lies on exactly the two triangles `f` and `g`. */
  predicate EdgeFaces(cells: seq<Triangle>, s: nat, v: nat, f: nat, g: nat) {
    && f < |cells| && g < |cells| && f != g
    && HasCorner(cells[f], s) && HasCorner(cells[f], v)
    && HasCorner(cells[g], s) && HasCorner(cells[g], v)
    && forall h :: 0 <= h < |cells| && HasCorner(cells[h], s) && HasCorner(cells[h], v) ==> h == f || h == g
  }

  /** `mid` is the midpoint of the centroids of the two triangles on the
      edge `s`-`v`, one of them `f`, when the edge lies on exactly two. */
  ghost predicate MidAcross(cells: seq<Triangle>, centroids: map<nat, Vec3>, s: nat, v: nat, f: nat, mid: Vec3) {
    forall g :: EdgeFaces(cells, s, v, f, g) && f in centroids && g in centroids ==>
      mid == Lerp(centroids[f], centroids[g], 0.5)
  }

  /** Every value of the mid-centroid cache is the midpoint of the
      centroids on either side of the edge of its key, wherever that edge
      lies on exactly two triangles; and in any case it is the midpoint of
      two centroids. */
  ghost predicate CacheSound(cells: seq<Triangle>, centroids: map<nat, Vec3>, cache: map<MidKey, Vec3>) {
    forall key :: key in cache ==>
      && MidAcross(cells, centroids, key.spoke, key.vertex, key.adjFace, cache[key])
      && cache[key] in MidPoints(centroids)
  }

  /** The centroids of `centroids`. */
  ghost function CentroidPoints(centroids: map<nat, Vec3>): set<Vec3> {
    set f | f in centroids :: centroids[f]
  }

  /** The midpoints of any two centroids of `centroids`. */
  ghost function MidPoints(centroids: map<nat, Vec3>): set<Vec3> {
    set f, g | f in centroids && g in centroids :: Lerp(centroids[f], centroids[g], 0.5)
  }

  lemma MidPointsHas(centroids: map<nat, Vec3>, f: nat, g: nat)
    requires f in centroids && g in centroids
    ensures Lerp(centroids[f], centroids[g], 0.5) in MidPoints(centroids)
  {
  }

  /** Called from a triangle `current` of the edge, with the centroid of
      `current`, `calculate_mid_centroid` keeps the cache sound and returns
      the midpoint across the edge, whether it was cached or not. */
  lemma MidCentroidSound(cells: seq<Triangle>, spoke: nat, vertex: nat, faces: seq<nat>, current: nat,
                         centroid: Vec3, centroids: map<nat, Vec3>, cache: map<MidKey, Vec3>)
    requires FacesIn(cells, faces) && forall k :: 0 <= k < |faces| ==> faces[k] in centroids
    requires current < |cells| && HasCorner(cells[current], spoke) && HasCorner(cells[current], vertex)
    requires current in centroids && centroid == centroids[current]
    requires CacheSound(cells, centroids, cache)
    ensures var r := CalculateMidCentroid(cells, spoke, vertex, faces, current, centroid, centroids, cache);
            r.Some? ==>
              && CacheSound(cells, centroids, r.value.1)
              && MidAcross(cells, centroids, spoke, vertex, current, r.value.0)
              && r.value.0 in MidPoints(centroids)
  {
    var r := CalculateMidCentroid(cells, spoke, vertex, faces, current, centroid, centroids, cache);
    if r.Some? {
      var adj := FindAdjacentFace(cells, spoke, vertex, faces, current).value;
      var key := MidKey(spoke, vertex, adj);
      assert adj != current && HasCorner(cells[adj], spoke) && HasCorner(cells[adj], vertex);
      if key in cache {
        assert r.value == (cache[key], cache);
        MidAcrossFlip(cells, centroids, spoke, vertex, adj, current, cache[key]);
      } else {
        var mid := Lerp(centroid, centroids[adj], 0.5);
        assert r.value == (mid, cache[key := mid]);
        MidPointsHas(centroids, current, adj);
        MidAcrossPair(cells, centroids, spoke, vertex, current, adj, mid);
        MidAcrossFlip(cells, centroids, spoke, vertex, current, adj, mid);
        CacheSoundInsert(cells, centroids, cache, key, mid);
      }
    }
  }

  /** The two calls of `calculate_mid_centroid` for one triangle `f` of
      the fan of `i`, across the edges from `i` to its first and then its
      second other corner, return the two midpoints across those edges and
      leave the cache grown and sound. */
  lemma FanMidsSound(cells: seq<Triangle>, i: nat, faces: seq<nat>, f: nat, centroid: Vec3,
                     centroids: map<nat, Vec3>, cache: map<MidKey, Vec3>)
    requires FacesIn(cells, faces) && forall k :: 0 <= k < |faces| ==> faces[k] in centroids
    requires f in faces && HasCorner(cells[f], i) && |OtherVerts(cells[f], i)| >= 2
    requires centroid == centroids[f] && CacheSound(cells, centroids, cache)
    ensures var ov := OtherVerts(cells[f], i);
            var rb := CalculateMidCentroid(cells, i, ov[0], faces, f, centroid, centroids, cache);
            rb.Some? ==>
              var rc := CalculateMidCentroid(cells, i, ov[1], faces, f, centroid, centroids, rb.value.1);
              rc.Some? ==>
                && CacheGrows(cache, rc.value.1)
                && CacheSound(cells, centroids, rc.value.1)
                && MidAcross(cells, centroids, i, ov[0], f, rb.value.0)
                && MidAcross(cells, centroids, i, ov[1], f, rc.value.0)
                && rb.value.0 in MidPoints(centroids) && rc.value.0 in MidPoints(centroids)
  {
    var ov := OtherVerts(cells[f], i);
    var rb := CalculateMidCentroid(cells, i, ov[0], faces, f, centroid, centroids, cache);
    MidCentroidSound(cells, i, ov[0], faces, f, centroid, centroids, cache);
    if rb.Some? {
      MidCentroidSound(cells, i, ov[1], faces, f, centroid, centroids, rb.value.1);
    }
  }

  /** Caching a sound value keeps the cache sound. */
  lemma CacheSoundInsert(cells: seq<Triangle>, centroids: map<nat, Vec3>, cache: map<MidKey, Vec3>, key: MidKey, mid: Vec3)
    requires CacheSound(cells, centroids, cache)
    requires MidAcross(cells, centroids, key.spoke, key.vertex, key.adjFace, mid) && mid in MidPoints(centroids)
    ensures CacheSound(cells, centroids, cache[key := mid])
  {
    var cache' := cache[key := mid];
    forall key' | key' in cache'
      ensures MidAcross(cells, centroids, key'.spoke, key'.vertex, key'.adjFace, cache'[key'])
      ensures cache'[key'] in MidPoints(centroids)
    {
      if key' != key {
        assert cache'[key'] == cache[key'];
      }
    }
  }

  /** When the edge has the two triangles `f` and `g`, the midpoint across
      it seen from `f` is the midpoint of their centroids. */
  lemma MidAcrossPair(cells: seq<Triangle>, centroids: map<nat, Vec3>, s: nat, v: nat, f: nat, g: nat, mid: Vec3)
    requires f < |cells| && g < |cells| && f != g && HasCorner(cells[g], s) && HasCorner(cells[g], v)
    requires f in centroids && g in centroids && mid == Lerp(centroids[f], centroids[g], 0.5)
    ensures MidAcross(cells, centroids, s, v, f, mid)
  {
    forall g' | EdgeFaces(cells, s, v, f, g') && f in centroids && g' in centroids
      ensures mid == Lerp(centroids[f], centroids[g'], 0.5)
    {
      assert g == f || g == g';
    }
  }

  /** The midpoint across an edge is the same seen from either of its two
      triangles `f` and `g`. */
  lemma MidAcrossFlip(cells: seq<Triangle>, centroids: map<nat, Vec3>, s: nat, v: nat, f: nat, g: nat, mid: Vec3)
    requires f < |cells| && g < |cells| && f != g
    requires HasCorner(cells[f], s) && HasCorner(cells[f], v) && HasCorner(cells[g], s) && HasCorner(cells[g], v)
    requires MidAcross(cells, centroids, s, v, f, mid)
    ensures MidAcross(cells, centroids, s, v, g, mid)
  {
    forall g' | EdgeFaces(cells, s, v, g, g') && g in centroids && g' in centroids
      ensures mid == Lerp(centroids[g], centroids[g'], 0.5)
    {
      assert f == g';
      assert EdgeFaces(cells, s, v, f, g);
      MidpointSymmetric(centroids[f], centroids[g]);
    }
  }

  /** The midpoint of two points does not depend on their order. */
  lemma MidpointSymmetric(u: Vec3, w: Vec3)
    ensures Lerp(u, w, 0.5) == Lerp(w, u, 0.5)
  {
    assert (u.x + w.x) / 2.0 == (w.x + u.x) / 2.0;
  }

  // ---------------------------------------------------------------------
  // Counters and face layout

  /** How many of the vertices `0 .. n` lie on exactly six triangles. */
  function HexCount(cells: seq<Triangle>, n: nat): (r: nat)
    ensures r <= n
  {
    if n == 0 then 0 else HexCount(cells, n - 1) + (if |Incident(cells, n - 1)| == 6 then 1 else 0)
  }

  lemma HexCountNext(cells: seq<Triangle>, n: nat)
    ensures HexCount(cells, n + 1) == HexCount(cells, n) + (if |Incident(cells, n)| == 6 then 1 else 0)
  {
  }

  /** A face of the truncated mesh: `len` consecutive cell indices from
      `start`. */
  function FaceRange(start: nat, len: nat): seq<nat> {
    seq(len, k requires 0 <= k < len => start + k)
  }

  /** Pushing the next two cell indices onto a face keeps it a run of
      consecutive indices. */
  lemma FaceRangeGrow(start: nat, len: nat)
    ensures FaceRange(start, len) + [start + len, start + len + 1] == FaceRange(start, len + 2)
  {
  }
}
