// Triangles and the topology queries over a finished triangle list:
// the vertex-to-incident-triangles lists of `vert_to_faces`
// (src/main.rs:288-312), the edge-neighbour search of `find_adjacent_face`
// (src/main.rs:353-376) and the connectivity of the base icosahedron
// (src/main.rs:91-112).

module Topology {

  datatype Option<T> = None | Some(value: T)

  /** A cell: three indices into the position list, in winding order. */
  datatype Triangle = Triangle(a: nat, b: nat, c: nat)

  predicate HasCorner(t: Triangle, v: nat) {
    t.a == v || t.b == v || t.c == v
  }

  /** Every corner of every cell names one of `n` positions. */
  predicate CellsInBounds(cells: seq<Triangle>, n: nat) {
    forall i :: 0 <= i < |cells| ==> cells[i].a < n && cells[i].b < n && cells[i].c < n
  }

  /** More positions keep every corner in bounds. */
  lemma CellsInBoundsGrow(cells: seq<Triangle>, n: nat, n': nat)
    requires CellsInBounds(cells, n) && n <= n'
    ensures CellsInBounds(cells, n')
  {
  }

  /** Appending a cell whose corners name one of `n'` positions, after the
      position list grew from `n` to `n'`, keeps every corner in bounds. */
  lemma CellsInBoundsAppend(cells: seq<Triangle>, t: Triangle, n: nat, n': nat)
    requires CellsInBounds(cells, n) && n <= n'
    requires t.a < n' && t.b < n' && t.c < n'
    ensures CellsInBounds(cells + [t], n')
  {
    assert forall i :: 0 <= i < |cells| ==> (cells + [t])[i] == cells[i];
  }

  // ---------------------------------------------------------------------
  // Incident triangles of a vertex

  /** What `vert_to_faces` appends for triangle `i` under vertex `v`: `i`
      once for each of the corners `a`, `b`, `c` that is `v`. */
  function Hits(t: Triangle, v: nat, i: nat): seq<nat> {
    (if t.a == v then [i] else []) + (if t.b == v then [i] else []) + (if t.c == v then [i] else [])
  }

  /** How many of the corners of `t` are `v`. */
  function Multiplicity(t: Triangle, v: nat): nat {
    (if t.a == v then 1 else 0) + (if t.b == v then 1 else 0) + (if t.c == v then 1 else 0)
  }

  /** How many corners of the first `n` cells are `v`. */
  function CornerCountUpTo(cells: seq<Triangle>, v: nat, n: nat): nat
    requires n <= |cells|
  {
    if n == 0 then 0 else CornerCountUpTo(cells, v, n - 1) + Multiplicity(cells[n - 1], v)
  }

  /** The list `vert_to_faces` holds for `v` after its first `n` triangles.
      It has one entry for each corner equal to `v` among those triangles. */
  function IncidentUpTo(cells: seq<Triangle>, v: nat, n: nat): (r: seq<nat>)
    requires n <= |cells|
    ensures |r| == CornerCountUpTo(cells, v, n)
  {
    if n == 0 then [] else IncidentUpTo(cells, v, n - 1) + Hits(cells[n - 1], v, n - 1)
  }

  /** The triangles incident to `v`, in the order `vert_to_faces` lists them:
      every entry is a triangle that has `v` as a corner. */
  function Incident(cells: seq<Triangle>, v: nat): (r: seq<nat>)
    ensures forall p :: 0 <= p < |r| ==> r[p] < |cells| && HasCorner(cells[r[p]], v)
  {
    var r := IncidentUpTo(cells, v, |cells|);
    IncidentUpToMembers(cells, v, |cells|);
    assert forall p :: 0 <= p < |r| ==> r[p] in r;
    r
  }

  /** The hits of triangle `i` all are `i`, and there are some exactly when
      `v` is a corner. */
  lemma HitsMembers(t: Triangle, v: nat, i: nat)
    ensures forall p :: 0 <= p < |Hits(t, v, i)| ==> Hits(t, v, i)[p] == i
    ensures Hits(t, v, i) != [] <==> HasCorner(t, v)
  {
  }

  /** The list of `v` names exactly the triangles that have `v` as a corner. */
  lemma {:induction false} IncidentUpToMembers(cells: seq<Triangle>, v: nat, n: nat)
    requires n <= |cells|
    ensures forall f: nat {:trigger f in IncidentUpTo(cells, v, n)} :: f in IncidentUpTo(cells, v, n) <==> f < n && HasCorner(cells[f], v)
  {
    if n > 0 {
      IncidentUpToMembers(cells, v, n - 1);
      var prev, hits := IncidentUpTo(cells, v, n - 1), Hits(cells[n - 1], v, n - 1);
      HitsMembers(cells[n - 1], v, n - 1);
      assert IncidentUpTo(cells, v, n) == prev + hits;
      assert forall f: nat :: f in hits <==> f == n - 1 && HasCorner(cells[n - 1], v);
    }
  }

  /** The list of `v` names exactly the triangles that have `v` as a corner. */
  lemma IncidentMembers(cells: seq<Triangle>, v: nat)
    ensures forall f: nat {:trigger f in Incident(cells, v)} :: f in Incident(cells, v) <==> f < |cells| && HasCorner(cells[f], v)
  {
    IncidentUpToMembers(cells, v, |cells|);
  }

  /** The list a `vert_to_faces` map holds for `v`, empty when `v` has no
      entry. */
  function ListOf(m: map<nat, seq<nat>>, v: nat): seq<nat> {
    if v in m then m[v] else []
  }

  /** One `if let Some(faces) = vert_to_faces.get_mut(..)` block of
      `vert_to_faces`: push `i` onto the list of `corner`, or start that list
      with `i` when `corner` has none. Only the list of `corner` changes. */
  function RecordCorner(m: map<nat, seq<nat>>, corner: nat, i: nat): (r: map<nat, seq<nat>>)
    ensures forall v :: v in r <==> v in m || v == corner
    ensures forall v :: ListOf(r, v) == ListOf(m, v) + (if v == corner then [i] else [])
  {
    if corner in m then m[corner := m[corner] + [i]] else m[corner := [i]]
  }

  lemma AppendThree(s: seq<nat>, x: seq<nat>, y: seq<nat>, z: seq<nat>)
    ensures s + x + y + z == s + (x + y + z)
  {
  }

  /** Every entry of the list of `v` after `n` triangles is below `n`. */
  lemma {:induction false} IncidentUpToBelow(cells: seq<Triangle>, v: nat, n: nat, p: nat)
    requires n <= |cells| && p < |IncidentUpTo(cells, v, n)|
    ensures IncidentUpTo(cells, v, n)[p] < n
  {
    if n > 0 {
      var prev, hits := IncidentUpTo(cells, v, n - 1), Hits(cells[n - 1], v, n - 1);
      assert IncidentUpTo(cells, v, n) == prev + hits;
      HitsMembers(cells[n - 1], v, n - 1);
      if p < |prev| {
        IncidentUpToBelow(cells, v, n - 1, p);
      }
    }
  }

  /** Two entries of the list of `v` are in ascending order. */
  lemma {:induction false} IncidentUpToOrdered(cells: seq<Triangle>, v: nat, n: nat, p: nat, q: nat)
    requires n <= |cells| && p < q < |IncidentUpTo(cells, v, n)|
    ensures IncidentUpTo(cells, v, n)[p] <= IncidentUpTo(cells, v, n)[q]
  {
    if n > 0 {
      var prev, hits := IncidentUpTo(cells, v, n - 1), Hits(cells[n - 1], v, n - 1);
      assert IncidentUpTo(cells, v, n) == prev + hits;
      HitsMembers(cells[n - 1], v, n - 1);
      if q < |prev| {
        IncidentUpToOrdered(cells, v, n - 1, p, q);
      } else if p < |prev| {
        IncidentUpToBelow(cells, v, n - 1, p);
      }
    }
  }

  /** A list of triangle indices in ascending order. */
  predicate Ascending(s: seq<nat>) {
    forall p, q :: 0 <= p < q < |s| ==> s[p] <= s[q]
  }

  /** The list of `v` is in ascending triangle order. */
  lemma IncidentSorted(cells: seq<Triangle>, v: nat)
    ensures Ascending(Incident(cells, v))
  {
    forall p, q | 0 <= p < q < |Incident(cells, v)| ensures Incident(cells, v)[p] <= Incident(cells, v)[q] {
      IncidentUpToOrdered(cells, v, |cells|, p, q);
    }
  }

  // ---------------------------------------------------------------------
  // Every triangle is listed three times in all

  /** How many corners of `t` are below `n`, counted by vertex. */
  function CornersBelow(t: Triangle, n: nat): nat {
    if n == 0 then 0 else CornersBelow(t, n - 1) + Multiplicity(t, n - 1)
  }

  lemma {:induction false} CornersBelowAll(t: Triangle, n: nat)
    ensures CornersBelow(t, n) == (if t.a < n then 1 else 0) + (if t.b < n then 1 else 0) + (if t.c < n then 1 else 0)
  {
    if n > 0 {
      CornersBelowAll(t, n - 1);
    }
  }

  /** Total length of the lists of vertices `0 .. n`, after `m` triangles. */
  function DegreeSumUpTo(cells: seq<Triangle>, m: nat, n: nat): nat
    requires m <= |cells|
  {
    if n == 0 then 0 else DegreeSumUpTo(cells, m, n - 1) + |IncidentUpTo(cells, n - 1, m)|
  }

  /** Total length of the incidence lists of vertices `0 .. n`. */
  function DegreeSum(cells: seq<Triangle>, n: nat): nat {
    DegreeSumUpTo(cells, |cells|, n)
  }

  /** The lists of vertices `0 .. n + 1` are those of `0 .. n` and the list
      of `n`. */
  lemma DegreeSumNext(cells: seq<Triangle>, n: nat)
    ensures DegreeSum(cells, n + 1) == DegreeSum(cells, n) + |Incident(cells, n)|
  {
  }

  lemma {:induction false} DegreeSumStep(cells: seq<Triangle>, m: nat, n: nat)
    requires 0 < m <= |cells|
    ensures DegreeSumUpTo(cells, m, n) == DegreeSumUpTo(cells, m - 1, n) + CornersBelow(cells[m - 1], n)
  {
    if n > 0 {
      DegreeSumStep(cells, m, n - 1);
    }
  }

  lemma {:induction false} DegreeSumUpToTotal(cells: seq<Triangle>, m: nat, n: nat)
    requires m <= |cells| && CellsInBounds(cells, n)
    ensures DegreeSumUpTo(cells, m, n) == 3 * m
  {
    if m == 0 {
      DegreeSumUpToZero(cells, n);
    } else {
      DegreeSumUpToTotal(cells, m - 1, n);
      DegreeSumStep(cells, m, n);
      CornersBelowAll(cells[m - 1], n);
    }
  }

  lemma {:induction false} DegreeSumUpToZero(cells: seq<Triangle>, n: nat)
    ensures DegreeSumUpTo(cells, 0, n) == 0
  {
    if n > 0 {
      DegreeSumUpToZero(cells, n - 1);
    }
  }

  /** When every corner is one of `n` vertices, the incidence lists of those
      vertices hold `3 * |cells|` entries in all. */
  lemma DegreeSumTotal(cells: seq<Triangle>, n: nat)
    requires CellsInBounds(cells, n)
    ensures DegreeSum(cells, n) == 3 * |cells|
  {
    DegreeSumUpToTotal(cells, |cells|, n);
  }

  // ---------------------------------------------------------------------
  // The edge neighbour inside a fan

  /** Face `f` is a candidate neighbour of `current` across the edge
      `spoke`-`vertex`: it is another face and it has both ends as corners. */
  predicate SharesEdge(cells: seq<Triangle>, spoke: nat, vertex: nat, current: nat, f: nat)
    requires f < |cells|
  {
    f != current && HasCorner(cells[f], spoke) && HasCorner(cells[f], vertex)
  }

  /** `find_adjacent_face`: a face of `faces` that shares the edge
      `spoke`-`vertex` with `current`, or `None` exactly when there is none.
      That the face found is the first such face is `FindAdjacentFaceFirst`. */
  function FindAdjacentFace(cells: seq<Triangle>, spoke: nat, vertex: nat, faces: seq<nat>, current: nat): (r: Option<nat>)
    requires forall k :: 0 <= k < |faces| ==> faces[k] < |cells|
    ensures r.Some? ==> r.value in faces && r.value < |cells| && SharesEdge(cells, spoke, vertex, current, r.value)
    ensures r.None? <==> forall k :: 0 <= k < |faces| ==> !SharesEdge(cells, spoke, vertex, current, faces[k])
  {
    if faces == [] then
      None
    else if SharesEdge(cells, spoke, vertex, current, faces[0]) then
      Some(faces[0])
    else
      var r := FindAdjacentFace(cells, spoke, vertex, faces[1..], current);
      assert forall k :: 1 <= k < |faces| ==> faces[1..][k - 1] == faces[k];
      r
  }

  /** The search returns the first sharing face: whatever position `k` of
      `faces` holds a face that shares the edge, the face found already
      occurs at or before `k`. */
  lemma {:induction false} FindAdjacentFaceFirst(cells: seq<Triangle>, spoke: nat, vertex: nat, faces: seq<nat>, current: nat, k: nat)
    requires forall k :: 0 <= k < |faces| ==> faces[k] < |cells|
    requires k < |faces| && SharesEdge(cells, spoke, vertex, current, faces[k])
    ensures FindAdjacentFace(cells, spoke, vertex, faces, current).Some?
    ensures FindAdjacentFace(cells, spoke, vertex, faces, current).value in faces[..k + 1]
  {
    if !SharesEdge(cells, spoke, vertex, current, faces[0]) {
      var rest := faces[1..];
      assert rest[k - 1] == faces[k];
      FindAdjacentFaceFirst(cells, spoke, vertex, rest, current, k - 1);
      assert rest[..k] == faces[1..k + 1];
    }
  }

  /** When `g` is the only face of the list that shares the edge with
      `current`, the search finds `g`. */
  lemma {:induction false} FindAdjacentFaceOnly(cells: seq<Triangle>, spoke: nat, vertex: nat, faces: seq<nat>, current: nat, g: nat)
    requires forall k :: 0 <= k < |faces| ==> faces[k] < |cells|
    requires g in faces && g < |cells| && SharesEdge(cells, spoke, vertex, current, g)
    requires forall k :: 0 <= k < |faces| && SharesEdge(cells, spoke, vertex, current, faces[k]) ==> faces[k] == g
    ensures FindAdjacentFace(cells, spoke, vertex, faces, current) == Some(g)
  {
    if !SharesEdge(cells, spoke, vertex, current, faces[0]) {
      var rest := faces[1..];
      assert g in rest;
      assert forall k :: 0 <= k < |rest| ==> rest[k] == faces[k + 1];
      FindAdjacentFaceOnly(cells, spoke, vertex, rest, current, g);
    }
  }

  /** In a fan where exactly two faces `f` and `g` carry the edge
      `spoke`-`vertex`, each is the other's neighbour across that edge. */
  lemma AdjacencySymmetric(cells: seq<Triangle>, spoke: nat, vertex: nat, faces: seq<nat>, f: nat, g: nat)
    requires forall k :: 0 <= k < |faces| ==> faces[k] < |cells|
    requires f in faces && g in faces && f != g
    requires HasCorner(cells[f], spoke) && HasCorner(cells[f], vertex)
    requires HasCorner(cells[g], spoke) && HasCorner(cells[g], vertex)
    requires forall k :: 0 <= k < |faces| && HasCorner(cells[faces[k]], spoke) && HasCorner(cells[faces[k]], vertex) ==>
               faces[k] == f || faces[k] == g
    ensures FindAdjacentFace(cells, spoke, vertex, faces, f) == Some(g)
    ensures FindAdjacentFace(cells, spoke, vertex, faces, g) == Some(f)
  {
    FindAdjacentFaceOnly(cells, spoke, vertex, faces, f, g);
    FindAdjacentFaceOnly(cells, spoke, vertex, faces, g, f);
  }

  // ---------------------------------------------------------------------
  // The base icosahedron

  /** The twenty cells of the hardcoded icosahedron. */
  const BASE_CELLS: seq<Triangle> := [
    Triangle(0, 11, 5), Triangle(0, 5, 1), Triangle(0, 1, 7), Triangle(0, 7, 10),
    Triangle(0, 10, 11), Triangle(1, 5, 9), Triangle(5, 11, 4), Triangle(11, 10, 2),
    Triangle(10, 7, 6), Triangle(7, 1, 8), Triangle(3, 9, 4), Triangle(3, 4, 2),
    Triangle(3, 2, 6), Triangle(3, 6, 8), Triangle(3, 8, 9), Triangle(4, 9, 5),
    Triangle(2, 4, 11), Triangle(6, 2, 10), Triangle(8, 6, 7), Triangle(9, 8, 1)
  ]

  /** The number of corners equal to `v` in a list of twenty cells. */
  function CornerCount20(cells: seq<Triangle>, v: nat): nat
    requires |cells| == 20
  {
    Multiplicity(cells[0], v) + Multiplicity(cells[1], v) + Multiplicity(cells[2], v) + Multiplicity(cells[3], v) +
    Multiplicity(cells[4], v) + Multiplicity(cells[5], v) + Multiplicity(cells[6], v) + Multiplicity(cells[7], v) +
    Multiplicity(cells[8], v) + Multiplicity(cells[9], v) + Multiplicity(cells[10], v) + Multiplicity(cells[11], v) +
    Multiplicity(cells[12], v) + Multiplicity(cells[13], v) + Multiplicity(cells[14], v) + Multiplicity(cells[15], v) +
    Multiplicity(cells[16], v) + Multiplicity(cells[17], v) + Multiplicity(cells[18], v) + Multiplicity(cells[19], v)
  }

  lemma CornerCountUnrolled20(cells: seq<Triangle>, v: nat)
    requires |cells| == 20
    ensures CornerCountUpTo(cells, v, 20) == CornerCount20(cells, v)
  {
    assert CornerCountUpTo(cells, v, 20) == CornerCountUpTo(cells, v, 19) + Multiplicity(cells[19], v);
    assert CornerCountUpTo(cells, v, 19) == CornerCountUpTo(cells, v, 18) + Multiplicity(cells[18], v);
    assert CornerCountUpTo(cells, v, 18) == CornerCountUpTo(cells, v, 17) + Multiplicity(cells[17], v);
    assert CornerCountUpTo(cells, v, 17) == CornerCountUpTo(cells, v, 16) + Multiplicity(cells[16], v);
    assert CornerCountUpTo(cells, v, 16) == CornerCountUpTo(cells, v, 15) + Multiplicity(cells[15], v);
    assert CornerCountUpTo(cells, v, 15) == CornerCountUpTo(cells, v, 14) + Multiplicity(cells[14], v);
    assert CornerCountUpTo(cells, v, 14) == CornerCountUpTo(cells, v, 13) + Multiplicity(cells[13], v);
    assert CornerCountUpTo(cells, v, 13) == CornerCountUpTo(cells, v, 12) + Multiplicity(cells[12], v);
    assert CornerCountUpTo(cells, v, 12) == CornerCountUpTo(cells, v, 11) + Multiplicity(cells[11], v);
    assert CornerCountUpTo(cells, v, 11) == CornerCountUpTo(cells, v, 10) + Multiplicity(cells[10], v);
    assert CornerCountUpTo(cells, v, 10) == CornerCountUpTo(cells, v, 9) + Multiplicity(cells[9], v);
    assert CornerCountUpTo(cells, v, 9) == CornerCountUpTo(cells, v, 8) + Multiplicity(cells[8], v);
    assert CornerCountUpTo(cells, v, 8) == CornerCountUpTo(cells, v, 7) + Multiplicity(cells[7], v);
    assert CornerCountUpTo(cells, v, 7) == CornerCountUpTo(cells, v, 6) + Multiplicity(cells[6], v);
    assert CornerCountUpTo(cells, v, 6) == CornerCountUpTo(cells, v, 5) + Multiplicity(cells[5], v);
    assert CornerCountUpTo(cells, v, 5) == CornerCountUpTo(cells, v, 4) + Multiplicity(cells[4], v);
    assert CornerCountUpTo(cells, v, 4) == CornerCountUpTo(cells, v, 3) + Multiplicity(cells[3], v);
    assert CornerCountUpTo(cells, v, 3) == CornerCountUpTo(cells, v, 2) + Multiplicity(cells[2], v);
    assert CornerCountUpTo(cells, v, 2) == CornerCountUpTo(cells, v, 1) + Multiplicity(cells[1], v);
    assert CornerCountUpTo(cells, v, 1) == CornerCountUpTo(cells, v, 0) + Multiplicity(cells[0], v);
  }

  /** The base table has twenty cells over the twelve base vertices. */
  lemma BaseCellsInBounds()
    ensures |BASE_CELLS| == 20 && CellsInBounds(BASE_CELLS, 12)
  {
  }

  /** Each of the base vertices `0 .. 5` is a corner of five base cells. */
  lemma BaseCornerCountsLow()
    ensures forall v :: 0 <= v < 6 ==> CornerCount20(BASE_CELLS, v) == 5
  {
  }

  /** Each of the base vertices `6 .. 11` is a corner of five base cells. */
  lemma BaseCornerCountsHigh()
    ensures forall v :: 6 <= v < 12 ==> CornerCount20(BASE_CELLS, v) == 5
  {
  }

  lemma BaseCornerCounts()
    ensures forall v :: 0 <= v < 12 ==> CornerCount20(BASE_CELLS, v) == 5
  {
    BaseCornerCountsLow();
    BaseCornerCountsHigh();
  }

  /** Every one of the twelve base vertices lies on exactly five cells. */
  lemma BaseDegrees()
    ensures forall v :: 0 <= v < 12 ==> |Incident(BASE_CELLS, v)| == 5
  {
    BaseCornerCounts();
    forall v | 0 <= v < 12 ensures |Incident(BASE_CELLS, v)| == 5 {
      CornerCountUnrolled20(BASE_CELLS, v);
    }
  }
}
