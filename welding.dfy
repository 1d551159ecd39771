// The vertex-welding store of a polyhedron (`Polyhedron::add_position`,
// src/main.rs:198-214): the position list, the normal list that runs beside
// it, and the cache from quantised key to position index.

module Welding {
  import opened Geometry

  /** `index` names a stored position that has the same welding key as `p`. */
  ghost predicate Welded(positions: seq<Vec3>, index: nat, p: Vec3) {
    index < |positions| && Quantize(positions[index]) == Quantize(p)
  }

  /** `t` starts with all of `s`. */
  ghost predicate Extends<T>(s: seq<T>, t: seq<T>) {
    s <= t
  }

  /** The fields `positions`, `normals` and `added_vert_cache`. */
  datatype Store = Store(positions: seq<Vec3>, normals: seq<Vec3>, cache: map<VertexKey, nat>)
  {
    /** One normal per position, every normal still zero, and the cache an
        exact index of the positions: each stored position is cached under its
        own key, and each cached key points at a position with that key. In
        particular no two positions share a key. */
    ghost predicate WellFormed() {
      && |normals| == |positions|
      && (forall i :: 0 <= i < |normals| ==> normals[i] == ZERO)
      && (forall k :: k in cache ==> cache[k] < |positions| && Quantize(positions[cache[k]]) == k)
      && (forall i :: 0 <= i < |positions| ==> Quantize(positions[i]) in cache && cache[Quantize(positions[i])] == i)
    }
  }

  /** The store of `Polyhedron::new()`. */
  function EmptyStore(): (s: Store)
    ensures s.WellFormed() && |s.positions| == 0
  {
    Store([], [], map[])
  }

  /** `add_position`: a cache hit returns the cached index and changes
      nothing; a miss appends the position and a zero normal, caches the new
      index under the key and returns it. Either way the index returned names
      a position welded to `vertex`, and earlier positions keep their
      indices. */
  function Insert(s: Store, vertex: Vec3): (r: (Store, nat))
    requires s.WellFormed()
    ensures r.0.WellFormed()
    ensures Welded(r.0.positions, r.1, vertex)
    ensures Extends(s.positions, r.0.positions) && Extends(s.normals, r.0.normals)
    ensures Quantize(vertex) in s.cache ==> r.0 == s && r.1 == s.cache[Quantize(vertex)]
    ensures Quantize(vertex) !in s.cache ==>
              && r.0.positions == s.positions + [vertex]
              && r.0.normals == s.normals + [ZERO]
              && r.0.cache == s.cache[Quantize(vertex) := |s.positions|]
              && r.1 == |s.positions|
  {
    var key := Quantize(vertex);
    if key in s.cache then
      (s, s.cache[key])
    else
      var s' := Store(s.positions + [vertex], s.normals + [ZERO], s.cache[key := |s.positions|]);
      assert forall i :: 0 <= i < |s.positions| ==> Quantize(s'.positions[i]) != key;
      (s', |s.positions|)
  }

  /** A store grows by at most one position per insertion, and exactly when
      the key is new. */
  lemma InsertGrowth(s: Store, vertex: Vec3)
    requires s.WellFormed()
    ensures |Insert(s, vertex).0.positions| == |s.positions| + (if Quantize(vertex) in s.cache then 0 else 1)
  {
  }

  /** Welding: once a position is stored, any position with the same key
      resolves to the same index and leaves the store as it is. */
  lemma InsertWelds(s: Store, u: Vec3, v: Vec3)
    requires s.WellFormed()
    requires Quantize(u) == Quantize(v)
    ensures Insert(Insert(s, u).0, v) == Insert(s, u)
  {
  }

  /** In a well-formed store a key determines the index: two indices welded
      to positions with the same key are the same index. */
  lemma WeldedUnique(s: Store, i: nat, j: nat, p: Vec3)
    requires s.WellFormed()
    requires Welded(s.positions, i, p) && Welded(s.positions, j, p)
    ensures i == j
  {
    assert s.cache[Quantize(s.positions[i])] == i;
    assert s.cache[Quantize(s.positions[j])] == j;
  }

  /** Appending to the position list keeps every earlier welding fact. */
  lemma WeldedExtends(positions: seq<Vec3>, positions': seq<Vec3>, index: nat, p: Vec3)
    requires Welded(positions, index, p) && Extends(positions, positions')
    ensures Welded(positions', index, p)
  {
  }

  lemma ExtendsTrans<T>(s: seq<T>, t: seq<T>, u: seq<T>)
    requires Extends(s, t) && Extends(t, u)
    ensures Extends(s, u)
  {
  }

  /** Every position from index `n0` on is one of `points`. */
  ghost predicate AddedFrom(positions: seq<Vec3>, n0: nat, points: set<Vec3>) {
    forall j :: n0 <= j < |positions| ==> positions[j] in points
  }

  /** Positions appended after ones drawn from `points`, themselves drawn
      from `points`, keep every position from `n0` on in `points`. */
  lemma AddedFromGrow(positions: seq<Vec3>, positions': seq<Vec3>, n0: nat, points: set<Vec3>)
    requires AddedFrom(positions, n0, points) && Extends(positions, positions')
    requires AddedFrom(positions', |positions|, points)
    ensures AddedFrom(positions', n0, points)
  {
    forall j | n0 <= j < |positions'| ensures positions'[j] in points {
      if j < |positions| {
        assert positions'[j] == positions[j];
      }
    }
  }

  lemma AddedFromWiden(positions: seq<Vec3>, n0: nat, points: set<Vec3>, points': set<Vec3>)
    requires AddedFrom(positions, n0, points) && points <= points'
    ensures AddedFrom(positions, n0, points')
  {
  }

  /** `add_position` appends nothing but its own vertex: a store whose
      positions from `n0` on are drawn from `points` keeps that property when
      a point of `points` is inserted. */
  lemma InsertAddedFrom(s: Store, vertex: Vec3, n0: nat, points: set<Vec3>)
    requires s.WellFormed() && AddedFrom(s.positions, n0, points) && vertex in points
    ensures AddedFrom(Insert(s, vertex).0.positions, n0, points)
  {
    var s' := Insert(s, vertex).0;
    forall j | n0 <= j < |s'.positions| ensures s'.positions[j] in points {
      if j < |s.positions| {
        assert s'.positions[j] == s.positions[j];
      }
    }
  }

  /** Three insertions in a row, as `subdivide_triangle` makes for each
      cell, append nothing but their three points. */
  lemma InsertThreeAddedFrom(s: Store, pa: Vec3, pb: Vec3, pc: Vec3, n0: nat, points: set<Vec3>)
    requires s.WellFormed() && AddedFrom(s.positions, n0, points)
    requires pa in points && pb in points && pc in points
    ensures AddedFrom(Insert(Insert(Insert(s, pa).0, pb).0, pc).0.positions, n0, points)
  {
    InsertAddedFrom(s, pa, n0, points);
    InsertAddedFrom(Insert(s, pa).0, pb, n0, points);
    InsertAddedFrom(Insert(Insert(s, pa).0, pb).0, pc, n0, points);
  }

  /** Appending only `p` and `q`, both in `points`, keeps every position
      from `n0` on in `points`. */
  lemma AddedFromPair(positions: seq<Vec3>, positions': seq<Vec3>, p: Vec3, q: Vec3, n0: nat, points: set<Vec3>)
    requires AddedFrom(positions, n0, points) && Extends(positions, positions')
    requires forall j :: |positions| <= j < |positions'| ==> positions'[j] in {p, q}
    requires p in points && q in points
    ensures AddedFrom(positions', n0, points)
  {
    AddedFromGrow(positions, positions', n0, points);
  }
}
