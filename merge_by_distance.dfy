/** `Mesh::merge_by_distance` (merge_by_distance.rs): seed-anchored
    clustering of the vertices by position, followed by remapping the
    triangles and dropping those that collapse.

    The kd-tree radius query is modelled as a linear filter over the vertex
    positions (`Within`); the pending map `tree_verts` and `index_map` are
    Dafny maps. */
module Merging {
  import opened Wrappers
  import opened Vertex
  import opened Meshes

  /** The distance the spatial query measures: `within_unsorted` is generic
      over it, and merge_by_distance.rs asks for `SquaredEuclidean`. */
  type Metric = (Vec3, Vec3) -> int

  /** The radius test of the query: vertex k lies within the radius around
      the position of vertex s (squared distances against r2 = distance²). */
  predicate Near(ps: seq<Vec3>, d: Metric, r2: int, s: int, k: int)
  {
    0 <= s < |ps| && 0 <= k < |ps| && d(ps[s], ps[k]) <= r2
  }

  /** The position of every vertex, in vertex order. */
  function Positions<V>(verts: seq<V>, pos: V -> Vec3): (ps: seq<Vec3>)
    ensures |ps| == |verts|
    ensures forall k :: 0 <= k < |verts| ==> ps[k] == pos(verts[k])
  {
    seq(|verts|, k requires 0 <= k < |verts| => pos(verts[k]))
  }

  /** The indices from i on of the points within the radius around q, in
      ascending order. */
  function WithinFrom(ps: seq<Vec3>, q: Vec3, d: Metric, r2: int, i: nat): (r: seq<int>)
    requires i <= |ps|
    ensures forall k :: k in r <==> i <= k < |ps| && d(q, ps[k]) <= r2
    decreases |ps| - i
  {
    if i == |ps| then []
    else (if d(q, ps[i]) <= r2 then [i] else []) + WithinFrom(ps, q, d, r2, i + 1)
  }

  /** `within_unsorted`: the indices of all points within the radius around
      q (listed in ascending order; the source promises no order). */
  function Within(ps: seq<Vec3>, q: Vec3, d: Metric, r2: int): (r: seq<int>)
    ensures forall k :: k in r <==> 0 <= k < |ps| && d(q, ps[k]) <= r2
  {
    WithinFrom(ps, q, d, r2, 0)
  }

  // ---------------------------------------------------------------------
  // Reference definition: the clustering in vertex order

  /** The seeds in the order they are taken, and for every vertex the
      output slot it is given. */
  datatype Clustering = Clustering(seeds: seq<int>, slot: seq<int>)

  /** Position in `seeds` of the first seed from position i on that is
      near vertex k, if any. */
  function FirstNearFrom(ps: seq<Vec3>, d: Metric, r2: int, seeds: seq<int>, k: int, i: nat): (r: Option<int>)
    requires i <= |seeds|
    ensures r.Some? ==> i <= r.value < |seeds| && Near(ps, d, r2, seeds[r.value], k)
    ensures r.Some? ==> forall j :: i <= j < r.value ==> !Near(ps, d, r2, seeds[j], k)
    ensures r.None? ==> forall j :: i <= j < |seeds| ==> !Near(ps, d, r2, seeds[j], k)
    decreases |seeds| - i
  {
    if i == |seeds| then None
    else if Near(ps, d, r2, seeds[i], k) then Some(i)
    else FirstNearFrom(ps, d, r2, seeds, k, i + 1)
  }

  /** Position in `seeds` of the first seed near vertex k, if any. */
  function FirstNear(ps: seq<Vec3>, d: Metric, r2: int, seeds: seq<int>, k: int): (r: Option<int>)
    ensures r.Some? ==> 0 <= r.value < |seeds| && Near(ps, d, r2, seeds[r.value], k)
    ensures r.Some? ==> forall j :: 0 <= j < r.value ==> !Near(ps, d, r2, seeds[j], k)
    ensures r.None? ==> forall j :: 0 <= j < |seeds| ==> !Near(ps, d, r2, seeds[j], k)
  {
    FirstNearFrom(ps, d, r2, seeds, k, 0)
  }

  /** The seeds among the first n vertices: a vertex becomes a seed when no
      earlier seed lies within the radius around it. */
  function SeedsUpTo(ps: seq<Vec3>, d: Metric, r2: int, n: nat): (s: seq<int>)
    requires n <= |ps|
    ensures |s| <= n
    ensures forall j :: 0 <= j < |s| ==> 0 <= s[j] < n
  {
    if n == 0 then []
    else
      var s := SeedsUpTo(ps, d, r2, n - 1);
      if FirstNear(ps, d, r2, s, n - 1).None? then s + [n - 1] else s
  }

  /** The slot of vertex k: the earliest seed before k near it, or the next
      seed number when k becomes a seed itself. */
  function SlotOf(ps: seq<Vec3>, d: Metric, r2: int, k: int): (r: int)
    requires 0 <= k < |ps|
    ensures 0 <= r <= |SeedsUpTo(ps, d, r2, k)|
  {
    match FirstNear(ps, d, r2, SeedsUpTo(ps, d, r2, k), k)
    case Some(j) => j
    case None => |SeedsUpTo(ps, d, r2, k)|
  }

  /** The clustering of all vertices. */
  function Cluster(ps: seq<Vec3>, d: Metric, r2: int): (c: Clustering)
    ensures |c.slot| == |ps| && |c.seeds| <= |ps|
    ensures forall j :: 0 <= j < |c.seeds| ==> 0 <= c.seeds[j] < |ps|
    ensures forall k :: 0 <= k < |ps| ==> c.slot[k] == SlotOf(ps, d, r2, k)
  {
    Clustering(SeedsUpTo(ps, d, r2, |ps|), seq(|ps|, k requires 0 <= k < |ps| => SlotOf(ps, d, r2, k)))
  }

  /** One more vertex appends itself to the seeds exactly when no earlier
      seed is near it. */
  lemma SeedsStep(ps: seq<Vec3>, d: Metric, r2: int, n: nat)
    requires n < |ps|
    ensures FirstNear(ps, d, r2, SeedsUpTo(ps, d, r2, n), n).None? ==> SeedsUpTo(ps, d, r2, n + 1) == SeedsUpTo(ps, d, r2, n) + [n]
    ensures FirstNear(ps, d, r2, SeedsUpTo(ps, d, r2, n), n).Some? ==> SeedsUpTo(ps, d, r2, n + 1) == SeedsUpTo(ps, d, r2, n)
  {
  }

  /** Looking at more vertices only appends seeds, and the appended ones
      come at or after m. */
  lemma {:induction false} SeedsExtend(ps: seq<Vec3>, d: Metric, r2: int, m: nat, n: nat)
    requires m <= n <= |ps|
    ensures SeedsUpTo(ps, d, r2, m) <= SeedsUpTo(ps, d, r2, n)
    ensures forall j :: |SeedsUpTo(ps, d, r2, m)| <= j < |SeedsUpTo(ps, d, r2, n)| ==> SeedsUpTo(ps, d, r2, n)[j] >= m
    decreases n
  {
    if m < n {
      SeedsExtend(ps, d, r2, m, n - 1);
      SeedsStep(ps, d, r2, n - 1);
    }
  }

  /** What the final clustering says about vertex k is decided when k is
      reached: with sk the seeds before k, the final seeds start with sk,
      k becomes the next seed exactly when no seed of sk is near it, and
      every later seed comes after k. */
  lemma VertexStep(ps: seq<Vec3>, d: Metric, r2: int, k: int)
    requires 0 <= k < |ps|
    ensures var s, sk := Cluster(ps, d, r2).seeds, SeedsUpTo(ps, d, r2, k);
      && |sk| <= |s|
      && (forall j :: 0 <= j < |sk| ==> s[j] == sk[j] < k)
      && (forall j :: |sk| < j < |s| ==> s[j] > k)
      && (FirstNear(ps, d, r2, sk, k).None? <==> |sk| < |s| && s[|sk|] == k)
  {
    SeedsExtend(ps, d, r2, k, |ps|);
    SeedsExtend(ps, d, r2, k + 1, |ps|);
    var sk := SeedsUpTo(ps, d, r2, k);
    if FirstNear(ps, d, r2, sk, k).None? {
      assert SeedsUpTo(ps, d, r2, k + 1) == sk + [k];
    } else {
      assert SeedsUpTo(ps, d, r2, k + 1) == sk;
    }
  }

  /** Seed j was taken when vertex seeds[j] was reached, as seed number j. */
  lemma SeedOwnsSlot(ps: seq<Vec3>, d: Metric, r2: int, j: int)
    requires 0 <= j < |Cluster(ps, d, r2).seeds|
    ensures var c := Cluster(ps, d, r2);
      && |SeedsUpTo(ps, d, r2, c.seeds[j])| == j
      && FirstNear(ps, d, r2, SeedsUpTo(ps, d, r2, c.seeds[j]), c.seeds[j]).None?
      && c.slot[c.seeds[j]] == j
  {
    VertexStep(ps, d, r2, Cluster(ps, d, r2).seeds[j]);
  }

  /** Seeds are taken in strictly increasing index order; seed j owns slot j. */
  lemma SeedsIncrease(ps: seq<Vec3>, d: Metric, r2: int, j: int, j': int)
    requires 0 <= j < |Cluster(ps, d, r2).seeds| && 0 <= j' < |Cluster(ps, d, r2).seeds|
    ensures Cluster(ps, d, r2).slot[Cluster(ps, d, r2).seeds[j]] == j
    ensures j < j' <==> Cluster(ps, d, r2).seeds[j] < Cluster(ps, d, r2).seeds[j']
  {
    var c := Cluster(ps, d, r2);
    SeedOwnsSlot(ps, d, r2, j);
    SeedOwnsSlot(ps, d, r2, j');
    VertexStep(ps, d, r2, c.seeds[j]);
    VertexStep(ps, d, r2, c.seeds[j']);
  }

  /** Every vertex has a slot among the seeds, owned by a seed at or before it. */
  lemma SlotOfVertex(ps: seq<Vec3>, d: Metric, r2: int, k: int)
    requires 0 <= k < |ps|
    ensures 0 <= Cluster(ps, d, r2).slot[k] < |Cluster(ps, d, r2).seeds|
    ensures Cluster(ps, d, r2).seeds[Cluster(ps, d, r2).slot[k]] <= k
  {
    VertexStep(ps, d, r2, k);
  }

  /** A vertex that is not a seed is within the radius of its seed, and of
      no earlier seed: its seed is the earliest one near it. */
  lemma SlotIsEarliestNearSeed(ps: seq<Vec3>, d: Metric, r2: int, k: int)
    requires 0 <= k < |ps|
    ensures 0 <= Cluster(ps, d, r2).slot[k] < |Cluster(ps, d, r2).seeds|
    ensures var c := Cluster(ps, d, r2);
      c.seeds[c.slot[k]] < k ==> Near(ps, d, r2, c.seeds[c.slot[k]], k)
    ensures var c := Cluster(ps, d, r2);
      forall j :: 0 <= j < |c.seeds| && c.seeds[j] < k && Near(ps, d, r2, c.seeds[j], k) ==> c.slot[k] <= j
  {
    VertexStep(ps, d, r2, k);
  }

  /** A vertex is a seed exactly when no earlier seed is within the radius. */
  lemma SeedIffNoEarlierNearSeed(ps: seq<Vec3>, d: Metric, r2: int, k: int)
    requires 0 <= k < |ps|
    ensures 0 <= Cluster(ps, d, r2).slot[k] < |Cluster(ps, d, r2).seeds|
    ensures var c := Cluster(ps, d, r2);
      c.seeds[c.slot[k]] == k <==> forall j :: 0 <= j < |c.seeds| && c.seeds[j] < k ==> !Near(ps, d, r2, c.seeds[j], k)
  {
    var c := Cluster(ps, d, r2);
    SlotIsEarliestNearSeed(ps, d, r2, k);
    SlotOfVertex(ps, d, r2, k);
    if c.seeds[c.slot[k]] != k {
      assert c.seeds[c.slot[k]] < k && Near(ps, d, r2, c.seeds[c.slot[k]], k);
    } else {
      forall j | 0 <= j < |c.seeds| && c.seeds[j] < k
        ensures !Near(ps, d, r2, c.seeds[j], k)
      {
        if Near(ps, d, r2, c.seeds[j], k) {
          SeedsIncrease(ps, d, r2, j, c.slot[k]);
        }
      }
    }
  }

  /** Every vertex before seed t is given a slot before t. */
  lemma BeforeSeed(ps: seq<Vec3>, d: Metric, r2: int, t: int, k: int)
    requires 0 <= t < |Cluster(ps, d, r2).seeds| && 0 <= k < Cluster(ps, d, r2).seeds[t]
    ensures Cluster(ps, d, r2).slot[k] < t
  {
    SlotOfVertex(ps, d, r2, k);
    SeedsIncrease(ps, d, r2, Cluster(ps, d, r2).slot[k], t);
  }

  /** While seed t absorbs, a still-pending vertex other than the seed is in
      the radius of the seed exactly when its slot is t. */
  lemma AbsorbedBySeed(ps: seq<Vec3>, d: Metric, r2: int, t: int, k: int)
    requires 0 <= t < |Cluster(ps, d, r2).seeds| && 0 <= k < |ps|
    requires Cluster(ps, d, r2).slot[k] >= t && k != Cluster(ps, d, r2).seeds[t]
    ensures Near(ps, d, r2, Cluster(ps, d, r2).seeds[t], k) <==> Cluster(ps, d, r2).slot[k] == t
  {
    var c := Cluster(ps, d, r2);
    SlotIsEarliestNearSeed(ps, d, r2, k);
    SlotOfVertex(ps, d, r2, k);
    if k < c.seeds[t] {
      BeforeSeed(ps, d, r2, t, k);
    }
  }

  // ---------------------------------------------------------------------
  // Remapping the triangles (merge_by_distance.rs line 44)

  /** Every corner of every triangle has an entry in the index map. */
  predicate Remappable(tris: seq<seq<nat>>, index: map<int, int>)
  {
    forall k :: 0 <= k < |tris| ==> |tris[k]| == 3 && forall c :: 0 <= c < 3 ==> tris[k][c] in index && index[tris[k][c]] >= 0
  }

  /** `t.map(|i| index_map[&i])` */
  function Remap(t: seq<nat>, index: map<int, int>): (r: seq<nat>)
    requires |t| == 3 && forall c :: 0 <= c < 3 ==> t[c] in index && index[t[c]] >= 0
    ensures |r| == 3 && forall c :: 0 <= c < 3 ==> r[c] == index[t[c]]
  {
    [index[t[0]], index[t[1]], index[t[2]]]
  }

  /** The three corners are pairwise distinct. */
  predicate Distinct3(t: seq<nat>)
    requires |t| == 3
  {
    t[0] != t[1] && t[1] != t[2] && t[2] != t[0]
  }

  /** The remapped triangles, in order, keeping exactly the ones whose
      corners stay pairwise distinct. */
  function RemapFilter(tris: seq<seq<nat>>, index: map<int, int>): (r: seq<seq<nat>>)
    requires Remappable(tris, index)
    ensures |r| <= |tris|
    ensures forall k :: 0 <= k < |r| ==> |r[k]| == 3 && Distinct3(r[k])
  {
    if tris == [] then []
    else
      var n := |tris| - 1;
      var t := Remap(tris[n], index);
      RemapFilter(tris[..n], index) + (if Distinct3(t) then [t] else [])
  }

  /** A triangle is kept when its remapped corners are distinct, and every
      kept triangle is the remap of an input triangle. */
  lemma {:induction false} RemapFilterExactly(tris: seq<seq<nat>>, index: map<int, int>)
    requires Remappable(tris, index)
    ensures forall k :: 0 <= k < |tris| && Distinct3(Remap(tris[k], index)) ==> Remap(tris[k], index) in RemapFilter(tris, index)
    ensures forall t :: t in RemapFilter(tris, index) ==> exists k :: 0 <= k < |tris| && t == Remap(tris[k], index)
    decreases |tris|
  {
    if tris != [] {
      var n := |tris| - 1;
      RemapFilterExactly(tris[..n], index);
      assert forall k :: 0 <= k < n ==> tris[..n][k] == tris[k];
    }
  }

  /** The positions of the input triangles whose remapped corners stay
      distinct, in increasing order. */
  function KeptIndices(tris: seq<seq<nat>>, index: map<int, int>): (ks: seq<nat>)
    requires Remappable(tris, index)
    ensures forall j :: 0 <= j < |ks| ==> ks[j] < |tris|
    ensures forall i, j :: 0 <= i < j < |ks| ==> ks[i] < ks[j]
    ensures forall k :: 0 <= k < |tris| ==> (k in ks <==> Distinct3(Remap(tris[k], index)))
  {
    if tris == [] then []
    else
      var n := |tris| - 1;
      assert forall k :: 0 <= k < n ==> tris[..n][k] == tris[k];
      KeptIndices(tris[..n], index) + (if Distinct3(Remap(tris[n], index)) then [n] else [])
  }

  /** The kept triangles are, in input order and once each, the remaps of
      the triangles at `KeptIndices`. */
  lemma {:induction false} RemapFilterInOrder(tris: seq<seq<nat>>, index: map<int, int>)
    requires Remappable(tris, index)
    ensures |RemapFilter(tris, index)| == |KeptIndices(tris, index)|
    ensures forall j :: 0 <= j < |KeptIndices(tris, index)| ==>
      RemapFilter(tris, index)[j] == Remap(tris[KeptIndices(tris, index)[j]], index)
    decreases |tris|
  {
    if tris != [] {
      var n := |tris| - 1;
      var init := tris[..n];
      RemapFilterInOrder(init, index);
      var rf, ki := RemapFilter(init, index), KeptIndices(init, index);
      var t := Remap(tris[n], index);
      assert RemapFilter(tris, index) == rf + (if Distinct3(t) then [t] else []);
      assert KeptIndices(tris, index) == ki + (if Distinct3(t) then [n] else []);
      forall j | 0 <= j < |ki|
        ensures rf[j] == Remap(tris[ki[j]], index)
      {
        assert init[ki[j]] == tris[ki[j]];
      }
    }
  }

  /** Remapped corners are values of the index map, so they stay below any
      bound of those values. */
  lemma {:induction false} RemapFilterBounded(tris: seq<seq<nat>>, index: map<int, int>, bound: int)
    requires Remappable(tris, index)
    requires forall i :: i in index ==> index[i] < bound
    ensures forall k, c :: 0 <= k < |RemapFilter(tris, index)| && 0 <= c < 3 ==> RemapFilter(tris, index)[k][c] < bound
    decreases |tris|
  {
    if tris != [] {
      RemapFilterBounded(tris[..|tris| - 1], index, bound);
    }
  }

  /** Through the identity map, triangles with distinct corners come back
      unchanged. */
  lemma {:induction false} RemapFilterIdentity(tris: seq<seq<nat>>, index: map<int, int>)
    requires Remappable(tris, index)
    requires forall k, c :: 0 <= k < |tris| && 0 <= c < 3 ==> index[tris[k][c]] == tris[k][c]
    requires forall k :: 0 <= k < |tris| ==> Distinct3(tris[k])
    ensures RemapFilter(tris, index) == tris
    decreases |tris|
  {
    if tris != [] {
      var n := |tris| - 1;
      RemapFilterIdentity(tris[..n], index);
      assert Remap(tris[n], index) == tris[n];
    }
  }

  // ---------------------------------------------------------------------
  // The merged mesh

  /** `index_map` once every vertex has been assigned. */
  function SlotMap(slot: seq<int>): (index: map<int, int>)
    ensures forall k :: k in index <==> 0 <= k < |slot|
    ensures forall k :: 0 <= k < |slot| ==> index[k] == slot[k]
  {
    map k | 0 <= k < |slot| :: slot[k]
  }

  /** Every vertex has a slot, so every corner can be remapped. */
  lemma SlotsRemappable<V>(m: Mesh<V>, ps: seq<Vec3>, d: Metric, r2: int)
    requires Valid(m) && |ps| == |m.verts|
    ensures Remappable(m.tris, SlotMap(Cluster(ps, d, r2).slot))
  {
    var c := Cluster(ps, d, r2);
    forall k, i | 0 <= k < |m.tris| && 0 <= i < 3
      ensures m.tris[k][i] in SlotMap(c.slot) && SlotMap(c.slot)[m.tris[k][i]] >= 0
    {
      SlotOfVertex(ps, d, r2, m.tris[k][i]);
    }
  }

  /** The merged mesh under metric d and radius r2: vertex j is the value of
      seed j; the triangles are remapped through the slots and filtered. */
  function MergedWith<V>(m: Mesh<V>, pos: V -> Vec3, d: Metric, r2: int): (r: Mesh<V>)
    requires Valid(m)
    ensures |r.verts| <= |m.verts| && |r.tris| <= |m.tris|
    ensures forall k :: 0 <= k < |r.tris| ==> |r.tris[k]| == 3 && Distinct3(r.tris[k])
  {
    var ps := Positions(m.verts, pos);
    var c := Cluster(ps, d, r2);
    SlotsRemappable(m, ps, d, r2);
    Mesh(seq(|c.seeds|, j requires 0 <= j < |c.seeds| => m.verts[c.seeds[j]]),
         RemapFilter(m.tris, SlotMap(c.slot)))
  }

  /** `merge_by_distance`: the squared Euclidean metric against distance². */
  function Merged<V>(m: Mesh<V>, pos: V -> Vec3, distance: int): (r: Mesh<V>)
    requires Valid(m)
    ensures |r.verts| <= |m.verts| && |r.tris| <= |m.tris|
    ensures forall k :: 0 <= k < |r.tris| ==> |r.tris[k]| == 3 && Distinct3(r.tris[k])
  {
    MergedWith(m, pos, SqrDist, distance * distance)
  }

  /** At most as many output vertices as input vertices, vertex j the value
      of the j-th seed. */
  lemma MergedVertices<V>(m: Mesh<V>, pos: V -> Vec3, d: Metric, r2: int)
    requires Valid(m)
    ensures var c := Cluster(Positions(m.verts, pos), d, r2);
      && |MergedWith(m, pos, d, r2).verts| == |c.seeds| <= |m.verts|
      && forall j :: 0 <= j < |c.seeds| ==> MergedWith(m, pos, d, r2).verts[j] == m.verts[c.seeds[j]]
  {
  }

  /** The merged mesh is well formed and no triangle has a repeated index. */
  lemma MergedValid<V>(m: Mesh<V>, pos: V -> Vec3, d: Metric, r2: int)
    requires Valid(m)
    ensures Valid(MergedWith(m, pos, d, r2))
    ensures forall k :: 0 <= k < |MergedWith(m, pos, d, r2).tris| ==> Distinct3(MergedWith(m, pos, d, r2).tris[k])
  {
    var ps := Positions(m.verts, pos);
    var c := Cluster(ps, d, r2);
    SlotsRemappable(m, ps, d, r2);
    forall i | i in SlotMap(c.slot)
      ensures SlotMap(c.slot)[i] < |c.seeds|
    {
      SlotOfVertex(ps, d, r2, i);
    }
    RemapFilterBounded(m.tris, SlotMap(c.slot), |c.seeds|);
  }

  // ---------------------------------------------------------------------
  // The seed loop

  /** Once seeds 0 .. t-1 have absorbed their clusters, exactly the
      vertices of slot t or later are still pending in `tree_verts`, each
      with its value. */
  ghost predicate PendingFrom<V>(verts: seq<V>, ps: seq<Vec3>, d: Metric, r2: int, t: int, treeVerts: map<int, V>)
    requires |ps| == |verts|
  {
    && (forall k :: k in treeVerts <==> 0 <= k < |ps| && Cluster(ps, d, r2).slot[k] >= t)
    && (forall k :: 0 <= k < |ps| && k in treeVerts ==> treeVerts[k] == verts[k])
  }

  /** Once seeds 0 .. t-1 have absorbed their clusters, `index_map` sends
      exactly the vertices of an earlier slot to their slot. */
  ghost predicate AssignedBefore(ps: seq<Vec3>, d: Metric, r2: int, t: int, indexMap: map<int, int>)
  {
    && (forall k :: k in indexMap <==> 0 <= k < |ps| && Cluster(ps, d, r2).slot[k] < t)
    && (forall k :: 0 <= k < |ps| && k in indexMap ==> indexMap[k] == Cluster(ps, d, r2).slot[k])
  }

  /** In round t, the pending neighbours of seed t are exactly the pending
      vertices of slot t other than the seed. */
  lemma RoundNeighbours(ps: seq<Vec3>, d: Metric, r2: int, t: int, nb: seq<int>)
    requires 0 <= t < |Cluster(ps, d, r2).seeds|
    requires forall k :: k in nb <==> 0 <= k < |ps| && d(ps[Cluster(ps, d, r2).seeds[t]], ps[k]) <= r2
    ensures Cluster(ps, d, r2).slot[Cluster(ps, d, r2).seeds[t]] == t
    ensures forall k :: 0 <= k < |ps| && Cluster(ps, d, r2).slot[k] >= t && k != Cluster(ps, d, r2).seeds[t] ==>
      (k in nb <==> Cluster(ps, d, r2).slot[k] == t)
  {
    var c := Cluster(ps, d, r2);
    SeedOwnsSlot(ps, d, r2, t);
    forall k | 0 <= k < |ps| && c.slot[k] >= t && k != c.seeds[t]
      ensures k in nb <==> c.slot[k] == t
    {
      AbsorbedBySeed(ps, d, r2, t, k);
    }
  }

  /** One round of the seed loop on `tree_verts`: when seed t and its
      pending neighbours leave, what remains is exactly slot t + 1 and
      later. */
  lemma PendingRound<V>(verts: seq<V>, ps: seq<Vec3>, d: Metric, r2: int, t: int,
                        treeVerts: map<int, V>, nb: seq<int>, tv: map<int, V>)
    requires |ps| == |verts| && 0 <= t < |Cluster(ps, d, r2).seeds|
    requires PendingFrom(verts, ps, d, r2, t, treeVerts)
    requires forall k :: k in nb <==> 0 <= k < |ps| && d(ps[Cluster(ps, d, r2).seeds[t]], ps[k]) <= r2
    requires forall k :: k in tv <==> k in treeVerts && k != Cluster(ps, d, r2).seeds[t] && k !in nb
    requires forall k :: k in tv ==> tv[k] == treeVerts[k]
    ensures PendingFrom(verts, ps, d, r2, t + 1, tv)
  {
    var c := Cluster(ps, d, r2);
    RoundNeighbours(ps, d, r2, t, nb);
    forall k
      ensures k in tv <==> 0 <= k < |ps| && c.slot[k] >= t + 1
    {
      if k in tv {
        assert k in treeVerts && k != c.seeds[t] && k !in nb;
      }
    }
  }

  /** One round of the seed loop on `index_map`: when seed t and its
      pending neighbours are sent to slot t, exactly the slots before t + 1
      are assigned. */
  lemma AssignedRound<V>(verts: seq<V>, ps: seq<Vec3>, d: Metric, r2: int, t: int,
                         treeVerts: map<int, V>, indexMap: map<int, int>, nb: seq<int>, im: map<int, int>)
    requires |ps| == |verts| && 0 <= t < |Cluster(ps, d, r2).seeds|
    requires PendingFrom(verts, ps, d, r2, t, treeVerts) && AssignedBefore(ps, d, r2, t, indexMap)
    requires forall k :: k in nb <==> 0 <= k < |ps| && d(ps[Cluster(ps, d, r2).seeds[t]], ps[k]) <= r2
    requires forall k :: k in im <==> k in indexMap || k == Cluster(ps, d, r2).seeds[t] || (k in nb && k in treeVerts)
    requires forall k :: k in im ==> im[k] == if k == Cluster(ps, d, r2).seeds[t] || (k in nb && k in treeVerts) then t else indexMap[k]
    ensures AssignedBefore(ps, d, r2, t + 1, im)
  {
    var c := Cluster(ps, d, r2);
    RoundNeighbours(ps, d, r2, t, nb);
    forall k
      ensures k in im <==> 0 <= k < |ps| && c.slot[k] < t + 1
    {
      if k in im && k !in indexMap && k != c.seeds[t] {
        assert k in nb && k in treeVerts;
      }
    }
    forall k | 0 <= k < |ps| && k in im
      ensures im[k] == c.slot[k]
    {
      if k in nb && k in treeVerts && k != c.seeds[t] {
        assert c.slot[k] == t;
      }
    }
  }

  /** A map that is not empty has a key. */
  lemma SomeKey<K, V>(m: map<K, V>) returns (k: K)
    requires |m| != 0
    ensures k in m
  {
    if forall k' :: k' !in m {
      assert false;
    }
    k :| k in m;
  }

  /** `while !tree_verts.contains_key(&i) {i += 1}`: the first pending
      vertex from i on (one exists at or before `bound`). */
  method NextPending<V>(treeVerts: map<int, V>, i: int, ghost bound: int) returns (r: int)
    requires i <= bound && bound in treeVerts
    ensures i <= r <= bound && r in treeVerts
    ensures forall k :: i <= k < r ==> k !in treeVerts
  {
    r := i;
    while r !in treeVerts
      invariant i <= r <= bound
      invariant forall k :: i <= k < r ==> k !in treeVerts
      decreases bound - r
    {
      r := r + 1;
    }
  }

  /** One pass of the seed loop after the search (lines 31-40): vertex i
      leaves `tree_verts` as output vertex j, and so does every neighbour
      within the radius around it that is still pending. */
  method TakeSeed<V>(tree: seq<Vec3>, pos: V -> Vec3, d: Metric, r2: int,
                     treeVerts: map<int, V>, indexMap: map<int, int>, i: int, j: int)
    returns (v: V, tv: map<int, V>, im: map<int, int>)
    requires i in treeVerts
    ensures v == treeVerts[i]
    ensures forall k :: k in tv <==> k in treeVerts && k != i && k !in Within(tree, pos(v), d, r2)
    ensures forall k :: k in tv ==> tv[k] == treeVerts[k]
    ensures forall k :: k in im <==> k in indexMap || k == i || (k in Within(tree, pos(v), d, r2) && k in treeVerts)
    ensures forall k :: k in im ==>
      im[k] == if k == i || (k in Within(tree, pos(v), d, r2) && k in treeVerts) then j else indexMap[k]
  {
    v := treeVerts[i];
    tv := treeVerts - {i};
    im := indexMap[i := j];
    var nb := Within(tree, pos(v), d, r2);
    ghost var seen: set<int> := {};
    for idx := 0 to |nb|
      invariant forall p :: 0 <= p < idx ==> nb[p] in seen
      invariant forall k :: k in seen ==> k in nb
      invariant forall k :: k in tv <==> k in treeVerts && k != i && k !in seen
      invariant forall k :: k in tv ==> tv[k] == treeVerts[k]
      invariant forall k :: k in im <==> k in indexMap || k == i || (k in seen && k in treeVerts)
      invariant forall k :: k in im ==> im[k] == if k == i || (k in seen && k in treeVerts) then j else indexMap[k]
    {
      var k := nb[idx];
      if k in tv {
        tv := tv - {k};
        im := im[k := j];
      }
      seen := seen + {k};
    }
    forall k | k in nb
      ensures k in seen
    {
      var p :| 0 <= p < |nb| && nb[p] == k;
    }
  }

  /** The first loop of `merge_by_distance` (lines 18-21): the positions
      go into the tree, and every vertex is pending under its index. */
  method BuildTree<V>(verts: seq<V>, pos: V -> Vec3) returns (tree: seq<Vec3>, treeVerts: map<int, V>)
    ensures tree == Positions(verts, pos)
    ensures forall k :: k in treeVerts <==> 0 <= k < |verts|
    ensures forall k :: 0 <= k < |verts| ==> treeVerts[k] == verts[k]
  {
    tree, treeVerts := [], map[];
    for i := 0 to |verts|
      invariant |tree| == i && forall k :: 0 <= k < i ==> tree[k] == pos(verts[k])
      invariant forall k :: k in treeVerts <==> 0 <= k < i
      invariant forall k :: 0 <= k < i ==> treeVerts[k] == verts[k]
    {
      tree := tree + [pos(verts[i])];
      treeVerts := treeVerts[i := verts[i]];
    }
  }

  /** The invariant of the seed loop: the output vertices so far are the
      values of the first seeds, the pending and assigned vertices are split
      at the next slot, and the search index has not passed the next seed. */
  ghost predicate SeedLoop<V>(verts: seq<V>, ps: seq<Vec3>, d: Metric, r2: int,
                              i: int, treeVerts: map<int, V>, out: seq<V>, indexMap: map<int, int>)
    requires |ps| == |verts|
  {
    var c := Cluster(ps, d, r2);
    && |out| <= |c.seeds|
    && (forall j :: 0 <= j < |out| ==> out[j] == verts[c.seeds[j]])
    && PendingFrom(verts, ps, d, r2, |out|, treeVerts)
    && AssignedBefore(ps, d, r2, |out|, indexMap)
    && 0 <= i && (|out| < |c.seeds| ==> i <= c.seeds[|out|])
  }

  /** One pass of the seed loop keeps its invariant: seed t is output,
      and its cluster leaves `tree_verts` for slot t. */
  lemma PassKeepsLoop<V>(verts: seq<V>, pos: V -> Vec3, d: Metric, r2: int, tree: seq<Vec3>,
                         treeVerts: map<int, V>, out: seq<V>, indexMap: map<int, int>,
                         v: V, tv: map<int, V>, im: map<int, int>)
    requires tree == Positions(verts, pos)
    requires |out| < |Cluster(tree, d, r2).seeds|
    requires SeedLoop(verts, tree, d, r2, 0, treeVerts, out, indexMap)
    requires var s := Cluster(tree, d, r2).seeds[|out|];
      && s in treeVerts && v == treeVerts[s]
      && (forall k :: k in tv <==> k in treeVerts && k != s && k !in Within(tree, pos(v), d, r2))
      && (forall k :: k in tv ==> tv[k] == treeVerts[k])
      && (forall k :: k in im <==> k in indexMap || k == s || (k in Within(tree, pos(v), d, r2) && k in treeVerts))
      && (forall k :: k in im ==> im[k] == if k == s || (k in Within(tree, pos(v), d, r2) && k in treeVerts) then |out| else indexMap[k])
    ensures SeedLoop(verts, tree, d, r2, Cluster(tree, d, r2).seeds[|out|], tv, out + [v], im)
  {
    var c := Cluster(tree, d, r2);
    var t := |out|;
    var s := c.seeds[t];
    var out' := out + [v];
    forall j | 0 <= j < |out'|
      ensures out'[j] == verts[c.seeds[j]]
    {
      if j < t {
        assert out'[j] == out[j];
      } else {
        assert j == t;
      }
    }
    assert pos(v) == tree[s];
    PendingRound(verts, tree, d, r2, t, treeVerts, Within(tree, pos(v), d, r2), tv);
    AssignedRound(verts, tree, d, r2, t, treeVerts, indexMap, Within(tree, pos(v), d, r2), im);
    if t + 1 < |c.seeds| {
      SeedsIncrease(tree, d, r2, t, t + 1);
      assert s < c.seeds[t + 1];
    }
  }

  /** One pass of the seed loop: the search finds the next seed, which
      becomes the next output vertex and takes its cluster with it. */
  method SeedPass<V>(verts: seq<V>, pos: V -> Vec3, d: Metric, r2: int, tree: seq<Vec3>,
                     i: int, treeVerts: map<int, V>, out: seq<V>, indexMap: map<int, int>)
    returns (i': int, treeVerts': map<int, V>, out': seq<V>, indexMap': map<int, int>)
    requires tree == Positions(verts, pos)
    requires SeedLoop(verts, tree, d, r2, i, treeVerts, out, indexMap) && |treeVerts| != 0
    ensures SeedLoop(verts, tree, d, r2, i', treeVerts', out', indexMap')
    ensures |out'| == |out| + 1
  {
    ghost var c := Cluster(tree, d, r2);
    ghost var t := |out|;
    ghost var k0 := SomeKey(treeVerts);
    SlotOfVertex(tree, d, r2, k0);
    SeedOwnsSlot(tree, d, r2, t);
    i' := NextPending(treeVerts, i, c.seeds[t]);
    if i' < c.seeds[t] {
      BeforeSeed(tree, d, r2, t, i');
      assert false;
    }
    var v;
    v, treeVerts', indexMap' := TakeSeed(tree, pos, d, r2, treeVerts, indexMap, i', |out|);
    out' := out + [v];
    PassKeepsLoop(verts, pos, d, r2, tree, treeVerts, out, indexMap, v, treeVerts', indexMap');
  }

  /** When nothing is pending, every seed has been output and every vertex
      is mapped to its slot. */
  lemma SeedLoopDone<V>(m: Mesh<V>, pos: V -> Vec3, d: Metric, r2: int,
                        i: int, treeVerts: map<int, V>, out: seq<V>, indexMap: map<int, int>)
    requires Valid(m)
    requires SeedLoop(m.verts, Positions(m.verts, pos), d, r2, i, treeVerts, out, indexMap) && |treeVerts| == 0
    ensures out == MergedWith(m, pos, d, r2).verts
    ensures indexMap == SlotMap(Cluster(Positions(m.verts, pos), d, r2).slot)
  {
    var ps := Positions(m.verts, pos);
    var c := Cluster(ps, d, r2);
    if |out| < |c.seeds| {
      SeedOwnsSlot(ps, d, r2, |out|);
      assert false;
    }
    forall k | 0 <= k < |ps|
      ensures k in indexMap
    {
      SlotOfVertex(ps, d, r2, k);
    }
  }

  /** The seed loop of `merge_by_distance`, for any metric. */
  method MergeWith<V>(m: Mesh<V>, pos: V -> Vec3, d: Metric, r2: int) returns (r: Mesh<V>)
    requires Valid(m)
    ensures r == MergedWith(m, pos, d, r2)
  {
    var tree, treeVerts := BuildTree(m.verts, pos);
    ghost var c := Cluster(tree, d, r2);
    forall k | 0 <= k < |m.verts|
      ensures c.slot[k] >= 0
    {
      SlotOfVertex(tree, d, r2, k);
    }
    var indexMap: map<int, int> := map[];
    var verts: seq<V> := [];
    var i := 0;
    while |treeVerts| != 0
      invariant SeedLoop(m.verts, tree, d, r2, i, treeVerts, verts, indexMap)
      decreases |c.seeds| - |verts|
    {
      i, treeVerts, verts, indexMap := SeedPass(m.verts, pos, d, r2, tree, i, treeVerts, verts, indexMap);
    }
    SeedLoopDone(m, pos, d, r2, i, treeVerts, verts, indexMap);
    SlotsRemappable(m, tree, d, r2);
    var tris := RemapFilter(m.tris, indexMap);
    r := Mesh(verts, tris);
  }

  /** `merge_by_distance`: the seed loop with the squared Euclidean metric
      and the squared distance as radius. */
  method MergeByDistance<V>(m: Mesh<V>, pos: V -> Vec3, distance: int) returns (r: Mesh<V>)
    requires Valid(m)
    ensures r == Merged(m, pos, distance)
  {
    r := MergeWith(m, pos, SqrDist, distance * distance);
  }
}
