/** Properties of `merge_by_distance` that relate several merges: merging
    twice is merging once, and three concrete point sets that show the
    seed-anchored policy at work. */
module MergeProperties {
  import opened Wrappers
  import opened Vertex
  import opened Meshes
  import opened Merging

  /** Points none of which is near a later one are all seeds. */
  lemma {:induction false} AllSeedsWhenFar(ps: seq<Vec3>, d: Metric, r2: int, n: nat)
    requires n <= |ps|
    requires forall i, j :: 0 <= i < j < |ps| ==> !Near(ps, d, r2, i, j)
    ensures SeedsUpTo(ps, d, r2, n) == seq(n, i => i)
  {
    if n > 0 {
      AllSeedsWhenFar(ps, d, r2, n - 1);
      var s := SeedsUpTo(ps, d, r2, n - 1);
      assert forall j :: 0 <= j < |s| ==> s[j] == j;
      assert FirstNear(ps, d, r2, s, n - 1).None?;
      SeedsStep(ps, d, r2, n - 1);
      assert SeedsUpTo(ps, d, r2, n) == s + [n - 1];
    }
  }

  /** When no point is near a later one, the clustering is the identity. */
  lemma ClusterIdentityWhenFar(ps: seq<Vec3>, d: Metric, r2: int)
    requires forall i, j :: 0 <= i < j < |ps| ==> !Near(ps, d, r2, i, j)
    ensures Cluster(ps, d, r2).seeds == seq(|ps|, i => i)
    ensures forall k :: 0 <= k < |ps| ==> Cluster(ps, d, r2).slot[k] == k
  {
    AllSeedsWhenFar(ps, d, r2, |ps|);
    forall k | 0 <= k < |ps|
      ensures Cluster(ps, d, r2).slot[k] == k
    {
      AllSeedsWhenFar(ps, d, r2, k);
      var s := SeedsUpTo(ps, d, r2, k);
      assert forall j :: 0 <= j < |s| ==> s[j] == j;
      assert FirstNear(ps, d, r2, s, k).None?;
    }
  }

  /** No seed is within the radius around an earlier seed. */
  lemma SeedsPairwiseFar(ps: seq<Vec3>, d: Metric, r2: int)
    ensures var s := Cluster(ps, d, r2).seeds;
      forall i, j :: 0 <= i < j < |s| ==> !Near(ps, d, r2, s[i], s[j])
  {
    var c := Cluster(ps, d, r2);
    forall i, j | 0 <= i < j < |c.seeds|
      ensures !Near(ps, d, r2, c.seeds[i], c.seeds[j])
    {
      SeedsIncrease(ps, d, r2, i, j);
      SeedsIncrease(ps, d, r2, j, i);
      SeedIffNoEarlierNearSeed(ps, d, r2, c.seeds[j]);
    }
  }

  /** The vertices of a merged mesh are seeds, so none is within the
      radius around an earlier one. */
  lemma MergedPositionsFar<V>(m: Mesh<V>, pos: V -> Vec3, d: Metric, r2: int)
    requires Valid(m)
    ensures var ps1 := Positions(MergedWith(m, pos, d, r2).verts, pos);
      forall i, j :: 0 <= i < j < |ps1| ==> !Near(ps1, d, r2, i, j)
  {
    MergedVertices(m, pos, d, r2);
    var ps := Positions(m.verts, pos);
    var c := Cluster(ps, d, r2);
    var ps1 := Positions(MergedWith(m, pos, d, r2).verts, pos);
    SeedsPairwiseFar(ps, d, r2);
    forall i, j | 0 <= i < j < |ps1|
      ensures !Near(ps1, d, r2, i, j)
    {
      assert ps1[i] == ps[c.seeds[i]] && ps1[j] == ps[c.seeds[j]];
      assert !Near(ps, d, r2, c.seeds[i], c.seeds[j]);
    }
  }

  /** Merging an already merged mesh again, with the same metric and
      radius, changes nothing: every surviving vertex is a seed, so the
      second pass keeps all of them and every triangle. */
  lemma MergeIdempotent<V>(m: Mesh<V>, pos: V -> Vec3, d: Metric, r2: int)
    requires Valid(m)
    ensures Valid(MergedWith(m, pos, d, r2))
    ensures MergedWith(MergedWith(m, pos, d, r2), pos, d, r2) == MergedWith(m, pos, d, r2)
  {
    var m1 := MergedWith(m, pos, d, r2);
    MergedValid(m, pos, d, r2);
    var ps1 := Positions(m1.verts, pos);
    MergedPositionsFar(m, pos, d, r2);
    ClusterIdentityWhenFar(ps1, d, r2);
    var c1 := Cluster(ps1, d, r2);
    SlotsRemappable(m1, ps1, d, r2);
    RemapFilterIdentity(m1.tris, SlotMap(c1.slot));
    var m2 := MergedWith(m1, pos, d, r2);
    assert m2.verts == m1.verts;
    assert m2.tris == m1.tris;
  }

  /** The same for `merge_by_distance` itself. */
  lemma MergeByDistanceIdempotent<V>(m: Mesh<V>, pos: V -> Vec3, distance: int)
    requires Valid(m)
    ensures Valid(Merged(m, pos, distance))
    ensures Merged(Merged(m, pos, distance), pos, distance) == Merged(m, pos, distance)
  {
    MergeIdempotent(m, pos, SqrDist, distance * distance);
  }

  // ---------------------------------------------------------------------
  // Concrete point sets (integer coordinates). Each is first worked out
  // for any metric with the right distances, then instantiated with the
  // squared Euclidean distance that `merge_by_distance` uses.

  /** The vertex positions themselves, for meshes of bare positions. */
  function Id(p: Vec3): Vec3 { p }

  /** A mesh of bare positions and no triangles. */
  function Cloud(ps: seq<Vec3>): (m: Mesh<Vec3>)
    ensures Valid(m) && m.verts == ps && Positions(m.verts, Id) == ps
  {
    var m := Mesh(ps, []);
    assert Positions(m.verts, Id) == ps;
    m
  }

  /** The vertices of a merged cloud are the points at the seeds of the
      clustering under squared Euclidean distance against distance². */
  lemma MergedCloud(ps: seq<Vec3>, distance: int, r2: int)
    requires r2 == distance * distance
    ensures var c := Cluster(ps, SqrDist, r2);
      var vs := Merged(Cloud(ps), Id, distance).verts;
      |vs| == |c.seeds| && forall j :: 0 <= j < |c.seeds| ==> vs[j] == ps[c.seeds[j]]
  {
    MergedVertices(Cloud(ps), Id, SqrDist, r2);
  }

  const Pair: seq<Vec3> := [Vec3(0, 0, 0), Vec3(10, 0, 0)]
  const Line: seq<Vec3> := [Vec3(0, 0, 0), Vec3(2, 0, 0), Vec3(4, 0, 0)]
  const Fan: seq<Vec3> := [Vec3(0, 0, 0), Vec3(10, 0, 0), Vec3(10, 7, 0), Vec3(10, -7, 0)]

  lemma PairDistances()
    ensures SqrDist(Vec3(0, 0, 0), Vec3(10, 0, 0)) == 100
  {
    assert SqrMagn(Vec3(-10, 0, 0)) == 100;
  }

  lemma LineDistances()
    ensures SqrDist(Vec3(0, 0, 0), Vec3(2, 0, 0)) == 4
    ensures SqrDist(Vec3(0, 0, 0), Vec3(4, 0, 0)) == 16
  {
    assert SqrMagn(Vec3(-2, 0, 0)) == 4;
    assert SqrMagn(Vec3(-4, 0, 0)) == 16;
  }

  lemma FanDistances()
    ensures SqrDist(Vec3(0, 0, 0), Vec3(10, 0, 0)) == 100
    ensures SqrDist(Vec3(0, 0, 0), Vec3(10, 7, 0)) == 149
    ensures SqrDist(Vec3(0, 0, 0), Vec3(10, -7, 0)) == 149
    ensures SqrDist(Vec3(10, 0, 0), Vec3(10, 7, 0)) == 49
    ensures SqrDist(Vec3(10, 0, 0), Vec3(10, -7, 0)) == 49
    ensures SqrDist(Vec3(10, 7, 0), Vec3(10, -7, 0)) == 196
  {
    assert SqrMagn(Vec3(-10, 0, 0)) == 100;
    assert SqrMagn(Vec3(-10, -7, 0)) == 149;
    assert SqrMagn(Vec3(-10, 7, 0)) == 149;
    assert SqrMagn(Vec3(0, -7, 0)) == 49;
    assert SqrMagn(Vec3(0, 7, 0)) == 49;
    assert SqrMagn(Vec3(0, 14, 0)) == 196;
  }

  /** Two points 100 apart in d: one cluster at radius 100^2, two at 1. */
  lemma PairClusters(d: Metric)
    requires d(Vec3(0, 0, 0), Vec3(10, 0, 0)) == 100
    ensures Cluster(Pair, d, 10000).seeds == [0]
    ensures Cluster(Pair, d, 1).seeds == [0, 1]
  {
    assert Near(Pair, d, 10000, 0, 1) && !Near(Pair, d, 1, 0, 1);
    assert SeedsUpTo(Pair, d, 10000, 1) == [0] && SeedsUpTo(Pair, d, 1, 1) == [0];
    assert FirstNear(Pair, d, 10000, [0], 1) == Some(0);
    assert FirstNear(Pair, d, 1, [0], 1).None?;
    SeedsStep(Pair, d, 10000, 1);
    SeedsStep(Pair, d, 1, 1);
  }

  /** Two vertices 10 apart are merged into the first at distance 100 and
      both kept at distance 1. */
  lemma CloseVerticesCollapse(ps: seq<Vec3>)
    requires ps == Pair
    ensures var vs := Merged(Cloud(ps), Id, 100).verts; |vs| == 1 && vs[0] == Vec3(0, 0, 0)
    ensures var vs := Merged(Cloud(ps), Id, 1).verts; |vs| == 2 && vs[0] == Vec3(0, 0, 0) && vs[1] == Vec3(10, 0, 0)
  {
    PairDistances();
    PairClusters(SqrDist);
    MergedCloud(ps, 100, 10000);
    MergedCloud(ps, 1, 1);
  }

  /** Three points on a line, 2 and 4 from the first and the last 2
      from the middle one in d, at radius^2 9. */
  lemma LineClusters(d: Metric)
    requires d(Vec3(0, 0, 0), Vec3(2, 0, 0)) == 4 && d(Vec3(0, 0, 0), Vec3(4, 0, 0)) == 16
    ensures Cluster(Line, d, 9).seeds == [0, 2] && Cluster(Line, d, 9).slot == [0, 0, 1]
  {
    assert Near(Line, d, 9, 0, 1) && !Near(Line, d, 9, 0, 2);
    assert SeedsUpTo(Line, d, 9, 1) == [0];
    SeedsStep(Line, d, 9, 1);
    assert FirstNear(Line, d, 9, [0], 1) == Some(0);
    assert SeedsUpTo(Line, d, 9, 2) == [0];
    assert FirstNear(Line, d, 9, [0], 2).None?;
    SeedsStep(Line, d, 9, 2);
    assert SeedsUpTo(Line, d, 9, 3) == [0, 2];
    assert SlotOf(Line, d, 9, 0) == 0;
    assert SlotOf(Line, d, 9, 1) == 0;
    assert SlotOf(Line, d, 9, 2) == 1;
  }

  /** Merging does not chain: of three points 2 apart on a line, at
      distance 3 the middle one joins the first, but the last one, although
      strictly within 3 of the middle one, is strictly beyond 3 from the
      first seed and is kept. */
  lemma NoChaining(ps: seq<Vec3>)
    requires ps == Line
    ensures var vs := Merged(Cloud(ps), Id, 3).verts; |vs| == 2 && vs[0] == Vec3(0, 0, 0) && vs[1] == Vec3(4, 0, 0)
  {
    LineDistances();
    LineClusters(SqrDist);
    MergedCloud(ps, 3, 9);
  }

  /** A point, a second one 10 away and two more 7 to either side of the
      second, in d, at radius^2 64 and 121. No distance equals a radius. */
  lemma FanClusters(d: Metric)
    requires d(Vec3(0, 0, 0), Vec3(10, 0, 0)) == 100
    requires d(Vec3(0, 0, 0), Vec3(10, 7, 0)) == 149 && d(Vec3(0, 0, 0), Vec3(10, -7, 0)) == 149
    requires d(Vec3(10, 0, 0), Vec3(10, 7, 0)) == 49 && d(Vec3(10, 0, 0), Vec3(10, -7, 0)) == 49
    requires d(Vec3(10, 7, 0), Vec3(10, -7, 0)) == 196
    ensures Cluster(Fan, d, 64).seeds == [0, 1]
    ensures Cluster(Fan, d, 121).seeds == [0, 2, 3]
  {
    // radius^2 64: the second point is a seed and absorbs the other two
    assert SeedsUpTo(Fan, d, 64, 1) == [0];
    assert !Near(Fan, d, 64, 0, 1);
    assert FirstNear(Fan, d, 64, [0], 1).None?;
    SeedsStep(Fan, d, 64, 1);
    assert SeedsUpTo(Fan, d, 64, 2) == [0, 1];
    assert !Near(Fan, d, 64, 0, 2) && Near(Fan, d, 64, 1, 2);
    assert FirstNear(Fan, d, 64, [0, 1], 2) == Some(1);
    SeedsStep(Fan, d, 64, 2);
    assert !Near(Fan, d, 64, 0, 3) && Near(Fan, d, 64, 1, 3);
    assert FirstNear(Fan, d, 64, [0, 1], 3) == Some(1);
    SeedsStep(Fan, d, 64, 3);
    // radius^2 121: the second point joins the first, the other two are seeds
    assert SeedsUpTo(Fan, d, 121, 1) == [0];
    assert Near(Fan, d, 121, 0, 1);
    assert FirstNear(Fan, d, 121, [0], 1) == Some(0);
    SeedsStep(Fan, d, 121, 1);
    assert !Near(Fan, d, 121, 0, 2);
    assert FirstNear(Fan, d, 121, [0], 2).None?;
    SeedsStep(Fan, d, 121, 2);
    assert SeedsUpTo(Fan, d, 121, 3) == [0, 2];
    assert !Near(Fan, d, 121, 0, 3) && !Near(Fan, d, 121, 2, 3);
    assert FirstNear(Fan, d, 121, [0, 2], 3).None?;
    SeedsStep(Fan, d, 121, 3);
  }

  /** A larger merge distance can leave more vertices: at distance 8 the
      fan keeps two, at distance 11 three. */
  lemma LargerDistanceMoreVertices(ps: seq<Vec3>)
    requires ps == Fan
    ensures |Merged(Cloud(ps), Id, 8).verts| == 2
    ensures |Merged(Cloud(ps), Id, 11).verts| == 3
  {
    FanDistances();
    FanClusters(SqrDist);
    MergedCloud(ps, 8, 64);
    MergedCloud(ps, 11, 121);
  }
}
