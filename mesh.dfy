/** The indexed mesh: a vertex buffer and a buffer of index triples
    (`Mesh<V>` of lib.rs), with the accessors of mesh.rs. */
module Meshes {
  import opened Seqs
  import Triangles

  /** `tris[k]` models the array `[usize; 3]`; Valid() fixes its length. */
  datatype Mesh<V> = Mesh(verts: seq<V>, tris: seq<seq<nat>>)

  /** Every triangle has three corners and every corner indexes the vertex buffer. */
  ghost predicate Valid<V>(m: Mesh<V>)
  {
    forall k :: 0 <= k < |m.tris| ==> |m.tris[k]| == 3 && forall c :: 0 <= c < 3 ==> m.tris[k][c] < |m.verts|
  }

  predicate TrianglesHaveThreeCorners(tris: seq<seq<nat>>)
  {
    forall k :: 0 <= k < |tris| ==> |tris[k]| == 3
  }

  /** `tris_iter_flat` / `tris_flat`: all corner indices, triangle by triangle. */
  function TrisFlat<V>(m: Mesh<V>): (r: seq<nat>)
    requires TrianglesHaveThreeCorners(m.tris)
    ensures |r| == 3 * |m.tris|
    ensures forall k, j :: 0 <= k < |m.tris| && 0 <= j < 3 ==> 3 * k + j < |r| && r[3 * k + j] == m.tris[k][j]
  {
    FlattenTriples<nat>(m.tris);
    Flatten<nat>(m.tris)
  }

  /** Place p of the flat index buffer is corner p % 3 of triangle p / 3. */
  lemma TrisFlatAt<V>(m: Mesh<V>, p: nat)
    requires TrianglesHaveThreeCorners(m.tris) && p < 3 * |m.tris|
    ensures p / 3 < |m.tris| && TrisFlat(m)[p] == m.tris[p / 3][p % 3]
  {
    var k, j := p / 3, p % 3;
    assert p == 3 * k + j;
  }

  /** `tris_flat_mapped`: f over every corner index, in flat order. */
  function TrisFlatMapped<V, T>(m: Mesh<V>, f: nat -> T): (r: seq<T>)
    requires TrianglesHaveThreeCorners(m.tris)
    ensures |r| == |TrisFlat(m)|
    ensures forall p :: 0 <= p < |r| ==> r[p] == f(TrisFlat(m)[p])
  {
    var flat := TrisFlat(m);
    seq(|flat|, p requires 0 <= p < |flat| => f(flat[p]))
  }

  /** `tri_verts`: one value triangle per index triangle. */
  function TriVerts<V>(m: Mesh<V>): (r: seq<Triangles.Tri<V>>)
    requires Valid(m)
    ensures |r| == |m.tris|
    ensures forall k :: 0 <= k < |r| ==>
      r[k] == Triangles.Tri(m.verts[m.tris[k][0]], m.verts[m.tris[k][1]], m.verts[m.tris[k][2]])
  {
    seq(|m.tris|, k requires 0 <= k < |m.tris| =>
      Triangles.New(m.verts[m.tris[k][0]], m.verts[m.tris[k][1]], m.verts[m.tris[k][2]]))
  }

  /** The corners of the k-th value triangle are the vertices behind the
      flat index buffer at 3k, 3k+1, 3k+2. */
  lemma TriVertsAgreeWithFlat<V>(m: Mesh<V>, k: nat, j: nat)
    requires Valid(m) && k < |m.tris| && j < 3
    ensures 3 * k + j < |TrisFlat(m)| && TrisFlat(m)[3 * k + j] < |m.verts|
    ensures Triangles.Corners(TriVerts(m)[k])[j] == m.verts[TrisFlat(m)[3 * k + j]]
  {
    assert TrisFlat(m)[3 * k + j] == m.tris[k][j];
  }

  /** `map`: the same triangles over the images of the vertices. */
  function Map<V, T>(m: Mesh<V>, f: V -> T): (r: Mesh<T>)
    ensures r.tris == m.tris
    ensures |r.verts| == |m.verts|
    ensures forall i :: 0 <= i < |m.verts| ==> r.verts[i] == f(m.verts[i])
  {
    Mesh(seq(|m.verts|, i requires 0 <= i < |m.verts| => f(m.verts[i])), m.tris)
  }

  lemma MapPreservesValid<V, T>(m: Mesh<V>, f: V -> T)
    requires Valid(m)
    ensures Valid(Map(m, f))
  {
  }

  /** Mapping the vertices maps every value triangle the same way. */
  lemma {:induction false} MapCommutesWithTriVerts<V, T>(m: Mesh<V>, f: V -> T)
    requires Valid(m)
    ensures Valid(Map(m, f))
    ensures TriVerts(Map(m, f)) == seq(|m.tris|, k requires 0 <= k < |m.tris| => Triangles.Map(TriVerts(m)[k], f))
  {
  }

  /** `verts_mut`: an in-place edit of one slot of the vertex buffer; the
      buffer length and the triangles stay as they are. */
  function SetVert<V>(m: Mesh<V>, i: nat, v: V): (r: Mesh<V>)
    requires i < |m.verts|
    ensures r.tris == m.tris && |r.verts| == |m.verts|
    ensures r.verts[i] == v && forall j :: 0 <= j < |m.verts| && j != i ==> r.verts[j] == m.verts[j]
  {
    Mesh(m.verts[i := v], m.tris)
  }

  lemma SetVertPreservesValid<V>(m: Mesh<V>, i: nat, v: V)
    requires Valid(m) && i < |m.verts|
    ensures Valid(SetVert(m, i, v))
  {
  }
}
