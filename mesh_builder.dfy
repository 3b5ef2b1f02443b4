/** The mesh builder of mesh_builder.rs. The source stores triangles of
    references `&'v V` into caller-owned storage and deduplicates them by
    address. Here the caller's storage is one sequence `store`, a reference
    is a handle (an index into it), and "same address" is handle equality.
    The storage is shared-borrowed for the builder's whole life, so it is a
    constant of the builder. */
module MeshBuilding {
  import opened Seqs
  import opened Vertex
  import Meshes

  type Handle = int

  /** Every handle refers into a store of n values. */
  predicate InStore(s: seq<Handle>, n: nat)
  {
    forall i :: 0 <= i < |s| ==> 0 <= s[i] < n
  }

  /** Every face has `w` corners, all referring into the store. */
  predicate FacesIn(faces: seq<seq<Handle>>, w: nat, n: nat)
  {
    forall k :: 0 <= k < |faces| ==> |faces[k]| == w && InStore(faces[k], n)
  }

  // ---------------------------------------------------------------------
  // Triangulation of single faces

  /** `add_poly`: the fan around the first corner, [p0, p_i, p_(i+1)] for
      i = 1 .. N-2, in that order. */
  function Fan(poly: seq<Handle>): (r: seq<seq<Handle>>)
    requires |poly| >= 1
    ensures |r| == if |poly| >= 2 then |poly| - 2 else 0
  {
    var n := if |poly| >= 2 then |poly| - 2 else 0;
    seq(n, i requires 0 <= i < n => [poly[0], poly[i + 1], poly[i + 2]])
  }

  lemma FanShape(poly: seq<Handle>, i: nat)
    requires |poly| >= 3 && i < |poly| - 2
    ensures Fan(poly)[i] == [poly[0], poly[i + 1], poly[i + 2]]
  {
  }

  /** The fan of a triangle is the triangle itself. */
  lemma FanOfTriangle(t: seq<Handle>)
    requires |t| == 3
    ensures Fan(t) == [t]
  {
    assert t == [t[0], t[1], t[2]];
  }

  function QuadPos<V>(q: seq<Handle>, store: seq<V>, pos: V -> Vec3, c: nat): Vec3
    requires |q| == 4 && InStore(q, |store|) && c < 4
  {
    pos(store[q[c]])
  }

  /** `add_quad`: split along q0–q2 when it is strictly shorter than q1–q3,
      otherwise along q1–q3. */
  function Split<V>(q: seq<Handle>, store: seq<V>, pos: V -> Vec3): (r: seq<seq<Handle>>)
    requires |q| == 4 && InStore(q, |store|)
    ensures |r| == 2 && FacesIn(r, 3, |store|)
  {
    if SqrDist(QuadPos(q, store, pos, 0), QuadPos(q, store, pos, 2))
       < SqrDist(QuadPos(q, store, pos, 1), QuadPos(q, store, pos, 3))
    then [[q[0], q[1], q[2]], [q[0], q[2], q[3]]]
    else [[q[1], q[2], q[3]], [q[1], q[3], q[0]]]
  }

  /** The quad split is the fan of the quad started at q0 when the q0–q2
      diagonal is strictly shorter, and the fan started at q1 otherwise
      (ties go to q1–q3); both triangles then share the chosen diagonal. */
  lemma SplitIsFanOfShorterDiagonal<V>(q: seq<Handle>, store: seq<V>, pos: V -> Vec3)
    requires |q| == 4 && InStore(q, |store|)
    ensures var d02 := SqrDist(QuadPos(q, store, pos, 0), QuadPos(q, store, pos, 2));
            var d13 := SqrDist(QuadPos(q, store, pos, 1), QuadPos(q, store, pos, 3));
            && (d02 < d13 ==>
                  && Split(q, store, pos) == Fan(q)
                  && q[0] in Split(q, store, pos)[0] && q[2] in Split(q, store, pos)[0]
                  && q[0] in Split(q, store, pos)[1] && q[2] in Split(q, store, pos)[1])
            && (d13 <= d02 ==>
                  && Split(q, store, pos) == Fan([q[1], q[2], q[3], q[0]])
                  && q[1] in Split(q, store, pos)[0] && q[3] in Split(q, store, pos)[0]
                  && q[1] in Split(q, store, pos)[1] && q[3] in Split(q, store, pos)[1])
  {
  }

  // ---------------------------------------------------------------------
  // Folds over many faces (`patch`, `patch_quads`)

  /** Left-to-right fold of `add_poly` over the faces. */
  function Polys(faces: seq<seq<Handle>>): (r: seq<seq<Handle>>)
    requires forall k :: 0 <= k < |faces| ==> |faces[k]| >= 1
    ensures forall k :: 0 <= k < |r| ==> |r[k]| == 3
  {
    if faces == [] then [] else Polys(faces[..|faces| - 1]) + Fan(faces[|faces| - 1])
  }

  /** Left-to-right fold of `add_quad` over the quads. */
  function Quads<V>(quads: seq<seq<Handle>>, store: seq<V>, pos: V -> Vec3): (r: seq<seq<Handle>>)
    requires FacesIn(quads, 4, |store|)
    ensures FacesIn(r, 3, |store|)
  {
    if quads == [] then [] else Quads(quads[..|quads| - 1], store, pos) + Split(quads[|quads| - 1], store, pos)
  }

  /** N-gon faces give N-2 triangles each. */
  lemma PolysCount(faces: seq<seq<Handle>>, w: nat)
    requires w >= 2 && forall k :: 0 <= k < |faces| ==> |faces[k]| == w
    ensures |Polys(faces)| == |faces| * (w - 2)
  {
    PolysIsFlatten(faces);
    var fans := seq(|faces|, k requires 0 <= k < |faces| => Fan(faces[k]));
    assert forall k :: 0 <= k < |fans| ==> |fans[k]| == w - 2;
    FlattenLength(fans, w - 2);
  }

  lemma {:induction false} PolysIsFlatten(faces: seq<seq<Handle>>)
    requires forall k :: 0 <= k < |faces| ==> |faces[k]| >= 1
    ensures Polys(faces) == Flatten(seq(|faces|, k requires 0 <= k < |faces| => Fan(faces[k])))
    decreases |faces|
  {
    if faces != [] {
      var n := |faces| - 1;
      PolysIsFlatten(faces[..n]);
      var fans := seq(|faces|, k requires 0 <= k < |faces| => Fan(faces[k]));
      assert fans[..n] == seq(n, k requires 0 <= k < n => Fan(faces[..n][k]));
    }
  }

  /** Every quad gives two triangles; quad k gives triangles 2k and 2k+1. */
  lemma {:induction false} QuadsCount<V>(quads: seq<seq<Handle>>, store: seq<V>, pos: V -> Vec3)
    requires FacesIn(quads, 4, |store|)
    ensures |Quads(quads, store, pos)| == 2 * |quads|
    ensures forall k :: 0 <= k < |quads| ==>
      Quads(quads, store, pos)[2 * k] == Split(quads[k], store, pos)[0]
      && Quads(quads, store, pos)[2 * k + 1] == Split(quads[k], store, pos)[1]
  {
    if quads != [] {
      var n := |quads| - 1;
      PrefixFaces(quads, n, 4, |store|);
      QuadsCount(quads[..n], store, pos);
      var pre := Quads(quads[..n], store, pos);
      var last := Split(quads[n], store, pos);
      assert Quads(quads, store, pos) == pre + last;
      forall k | 0 <= k < |quads|
        ensures Quads(quads, store, pos)[2 * k] == Split(quads[k], store, pos)[0]
        ensures Quads(quads, store, pos)[2 * k + 1] == Split(quads[k], store, pos)[1]
      {
        if k < n {
          assert quads[..n][k] == quads[k];
          assert Quads(quads, store, pos)[2 * k] == pre[2 * k];
          assert Quads(quads, store, pos)[2 * k + 1] == pre[2 * k + 1];
        } else {
          assert k == n && |pre| == 2 * n;
          assert Quads(quads, store, pos)[2 * k] == last[0];
          assert Quads(quads, store, pos)[2 * k + 1] == last[1];
        }
      }
    }
  }

  lemma PrefixWhole<T>(s: seq<T>)
    ensures s[..|s|] == s
  {
  }

  lemma PrefixFaces(faces: seq<seq<Handle>>, k: nat, w: nat, n: nat)
    requires FacesIn(faces, w, n) && k <= |faces|
    ensures FacesIn(faces[..k], w, n)
  {
  }

  /** One more face extends the fold by that face's fan. */
  lemma PolysSnoc(faces: seq<seq<Handle>>, k: nat)
    requires forall j :: 0 <= j < |faces| ==> |faces[j]| >= 1
    requires k < |faces|
    ensures Polys(faces[..k + 1]) == Polys(faces[..k]) + Fan(faces[k])
  {
    assert faces[..k + 1][..k] == faces[..k];
  }

  /** One more quad extends the fold by that quad's split. */
  lemma QuadsSnoc<V>(quads: seq<seq<Handle>>, k: nat, store: seq<V>, pos: V -> Vec3)
    requires FacesIn(quads, 4, |store|) && k < |quads|
    ensures FacesIn(quads[..k], 4, |store|) && FacesIn(quads[..k + 1], 4, |store|)
    ensures Quads(quads[..k + 1], store, pos) == Quads(quads[..k], store, pos) + Split(quads[k], store, pos)
  {
    PrefixFaces(quads, k, 4, |store|);
    PrefixFaces(quads, k + 1, 4, |store|);
    assert quads[..k + 1][..k] == quads[..k];
  }

  /** Appending the split of quad j to a fold over the first j quads gives
      the fold over the first j + 1. */
  lemma QuadsStep<V>(o: seq<seq<Handle>>, before: seq<seq<Handle>>, after: seq<seq<Handle>>,
                     quads: seq<seq<Handle>>, j: nat, store: seq<V>, pos: V -> Vec3)
    requires FacesIn(quads, 4, |store|) && j < |quads|
    requires before == o + Quads(quads[..j], store, pos)
    requires after == before + Split(quads[j], store, pos)
    ensures FacesIn(quads[..j + 1], 4, |store|)
    ensures after == o + Quads(quads[..j + 1], store, pos)
    ensures j + 1 == |quads| ==> after == o + Quads(quads, store, pos)
  {
    QuadsSnoc(quads, j, store, pos);
    AppendAssoc(o, Quads(quads[..j], store, pos), Split(quads[j], store, pos));
    if j + 1 == |quads| {
      PrefixWhole(quads);
    }
  }

  // ---------------------------------------------------------------------
  // Strips (`stitch`, `stitch_loop`, `sinch_loop`)

  /** The quads [l_k, r_k, r_(k+1), l_(k+1)] for k < min(L, R) - 1; none when
      either side is empty. */
  function StitchQuads(left: seq<Handle>, right: seq<Handle>): (r: seq<seq<Handle>>)
    ensures |r| == if left == [] || right == [] then 0 else Min(|left|, |right|) - 1
    ensures forall k :: 0 <= k < |r| ==> r[k] == [left[k], right[k], right[k + 1], left[k + 1]]
  {
    if left == [] || right == [] then []
    else
      var n := Min(|left|, |right|) - 1;
      seq(n, k requires 0 <= k < n => [left[k], right[k], right[k + 1], left[k + 1]])
  }

  /** The open strip followed by the closing quad [l_last, r_last, r0, l0],
      where "last" is the last pair the zip reached. */
  function StitchLoopQuads(left: seq<Handle>, right: seq<Handle>): (r: seq<seq<Handle>>)
    ensures |r| == if left == [] || right == [] then 0 else Min(|left|, |right|)
    ensures forall k :: 0 <= k < |r| - 1 ==> r[k] == [left[k], right[k], right[k + 1], left[k + 1]]
    ensures |r| > 0 ==> r[|r| - 1] == [left[|r| - 1], right[|r| - 1], right[0], left[0]]
  {
    if left == [] || right == [] then []
    else
      var m := Min(|left|, |right|) - 1;
      StitchQuads(left, right) + [[left[m], right[m], right[0], left[0]]]
  }

  /** The fan from a closed seam to the knot: [v_k, v_(k+1), knot] and the
      closing [v_last, v0, knot]. */
  function SinchFaces(seam: seq<Handle>, knot: Handle): (r: seq<seq<Handle>>)
    ensures |r| == |seam|
    ensures forall k :: 0 <= k < |r| - 1 ==> r[k] == [seam[k], seam[k + 1], knot]
    ensures |r| > 0 ==> r[|r| - 1] == [seam[|r| - 1], seam[0], knot]
  {
    if seam == [] then []
    else
      var n := |seam| - 1;
      seq(n, k requires 0 <= k < n => [seam[k], seam[k + 1], knot]) + [[seam[n], seam[0], knot]]
  }

  /** Strips over handles into the store are quads into the store. */
  lemma StitchQuadsIn(left: seq<Handle>, right: seq<Handle>, n: nat)
    requires InStore(left, n) && InStore(right, n)
    ensures FacesIn(StitchQuads(left, right), 4, n)
  {
    var qs := StitchQuads(left, right);
    forall k | 0 <= k < |qs|
      ensures |qs[k]| == 4 && InStore(qs[k], n)
    {
      assert qs[k] == [left[k], right[k], right[k + 1], left[k + 1]];
    }
  }

  lemma StitchLoopQuadsIn(left: seq<Handle>, right: seq<Handle>, n: nat)
    requires InStore(left, n) && InStore(right, n)
    ensures FacesIn(StitchLoopQuads(left, right), 4, n)
  {
    if left != [] && right != [] {
      var open := StitchQuads(left, right);
      var m := Min(|left|, |right|) - 1;
      var last := [left[m], right[m], right[0], left[0]];
      StitchQuadsIn(left, right, n);
      assert InStore(last, n);
      var qs := open + [last];
      forall k | 0 <= k < |qs|
        ensures |qs[k]| == 4 && InStore(qs[k], n)
      {
        if k < |open| {
          assert qs[k] == open[k];
        } else {
          assert qs[k] == last;
        }
      }
    }
  }

  /** `stitch` emits 2·(min(L, R) - 1) triangles, no-op when either side is empty. */
  lemma StitchCount<V>(left: seq<Handle>, right: seq<Handle>, store: seq<V>, pos: V -> Vec3)
    requires InStore(left, |store|) && InStore(right, |store|)
    ensures FacesIn(StitchQuads(left, right), 4, |store|)
    ensures |Quads(StitchQuads(left, right), store, pos)| == if left == [] || right == [] then 0 else 2 * (Min(|left|, |right|) - 1)
  {
    StitchQuadsIn(left, right, |store|);
    QuadsCount(StitchQuads(left, right), store, pos);
  }

  /** `stitch_loop` emits 2·min(L, R) triangles, no-op when either side is
      empty; single-element sides still give the quad [l0, r0, r0, l0]. */
  lemma StitchLoopCount<V>(left: seq<Handle>, right: seq<Handle>, store: seq<V>, pos: V -> Vec3)
    requires InStore(left, |store|) && InStore(right, |store|)
    ensures FacesIn(StitchLoopQuads(left, right), 4, |store|)
    ensures |Quads(StitchLoopQuads(left, right), store, pos)| == if left == [] || right == [] then 0 else 2 * Min(|left|, |right|)
    ensures |left| == 1 && |right| == 1 ==> StitchLoopQuads(left, right) == [[left[0], right[0], right[0], left[0]]]
  {
    StitchLoopQuadsIn(left, right, |store|);
    QuadsCount(StitchLoopQuads(left, right), store, pos);
  }

  lemma SinchFacesAreTriangles(seam: seq<Handle>, knot: Handle, n: nat)
    requires InStore(seam, n) && 0 <= knot < n
    ensures FacesIn(SinchFaces(seam, knot), 3, n)
  {
    var fs := SinchFaces(seam, knot);
    forall k | 0 <= k < |fs|
      ensures |fs[k]| == 3 && InStore(fs[k], n)
    {
      if k < |fs| - 1 {
        assert fs[k] == [seam[k], seam[k + 1], knot];
      } else {
        assert fs[k] == [seam[k], seam[0], knot];
      }
    }
  }

  lemma TriangleInStore(a: Handle, b: Handle, c: Handle, n: nat)
    requires 0 <= a < n && 0 <= b < n && 0 <= c < n
    ensures InStore([a, b, c], n)
  {
  }

  /** Adding triangle j of a fan of triangles with `add_poly` extends the
      first j triangles to the first j + 1. */
  lemma TriangleStep(o: seq<seq<Handle>>, before: seq<seq<Handle>>, after: seq<seq<Handle>>, faces: seq<seq<Handle>>, j: nat)
    requires j < |faces| && |faces[j]| == 3
    requires before == o + faces[..j] && after == before + Fan(faces[j])
    ensures after == o + faces[..j + 1]
    ensures j + 1 == |faces| ==> after == o + faces
  {
    FanOfTriangle(faces[j]);
    PrefixStep(o, before, after, faces, j);
  }

  /** Appending face j to the first j faces gives the first j + 1. */
  lemma PrefixStep(o: seq<seq<Handle>>, before: seq<seq<Handle>>, after: seq<seq<Handle>>, faces: seq<seq<Handle>>, j: nat)
    requires j < |faces|
    requires before == o + faces[..j] && after == before + [faces[j]]
    ensures after == o + faces[..j + 1]
    ensures j + 1 == |faces| ==> after == o + faces
  {
    assert faces[..j + 1] == faces[..j] + [faces[j]];
    AppendAssoc(o, faces[..j], [faces[j]]);
  }

  // ---------------------------------------------------------------------
  // First-encounter numbering (`finish`)

  /** The distinct elements of s in the order of their first occurrence. */
  function Encounter(s: seq<Handle>): (r: seq<Handle>)
    ensures |r| <= |s|
    ensures s != [] ==> |r| != 0 && r[0] == s[0]
  {
    if s == [] then []
    else
      var o := Encounter(s[..|s| - 1]);
      if s[|s| - 1] in o then o else o + [s[|s| - 1]]
  }

  lemma EncounterSnoc(s: seq<Handle>, h: Handle)
    ensures Encounter(s + [h]) == if h in Encounter(s) then Encounter(s) else Encounter(s) + [h]
  {
    assert (s + [h])[..|s|] == s;
  }

  /** Position of the first occurrence of h in s, or |s| when h does not occur. */
  function IndexOf(s: seq<Handle>, h: Handle): (r: nat)
    ensures r <= |s|
    ensures r < |s| <==> h in s
    ensures r < |s| ==> s[r] == h
    ensures forall p :: 0 <= p < r ==> s[p] != h
  {
    if s == [] then 0 else if s[0] == h then 0 else 1 + IndexOf(s[1..], h)
  }

  lemma IndexOfSnoc(s: seq<Handle>, x: Handle, h: Handle)
    ensures h in s ==> IndexOf(s + [x], h) == IndexOf(s, h)
    ensures h !in s && h == x ==> IndexOf(s + [x], h) == |s|
  {
    var r := IndexOf(s + [x], h);
    if h in s {
      var p := IndexOf(s, h);
      assert (s + [x])[p] == h;
    }
  }

  ghost predicate Distinct(s: seq<Handle>)
  {
    forall i, j :: 0 <= i < j < |s| ==> s[i] != s[j]
  }

  lemma IndexOfDistinct(s: seq<Handle>, i: nat)
    requires Distinct(s) && i < |s|
    ensures IndexOf(s, s[i]) == i
  {
  }

  /** The first-encounter order holds exactly the elements of s, each once,
      ordered by their first position in s. */
  lemma {:induction false} EncounterFacts(s: seq<Handle>)
    ensures forall h :: h in Encounter(s) <==> h in s
    ensures Distinct(Encounter(s))
    ensures forall i, j :: 0 <= i < j < |Encounter(s)| ==> IndexOf(s, Encounter(s)[i]) < IndexOf(s, Encounter(s)[j])
    decreases |s|
  {
    if s != [] {
      var init := s[..|s| - 1];
      var h := s[|s| - 1];
      assert s == init + [h];
      EncounterFacts(init);
      var o := Encounter(init);
      forall x | x in init
        ensures IndexOf(s, x) == IndexOf(init, x)
      {
        IndexOfSnoc(init, h, x);
      }
      if h !in o {
        IndexOfSnoc(init, h, h);
      }
    }
  }

  lemma {:induction false} EncounterInStore(s: seq<Handle>, n: nat)
    requires InStore(s, n)
    ensures InStore(Encounter(s), n)
    ensures forall h :: h in Encounter(s) ==> h in s
    decreases |s|
  {
    if s != [] {
      EncounterInStore(s[..|s| - 1], n);
    }
  }

  lemma {:induction false} DistinctCard(s: seq<Handle>)
    requires Distinct(s)
    ensures |set x: Handle | x in s| == |s|
    decreases |s|
  {
    if s != [] {
      var init := s[..|s| - 1];
      var last := s[|s| - 1];
      DistinctCard(init);
      assert s == init + [last];
      assert last !in init;
      var si := set x: Handle | x in init;
      assert last !in si;
      assert (set x: Handle | x in s) == si + {last};
      assert |si + {last}| == |si| + 1;
    }
  }

  lemma FlattenTrianglesIn(tris: seq<seq<Handle>>, n: nat)
    requires FacesIn(tris, 3, n)
    ensures |Flatten<Handle>(tris)| == 3 * |tris|
    ensures forall k, c :: 0 <= k < |tris| && 0 <= c < 3 ==> Flatten<Handle>(tris)[3 * k + c] == tris[k][c]
    ensures InStore(Flatten<Handle>(tris), n)
  {
    FlattenTriples<Handle>(tris);
    assert |Flatten<Handle>(tris)| == 3 * |tris|;
    forall p | 0 <= p < |Flatten<Handle>(tris)|
      ensures Flatten<Handle>(tris)[p] < n
    {
      FlattenTriangleAt(tris, n, p);
      var k, c := p / 3, p % 3;
      assert InStore(tris[k], n);
      assert tris[k][c] < n;
    }
  }

  lemma FlattenTriangleAt(tris: seq<seq<Handle>>, n: nat, p: nat)
    requires FacesIn(tris, 3, n) && p < 3 * |tris|
    ensures |Flatten<Handle>(tris)| == 3 * |tris|
    ensures p / 3 < |tris| && p % 3 < 3
    ensures Flatten<Handle>(tris)[p] == tris[p / 3][p % 3]
  {
    FlattenTriples<Handle>(tris);
    assert p == 3 * (p / 3) + p % 3;
  }

  /** `finish`: vertex i is the value behind the i-th handle in
      first-encounter order over a triangle-then-corner scan; every corner
      becomes the number of its handle in that order. */
  function Finished<V>(tris: seq<seq<Handle>>, store: seq<V>): (m: Meshes.Mesh<V>)
    requires FacesIn(tris, 3, |store|)
    ensures |m.verts| == |Encounter(Flatten<Handle>(tris))| <= 3 * |tris|
    ensures |m.tris| == |tris| && forall k :: 0 <= k < |m.tris| ==> |m.tris[k]| == 3
  {
    var o := Encounter(Flatten<Handle>(tris));
    FlattenTrianglesIn(tris, |store|);
    EncounterInStore(Flatten<Handle>(tris), |store|);
    Meshes.Mesh(seq(|o|, i requires 0 <= i < |o| => store[o[i]]),
                seq(|tris|, k requires 0 <= k < |tris| => seq(3, c requires 0 <= c < 3 => IndexOf(o, tris[k][c]))))
  }

  ghost function HandlesOf(tris: seq<seq<Handle>>): set<Handle>
  {
    set k, c | 0 <= k < |tris| && 0 <= c < |tris[k]| :: tris[k][c]
  }

  /** `finish` keeps the triangles and their order, every index is in
      range, and corner k, c reads back the value behind tris[k][c]. */
  lemma FinishedShape<V>(tris: seq<seq<Handle>>, store: seq<V>)
    requires FacesIn(tris, 3, |store|)
    ensures var m := Finished(tris, store);
      && |m.tris| == |tris|
      && Meshes.Valid(m)
      && forall k, c :: 0 <= k < |tris| && 0 <= c < 3 ==> m.verts[m.tris[k][c]] == store[tris[k][c]]
  {
    var flat := Flatten<Handle>(tris);
    var o := Encounter(flat);
    FlattenTrianglesIn(tris, |store|);
    EncounterFacts(flat);
    forall k, c | 0 <= k < |tris| && 0 <= c < 3
      ensures tris[k][c] in o
    {
      assert flat[3 * k + c] == tris[k][c];
    }
  }

  /** Keying by identity: two corners get the same index exactly when they
      hold the same handle, whatever the values behind the handles. */
  lemma FinishedIdentity<V>(tris: seq<seq<Handle>>, store: seq<V>, k1: nat, c1: nat, k2: nat, c2: nat)
    requires FacesIn(tris, 3, |store|)
    requires k1 < |tris| && c1 < 3 && k2 < |tris| && c2 < 3
    ensures Finished(tris, store).tris[k1][c1] == Finished(tris, store).tris[k2][c2] <==> tris[k1][c1] == tris[k2][c2]
  {
    var flat := Flatten<Handle>(tris);
    var o := Encounter(flat);
    FlattenTrianglesIn(tris, |store|);
    EncounterFacts(flat);
    assert flat[3 * k1 + c1] == tris[k1][c1];
    assert flat[3 * k2 + c2] == tris[k2][c2];
  }

  /** The vertex buffer has one entry per distinct handle. */
  lemma FinishedVertexCount<V>(tris: seq<seq<Handle>>, store: seq<V>)
    requires FacesIn(tris, 3, |store|)
    ensures |Finished(tris, store).verts| == |HandlesOf(tris)|
  {
    var flat := Flatten<Handle>(tris);
    var o := Encounter(flat);
    FlattenTrianglesIn(tris, |store|);
    EncounterFacts(flat);
    DistinctCard(o);
    forall h | h in HandlesOf(tris)
      ensures h in o
    {
      var k, c :| 0 <= k < |tris| && 0 <= c < |tris[k]| && tris[k][c] == h;
      assert flat[3 * k + c] == h;
    }
    forall h | h in o
      ensures h in HandlesOf(tris)
    {
      var p :| 0 <= p < |flat| && flat[p] == h;
      FlattenTriangleAt(tris, |store|, p);
    }
    assert (set x: Handle | x in o) == HandlesOf(tris);
  }

  /** Corner p of the flat output index buffer is the number of the handle
      at place p of the flat handle scan. */
  lemma FinishedFlat<V>(tris: seq<seq<Handle>>, store: seq<V>)
    requires FacesIn(tris, 3, |store|)
    ensures var m := Finished(tris, store);
      var flat := Flatten<Handle>(tris);
      && Meshes.TrianglesHaveThreeCorners(m.tris)
      && |Meshes.TrisFlat(m)| == |flat|
      && forall p :: 0 <= p < |flat| ==> Meshes.TrisFlat(m)[p] == IndexOf(Encounter(flat), flat[p])
  {
    var m := Finished(tris, store);
    var flat := Flatten<Handle>(tris);
    FlattenTrianglesIn(tris, |store|);
    assert Meshes.TrianglesHaveThreeCorners(m.tris);
    forall p | 0 <= p < |flat|
      ensures Meshes.TrisFlat(m)[p] == IndexOf(Encounter(flat), flat[p])
    {
      FinishedFlatAt(tris, store, p);
    }
  }

  lemma FinishedCorner<V>(tris: seq<seq<Handle>>, store: seq<V>, k: nat, c: nat)
    requires FacesIn(tris, 3, |store|) && k < |tris| && c < 3
    ensures |Finished(tris, store).tris| == |tris| && |Finished(tris, store).tris[k]| == 3
    ensures Finished(tris, store).tris[k][c] == IndexOf(Encounter(Flatten<Handle>(tris)), tris[k][c])
  {
  }

  lemma FinishedFlatAt<V>(tris: seq<seq<Handle>>, store: seq<V>, p: nat)
    requires FacesIn(tris, 3, |store|) && p < 3 * |tris|
    ensures Meshes.TrianglesHaveThreeCorners(Finished(tris, store).tris)
    ensures |Flatten<Handle>(tris)| == 3 * |tris|
    ensures Meshes.TrisFlat(Finished(tris, store))[p] == IndexOf(Encounter(Flatten<Handle>(tris)), Flatten<Handle>(tris)[p])
  {
    var m := Finished(tris, store);
    var o := Encounter(Flatten<Handle>(tris));
    FlattenTriangleAt(tris, |store|, p);
    FinishedCorner(tris, store, p / 3, p % 3);
    Meshes.TrisFlatAt(m, p);
  }

  /** Indices are handed out in first-encounter order: in the flat output
      index buffer every index occurs, and index i first occurs before
      index j whenever i < j. */
  lemma FinishedFirstEncounter<V>(tris: seq<seq<Handle>>, store: seq<V>)
    requires FacesIn(tris, 3, |store|)
    ensures var m := Finished(tris, store);
      Meshes.TrianglesHaveThreeCorners(m.tris)
      && (forall i :: 0 <= i < |m.verts| ==> i in Meshes.TrisFlat(m))
      && forall i, j :: 0 <= i < j < |m.verts| ==> IndexOf(Meshes.TrisFlat(m), i) < IndexOf(Meshes.TrisFlat(m), j)
  {
    var m := Finished(tris, store);
    var flat := Flatten<Handle>(tris);
    var o := Encounter(flat);
    FinishedFlat(tris, store);
    EncounterFacts(flat);
    var out := Meshes.TrisFlat(m);
    assert |m.verts| == |o|;
    forall i | 0 <= i < |o|
      ensures i in out
    {
      OutFirst(flat, o, out, i);
    }
    forall i, j | 0 <= i < j < |o|
      ensures IndexOf(out, i) < IndexOf(out, j)
    {
      OutFirst(flat, o, out, i);
      OutFirst(flat, o, out, j);
    }
  }

  lemma OutFirst(flat: seq<Handle>, o: seq<Handle>, out: seq<nat>, i: nat)
    requires |out| == |flat| && Distinct(o) && i < |o|
    requires forall h :: h in o <==> h in flat
    requires forall p :: 0 <= p < |flat| ==> out[p] == IndexOf(o, flat[p])
    ensures IndexOf(out, i) == IndexOf(flat, o[i]) && i in out
  {
    var pf := IndexOf(flat, o[i]);
    IndexOfDistinct(o, i);
    assert out[pf] == i;
    forall q | 0 <= q < pf
      ensures out[q] != i
    {
      assert flat[q] in o;
    }
  }

  // ---------------------------------------------------------------------
  // The builder

  /** The state `finish` walks while it numbers handles: `index` maps the
      handles seen so far to their numbers, `verts` holds their values, and
      both agree with the first-encounter order `order`. */
  ghost predicate Numbering<V>(index: map<Handle, nat>, verts: seq<V>, order: seq<Handle>, store: seq<V>)
  {
    && |verts| == |order|
    && (forall i :: 0 <= i < |order| ==> 0 <= order[i] < |store| && verts[i] == store[order[i]])
    && (forall h :: h in index <==> h in order)
    && (forall h :: h in index ==> index[h] == IndexOf(order, h))
  }

  /** A handle not numbered yet gets the next number and its value is copied. */
  lemma NumberingPush<V>(index: map<Handle, nat>, verts: seq<V>, order: seq<Handle>, store: seq<V>, h: Handle)
    requires Numbering(index, verts, order, store) && h !in index && 0 <= h < |store|
    ensures Numbering(index[h := |verts|], verts + [store[h]], order + [h], store)
  {
    forall x | x in order
      ensures IndexOf(order + [h], x) == IndexOf(order, x)
    {
      IndexOfSnoc(order, h, x);
    }
    IndexOfSnoc(order, h, h);
  }

  /** Every corner of `face` has been numbered and `t` holds those numbers. */
  ghost predicate CodedFace(index: map<Handle, nat>, face: seq<Handle>, t: seq<nat>)
  {
    |t| == |face| && forall c :: 0 <= c < |face| ==> face[c] in index && t[c] == index[face[c]]
  }

  /** The same, face by face, for the first faces and the output so far. */
  ghost predicate Coded(index: map<Handle, nat>, faces: seq<seq<Handle>>, out: seq<seq<nat>>)
  {
    |out| == |faces| && forall k :: 0 <= k < |faces| ==> CodedFace(index, faces[k], out[k])
  }

  lemma CodedFaceGrow(index: map<Handle, nat>, face: seq<Handle>, t: seq<nat>, h: Handle, i: nat)
    requires CodedFace(index, face, t) && h !in index
    ensures CodedFace(index[h := i], face, t)
  {
  }

  lemma CodedGrow(index: map<Handle, nat>, faces: seq<seq<Handle>>, out: seq<seq<nat>>, h: Handle, i: nat)
    requires Coded(index, faces, out) && h !in index
    ensures Coded(index[h := i], faces, out)
  {
    forall k | 0 <= k < |faces|
      ensures CodedFace(index[h := i], faces[k], out[k])
    {
      CodedFaceGrow(index, faces[k], out[k], h, i);
    }
  }

  lemma CodedFaceSnoc(index: map<Handle, nat>, face: seq<Handle>, t: seq<nat>, h: Handle)
    requires CodedFace(index, face, t) && h in index
    ensures CodedFace(index, face + [h], t + [index[h]])
  {
  }

  lemma CodedSnoc(index: map<Handle, nat>, faces: seq<seq<Handle>>, out: seq<seq<nat>>, face: seq<Handle>, t: seq<nat>)
    requires Coded(index, faces, out) && CodedFace(index, face, t)
    ensures Coded(index, faces + [face], out + [t])
  {
    forall k | 0 <= k < |faces| + 1
      ensures CodedFace(index, (faces + [face])[k], (out + [t])[k])
    {
      if k < |faces| {
        assert (faces + [face])[k] == faces[k] && (out + [t])[k] == out[k];
      }
    }
  }

  /** Once the whole scan is numbered and coded, the result is `Finished`. */
  lemma FinishedFromNumbering<V>(index: map<Handle, nat>, verts: seq<V>, out: seq<seq<nat>>, tris: seq<seq<Handle>>, store: seq<V>)
    requires FacesIn(tris, 3, |store|)
    requires Numbering(index, verts, Encounter(Flatten<Handle>(tris)), store)
    requires Coded(index, tris, out)
    ensures Meshes.Mesh(verts, out) == Finished(tris, store)
  {
    var f := Finished(tris, store);
    var o := Encounter(Flatten<Handle>(tris));
    assert verts == f.verts;
    forall k | 0 <= k < |tris|
      ensures out[k] == f.tris[k]
    {
      assert |out[k]| == 3;
      forall c | 0 <= c < 3
        ensures out[k][c] == f.tris[k][c]
      {
        assert out[k][c] == index[tris[k][c]] == IndexOf(o, tris[k][c]);
      }
    }
  }

  class MeshBuilder<V> {
    /** The caller's storage that every handle refers into. */
    const store: seq<V>
    /** The accumulated triangles, as triples of handles. */
    var tris: seq<seq<Handle>>

    ghost predicate Valid()
      reads this
    {
      FacesIn(tris, 3, |store|)
    }

    /** `MeshBuilder::new`: no triangles yet. */
    constructor (store: seq<V>)
      ensures Valid() && this.store == store && tris == []
    {
      this.store := store;
      tris := [];
    }

    method AddPoly(poly: seq<Handle>)
      requires Valid() && |poly| >= 1 && InStore(poly, |store|)
      modifies this
      ensures Valid() && tris == old(tris) + Fan(poly)
    {
      var i := 1;
      while i + 1 < |poly|
        invariant 1 <= i <= if |poly| >= 2 then |poly| - 1 else 1
        invariant Valid()
        invariant tris == old(tris) + Fan(poly)[..i - 1]
      {
        tris := tris + [[poly[0], poly[i], poly[i + 1]]];
        i := i + 1;
      }
      assert Fan(poly)[..i - 1] == Fan(poly);
    }

    method AddQuad(quad: seq<Handle>, pos: V -> Vec3)
      requires Valid() && |quad| == 4 && InStore(quad, |store|)
      modifies this
      ensures Valid() && tris == old(tris) + Split(quad, store, pos)
    {
      var a := SqrMagn(Sub(pos(store[quad[0]]), pos(store[quad[2]])));
      var b := SqrMagn(Sub(pos(store[quad[1]]), pos(store[quad[3]])));
      if a < b {
        tris := tris + [[quad[0], quad[1], quad[2]]];
        tris := tris + [[quad[0], quad[2], quad[3]]];
      } else {
        tris := tris + [[quad[1], quad[2], quad[3]]];
        tris := tris + [[quad[1], quad[3], quad[0]]];
      }
    }

    /** `add_quad` of quad j of a strip whose first j quads are already
        added after the triangles o. */
    method AddStripQuad(ghost o: seq<seq<Handle>>, ghost qs: seq<seq<Handle>>, ghost j: nat, quad: seq<Handle>, pos: V -> Vec3)
      requires Valid() && FacesIn(qs, 4, |store|) && j < |qs| && quad == qs[j]
      requires tris == o + Quads(qs[..j], store, pos)
      modifies this
      ensures Valid() && tris == o + Quads(qs[..j + 1], store, pos)
      ensures j + 1 == |qs| ==> tris == o + Quads(qs, store, pos)
    {
      AddQuad(quad, pos);
      QuadsStep(o, old(tris), tris, qs, j, store, pos);
    }

    method Patch(faces: seq<seq<Handle>>)
      requires Valid() && forall k :: 0 <= k < |faces| ==> |faces[k]| >= 1 && InStore(faces[k], |store|)
      modifies this
      ensures Valid() && tris == old(tris) + Polys(faces)
    {
      var k := 0;
      while k < |faces|
        invariant 0 <= k <= |faces|
        invariant Valid()
        invariant tris == old(tris) + Polys(faces[..k])
      {
        PolysSnoc(faces, k);
        AddPoly(faces[k]);
        k := k + 1;
      }
      assert faces[..k] == faces;
    }

    method PatchQuads(quads: seq<seq<Handle>>, pos: V -> Vec3)
      requires Valid() && FacesIn(quads, 4, |store|)
      modifies this
      ensures Valid() && tris == old(tris) + Quads(quads, store, pos)
    {
      var k := 0;
      PrefixFaces(quads, 0, 4, |store|);
      while k < |quads|
        invariant 0 <= k <= |quads|
        invariant Valid()
        invariant FacesIn(quads[..k], 4, |store|)
        invariant tris == old(tris) + Quads(quads[..k], store, pos)
      {
        ghost var before := tris;
        AddQuad(quads[k], pos);
        QuadsStep(old(tris), before, tris, quads, k, store, pos);
        k := k + 1;
      }
      assert quads[..k] == quads;
    }

    method Stitch(left: seq<Handle>, right: seq<Handle>, pos: V -> Vec3)
      requires Valid() && InStore(left, |store|) && InStore(right, |store|)
      modifies this
      ensures Valid() && FacesIn(StitchQuads(left, right), 4, |store|)
      ensures tris == old(tris) + Quads(StitchQuads(left, right), store, pos)
    {
      StitchQuadsIn(left, right, |store|);
      if left == [] || right == [] {
        return;
      }
      ghost var qs := StitchQuads(left, right);
      var l0, r0 := left[0], right[0];
      var k := 1;
      while k < |left| && k < |right|
        invariant 1 <= k <= Min(|left|, |right|)
        invariant l0 == left[k - 1] && r0 == right[k - 1]
        invariant Valid()
        invariant tris == old(tris) + Quads(qs[..k - 1], store, pos)
      {
        var l1, r1 := left[k], right[k];
        AddStripQuad(old(tris), qs, k - 1, [l0, r0, r1, l1], pos);
        l0, r0 := l1, r1;
        k := k + 1;
      }
      assert qs[..k - 1] == qs;
    }

    /** `stitch_loop`: its loop is the loop of `stitch`, which leaves the
        last pair the zip reached, (left[m], right[m]); the closing quad
        then joins that pair back to the first. */
    method StitchLoop(left: seq<Handle>, right: seq<Handle>, pos: V -> Vec3)
      requires Valid() && InStore(left, |store|) && InStore(right, |store|)
      modifies this
      ensures Valid() && FacesIn(StitchLoopQuads(left, right), 4, |store|)
      ensures tris == old(tris) + Quads(StitchLoopQuads(left, right), store, pos)
    {
      StitchLoopQuadsIn(left, right, |store|);
      if left == [] || right == [] {
        return;
      }
      ghost var qs := StitchLoopQuads(left, right);
      var m := Min(|left|, |right|) - 1;
      assert qs[..m] == StitchQuads(left, right);
      Stitch(left, right, pos);
      AddStripQuad(old(tris), qs, m, [left[m], right[m], right[0], left[0]], pos);
    }

    method SinchLoop(seam: seq<Handle>, knot: Handle)
      requires Valid() && InStore(seam, |store|) && 0 <= knot < |store|
      modifies this
      ensures Valid() && tris == old(tris) + SinchFaces(seam, knot)
    {
      if seam == [] {
        return;
      }
      ghost var fs := SinchFaces(seam, knot);
      var v0 := seam[0];
      var v1 := v0;
      var k := 1;
      while k < |seam|
        invariant 1 <= k <= |seam|
        invariant v1 == seam[k - 1]
        invariant Valid()
        invariant tris == old(tris) + fs[..k - 1]
      {
        var v2 := seam[k];
        ghost var before := tris;
        assert fs[k - 1] == [v1, v2, knot];
        TriangleInStore(v1, v2, knot, |store|);
        AddPoly([v1, v2, knot]);
        TriangleStep(old(tris), before, tris, fs, k - 1);
        v1 := v2;
        k := k + 1;
      }
      ghost var before := tris;
      assert fs[k - 1] == [v1, v0, knot];
      TriangleInStore(v1, v0, knot, |store|);
      AddPoly([v1, v0, knot]);
      TriangleStep(old(tris), before, tris, fs, k - 1);
    }

    /** `finish`: number the handles in first-encounter order with an
        identity-keyed map, copying each handle's value once. */
    method Finish() returns (m: Meshes.Mesh<V>)
      requires Valid()
      ensures m == Finished(tris, store)
    {
      var index: map<Handle, nat> := map[];
      var verts: seq<V> := [];
      var out: seq<seq<nat>> := [];
      ghost var scanned: seq<Handle> := [];
      ghost var order: seq<Handle> := [];
      var k := 0;
      while k < |tris|
        invariant 0 <= k <= |tris|
        invariant scanned == Flatten<Handle>(tris[..k])
        invariant order == Encounter(scanned)
        invariant Numbering(index, verts, order, store)
        invariant Coded(index, tris[..k], out)
      {
        var tri := tris[k];
        assert InStore(tri, |store|);
        var t: seq<nat> := [];
        var c := 0;
        while c < 3
          invariant 0 <= c <= 3
          invariant scanned == Flatten<Handle>(tris[..k]) + tri[..c]
          invariant order == Encounter(scanned)
          invariant Numbering(index, verts, order, store)
          invariant Coded(index, tris[..k], out)
          invariant CodedFace(index, tri[..c], t)
        {
          var h := tri[c];
          var i: nat;
          EncounterSnoc(scanned, h);
          if h in index {
            i := index[h];
          } else {
            i := |verts|;
            NumberingPush(index, verts, order, store, h);
            CodedGrow(index, tris[..k], out, h, i);
            CodedFaceGrow(index, tri[..c], t, h, i);
            index := index[h := i];
            verts := verts + [store[h]];
          }
          CodedFaceSnoc(index, tri[..c], t, h);
          TakeSnoc(tri, c);
          AppendAssoc(Flatten<Handle>(tris[..k]), tri[..c], [h]);
          t := t + [i];
          scanned := scanned + [h];
          order := Encounter(scanned);
          c := c + 1;
        }
        assert tri[..3] == tri;
        FlattenSnoc<Handle>(tris[..k], tri);
        TakeSnoc(tris, k);
        CodedSnoc(index, tris[..k], out, tri, t);
        out := out + [t];
        k := k + 1;
      }
      assert tris[..k] == tris;
      FinishedFromNumbering(index, verts, out, tris, store);
      m := Meshes.Mesh(verts, out);
    }
  }
}
