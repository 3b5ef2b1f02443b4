/** Face enumeration over pieces (`pieces/iter.rs`): the quads of a
    `MeshPatch`, the triangles of a `MeshTriPatch`, and `Flipped`, which
    reverses every face. Each stream of corners is a flattening of row
    slices, and the faces are those streams zipped. */
module PieceIteration {
  import opened Seqs
  import opened Pieces

  /** `v.iter().skip(1)` and `v[1..]` on a non-empty row. */
  function DropFirst<T>(s: seq<T>): (r: seq<T>)
    ensures |r| == if |s| == 0 then 0 else |s| - 1
    ensures forall k :: 0 <= k < |r| ==> r[k] == s[k + 1]
  {
    if |s| == 0 then [] else s[1..]
  }

  /** `v[..v.len() - 1]`; the subtraction needs a non-empty row. */
  function DropLast<T>(s: seq<T>): (r: seq<T>)
    requires |s| != 0
    ensures |r| == |s| - 1
    ensures forall k :: 0 <= k < |r| ==> r[k] == s[k]
  {
    s[..|s| - 1]
  }

  /** No row is empty, so every `v.len() - 1` is defined. */
  predicate RowsNonEmpty<V>(rows: seq<seq<V>>)
  {
    forall i :: 0 <= i < |rows| ==> |rows[i]| != 0
  }

  /** Every row without its last entry: the blocks of
      `flat_map(|v| v[..v.len() - 1].iter())`. */
  function Inits<V>(rows: seq<seq<V>>): (r: seq<seq<V>>)
    requires RowsNonEmpty(rows)
    ensures |r| == |rows|
    ensures forall i :: 0 <= i < |r| ==> r[i] == DropLast(rows[i])
  {
    seq(|rows|, i requires 0 <= i < |rows| => DropLast(rows[i]))
  }

  /** Every row without its first entry: the blocks of
      `flat_map(|v| v[1..].iter())` and of `flat_map(|v| v.iter().skip(1))`. */
  function Tails<V>(rows: seq<seq<V>>): (r: seq<seq<V>>)
    ensures |r| == |rows|
    ensures forall i :: 0 <= i < |r| ==> r[i] == DropFirst(rows[i])
  {
    seq(|rows|, i requires 0 <= i < |rows| => DropFirst(rows[i]))
  }

  // ---------------------------------------------------------------------
  // MeshPatch quads

  /** Iterating `&MeshPatch`: a = the rows but the last without their last
      entry, b = the rows but the first without their last entry, c = the
      rows but the first without their first entry, d = the rows but the
      last without their first entry, zipped into quads [a, b, c, d]. */
  function PatchFaces<V>(p: MeshPatch<V>): (r: seq<seq<V>>)
    requires |p.verts| != 0 && RowsNonEmpty(p.verts)
    ensures forall k :: 0 <= k < |r| ==> |r[k]| == 4
  {
    var rows := p.verts;
    var a := Flatten(Inits(DropLast(rows)));
    var b := Flatten(Inits(DropFirst(rows)));
    var c := Flatten(Tails(DropFirst(rows)));
    var d := Flatten(Tails(DropLast(rows)));
    Zip4(a, b, c, d)
  }

  /** The quads of one pair of adjacent rows, left to right. */
  function RowQuads<V>(p: MeshPatch<V>, i: nat): seq<seq<V>>
    requires i + 1 < |p.verts| && |p.verts[i]| != 0 && |p.verts[i + 1]| != 0
  {
    Zip4(DropLast(p.verts[i]), DropLast(p.verts[i + 1]), DropFirst(p.verts[i + 1]), DropFirst(p.verts[i]))
  }

  /** The quads of every pair of adjacent rows, pair by pair. */
  function QuadRows<V>(p: MeshPatch<V>): (r: seq<seq<seq<V>>>)
    requires |p.verts| != 0 && RowsNonEmpty(p.verts)
    ensures |r| == |p.verts| - 1
    ensures forall i :: 0 <= i < |r| ==> r[i] == RowQuads(p, i)
  {
    seq(|p.verts| - 1, i requires 0 <= i < |p.verts| - 1 => RowQuads(p, i))
  }

  predicate Rectangular<V>(rows: seq<seq<V>>, w: nat)
  {
    forall i :: 0 <= i < |rows| ==> |rows[i]| == w
  }

  /** On a rectangular patch the stream of faces is, row pair by row pair,
      the quads of each pair. */
  lemma PatchFacesByRow<V>(p: MeshPatch<V>, w: nat)
    requires |p.verts| != 0 && 1 <= w && Rectangular(p.verts, w)
    ensures PatchFaces(p) == Flatten(QuadRows(p))
  {
    var rows := p.verts;
    var ws, xs, ys, zs := Inits(DropLast(rows)), Inits(DropFirst(rows)), Tails(DropFirst(rows)), Tails(DropLast(rows));
    Zip4Flatten(ws, xs, ys, zs, QuadRows(p));
  }

  /** Row pair i holds w - 1 quads, the c-th of them `quad(i, c)`. */
  lemma RowQuadsAreQuads<V>(p: MeshPatch<V>, w: nat, i: nat)
    requires 1 <= w && Rectangular(p.verts, w) && i + 1 < |p.verts|
    ensures |RowQuads(p, i)| == w - 1
    ensures forall c :: 0 <= c < w - 1 ==> RowQuads(p, i)[c] == Quad(p, i, c)
  {
  }

  /** On a rectangular patch with q + 1 entries per row, quad r q + c of
      the stream is `quad(r, c)`. */
  lemma PatchFaceAt<V>(p: MeshPatch<V>, q: nat, r: nat, c: nat)
    requires Rectangular(p.verts, q + 1) && r + 1 < |p.verts| && c < q
    ensures RowMajor(r, c, q) < |PatchFaces(p)| && PatchFaces(p)[RowMajor(r, c, q)] == Quad(p, r, c)
  {
    PatchFacesByRow(p, q + 1);
    QuadRowsUniform(p, q + 1);
    FlattenUniformAt(QuadRows(p), q, r, c);
    RowQuadsAreQuads(p, q + 1, r);
  }

  /** Every row pair of a rectangular patch holds W - 1 quads. */
  lemma QuadRowsUniform<V>(p: MeshPatch<V>, w: nat)
    requires |p.verts| != 0 && 1 <= w && Rectangular(p.verts, w)
    ensures forall i :: 0 <= i < |QuadRows(p)| ==> |QuadRows(p)[i]| == w - 1
  {
    forall i | 0 <= i < |QuadRows(p)|
      ensures |QuadRows(p)[i]| == w - 1
    {
      RowQuadsAreQuads(p, w, i);
    }
  }

  /** A rectangular patch of R rows with q + 1 entries each yields
      (R - 1) q quads. */
  lemma PatchFacesCount<V>(p: MeshPatch<V>, q: nat)
    requires |p.verts| != 0 && Rectangular(p.verts, q + 1)
    ensures |PatchFaces(p)| == (|p.verts| - 1) * q
  {
    PatchFacesByRow(p, q + 1);
    QuadRowsUniform(p, q + 1);
    FlattenLength(QuadRows(p), q);
  }

  /** The quads come in row-major order. */
  lemma PatchFacesRowMajor<V>(p: MeshPatch<V>, q: nat)
    requires |p.verts| != 0 && Rectangular(p.verts, q + 1)
    ensures forall r: nat, c: nat :: r + 1 < |p.verts| && c < q ==>
      RowMajor(r, c, q) < |PatchFaces(p)| && PatchFaces(p)[RowMajor(r, c, q)] == Quad(p, r, c)
  {
    forall r: nat, c: nat | r + 1 < |p.verts| && c < q
      ensures RowMajor(r, c, q) < |PatchFaces(p)| && PatchFaces(p)[RowMajor(r, c, q)] == Quad(p, r, c)
    {
      PatchFaceAt(p, q, r, c);
    }
  }

  // ---------------------------------------------------------------------
  // MeshTriPatch triangles

  /** `checked_range(v, min, max)`: `v[min..max]` when min <= max, else
      nothing. */
  function CheckedRange<T>(v: seq<T>, min: Idx, max: Idx): (r: seq<T>)
    requires Resolvable(min, |v|) && Resolvable(max, |v|)
    requires Resolve(min, |v|) <= Resolve(max, |v|) ==> Resolve(max, |v|) <= |v|
    ensures Resolve(min, |v|) <= Resolve(max, |v|) ==>
      |r| == Resolve(max, |v|) - Resolve(min, |v|) && forall k :: 0 <= k < |r| ==> r[k] == v[Resolve(min, |v|) + k]
    ensures Resolve(max, |v|) < Resolve(min, |v|) ==> r == []
  {
    var lo, hi := Resolve(min, |v|), Resolve(max, |v|);
    if lo <= hi then v[lo..hi] else []
  }

  /** The interior of a row, `checked_range(v, 1, Len - 1)`. */
  function Interior<T>(v: seq<T>): (r: seq<T>)
    requires |v| != 0
    ensures |r| == if |v| < 2 then 0 else |v| - 2
    ensures forall k :: 0 <= k < |r| ==> r[k] == v[k + 1]
  {
    CheckedRange(v, FromStart(1), FromEnd(1))
  }

  /** The interior of every row: the blocks of `d`. */
  function Interiors<V>(rows: seq<seq<V>>): (r: seq<seq<V>>)
    requires RowsNonEmpty(rows)
    ensures |r| == |rows|
    ensures forall i :: 0 <= i < |r| ==> r[i] == Interior(rows[i])
  {
    seq(|rows|, i requires 0 <= i < |rows| => Interior(rows[i]))
  }

  /** `part1`: a = the rows after the first, b = every row without its
      first entry, c = every row without its last entry, zipped into
      triangles [a, b, c]. */
  function Part1<V>(t: MeshTriPatch<V>): (r: seq<seq<V>>)
    requires RowsNonEmpty(t.verts)
    ensures forall k :: 0 <= k < |r| ==> |r[k]| == 3
  {
    var rows := t.verts;
    Zip3(Flatten(DropFirst(rows)), Flatten(Tails(rows)), Flatten(Inits(rows)))
  }

  /** `part2`: d = the interior of every row but the last, e = the rows
      after the first without their last entry, f = the rows after the
      first without their first entry, zipped into triangles [d, e, f]. */
  function Part2<V>(t: MeshTriPatch<V>): (r: seq<seq<V>>)
    requires |t.verts| != 0 && RowsNonEmpty(t.verts)
    ensures forall k :: 0 <= k < |r| ==> |r[k]| == 3
  {
    var rows := t.verts;
    Zip3(Flatten(Interiors(DropLast(rows))), Flatten(Inits(DropFirst(rows))), Flatten(Tails(DropFirst(rows))))
  }

  /** Iterating `&MeshTriPatch`: `part1` chained with `part2`. */
  function TriPatchFaces<V>(t: MeshTriPatch<V>): (r: seq<seq<V>>)
    requires |t.verts| != 0 && RowsNonEmpty(t.verts)
    ensures |r| == |Part1(t)| + |Part2(t)|
    ensures forall k :: 0 <= k < |r| ==> |r[k]| == 3
    ensures forall k :: 0 <= k < |Part1(t)| ==> r[k] == Part1(t)[k]
    ensures forall k :: |Part1(t)| <= k < |r| ==> r[k] == Part2(t)[k - |Part1(t)|]
  {
    Part1(t) + Part2(t)
  }

  /** Each row one entry shorter than the one before, as `make_polar`
      builds them. */
  predicate Staircase<V>(rows: seq<seq<V>>)
  {
    forall i :: 0 <= i < |rows| - 1 ==> |rows[i + 1]| + 1 == |rows[i]|
  }

  /** The triangles of `part1` between rows i and i + 1. */
  function OuterTriangles<V>(rows: seq<seq<V>>, i: nat): seq<seq<V>>
    requires i + 1 < |rows| && |rows[i]| != 0
  {
    Zip3(rows[i + 1], DropFirst(rows[i]), DropLast(rows[i]))
  }

  /** The triangles of `part2` between rows i and i + 1. */
  function InnerTriangles<V>(rows: seq<seq<V>>, i: nat): seq<seq<V>>
    requires i + 1 < |rows| && |rows[i]| != 0 && |rows[i + 1]| != 0
  {
    Zip3(Interior(rows[i]), DropLast(rows[i + 1]), DropFirst(rows[i + 1]))
  }

  /** `part1` and `part2` between every pair of adjacent rows. */
  function OuterFans<V>(rows: seq<seq<V>>): (r: seq<seq<seq<V>>>)
    requires |rows| != 0 && RowsNonEmpty(rows)
    ensures |r| == |rows| - 1
    ensures forall i :: 0 <= i < |r| ==> r[i] == OuterTriangles(rows, i)
  {
    seq(|rows| - 1, i requires 0 <= i < |rows| - 1 => OuterTriangles(rows, i))
  }

  function InnerFans<V>(rows: seq<seq<V>>): (r: seq<seq<seq<V>>>)
    requires |rows| != 0 && RowsNonEmpty(rows)
    ensures |r| == |rows| - 1
    ensures forall i :: 0 <= i < |r| ==> r[i] == InnerTriangles(rows, i)
  {
    seq(|rows| - 1, i requires 0 <= i < |rows| - 1 => InnerTriangles(rows, i))
  }

  /** On staircase rows, `part1` holds, row pair by row pair, the
      triangles (rows[i+1][k], rows[i][k+1], rows[i][k]). */
  lemma Part1ByRow<V>(t: MeshTriPatch<V>)
    requires |t.verts| != 0 && RowsNonEmpty(t.verts) && Staircase(t.verts)
    ensures Part1(t) == Flatten(OuterFans(t.verts))
  {
    var rows := t.verts;
    Zip3FlattenLonger(DropFirst(rows), Tails(rows), Inits(rows), OuterFans(rows));
  }

  /** On staircase rows, `part2` holds, row pair by row pair, the
      triangles (rows[i][k+1], rows[i+1][k], rows[i+1][k+1]). */
  lemma Part2ByRow<V>(t: MeshTriPatch<V>)
    requires |t.verts| != 0 && RowsNonEmpty(t.verts) && Staircase(t.verts)
    ensures Part2(t) == Flatten(InnerFans(t.verts))
  {
    var rows := t.verts;
    var xs, ys, zs := Interiors(DropLast(rows)), Inits(DropFirst(rows)), Tails(DropFirst(rows));
    Zip3Flatten(xs, ys, zs, InnerFans(rows));
  }

  /** Between rows i and i + 1 of a staircase, both fans have one
      triangle per entry of the shorter row i + 1 (`part2` one fewer),
      with these corners. */
  lemma RowTriangles<V>(rows: seq<seq<V>>, i: nat)
    requires i + 1 < |rows| && RowsNonEmpty(rows) && Staircase(rows)
    ensures |OuterTriangles(rows, i)| == |rows[i + 1]|
    ensures forall k :: 0 <= k < |rows[i + 1]| ==>
      OuterTriangles(rows, i)[k] == [rows[i + 1][k], rows[i][k + 1], rows[i][k]]
    ensures |InnerTriangles(rows, i)| == |rows[i + 1]| - 1
    ensures forall k :: 0 <= k < |rows[i + 1]| - 1 ==>
      InnerTriangles(rows, i)[k] == [rows[i][k + 1], rows[i + 1][k], rows[i + 1][k + 1]]
  {
  }

  /** Row n of a polar patch holds as many vertices as the theta map
      iterates, less n. */
  lemma PolarRowLength<V>(rMap: UMap, thetaMap: UMap, f: (real, real) -> V, interp: Interp, n: nat)
    requires PolarSamples(rMap, thetaMap) && n < |Iter(rMap)| <= |Iter(thetaMap)|
    ensures |PolarGrid(rMap, thetaMap, f, interp)[n]| == |Iter(thetaMap)| - n
  {
    assert |PolarGrid(rMap, thetaMap, f, interp)[n]| == |Iter(Reduce(thetaMap, n))|;
  }

  /** When the theta map iterates at least as often as the radius map,
      `make_polar` builds a staircase of non-empty rows, and its triangles
      are, row pair by row pair, the outer fan followed (after all outer
      fans) by the inner fans. */
  lemma PolarTriangles<V>(rMap: UMap, thetaMap: UMap, f: (real, real) -> V, interp: Interp)
    requires PolarSamples(rMap, thetaMap) && 0 < |Iter(rMap)| <= |Iter(thetaMap)|
    ensures var rows := PolarGrid(rMap, thetaMap, f, interp);
      && |rows| == |Iter(rMap)| && RowsNonEmpty(rows) && Staircase(rows)
      && TriPatchFaces(MeshTriPatch(rows)) == Flatten(OuterFans(rows)) + Flatten(InnerFans(rows))
  {
    var rows := PolarGrid(rMap, thetaMap, f, interp);
    forall n | 0 <= n < |rows|
      ensures |rows[n]| == |Iter(thetaMap)| - n
    {
      PolarRowLength(rMap, thetaMap, f, interp, n);
    }
    Part1ByRow(MeshTriPatch(rows));
    Part2ByRow(MeshTriPatch(rows));
  }

  // ---------------------------------------------------------------------
  // Flipped

  /** Iterating `Flipped(faces)`: every face with its corners reversed. */
  function Flip<T>(faces: seq<seq<T>>): (r: seq<seq<T>>)
    ensures |r| == |faces|
    ensures forall k :: 0 <= k < |r| ==> |r[k]| == |faces[k]|
    ensures forall k, c :: 0 <= k < |r| && 0 <= c < |r[k]| ==> r[k][c] == faces[k][|faces[k]| - 1 - c]
  {
    seq(|faces|, k requires 0 <= k < |faces| => Reverse(faces[k]))
  }

  /** Flipping twice gives back the faces. */
  lemma FlipFlip<T>(faces: seq<seq<T>>)
    ensures Flip(Flip(faces)) == faces
  {
    forall k | 0 <= k < |faces|
      ensures Flip(Flip(faces))[k] == faces[k]
    {
      ReverseReverse(faces[k]);
    }
  }
}
