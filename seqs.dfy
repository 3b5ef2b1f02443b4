/** Sequence helpers shared by the model: flattening (`flatten`, `flat_map`),
    zipping three or four streams (`zip`), and reversal (`reverse`). */
module Seqs {

  function Min(a: int, b: int): int
  {
    if a <= b then a else b
  }

  /** Concatenation of all inner sequences, left to right. */
  function Flatten<T>(ss: seq<seq<T>>): seq<T>
  {
    if ss == [] then [] else Flatten(ss[..|ss| - 1]) + ss[|ss| - 1]
  }

  lemma {:induction false} FlattenAppend<T>(a: seq<seq<T>>, b: seq<seq<T>>)
    ensures Flatten(a + b) == Flatten(a) + Flatten(b)
    decreases |b|
  {
    if b == [] {
      assert a + b == a;
    } else {
      var n := |b| - 1;
      assert (a + b)[..|a + b| - 1] == a + b[..n];
      FlattenAppend(a, b[..n]);
      AppendAssoc(Flatten(a), Flatten(b[..n]), b[n]);
    }
  }

  lemma FlattenSnoc<T>(ss: seq<seq<T>>, s: seq<T>)
    ensures Flatten(ss + [s]) == Flatten(ss) + s
  {
    assert (ss + [s])[..|ss|] == ss;
  }

  /** Element j of ss[i] sits in the flattening right after everything
      flattened before ss[i]. */
  lemma {:induction false} FlattenAt<T>(ss: seq<seq<T>>, i: nat, j: nat)
    requires i < |ss| && j < |ss[i]|
    ensures |Flatten(ss[..i])| + j < |Flatten(ss)|
    ensures Flatten(ss)[|Flatten(ss[..i])| + j] == ss[i][j]
    decreases |ss|
  {
    var n := |ss| - 1;
    var init := ss[..n];
    assert Flatten(ss) == Flatten(init) + ss[n];
    if i < n {
      FlattenAt(init, i, j);
      assert init[..i] == ss[..i];
      assert init[i] == ss[i];
    }
  }

  /** Triples flatten to three elements each: element 3i + j is ss[i][j]. */
  lemma FlattenTriples<T>(ss: seq<seq<T>>)
    requires forall i :: 0 <= i < |ss| ==> |ss[i]| == 3
    ensures |Flatten(ss)| == 3 * |ss|
    ensures forall i, j :: 0 <= i < |ss| && 0 <= j < 3 ==> (3 * i + j < |Flatten(ss)| && Flatten(ss)[3 * i + j] == ss[i][j])
  {
    FlattenLength(ss, 3);
    forall i, j | 0 <= i < |ss| && 0 <= j < 3
      ensures 3 * i + j < |Flatten(ss)| && Flatten(ss)[3 * i + j] == ss[i][j]
    {
      FlattenUniformAt(ss, 3, i, j);
    }
  }

  lemma AppendAssoc<T>(a: seq<T>, b: seq<T>, c: seq<T>)
    ensures (a + b) + c == a + (b + c)
  {
  }

  lemma TakeSnoc<T>(s: seq<T>, k: nat)
    requires k < |s|
    ensures s[..k + 1] == s[..k] + [s[k]]
  {
  }

  lemma {:induction false} FlattenLength<T>(ss: seq<seq<T>>, w: nat)
    requires forall i :: 0 <= i < |ss| ==> |ss[i]| == w
    ensures |Flatten(ss)| == |ss| * w
    decreases |ss|
  {
    if ss != [] {
      var n := |ss| - 1;
      FlattenLength(ss[..n], w);
      MulSucc(n, w);
    }
  }

  /** Position of entry (r, c) in a row-major stream of rows of width w. */
  function RowMajor(r: nat, c: nat, w: nat): nat
  {
    r * w + c
  }

  lemma FlattenUniformAt<T>(ss: seq<seq<T>>, w: nat, i: nat, j: nat)
    requires forall i :: 0 <= i < |ss| ==> |ss[i]| == w
    requires i < |ss| && j < w
    ensures RowMajor(i, j, w) < |Flatten(ss)| && Flatten(ss)[RowMajor(i, j, w)] == ss[i][j]
  {
    FlattenLength(ss[..i], w);
    FlattenAt(ss, i, j);
  }

  lemma MulSucc(n: nat, w: nat)
    ensures (n + 1) * w == n * w + w
  {
  }

  /** Element k of a zip is the k-th element of each stream; the zip stops
      at the shortest stream. */
  function Zip3<T>(a: seq<T>, b: seq<T>, c: seq<T>): (r: seq<seq<T>>)
    ensures |r| == Min(Min(|a|, |b|), |c|)
  {
    seq(Min(Min(|a|, |b|), |c|), k requires 0 <= k < Min(Min(|a|, |b|), |c|) => [a[k], b[k], c[k]])
  }

  function Zip4<T>(a: seq<T>, b: seq<T>, c: seq<T>, d: seq<T>): (r: seq<seq<T>>)
    ensures |r| == Min(Min(|a|, |b|), Min(|c|, |d|))
  {
    var n := Min(Min(|a|, |b|), Min(|c|, |d|));
    seq(n, k requires 0 <= k < n => [a[k], b[k], c[k], d[k]])
  }

  lemma Zip3Append<T>(a: seq<T>, b: seq<T>, c: seq<T>, a': seq<T>, b': seq<T>, c': seq<T>)
    requires |a| == |b| == |c|
    ensures Zip3(a + a', b + b', c + c') == Zip3(a, b, c) + Zip3(a', b', c')
  {
  }

  lemma Zip4Append<T>(a: seq<T>, b: seq<T>, c: seq<T>, d: seq<T>, a': seq<T>, b': seq<T>, c': seq<T>, d': seq<T>)
    requires |a| == |b| == |c| == |d|
    ensures Zip4(a + a', b + b', c + c', d + d') == Zip4(a, b, c, d) + Zip4(a', b', c', d')
  {
  }

  /** Zipping three flattenings whose blocks have equal lengths is the
      flattening of the block-wise zips. */
  lemma {:induction false} Zip3Flatten<T>(xs: seq<seq<T>>, ys: seq<seq<T>>, zs: seq<seq<T>>, blocks: seq<seq<seq<T>>>)
    requires |xs| == |ys| == |zs| == |blocks|
    requires forall i :: 0 <= i < |xs| ==> |xs[i]| == |ys[i]| == |zs[i]|
    requires forall i :: 0 <= i < |blocks| ==> blocks[i] == Zip3(xs[i], ys[i], zs[i])
    ensures |Flatten(xs)| == |Flatten(ys)| == |Flatten(zs)|
    ensures Zip3(Flatten(xs), Flatten(ys), Flatten(zs)) == Flatten(blocks)
    decreases |xs|
  {
    if xs != [] {
      var n := |xs| - 1;
      Zip3Flatten(xs[..n], ys[..n], zs[..n], blocks[..n]);
      assert Flatten(xs) == Flatten(xs[..n]) + xs[n];
      assert Flatten(ys) == Flatten(ys[..n]) + ys[n];
      assert Flatten(zs) == Flatten(zs[..n]) + zs[n];
      Zip3Append(Flatten(xs[..n]), Flatten(ys[..n]), Flatten(zs[..n]), xs[n], ys[n], zs[n]);
      assert Flatten(blocks) == Flatten(blocks[..n]) + blocks[n];
    }
  }

  /** As Zip3Flatten when the second and third streams have one block
      more than the first: the zip stops before that block. */
  lemma Zip3FlattenLonger<T>(xs: seq<seq<T>>, ys: seq<seq<T>>, zs: seq<seq<T>>, blocks: seq<seq<seq<T>>>)
    requires |ys| == |zs| == |xs| + 1 && |blocks| == |xs|
    requires forall i :: 0 <= i < |xs| ==> |xs[i]| == |ys[i]| == |zs[i]|
    requires forall i :: 0 <= i < |blocks| ==> blocks[i] == Zip3(xs[i], ys[i], zs[i])
    ensures Zip3(Flatten(xs), Flatten(ys), Flatten(zs)) == Flatten(blocks)
  {
    var n := |xs|;
    var ys', zs' := ys[..n], zs[..n];
    assert ys == ys' + [ys[n]];
    assert zs == zs' + [zs[n]];
    FlattenSnoc(ys', ys[n]);
    FlattenSnoc(zs', zs[n]);
    Zip3Flatten(xs, ys', zs', blocks);
    Zip3Append(Flatten(xs), Flatten(ys'), Flatten(zs'), [], ys[n], zs[n]);
    assert Flatten(xs) + [] == Flatten(xs);
  }

  lemma {:induction false} Zip4Flatten<T>(ws: seq<seq<T>>, xs: seq<seq<T>>, ys: seq<seq<T>>, zs: seq<seq<T>>, blocks: seq<seq<seq<T>>>)
    requires |ws| == |xs| == |ys| == |zs| == |blocks|
    requires forall i :: 0 <= i < |xs| ==> |ws[i]| == |xs[i]| == |ys[i]| == |zs[i]|
    requires forall i :: 0 <= i < |blocks| ==> blocks[i] == Zip4(ws[i], xs[i], ys[i], zs[i])
    ensures |Flatten(ws)| == |Flatten(xs)| == |Flatten(ys)| == |Flatten(zs)|
    ensures Zip4(Flatten(ws), Flatten(xs), Flatten(ys), Flatten(zs)) == Flatten(blocks)
    decreases |xs|
  {
    if xs != [] {
      var n := |xs| - 1;
      Zip4Flatten(ws[..n], xs[..n], ys[..n], zs[..n], blocks[..n]);
      assert Flatten(ws) == Flatten(ws[..n]) + ws[n];
      assert Flatten(xs) == Flatten(xs[..n]) + xs[n];
      assert Flatten(ys) == Flatten(ys[..n]) + ys[n];
      assert Flatten(zs) == Flatten(zs[..n]) + zs[n];
      Zip4Append(Flatten(ws[..n]), Flatten(xs[..n]), Flatten(ys[..n]), Flatten(zs[..n]), ws[n], xs[n], ys[n], zs[n]);
      assert Flatten(blocks) == Flatten(blocks[..n]) + blocks[n];
    }
  }

  /** The elements of s in reverse order. */
  function Reverse<T>(s: seq<T>): (r: seq<T>)
    ensures |r| == |s|
  {
    seq(|s|, i requires 0 <= i < |s| => s[|s| - 1 - i])
  }

  lemma ReverseReverse<T>(s: seq<T>)
    ensures Reverse(Reverse(s)) == s
  {
  }
}
