/** Parametric pieces (`pieces.rs`): the integer bookkeeping of `UMap`, the
    grids built by `MeshPatch::make`, `MeshTriPatch::make_polar` and
    `MeshStrand::make`, index resolution on patches (`map_i`, `map_j`,
    `vert`) and the virtual linear segments along patch edges and strands.

    `UMap::map`, the floating-point interpolation from an iteration index
    to a parameter, is not modelled: it is the parameter `interp` of the
    builders, and the sample functions are uninterpreted. */
module Pieces {
  import opened Wrappers

  // ---------------------------------------------------------------------
  // Integer casts and end-relative indices

  /** `x as usize` for an `isize` x: negative values wrap modulo 2^64. */
  function AsUsize(x: int): (r: nat)
    ensures 0 <= x ==> r == x
    ensures -0x1_0000_0000_0000_0000 <= x < 0 ==> r == x + 0x1_0000_0000_0000_0000
  {
    if x >= 0 then x else x % 0x1_0000_0000_0000_0000
  }

  /** An index counted from the start (`i`) or back from the length
      (`Len - k`), as `index_from_end::IntoIndex` accepts. */
  datatype Idx = FromStart(n: nat) | FromEnd(k: nat)

  /** `Len - k` needs k <= len (the subtraction is on `usize`). */
  predicate Resolvable(idx: Idx, len: nat)
  {
    idx.FromEnd? ==> idx.k <= len
  }

  /** `into_index(len)`. */
  function Resolve(idx: Idx, len: nat): (r: nat)
    requires Resolvable(idx, len)
    ensures idx.FromStart? ==> r == idx.n
    ensures idx.FromEnd? ==> r + idx.k == len
  {
    match idx
    case FromStart(n) => n
    case FromEnd(k) => len - k
  }

  // ---------------------------------------------------------------------
  // UMap

  /** An inclusive iteration range `iter`, the input range `input` it is a
      part of, and the output parameter range `output`. */
  datatype UMap = UMap(iter: (nat, nat), input: (nat, nat), output: (real, real))

  /** Stands for `UMap::map`: the parameter sampled at an iteration index. */
  type Interp = (UMap, nat) -> real

  /** `iter()`: the indices `iter.0..=iter.1` in increasing order. */
  function Iter(m: UMap): (r: seq<nat>)
    ensures |r| == if m.iter.0 <= m.iter.1 then m.iter.1 - m.iter.0 + 1 else 0
    ensures forall k :: 0 <= k < |r| ==> r[k] == m.iter.0 + k
  {
    seq(if m.iter.0 <= m.iter.1 then m.iter.1 - m.iter.0 + 1 else 0, k => m.iter.0 + k)
  }

  /** `len()`; the `usize` subtraction needs iter.0 <= iter.1. */
  function Len(m: UMap): (r: nat)
    requires m.iter.0 <= m.iter.1
    ensures m.iter.0 + r == m.iter.1
  {
    m.iter.1 - m.iter.0
  }

  /** `input_size()`; the `usize` subtraction needs input.0 <= input.1. */
  function InputSize(m: UMap): (r: nat)
    requires m.input.0 <= m.input.1
    ensures m.input.0 + r == m.input.1
  {
    m.input.1 - m.input.0
  }

  /** `is_empty()`: the iteration starts and ends at the same index. */
  function IsEmpty(m: UMap): (r: bool)
    requires m.iter.0 <= m.iter.1
    ensures r <==> m.iter.0 == m.iter.1
  {
    Len(m) == 0
  }

  /** `start_offset()`: how far the iteration starts inside the input. */
  function StartOffset(m: UMap): (r: int)
    ensures m.input.0 + r == m.iter.0
  {
    m.iter.0 as int - m.input.0 as int
  }

  /** `end_offset()`: how far the iteration ends before the input does. */
  function EndOffset(m: UMap): (r: int)
    ensures m.iter.1 + r == m.input.1
  {
    m.input.1 as int - m.iter.1 as int
  }

  /** The iteration yields exactly the indices between its bounds, one
      more than `len()`; an "empty" map still yields its one index. */
  lemma IterRange(m: UMap)
    ensures forall i :: i in Iter(m) <==> m.iter.0 <= i <= m.iter.1
    ensures m.iter.0 <= m.iter.1 ==> |Iter(m)| == Len(m) + 1
    ensures m.iter.0 <= m.iter.1 ==> (IsEmpty(m) <==> |Iter(m)| == 1)
  {
    forall i | m.iter.0 <= i <= m.iter.1
      ensures i in Iter(m)
    {
      assert Iter(m)[i - m.iter.0] == i;
    }
  }

  /** `reduce(amount)`: both upper bounds move down by `amount`. */
  function Reduce(m: UMap, amount: nat): (r: UMap)
    requires amount <= m.iter.1 && amount <= m.input.1
    ensures r.iter.0 == m.iter.0 && r.input.0 == m.input.0 && r.output == m.output
    ensures m.iter.0 + amount <= m.iter.1 ==> r.iter.0 <= r.iter.1 && Len(r) + amount == Len(m)
    ensures m.input.0 + amount <= m.input.1 ==> r.input.0 <= r.input.1 && InputSize(r) + amount == InputSize(m)
    ensures StartOffset(r) == StartOffset(m) && EndOffset(r) == EndOffset(m)
  {
    UMap((m.iter.0, m.iter.1 - amount), (m.input.0, m.input.1 - amount), m.output)
  }

  /** One endpoint of a `umap!` invocation: its index, whether it is
      written `!=` (excluded from the iteration) and an optional `=> value`. */
  datatype Bound = Bound(at: nat, excluded: bool, value: Option<real>)

  /** The sixteen forms of `umap!`. */
  function UMapOf(min: Bound, max: Bound): (m: UMap)
    requires max.excluded ==> 1 <= max.at
    ensures m.input == (min.at, max.at)
    ensures StartOffset(m) == if min.excluded then 1 else 0
    ensures EndOffset(m) == if max.excluded then 1 else 0
    ensures m.output.0 == (if min.value.Some? then min.value.value else 0.0)
    ensures m.output.1 == (if max.value.Some? then max.value.value else 1.0)
  {
    UMap((if min.excluded then min.at + 1 else min.at, if max.excluded then max.at - 1 else max.at),
         (min.at, max.at),
         (GetOr(min.value, 0.0), GetOr(max.value, 1.0)))
  }

  /** `map(i)` can be called at every iteration index: it subtracts
      `input.0` from the index and `input.0` from `input.1`, both `usize`. */
  predicate Samples(m: UMap)
  {
    m.iter.0 <= m.iter.1 ==> m.input.0 <= m.iter.0 && m.input.0 <= m.input.1
  }

  // ---------------------------------------------------------------------
  // MeshPatch

  datatype MeshPatch<V> = MeshPatch(verts: seq<seq<V>>, lenU: nat, lenV: nat,
                                    startOffsetU: int, startOffsetV: int,
                                    endOffsetU: int, endOffsetV: int)

  /** The grid `make` samples: row a for the a-th u index, entry b of it
      for the b-th v index. */
  function PatchGrid<V>(uMap: UMap, vMap: UMap, f: (real, real) -> V, interp: Interp): (g: seq<seq<V>>)
    ensures |g| == |Iter(uMap)|
    ensures forall a :: 0 <= a < |g| ==> |g[a]| == |Iter(vMap)|
  {
    var ixs, js := Iter(uMap), Iter(vMap);
    seq(|ixs|, a requires 0 <= a < |ixs| =>
      seq(|js|, b requires 0 <= b < |js| => f(interp(uMap, ixs[a]), interp(vMap, js[b]))))
  }

  /** The patch `make` returns: the grid, the input sizes and the offsets. */
  function Patch<V>(uMap: UMap, vMap: UMap, f: (real, real) -> V, interp: Interp): (p: MeshPatch<V>)
    requires uMap.input.0 <= uMap.input.1 && vMap.input.0 <= vMap.input.1
    ensures p.verts == PatchGrid(uMap, vMap, f, interp)
    ensures uMap.input.0 + p.lenU == uMap.input.1 && vMap.input.0 + p.lenV == vMap.input.1
    ensures uMap.input.0 + p.startOffsetU == uMap.iter.0 && uMap.iter.1 + p.endOffsetU == uMap.input.1
    ensures vMap.input.0 + p.startOffsetV == vMap.iter.0 && vMap.iter.1 + p.endOffsetV == vMap.input.1
  {
    MeshPatch(PatchGrid(uMap, vMap, f, interp), InputSize(uMap), InputSize(vMap),
              StartOffset(uMap), StartOffset(vMap), EndOffset(uMap), EndOffset(vMap))
  }

  /** The grid has one row per u index and one entry per v index, sampled
      at those indices. */
  lemma PatchGridShape<V>(uMap: UMap, vMap: UMap, f: (real, real) -> V, interp: Interp)
    ensures var g := PatchGrid(uMap, vMap, f, interp);
      && |g| == |Iter(uMap)|
      && (forall a :: 0 <= a < |g| ==> |g[a]| == |Iter(vMap)|)
      && forall a, b :: 0 <= a < |g| && 0 <= b < |Iter(vMap)| ==>
           g[a][b] == f(interp(uMap, uMap.iter.0 + a), interp(vMap, vMap.iter.0 + b))
  {
  }

  /** `MeshPatch::make`: sample one row per u index, panic when there are
      no rows, record the input sizes and offsets of both maps. */
  method MakePatch<V>(uMap: UMap, vMap: UMap, f: (real, real) -> V, interp: Interp) returns (r: Result<MeshPatch<V>>)
    requires uMap.iter.0 <= uMap.iter.1 ==>
      Samples(uMap) && Samples(vMap) && uMap.input.0 <= uMap.input.1 && vMap.input.0 <= vMap.input.1
    ensures r.Failure? <==> uMap.iter.1 < uMap.iter.0
    ensures r.Success? ==>
      uMap.input.0 <= uMap.input.1 && vMap.input.0 <= vMap.input.1 && r.value == Patch(uMap, vMap, f, interp)
  {
    var verts: seq<seq<V>> := [];
    var ixs, js := Iter(uMap), Iter(vMap);
    for a := 0 to |ixs|
      invariant |verts| == a
      invariant forall a' :: 0 <= a' < a ==> verts[a'] == PatchGrid(uMap, vMap, f, interp)[a']
    {
      var row: seq<V> := [];
      var u := interp(uMap, ixs[a]);
      for b := 0 to |js|
        invariant |row| == b
        invariant forall b' :: 0 <= b' < b ==> row[b'] == f(u, interp(vMap, js[b']))
      {
        var v := interp(vMap, js[b]);
        row := row + [f(u, v)];
      }
      verts := verts + [row];
    }
    if |verts| == 0 {
      return Failure("Attempted to create a mesh patch with no verts!");
    }
    r := Success(MeshPatch(verts, InputSize(uMap), InputSize(vMap),
                           StartOffset(uMap), StartOffset(vMap), EndOffset(uMap), EndOffset(vMap)));
  }

  /** `quad(i, j)`: the cell with corner (i, j), counter-clockwise from it. */
  function Quad<V>(p: MeshPatch<V>, i: nat, j: nat): (q: seq<V>)
    requires i + 1 < |p.verts| && j + 1 < |p.verts[i]| && j + 1 < |p.verts[i + 1]|
    ensures |q| == 4
    ensures q[0] == p.verts[i][j] && q[1] == p.verts[i + 1][j]
    ensures q[2] == p.verts[i + 1][j + 1] && q[3] == p.verts[i][j + 1]
  {
    [p.verts[i][j], p.verts[i + 1][j], p.verts[i + 1][j + 1], p.verts[i][j + 1]]
  }

  /** `map_i`: an index relative to the u input, as a row of `verts`. */
  function MapI<V>(p: MeshPatch<V>, i: nat): (r: nat)
    ensures p.startOffsetU <= i ==> r + p.startOffsetU == i
  {
    AsUsize(i - p.startOffsetU)
  }

  /** `map_j`: an index relative to the v input, as a column of `verts`. */
  function MapJ<V>(p: MeshPatch<V>, j: nat): (r: nat)
    ensures p.startOffsetV <= j ==> r + p.startOffsetV == j
  {
    AsUsize(j - p.startOffsetV)
  }

  /** `vert(i, j)`: resolve both indices against the input sizes, then
      read the grid at the mapped row and column. */
  function Vert<V>(p: MeshPatch<V>, i: Idx, j: Idx): (v: V)
    requires Resolvable(i, p.lenU) && Resolvable(j, p.lenV)
    requires MapI(p, Resolve(i, p.lenU)) < |p.verts|
    requires MapJ(p, Resolve(j, p.lenV)) < |p.verts[MapI(p, Resolve(i, p.lenU))]|
    ensures v == p.verts[MapI(p, Resolve(i, p.lenU))][MapJ(p, Resolve(j, p.lenV))]
  {
    p.verts[MapI(p, Resolve(i, p.lenU))][MapJ(p, Resolve(j, p.lenV))]
  }

  /** `len_u()` and `len_v()` count the stored rows and columns (not the
      input sizes that `vert` resolves against). */
  function LenU<V>(p: MeshPatch<V>): (r: nat)
    ensures r == |p.verts|
  {
    |p.verts|
  }

  function LenV<V>(p: MeshPatch<V>): (r: nat)
    requires |p.verts| != 0
    ensures r == |p.verts[0]|
  {
    |p.verts[0]|
  }

  /** On a patch from `make`, `vert(i, j)` is the vertex sampled at input
      position i of the u map and j of the v map: from the input start for
      a plain index, back from the input end for `Len - k`. */
  lemma VertSamplesInput<V>(uMap: UMap, vMap: UMap, f: (real, real) -> V, interp: Interp, i: Idx, j: Idx)
    requires uMap.input.0 <= uMap.input.1 && vMap.input.0 <= vMap.input.1
    requires Resolvable(i, InputSize(uMap)) && Resolvable(j, InputSize(vMap))
    requires uMap.iter.0 <= uMap.input.0 + Resolve(i, InputSize(uMap)) <= uMap.iter.1
    requires vMap.iter.0 <= vMap.input.0 + Resolve(j, InputSize(vMap)) <= vMap.iter.1
    ensures var p := Patch(uMap, vMap, f, interp);
      && Resolvable(i, p.lenU) && Resolvable(j, p.lenV)
      && MapI(p, Resolve(i, p.lenU)) < |p.verts|
      && MapJ(p, Resolve(j, p.lenV)) < |p.verts[MapI(p, Resolve(i, p.lenU))]|
      && Vert(p, i, j) == f(interp(uMap, uMap.input.0 + Resolve(i, p.lenU)), interp(vMap, vMap.input.0 + Resolve(j, p.lenV)))
    ensures i.FromEnd? ==> uMap.input.0 + Resolve(i, InputSize(uMap)) == uMap.input.1 - i.k
  {
    var p := Patch(uMap, vMap, f, interp);
    PatchGridShape(uMap, vMap, f, interp);
    var a := uMap.input.0 + Resolve(i, p.lenU) - uMap.iter.0;
    var b := vMap.input.0 + Resolve(j, p.lenV) - vMap.iter.0;
    assert MapI(p, Resolve(i, p.lenU)) == a;
    assert MapJ(p, Resolve(j, p.lenV)) == b;
  }

  /** Every row of a patch from `make` has the same width. */
  lemma PatchRectangular<V>(uMap: UMap, vMap: UMap, f: (real, real) -> V, interp: Interp)
    requires uMap.input.0 <= uMap.input.1 && vMap.input.0 <= vMap.input.1
    ensures var p := Patch(uMap, vMap, f, interp);
      && LenU(p) == |Iter(uMap)|
      && forall a :: 0 <= a < |p.verts| ==> |p.verts[a]| == |Iter(vMap)|
  {
    PatchGridShape(uMap, vMap, f, interp);
  }

  // ---------------------------------------------------------------------
  // Virtual linear segments

  /** A run of vertices addressed by input index through `at` (the closure
      `map` of the source), with the offsets and length of the input. */
  datatype Segment<V> = Segment(startOffset: int, endOffset: int, len: nat, at: nat --> V)

  /** `verts(start, end)`: the vertices at the resolved indices
      `start..end`, none when start >= end. */
  function Verts<V>(seg: Segment<V>, start: Idx, end: Idx): (r: seq<V>)
    requires Resolvable(start, seg.len) && Resolvable(end, seg.len)
    requires forall i :: Resolve(start, seg.len) <= i < Resolve(end, seg.len) ==> seg.at.requires(i)
    ensures |r| == if Resolve(start, seg.len) <= Resolve(end, seg.len) then Resolve(end, seg.len) - Resolve(start, seg.len) else 0
    ensures forall k :: 0 <= k < |r| ==> r[k] == seg.at(Resolve(start, seg.len) + k)
  {
    var s, e := Resolve(start, seg.len), Resolve(end, seg.len);
    seq(if s <= e then e - s else 0, k requires 0 <= k < (if s <= e then e - s else 0) => seg.at(s + k))
  }

  /** `verts1(index)`: the one vertex at the resolved index. */
  function Verts1<V>(seg: Segment<V>, index: Idx): (r: seq<V>)
    requires Resolvable(index, seg.len) && seg.at.requires(Resolve(index, seg.len))
    ensures r == [seg.at(Resolve(index, seg.len))]
  {
    var i := Resolve(index, seg.len);
    Verts(seg, FromStart(i), FromStart(i + 1))
  }

  /** The index range `all()` covers: from the start offset to one past
      the last iterated index, both cast to `usize`. */
  function AllStart<V>(seg: Segment<V>): nat
  {
    AsUsize(seg.startOffset)
  }

  function AllEnd<V>(seg: Segment<V>): nat
  {
    AsUsize(seg.len as int + 1 - seg.endOffset)
  }

  /** `all()`, which is also what iterating a segment yields. */
  function All<V>(seg: Segment<V>): (r: seq<V>)
    requires forall i :: AllStart(seg) <= i < AllEnd(seg) ==> seg.at.requires(i)
    ensures |r| == if AllStart(seg) <= AllEnd(seg) then AllEnd(seg) - AllStart(seg) else 0
    ensures forall k :: 0 <= k < |r| ==> r[k] == seg.at(AllStart(seg) + k)
  {
    Verts(seg, FromStart(AllStart(seg)), FromStart(AllEnd(seg)))
  }

  /** `u_start`, `u_end`: the first and the last row, by v input index. */
  function UStart<V>(p: MeshPatch<V>): (r: Segment<V>)
    ensures r.startOffset == p.startOffsetV && r.endOffset == p.endOffsetV && r.len == p.lenV
    ensures forall j :: |p.verts| != 0 && MapJ(p, j) < |p.verts[0]| ==>
      r.at.requires(j) && r.at(j) == p.verts[0][MapJ(p, j)]
  {
    Segment(p.startOffsetV, p.endOffsetV, p.lenV,
            j requires |p.verts| != 0 && MapJ(p, j) < |p.verts[0]| => p.verts[0][MapJ(p, j)])
  }

  function UEnd<V>(p: MeshPatch<V>): (r: Segment<V>)
    ensures r.startOffset == p.startOffsetV && r.endOffset == p.endOffsetV && r.len == p.lenV
    ensures forall j :: |p.verts| != 0 && MapJ(p, j) < |p.verts[|p.verts| - 1]| ==>
      r.at.requires(j) && r.at(j) == p.verts[|p.verts| - 1][MapJ(p, j)]
  {
    Segment(p.startOffsetV, p.endOffsetV, p.lenV,
            j requires |p.verts| != 0 && MapJ(p, j) < |p.verts[|p.verts| - 1]| => p.verts[|p.verts| - 1][MapJ(p, j)])
  }

  /** `v_start`, `v_end`: the first and the last column, by u input index. */
  function VStart<V>(p: MeshPatch<V>): (r: Segment<V>)
    ensures r.startOffset == p.startOffsetU && r.endOffset == p.endOffsetU && r.len == p.lenU
    ensures forall i :: MapI(p, i) < |p.verts| && |p.verts[MapI(p, i)]| != 0 ==>
      r.at.requires(i) && r.at(i) == p.verts[MapI(p, i)][0]
  {
    Segment(p.startOffsetU, p.endOffsetU, p.lenU,
            i requires MapI(p, i) < |p.verts| && |p.verts[MapI(p, i)]| != 0 => p.verts[MapI(p, i)][0])
  }

  function VEnd<V>(p: MeshPatch<V>): (r: Segment<V>)
    ensures r.startOffset == p.startOffsetU && r.endOffset == p.endOffsetU && r.len == p.lenU
    ensures forall i :: MapI(p, i) < |p.verts| && |p.verts[MapI(p, i)]| != 0 ==>
      r.at.requires(i) && r.at(i) == p.verts[MapI(p, i)][|p.verts[MapI(p, i)]| - 1]
  {
    Segment(p.startOffsetU, p.endOffsetU, p.lenU,
            i requires MapI(p, i) < |p.verts| && |p.verts[MapI(p, i)]| != 0 =>
              p.verts[MapI(p, i)][|p.verts[MapI(p, i)]| - 1])
  }

  /** The range `all()` covers, for a map whose iteration starts inside
      its input: exactly the iterated indices, as offsets from `input.0`. */
  lemma AllCoversIteration<V>(m: UMap, at: nat --> V)
    requires m.iter.0 <= m.iter.1 && Samples(m)
    ensures var seg := Segment(StartOffset(m), EndOffset(m), InputSize(m), at);
      AllStart(seg) == m.iter.0 - m.input.0 && AllEnd(seg) == AllStart(seg) + |Iter(m)|
  {
  }

  /** On a patch from `make`, the edge segments yield exactly the first
      and last row and the first and last column, in order: `u_start`
      is row 0. */
  lemma UStartIsFirstRow<V>(uMap: UMap, vMap: UMap, f: (real, real) -> V, interp: Interp)
    requires uMap.iter.0 <= uMap.iter.1 && vMap.iter.0 <= vMap.iter.1
    requires Samples(uMap) && Samples(vMap)
    ensures var p := Patch(uMap, vMap, f, interp);
      && |p.verts| != 0
      && (forall i :: AllStart(UStart(p)) <= i < AllEnd(UStart(p)) ==> UStart(p).at.requires(i))
      && All(UStart(p)) == p.verts[0]
  {
    var p := Patch(uMap, vMap, f, interp);
    PatchGridShape(uMap, vMap, f, interp);
    AllCoversIteration(vMap, UStart(p).at);
    assert forall i :: AllStart(UStart(p)) <= i ==> MapJ(p, i) == i - AllStart(UStart(p));
  }

  /** `u_end` is the last row. */
  lemma UEndIsLastRow<V>(uMap: UMap, vMap: UMap, f: (real, real) -> V, interp: Interp)
    requires uMap.iter.0 <= uMap.iter.1 && vMap.iter.0 <= vMap.iter.1
    requires Samples(uMap) && Samples(vMap)
    ensures var p := Patch(uMap, vMap, f, interp);
      && |p.verts| != 0
      && (forall i :: AllStart(UEnd(p)) <= i < AllEnd(UEnd(p)) ==> UEnd(p).at.requires(i))
      && All(UEnd(p)) == p.verts[|p.verts| - 1]
  {
    var p := Patch(uMap, vMap, f, interp);
    PatchGridShape(uMap, vMap, f, interp);
    AllCoversIteration(vMap, UEnd(p).at);
    assert forall i :: AllStart(UEnd(p)) <= i ==> MapJ(p, i) == i - AllStart(UEnd(p));
  }

  /** `v_start` is the first column. */
  lemma VStartIsFirstColumn<V>(uMap: UMap, vMap: UMap, f: (real, real) -> V, interp: Interp)
    requires uMap.iter.0 <= uMap.iter.1 && vMap.iter.0 <= vMap.iter.1
    requires Samples(uMap) && Samples(vMap)
    ensures var p := Patch(uMap, vMap, f, interp);
      && (forall a :: 0 <= a < |p.verts| ==> |p.verts[a]| != 0)
      && (forall i :: AllStart(VStart(p)) <= i < AllEnd(VStart(p)) ==> VStart(p).at.requires(i))
      && All(VStart(p)) == seq(|p.verts|, a requires 0 <= a < |p.verts| => p.verts[a][0])
  {
    var p := Patch(uMap, vMap, f, interp);
    PatchGridShape(uMap, vMap, f, interp);
    AllCoversIteration(uMap, VStart(p).at);
    assert forall i :: AllStart(VStart(p)) <= i ==> MapI(p, i) == i - AllStart(VStart(p));
  }

  /** `v_end` is the last column. */
  lemma VEndIsLastColumn<V>(uMap: UMap, vMap: UMap, f: (real, real) -> V, interp: Interp)
    requires uMap.iter.0 <= uMap.iter.1 && vMap.iter.0 <= vMap.iter.1
    requires Samples(uMap) && Samples(vMap)
    ensures var p := Patch(uMap, vMap, f, interp);
      && (forall a :: 0 <= a < |p.verts| ==> |p.verts[a]| != 0)
      && (forall i :: AllStart(VEnd(p)) <= i < AllEnd(VEnd(p)) ==> VEnd(p).at.requires(i))
      && All(VEnd(p)) == seq(|p.verts|, a requires 0 <= a < |p.verts| => p.verts[a][|p.verts[a]| - 1])
  {
    var p := Patch(uMap, vMap, f, interp);
    PatchGridShape(uMap, vMap, f, interp);
    AllCoversIteration(uMap, VEnd(p).at);
    assert forall i :: AllStart(VEnd(p)) <= i ==> MapI(p, i) == i - AllStart(VEnd(p));
  }

  // ---------------------------------------------------------------------
  // MeshTriPatch

  datatype MeshTriPatch<V> = MeshTriPatch(verts: seq<seq<V>>)

  /** `make_polar` can reduce the theta map by every row number and sample
      both maps. */
  predicate PolarSamples(rMap: UMap, thetaMap: UMap)
  {
    && Samples(rMap)
    && |Iter(rMap)| <= thetaMap.iter.1 + 1 && |Iter(rMap)| <= thetaMap.input.1 + 1
    && forall n :: 0 <= n < |Iter(rMap)| ==> Samples(Reduce(thetaMap, n))
  }

  /** Row n of `make_polar`: the theta map reduced by n, sampled at the
      n-th radius index. */
  function PolarRow<V>(rMap: UMap, thetaMap: UMap, f: (real, real) -> V, interp: Interp, n: nat): (row: seq<V>)
    requires n < |Iter(rMap)| && PolarSamples(rMap, thetaMap)
    ensures var t := Reduce(thetaMap, n);
      && |row| == |Iter(t)|
      && forall j :: 0 <= j < |row| ==> row[j] == f(interp(rMap, rMap.iter.0 + n), interp(t, thetaMap.iter.0 + j))
  {
    var t := Reduce(thetaMap, n);
    var js := Iter(t);
    seq(|js|, j requires 0 <= j < |js| => f(interp(rMap, Iter(rMap)[n]), interp(t, js[j])))
  }

  function PolarGrid<V>(rMap: UMap, thetaMap: UMap, f: (real, real) -> V, interp: Interp): (g: seq<seq<V>>)
    requires PolarSamples(rMap, thetaMap)
    ensures |g| == |Iter(rMap)|
    ensures forall n :: 0 <= n < |g| ==> g[n] == PolarRow(rMap, thetaMap, f, interp, n)
  {
    seq(|Iter(rMap)|, n requires 0 <= n < |Iter(rMap)| => PolarRow(rMap, thetaMap, f, interp, n))
  }

  /** `MeshTriPatch::make_polar`: row n samples the theta map reduced by n. */
  method MakePolar<V>(rMap: UMap, thetaMap: UMap, f: (real, real) -> V, interp: Interp) returns (t: MeshTriPatch<V>)
    requires PolarSamples(rMap, thetaMap)
    ensures t.verts == PolarGrid(rMap, thetaMap, f, interp)
  {
    var verts: seq<seq<V>> := [];
    var ixs := Iter(rMap);
    for n := 0 to |ixs|
      invariant |verts| == n
      invariant forall n' :: 0 <= n' < n ==> verts[n'] == PolarRow(rMap, thetaMap, f, interp, n')
    {
      var row: seq<V> := [];
      var r := interp(rMap, ixs[n]);
      var reduced := Reduce(thetaMap, n);
      var js := Iter(reduced);
      for b := 0 to |js|
        invariant |row| == b
        invariant forall b' :: 0 <= b' < b ==> row[b'] == f(r, interp(reduced, js[b']))
      {
        var theta := interp(reduced, js[b]);
        row := row + [f(r, theta)];
      }
      verts := verts + [row];
    }
    t := MeshTriPatch(verts);
  }

  /** Each row of a polar patch has one entry fewer than the row before,
      until the rows run out of entries. */
  lemma PolarRowsShrink<V>(rMap: UMap, thetaMap: UMap, f: (real, real) -> V, interp: Interp)
    requires PolarSamples(rMap, thetaMap)
    ensures var g := PolarGrid(rMap, thetaMap, f, interp);
      && |g| == |Iter(rMap)|
      && (|g| != 0 ==> |g[0]| == |Iter(thetaMap)|)
      && forall n :: 0 <= n < |g| - 1 ==> |g[n + 1]| == if |g[n]| == 0 then 0 else |g[n]| - 1
  {
    var g := PolarGrid(rMap, thetaMap, f, interp);
    forall n | 0 <= n < |g| - 1
      ensures |g[n + 1]| == if |g[n]| == 0 then 0 else |g[n]| - 1
    {
      assert |g[n]| == |Iter(Reduce(thetaMap, n))|;
      assert |g[n + 1]| == |Iter(Reduce(thetaMap, n + 1))|;
    }
  }

  // ---------------------------------------------------------------------
  // MeshStrand

  datatype MeshStrand<V> = MeshStrand(verts: seq<V>, len: nat, startOffset: int, endOffset: int)

  function StrandVerts<V>(us: UMap, f: real -> V, interp: Interp): (vs: seq<V>)
    ensures |vs| == |Iter(us)|
    ensures forall a :: 0 <= a < |vs| ==> vs[a] == f(interp(us, us.iter.0 + a))
  {
    var ixs := Iter(us);
    seq(|ixs|, a requires 0 <= a < |ixs| => f(interp(us, ixs[a])))
  }

  function Strand<V>(us: UMap, f: real -> V, interp: Interp): (s: MeshStrand<V>)
    requires us.input.0 <= us.input.1
    ensures s.verts == StrandVerts(us, f, interp)
    ensures us.input.0 + s.len == us.input.1
    ensures us.input.0 + s.startOffset == us.iter.0 && us.iter.1 + s.endOffset == us.input.1
  {
    MeshStrand(StrandVerts(us, f, interp), InputSize(us), StartOffset(us), EndOffset(us))
  }

  /** `MeshStrand::make`: sample every index, panic when there are none. */
  method MakeStrand<V>(us: UMap, f: real -> V, interp: Interp) returns (r: Result<MeshStrand<V>>)
    requires us.iter.0 <= us.iter.1 ==> Samples(us)
    ensures r.Failure? <==> us.iter.1 < us.iter.0
    ensures r.Success? ==> us.input.0 <= us.input.1 && r.value == Strand(us, f, interp)
  {
    var verts: seq<V> := [];
    var ixs := Iter(us);
    for a := 0 to |ixs|
      invariant |verts| == a
      invariant forall a' :: 0 <= a' < a ==> verts[a'] == f(interp(us, ixs[a']))
    {
      var u := interp(us, ixs[a]);
      verts := verts + [f(u)];
    }
    if |verts| == 0 {
      return Failure("Attempted to create a mesh strand with no verts!");
    }
    r := Success(MeshStrand(verts, InputSize(us), StartOffset(us), EndOffset(us)));
  }

  /** `start()`, `end()` and `len()`: the first and last stored vertex and
      the stored count. */
  function Start<V>(s: MeshStrand<V>): (v: V)
    requires |s.verts| != 0
    ensures v == s.verts[0]
  {
    s.verts[0]
  }

  function End<V>(s: MeshStrand<V>): (v: V)
    requires |s.verts| != 0
    ensures v == s.verts[|s.verts| - 1]
  {
    s.verts[|s.verts| - 1]
  }

  function StrandLen<V>(s: MeshStrand<V>): (r: nat)
    ensures r == |s.verts|
  {
    |s.verts|
  }

  /** A strand from `make` holds one vertex per index, starting with the
      sample at `iter.0` and ending with the one at `iter.1`. */
  lemma StrandEnds<V>(us: UMap, f: real -> V, interp: Interp)
    requires us.iter.0 <= us.iter.1 && Samples(us)
    ensures var s := Strand(us, f, interp);
      && StrandLen(s) == Len(us) + 1
      && Start(s) == f(interp(us, us.iter.0))
      && End(s) == f(interp(us, us.iter.1))
  {
  }

  /** `map_i` of a strand and `seam()`: the strand by input index. */
  function StrandMapI<V>(s: MeshStrand<V>, i: nat): nat
  {
    AsUsize(i - s.startOffset)
  }

  function Seam<V>(s: MeshStrand<V>): (r: Segment<V>)
    ensures r.startOffset == s.startOffset && r.endOffset == s.endOffset && r.len == s.len
    ensures forall i :: StrandMapI(s, i) < |s.verts| ==> r.at.requires(i) && r.at(i) == s.verts[StrandMapI(s, i)]
  {
    Segment(s.startOffset, s.endOffset, s.len, i requires StrandMapI(s, i) < |s.verts| => s.verts[StrandMapI(s, i)])
  }

  /** The seam of a strand from `make` yields the whole strand in order. */
  lemma SeamIsStrand<V>(us: UMap, f: real -> V, interp: Interp)
    requires us.iter.0 <= us.iter.1 && Samples(us)
    ensures var s := Strand(us, f, interp);
      && (forall i :: AllStart(Seam(s)) <= i < AllEnd(Seam(s)) ==> Seam(s).at.requires(i))
      && All(Seam(s)) == s.verts
  {
    var s := Strand(us, f, interp);
    AllCoversIteration(us, Seam(s).at);
    assert forall i :: AllStart(Seam(s)) <= i ==> StrandMapI(s, i) == i - AllStart(Seam(s));
  }
}
