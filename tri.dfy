/** `Tri<V>`: an ordered triple of vertex values, and `Seg<V>`, an edge
    between two of them, with the helpers of tri.rs. */
module Triangles {

  datatype Tri<V> = Tri(a: V, b: V, c: V)

  datatype Seg<V> = Seg(from: V, to: V)

  /** `Tri::new` */
  function New<V>(a: V, b: V, c: V): (t: Tri<V>)
    ensures Corners(t) == [a, b, c]
  {
    Tri(a, b, c)
  }

  /** `into_iter`: the corners a, b, c in that order. */
  function Corners<V>(t: Tri<V>): (r: seq<V>)
    ensures |r| == 3
  {
    [t.a, t.b, t.c]
  }

  /** `map_out`: f applied to each corner, as an array in corner order. */
  function MapOut<V, U>(t: Tri<V>, f: V -> U): (r: seq<U>)
    ensures |r| == 3
    ensures forall k :: 0 <= k < 3 ==> r[k] == f(Corners(t)[k])
  {
    [f(t.a), f(t.b), f(t.c)]
  }

  /** `map`: the triangle of the images of the corners. */
  function Map<V, U>(t: Tri<V>, f: V -> U): (r: Tri<U>)
    ensures Corners(r) == MapOut(t, f)
  {
    Tri(f(t.a), f(t.b), f(t.c))
  }

  lemma MapIdentity<V>(t: Tri<V>)
    ensures Map(t, x => x) == t
  {
  }

  lemma MapCompose<V, U, W>(t: Tri<V>, f: V -> U, g: U -> W)
    ensures Map(Map(t, f), g) == Map(t, x => g(f(x)))
  {
  }

  /** `edge_iter`: the three edges a→b, b→c, c→a. */
  function Edges<V>(t: Tri<V>): (r: seq<Seg<V>>)
    ensures |r| == 3
    ensures forall k :: 0 <= k < 3 ==> r[k].from == Corners(t)[k] && r[k].to == Corners(t)[(k + 1) % 3]
  {
    [Seg(t.a, t.b), Seg(t.b, t.c), Seg(t.c, t.a)]
  }

  /** Corner k starts edge k and ends the edge before it, so the edges run
      once around the triangle. */
  lemma EdgesCoverCorners<V>(t: Tri<V>, k: nat)
    requires k < 3
    ensures Edges(t)[k].from == Corners(t)[k]
    ensures Edges(t)[(k + 2) % 3].to == Corners(t)[k]
  {
    var prev := (k + 2) % 3;
    assert prev == if k == 0 then 2 else k - 1;
    assert (prev + 1) % 3 == k;
  }
}
