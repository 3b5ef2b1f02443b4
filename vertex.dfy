/** The vertex capability used by the core: a 3D position. The source reads
    positions as floating-point vectors; the model uses integer coordinates so
    that squared-length comparisons are exact. */
module Vertex {

  datatype Vec3 = Vec3(x: int, y: int, z: int)

  function Sub(p: Vec3, q: Vec3): Vec3
  {
    Vec3(p.x - q.x, p.y - q.y, p.z - q.z)
  }

  /** Squared magnitude of a vector (`sqr_magn`); never negative. */
  function SqrMagn(v: Vec3): (r: int)
    ensures r >= 0
    ensures r == 0 <==> v == Vec3(0, 0, 0)
  {
    SquareNonNegative(v.x);
    SquareNonNegative(v.y);
    SquareNonNegative(v.z);
    v.x * v.x + v.y * v.y + v.z * v.z
  }

  lemma SquareNonNegative(a: int)
    ensures a * a >= 0
    ensures a * a == 0 <==> a == 0
  {
    if a < 0 {
      assert a * a == (-a) * (-a);
    }
  }

  /** Squared Euclidean distance between two positions. */
  function SqrDist(p: Vec3, q: Vec3): int
  {
    SqrMagn(Sub(p, q))
  }

  lemma SqrDistSymmetric(p: Vec3, q: Vec3)
    ensures SqrDist(p, q) == SqrDist(q, p)
  {
    var d, e := Sub(p, q), Sub(q, p);
    assert d.x * d.x == e.x * e.x;
    assert d.y * d.y == e.y * e.y;
    assert d.z * d.z == e.z * e.z;
  }
}
