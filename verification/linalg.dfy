/**
  Dense vectors, matrices and 2D points over the reals.

  The source works with deal.II's `Vector<double>`, `FullMatrix<double>` and
  `Point<2>`; the model keeps their shape and drops floating point.
 */
module LinAlg {

  /** A dense vector, indexed from 0. */
  type Vector = seq<real>

  /** A dense matrix, stored row by row. */
  type Matrix = seq<seq<real>>

  /** A point of the plane. */
  datatype Point = Point(x: real, y: real)

  /**
    The combined level set (`IBCombiner`): how many shapes it holds, the signed
    distance to the solid-fluid boundary (positive in the fluid) and the scalar
    payload carried by the shapes.
   */
  datatype Combiner = Combiner(size: nat, value: Point -> real, scalar: Point -> real)

  /** The signed distance at every point. */
  function Distances(comb: Combiner, points: seq<Point>): Vector {
    seq(|points|, k requires 0 <= k < |points| => comb.value(points[k]))
  }

  /** A local (per-cell) matrix and right-hand side. */
  datatype LocalSystem = LocalSystem(matrix: Matrix, rhs: Vector)

  function Zeros(n: nat): Vector {
    seq(n, _ => 0.0)
  }

  function Constant(n: nat, v: real): Vector {
    seq(n, _ => v)
  }

  function ZeroMatrix(n: nat): Matrix {
    seq(n, _ => Zeros(n))
  }

  function Identity(n: nat): Matrix {
    seq(n, i => seq(n, j => if i == j then 1.0 else 0.0))
  }

  function ZeroSystem(n: nat): LocalSystem {
    LocalSystem(ZeroMatrix(n), Zeros(n))
  }

  predicate IsSquare(m: Matrix, n: nat) {
    |m| == n && forall i :: 0 <= i < n ==> |m[i]| == n
  }

  /** A local system with an `n` by `n` matrix and an `n`-entry right-hand side. */
  predicate SizedSystem(s: LocalSystem, n: nat) {
    IsSquare(s.matrix, n) && |s.rhs| == n
  }

  /** `x + alpha * u`, as deal.II's `Vector::add(alpha, u)` applied to a copy of `x`. */
  function AddScaled(x: Vector, alpha: real, u: Vector): Vector
    requires |x| == |u|
  {
    seq(|x|, i requires 0 <= i < |x| => x[i] + alpha * u[i])
  }

  function Dot(a: Vector, b: Vector): real
    requires |a| == |b|
  {
    if |a| == 0 then 0.0 else a[0] * b[0] + Dot(a[1..], b[1..])
  }

  function MatVec(m: Matrix, v: Vector): Vector
    requires forall i :: 0 <= i < |m| ==> |m[i]| == |v|
  {
    seq(|m|, i requires 0 <= i < |m| => Dot(m[i], v))
  }

  lemma {:induction false} DotZero(e: Vector, t: Vector)
    requires |e| == |t|
    requires forall j :: 0 <= j < |e| ==> e[j] == 0.0
    ensures Dot(e, t) == 0.0
  {
    if |e| > 0 {
      DotZero(e[1..], t[1..]);
    }
  }

  /** The dot product with the k-th unit vector selects entry k. */
  lemma {:induction false} DotUnit(e: Vector, t: Vector, k: nat)
    requires |e| == |t| && k < |e|
    requires forall j :: 0 <= j < |e| ==> e[j] == (if j == k then 1.0 else 0.0)
    ensures Dot(e, t) == t[k]
  {
    if k == 0 {
      DotZero(e[1..], t[1..]);
    } else {
      DotUnit(e[1..], t[1..], k - 1);
    }
  }

  /** The identity matrix leaves every vector unchanged. */
  lemma IdentityMatVec(t: Vector)
    ensures MatVec(Identity(|t|), t) == t
  {
    var m := Identity(|t|);
    forall i | 0 <= i < |t|
      ensures Dot(m[i], t) == t[i]
    {
      DotUnit(m[i], t, i);
    }
  }
}
