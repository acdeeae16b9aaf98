/**
  The assembly loop of the immersed-boundary heat test (`calculate_L2_error`,
  first half): for every cell, the barycenter of its dof points, the
  per-cell branch, the local matrix and right-hand side, and the scatter-add
  of locally owned cells into the global system.

  The level-set combiner, the cut-cell decomposition and the cut-cell
  integrator are external: they are received as functions. The fluid
  stiffness integral of each cell is received with the cell.
 */
module HeatAssembly {
  import opened LinAlg
  import SteadyAssembly

  /** `FE_Q<2>(1)` with one component: four dofs per cell, one per vertex. */
  const DofsPerCell: nat := 4

  /**
    An index into the six-entry array of nodal values used in error evaluation
    (four vertices, then two boundary points). The first entry of the
    decomposition's node status array is used as such an index.
   */
  type Slot = i: int | 0 <= i < 6

  /**
    The cut-cell collaborators: `decomposition` (its `nb_poly` and the first
    entry of its node status array), `T_integrate_IB` and `T_L2_norm_IB`, each
    a function of the cell's dof points and distances.
   */
  datatype CutGeometry = CutGeometry(
    nbPoly: (seq<Point>, Vector) -> int,
    firstStatus: (seq<Point>, Vector) -> Slot,
    integrate: (seq<Point>, Vector, real) -> LocalSystem,
    l2Norm: (seq<Point>, Vector, Vector) -> real)

  /** The cut-cell integrator fills the 4 by 4 local system it is handed. */
  ghost predicate IntegratorSized(g: CutGeometry) {
    forall p, d, t :: SizedSystem(g.integrate(p, d, t), DofsPerCell)
  }

  /**
    One cell: whether this process owns it, its global dof indices, its dof
    points, its fluid stiffness integral and its fluid error integral (a
    function of the six nodal values).
   */
  datatype HeatCell = HeatCell(owned: bool, dofs: seq<nat>, points: seq<Point>,
                               stiffness: Matrix, fluidError: Vector -> real)

  predicate ValidCell(c: HeatCell, n: nat) {
    && |c.dofs| == DofsPerCell
    && |c.points| == DofsPerCell
    && IsSquare(c.stiffness, DofsPerCell)
    && forall k :: 0 <= k < DofsPerCell ==> c.dofs[k] < n
  }

  /** The branch of a cell in the heat test. */
  datatype Branch = Fluid | Solid | Cut

  /** Undecomposed cells are fluid or solid by the sign of `distance[0]`; decomposed ones are cut. */
  function Classify(nbPoly: int, distance0: real): (b: Branch)
    ensures b == Fluid <==> nbPoly == 0 && distance0 > 0.0
    ensures b == Solid <==> nbPoly == 0 && distance0 <= 0.0
    ensures b == Cut <==> nbPoly != 0
  {
    if nbPoly == 0 then (if distance0 > 0.0 then Fluid else Solid) else Cut
  }

  /** `center_elem`: reset to the origin, then a quarter of every dof point added in turn. */
  function Barycenter(points: seq<Point>): Point {
    if |points| == 0 then Point(0.0, 0.0)
    else
      var c := Barycenter(points[..|points| - 1]);
      var p := points[|points| - 1];
      Point(c.x + p.x / 4.0, c.y + p.y / 4.0)
  }

  function SumX(points: seq<Point>): real {
    if |points| == 0 then 0.0 else SumX(points[..|points| - 1]) + points[|points| - 1].x
  }

  function SumY(points: seq<Point>): real {
    if |points| == 0 then 0.0 else SumY(points[..|points| - 1]) + points[|points| - 1].y
  }

  lemma {:induction false} BarycenterIsQuarterSum(points: seq<Point>)
    ensures Barycenter(points) == Point(SumX(points) / 4.0, SumY(points) / 4.0)
  {
    if |points| > 0 {
      BarycenterIsQuarterSum(points[..|points| - 1]);
    }
  }

  /** For the four dof points of a cell, `center_elem` is their coordinate-wise mean. */
  lemma BarycenterIsMean(points: seq<Point>)
    requires |points| == 4
    ensures Barycenter(points).x == (points[0].x + points[1].x + points[2].x + points[3].x) / 4.0
    ensures Barycenter(points).y == (points[0].y + points[1].y + points[2].y + points[3].y) / 4.0
  {
    BarycenterIsQuarterSum(points);
    var p := points;
    assert p[..1][..0] == [] && p[..2][..1] == p[..1] && p[..3][..2] == p[..2];
    assert SumX(p[..1]) == p[0].x && SumY(p[..1]) == p[0].y;
    assert SumX(p[..2]) == p[0].x + p[1].x && SumY(p[..2]) == p[0].y + p[1].y;
    assert SumX(p[..3]) == p[0].x + p[1].x + p[2].x && SumY(p[..3]) == p[0].y + p[1].y + p[2].y;
  }

  /** `Tdirichlet`: the combiner's payload at the barycenter. */
  function DirichletValue(c: HeatCell, comb: Combiner): real {
    comb.scalar(Barycenter(c.points))
  }

  function CellBranch(c: HeatCell, comb: Combiner, geo: CutGeometry): Branch
    requires |c.points| > 0
  {
    Classify(geo.nbPoly(c.points, Distances(comb, c.points)), comb.value(c.points[0]))
  }

  /**
    `cell_mat` and `elem_rhs` of one cell. A fluid cell gets its stiffness and
    a zero right-hand side; a solid cell the identity and `Tdirichlet` in every
    entry; a cut cell whatever the cut-cell integrator produces.
   */
  function CellSystem(c: HeatCell, comb: Combiner, geo: CutGeometry): (r: LocalSystem)
    requires |c.points| == DofsPerCell && IsSquare(c.stiffness, DofsPerCell) && IntegratorSized(geo)
    ensures SizedSystem(r, DofsPerCell)
    ensures CellBranch(c, comb, geo) == Fluid ==> r == LocalSystem(c.stiffness, Zeros(DofsPerCell))
    ensures CellBranch(c, comb, geo) == Solid ==>
              r == LocalSystem(Identity(DofsPerCell), Constant(DofsPerCell, DirichletValue(c, comb)))
    ensures CellBranch(c, comb, geo) == Cut ==>
              r == geo.integrate(c.points, Distances(comb, c.points), DirichletValue(c, comb))
  {
    var td := DirichletValue(c, comb);
    match CellBranch(c, comb, geo)
    case Fluid => LocalSystem(c.stiffness, Zeros(DofsPerCell))
    case Solid => LocalSystem(Identity(DofsPerCell), Constant(DofsPerCell, td))
    case Cut => geo.integrate(c.points, Distances(comb, c.points), td)
  }

  /** The local system of a solid cell admits exactly one solution: `Tdirichlet` at every vertex. */
  lemma SolidCellPinsDirichlet(c: HeatCell, comb: Combiner, geo: CutGeometry, t: Vector)
    requires |c.points| == DofsPerCell && IsSquare(c.stiffness, DofsPerCell) && IntegratorSized(geo)
    requires CellBranch(c, comb, geo) == Solid && |t| == DofsPerCell
    ensures var s := CellSystem(c, comb, geo);
            MatVec(s.matrix, t) == s.rhs <==> t == Constant(DofsPerCell, DirichletValue(c, comb))
  {
    IdentityMatVec(t);
  }

  /**
    With any shape in the combiner, the prototype's dispatch and this one pick
    the same fluid cells. They differ elsewhere: an undecomposed cell at
    distance exactly zero is solid here but matches no prototype branch, and
    every decomposed cell is cut here while the prototype tells -1
    (quadrilateral), positive (cut) and below -1 (no branch) apart.
   */
  lemma DispatchesAgreeOnFluid(combinerSize: nat, nbPoly: int, distance0: real)
    requires combinerSize > 0
    ensures SteadyAssembly.Dispatch(combinerSize, nbPoly, distance0) == SteadyAssembly.FluidPath <==> Classify(nbPoly, distance0) == Fluid
    ensures Classify(nbPoly, distance0) == Solid ==>
              (SteadyAssembly.Dispatch(combinerSize, nbPoly, distance0) == SteadyAssembly.SolidPath <==> distance0 < 0.0)
    ensures Classify(nbPoly, distance0) == Cut ==>
              SteadyAssembly.Dispatch(combinerSize, nbPoly, distance0) in {SteadyAssembly.QuadrilateralPath, SteadyAssembly.CutPath, SteadyAssembly.NoPath}
  {
  }

  /** Sum of `m[i][j']` over `j' < j` with `(ldi[i], ldi[j']) == (r, c)`. */
  function RowPart(m: Matrix, ldi: seq<nat>, r: nat, c: nat, i: nat, j: nat): real
    requires IsSquare(m, |ldi|) && i < |ldi| && j <= |ldi|
  {
    if j == 0 then 0.0
    else RowPart(m, ldi, r, c, i, j - 1) + (if ldi[i] == r && ldi[j - 1] == c then m[i][j - 1] else 0.0)
  }

  /** Sum of `m[i'][j]` over rows `i' < i` and all `j` with `(ldi[i'], ldi[j]) == (r, c)`. */
  function MatrixContribution(m: Matrix, ldi: seq<nat>, r: nat, c: nat, i: nat): real
    requires IsSquare(m, |ldi|) && i <= |ldi|
  {
    if i == 0 then 0.0
    else MatrixContribution(m, ldi, r, c, i - 1) + RowPart(m, ldi, r, c, i - 1, |ldi|)
  }

  /** Sum of `v[i']` over `i' < i` with `ldi[i'] == r`. */
  function RhsContribution(v: Vector, ldi: seq<nat>, r: nat, i: nat): real
    requires |v| == |ldi| && i <= |ldi|
  {
    if i == 0 then 0.0
    else RhsContribution(v, ldi, r, i - 1) + (if ldi[i - 1] == r then v[i - 1] else 0.0)
  }

  lemma {:induction false} RowPartUnindexed(m: Matrix, ldi: seq<nat>, r: nat, c: nat, i: nat, j: nat)
    requires IsSquare(m, |ldi|) && i < |ldi| && j <= |ldi|
    requires r !in ldi || c !in ldi
    ensures RowPart(m, ldi, r, c, i, j) == 0.0
  {
    if j > 0 {
      RowPartUnindexed(m, ldi, r, c, i, j - 1);
    }
  }

  lemma {:induction false} MatrixContributionUnindexed(m: Matrix, ldi: seq<nat>, r: nat, c: nat, i: nat)
    requires IsSquare(m, |ldi|) && i <= |ldi|
    requires r !in ldi || c !in ldi
    ensures MatrixContribution(m, ldi, r, c, i) == 0.0
  {
    if i > 0 {
      MatrixContributionUnindexed(m, ldi, r, c, i - 1);
      RowPartUnindexed(m, ldi, r, c, i - 1, |ldi|);
    }
  }

  lemma {:induction false} RhsContributionUnindexed(v: Vector, ldi: seq<nat>, r: nat, i: nat)
    requires |v| == |ldi| && i <= |ldi| && r !in ldi
    ensures RhsContribution(v, ldi, r, i) == 0.0
  {
    if i > 0 {
      RhsContributionUnindexed(v, ldi, r, i - 1);
    }
  }

  /** A scatter-add leaves every global entry that the cell's dofs do not index unchanged. */
  lemma UnindexedEntriesUnchanged(s: LocalSystem, ldi: seq<nat>, r: nat, c: nat)
    requires SizedSystem(s, |ldi|)
    ensures r !in ldi || c !in ldi ==> MatrixContribution(s.matrix, ldi, r, c, |ldi|) == 0.0
    ensures r !in ldi ==> RhsContribution(s.rhs, ldi, r, |ldi|) == 0.0
  {
    if r !in ldi || c !in ldi {
      MatrixContributionUnindexed(s.matrix, ldi, r, c, |ldi|);
    }
    if r !in ldi {
      RhsContributionUnindexed(s.rhs, ldi, r, |ldi|);
    }
  }

  /** No global dof index appears twice among a cell's dofs. */
  predicate Distinct(ldi: seq<nat>) {
    forall a, b :: 0 <= a < |ldi| && 0 <= b < |ldi| && a != b ==> ldi[a] != ldi[b]
  }

  lemma {:induction false} RowPartDistinct(m: Matrix, ldi: seq<nat>, i0: nat, j0: nat, i: nat, j: nat)
    requires IsSquare(m, |ldi|) && Distinct(ldi) && i0 < |ldi| && j0 < |ldi| && i < |ldi| && j <= |ldi|
    ensures RowPart(m, ldi, ldi[i0], ldi[j0], i, j) == if i == i0 && j0 < j then m[i0][j0] else 0.0
  {
    if j > 0 {
      RowPartDistinct(m, ldi, i0, j0, i, j - 1);
    }
  }

  lemma {:induction false} MatrixContributionDistinct(m: Matrix, ldi: seq<nat>, i0: nat, j0: nat, i: nat)
    requires IsSquare(m, |ldi|) && Distinct(ldi) && i0 < |ldi| && j0 < |ldi| && i <= |ldi|
    ensures MatrixContribution(m, ldi, ldi[i0], ldi[j0], i) == if i0 < i then m[i0][j0] else 0.0
  {
    if i > 0 {
      MatrixContributionDistinct(m, ldi, i0, j0, i - 1);
      RowPartDistinct(m, ldi, i0, j0, i - 1, |ldi|);
    }
  }

  lemma {:induction false} RhsContributionDistinct(v: Vector, ldi: seq<nat>, i0: nat, i: nat)
    requires |v| == |ldi| && Distinct(ldi) && i0 < |ldi| && i <= |ldi|
    ensures RhsContribution(v, ldi, ldi[i0], i) == if i0 < i then v[i0] else 0.0
  {
    if i > 0 {
      RhsContributionDistinct(v, ldi, i0, i - 1);
    }
  }

  /**
    When a cell's dof indices are distinct, the scatter-add moves every local
    entry onto its own global entry: `(ldi[i], ldi[j])` grows by exactly
    `cell_mat[i][j]` and `ldi[i]` by exactly `elem_rhs[i]`.
   */
  lemma ScatterOfDistinctDofs(s: LocalSystem, ldi: seq<nat>, i: nat, j: nat)
    requires SizedSystem(s, |ldi|) && Distinct(ldi) && i < |ldi| && j < |ldi|
    ensures MatrixContribution(s.matrix, ldi, ldi[i], ldi[j], |ldi|) == s.matrix[i][j]
    ensures RhsContribution(s.rhs, ldi, ldi[i], |ldi|) == s.rhs[i]
  {
    MatrixContributionDistinct(s.matrix, ldi, i, j, |ldi|);
    RhsContributionDistinct(s.rhs, ldi, i, |ldi|);
  }

  /** `A(r, c) += v` on a square matrix. */
  function AddAt(a: Matrix, n: nat, r: nat, c: nat, v: real): (a': Matrix)
    requires IsSquare(a, n) && r < n && c < n
    ensures IsSquare(a', n)
    ensures forall r', c' :: 0 <= r' < n && 0 <= c' < n ==>
              a'[r'][c'] == a[r'][c'] + (if r' == r && c' == c then v else 0.0)
  {
    a[r := a[r][c := a[r][c] + v]]
  }

  /**
    `system_matrix.add(ldi[i], ldi[j], cell_mat[i][j])` for all `i`, `j`, then
    `system_rhs(ldi[i]) += elem_rhs[i]` for all `i`: every entry grows by the
    sum of the local entries the dof indices map onto it.
   */
  method ScatterAdd(a: Matrix, b: Vector, n: nat, s: LocalSystem, ldi: seq<nat>) returns (a': Matrix, b': Vector)
    requires IsSquare(a, n) && |b| == n && SizedSystem(s, |ldi|)
    requires forall k :: 0 <= k < |ldi| ==> ldi[k] < n
    ensures IsSquare(a', n) && |b'| == n
    ensures forall r, c :: 0 <= r < n && 0 <= c < n ==>
              a'[r][c] == a[r][c] + MatrixContribution(s.matrix, ldi, r, c, |ldi|)
    ensures forall r :: 0 <= r < n ==> b'[r] == b[r] + RhsContribution(s.rhs, ldi, r, |ldi|)
  {
    a' := a;
    var i := 0;
    while i < |ldi|
      invariant i <= |ldi| && IsSquare(a', n)
      invariant forall r, c :: 0 <= r < n && 0 <= c < n ==>
                  a'[r][c] == a[r][c] + MatrixContribution(s.matrix, ldi, r, c, i)
    {
      var j := 0;
      while j < |ldi|
        invariant j <= |ldi| && IsSquare(a', n)
        invariant forall r, c :: 0 <= r < n && 0 <= c < n ==>
                    a'[r][c] == a[r][c] + MatrixContribution(s.matrix, ldi, r, c, i) + RowPart(s.matrix, ldi, r, c, i, j)
      {
        a' := AddAt(a', n, ldi[i], ldi[j], s.matrix[i][j]);
        j := j + 1;
      }
      i := i + 1;
    }
    b' := b;
    i := 0;
    while i < |ldi|
      invariant i <= |ldi| && |b'| == n
      invariant forall r :: 0 <= r < n ==> b'[r] == b[r] + RhsContribution(s.rhs, ldi, r, i)
    {
      b' := b'[ldi[i] := b'[ldi[i]] + s.rhs[i]];
      i := i + 1;
    }
  }

  /** The contribution of one cell to the global matrix entry `(r, c)`: nothing unless it is owned. */
  function CellMatrixShare(cell: HeatCell, comb: Combiner, geo: CutGeometry, r: nat, c: nat): real
    requires |cell.points| == DofsPerCell && |cell.dofs| == DofsPerCell
    requires IsSquare(cell.stiffness, DofsPerCell) && IntegratorSized(geo)
  {
    if cell.owned then MatrixContribution(CellSystem(cell, comb, geo).matrix, cell.dofs, r, c, DofsPerCell) else 0.0
  }

  function CellRhsShare(cell: HeatCell, comb: Combiner, geo: CutGeometry, r: nat): real
    requires |cell.points| == DofsPerCell && |cell.dofs| == DofsPerCell
    requires IsSquare(cell.stiffness, DofsPerCell) && IntegratorSized(geo)
  {
    if cell.owned then RhsContribution(CellSystem(cell, comb, geo).rhs, cell.dofs, r, DofsPerCell) else 0.0
  }

  /** The global matrix entry `(r, c)` after the given cells: the sum of their shares. */
  function GlobalMatrixEntry(cells: seq<HeatCell>, n: nat, comb: Combiner, geo: CutGeometry, r: nat, c: nat): real
    requires forall k :: 0 <= k < |cells| ==> ValidCell(cells[k], n)
    requires IntegratorSized(geo)
  {
    if |cells| == 0 then 0.0
    else
      assert ValidCell(cells[|cells| - 1], n);
      GlobalMatrixEntry(cells[..|cells| - 1], n, comb, geo, r, c) + CellMatrixShare(cells[|cells| - 1], comb, geo, r, c)
  }

  function GlobalRhsEntry(cells: seq<HeatCell>, n: nat, comb: Combiner, geo: CutGeometry, r: nat): real
    requires forall k :: 0 <= k < |cells| ==> ValidCell(cells[k], n)
    requires IntegratorSized(geo)
  {
    if |cells| == 0 then 0.0
    else
      assert ValidCell(cells[|cells| - 1], n);
      GlobalRhsEntry(cells[..|cells| - 1], n, comb, geo, r) + CellRhsShare(cells[|cells| - 1], comb, geo, r)
  }

  /** One iteration of the cell loop: an owned cell scatters its local system, any other cell adds nothing. */
  method AssembleCell(a: Matrix, b: Vector, n: nat, cell: HeatCell, comb: Combiner, geo: CutGeometry)
    returns (a': Matrix, b': Vector)
    requires IsSquare(a, n) && |b| == n && ValidCell(cell, n) && IntegratorSized(geo)
    ensures IsSquare(a', n) && |b'| == n
    ensures !cell.owned ==> a' == a && b' == b
    ensures forall r, c :: 0 <= r < n && 0 <= c < n ==> a'[r][c] == a[r][c] + CellMatrixShare(cell, comb, geo, r, c)
    ensures forall r :: 0 <= r < n ==> b'[r] == b[r] + CellRhsShare(cell, comb, geo, r)
  {
    a', b' := a, b;
    if cell.owned {
      var s := CellSystem(cell, comb, geo);
      a', b' := ScatterAdd(a, b, n, s, cell.dofs);
    }
  }

  /**
    The assembly loop over all cells, from a zero system: every global entry
    ends as the sum, over the owned cells, of their local entries mapped onto it.
   */
  method AssembleHeatSystem(cells: seq<HeatCell>, n: nat, comb: Combiner, geo: CutGeometry)
    returns (a: Matrix, b: Vector)
    requires forall k :: 0 <= k < |cells| ==> ValidCell(cells[k], n)
    requires IntegratorSized(geo)
    ensures IsSquare(a, n) && |b| == n
    ensures forall r, c :: 0 <= r < n && 0 <= c < n ==> a[r][c] == GlobalMatrixEntry(cells, n, comb, geo, r, c)
    ensures forall r :: 0 <= r < n ==> b[r] == GlobalRhsEntry(cells, n, comb, geo, r)
  {
    a, b := ZeroMatrix(n), Zeros(n);
    var k := 0;
    while k < |cells|
      invariant k <= |cells| && IsSquare(a, n) && |b| == n
      invariant forall r, c :: 0 <= r < n && 0 <= c < n ==> a[r][c] == GlobalMatrixEntry(cells[..k], n, comb, geo, r, c)
      invariant forall r :: 0 <= r < n ==> b[r] == GlobalRhsEntry(cells[..k], n, comb, geo, r)
    {
      assert cells[..k + 1][..k] == cells[..k];
      a, b := AssembleCell(a, b, n, cells[k], comb, geo);
      k := k + 1;
    }
    assert cells[..k] == cells;
  }
}
