/**
  The error evaluation of the immersed-boundary heat test (`calculate_L2_error`,
  second half) and its pass/fail check (`test_L2`).

  After the linear solve (external) every cell, owned or not, adds its share
  of the squared L2 error. The six-entry array `T` of nodal values is declared
  once before the loop and carried from cell to cell: entries 0 to 3 are
  reloaded from the solution for every cell, while entries 4 and 5 (the two
  boundary points of a cut cell) keep what the last cut cell wrote.
 */
module HeatError {
  import opened LinAlg
  import opened HeatAssembly

  /** The number of nodal values: four vertices and two boundary points. */
  const NodalValues: nat := 6

  /**
    `T[4] = T[No_pts_solid[0]]; T[5] = T[No_pts_solid[0]];` in that order. Both
    boundary entries end equal to the value the chosen slot held before,
    including when the chosen slot is 4 or 5 itself.
   */
  function SetBoundarySlots(t: Vector, s: Slot): (r: Vector)
    requires |t| == NodalValues
    ensures |r| == NodalValues
    ensures r[4] == t[s] && r[5] == t[s]
    ensures forall k :: 0 <= k < 4 ==> r[k] == t[k]
  {
    var t4 := t[4 := t[s]];
    t4[5 := t4[s]]
  }

  /** `T[dof] = solution[local_dof_indices[dof]]` for the four dofs of the cell. */
  function LoadVertexValues(t: Vector, c: HeatCell, sol: Vector): Vector
    requires |t| == NodalValues && ValidCell(c, |sol|)
  {
    seq(NodalValues, k requires 0 <= k < NodalValues => if k < DofsPerCell then sol[c.dofs[k]] else t[k])
  }

  /** What one cell adds to `err`, and the nodal values it leaves behind. */
  datatype Step = Step(err: real, t: Vector)

  /**
    One cell of the error loop. The branch is chosen as in assembly; a fluid
    cell adds its fluid error integral, a solid cell adds nothing, and a cut
    cell copies the chosen nodal value into both boundary entries before the
    cut-cell error integral is evaluated.
   */
  function CellErrorStep(c: HeatCell, t: Vector, sol: Vector, comb: Combiner, geo: CutGeometry): (r: Step)
    requires |t| == NodalValues && ValidCell(c, |sol|)
    ensures |r.t| == NodalValues
    ensures forall k :: 0 <= k < DofsPerCell ==> r.t[k] == sol[c.dofs[k]]
    ensures CellBranch(c, comb, geo) == Fluid ==> r.err == c.fluidError(r.t) && r.t[4] == t[4] && r.t[5] == t[5]
    ensures CellBranch(c, comb, geo) == Solid ==> r.err == 0.0 && r.t[4] == t[4] && r.t[5] == t[5]
    ensures CellBranch(c, comb, geo) == Cut ==>
              var d := Distances(comb, c.points);
              var s := geo.firstStatus(c.points, d);
              && r.t[4] == LoadVertexValues(t, c, sol)[s]
              && r.t[5] == r.t[4]
              && r.err == geo.l2Norm(c.points, d, r.t)
  {
    var tv := LoadVertexValues(t, c, sol);
    var d := Distances(comb, c.points);
    match CellBranch(c, comb, geo)
    case Fluid => Step(c.fluidError(tv), tv)
    case Solid => Step(0.0, tv)
    case Cut =>
      var tb := SetBoundarySlots(tv, geo.firstStatus(c.points, d));
      Step(geo.l2Norm(c.points, d, tb), tb)
  }

  /** The error the cells add, in order, starting from nodal values `t`. */
  function ErrorFrom(cells: seq<HeatCell>, t: Vector, sol: Vector, comb: Combiner, geo: CutGeometry): real
    requires |t| == NodalValues && forall k :: 0 <= k < |cells| ==> ValidCell(cells[k], |sol|)
    decreases |cells|
  {
    if |cells| == 0 then 0.0
    else
      var st := CellErrorStep(cells[0], t, sol, comb, geo);
      st.err + ErrorFrom(cells[1..], st.t, sol, comb, geo)
  }

  /**
    The error loop of `calculate_L2_error`, over every cell, with `T` starting
    at zero.
   */
  method CalculateError(cells: seq<HeatCell>, sol: Vector, comb: Combiner, geo: CutGeometry) returns (err: real)
    requires forall k :: 0 <= k < |cells| ==> ValidCell(cells[k], |sol|)
    ensures err == ErrorFrom(cells, Zeros(NodalValues), sol, comb, geo)
  {
    err := 0.0;
    var t := Zeros(NodalValues);
    var k := 0;
    while k < |cells|
      invariant k <= |cells| && |t| == NodalValues
      invariant err + ErrorFrom(cells[k..], t, sol, comb, geo) == ErrorFrom(cells, Zeros(NodalValues), sol, comb, geo)
    {
      var st := CellErrorStep(cells[k], t, sol, comb, geo);
      assert cells[k..][1..] == cells[k + 1..];
      err := err + st.err;
      t := st.t;
      k := k + 1;
    }
  }

  /** The remaining error depends on the carried nodal values only through the two boundary entries. */
  lemma {:induction false} ErrorIgnoresVertexSlots(cells: seq<HeatCell>, t1: Vector, t2: Vector, sol: Vector, comb: Combiner, geo: CutGeometry)
    requires |t1| == NodalValues && |t2| == NodalValues && t1[4] == t2[4] && t1[5] == t2[5]
    requires forall k :: 0 <= k < |cells| ==> ValidCell(cells[k], |sol|)
    ensures ErrorFrom(cells, t1, sol, comb, geo) == ErrorFrom(cells, t2, sol, comb, geo)
  {
    if |cells| > 0 {
      assert LoadVertexValues(t1, cells[0], sol) == LoadVertexValues(t2, cells[0], sol);
    }
  }

  /** The cells that are not entirely in the solid, in order. */
  function WithoutSolid(cells: seq<HeatCell>, n: nat, comb: Combiner, geo: CutGeometry): (r: seq<HeatCell>)
    requires forall k :: 0 <= k < |cells| ==> ValidCell(cells[k], n)
    ensures forall k :: 0 <= k < |r| ==> ValidCell(r[k], n) && CellBranch(r[k], comb, geo) != Solid
    ensures forall k :: 0 <= k < |r| ==> r[k] in cells
    ensures forall k :: 0 <= k < |cells| && ValidCell(cells[k], n) && CellBranch(cells[k], comb, geo) != Solid ==> cells[k] in r
    ensures |r| <= |cells|
  {
    if |cells| == 0 then []
    else
      assert ValidCell(cells[0], n);
      if CellBranch(cells[0], comb, geo) == Solid then WithoutSolid(cells[1..], n, comb, geo)
      else [cells[0]] + WithoutSolid(cells[1..], n, comb, geo)
  }

  /** Fully solid cells add nothing: dropping them leaves the total error unchanged. */
  lemma {:induction false} SolidCellsAddNothing(cells: seq<HeatCell>, t: Vector, sol: Vector, comb: Combiner, geo: CutGeometry)
    requires |t| == NodalValues && forall k :: 0 <= k < |cells| ==> ValidCell(cells[k], |sol|)
    ensures ErrorFrom(cells, t, sol, comb, geo) == ErrorFrom(WithoutSolid(cells, |sol|, comb, geo), t, sol, comb, geo)
  {
    if |cells| > 0 {
      var c := cells[0];
      var st := CellErrorStep(c, t, sol, comb, geo);
      var rest := WithoutSolid(cells[1..], |sol|, comb, geo);
      if CellBranch(c, comb, geo) == Solid {
        ErrorIgnoresVertexSlots(cells[1..], st.t, t, sol, comb, geo);
        SolidCellsAddNothing(cells[1..], t, sol, comb, geo);
      } else {
        SolidCellsAddNothing(cells[1..], st.t, sol, comb, geo);
        assert ([c] + rest)[0] == c && ([c] + rest)[1..] == rest;
      }
    }
  }

  /** The reference errors of refinement levels 4 to 8. */
  const TheoreticalErrors: seq<real> := [0.47656, 0.166937, 0.0475146, 0.0126869, 0.00325879]

  /** `acc`, the tolerance at the coarsest level. */
  const Accuracy: real := 0.00001

  /** The coarsest refinement level and the number of levels `test_L2` compares. */
  const FirstLevel: int := 4
  const Levels: nat := 5

  /** `pow(0.25, i)`. */
  function Quarter(i: nat): real {
    if i == 0 then 1.0 else Quarter(i - 1) * 0.25
  }

  function Abs(x: real): real {
    if x < 0.0 then -x else x
  }

  /** `|Error(i) - Error_theo(i)| <= acc * 0.25^i`. */
  predicate WithinTolerance(errors: Vector, i: nat)
    requires i < |errors| && i < Levels
  {
    Abs(errors[i] - TheoreticalErrors[i]) <= Accuracy * Quarter(i)
  }

  /** The test passes, or throws at the first level out of tolerance. */
  datatype TestOutcome = Passed | Failed(index: nat)

  /**
    `test_L2`: computes the error at refinement levels 4 to 8 (through
    `errorAt`, the whole of `calculate_L2_error`), then compares them in order
    with the reference errors, the tolerance shrinking fourfold per level.
   */
  method TestL2(errorAt: int -> real) returns (errors: Vector, outcome: TestOutcome)
    ensures |errors| == Levels
    ensures forall i :: 0 <= i < Levels ==> errors[i] == errorAt(i + FirstLevel)
    ensures outcome == Passed <==> forall i :: 0 <= i < Levels ==> WithinTolerance(errors, i)
    ensures outcome.Failed? ==>
              && outcome.index < Levels
              && !WithinTolerance(errors, outcome.index)
              && forall j :: 0 <= j < outcome.index ==> WithinTolerance(errors, j)
  {
    errors := [];
    var level := FirstLevel;
    while level < FirstLevel + Levels
      invariant FirstLevel <= level <= FirstLevel + Levels && |errors| == level - FirstLevel
      invariant forall i :: 0 <= i < |errors| ==> errors[i] == errorAt(i + FirstLevel)
    {
      errors := errors + [errorAt(level)];
      level := level + 1;
    }
    var i := 0;
    while i < Levels
      invariant i <= Levels
      invariant forall j :: 0 <= j < i ==> WithinTolerance(errors, j)
    {
      if Abs(errors[i] - TheoreticalErrors[i]) > Accuracy * Quarter(i) {
        assert !WithinTolerance(errors, i);
        return errors, Failed(i);
      }
      i := i + 1;
    }
    outcome := Passed;
  }
}
