/**
  The Newton iteration with backtracking line search of the steady
  Navier-Stokes solver (`newton_iteration`, `solve` and the constraint
  selection of `assemble`).

  Assembly, the direct solve and the application of constraints are deal.II
  calls; the model receives them as an `Oracle` of pure functions over real
  vectors. What is modelled is the state machine around them: the
  `first_step` flag, the outer counter, `last_res`/`current_res`, the halving
  damping factor, and which constraint set every assembly and solve uses.
 */
module SteadyNewton {
  import opened LinAlg

  /** The two `AffineConstraints` objects: boundary data, or zero increments. */
  datatype ConstraintSet = Nonzero | Zero

  /** `initial_step ? nonzero_constraints : zero_constraints`, as chosen in both `assemble` and `solve`. */
  function ConstraintsFor(initialStep: bool): (c: ConstraintSet)
    ensures c == Nonzero <==> initialStep
  {
    if initialStep then Nonzero else Zero
  }

  /**
    The external collaborators of the iteration.
    - `residual(p, c)`: assemble the right-hand side at evaluation point `p`
      with constraint set `c` and return its l2 norm;
    - `solve(p, c)`: assemble the system at `p` with `c`, solve it directly
      and distribute `c` into the result (the Newton update);
    - `distribute(v)`: apply the nonzero constraints to `v`.
   */
  datatype Oracle = Oracle(
    residual: (Vector, ConstraintSet) -> real,
    solve: (Vector, ConstraintSet) -> Vector,
    distribute: Vector -> Vector)

  /** The linear solve returns a vector of as many unknowns as the evaluation point. */
  ghost predicate SolvePreservesSize(o: Oracle) {
    forall v: Vector, c: ConstraintSet :: |o.solve(v, c)| == |v|
  }

  /** Trials per line search, and the bound the damping factor must stay above. */
  const MaxTrials: nat := 10
  const DampingFloor: real := 0.001

  /** The damping factor of trial `k`: it starts at 1 and is halved after each trial. */
  function Alpha(k: nat): real {
    if k == 0 then 1.0 else Alpha(k - 1) * 0.5
  }

  lemma {:induction false} AlphaAntitone(i: nat, j: nat)
    requires i <= j
    ensures 0.0 < Alpha(j) <= Alpha(i)
  {
    if i < j {
      AlphaAntitone(i, j - 1);
    } else if i > 0 {
      AlphaAntitone(0, i);
    }
  }

  /** `for (alpha = 1.0; alpha > 1e-3; alpha *= 0.5)` runs exactly the trials 0 to 9. */
  lemma TrialCount(k: nat)
    ensures Alpha(k) > DampingFloor <==> k < MaxTrials
  {
    assert Alpha(9) == 1.0 / 512.0;
    assert Alpha(10) == 1.0 / 1024.0;
    if k < MaxTrials {
      AlphaAntitone(k, 9);
    } else {
      AlphaAntitone(10, k);
    }
  }

  /** The evaluation point of trial `k`: `present + alpha * update`, then the nonzero constraints. */
  function TrialPoint(o: Oracle, x: Vector, u: Vector, k: nat): Vector
    requires |x| == |u|
  {
    o.distribute(AddScaled(x, Alpha(k), u))
  }

  /** The residual norm of trial `k`, assembled with the zero constraints. */
  function TrialResidual(o: Oracle, x: Vector, u: Vector, k: nat): real
    requires |x| == |u|
  {
    o.residual(TrialPoint(o, x, u, k), Zero)
  }

  /**
    The acceptance rule of the line search: trial `trials - 1` is taken, every
    earlier trial failed to go strictly below `lastRes`, and the taken one
    either does or is the last trial allowed.
   */
  predicate LineSearchAccepts(o: Oracle, x: Vector, u: Vector, lastRes: real, trials: nat, point: Vector, res: real) {
    && |x| == |u|
    && 1 <= trials <= MaxTrials
    && point == TrialPoint(o, x, u, trials - 1)
    && res == TrialResidual(o, x, u, trials - 1)
    && (forall k :: 0 <= k < trials - 1 ==> TrialResidual(o, x, u, k) >= lastRes)
    && (res < lastRes || trials == MaxTrials)
  }

  /** The record of one outer iteration. */
  datatype Iteration =
    | FirstStep(solution: Vector, res: real)
    | Damped(start: Vector, update: Vector, trials: nat, solution: Vector, res: real)

  /**
    What one outer iteration does from solution `x` and last residual `lastRes`.
    The first step solves at the zero vector (`initialize_system` re-zeroes
    `present_solution`) with the nonzero constraints and takes the solve result
    itself as the new solution; a damped step solves at `x` with the zero
    constraints and runs the line search.
   */
  predicate IterationValid(o: Oracle, x: Vector, lastRes: real, first: bool, it: Iteration) {
    if first then
      && it.FirstStep?
      && it.solution == o.distribute(o.solve(Zeros(|x|), Nonzero))
      && it.res == o.residual(it.solution, Zero)
    else
      && it.Damped?
      && it.start == x
      && it.update == o.solve(x, Zero)
      && LineSearchAccepts(o, x, it.update, lastRes, it.trials, it.solution, it.res)
  }

  /** `present_solution` before iteration `i`. */
  function SolutionBefore(x0: Vector, hist: seq<Iteration>, i: nat): Vector
    requires i <= |hist|
  {
    if i == 0 then x0 else hist[i - 1].solution
  }

  /** `last_res` (and `current_res`) before iteration `i`; both start at 1. */
  function ResidualBefore(hist: seq<Iteration>, i: nat): real
    requires i <= |hist|
  {
    if i == 0 then 1.0 else hist[i - 1].res
  }

  /** Every recorded iteration follows from the state the previous ones left. */
  predicate ValidRun(o: Oracle, x0: Vector, isInitialStep: bool, hist: seq<Iteration>) {
    forall i {:trigger SolutionBefore(x0, hist, i)} :: 0 <= i < |hist| ==>
      IterationValid(o, SolutionBefore(x0, hist, i), ResidualBefore(hist, i), isInitialStep && i == 0, hist[i])
  }

  /** The loop guard `first_step || current_res > tolerance` before iteration `i`. */
  predicate Continues(isInitialStep: bool, tolerance: real, hist: seq<Iteration>, i: nat)
    requires i <= |hist|
  {
    (isInitialStep && i == 0) || ResidualBefore(hist, i) > tolerance
  }

  /**
    The backtracking line search: tries alpha = 1, 1/2, 1/4, ... while alpha
    stays above 1e-3, stops at the first trial whose residual is strictly
    below `lastRes`, and otherwise keeps the last trial.
   */
  method LineSearch(o: Oracle, x: Vector, u: Vector, lastRes: real) returns (point: Vector, res: real, trials: nat)
    requires |x| == |u|
    ensures LineSearchAccepts(o, x, u, lastRes, trials, point, res)
  {
    var alpha := 1.0;
    var k := 0;
    point, res, trials := x, lastRes, 0;
    while alpha > DampingFloor
      invariant k <= MaxTrials && alpha == Alpha(k) && trials == k
      invariant k > 0 ==> point == TrialPoint(o, x, u, k - 1) && res == TrialResidual(o, x, u, k - 1)
      invariant forall j :: 0 <= j < k ==> TrialResidual(o, x, u, j) >= lastRes
      decreases MaxTrials - k
    {
      TrialCount(k);
      point := o.distribute(AddScaled(x, alpha, u));
      res := o.residual(point, ConstraintsFor(false));
      trials := k + 1;
      if res < lastRes {
        return;
      }
      k := k + 1;
      alpha := alpha * 0.5;
    }
    TrialCount(k);
  }

  /** Appending an iteration that follows from the last state keeps a run valid. */
  lemma ValidRunExtend(o: Oracle, x0: Vector, isInitialStep: bool, hist: seq<Iteration>, it: Iteration)
    requires ValidRun(o, x0, isInitialStep, hist)
    requires IterationValid(o, SolutionBefore(x0, hist, |hist|), ResidualBefore(hist, |hist|), isInitialStep && |hist| == 0, it)
    ensures ValidRun(o, x0, isInitialStep, hist + [it])
  {
    var h := hist + [it];
    forall i | 0 <= i < |h|
      ensures IterationValid(o, SolutionBefore(x0, h, i), ResidualBefore(h, i), isInitialStep && i == 0, h[i])
    {
      assert SolutionBefore(x0, h, i) == SolutionBefore(x0, hist, i);
      assert ResidualBefore(h, i) == ResidualBefore(hist, i);
    }
  }

  /** Appending an iteration that the loop guard admitted keeps every guard satisfied. */
  lemma ContinuesExtend(isInitialStep: bool, tolerance: real, hist: seq<Iteration>, it: Iteration)
    requires forall i :: 0 <= i < |hist| ==> Continues(isInitialStep, tolerance, hist, i)
    requires Continues(isInitialStep, tolerance, hist, |hist|)
    ensures forall i :: 0 <= i < |hist| + 1 ==> Continues(isInitialStep, tolerance, hist + [it], i)
  {
    var h := hist + [it];
    forall i | 0 <= i < |h|
      ensures Continues(isInitialStep, tolerance, h, i)
    {
      assert Continues(isInitialStep, tolerance, hist, i);
      assert ResidualBefore(h, i) == ResidualBefore(hist, i);
    }
  }

  /**
    `newton_iteration(tolerance, max_iteration, is_initial_step, _)` started
    from `present_solution == x0`. Returns the final `present_solution`, the
    final `last_res` and the record of every outer iteration. The constraint
    set of every solve and residual is fixed by `IterationValid`: only the
    first step assembles and solves with the nonzero constraints.
   */
  method NewtonIteration(o: Oracle, x0: Vector, tolerance: real, maxIteration: nat, isInitialStep: bool)
    returns (x: Vector, lastRes: real, hist: seq<Iteration>)
    requires SolvePreservesSize(o)
    ensures |hist| <= maxIteration
    ensures ValidRun(o, x0, isInitialStep, hist)
    ensures forall i :: 0 <= i < |hist| ==> Continues(isInitialStep, tolerance, hist, i)
    ensures |hist| == maxIteration || !Continues(isInitialStep, tolerance, hist, |hist|)
    ensures x == SolutionBefore(x0, hist, |hist|) && lastRes == ResidualBefore(hist, |hist|)
    ensures isInitialStep && maxIteration > 0 ==> |hist| > 0
    ensures forall i :: 0 <= i < |hist| ==> (hist[i].FirstStep? <==> isInitialStep && i == 0)
  {
    var firstStep := isInitialStep;
    var outer: nat := 0;
    lastRes := 1.0;
    var currentRes := 1.0;
    x, hist := x0, [];
    while (firstStep || currentRes > tolerance) && outer < maxIteration
      invariant outer == |hist| <= maxIteration
      invariant firstStep <==> isInitialStep && outer == 0
      invariant currentRes == lastRes == ResidualBefore(hist, outer)
      invariant x == SolutionBefore(x0, hist, outer)
      invariant ValidRun(o, x0, isInitialStep, hist)
      invariant forall i :: 0 <= i < |hist| ==> Continues(isInitialStep, tolerance, hist, i)
      invariant forall i :: 0 <= i < |hist| ==> (hist[i].FirstStep? <==> isInitialStep && i == 0)
      decreases maxIteration - outer
    {
      var it: Iteration;
      if firstStep {
        var update := o.solve(Zeros(|x|), ConstraintsFor(firstStep));
        firstStep := false;
        var solution := o.distribute(update);
        currentRes := o.residual(solution, ConstraintsFor(firstStep));
        it := FirstStep(solution, currentRes);
      } else {
        var update := o.solve(x, ConstraintsFor(firstStep));
        var point, res, trials := LineSearch(o, x, update, lastRes);
        currentRes := res;
        it := Damped(x, update, trials, point, res);
      }
      ValidRunExtend(o, x0, isInitialStep, hist, it);
      ContinuesExtend(isInitialStep, tolerance, hist, it);
      hist := hist + [it];
      x := it.solution;
      lastRes := currentRes;
      outer := outer + 1;
    }
  }

  /** The acceptance rule determines the line search's outcome. */
  lemma LineSearchUnique(o: Oracle, x: Vector, u: Vector, lastRes: real,
                         t1: nat, p1: Vector, r1: real, t2: nat, p2: Vector, r2: real)
    requires LineSearchAccepts(o, x, u, lastRes, t1, p1, r1)
    requires LineSearchAccepts(o, x, u, lastRes, t2, p2, r2)
    ensures t1 == t2 && p1 == p2 && r1 == r2
  {
  }

  /** One outer iteration is determined by the state it starts from. */
  lemma IterationUnique(o: Oracle, x: Vector, lastRes: real, first: bool, a: Iteration, b: Iteration)
    requires IterationValid(o, x, lastRes, first, a) && IterationValid(o, x, lastRes, first, b)
    ensures a == b
  {
  }

  /** Two runs with the same first `i` iterations reach iteration `i` in the same state. */
  lemma SameStateBefore(x0: Vector, h1: seq<Iteration>, h2: seq<Iteration>, i: nat)
    requires i <= |h1| && i <= |h2| && h1[..i] == h2[..i]
    ensures SolutionBefore(x0, h1, i) == SolutionBefore(x0, h2, i)
    ensures ResidualBefore(h1, i) == ResidualBefore(h2, i)
  {
  }

  /** The postcondition of `NewtonIteration` pins down the whole run. */
  lemma NewtonRunUnique(o: Oracle, x0: Vector, tolerance: real, maxIteration: nat,
                        isInitialStep: bool, h1: seq<Iteration>, h2: seq<Iteration>)
    requires |h1| <= maxIteration && |h2| <= maxIteration
    requires ValidRun(o, x0, isInitialStep, h1) && ValidRun(o, x0, isInitialStep, h2)
    requires forall i :: 0 <= i < |h1| ==> Continues(isInitialStep, tolerance, h1, i)
    requires forall i :: 0 <= i < |h2| ==> Continues(isInitialStep, tolerance, h2, i)
    requires |h1| == maxIteration || !Continues(isInitialStep, tolerance, h1, |h1|)
    requires |h2| == maxIteration || !Continues(isInitialStep, tolerance, h2, |h2|)
    ensures h1 == h2
  {
    var n := if |h1| < |h2| then |h1| else |h2|;
    var i := 0;
    while i < n
      invariant i <= n
      invariant h1[..i] == h2[..i]
    {
      SameStateBefore(x0, h1, h2, i);
      IterationUnique(o, SolutionBefore(x0, h1, i), ResidualBefore(h1, i), isInitialStep && i == 0, h1[i], h2[i]);
      assert h1[..i + 1] == h1[..i] + [h1[i]];
      assert h2[..i + 1] == h2[..i] + [h2[i]];
      i := i + 1;
    }
    SameStateBefore(x0, h1, h2, n);
    assert Continues(isInitialStep, tolerance, h1, n) == Continues(isInitialStep, tolerance, h2, n);
    assert h1 == h1[..|h1|] && h2 == h2[..|h2|];
  }

  /**
    An oracle whose solve always returns the all-ones vector, whose residual is
    0.5 there and 1 everywhere else, and whose constraints change nothing.
   */
  const DipThenRise: Oracle := Oracle(
    (v, c) => if v == Constant(|v|, 1.0) then 0.5 else 1.0,
    (v, c) => Constant(|v|, 1.0),
    v => v)

  /**
    Accepted residuals are not guaranteed to decrease. In a run from an initial
    step, the first step accepts residual 0.5. No damped trial of the next
    iteration gets below it, so the trial with alpha = 1/512 is accepted
    anyway, with residual 1.
   */
  lemma AcceptedResidualMayIncrease(x0: Vector, hist: seq<Iteration>)
    requires |x0| > 0 && ValidRun(DipThenRise, x0, true, hist) && |hist| >= 2
    ensures hist[0].res == 0.5 && hist[1].res > hist[0].res
    ensures hist[1].Damped? && hist[1].trials == MaxTrials
  {
    var ones := Constant(|x0|, 1.0);
    assert SolutionBefore(x0, hist, 0) == x0;
    assert SolutionBefore(x0, hist, 1) == hist[0].solution;
    assert hist[0].solution == ones;
    var h := hist[1];
    assert h.start == ones && h.update == ones;
    forall k: nat | k < MaxTrials
      ensures TrialResidual(DipThenRise, ones, ones, k) == 1.0
    {
      AlphaAntitone(0, k);
      var p := TrialPoint(DipThenRise, ones, ones, k);
      assert p[0] == 1.0 + Alpha(k);
      assert p != Constant(|p|, 1.0);
    }
  }
}
