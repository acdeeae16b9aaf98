# Immersed-boundary prototypes of lethe: control flow and bookkeeping

This project models two pieces of lethe's immersed-boundary (IB) work in
Dafny and proves properties of the model.

- **The steady Navier-Stokes prototype** (`DirectSteadyNavierStokes` in
  `prototypes/IBSteadyNS/IBSteadyNS.cc`). The model covers:
  - the Newton iteration with its backtracking line search;
  - which constraint set (nonzero or zero) each assembly and solve uses;
  - how `assemble` picks the fluid, solid, "quadrilateral", cut or no path for a cell;
  - how `assemble` extracts the cell's vertices from its dofs;
  - the (label, error) lines that `runMMS` writes.
- **The IB heat test driver** (`tests/ib/ib_09.cc`). The model covers:
  - the per-cell local systems for fluid, solid and cut cells;
  - the barycenter and `Tdirichlet`;
  - the scatter-add of locally owned cells into the global system;
  - the error loop, including the boundary-value copy for cut cells;
  - the pass/fail check of `test_L2`, whose tolerance shrinks with the level.

The finite-element numerics and the cut-cell geometry are outside the model.
They are received as opaque functions over real vectors:
- assembly and the residual norm;
- the direct solve;
- the application of constraints;
- the level-set combiner;
- `nouvtriangles` / `decomposition`;
- the cut-cell integrator.

The modules are:
- `LinAlg` (`linalg.dfy`): vectors, matrices, points, the level-set combiner with its signed distances, and the identity-matrix lemma.
- `SteadyNewton` (`steady_newton.dfy`): `newton_iteration`, `solve` and the constraint choice.
- `SteadyAssembly` (`steady_assembly.dfy`): the prototype's per-cell dispatch and vertex extraction.
- `MmsErrorTable` (`error_table.dfy`): the `runMMS` cycles and `L2Error.dat` lines.
- `HeatAssembly` (`heat_assembly.dfy`): the first half of `calculate_L2_error` in the heat test, which assembles the system.
- `HeatError` (`heat_error.dfy`): the error loop and `test_L2`.

Four behaviours of the code that the model reproduces:
- **Residuals can rise.** An accepted residual is not guaranteed to be at most the previously accepted one. When no damping factor improves on `last_res`, the trial with α = 1/512 is kept anyway (`SteadyNewton.AcceptedResidualMayIncrease`).
- **The first step starts from zero.** It does not start from the transferred solution: `initialize_system` re-zeroes `present_solution` just before `evaluation_point` is copied from it.
- **One case matches no branch.** In the prototype, an undecomposed cell whose first distance is exactly 0 matches no branch. Its local system stays zero, like every other non-fluid cell's.
- **A later call starts from a residual of 1.** With `is_initial_step` false, the first damped step compares against a `last_res` of 1.0, not against a residual of the incoming solution.

## Model

| member | source | states |
|---|---|---|
| SteadyNewton.TrialCount | prototypes/IBSteadyNS/IBSteadyNS.cc:625 | The damping factor of trial k stays above 1e-3 exactly for k < 10, so the line-search loop runs at most 10 trials (α = 1 down to 1/512). |
| SteadyNewton.AlphaAntitone | prototypes/IBSteadyNS/IBSteadyNS.cc:625 | The damping factors are positive and never increase from one trial to the next. |
| SteadyNewton.ConstraintsFor | prototypes/IBSteadyNS/IBSteadyNS.cc:508 | Assembly and solve use the nonzero constraint set iff they are called with `initial_step` set, and the zero set otherwise (the same choice at line 540). |
| SteadyNewton.LineSearch | prototypes/IBSteadyNS/IBSteadyNS.cc:625-640 | The accepted trial is the first whose residual is strictly below `last_res`. If no trial improves, it is the 10th trial. The new solution is `present + α·update` with the nonzero constraints applied. The new residual is that trial's residual, assembled with the zero constraints. |
| SteadyNewton.LineSearchUnique | prototypes/IBSteadyNS/IBSteadyNS.cc:625-640 | The acceptance rule determines the trial count, the point and the residual uniquely. |
| SteadyNewton.IterationUnique | prototypes/IBSteadyNS/IBSteadyNS.cc:603-640 | One outer iteration (first step or damped step) is determined by the solution and `last_res` it starts from. |
| SteadyNewton.NewtonIteration | prototypes/IBSteadyNS/IBSteadyNS.cc:588-646 | Runs at most `max_iteration` outer iterations, and each follows from the previous state. It stops early only when not on the first step and the residual is ≤ `tolerance`. With `is_initial_step` and `max_iteration` ≥ 1, the first-step branch runs exactly once and first. It assembles and solves at the zero vector with the nonzero constraints and keeps the solve result itself. Every residual that is kept, and every later assembly and solve, uses the zero constraints. |
| SteadyNewton.ValidRunExtend | prototypes/IBSteadyNS/IBSteadyNS.cc:599-644 | Appending an iteration computed from the current state keeps the run's record valid. |
| SteadyNewton.ContinuesExtend | prototypes/IBSteadyNS/IBSteadyNS.cc:599 | Appending an iteration that the loop guard admitted keeps the guard true for every recorded iteration. |
| SteadyNewton.SameStateBefore | prototypes/IBSteadyNS/IBSteadyNS.cc:616-631 | Two runs with the same first i iterations reach iteration i with the same `present_solution` and `last_res`. |
| SteadyNewton.NewtonRunUnique | prototypes/IBSteadyNS/IBSteadyNS.cc:588-646 | The postcondition of `NewtonIteration` fixes the whole run: any two records satisfying it are equal. |
| SteadyNewton.AcceptedResidualMayIncrease | prototypes/IBSteadyNS/IBSteadyNS.cc:603-640 | Take an oracle whose solve always returns the all-ones vector, whose residual is 0.5 there and 1 elsewhere, and whose constraints change nothing. In any run from an initial step, the first step accepts residual 0.5. The next iteration then runs all 10 trials and accepts residual 1, so one accepted residual is followed by a larger one. |
| SteadyAssembly.StridedValues | prototypes/IBSteadyNS/IBSteadyNS.cc:352-355 | Entry i of the result is the per-dof entry at `stride·i`, for `count` entries. |
| SteadyAssembly.VertexValues | prototypes/IBSteadyNS/IBSteadyNS.cc:352-355 | Vertex i is read from local dof (dim+1)·i, for every i < `dofs_per_cell`/(dim+1). |
| SteadyAssembly.Dispatch | prototypes/IBSteadyNS/IBSteadyNS.cc:366-482 | The fluid path is taken iff the combiner is empty, or `nb_poly` is 0 and `distance[0]` > 0. With a non-empty combiner: the solid path iff `nb_poly` is 0 and `distance[0]` < 0; the quadrilateral path iff `nb_poly` is -1; the cut path iff `nb_poly` > 0; and no path iff `nb_poly` is 0 with `distance[0]` exactly 0, or `nb_poly` is below -1. |
| SteadyAssembly.CellLocalSystem | prototypes/IBSteadyNS/IBSteadyNS.cc:343-504 | The local matrix and rhs are the fluid integrals on the fluid path, and zero on every other path. |
| SteadyAssembly.EmptyCombinerIsAllFluid | prototypes/IBSteadyNS/IBSteadyNS.cc:343-366 | With no shape in the combiner, every cell gets the fluid local system. |
| MmsErrorTable.WriteErrorTable | prototypes/IBSteadyNS/IBSteadyNS.cc:774-778 | One line per recorded error, in order. The k-th line carries label k + `initialSize_` and the k-th error. |
| MmsErrorTable.RunMms | prototypes/IBSteadyNS/IBSteadyNS.cc:753-780 | Five cycles, each one refinement level finer than the previous. Line k is labelled 3 + k and holds the error at refinement level 3 + k. |
| HeatAssembly.BarycenterIsQuarterSum | tests/ib/ib_09.cc:164-179 | Adding a quarter of each point's coordinates to a point reset to the origin gives a quarter of the coordinate sums. |
| HeatAssembly.BarycenterIsMean | tests/ib/ib_09.cc:164-179 | For the 4 dof points of a cell, `center_elem` is their coordinate-wise mean. |
| HeatAssembly.Classify | tests/ib/ib_09.cc:195-197 | A cell is fluid iff `nb_poly` is 0 and `distance[0]` > 0, solid iff `nb_poly` is 0 and `distance[0]` ≤ 0, and cut iff `nb_poly` ≠ 0. The error loop at lines 297-299 makes the same choice. |
| HeatAssembly.CellSystem | tests/ib/ib_09.cc:161-232 | The local system depends on the branch. A fluid cell (`nb_poly` 0, `distance[0]` > 0) gets its stiffness and a zero rhs. A solid cell (`nb_poly` 0, `distance[0]` ≤ 0) gets the 4×4 identity and `Tdirichlet` in every rhs entry. Only `nb_poly` ≠ 0 delegates to the cut-cell integrator. |
| HeatAssembly.SolidCellPinsDirichlet | tests/ib/ib_09.cc:210-225 | The local system of a solid cell holds for a vertex vector iff every vertex value is `Tdirichlet`. |
| HeatAssembly.DispatchesAgreeOnFluid | tests/ib/ib_09.cc:195-232 | With any shape in the combiner, the heat test and the prototype pick the same fluid cells. A heat-test solid cell is a prototype solid cell iff its first distance is negative. A heat-test cut cell takes the prototype's quadrilateral, cut or no path. |
| HeatAssembly.UnindexedEntriesUnchanged | tests/ib/ib_09.cc:235-243 | A scatter-add contributes nothing to global entries that the cell's dof indices do not reach. |
| HeatAssembly.ScatterOfDistinctDofs | tests/ib/ib_09.cc:235-243 | With distinct dof indices, global entry (ldi[i], ldi[j]) grows by exactly `cell_mat[i][j]`, and global rhs entry ldi[i] grows by exactly `elem_rhs[i]`. |
| HeatAssembly.AddAt | tests/ib/ib_09.cc:237-239 | `system_matrix.add(r, c, v)` changes entry (r, c) by v and leaves every other entry alone. |
| HeatAssembly.ScatterAdd | tests/ib/ib_09.cc:235-243 | Each global matrix entry grows by the sum of `cell_mat[i][j]` over all (i, j) whose dof pair maps onto it. Each rhs entry grows likewise by the sum of `elem_rhs[i]`. |
| HeatAssembly.AssembleCell | tests/ib/ib_09.cc:167-244 | A cell that is not locally owned leaves the global system unchanged. An owned cell adds its scattered local system. |
| HeatAssembly.AssembleHeatSystem | tests/ib/ib_09.cc:156-245 | Starting from zero, every global entry ends as the sum of the owned cells' scattered local entries. |
| HeatError.SetBoundarySlots | tests/ib/ib_09.cc:310-311 | `T[4]` and `T[5]` both take the value that `T[No_pts_solid[0]]` held before. The vertex entries are unchanged. |
| HeatError.CellErrorStep | tests/ib/ib_09.cc:278-316 | T[0..3] are reloaded from the solution at the cell's dofs. A fluid cell adds its fluid error and a solid cell adds nothing; neither touches T[4] or T[5]. A cut cell sets T[4] = T[5] = T[No_pts_solid[0]] before the cut-cell error integral. |
| HeatError.CalculateError | tests/ib/ib_09.cc:265-319 | The error is accumulated over every cell, owned or not. T starts at zero and is carried from cell to cell. |
| HeatError.ErrorIgnoresVertexSlots | tests/ib/ib_09.cc:284 | The error of the remaining cells depends on the carried T only through T[4] and T[5]. |
| HeatError.WithoutSolid | tests/ib/ib_09.cc:297-306 | Keeps exactly the cells that are not entirely in the solid. Every non-solid input cell is in the result, and every cell of the result is a non-solid input cell. |
| HeatError.SolidCellsAddNothing | tests/ib/ib_09.cc:297-306 | Removing the fully solid cells leaves the total error unchanged. |
| HeatError.TestL2 | tests/ib/ib_09.cc:322-345 | Error(i) is the error at refinement level i + 4. The test passes iff \|Error(i) − Error_theo(i)\| ≤ 1e-5·0.25^i for every i in 0..4. On failure it names the first level out of tolerance. |

## Left out

- **Finite-element integrals.** This covers:
  - shape functions, quadrature and the GLS stabilized residual and Jacobian;
  - τ and h (`IBSteadyNS.cc` lines 368-382);
  - the heat stiffness integral;
  - the fluid error integral.

  These are floating-point numerics over deal.II tensors. Each cell's fluid local system, stiffness and fluid error function are inputs.
- **deal.II infrastructure.** This covers:
  - `AffineConstraints::distribute_local_to_global`, the UMFPACK and CG solves, and `apply_boundary_values`;
  - sparsity patterns, DoF renumbering, `SolutionTransfer`, the Kelly estimator and mesh refinement.

  These are library calls. The Newton model gets assembly, the residual norm, the solve and `distribute` as an oracle. The heat model stops at the assembled system, and its error loop takes the solution as an input.
- **Cut-cell geometry and level-set headers (abstracted as inputs).** `nouvtriangles.h`, `ibcombiner.h`, `iblevelsetfunctions.h`, `T_integration_class.h` and the `node_status` enum are not part of this model. What they produce becomes input:
  - `nb_poly`;
  - the first node status, used as an index 0..5 into T;
  - distances;
  - the scalar payload;
  - the cut-cell integrals.
- **The prototype's cut branch** (`IBSteadyNS.cc` lines 482-504). It only reads sub-triangle points and contributes nothing. The model gives the cut path a zero local system.
- **Never-filled prototype state.** The member `ib_combiner` is never populated, because `runIBTaylorCouette` declares a local of the same name. The `support_points` map of `assemble` is never filled. The model takes the combiner and the dof points as inputs instead of reproducing these lookups.
- **I/O and process plumbing.** VTK output, console logging, the number format of `L2Error.dat`, MPI setup, and the Taylor-Couette and Couette drivers.
- **`include/dem/update_ghost_pp_contact_container.h`.** It is a declaration only: there is no body, and it works on particle iterators.
- **Floating point.** All arithmetic is exact over the reals. This includes the halving of α, the quarter sums of the barycenter, and the 0.25^i tolerance.
- **SteadyNewton.NewtonIteration: vector sizes.** The solve oracle is assumed to return a vector the size of its input. The model also assumes the number of unknowns does not change during one call, since `initialize_system` re-creates vectors of the current size.
- **SteadyNewton.NewtonIteration: solver failure.** The external solves are assumed to succeed. `SparseDirectUMFPACK::initialize` throws on a singular system, which would end `newton_iteration` in the middle of an iteration. The solve oracle is total and has no such exit.
- **HeatError.TestL2: solver failure.** The external solves are assumed to succeed. `SolverCG::solve` throws when 3000 iterations do not reach 1e-12. `test_L2` would then fail by exception, not by the tolerance check. Each level's error is taken as a plain number.
- **HeatError.TestL2: the level pipeline.** The error at each refinement level is a function parameter. Mesh generation per level is not modelled. `HeatError.CalculateError` models one level's error loop.
