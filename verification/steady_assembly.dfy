/**
  The per-cell part of `assemble` in the steady Navier-Stokes prototype: the
  signed distances at the degrees of freedom, the extraction of the cell's
  vertices, and the choice between the fluid, solid, "quadrilateral" and cut
  paths.

  The stabilized fluid integrals, the level-set combiner and the cut-cell
  decomposition (`nouvtriangles`) are external: the model receives the
  combiner as a function, `nouvtriangles` as a function returning `nb_poly`,
  and the finished fluid local system as an input.
 */
module SteadyAssembly {
  import opened LinAlg

  /** The branch of `assemble` a cell takes. */
  datatype CellPath = FluidPath | SolidPath | QuadrilateralPath | CutPath | NoPath

  /** Arithmetic used to keep the strided reads in range. */
  lemma StrideBound(n: nat, stride: nat, count: nat)
    requires 1 <= stride && 0 < count <= n / stride
    ensures stride * (count - 1) < n
  {
  }

  /** Entries `0, stride, 2 * stride, ...` of a per-dof array, `count` of them. */
  function StridedValues<T>(perDof: seq<T>, stride: nat, count: nat): (r: seq<T>)
    requires 1 <= stride && count <= |perDof| / stride
    ensures |r| == count
    ensures forall i :: 0 <= i < count ==> stride * i < |perDof| && r[i] == perDof[stride * i]
  {
    if count == 0 then []
    else
      StrideBound(|perDof|, stride, count);
      StridedValues(perDof, stride, count - 1) + [perDof[stride * (count - 1)]]
  }

  /**
    The vertex values of a cell: with `dim + 1` components per vertex
    (velocity then pressure), vertex `i` is read from local dof `(dim + 1) * i`,
    for every `i < dofs_per_cell / (dim + 1)`.
   */
  function VertexValues<T>(perDof: seq<T>, dim: nat): (r: seq<T>)
    ensures |r| == |perDof| / (dim + 1)
    ensures forall i :: 0 <= i < |r| ==> r[i] == perDof[(dim + 1) * i]
  {
    StridedValues(perDof, dim + 1, |perDof| / (dim + 1))
  }

  /**
    The branch chosen from the combiner size, `nb_poly` and `distance[0]`.
    The fluid branch is taken iff the combiner is empty or the cell is
    undecomposed with a strictly positive first distance. With a non-empty
    combiner, the solid branch needs a strictly negative first distance, -1 is
    the quadrilateral branch and a positive `nb_poly` the cut branch; an
    undecomposed cell whose first distance is exactly zero, and any `nb_poly`
    below -1, match no branch at all.
   */
  function Dispatch(combinerSize: nat, nbPoly: int, distance0: real): (p: CellPath)
    ensures p == FluidPath <==> combinerSize == 0 || (nbPoly == 0 && distance0 > 0.0)
    ensures p == SolidPath <==> combinerSize > 0 && nbPoly == 0 && distance0 < 0.0
    ensures p == QuadrilateralPath <==> combinerSize > 0 && nbPoly == -1
    ensures p == CutPath <==> combinerSize > 0 && nbPoly > 0
    ensures p == NoPath <==> combinerSize > 0 && ((nbPoly == 0 && distance0 == 0.0) || nbPoly < -1)
  {
    if combinerSize < 1 || (nbPoly == 0 && distance0 > 0.0) then FluidPath
    else if nbPoly == 0 && distance0 < 0.0 then SolidPath
    else if nbPoly == -1 then QuadrilateralPath
    else if nbPoly > 0 then CutPath
    else NoPath
  }

  /**
    `nb_poly` for a cell: `nouvtriangles` is called on the vertex coordinates
    and distances when the combiner holds a shape, and `nb_poly` is 0 otherwise.
   */
  function NbPoly(comb: Combiner, dim: nat, dofPoints: seq<Point>, nouvtriangles: (seq<Point>, Vector) -> int): int {
    if comb.size > 0 then
      nouvtriangles(VertexValues(dofPoints, dim), VertexValues(Distances(comb, dofPoints), dim))
    else 0
  }

  /** The path of a cell, from its dof points. */
  function CellPathOf(comb: Combiner, dim: nat, dofPoints: seq<Point>, nouvtriangles: (seq<Point>, Vector) -> int): CellPath
    requires |dofPoints| > 0
  {
    Dispatch(comb.size, NbPoly(comb, dim, dofPoints, nouvtriangles), comb.value(dofPoints[0]))
  }

  /**
    The local matrix and right-hand side of one cell. Both are reset to zero,
    only the fluid path fills them (with the stabilized integrals, received as
    `fluid`), and the solid, quadrilateral and cut paths leave them at zero.
   */
  function CellLocalSystem(comb: Combiner, dim: nat, dofPoints: seq<Point>,
                           nouvtriangles: (seq<Point>, Vector) -> int, fluid: LocalSystem): (r: LocalSystem)
    requires |dofPoints| > 0 && SizedSystem(fluid, |dofPoints|)
    ensures SizedSystem(r, |dofPoints|)
    ensures CellPathOf(comb, dim, dofPoints, nouvtriangles) == FluidPath ==> r == fluid
    ensures CellPathOf(comb, dim, dofPoints, nouvtriangles) != FluidPath ==> r == ZeroSystem(|dofPoints|)
  {
    match CellPathOf(comb, dim, dofPoints, nouvtriangles)
    case FluidPath => fluid
    case SolidPath => ZeroSystem(|dofPoints|)
    case QuadrilateralPath => ZeroSystem(|dofPoints|)
    case CutPath => ZeroSystem(|dofPoints|)
    case NoPath => ZeroSystem(|dofPoints|)
  }

  /** With no shape in the combiner every cell is assembled as fluid, whatever its points. */
  lemma EmptyCombinerIsAllFluid(comb: Combiner, dim: nat, dofPoints: seq<Point>,
                                nouvtriangles: (seq<Point>, Vector) -> int, fluid: LocalSystem)
    requires |dofPoints| > 0 && SizedSystem(fluid, |dofPoints|) && comb.size == 0
    ensures CellLocalSystem(comb, dim, dofPoints, nouvtriangles, fluid) == fluid
  {
  }
}
