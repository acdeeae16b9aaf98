/**
  The (label, error) table written by the manufactured-solution driver
  `runMMS` of the steady Navier-Stokes prototype.

  Each cycle solves on a mesh one uniform refinement finer than the previous
  one and records the L2 velocity error; the table then labels the k-th error
  with `k + initialSize_`. The solve and the error integral are received as
  `errorAtLevel`, a function of the refinement level: every cycle starts its
  Newton iteration as an initial step, which zeroes the transferred solution,
  so the error of a cycle depends on the mesh alone.
 */
module MmsErrorTable {

  /** `initialSize_`: the refinement level of the first mesh and the first label. */
  const InitialSize: int := 3

  /** The number of refinement cycles of `runMMS`. */
  const Cycles: nat := 5

  /** One line of `L2Error.dat`: a tag (the label written first) and an error. */
  datatype ErrorLine = ErrorLine(tag: int, error: real)

  /** One line per recorded error, in order, the k-th labelled `k + initialSize_`. */
  method WriteErrorTable(errors: seq<real>) returns (lines: seq<ErrorLine>)
    ensures |lines| == |errors|
    ensures forall k :: 0 <= k < |lines| ==> lines[k].tag == k + InitialSize && lines[k].error == errors[k]
  {
    lines := [];
    var i := 0;
    while i < |errors|
      invariant i <= |errors| && |lines| == i
      invariant forall k :: 0 <= k < i ==> lines[k].tag == k + InitialSize && lines[k].error == errors[k]
    {
      lines := lines + [ErrorLine(i + InitialSize, errors[i])];
      i := i + 1;
    }
  }

  /**
    The cycles of `runMMS` followed by the table: every line's label is the
    refinement level of the mesh its error was computed on.
   */
  method RunMms(errorAtLevel: int -> real) returns (lines: seq<ErrorLine>)
    ensures |lines| == Cycles
    ensures forall k :: 0 <= k < |lines| ==> lines[k].tag == InitialSize + k
    ensures forall k :: 0 <= k < |lines| ==> lines[k].error == errorAtLevel(lines[k].tag)
  {
    var level := InitialSize;
    var errors: seq<real> := [];
    var cycle := 0;
    while cycle < Cycles
      invariant cycle <= Cycles && |errors| == cycle
      invariant cycle > 0 ==> level == InitialSize + cycle - 1
      invariant cycle == 0 ==> level == InitialSize
      invariant forall k :: 0 <= k < cycle ==> errors[k] == errorAtLevel(InitialSize + k)
    {
      if cycle != 0 {
        level := level + 1;
      }
      errors := errors + [errorAtLevel(level)];
      cycle := cycle + 1;
    }
    lines := WriteErrorTable(errors);
  }
}
