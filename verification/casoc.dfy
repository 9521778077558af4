/** Transcription-scheme dispatch of the CasADi optimal-control solver
    (`CasOC::Solver::solve`) and the construction of its trapezoidal
    transcription (`CasOC::Trapezoidal`). The transcription's numeric work
    and the NLP solver behind `Transcription::solve()` are opaque: a solve is
    a caller-supplied function of the constructed transcription. */
module CasOC {
  import opened Results
  import opened Exceptions

  /** The part of `CasOC::Problem` the trapezoidal constructor consults. */
  datatype Problem = Problem(enforceConstraintDerivatives: bool)

  /** `CasOC::Solver`: the configured scheme name, the mesh-point count and
      the problem it was built for. */
  datatype Solver = Solver(transcriptionScheme: string, numMeshPoints: int, problem: Problem)

  /** The transcription schemes `Solver::solve` can construct. */
  datatype SchemeKind = Trapezoidal

  /** The one scheme name `Solver::solve` recognises, compared exactly. */
  const TrapezoidalName: string := "trapezoidal"

  /** The message of the exception thrown for an unknown scheme. */
  function UnknownSchemeMessage(scheme: string): (msg: string)
    ensures Contains(msg, scheme)
  {
    ContainsInfix("Unknown transcription scheme '", scheme, "'.");
    "Unknown transcription scheme '" + scheme + "'."
  }

  /** The message of the exception thrown when the problem asks for
      kinematic-constraint derivatives to be enforced. */
  const DerivativesUnsupportedMessage: string :=
    "Enforcing kinematic constraint derivatives not supported with trapezoidal transcription."

  /** Chooses the transcription for a scheme name; there is no default. */
  function SelectScheme(scheme: string): (r: Result<SchemeKind, Exception>)
    ensures r.Success? <==> scheme == TrapezoidalName
    ensures r.Success? ==> r.value == Trapezoidal
    ensures r.Failure? ==> r.error.OpenSimException? && Contains(r.error.message, scheme)
  {
    if scheme == TrapezoidalName then Success(Trapezoidal)
    else Failure(OpenSimException(UnknownSchemeMessage(scheme)))
  }

  /** The actions a transcription's construction performs, in order. */
  datatype Step =
    /** The `Transcription` base constructor, with the state and control
        mesh-point counts it was given. */
    | InitTranscription(numStateMeshPoints: int, numControlMeshPoints: int)
    /** `Transcription::createVariablesAndSetBounds()`. */
    | CreateVariablesAndSetBounds

  /** A constructed transcription. */
  datatype Transcription = Transcription(
    kind: SchemeKind,
    problem: Problem,
    numStateMeshPoints: int,
    numControlMeshPoints: int)

  /** The outcome of a constructor together with the steps it performed
      before returning or throwing. */
  datatype Construction = Construction(result: Result<Transcription, Exception>, trace: seq<Step>)

  /** Number of times `step` occurs in `trace`. */
  function Occurrences(trace: seq<Step>, step: Step): nat {
    if |trace| == 0 then 0
    else (if trace[0] == step then 1 else 0) + Occurrences(trace[1..], step)
  }

  /** `Trapezoidal(solver, problem)`: both mesh-point counts come from the
      solver; a request to enforce constraint derivatives is rejected before
      any variable is created. */
  function NewTrapezoidal(solver: Solver, problem: Problem): (c: Construction)
    ensures |c.trace| >= 1
    ensures c.trace[0] == InitTranscription(solver.numMeshPoints, solver.numMeshPoints)
    ensures c.result.Failure? <==> problem.enforceConstraintDerivatives
    ensures c.result.Failure? ==>
      c.result.error == OpenSimException(DerivativesUnsupportedMessage)
      && Occurrences(c.trace, CreateVariablesAndSetBounds) == 0
    ensures c.result.Success? ==>
      Occurrences(c.trace, CreateVariablesAndSetBounds) == 1
      && c.trace[|c.trace| - 1] == CreateVariablesAndSetBounds
      && c.result.value.kind == Trapezoidal
      && c.result.value.problem == problem
      && c.result.value.numStateMeshPoints == solver.numMeshPoints
      && c.result.value.numControlMeshPoints == solver.numMeshPoints
  {
    var n := solver.numMeshPoints;
    var init := [InitTranscription(n, n)];
    if problem.enforceConstraintDerivatives then
      Construction(Failure(OpenSimException(DerivativesUnsupportedMessage)), init)
    else
      var trace := init + [CreateVariablesAndSetBounds];
      assert trace[1..] == [CreateVariablesAndSetBounds];
      assert Occurrences(trace[1..], CreateVariablesAndSetBounds) == 1 by {
        assert trace[1..][1..] == [];
      }
      Construction(Success(Transcription(Trapezoidal, problem, n, n)), trace)
  }

  /** `Solver::solve()`: selects the transcription by name, constructs it
      from this solver and its problem, and returns what the transcription's
      own `solve()` (the opaque `transcriptionSolve`) returns. */
  function Solve<Solution>(solver: Solver, transcriptionSolve: Transcription -> Solution): (r: Result<Solution, Exception>)
    ensures r.Success? <==>
      solver.transcriptionScheme == TrapezoidalName && !solver.problem.enforceConstraintDerivatives
    ensures solver.transcriptionScheme != TrapezoidalName ==>
      r == Failure(OpenSimException(UnknownSchemeMessage(solver.transcriptionScheme)))
    ensures solver.transcriptionScheme == TrapezoidalName && solver.problem.enforceConstraintDerivatives ==>
      r == Failure(OpenSimException(DerivativesUnsupportedMessage))
    ensures r.Success? ==>
      r.value == transcriptionSolve(Transcription(Trapezoidal, solver.problem, solver.numMeshPoints, solver.numMeshPoints))
  {
    var kind :- SelectScheme(solver.transcriptionScheme);
    match kind
    case Trapezoidal =>
      var transcription :- NewTrapezoidal(solver, solver.problem).result;
      Success(transcriptionSolve(transcription))
  }
}
