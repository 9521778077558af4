# OpenSim Moco configuration and upgrade bookkeeping, in Dafny

This project models the configuration and bookkeeping logic around OpenSim
Moco's direct-collocation engine:

- **CasOC solver dispatch** (`casoc.dfy`, module `CasOC`). `Solver::solve`
  maps the transcription scheme name to a transcription. Only the exact name
  `"trapezoidal"` is accepted; any other name raises an exception whose
  message names the scheme. The `Trapezoidal` constructor takes its state
  and control mesh-point counts from the solver. It rejects a problem that
  asks for kinematic-constraint derivatives before
  `createVariablesAndSetBounds()` runs. The NLP solve behind
  `Transcription::solve()` is a caller-supplied function.
- **`MocoOrientationTrackingCost` settings** (`orientation_tracking.dfy`,
  module `OrientationTracking`). A cost has three mutually exclusive
  reference sources: a file path, a states table and a rotation table. It
  also has a frame-path list that each call replaces, and a rotation weight
  set with an upsert setter.
- **Simulation utilities** (`simulation_utilities.dfy`, module
  `SimulationUtilities`). This covers the final-time guard of `simulate`,
  the selection and conversion bookkeeping of the pre-4.0 kinematics
  upgrade, the rewrite of the output file path, and the per-file loop that
  decides what gets written.
- `results.dfy` holds `Option`/`Result` (module `Results`), and
  `samples.dfy` the opaque data samples (module `Samples`).
  `exceptions.dfy` holds the exceptions and a substring relation used to
  state what error messages mention.

Exceptions are modelled as `Failure` values. A null `std::unique_ptr` is
modelled as `None`. Tables and storage columns hold opaque samples. A
storage column records how many times it was multiplied by the
degrees-to-radians factor, instead of holding the multiplied numbers.

The file loop of `updatePre40KinematicsFilesFor40MotionType` is modelled
as a generic `Loop` over the file paths, with `FileStep` as its body.
`FileStep` handles one file. A thrown exception ends `Loop` at that file,
after the writes of the files before it. `FirstFailureIndex` names the
first file whose pass throws.

The header's documentation of `updatePre40KinematicsFilesFor40MotionType`
(`OpenSim/Simulation/SimulationUtilities.h:170-171`) says the new files are
written to the same directories as the originals, with the suffix before
the file extension. The code (`SimulationUtilities.h:212`) searches for the
last `.` in the whole path. When the file name has a `.`, that `.` is the
last one and the copy goes beside the original, even if a directory name
also has a `.`. When the file name has no `.` but a directory name does,
the copy goes to another directory. When the path has no `.` at all, the
rewrite throws `out_of_range` and nothing is written. The model follows the
code. `DotInDirectoryMovesOutput` and `LeadingDotMovesOutput` show two paths
whose copy goes to another directory.

The C++ `return;` at `OpenSim/Simulation/SimulationUtilities.h:114` is
ill-formed, because the function returns a `std::unique_ptr`. The model
follows the documented intent, "no update" (`None`).

## Model

| member | source | states |
|---|---|---|
| CasOC.SelectScheme | Moco/Moco/MocoCasADiSolver/CasOCProblem.cpp:31-35 | Succeeds exactly when the name equals `"trapezoidal"`, and then selects the trapezoidal scheme. Every other name, including case variants and `""`, fails with an exception whose message contains the name. There is no default. |
| CasOC.UnknownSchemeMessage | Moco/Moco/MocoCasADiSolver/CasOCProblem.cpp:34-35 | The unknown-scheme message contains the offending scheme name. |
| CasOC.NewTrapezoidal | Moco/Moco/MocoCasADiSolver/CasOCTrapezoidal.h:30-38 | Both mesh-point counts equal the solver's mesh-point count. Construction fails iff the problem asks for constraint derivatives, and a failed construction never created variables. A successful one created variables exactly once, as its last step. |
| CasOC.Solve | Moco/Moco/MocoCasADiSolver/CasOCProblem.cpp:29-38 | Succeeds iff the scheme is `"trapezoidal"` and no constraint derivatives are requested. An unknown scheme raises the unknown-scheme error even when derivatives are requested. The trapezoidal constructor's exception propagates unchanged. On success the result is exactly the transcription's own solve of the transcription built from this solver and its problem. |
| OrientationTracking.New | Moco/Moco/MocoCost/MocoOrientationTrackingCost.h:58-67 | Whichever constructor is used, a fresh cost has reference file `""`, no frame paths, no weights and empty tables, and it satisfies the invariant. |
| OrientationTracking.SetStatesReferenceFile | Moco/Moco/MocoCost/MocoOrientationTrackingCost.h:77-81 | The reference file becomes the given path and both tables become empty. Nothing else changes, and the invariant is kept. |
| OrientationTracking.SetStatesReference | Moco/Moco/MocoCost/MocoOrientationTrackingCost.h:85-89 | The states table is stored, the reference file becomes `""` and the rotation table becomes empty. Nothing else changes. |
| OrientationTracking.SetRotationReference | Moco/Moco/MocoCost/MocoOrientationTrackingCost.h:97-101 | The rotation table is stored, the reference file becomes `""` and the states table becomes empty. Nothing else changes. |
| OrientationTracking.SetFramePaths | Moco/Moco/MocoCost/MocoOrientationTrackingCost.h:107-112 | Frame paths become exactly the given list, in order and with duplicates kept. Earlier paths are discarded and nothing else changes. |
| OrientationTracking.AppendFramePaths | Moco/Moco/MocoCost/MocoOrientationTrackingCost.h:109-111 | Appending paths one by one yields the old list followed by the new paths. |
| OrientationTracking.IndexOf | Moco/Moco/MocoCost/MocoOrientationTrackingCost.h:118-119 | Finds the first weight with the name, or reports that none has it. |
| OrientationTracking.Upsert | Moco/Moco/MocoCost/MocoOrientationTrackingCost.h:117-123 | A present name keeps its position and only its weight changes; the size is the same and other entries are untouched. An absent name is appended. A lookup afterwards finds the new weight, and unique names stay unique. |
| OrientationTracking.SetWeight | Moco/Moco/MocoCost/MocoOrientationTrackingCost.h:113-123 | Upserts the weight and never fails, even for a frame it does not know. A present name keeps its position and only its weight changes, with every other entry untouched. An absent name is appended at the end. Only the weight set changes and validity is kept. |
| OrientationTracking.SetWeightSet | Moco/Moco/MocoCost/MocoOrientationTrackingCost.h:126-128 | The weight set is replaced by the given one and nothing else changes. |
| OrientationTracking.SettersPreserveValid | Moco/Moco/MocoCost/MocoOrientationTrackingCost.h:77-128 | Any sequence of setters keeps the invariant: at most one reference source set, and unique weight names. This assumes every installed weight set has unique names. |
| OrientationTracking.LastReferenceSetterDecides | Moco/Moco/MocoCost/MocoOrientationTrackingCost.h:77-130 | After any sequence of setters, the three reference sources are decided by the last reference setter alone. `getReferenceFile()` (`GetReferenceFile`) returns `""` unless that setter was the file setter. |
| OrientationTracking.GetReferenceFile | Moco/Moco/MocoCost/MocoOrientationTrackingCost.h:129-130 | Returns the stored reference file. In a valid cost a non-empty file means both tables are empty. `New` and `LastReferenceSetterDecides` state when it is `""`. |
| OrientationTracking.ReferenceSetterOverrides | Moco/Moco/MocoCost/MocoOrientationTrackingCost.h:77-101 | Of two reference setters in a row, only the second has any effect. |
| SimulationUtilities.Simulate | OpenSim/Simulation/SimulationUtilities.h:46-57 | A final time at or before the initial state's time returns the initial state without integrating. Otherwise the result is the integrated state. |
| SimulationUtilities.ProblemCoordinates | OpenSim/Simulation/SimulationUtilities.h:124-135 | A coordinate is selected iff its pre-4.0 motion type is not `Undefined` and differs from its current motion type. Each selected coordinate appears exactly as often as in the model, and no other coordinate appears. |
| SimulationUtilities.ConvertColumns | OpenSim/Simulation/SimulationUtilities.h:140-157 | The column labels stay the same and no sample changes. Each column is converted once per selected coordinate of that name; a selected coordinate without a column is skipped. |
| SimulationUtilities.UpToDateMessage | OpenSim/Simulation/SimulationUtilities.h:117-121 | The up-to-date message contains the model's name. |
| SimulationUtilities.UpdateStorage | OpenSim/Simulation/SimulationUtilities.h:109-159 | Kinematics not in degrees need no update, and the version is never checked for them. In degrees with model version at least 30415, the call throws. Otherwise the result is null iff no coordinate is selected. Else it is a copy with the same name, flag and labels, in which exactly the selected coordinates' columns are converted. |
| SimulationUtilities.NameCountOccurs | OpenSim/Simulation/SimulationUtilities.h:142-156 | A column is converted at least once iff some selected coordinate has its name. With distinct names it is converted at most once. |
| SimulationUtilities.ProblemCoordinatesDistinct | OpenSim/Simulation/SimulationUtilities.h:124-135 | Selecting coordinates from a model with distinct coordinate names gives distinct names. |
| SimulationUtilities.UpdateConvertsExactlyProblemColumns | OpenSim/Simulation/SimulationUtilities.h:140-158 | An upgraded column differs from the input iff a selected coordinate names it. With distinct coordinate names, each such column is converted exactly once. |
| SimulationUtilities.LastIndexOf | OpenSim/Simulation/SimulationUtilities.h:212 | `rfind(".")` either finds the last `.`, with none after it, or reports that there is none. |
| SimulationUtilities.OutputPath | OpenSim/Simulation/SimulationUtilities.h:210-215 | An empty suffix leaves the path as it is. Otherwise the suffix is inserted before the last `.`, and the length grows by the suffix's length. A path without `.` throws `out_of_range`. |
| SimulationUtilities.OutputPathInverse | OpenSim/Simulation/SimulationUtilities.h:210-215 | Cutting the inserted suffix out of the output path gives back the input path. |
| SimulationUtilities.OutputPathKeepsExtension | OpenSim/Simulation/SimulationUtilities.h:210-215 | For any non-empty suffix, even one containing `.`, the input's last `.` moves right by the suffix's length and is still the last `.` of the output path. |
| SimulationUtilities.UpdateFiles | OpenSim/Simulation/SimulationUtilities.h:196-221 | Each write is the upgrade of some listed file, printed at that file's rewritten path. Files whose update is null produce no write. When no exception occurs, the number of writes equals the number of files needing an update. The loop ends without an exception iff every file is processed cleanly, judged on the contents `load` gives for it. |
| SimulationUtilities.FileStep | OpenSim/Simulation/SimulationUtilities.h:202-219 | One pass of the loop body. A file needing an update that is processed cleanly is written once, at its rewritten path. A file needing none is skipped. Otherwise the pass writes nothing and raises the file's exception: the upgrade's exception, or `out_of_range` from the path rewrite. |
| SimulationUtilities.LoopStopsAtFirstFailure | OpenSim/Simulation/SimulationUtilities.h:201-220 | When a pass throws, the loop ends at the first pass that throws. Its result is the writes of the earlier files, then that pass's writes, with that pass's exception. |
| SimulationUtilities.UpdateFilesAppend | OpenSim/Simulation/SimulationUtilities.h:201-220 | Files are handled in list order. After a prefix that raises nothing, the loop goes on with the rest, and the rest's writes follow the prefix's writes. |
| SimulationUtilities.UpdateFilesComplete | OpenSim/Simulation/SimulationUtilities.h:201-220 | When the loop raises nothing, every listed file that needs an update is written, with its upgraded storage, at its rewritten path. |
| SimulationUtilities.UpdateFilesFailsAtFirstFailure | OpenSim/Simulation/SimulationUtilities.h:201-220 | When the loop raises an exception, it is the exception of the first file not processed cleanly. Every earlier file was processed cleanly. |
| SimulationUtilities.UpdateFilesWritesBeforeFailure | OpenSim/Simulation/SimulationUtilities.h:201-220 | When the loop raises an exception, the files written are exactly those the loop writes for the files before the first failing one. |
| SimulationUtilities.UpdateFilesWritesBound | OpenSim/Simulation/SimulationUtilities.h:201-220 | At most one file is written per listed file, whether or not the loop throws. |
| SimulationUtilities.UpdateFilesDefault | OpenSim/Simulation/SimulationUtilities.h:196-198 | Without a suffix argument the suffix is `"_updated"`. Every write goes to a listed path that has a `.`, with `_updated` inserted before the last `.` of the whole path, which may lie in a directory name. |
| SimulationUtilities.DotInDirectoryMovesOutput | OpenSim/Simulation/SimulationUtilities.h:210-215 | The suffix goes before the last `.` of the whole path: `runs.v2/trial` becomes `runs_updated.v2/trial`, so the copy lands in another directory. |
| SimulationUtilities.LeadingDotMovesOutput | OpenSim/Simulation/SimulationUtilities.h:210-215 | `./motion` becomes `_updated./motion`: the suffix goes before the `.` of the relative directory, outside the original's directory. |
| SimulationUtilities.EmptySuffixOverwrites | OpenSim/Simulation/SimulationUtilities.h:170-215 | With an empty suffix, every write goes to one of the original paths. |
| SimulationUtilities.UpToDateModelWritesNothing | OpenSim/Simulation/SimulationUtilities.h:114-208 | For a model at version 30415 or later, nothing is written. The loop ends without an exception iff no file, as `load` gives it, is in degrees. |

## Left out

- The trapezoidal defect constraints, quadrature coefficients, kinematic-constraint indices and variable layout. The trapezoidal header only declares them, and their definitions are not part of this model.
- CasADi's symbolic expressions and the NLP solver behind `Transcription::solve()`. `CasOC.Solve` takes that solve as an opaque, total function.
- CasOC.Solve: an exception thrown by `Transcription::solve()` itself is not modelled, so its "succeeds iff" covers only scheme dispatch and the trapezoidal constructor. A solver failure reported as data is carried in the solution.
- The `Transcription` base constructor. Its own checks are not part of this model; it appears only as the first step of the construction trace.
- The defaults that the `MocoCost` base constructors give a cost's name and weight. `MocoCost` is not part of this model, so the cost records which base constructor was used.
- `initializeOnModelImpl`, `calcIntegralCostImpl`, the spline set and the rotation mathematics of the orientation cost. They are declared without bodies here and depend on Simbody.
- The console message "simulation aborted" that `simulate` prints when the final time is not in the future (`SimulationUtilities.h:54-55`).
- The visualizer loop, key presses, integrator and manager set-up, and state-file printing in `simulate`. Integration is an opaque function.
- SimulationUtilities.Simulate: compares times as reals, so it does not model a NaN final time, which fails the `<=` guard in C++ and goes on to integrate.
- The multiplication of column values by `SimTK_DTR`. A column only counts how often it was applied.
- SimulationUtilities.UpdateFiles: `load` is one fixed function, applied to each path as the files were before the loop. So a pass never sees a file an earlier pass wrote. In C++, a path listed twice with suffix `""` (or listed after an earlier output path) is loaded after the earlier `print`. It is then converted again, and the model does not capture that. `load` is also total, so a `Storage` constructor that throws on an unreadable file is not modelled. The iff statements about exceptions in `UpdateFiles` and `UpToDateModelWritesNothing` therefore cover only the upgrade and path-rewrite exceptions.
- Loading a `Storage` from a file and printing one. Loading is a caller-supplied function, and a write is recorded as a path and a storage.
- `Storage::getStateIndex`'s fallbacks for column labels that differ from the coordinate name. A column is found by exact label.
- Console messages printed for skipped coordinates and written files.
- The example program `exampleTracking.cpp`. It only wires a model to a solver and computes a floating-point tracking integrand.
