/** The bookkeeping of OpenSim's simulation utilities: the final-time guard
    of `simulate`, and the upgrade of pre-4.0 kinematics whose coordinates
    changed motion type in 4.0. Storages are abstract: a column is a run of
    opaque samples plus the number of times the degrees-to-radians factor
    was applied to it. */
module SimulationUtilities {
  import opened Results
  import opened Exceptions
  import opened Samples

  // ---------------------------------------------------------------------
  // simulate

  /** A system state: its time and the rest of its contents. */
  datatype State<Y> = State(time: real, contents: Y)

  /** `simulate(model, initialState, finalTime)` without a visualizer: a
      final time that is not after the initial time returns the initial
      state untouched; otherwise the state `integrate` reaches at
      `finalTime` from the initial state is returned. */
  function Simulate<Y>(initialState: State<Y>, finalTime: real, integrate: (State<Y>, real) -> State<Y>): (r: State<Y>)
    ensures finalTime <= initialState.time ==> r == initialState
    ensures finalTime > initialState.time ==> r == integrate(initialState, finalTime)
  {
    if finalTime <= initialState.time then initialState
    else
      // `state = initialState; state.setTime(initialTime)` is the initial state itself.
      integrate(initialState, finalTime)
  }

  // ---------------------------------------------------------------------
  // Pre-4.0 kinematics

  /** `Coordinate::MotionType`. */
  datatype MotionType = Undefined | Rotational | Translational | Coupled

  /** A coordinate: its name, its 4.0 motion type (decided by its joint)
      and the motion type a pre-4.0 model file declared for it. */
  datatype Coordinate = Coordinate(name: string, motionType: MotionType, motionTypePriorTo40: MotionType)

  /** The parts of a model the upgrade reads; `coordinates` is in component-list order. */
  datatype Model = Model(name: string, documentFileVersion: int, coordinates: seq<Coordinate>)

  /** A data column and how often it was multiplied by `SimTK_DTR`. */
  datatype Column = Column(values: seq<Sample>, conversions: nat)

  /** A motion storage: its name, its "inDegrees" header flag and its
      columns by label. */
  datatype Storage = Storage(name: string, inDegrees: bool, columns: map<string, Column>)

  /** Model files of this document version or later are already 4.0 models. */
  const FirstVersion40: int := 30415

  /** A coordinate whose pre-4.0 motion type was given and differs from its
      4.0 motion type has data in the wrong units. */
  predicate IsProblemCoordinate(c: Coordinate) {
    c.motionTypePriorTo40 != Undefined && c.motionTypePriorTo40 != c.motionType
  }

  /** The problem coordinates, in model order. */
  function ProblemCoordinates(cs: seq<Coordinate>): (r: seq<Coordinate>)
    ensures forall c :: c in r <==> c in cs && IsProblemCoordinate(c)
    ensures forall c :: multiset(r)[c] == (if IsProblemCoordinate(c) then multiset(cs)[c] else 0)
    ensures |r| <= |cs|
  {
    if |cs| == 0 then []
    else
      var rest := ProblemCoordinates(cs[1..]);
      assert cs == [cs[0]] + cs[1..];
      assert forall c :: c in cs <==> c == cs[0] || c in cs[1..];
      assert multiset(cs) == multiset{cs[0]} + multiset(cs[1..]);
      if IsProblemCoordinate(cs[0]) then [cs[0]] + rest else rest
  }

  /** Number of coordinates in `cs` called `name`. */
  function NameCount(cs: seq<Coordinate>, name: string): nat {
    if |cs| == 0 then 0
    else (if cs[0].name == name then 1 else 0) + NameCount(cs[1..], name)
  }

  /** Some coordinate in `cs` is called `name`. */
  predicate HasName(cs: seq<Coordinate>, name: string) {
    exists i :: 0 <= i < |cs| && cs[i].name == name
  }

  /** No two coordinates share a name. */
  predicate DistinctNames(cs: seq<Coordinate>) {
    forall i, j :: 0 <= i < j < |cs| ==> cs[i].name != cs[j].name
  }

  /** A name is counted exactly when it occurs, and at most once when names are distinct. */
  lemma {:induction false} NameCountOccurs(cs: seq<Coordinate>, name: string)
    ensures NameCount(cs, name) > 0 <==> HasName(cs, name)
    ensures DistinctNames(cs) ==> NameCount(cs, name) <= 1
  {
    if |cs| > 0 {
      NameCountOccurs(cs[1..], name);
      if HasName(cs[1..], name) {
        var i :| 0 <= i < |cs[1..]| && cs[1..][i].name == name;
        assert cs[i + 1].name == name;
        if DistinctNames(cs) {
          assert cs[0].name != name;
        }
      }
      if HasName(cs, name) && cs[0].name != name {
        var i :| 0 <= i < |cs| && cs[i].name == name;
        assert cs[1..][i - 1].name == name;
      }
    }
  }

  /** The problem coordinates of a model with distinct coordinate names
      also have distinct names. */
  lemma {:induction false} ProblemCoordinatesDistinct(cs: seq<Coordinate>)
    requires DistinctNames(cs)
    ensures DistinctNames(ProblemCoordinates(cs))
  {
    if |cs| > 0 {
      ProblemCoordinatesDistinct(cs[1..]);
      var rest := ProblemCoordinates(cs[1..]);
      if IsProblemCoordinate(cs[0]) {
        var r := [cs[0]] + rest;
        forall i, j | 0 <= i < j < |r| ensures r[i].name != r[j].name {
          if i == 0 {
            assert r[j] in rest;
            var k :| 0 <= k < |cs[1..]| && cs[1..][k] == r[j];
            assert cs[k + 1] == r[j];
          }
        }
      }
    }
  }

  /** Multiplies, once per coordinate in `cs`, the column labelled with that
      coordinate's name; coordinates without a column are skipped. */
  function ConvertColumns(columns: map<string, Column>, cs: seq<Coordinate>): (r: map<string, Column>)
    ensures r.Keys == columns.Keys
    ensures forall k :: k in columns ==>
      r[k].values == columns[k].values && r[k].conversions == columns[k].conversions + NameCount(cs, k)
  {
    if |cs| == 0 then columns
    else
      var name := cs[0].name;
      var once :=
        if name in columns
        then columns[name := columns[name].(conversions := columns[name].conversions + 1)]
        else columns;
      ConvertColumns(once, cs[1..])
  }

  /** The text of the up-to-date message before and after the model name. */
  const UpToDateBefore: string :=
    "updateKinematicsStorageForUpdatedModel has no updates to make because the model '"
  const UpToDateAfter: string :=
    "'is up-to-date.\nIf input motion files were generated with this model version, "
    + "nothing further must be done. Otherwise, provide the original model "
    + "file used to generate the motion files and try again."

  /** The message thrown when the model is already a 4.0 model. */
  function UpToDateMessage(modelName: string): (msg: string)
    ensures Contains(msg, modelName)
  {
    ContainsInfix(UpToDateBefore, modelName, UpToDateAfter);
    UpToDateBefore + modelName + UpToDateAfter
  }

  /** `updatePre40KinematicsStorageFor40MotionType(pre40Model, kinematics)`:
      `Success(None)` means no update is needed. The source's bare `return;`
      on kinematics not in degrees is ill-formed C++ for a function returning
      a `std::unique_ptr`; its evident intent, no update, is modelled. */
  function UpdateStorage(pre40Model: Model, kinematics: Storage): (r: Result<Option<Storage>, Exception>)
    ensures !kinematics.inDegrees ==> r == Success(None)
    ensures kinematics.inDegrees && pre40Model.documentFileVersion >= FirstVersion40 ==>
      r == Failure(OpenSimException(UpToDateMessage(pre40Model.name)))
    ensures r.Failure? ==> r.error.OpenSimException? && Contains(r.error.message, pre40Model.name)
    ensures r == Success(None) <==>
      !kinematics.inDegrees
      || (pre40Model.documentFileVersion < FirstVersion40 && ProblemCoordinates(pre40Model.coordinates) == [])
    ensures r.Success? && r.value.Some? ==>
      var updated := r.value.value;
      var problem := ProblemCoordinates(pre40Model.coordinates);
      && updated.name == kinematics.name
      && updated.inDegrees == kinematics.inDegrees
      && updated.columns.Keys == kinematics.columns.Keys
      && forall k :: k in kinematics.columns ==>
           updated.columns[k].values == kinematics.columns[k].values
           && updated.columns[k].conversions == kinematics.columns[k].conversions + NameCount(problem, k)
  {
    if !kinematics.inDegrees then Success(None)
    else if pre40Model.documentFileVersion >= FirstVersion40 then
      Failure(OpenSimException(UpToDateMessage(pre40Model.name)))
    else
      var problem := ProblemCoordinates(pre40Model.coordinates);
      if problem == [] then Success(None)
      else
        var converted := ConvertColumns(kinematics.columns, problem);
        Success(Some(Storage(kinematics.name, kinematics.inDegrees, converted)))
  }

  /** The upgrade changes exactly the columns named by a problem coordinate;
      with distinct coordinate names, each such column is converted once. */
  lemma UpdateConvertsExactlyProblemColumns(pre40Model: Model, kinematics: Storage, k: string)
    requires UpdateStorage(pre40Model, kinematics).Success?
    requires UpdateStorage(pre40Model, kinematics).value.Some?
    requires k in kinematics.columns
    ensures var updated := UpdateStorage(pre40Model, kinematics).value.value;
      var problem := ProblemCoordinates(pre40Model.coordinates);
      && (updated.columns[k] != kinematics.columns[k] <==> HasName(problem, k))
      && (DistinctNames(pre40Model.coordinates) && HasName(problem, k) ==>
            updated.columns[k].conversions == kinematics.columns[k].conversions + 1)
  {
    var problem := ProblemCoordinates(pre40Model.coordinates);
    NameCountOccurs(problem, k);
    if DistinctNames(pre40Model.coordinates) {
      ProblemCoordinatesDistinct(pre40Model.coordinates);
    }
  }

  // ---------------------------------------------------------------------
  // Output path

  /** `s.rfind(ch)`: the index of the last `ch` in `s`, if any. */
  function LastIndexOf(s: string, ch: char): (r: Option<nat>)
    ensures r.None? <==> ch !in s
    ensures r.Some? ==>
      r.value < |s| && s[r.value] == ch
      && forall j :: r.value < j < |s| ==> s[j] != ch
  {
    if |s| == 0 then None
    else if s[|s| - 1] == ch then Some(|s| - 1)
    else
      assert forall j :: 0 <= j < |s| - 1 ==> s[..|s| - 1][j] == s[j];
      LastIndexOf(s[..|s| - 1], ch)
  }

  /** The path an upgraded motion is written to: `suffix` inserted before
      the last `.` of `filePath`, or `filePath` itself when `suffix` is empty.
      Without a `.`, `substr(npos)` throws. */
  function OutputPath(filePath: string, suffix: string): (r: Result<string, Exception>)
    ensures |suffix| == 0 ==> r == Success(filePath)
    ensures |suffix| > 0 && '.' !in filePath ==> r == Failure(SubstrOutOfRange)
    ensures |suffix| > 0 && '.' in filePath ==>
      r.Success? && |r.value| == |filePath| + |suffix|
      && var i := LastIndexOf(filePath, '.').value;
         r.value[..i] == filePath[..i]
         && r.value[i..i + |suffix|] == suffix
         && r.value[i + |suffix|..] == filePath[i..]
  {
    if |suffix| == 0 then Success(filePath)
    else match LastIndexOf(filePath, '.')
      case None => Failure(SubstrOutOfRange)
      case Some(back) =>
        var out := filePath[..back] + suffix + filePath[back..];
        assert out[..back] == filePath[..back];
        assert out[back..back + |suffix|] == suffix;
        assert out[back + |suffix|..] == filePath[back..];
        Success(out)
  }

  /** Removing the inserted suffix gives back the original path. */
  lemma OutputPathInverse(filePath: string, suffix: string)
    requires |suffix| > 0 && '.' in filePath
    ensures var out := OutputPath(filePath, suffix).value;
      var i := LastIndexOf(filePath, '.').value;
      out[..i] + out[i + |suffix|..] == filePath
  {
    var out := OutputPath(filePath, suffix).value;
    var i := LastIndexOf(filePath, '.').value;
    assert out[..i] == filePath[..i] && out[i + |suffix|..] == filePath[i..];
    assert filePath == filePath[..i] + filePath[i..];
  }

  /** The last `.` of the input, shifted right by the suffix's length, is
      the last `.` of the output path. */
  lemma OutputPathKeepsExtension(filePath: string, suffix: string, i: nat)
    requires |suffix| > 0
    requires LastIndexOf(filePath, '.') == Some(i)
    ensures LastIndexOf(OutputPath(filePath, suffix).value, '.') == Some(i + |suffix|)
  {
    var tail := filePath[i..];
    assert OutputPath(filePath, suffix) == Success(filePath[..i] + suffix + tail);
    AfterLastDot(filePath, i, tail);
    InsertedKeepsLastDot(filePath[..i], suffix, tail);
  }

  /** Text inserted before a tail that starts with the only `.` of the
      tail leaves that `.` the last one. */
  lemma InsertedKeepsLastDot(pre: string, suffix: string, tail: string)
    requires |tail| > 0 && tail[0] == '.'
    requires forall j :: 0 < j < |tail| ==> tail[j] != '.'
    ensures LastIndexOf(pre + suffix + tail, '.') == Some(|pre| + |suffix|)
  {
    var out := pre + suffix + tail;
    var k := |pre| + |suffix|;
    forall j | k < j < |out| ensures out[j] != '.' {
      assert out[j] == tail[j - k];
    }
    LastIndexOfUnique(out, '.', k);
  }

  /** The tail starting at the last `.` has its `.` first and nowhere else. */
  lemma AfterLastDot(filePath: string, i: nat, tail: string)
    requires LastIndexOf(filePath, '.') == Some(i)
    requires tail == filePath[i..]
    ensures |tail| > 0 && tail[0] == '.'
    ensures forall j :: 0 < j < |tail| ==> tail[j] != '.'
  {
    forall j | 0 < j < |tail| ensures tail[j] != '.' {
      assert tail[j] == filePath[i + j];
    }
  }

  /** A `ch` with no `ch` after it is the one `LastIndexOf` finds. */
  lemma LastIndexOfUnique(s: string, ch: char, k: nat)
    requires k < |s| && s[k] == ch
    requires forall j :: k < j < |s| ==> s[j] != ch
    ensures LastIndexOf(s, ch) == Some(k)
  {
    var r := LastIndexOf(s, ch);
    assert ch in s;
    if r.value < k {
      assert false;
    }
  }

  // ---------------------------------------------------------------------
  // Upgrading files

  /** A converted motion and the path it is printed to. */
  datatype Write = Write(path: string, storage: Storage)

  /** The files written, in order, and the exception that ended the loop, if any. */
  datatype Run = Run(writes: seq<Write>, error: Option<Exception>)

  /** The file at `filePath` gets an upgraded copy. */
  predicate NeedsUpdate(model: Model, filePath: string, load: string -> Storage) {
    var u := UpdateStorage(model, load(filePath));
    u.Success? && u.value.Some?
  }

  /** The file at `filePath` is processed without an exception. */
  predicate Processes(model: Model, filePath: string, suffix: string, load: string -> Storage) {
    UpdateStorage(model, load(filePath)).Success?
    && (NeedsUpdate(model, filePath, load) ==> OutputPath(filePath, suffix).Success?)
  }

  /** Number of files in `filePaths` that get an upgraded copy. */
  function UpdateCount(model: Model, filePaths: seq<string>, load: string -> Storage): nat {
    if |filePaths| == 0 then 0
    else (if NeedsUpdate(model, filePaths[0], load) then 1 else 0) + UpdateCount(model, filePaths[1..], load)
  }

  /** The write of a file that needs an update and whose output path can be formed. */
  function WriteFor(model: Model, filePath: string, suffix: string, load: string -> Storage): Write
    requires NeedsUpdate(model, filePath, load) && OutputPath(filePath, suffix).Success?
  {
    Write(OutputPath(filePath, suffix).value, UpdateStorage(model, load(filePath)).value.value)
  }

  /** The exception processing a file raises. */
  function FileError(model: Model, filePath: string, suffix: string, load: string -> Storage): Exception
    requires !Processes(model, filePath, suffix, load)
  {
    var u := UpdateStorage(model, load(filePath));
    if u.Failure? then u.error else OutputPath(filePath, suffix).error
  }

  /** One pass of the loop body: the file is written if it needs an update,
      skipped if not, or its exception ends the loop. */
  function FileStep(model: Model, filePath: string, suffix: string, load: string -> Storage): (r: Run)
    ensures Processes(model, filePath, suffix, load) && NeedsUpdate(model, filePath, load) ==>
      r == Run([WriteFor(model, filePath, suffix, load)], None)
    ensures Processes(model, filePath, suffix, load) && !NeedsUpdate(model, filePath, load) ==>
      r == Run([], None)
    ensures !Processes(model, filePath, suffix, load) ==>
      r == Run([], Some(FileError(model, filePath, suffix, load)))
    ensures r.error.None? <==> Processes(model, filePath, suffix, load)
    ensures r.error.Some? ==> r.writes == []
    ensures |r.writes| <= 1
  {
    match UpdateStorage(model, load(filePath))
    case Failure(e) => Run([], Some(e))
    case Success(None) => Run([], None)
    case Success(Some(updated)) =>
      match OutputPath(filePath, suffix)
      case Failure(e) => Run([], Some(e))
      case Success(outFilePath) => Run([Write(outFilePath, updated)], None)
  }

  /** The loop body as a function of the file path. */
  function Pass(model: Model, suffix: string, load: string -> Storage): string -> Run {
    filePath => FileStep(model, filePath, suffix, load)
  }

  /** Total number of writes the passes over `filePaths` make. */
  function WriteCount(filePaths: seq<string>, pass: string -> Run): nat {
    if |filePaths| == 0 then 0
    else |pass(filePaths[0]).writes| + WriteCount(filePaths[1..], pass)
  }

  /** The loop over the files: each pass contributes its writes, in list
      order, and the first pass that raises an exception stops the loop. */
  function Loop(filePaths: seq<string>, pass: string -> Run): Run
    decreases |filePaths|
  {
    if |filePaths| == 0 then Run([], None)
    else
      var first := pass(filePaths[0]);
      if first.error.Some? then first
      else
        var rest := Loop(filePaths[1..], pass);
        Run(first.writes + rest.writes, rest.error)
  }

  /** Every write of the loop is a write of some file's pass. */
  lemma {:induction false} LoopWritesFromPasses(filePaths: seq<string>, pass: string -> Run)
    ensures forall w :: w in Loop(filePaths, pass).writes ==>
      exists p :: p in filePaths && w in pass(p).writes
    decreases |filePaths|
  {
    if |filePaths| > 0 && pass(filePaths[0]).error.None? {
      LoopWritesFromPasses(filePaths[1..], pass);
      assert forall p :: p in filePaths[1..] ==> p in filePaths;
      assert filePaths[0] in filePaths;
    }
  }

  /** The loop raises nothing iff no pass does, and then it makes every
      pass's writes. */
  lemma {:induction false} LoopErrorFree(filePaths: seq<string>, pass: string -> Run)
    ensures Loop(filePaths, pass).error.None? <==>
      forall j :: 0 <= j < |filePaths| ==> pass(filePaths[j]).error.None?
    ensures Loop(filePaths, pass).error.None? ==> |Loop(filePaths, pass).writes| == WriteCount(filePaths, pass)
    decreases |filePaths|
  {
    if |filePaths| > 0 {
      LoopErrorFree(filePaths[1..], pass);
      assert forall j :: 0 < j < |filePaths| ==> filePaths[j] == filePaths[1..][j - 1];
    }
  }

  /** After a prefix that raises nothing, the loop continues with the rest,
      and the writes of the rest follow the prefix's writes. */
  lemma {:induction false} LoopAppend(a: seq<string>, b: seq<string>, pass: string -> Run)
    requires Loop(a, pass).error.None?
    ensures Loop(a + b, pass) == Run(Loop(a, pass).writes + Loop(b, pass).writes, Loop(b, pass).error)
    decreases |a|
  {
    if |a| == 0 {
      assert a + b == b;
    } else {
      assert (a + b)[0] == a[0];
      assert (a + b)[1..] == a[1..] + b;
      LoopAppend(a[1..], b, pass);
      assert pass(a[0]).writes + Loop(a[1..], pass).writes + Loop(b, pass).writes
        == pass(a[0]).writes + (Loop(a[1..], pass).writes + Loop(b, pass).writes);
    }
  }

  /** When the loop raises nothing, every write of every pass is made. */
  lemma {:induction false} LoopComplete(filePaths: seq<string>, pass: string -> Run, filePath: string, w: Write)
    requires filePath in filePaths && w in pass(filePath).writes
    requires Loop(filePaths, pass).error.None?
    ensures w in Loop(filePaths, pass).writes
    decreases |filePaths|
  {
    if filePaths[0] != filePath {
      assert filePath in filePaths[1..];
      LoopComplete(filePaths[1..], pass, filePath, w);
    }
  }

  /** The index of the first file whose pass raises an exception, or the
      number of files when none does. */
  function FirstFailureIndex(filePaths: seq<string>, pass: string -> Run): (k: nat)
    ensures k <= |filePaths|
    ensures forall j :: 0 <= j < k ==> pass(filePaths[j]).error.None?
    ensures k < |filePaths| ==> pass(filePaths[k]).error.Some?
    decreases |filePaths|
  {
    if |filePaths| == 0 then 0
    else if pass(filePaths[0]).error.Some? then 0
    else
      var k := 1 + FirstFailureIndex(filePaths[1..], pass);
      assert forall j :: 0 < j < k ==> filePaths[j] == filePaths[1..][j - 1];
      k
  }

  /** An exception stops the loop at the first failing pass: the loop ends
      with what that pass made after the writes of the files before it. */
  lemma {:induction false} LoopStopsAtFirstFailure(filePaths: seq<string>, pass: string -> Run)
    requires Loop(filePaths, pass).error.Some?
    ensures var k := FirstFailureIndex(filePaths, pass);
      && k < |filePaths|
      && Loop(filePaths, pass) ==
           Run(Loop(filePaths[..k], pass).writes + pass(filePaths[k]).writes, pass(filePaths[k]).error)
    decreases |filePaths|
  {
    var first := pass(filePaths[0]);
    if first.error.Some? {
      assert filePaths[..0] == [];
      assert [] + first.writes == first.writes;
    } else {
      var rest := filePaths[1..];
      LoopStopsAtFirstFailure(rest, pass);
      var k' := FirstFailureIndex(rest, pass);
      assert filePaths[..k' + 1][1..] == rest[..k'];
      assert rest[k'] == filePaths[k' + 1];
      assert first.writes + (Loop(rest[..k'], pass).writes + pass(rest[k']).writes)
        == first.writes + Loop(rest[..k'], pass).writes + pass(rest[k']).writes;
    }
  }

  /** When a failing pass writes nothing, the loop's writes on failure are
      those of the files before the first failing one. */
  lemma {:induction false} LoopWritesBeforeFailure(filePaths: seq<string>, pass: string -> Run)
    requires Loop(filePaths, pass).error.Some?
    requires forall p :: pass(p).error.Some? ==> pass(p).writes == []
    ensures var k := FirstFailureIndex(filePaths, pass);
      k < |filePaths| && Loop(filePaths, pass).writes == Loop(filePaths[..k], pass).writes
    decreases |filePaths|
  {
    if pass(filePaths[0]).error.Some? {
      assert filePaths[..0] == [];
    } else {
      var rest := filePaths[1..];
      LoopWritesBeforeFailure(rest, pass);
      var k' := FirstFailureIndex(rest, pass);
      assert filePaths[..k' + 1][1..] == rest[..k'];
    }
  }

  /** When every pass writes at most one file, so does the loop per file. */
  lemma {:induction false} LoopWritesBound(filePaths: seq<string>, pass: string -> Run)
    requires forall p :: |pass(p).writes| <= 1
    ensures |Loop(filePaths, pass).writes| <= |filePaths|
    decreases |filePaths|
  {
    if |filePaths| > 0 {
      LoopWritesBound(filePaths[1..], pass);
      assert |pass(filePaths[0]).writes| <= 1;
    }
  }

  /** Each pass of the upgrade writes one file exactly when that file needs
      an update and is processed cleanly. */
  lemma {:induction false} WriteCountIsUpdateCount(model: Model, filePaths: seq<string>, suffix: string, load: string -> Storage)
    requires forall p :: p in filePaths ==> Processes(model, p, suffix, load)
    ensures WriteCount(filePaths, Pass(model, suffix, load)) == UpdateCount(model, filePaths, load)
    decreases |filePaths|
  {
    if |filePaths| > 0 {
      assert filePaths[0] in filePaths;
      assert forall p :: p in filePaths[1..] ==> p in filePaths;
      WriteCountIsUpdateCount(model, filePaths[1..], suffix, load);
    }
  }

  /** `w` is the upgraded copy of the file at `filePath`, at its rewritten path. */
  predicate WrittenFrom(model: Model, filePath: string, suffix: string, load: string -> Storage, w: Write) {
    UpdateStorage(model, load(filePath)) == Success(Some(w.storage))
    && OutputPath(filePath, suffix) == Success(w.path)
  }

  /** `updatePre40KinematicsFilesFor40MotionType(model, filePaths, suffix)`:
      `load` stands for reading a `Storage` from a file. Files needing no
      update are skipped; the others are written under the rewritten path;
      the first exception stops the loop after the writes already made. */
  function UpdateFiles(model: Model, filePaths: seq<string>, suffix: string, load: string -> Storage): (r: Run)
    ensures forall w :: w in r.writes ==> exists p :: p in filePaths && WrittenFrom(model, p, suffix, load, w)
    ensures r.error.None? <==> forall p :: p in filePaths ==> Processes(model, p, suffix, load)
    ensures r.error.None? ==> |r.writes| == UpdateCount(model, filePaths, load)
  {
    var pass := Pass(model, suffix, load);
    var r := Loop(filePaths, pass);
    LoopWritesFromPasses(filePaths, pass);
    LoopErrorFree(filePaths, pass);
    assert forall p :: pass(p).error.None? <==> Processes(model, p, suffix, load);
    assert (forall p :: p in filePaths ==> Processes(model, p, suffix, load)) <==>
      (forall j :: 0 <= j < |filePaths| ==> pass(filePaths[j]).error.None?);
    if r.error.None? then
      WriteCountIsUpdateCount(model, filePaths, suffix, load);
      r
    else r
  }

  /** Each file is written at most once, whether or not the loop fails. */
  lemma UpdateFilesWritesBound(model: Model, filePaths: seq<string>, suffix: string, load: string -> Storage)
    ensures |UpdateFiles(model, filePaths, suffix, load).writes| <= |filePaths|
  {
    var pass := Pass(model, suffix, load);
    forall p ensures |pass(p).writes| <= 1 {
      assert pass(p) == FileStep(model, p, suffix, load);
    }
    LoopWritesBound(filePaths, pass);
  }

  /** Files are handled in list order: after a prefix that raises nothing,
      the writes of the rest follow the prefix's writes. */
  lemma UpdateFilesAppend(model: Model, a: seq<string>, b: seq<string>, suffix: string, load: string -> Storage)
    requires UpdateFiles(model, a, suffix, load).error.None?
    ensures UpdateFiles(model, a + b, suffix, load) ==
      Run(UpdateFiles(model, a, suffix, load).writes + UpdateFiles(model, b, suffix, load).writes,
          UpdateFiles(model, b, suffix, load).error)
  {
    LoopAppend(a, b, Pass(model, suffix, load));
  }

  /** Every listed file that needs an update is written at its rewritten
      path, when the loop raises nothing. */
  lemma UpdateFilesComplete(model: Model, filePaths: seq<string>, suffix: string, load: string -> Storage, filePath: string)
    requires filePath in filePaths
    requires UpdateFiles(model, filePaths, suffix, load).error.None?
    requires NeedsUpdate(model, filePath, load)
    ensures OutputPath(filePath, suffix).Success?
    ensures WriteFor(model, filePath, suffix, load) in UpdateFiles(model, filePaths, suffix, load).writes
  {
    assert Processes(model, filePath, suffix, load);
    var pass := Pass(model, suffix, load);
    assert pass(filePath).writes == [WriteFor(model, filePath, suffix, load)];
    LoopComplete(filePaths, pass, filePath, WriteFor(model, filePath, suffix, load));
  }

  /** `FileStep` over the files stops at the first file not processed
      cleanly, with that file's exception. */
  lemma FileLoopFailsAtFirstFailure(model: Model, filePaths: seq<string>, suffix: string, load: string -> Storage)
    requires Loop(filePaths, Pass(model, suffix, load)).error.Some?
    ensures var k := FirstFailureIndex(filePaths, Pass(model, suffix, load));
      && k < |filePaths|
      && (forall j :: 0 <= j < k ==> Processes(model, filePaths[j], suffix, load))
      && !Processes(model, filePaths[k], suffix, load)
      && Loop(filePaths, Pass(model, suffix, load)).error == Some(FileError(model, filePaths[k], suffix, load))
  {
    var pass := Pass(model, suffix, load);
    LoopStopsAtFirstFailure(filePaths, pass);
    var k := FirstFailureIndex(filePaths, pass);
    forall j | 0 <= j < k ensures Processes(model, filePaths[j], suffix, load) {
      assert pass(filePaths[j]).error.None?;
    }
    assert pass(filePaths[k]) == FileStep(model, filePaths[k], suffix, load);
  }

  /** `FileStep` over the files, on failure, writes what it writes for the
      files before the first failing one. */
  lemma FileLoopWritesBeforeFailure(model: Model, filePaths: seq<string>, suffix: string, load: string -> Storage)
    requires Loop(filePaths, Pass(model, suffix, load)).error.Some?
    ensures var k := FirstFailureIndex(filePaths, Pass(model, suffix, load));
      && k < |filePaths|
      && Loop(filePaths, Pass(model, suffix, load)).writes == Loop(filePaths[..k], Pass(model, suffix, load)).writes
  {
    var pass := Pass(model, suffix, load);
    forall p | pass(p).error.Some? ensures pass(p).writes == [] {
      assert pass(p) == FileStep(model, p, suffix, load);
    }
    LoopWritesBeforeFailure(filePaths, pass);
  }

  /** An exception ends the loop at the first file not processed cleanly,
      and the loop ends with that file's exception. */
  lemma UpdateFilesFailsAtFirstFailure(model: Model, filePaths: seq<string>, suffix: string, load: string -> Storage)
    requires UpdateFiles(model, filePaths, suffix, load).error.Some?
    ensures var k := FirstFailureIndex(filePaths, Pass(model, suffix, load));
      && k < |filePaths|
      && (forall j :: 0 <= j < k ==> Processes(model, filePaths[j], suffix, load))
      && !Processes(model, filePaths[k], suffix, load)
      && UpdateFiles(model, filePaths, suffix, load).error == Some(FileError(model, filePaths[k], suffix, load))
  {
    FileLoopFailsAtFirstFailure(model, filePaths, suffix, load);
  }

  /** When an exception ends the loop, the files written are exactly those
      the loop writes for the files before the first failing one. */
  lemma UpdateFilesWritesBeforeFailure(model: Model, filePaths: seq<string>, suffix: string, load: string -> Storage)
    requires UpdateFiles(model, filePaths, suffix, load).error.Some?
    ensures var k := FirstFailureIndex(filePaths, Pass(model, suffix, load));
      && k < |filePaths|
      && UpdateFiles(model, filePaths, suffix, load).writes == UpdateFiles(model, filePaths[..k], suffix, load).writes
  {
    FileLoopWritesBeforeFailure(model, filePaths, suffix, load);
  }

  /** The suffix used when a caller gives none. */
  const DefaultSuffix: string := "_updated"

  /** `updatePre40KinematicsFilesFor40MotionType(model, filePaths)` with the
      default suffix: each upgraded copy is written with `_updated` inserted
      before the last `.` of the whole path, which may lie in a directory
      name rather than in the file name. */
  function UpdateFilesDefault(model: Model, filePaths: seq<string>, load: string -> Storage): (r: Run)
    ensures r == UpdateFiles(model, filePaths, DefaultSuffix, load)
    ensures forall w :: w in r.writes ==>
      exists p :: (
        && p in filePaths && '.' in p && |w.path| == |p| + |DefaultSuffix|
        && var i := LastIndexOf(p, '.').value;
           w.path == p[..i] + DefaultSuffix + p[i..])
  {
    var r := UpdateFiles(model, filePaths, DefaultSuffix, load);
    forall w | w in r.writes
      ensures exists p :: (
        && p in filePaths && '.' in p && |w.path| == |p| + |DefaultSuffix|
        && var i := LastIndexOf(p, '.').value;
           w.path == p[..i] + DefaultSuffix + p[i..])
    {
      var p :| p in filePaths && WrittenFrom(model, p, DefaultSuffix, load, w);
      assert '.' in p;
    }
    r
  }

  /** The output path once the last `.` of the input is known. */
  lemma OutputPathAt(filePath: string, suffix: string, i: nat)
    requires |suffix| > 0 && LastIndexOf(filePath, '.') == Some(i)
    ensures OutputPath(filePath, suffix) == Success(filePath[..i] + suffix + filePath[i..])
  {
  }

  /** The last `.` is searched for in the whole path, not just the file
      name: when the file name has no `.` but a directory name does, the
      copy goes to another directory. */
  lemma DotInDirectoryMovesOutput()
    ensures OutputPath("runs.v2/trial", DefaultSuffix) == Success("runs_updated.v2/trial")
  {
    var dotted := "runs.v2/trial";
    assert LastIndexOf(dotted, '.') == Some(4) by {
      LastIndexOfUnique(dotted, '.', 4);
    }
    assert dotted[..4] + DefaultSuffix + dotted[4..] == "runs_updated.v2/trial" by {
      assert dotted[..4] == "runs" && dotted[4..] == ".v2/trial";
    }
    OutputPathAt(dotted, DefaultSuffix, 4);
  }

  /** A path whose only `.` starts a relative directory gets the suffix in
      front of that directory. */
  lemma LeadingDotMovesOutput()
    ensures OutputPath("./motion", DefaultSuffix) == Success("_updated./motion")
  {
    var hidden := "./motion";
    assert LastIndexOf(hidden, '.') == Some(0) by {
      LastIndexOfUnique(hidden, '.', 0);
    }
    assert hidden[..0] + DefaultSuffix + hidden[0..] == "_updated./motion" by {
      assert hidden[..0] == "" && hidden[0..] == hidden;
    }
    OutputPathAt(hidden, DefaultSuffix, 0);
  }

  /** With an empty suffix every upgraded file overwrites its original. */
  lemma EmptySuffixOverwrites(model: Model, filePaths: seq<string>, load: string -> Storage)
    ensures forall w :: w in UpdateFiles(model, filePaths, "", load).writes ==> w.path in filePaths
  {
  }

  /** A model already at version 4.0 makes the loop stop at the first file
      in degrees, and nothing at all is written. */
  lemma {:induction false} UpToDateModelWritesNothing(model: Model, filePaths: seq<string>, suffix: string, load: string -> Storage)
    requires model.documentFileVersion >= FirstVersion40
    ensures UpdateFiles(model, filePaths, suffix, load).writes == []
    ensures UpdateFiles(model, filePaths, suffix, load).error.None? <==>
      forall p :: p in filePaths ==> !load(p).inDegrees
  {
    if |filePaths| > 0 {
      UpToDateModelWritesNothing(model, filePaths[1..], suffix, load);
      assert forall p :: p in filePaths <==> p == filePaths[0] || p in filePaths[1..];
    }
  }
}
