/** The configuration side of `MocoOrientationTrackingCost`: its three
    mutually exclusive reference sources, the tracked frame paths and the
    per-frame rotation weights. Reference tables are opaque values; only
    their emptiness matters here. */
module OrientationTracking {
  import opened Results
  import opened Samples

  /** A time-series table: column labels and rows of samples. A
      default-constructed table has neither. */
  datatype Table = Table(labels: seq<string>, rows: seq<seq<Sample>>)

  /** The table a default constructor produces. */
  const EmptyTable: Table := Table([], [])

  /** `MocoWeight`: a name and its weight. */
  datatype Weight = Weight(name: string, weight: real)

  /** `MocoWeightSet`: weights in insertion order. */
  type WeightSet = seq<Weight>

  /** No name appears twice in the set. */
  predicate UniqueNames(ws: WeightSet) {
    forall i, j :: 0 <= i < j < |ws| ==> ws[i].name != ws[j].name
  }

  /** Position of the first weight called `name`, as `Set::get` finds it. */
  function IndexOf(ws: WeightSet, name: string): (r: Option<nat>)
    ensures r.None? <==> forall j :: 0 <= j < |ws| ==> ws[j].name != name
    ensures r.Some? ==>
      r.value < |ws| && ws[r.value].name == name
      && forall j :: 0 <= j < r.value ==> ws[j].name != name
  {
    if |ws| == 0 then None
    else if ws[0].name == name then Some(0)
    else match IndexOf(ws[1..], name)
      case None => None
      case Some(i) => Some(i + 1)
  }

  /** The weight a lookup by name finds, if any. */
  function WeightOf(ws: WeightSet, name: string): Option<real> {
    match IndexOf(ws, name)
    case None => None
    case Some(i) => Some(ws[i].weight)
  }

  /** Inserts a weight for `name`, or replaces the weight of the entry
      already called `name`; never fails. */
  function Upsert(ws: WeightSet, name: string, weight: real): (r: WeightSet)
    ensures IndexOf(ws, name).Some? ==>
      var i := IndexOf(ws, name).value;
      |r| == |ws| && r[i] == Weight(name, weight)
      && forall j :: 0 <= j < |ws| && j != i ==> r[j] == ws[j]
    ensures IndexOf(ws, name).None? ==> r == ws + [Weight(name, weight)]
    ensures WeightOf(r, name) == Some(weight)
    ensures UniqueNames(ws) ==> UniqueNames(r)
  {
    match IndexOf(ws, name)
    case Some(i) =>
      var r := ws[i := Weight(name, weight)];
      assert IndexOf(r, name) == Some(i) by {
        IndexOfFirst(r, name, i);
      }
      r
    case None =>
      var r := ws + [Weight(name, weight)];
      assert IndexOf(r, name) == Some(|ws|) by {
        IndexOfFirst(r, name, |ws|);
      }
      r
  }

  /** A name at `i` that occurs nowhere before `i` is what `IndexOf` finds. */
  lemma IndexOfFirst(ws: WeightSet, name: string, i: nat)
    requires i < |ws| && ws[i].name == name
    requires forall j :: 0 <= j < i ==> ws[j].name != name
    ensures IndexOf(ws, name) == Some(i)
  {
  }

  /** Which constructor of the `MocoCost` base was used; its defaults are
      not part of this model. */
  datatype CostHeader =
    | DefaultHeader
    | Named(name: string)
    | NamedWeighted(name: string, weight: real)

  /** `MocoOrientationTrackingCost`'s properties and reference tables. */
  datatype OrientationTrackingCost = OrientationTrackingCost(
    header: CostHeader,
    referenceFile: string,
    framePaths: seq<string>,
    rotationWeights: WeightSet,
    statesTable: Table,
    rotationTable: Table)

  /** At most one of the three reference sources is set. */
  predicate AtMostOneSource(c: OrientationTrackingCost) {
    var fileSet := c.referenceFile != "";
    var statesSet := c.statesTable != EmptyTable;
    var rotationSet := c.rotationTable != EmptyTable;
    && !(fileSet && statesSet)
    && !(fileSet && rotationSet)
    && !(statesSet && rotationSet)
  }

  /** The invariant every reachable cost keeps. */
  predicate Valid(c: OrientationTrackingCost) {
    AtMostOneSource(c) && UniqueNames(c.rotationWeights)
  }

  /** Any of the three constructors: `constructProperties()` gives an empty
      reference file, no frame paths and an empty weight set. */
  function New(header: CostHeader): (c: OrientationTrackingCost)
    ensures c.header == header
    ensures GetReferenceFile(c) == "" && c.framePaths == [] && c.rotationWeights == []
    ensures c.statesTable == EmptyTable && c.rotationTable == EmptyTable
    ensures Valid(c)
  {
    OrientationTrackingCost(header, "", [], [], EmptyTable, EmptyTable)
  }

  /** `setStatesReferenceFile(filepath)`. */
  function SetStatesReferenceFile(c: OrientationTrackingCost, filepath: string): (r: OrientationTrackingCost)
    ensures GetReferenceFile(r) == filepath
    ensures r.statesTable == EmptyTable && r.rotationTable == EmptyTable
    ensures r == c.(referenceFile := r.referenceFile, statesTable := r.statesTable, rotationTable := r.rotationTable)
    ensures UniqueNames(c.rotationWeights) ==> Valid(r)
  {
    c.(statesTable := EmptyTable, rotationTable := EmptyTable, referenceFile := filepath)
  }

  /** `setStatesReference(ref)`. */
  function SetStatesReference(c: OrientationTrackingCost, ref: Table): (r: OrientationTrackingCost)
    ensures r.statesTable == ref
    ensures GetReferenceFile(r) == "" && r.rotationTable == EmptyTable
    ensures r == c.(referenceFile := r.referenceFile, statesTable := r.statesTable, rotationTable := r.rotationTable)
    ensures UniqueNames(c.rotationWeights) ==> Valid(r)
  {
    c.(referenceFile := "", rotationTable := EmptyTable, statesTable := ref)
  }

  /** `setRotationReference(ref)`. */
  function SetRotationReference(c: OrientationTrackingCost, ref: Table): (r: OrientationTrackingCost)
    ensures r.rotationTable == ref
    ensures GetReferenceFile(r) == "" && r.statesTable == EmptyTable
    ensures r == c.(referenceFile := r.referenceFile, statesTable := r.statesTable, rotationTable := r.rotationTable)
    ensures UniqueNames(c.rotationWeights) ==> Valid(r)
  {
    c.(statesTable := EmptyTable, referenceFile := "", rotationTable := ref)
  }

  /** `setFramePaths(paths)`: clears the list, then appends each path. */
  function SetFramePaths(c: OrientationTrackingCost, paths: seq<string>): (r: OrientationTrackingCost)
    ensures r.framePaths == paths
    ensures r == c.(framePaths := r.framePaths)
  {
    AppendFramePaths(c.(framePaths := []), paths)
  }

  /** Appends `paths` one at a time, in order, to the frame-path list. */
  function AppendFramePaths(c: OrientationTrackingCost, paths: seq<string>): (r: OrientationTrackingCost)
    ensures r.framePaths == c.framePaths + paths
    ensures r == c.(framePaths := r.framePaths)
    decreases |paths|
  {
    if |paths| == 0 then c
    else
      var r := AppendFramePaths(c.(framePaths := c.framePaths + [paths[0]]), paths[1..]);
      assert c.framePaths + [paths[0]] + paths[1..] == c.framePaths + paths;
      r
  }

  /** `setWeight(frameName, weight)`: an upsert into the weight set. */
  function SetWeight(c: OrientationTrackingCost, frameName: string, weight: real): (r: OrientationTrackingCost)
    ensures WeightOf(r.rotationWeights, frameName) == Some(weight)
    ensures IndexOf(c.rotationWeights, frameName).Some? ==> |r.rotationWeights| == |c.rotationWeights|
    ensures IndexOf(c.rotationWeights, frameName).None? ==> |r.rotationWeights| == |c.rotationWeights| + 1
    ensures IndexOf(c.rotationWeights, frameName).Some? ==>
      var i := IndexOf(c.rotationWeights, frameName).value;
      r.rotationWeights[i] == Weight(frameName, weight)
      && forall j :: 0 <= j < |c.rotationWeights| && j != i ==> r.rotationWeights[j] == c.rotationWeights[j]
    ensures IndexOf(c.rotationWeights, frameName).None? ==>
      r.rotationWeights == c.rotationWeights + [Weight(frameName, weight)]
    ensures r == c.(rotationWeights := r.rotationWeights)
    ensures Valid(c) ==> Valid(r)
  {
    c.(rotationWeights := Upsert(c.rotationWeights, frameName, weight))
  }

  /** `setWeightSet(weightSet)`: replaces the whole weight set. */
  function SetWeightSet(c: OrientationTrackingCost, weightSet: WeightSet): (r: OrientationTrackingCost)
    ensures r.rotationWeights == weightSet
    ensures r == c.(rotationWeights := weightSet)
    ensures AtMostOneSource(c) && UniqueNames(weightSet) ==> Valid(r)
  {
    c.(rotationWeights := weightSet)
  }

  /** `getReferenceFile()`: empty unless a file reference was set; in a
      valid cost a non-empty file is the only reference source. */
  function GetReferenceFile(c: OrientationTrackingCost): (r: string)
    ensures r == c.referenceFile
    ensures Valid(c) && r != "" ==> c.statesTable == EmptyTable && c.rotationTable == EmptyTable
  {
    c.referenceFile
  }

  /** A call of one of the public setters. */
  datatype Setter =
    | SetFile(filepath: string)
    | SetStates(states: Table)
    | SetRotations(rotations: Table)
    | SetPaths(paths: seq<string>)
    | SetOneWeight(frameName: string, weight: real)
    | SetWeights(weightSet: WeightSet)

  /** Applies one setter. */
  function Apply(c: OrientationTrackingCost, s: Setter): OrientationTrackingCost {
    match s
    case SetFile(p) => SetStatesReferenceFile(c, p)
    case SetStates(t) => SetStatesReference(c, t)
    case SetRotations(t) => SetRotationReference(c, t)
    case SetPaths(ps) => SetFramePaths(c, ps)
    case SetOneWeight(f, w) => SetWeight(c, f, w)
    case SetWeights(ws) => SetWeightSet(c, ws)
  }

  /** Applies setters in order. */
  function ApplyAll(c: OrientationTrackingCost, ss: seq<Setter>): OrientationTrackingCost
    decreases |ss|
  {
    if |ss| == 0 then c else ApplyAll(Apply(c, ss[0]), ss[1..])
  }

  /** The setter only touches the reference sources. */
  predicate IsReferenceSetter(s: Setter) {
    s.SetFile? || s.SetStates? || s.SetRotations?
  }

  /** Every weight set a setter installs has unique names. */
  predicate InstallsUniqueWeights(ss: seq<Setter>) {
    forall k :: 0 <= k < |ss| && ss[k].SetWeights? ==> UniqueNames(ss[k].weightSet)
  }

  /** The last reference setter in `ss`, if any. */
  function LastReferenceSetter(ss: seq<Setter>): Option<Setter> {
    if |ss| == 0 then None
    else if IsReferenceSetter(ss[|ss| - 1]) then Some(ss[|ss| - 1])
    else LastReferenceSetter(ss[..|ss| - 1])
  }

  /** Applying a sequence split in two is applying each part in turn. */
  lemma {:induction false} ApplyAllAppend(c: OrientationTrackingCost, ss: seq<Setter>, t: seq<Setter>)
    ensures ApplyAll(c, ss + t) == ApplyAll(ApplyAll(c, ss), t)
    decreases |ss|
  {
    if |ss| == 0 {
      assert ss + t == t;
    } else {
      assert (ss + t)[1..] == ss[1..] + t;
      ApplyAllAppend(Apply(c, ss[0]), ss[1..], t);
    }
  }

  /** Starting from a valid cost, any setters (with duplicate-free weight
      sets) keep at most one reference source and unique weight names. */
  lemma {:induction false} SettersPreserveValid(c: OrientationTrackingCost, ss: seq<Setter>)
    requires Valid(c)
    requires InstallsUniqueWeights(ss)
    ensures Valid(ApplyAll(c, ss))
    decreases |ss|
  {
    if |ss| > 0 {
      assert InstallsUniqueWeights(ss[1..]) by {
        forall k | 0 <= k < |ss[1..]| && ss[1..][k].SetWeights?
          ensures UniqueNames(ss[1..][k].weightSet)
        {
          assert ss[1..][k] == ss[k + 1];
        }
      }
      assert ss[0].SetWeights? ==> UniqueNames(ss[0].weightSet);
      SettersPreserveValid(Apply(c, ss[0]), ss[1..]);
    }
  }

  /** The reference sources after a run of setters are decided by the last
      reference setter alone: the file is reported only if that setter was
      the file setter, and nothing is set if there was none. */
  lemma {:induction false} LastReferenceSetterDecides(c: OrientationTrackingCost, ss: seq<Setter>)
    ensures var r := ApplyAll(c, ss);
      match LastReferenceSetter(ss)
      case None =>
        r.referenceFile == c.referenceFile && r.statesTable == c.statesTable && r.rotationTable == c.rotationTable
      case Some(s) =>
        && GetReferenceFile(r) == (if s.SetFile? then s.filepath else "")
        && r.statesTable == (if s.SetStates? then s.states else EmptyTable)
        && r.rotationTable == (if s.SetRotations? then s.rotations else EmptyTable)
    decreases |ss|
  {
    if |ss| > 0 {
      var init := ss[..|ss| - 1];
      var last := ss[|ss| - 1];
      assert ss == init + [last];
      ApplyAllAppend(c, init, [last]);
      LastReferenceSetterDecides(c, init);
      var mid := ApplyAll(c, init);
      assert ApplyAll(mid, [last]) == Apply(mid, last) by {
        assert [last][1..] == [];
      }
    }
  }

  /** Two reference setters in a row: only the second one matters. */
  lemma ReferenceSetterOverrides(c: OrientationTrackingCost, first: Setter, second: Setter)
    requires IsReferenceSetter(first) && IsReferenceSetter(second)
    ensures Apply(Apply(c, first), second) == Apply(c, second)
  {
  }
}
