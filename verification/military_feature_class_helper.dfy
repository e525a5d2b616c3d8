/** The selection rules of MilitaryFeatureClassHelper, with the geodatabase SDK
    abstracted into plain records.

    - A feature dataset's Subsets enumeration is a sequence of Subset records.
    - An opened file geodatabase is a Workspace: the feature classes
      OpenFeatureClass can open, and the datasets OpenFeatureDataset can open.
    - The disk is a map from workspace path to what opening it yields.
    - The helper's own fields (the initialized flag, the current workspace
      location and the cached Workspace handle) are a Helper value that each
      operation takes and hands back. */
module MilitaryFeatureClassHelper {
  import opened Wrappers
  import opened Strings
  import opened FeatureClassPath

  /** One entry of a feature dataset's Subsets: its name, and what the
      `as IFeatureClass` cast yields (None for any other kind of dataset). */
  datatype Subset<F> = Subset(name: string, asFeatureClass: Option<F>)

  /** An opened file geodatabase as the lookups see it. A name missing from
      either map makes the corresponding SDK open call throw. */
  datatype Workspace<F> = Workspace(featureClasses: map<string, F>, datasets: map<string, seq<Subset<F>>>)

  /** For every workspace path that exists and opens without throwing, what
      `OpenFromFile(...) as IFeatureWorkspace` yields (None when the cast fails). */
  type Disk<F> = map<string, Option<Workspace<F>>>

  /** The helper's state: the `initialized` field, the workspace location
      (WorkspacePath combined with WorkspaceName) and the cached `workspace` field. */
  datatype Helper<F> = Helper(initialized: bool, location: string, cached: Option<Workspace<F>>)

  // ---------------------------------------------------------------------------
  // Dataset search
  // ---------------------------------------------------------------------------

  /** A subset the dataset search stops at: the right name, and a feature class. */
  predicate IsMatch<F>(s: Subset<F>, name: string)
  {
    s.name == name && s.asFeatureClass.Some?
  }

  /** The index of the first match at or after `from`. */
  function FirstMatchFrom<F>(subsets: seq<Subset<F>>, name: string, from: nat): (r: Option<nat>)
    requires from <= |subsets|
    ensures r.Some? ==> from <= r.value < |subsets| && IsMatch(subsets[r.value], name)
    ensures r.Some? ==> forall j :: from <= j < r.value ==> !IsMatch(subsets[j], name)
    ensures r.None? ==> forall j :: from <= j < |subsets| ==> !IsMatch(subsets[j], name)
    decreases |subsets| - from
  {
    if from == |subsets| then None
    else if IsMatch(subsets[from], name) then Some(from)
    else FirstMatchFrom(subsets, name, from + 1)
  }

  /** The feature class the dataset search settles on: that of the first
      subset named `name` that is a feature class. */
  function FirstFeatureClassNamed<F>(subsets: seq<Subset<F>>, name: string): (r: Option<F>)
    ensures r.None? <==> forall j :: 0 <= j < |subsets| ==> !IsMatch(subsets[j], name)
    ensures r.Some? ==> exists i :: 0 <= i < |subsets| && IsMatch(subsets[i], name)
                                  && subsets[i].asFeatureClass == r
                                  && forall j :: 0 <= j < i ==> !IsMatch(subsets[j], name)
  {
    match FirstMatchFrom(subsets, name, 0)
    case None => None
    case Some(i) => subsets[i].asFeatureClass
  }

  /** Any subset that matches after only non-matching ones is the one chosen. */
  lemma FirstMatchIsChosen<F>(subsets: seq<Subset<F>>, name: string, i: nat)
    requires i < |subsets| && IsMatch(subsets[i], name)
    requires forall j :: 0 <= j < i ==> !IsMatch(subsets[j], name)
    ensures FirstFeatureClassNamed(subsets, name) == subsets[i].asFeatureClass
  {
    var k := FirstMatchFrom(subsets, name, 0);
    assert k.Some?;
    assert !(k.value < i) && !(i < k.value);
  }

  /** The enumeration loop of GetFeatureClassByName(string, string): walk the
      subsets, skip name matches that are not feature classes, stop at the first
      feature class with the name. */
  method SearchSubsets<F>(subsets: seq<Subset<F>>, name: string) returns (found: Option<F>)
    ensures found == FirstFeatureClassNamed(subsets, name)
    ensures found.Some? <==> exists i :: 0 <= i < |subsets| && IsMatch(subsets[i], name)
  {
    found := None;
    var i := 0;
    while i < |subsets|
      invariant 0 <= i <= |subsets|
      invariant forall j :: 0 <= j < i ==> !IsMatch(subsets[j], name)
    {
      var ds := subsets[i];
      if ds.name == name {
        var featureClass := ds.asFeatureClass;
        if featureClass.Some? {
          found := featureClass;
          FirstMatchIsChosen(subsets, name, i);
          return;
        }
      }
      i := i + 1;
    }
  }

  /** Subsets after the first match are never looked at. */
  lemma {:induction false} LaterSubsetsIgnored<F>(subsets: seq<Subset<F>>, later: seq<Subset<F>>, name: string)
    requires FirstFeatureClassNamed(subsets, name).Some?
    ensures FirstFeatureClassNamed(subsets + later, name) == FirstFeatureClassNamed(subsets, name)
  {
    var i := FirstMatchFrom(subsets, name, 0).value;
    var all := subsets + later;
    forall j | 0 <= j < i
      ensures !IsMatch(all[j], name)
    {
      assert all[j] == subsets[j];
    }
    assert all[i] == subsets[i];
    FirstMatchIsChosen(all, name, i);
  }

  /** A subset with the right name that is not a feature class is skipped. */
  lemma {:induction false} NonFeatureClassSkipped<F>(s: Subset<F>, rest: seq<Subset<F>>, name: string)
    requires s.asFeatureClass.None?
    ensures FirstFeatureClassNamed([s] + rest, name) == FirstFeatureClassNamed(rest, name)
  {
    var all := [s] + rest;
    assert !IsMatch(all[0], name);
    match FirstMatchFrom(rest, name, 0)
    case None =>
      forall j | 0 <= j < |all|
        ensures !IsMatch(all[j], name)
      {
        if j > 0 {
          assert all[j] == rest[j - 1];
        }
      }
    case Some(i) =>
      forall j | 0 <= j < i + 1
        ensures !IsMatch(all[j], name)
      {
        if j > 0 {
          assert all[j] == rest[j - 1];
        }
      }
      assert all[i + 1] == rest[i];
      FirstMatchIsChosen(all, name, i + 1);
  }

  // ---------------------------------------------------------------------------
  // Lookups against an opened workspace
  // ---------------------------------------------------------------------------

  /** The body of the two-argument lookup once a workspace is at hand: the
      dataset name "None" opens a top-level feature class; any other name opens
      that dataset and searches its subsets. */
  function FindInWorkspace<F>(ws: Workspace<F>, datasetName: string, featureClassName: string): (r: Option<F>)
    ensures datasetName == NoDataset ==> (r.Some? <==> featureClassName in ws.featureClasses)
    ensures datasetName == NoDataset && r.Some? ==> r.value == ws.featureClasses[featureClassName]
    ensures datasetName != NoDataset ==>
              (r.Some? <==> datasetName in ws.datasets
                            && exists i :: 0 <= i < |ws.datasets[datasetName]|
                                           && IsMatch(ws.datasets[datasetName][i], featureClassName))
    ensures datasetName != NoDataset && datasetName in ws.datasets ==>
              r == FirstFeatureClassNamed(ws.datasets[datasetName], featureClassName)
  {
    if datasetName == NoDataset then
      if featureClassName in ws.featureClasses then Some(ws.featureClasses[featureClassName]) else None
    else if datasetName !in ws.datasets then None
    else FirstFeatureClassNamed(ws.datasets[datasetName], featureClassName)
  }

  /** The dataset name "None" never reaches a dataset search: the datasets of
      the workspace, whatever they are, do not affect the result. */
  lemma NoneDatasetNeverSearchesDatasets<F>(ws: Workspace<F>, other: map<string, seq<Subset<F>>>, featureClassName: string)
    ensures FindInWorkspace(ws.(datasets := other), NoDataset, featureClassName)
         == FindInWorkspace(ws, NoDataset, featureClassName)
  {
  }

  // ---------------------------------------------------------------------------
  // Helper state: getWorkspace and the Workspace property
  // ---------------------------------------------------------------------------

  /** getWorkspace: open the workspace at the current location. A successful
      open sets `initialized` even when the cast to a feature workspace fails;
      a missing path leaves the state as it was. The cache is not touched. */
  function OpenWorkspace<F>(h: Helper<F>, disk: Disk<F>): (r: (Option<Workspace<F>>, Helper<F>))
    ensures r.1.location == h.location && r.1.cached == h.cached
    ensures r.1.initialized <==> h.initialized || h.location in disk
    ensures r.0.Some? ==> h.location in disk && disk[h.location] == r.0
    ensures h.location in disk ==> r.0 == disk[h.location]
  {
    if h.location in disk then (disk[h.location], h.(initialized := true)) else (None, h)
  }

  /** The Workspace property: the cached handle, or on first use the result of
      getWorkspace, which is then cached. */
  function CurrentWorkspace<F>(h: Helper<F>, disk: Disk<F>): (r: (Option<Workspace<F>>, Helper<F>))
    ensures h.cached.Some? ==> r == (h.cached, h)
    ensures r.1.cached == r.0 && r.1.location == h.location
    ensures r.1.initialized <==> h.initialized || (h.cached.None? && h.location in disk)
    ensures h.cached.None? ==> r.0 == (if h.location in disk then disk[h.location] else None)
  {
    if h.cached.Some? then (h.cached, h)
    else
      var attempt := OpenWorkspace(h, disk);
      (attempt.0, attempt.1.(cached := attempt.0))
  }

  /** The workspace a lookup from state `h` searches: the cached one if any,
      otherwise whatever opening the current location yields. */
  ghost function SearchedWorkspace<F>(h: Helper<F>, disk: Disk<F>): Option<Workspace<F>>
  {
    if h.cached.Some? then h.cached
    else if h.location in disk then disk[h.location]
    else None
  }

  /** GetFeatureClassByName(datasetName, featureClassName). */
  function GetFeatureClassByName<F>(h: Helper<F>, disk: Disk<F>, datasetName: string, featureClassName: string): (r: (Option<F>, Helper<F>))
    ensures !h.initialized ==> r == (None, h)
    ensures r.1.location == h.location && r.1.initialized == h.initialized
    ensures h.cached.Some? ==> r.1 == h
    ensures r.0.Some? ==> h.initialized && SearchedWorkspace(h, disk).Some?
    ensures h.initialized && SearchedWorkspace(h, disk).Some? ==>
              r.0 == FindInWorkspace(SearchedWorkspace(h, disk).value, datasetName, featureClassName)
    ensures h.initialized ==> r.1.cached == SearchedWorkspace(h, disk)
  {
    if !h.initialized then (None, h)
    else
      var current := CurrentWorkspace(h, disk);
      match current.0
      case None => (None, current.1)
      case Some(w) => (FindInWorkspace(w, datasetName, featureClassName), current.1)
  }

  // ---------------------------------------------------------------------------
  // Lookup by fully qualified path
  // ---------------------------------------------------------------------------

  /** GetFeatureClassByName(fullPathToFeatureClassName), as written: the
      workspace of the path becomes the current location and is opened, but the
      handle it yields is dropped; the lookup then goes through the Workspace
      property, which prefers a handle cached earlier. */
  function GetFeatureClassByPath<F>(h: Helper<F>, disk: Disk<F>, path: string): (r: (Option<F>, Helper<F>))
    ensures !Contains(path, GdbSuffix) ==> r == (None, h)
    ensures ParsePath(path).None? ==> r.0.None?
    ensures SplitWorkspace(path).Some? ==> r.1.location == SplitWorkspace(path).value.0
    ensures SplitWorkspace(path).Some? ==>
              r.1.initialized == (h.initialized || SplitWorkspace(path).value.0 in disk)
    ensures ParsePath(path).None? || !r.1.initialized ==> r.1.cached == h.cached
    ensures ParsePath(path).Some? && r.1.initialized ==>
              r.1.cached == SearchedWorkspace(h.(location := ParsePath(path).value.0), disk)
    ensures r.0.Some? ==> r.1.initialized
    ensures ParsePath(path).Some? ==>
              var (workspacePath, t) := ParsePath(path).value;
              var h1 := h.(location := workspacePath);
              (h.initialized || workspacePath in disk) && SearchedWorkspace(h1, disk).Some? ==>
                r.0 == FindInWorkspace(SearchedWorkspace(h1, disk).value, DatasetArgument(t), t.featureClass)
    ensures r.0.Some? ==>
              && ParsePath(path).Some?
              && var (workspacePath, t) := ParsePath(path).value;
              && var h1 := h.(location := workspacePath);
              && SearchedWorkspace(h1, disk).Some?
              && r.0 == FindInWorkspace(SearchedWorkspace(h1, disk).value, DatasetArgument(t), t.featureClass)
  {
    match SplitWorkspace(path)
    case None => (None, h)
    case Some((workspacePath, rest)) =>
      var h2 := OpenWorkspace(h.(location := workspacePath), disk).1;
      if !h2.initialized then (None, h2)
      else
        match TargetOf(rest)
        case None => (None, h2)
        case Some(t) => GetFeatureClassByName(h2, disk, DatasetArgument(t), t.featureClass)
  }

  /** The lookup by path as probably intended: the workspace the path names is
      the one searched, so the answer depends only on that workspace. */
  function GetFeatureClassByPathFixed<F>(h: Helper<F>, disk: Disk<F>, path: string): (r: (Option<F>, Helper<F>))
    ensures !Contains(path, GdbSuffix) ==> r == (None, h)
    ensures r.0.Some? ==> r.1.initialized
    ensures r.0.Some? ==>
              && ParsePath(path).Some?
              && var (workspacePath, t) := ParsePath(path).value;
              && workspacePath in disk && disk[workspacePath].Some?
              && r.0 == FindInWorkspace(disk[workspacePath].value, DatasetArgument(t), t.featureClass)
    ensures ParsePath(path).Some? ==>
              var (workspacePath, t) := ParsePath(path).value;
              workspacePath in disk && disk[workspacePath].Some? ==>
                r.0 == FindInWorkspace(disk[workspacePath].value, DatasetArgument(t), t.featureClass)
  {
    match SplitWorkspace(path)
    case None => (None, h)
    case Some((workspacePath, rest)) =>
      var handle := OpenWorkspace(h.(location := workspacePath), disk).0;
      var h2 := OpenWorkspace(h.(location := workspacePath), disk).1;
      if !h2.initialized then (None, h2)
      else
        match TargetOf(rest)
        case None => (None, h2)
        case Some(t) => GetFeatureClassByName(h2.(cached := handle), disk, DatasetArgument(t), t.featureClass)
  }

  /** A path through a dataset literally named "None" is looked up exactly like
      the top-level path to the same feature class. */
  lemma DatasetNamedNoneIsTopLevel<F>(h: Helper<F>, disk: Disk<F>, stem: string, name: string)
    requires !Contains(stem, GdbSuffix) && ValidName(name)
    ensures GetFeatureClassByPath(h, disk, FormatPath(stem, InDataset(NoDataset, name)))
         == GetFeatureClassByPath(h, disk, FormatPath(stem, TopLevel(name)))
  {
    NoDotNoGdb(NoDataset);
    ParseFormatted(stem, InDataset(NoDataset, name));
    ParseFormatted(stem, TopLevel(name));
  }

  /** The two lookups part ways: a helper that already cached some workspace
      holding `name` is asked for `stem.gdb\name`, and `stem.gdb` exists but has
      no such feature class. The code as written finds `name` in the cached
      workspace; the corrected lookup finds nothing. */
  lemma StaleWorkspaceIsSearched<F>(h: Helper<F>, disk: Disk<F>, stem: string, name: string)
    requires h.initialized && h.cached.Some? && name in h.cached.value.featureClasses
    requires stem + GdbSuffix in disk && disk[stem + GdbSuffix].Some?
    requires name !in disk[stem + GdbSuffix].value.featureClasses
    requires !Contains(stem, GdbSuffix) && ValidName(name)
    ensures GetFeatureClassByPath(h, disk, FormatPath(stem, TopLevel(name))).0
         == Some(h.cached.value.featureClasses[name])
    ensures GetFeatureClassByPathFixed(h, disk, FormatPath(stem, TopLevel(name))).0 == None
  {
    var path := FormatPath(stem, TopLevel(name));
    var workspacePath := stem + GdbSuffix;
    ParseFormatted(stem, TopLevel(name));
    var h2 := h.(location := workspacePath);
    assert OpenWorkspace(h2, disk).1 == h2;
    assert SearchedWorkspace(h2, disk) == h.cached;
  }

  /** The stale handle arises from the lookups themselves: starting with nothing
      cached, a lookup of `stemA.gdb\name` caches workspace A, and a following
      lookup of `stemB.gdb\name` answers from A even though B is named. */
  lemma SecondPathLookupSearchesFirstWorkspace<F>(h: Helper<F>, disk: Disk<F>, stemA: string, stemB: string, name: string)
    requires h.cached.None?
    requires stemA + GdbSuffix in disk && disk[stemA + GdbSuffix].Some?
    requires name in disk[stemA + GdbSuffix].value.featureClasses
    requires !Contains(stemA, GdbSuffix) && !Contains(stemB, GdbSuffix) && ValidName(name)
    ensures var first := GetFeatureClassByPath(h, disk, FormatPath(stemA, TopLevel(name)));
            GetFeatureClassByPath(first.1, disk, FormatPath(stemB, TopLevel(name))).0
              == Some(disk[stemA + GdbSuffix].value.featureClasses[name])
  {
    ParseFormatted(stemA, TopLevel(name));
    ParseFormatted(stemB, TopLevel(name));
  }

  // ---------------------------------------------------------------------------
  // Schema locks
  // ---------------------------------------------------------------------------

  /** What IsFeatureClassLockable is handed: not an object class (null included),
      an object class that does not implement ISchemaLock, or one whose current
      schema locks are enumerated as `currentLocks`. */
  datatype LockSubject<L> =
    | NotObjectClass
    | WithoutSchemaLock
    | SchemaLocked(currentLocks: seq<L>)

  /** IsFeatureClassLockable: count the current schema locks and tolerate one,
      the shared lock this process holds itself. The hard cast to ISchemaLock
      is not guarded by a catch, so a class without it throws. */
  method IsFeatureClassLockable<L>(subject: LockSubject<L>) returns (r: Call<bool>)
    ensures r == Throws <==> subject.WithoutSchemaLock?
    ensures r == Returns(true) <==> subject.SchemaLocked? && |subject.currentLocks| < 2
    ensures r == Returns(false) <==> subject.NotObjectClass? || (subject.SchemaLocked? && |subject.currentLocks| >= 2)
  {
    match subject
    case NotObjectClass =>
      return Returns(false);
    case WithoutSchemaLock =>
      return Throws;
    case SchemaLocked(locks) =>
      var lockCount := 0;
      var pending := locks;
      while pending != []
        invariant lockCount + |pending| == |locks|
      {
        lockCount := lockCount + 1;
        pending := pending[1..];
      }
      return Returns(lockCount < 2);
  }

  // ---------------------------------------------------------------------------
  // Representation classes
  // ---------------------------------------------------------------------------

  /** The representation workspace extension: the representation classes
      OpenRepresentationClass can open, by name. */
  datatype RepresentationExtension<R> = RepresentationExtension(classes: map<string, R>)

  /** GetRepresentationClassForFeatureClass: with no extension, null; otherwise
      open the first name of the feature class's representation names and
      ignore the rest. Opening an unknown name throws, uncaught. */
  function GetRepresentationClassForFeatureClass<R>(extension: Option<RepresentationExtension<R>>, names: seq<string>): (r: Call<Option<R>>)
    ensures extension.None? || names == [] ==> r == Returns(None)
    ensures r == Throws <==> extension.Some? && names != [] && names[0] !in extension.value.classes
    ensures r.Returns? && r.value.Some? ==>
              extension.Some? && names != [] && names[0] in extension.value.classes
              && r.value.value == extension.value.classes[names[0]]
    ensures extension.Some? && names != [] && names[0] in extension.value.classes ==>
              r == Returns(Some(extension.value.classes[names[0]]))
  {
    match extension
    case None => Returns(None)
    case Some(ext) =>
      if names == [] then Returns(None)
      else if names[0] in ext.classes then Returns(Some(ext.classes[names[0]]))
      else Throws
  }

  /** Only the first representation name is ever opened. */
  lemma OnlyFirstRepresentationNameOpened<R>(extension: Option<RepresentationExtension<R>>, names: seq<string>, later: seq<string>)
    requires names != []
    ensures GetRepresentationClassForFeatureClass(extension, names + later)
         == GetRepresentationClassForFeatureClass(extension, names[..1])
  {
    assert (names + later)[0] == names[0] == names[..1][0];
  }
}
