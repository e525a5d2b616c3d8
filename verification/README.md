# MilitaryFeatureClassHelper in Dafny

This project models the logic of the `MilitaryFeatureClassHelper` class of the
AppendMilitaryFeatures tool that does not depend on the geodatabase SDK. The class
opens a file geodatabase (a `.gdb` folder), finds feature classes in it, checks
schema locks and finds representation classes. The model covers:

- **Path decomposition.** `GetFeatureClassByName(string)` takes a fully qualified
  path such as `C:\data\Military.gdb\Units\Friendly`. The text before the first
  `.gdb`, with `.gdb` put back, is the workspace. The piece after it is split on
  backslashes. Fewer than two segments name no feature class. Two segments name a
  top-level feature class, which is looked up under the dataset name `"None"`.
  Three or more segments name segment 1 as the dataset and segment 2 as the feature
  class.
- **Lookup.** `GetFeatureClassByName(dataset, featureClass)` handles the dataset
  name `"None"` by opening a top-level feature class. Any other dataset name opens
  that dataset and takes the first subset that has the requested name and is a
  feature class.
- **Helper state.** The model keeps the `initialized` flag, the current workspace
  location and the cached `Workspace` handle. These fields decide which workspace a
  lookup searches.
- **Schema locks.** `IsFeatureClassLockable` accepts a feature class that has fewer
  than two current schema locks. One lock is allowed because this process holds its
  own shared lock.
- **Representations.** `GetRepresentationClassForFeatureClass` opens only the
  first representation name it enumerates.

Modules:

- `Wrappers` (wrappers.dfy) holds `Option` for values that may be null and `Call`
  for "returned a value or threw an uncaught exception".
- `Strings` (strings.dfy) holds ordinal `Split`/`Join` with the semantics of .NET
  `String.Split` under `StringSplitOptions.None`. It proves that splitting loses
  nothing, that no piece contains the separator, and that splitting on a character
  undoes joining.
- `FeatureClassPath` (feature_class_path.dfy) holds the pure path decomposition
  `ParsePath`, its partner `FormatPath` and the round-trip lemma.
- `MilitaryFeatureClassHelper` (military_feature_class_helper.dfy) holds the dataset
  search, the helper state, both lookups, the lock rule and the representation rule.

SDK calls are parameters of the model:

- A dataset's `Subsets` enumeration is a `seq<Subset<F>>`. Each entry has a name,
  and `asFeatureClass` is the result of the `as IFeatureClass` cast.
- An opened workspace is a `Workspace<F>`. It holds the names `OpenFeatureClass` can
  open and the datasets `OpenFeatureDataset` can open. A name missing from either
  map makes the SDK throw. The lookup catches that and returns null, so both cases
  give `None`.
- The disk is a map from workspace path to what `OpenFromFile` yields.
- Exceptions that the source does not catch are `Call.Throws`. This covers the hard
  cast to `ISchemaLock` and `OpenRepresentationClass` on an unknown name.

## Model

| member | source | states |
|---|---|---|
| Strings.FindFrom | source/AppendMilitaryFeaturesCS/MilitaryFeatureClassHelper.cs:162-166 | the returned index is an occurrence of the separator, and no occurrence lies between the start index and it; None means there is no occurrence from the start index on |
| Strings.IndexOf | source/AppendMilitaryFeaturesCS/MilitaryFeatureClassHelper.cs:162-166 | None exactly when the separator does not occur; otherwise the leftmost occurrence |
| Strings.Split | source/AppendMilitaryFeaturesCS/MilitaryFeatureClassHelper.cs:162-166 | at least one piece; exactly one piece iff the separator does not occur; no piece contains the separator |
| Strings.SplitThenJoin | source/AppendMilitaryFeaturesCS/MilitaryFeatureClassHelper.cs:162-166 | joining the pieces with the separator gives back the input, so Split loses no text |
| Strings.SplitFirstPiece | source/AppendMilitaryFeaturesCS/MilitaryFeatureClassHelper.cs:163 | piece 0 is the prefix of the input up to the leftmost separator, or the whole input when there is none |
| Strings.JoinThenSplitOnChar | source/AppendMilitaryFeaturesCS/MilitaryFeatureClassHelper.cs:174-175 | splitting on one character undoes joining pieces that do not contain it |
| FeatureClassPath.SplitWorkspace | source/AppendMilitaryFeaturesCS/MilitaryFeatureClassHelper.cs:162-166 | None exactly when the path has no ".gdb"; otherwise the workspace ends in ".gdb", is a prefix of the path and ends at the first ".gdb"; the remainder contains no ".gdb" |
| FeatureClassPath.WorkspaceIsTextBeforeFirstGdb | source/AppendMilitaryFeaturesCS/MilitaryFeatureClassHelper.cs:162-166 | for stem + ".gdb" + more with no ".gdb" in stem, the workspace is stem + ".gdb" and the remainder is the first ".gdb"-piece of more |
| FeatureClassPath.RemainderIsWholeTail | source/AppendMilitaryFeaturesCS/MilitaryFeatureClassHelper.cs:166 | with a single ".gdb", the remainder is everything after it |
| FeatureClassPath.RemainderStopsAtSecondGdb | source/AppendMilitaryFeaturesCS/MilitaryFeatureClassHelper.cs:166 | only the text between the first and second ".gdb" becomes the remainder |
| FeatureClassPath.TargetOf | source/AppendMilitaryFeaturesCS/MilitaryFeatureClassHelper.cs:174-195 | no feature class exactly when the remainder has no backslash; the names it returns contain no backslash |
| FeatureClassPath.TargetOfTopLevel | source/AppendMilitaryFeaturesCS/MilitaryFeatureClassHelper.cs:183-188 | two segments give a top-level feature class named by segment 1, whatever segment 0 is |
| FeatureClassPath.TargetOfInDataset | source/AppendMilitaryFeaturesCS/MilitaryFeatureClassHelper.cs:190-195 | three or more segments give dataset segment 1 and feature class segment 2, whatever follows |
| FeatureClassPath.ParsePath | source/AppendMilitaryFeaturesCS/MilitaryFeatureClassHelper.cs:155-196 | a feature class is named exactly when the path has a ".gdb" and the remainder after it holds a backslash; the workspace ends in ".gdb", is a prefix of the path and ends at its first ".gdb"; the feature-class name has no backslash |
| FeatureClassPath.BareWorkspaceNamesNothing | source/AppendMilitaryFeaturesCS/MilitaryFeatureClassHelper.cs:174-182 | a path ending exactly in ".gdb" (empty remainder, one segment) names no feature class |
| FeatureClassPath.ParseFormatted | source/AppendMilitaryFeaturesCS/MilitaryFeatureClassHelper.cs:155-196 | round trip: parsing the formatted path of a workspace and a target with valid names gives them back |
| MilitaryFeatureClassHelper.FirstMatchFrom | source/AppendMilitaryFeaturesCS/MilitaryFeatureClassHelper.cs:236-247 | the returned index is a name match that is a feature class, with none before it; None means no such subset |
| MilitaryFeatureClassHelper.FirstFeatureClassNamed | source/AppendMilitaryFeaturesCS/MilitaryFeatureClassHelper.cs:233-247 | null exactly when no subset is a feature class of that name; otherwise the feature class of the first such subset |
| MilitaryFeatureClassHelper.FirstMatchIsChosen | source/AppendMilitaryFeaturesCS/MilitaryFeatureClassHelper.cs:236-247 | a matching subset preceded only by non-matching ones is the one returned |
| MilitaryFeatureClassHelper.SearchSubsets | source/AppendMilitaryFeaturesCS/MilitaryFeatureClassHelper.cs:233-247 | the enumeration loop with its break returns the first-match feature class, and finds one iff some subset matches |
| MilitaryFeatureClassHelper.LaterSubsetsIgnored | source/AppendMilitaryFeaturesCS/MilitaryFeatureClassHelper.cs:241-245 | once a match is found, appending more subsets does not change the result |
| MilitaryFeatureClassHelper.NonFeatureClassSkipped | source/AppendMilitaryFeaturesCS/MilitaryFeatureClassHelper.cs:238-246 | a subset that is not a feature class is skipped even when its name matches |
| MilitaryFeatureClassHelper.FindInWorkspace | source/AppendMilitaryFeaturesCS/MilitaryFeatureClassHelper.cs:222-248 | dataset "None": the top-level class of that name, or null; any other dataset: null when it does not open, otherwise the first subset search of that dataset |
| MilitaryFeatureClassHelper.NoneDatasetNeverSearchesDatasets | source/AppendMilitaryFeaturesCS/MilitaryFeatureClassHelper.cs:222-225 | with dataset "None" the workspace's datasets never affect the result |
| MilitaryFeatureClassHelper.OpenWorkspace | source/AppendMilitaryFeaturesCS/MilitaryFeatureClassHelper.cs:315-351 | opening sets initialized exactly when the path opens, leaves the location and cache alone, and yields what the path opens to |
| MilitaryFeatureClassHelper.CurrentWorkspace | source/AppendMilitaryFeaturesCS/MilitaryFeatureClassHelper.cs:86-108 | a cached handle is returned with no state change; otherwise what the location opens to (or null) is returned and becomes the cache |
| MilitaryFeatureClassHelper.GetFeatureClassByName | source/AppendMilitaryFeaturesCS/MilitaryFeatureClassHelper.cs:210-256 | null with unchanged state when not initialised; otherwise the answer of FindInWorkspace on the cached or freshly opened workspace, and that workspace (or null) is what the cache holds afterwards |
| MilitaryFeatureClassHelper.GetFeatureClassByPath | source/AppendMilitaryFeaturesCS/MilitaryFeatureClassHelper.cs:155-204 | a path without ".gdb" gives null and leaves the state alone; otherwise the path's workspace becomes the current location, `initialized` becomes true exactly when it was already or the workspace exists, and is never reset; an unparsable path, or a parsed one that leaves the helper uninitialised, leaves the cache alone; after a parsed path with the helper initialised, the cache holds the workspace the lookup searched; an unparsable path gives null; when the path parses, the helper is or becomes initialised and the workspace the state searches (cached first) is there, the answer is FindInWorkspace on it, and every hit is such an answer |
| MilitaryFeatureClassHelper.DatasetNamedNoneIsTopLevel | source/AppendMilitaryFeaturesCS/MilitaryFeatureClassHelper.cs:222-225 | a path through a dataset named "None" behaves exactly like the top-level path to the same class |
| MilitaryFeatureClassHelper.SecondPathLookupSearchesFirstWorkspace | source/AppendMilitaryFeaturesCS/MilitaryFeatureClassHelper.cs:155-256 | starting with nothing cached, after a lookup of `A.gdb\name` that caches workspace A, a lookup of `B.gdb\name` answers with A's class whatever B holds |
| MilitaryFeatureClassHelper.StaleWorkspaceIsSearched | source/AppendMilitaryFeaturesCS/MilitaryFeatureClassHelper.cs:168-169 | with another workspace cached, the lookup as written finds a class the named workspace lacks, while the corrected lookup finds nothing |
| MilitaryFeatureClassHelper.GetFeatureClassByPathFixed | source/AppendMilitaryFeaturesCS/MilitaryFeatureClassHelper.cs:155-204 | corrected lookup: a hit comes from the workspace the path names, and when that workspace opens the answer is FindInWorkspace on it |
| MilitaryFeatureClassHelper.IsFeatureClassLockable | source/AppendMilitaryFeaturesCS/MilitaryFeatureClassHelper.cs:258-284 | true iff the class has fewer than two current schema locks; false for a non-object class or two or more locks; throws iff the ISchemaLock cast fails |
| MilitaryFeatureClassHelper.GetRepresentationClassForFeatureClass | source/AppendMilitaryFeaturesCS/MilitaryFeatureClassHelper.cs:131-150 | null with no extension or no names; the class of the first name when it opens; throws iff the first name does not open |
| MilitaryFeatureClassHelper.OnlyFirstRepresentationNameOpened | source/AppendMilitaryFeaturesCS/MilitaryFeatureClassHelper.cs:141-147 | names after the first never affect the result |

## Left out

- SDK calls have no model of their own. They are the record fields and map lookups
  described above: `OpenFromFile`, `OpenFeatureClass`, `OpenFeatureDataset`,
  `Subsets`, `GetCurrentSchemaLocks`, `get_FeatureClassRepresentationNames`,
  `OpenRepresentationClass`, `FindExtension` with its fixed GUID, and the COM
  `ProgID` activation.
- MilitaryFeatureClassHelper.OpenWorkspace: the two `Directory.Exists` checks and
  `OpenFromFile` are one lookup in the disk map. A path that is missing and a path
  whose open throws both leave the state unchanged.
- The `FullWorkspacePath` setter and getter (`FileInfo`, `Path.Combine`) are treated
  as the identity on the workspace path. The model does not include .NET path
  normalisation or the `ArgumentException` a malformed path raises there, which the
  path lookup would catch and turn into null.
- A null path string is not modelled. Dafny strings are never null, and the source
  would turn the resulting `NullReferenceException` into null.
- MilitaryFeatureClassHelper.GetRepresentationClassForFeatureClass: the extension
  and the enumerated names are parameters. The lazy `RepresentationWorkspaceExtension`
  property and `getRepWorkspaceExtension` are not modelled, including the
  `NullReferenceException` it raises when no workspace opens.
- MilitaryFeatureClassHelper.IsFeatureClassLockable: exceptions raised by the lock
  enumeration itself are not modelled. The `schemaLock == null` test cannot be
  reached after a hard cast, so it has no case.
- `ChangeSchemaLockFeatureClass` is not modelled. Its only logic is "true unless
  the SDK call threw".
- `Trace` and `Console` logging, and the field-name constants (`sic`, `sidc`,
  `ruleid`, ...), are not modelled because no logic here reads them.

## Findings

| source | as written | input that shows it | evidently intended | confidence | as-written member | corrected member |
|---|---|---|---|---|---|---|
| source/AppendMilitaryFeaturesCS/MilitaryFeatureClassHelper.cs:168-169 | The path lookup opens the path's workspace into a local `ws` that is never used. The search then goes through the `Workspace` property, which returns any handle cached earlier. | A helper has already cached a workspace that holds `Roads`. It is asked for `B.gdb\Roads`, and `B.gdb` has no `Roads`. The lookup returns the cached workspace's `Roads`. | Probably to search the workspace the path names, since the opened handle is fetched at :169. The doc comment at :83-84 says the cached `Workspace` is used for all operations and must be set to null to get a new one, so the behaviour may be deliberate. | medium, not executed | MilitaryFeatureClassHelper.GetFeatureClassByPath, MilitaryFeatureClassHelper.StaleWorkspaceIsSearched, MilitaryFeatureClassHelper.SecondPathLookupSearchesFirstWorkspace | MilitaryFeatureClassHelper.GetFeatureClassByPathFixed |
