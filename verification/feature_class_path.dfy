/** Decomposition of a fully qualified feature-class path such as
    `C:\data\Military.gdb\Units\Friendly` into the file-geodatabase
    workspace path and the feature class it names inside it.

    The string work is that of MilitaryFeatureClassHelper.GetFeatureClassByName(string):
    the path is split on ".gdb", the text before the first ".gdb" (with ".gdb"
    put back) is the workspace, the piece after it is split on backslashes, and
    the number of segments decides between "no feature class", a top-level
    feature class and a feature class inside a feature dataset. */
module FeatureClassPath {
  import opened Wrappers
  import opened Strings

  /** The only workspace kind the helper understands: a file geodatabase folder. */
  const GdbSuffix: string := ".gdb"

  /** The separator between the dataset and feature-class parts. */
  const PathSeparator: char := '\\'

  /** The dataset name the two-argument lookup reads as "not inside any dataset". */
  const NoDataset: string := "None"

  /** Which feature class a path names inside its workspace. */
  datatype Target =
    | TopLevel(featureClass: string)
    | InDataset(dataset: string, featureClass: string)

  /** The dataset name the path lookup hands to the two-argument lookup. */
  function DatasetArgument(t: Target): string
  {
    match t
    case TopLevel(_) => NoDataset
    case InDataset(ds, _) => ds
  }

  predicate EndsWithGdb(w: string)
  {
    |w| >= |GdbSuffix| && w[|w| - |GdbSuffix|..] == GdbSuffix
  }

  /** The workspace path (pieces[0] + ".gdb") and the remainder (pieces[1])
      of a path split on ".gdb"; None where reading pieces[1] would throw. */
  function SplitWorkspace(path: string): (r: Option<(string, string)>)
    ensures r.None? <==> !Contains(path, GdbSuffix)
    ensures r.Some? ==> EndsWithGdb(r.value.0)
    ensures r.Some? ==> |r.value.0| <= |path| && path[..|r.value.0|] == r.value.0
    ensures r.Some? ==> FirstOccurrence(path, GdbSuffix, |r.value.0| - |GdbSuffix|)
    ensures r.Some? ==> !Contains(r.value.1, GdbSuffix)
  {
    var pieces := Split(path, GdbSuffix);
    if |pieces| < 2 then None
    else
      SplitFirstPiece(path, GdbSuffix);
      var k := |pieces[0]|;
      assert path[..k + |GdbSuffix|] == path[..k] + path[k..k + |GdbSuffix|];
      Some((pieces[0] + GdbSuffix, pieces[1]))
  }

  /** The feature class named by the remainder after ".gdb": fewer than two
      backslash-separated segments name none, two name a top-level class
      (segment 0 is dropped), three or more name dataset segment 1 and class
      segment 2 (the rest is dropped). */
  function TargetOf(rest: string): (r: Option<Target>)
    ensures r.None? <==> PathSeparator !in rest
    ensures r.Some? ==> PathSeparator !in r.value.featureClass
    ensures r.Some? && r.value.InDataset? ==> PathSeparator !in r.value.dataset
  {
    var segments := Split(rest, [PathSeparator]);
    CharContains(rest, PathSeparator);
    if |segments| < 2 then None
    else if |segments| < 3 then
      CharContains(segments[1], PathSeparator);
      Some(TopLevel(segments[1]))
    else
      CharContains(segments[1], PathSeparator);
      CharContains(segments[2], PathSeparator);
      Some(InDataset(segments[1], segments[2]))
  }

  /** The pure part of GetFeatureClassByName(string): the workspace path and
      the feature class a fully qualified path names, or None. */
  function ParsePath(path: string): (r: Option<(string, Target)>)
    ensures !Contains(path, GdbSuffix) ==> r.None?
    ensures r.Some? ==> EndsWithGdb(r.value.0)
    ensures r.Some? ==> |r.value.0| <= |path| && path[..|r.value.0|] == r.value.0
    ensures r.Some? ==> PathSeparator !in r.value.1.featureClass
    ensures r.Some? <==> SplitWorkspace(path).Some? && PathSeparator in SplitWorkspace(path).value.1
    ensures r.Some? ==> FirstOccurrence(path, GdbSuffix, |r.value.0| - |GdbSuffix|)
  {
    match SplitWorkspace(path)
    case None => None
    case Some((workspace, rest)) =>
      match TargetOf(rest)
      case None => None
      case Some(t) => Some((workspace, t))
  }

  /** The inverse direction: the text of a path naming `t` inside the workspace `stem.gdb`. */
  function FormatPath(stem: string, t: Target): string
  {
    stem + GdbSuffix + FormatTarget(t)
  }

  function FormatTarget(t: Target): string
  {
    match t
    case TopLevel(fc) => [PathSeparator] + fc
    case InDataset(ds, fc) => [PathSeparator] + ds + [PathSeparator] + fc
  }

  /** A name that survives a round trip: no backslash and no ".gdb" inside. */
  ghost predicate ValidName(n: string)
  {
    PathSeparator !in n && !Contains(n, GdbSuffix)
  }

  ghost predicate ValidTarget(t: Target)
  {
    match t
    case TopLevel(fc) => ValidName(fc)
    case InDataset(ds, fc) => ValidName(ds) && ValidName(fc)
  }

  /** A name without a dot cannot hold ".gdb". */
  lemma NoDotNoGdb(n: string)
    requires '.' !in n
    ensures !Contains(n, GdbSuffix)
  {
    forall j: nat | j + |GdbSuffix| <= |n|
      ensures !OccursAt(n, GdbSuffix, j)
    {
      assert n[j..j + |GdbSuffix|][0] == n[j];
    }
  }

  /** With no ".gdb" before it, the first ".gdb" ends the workspace, and the
      remainder is the text up to the next ".gdb" (or the end). */
  lemma WorkspaceIsTextBeforeFirstGdb(stem: string, more: string)
    requires !Contains(stem, GdbSuffix)
    ensures SplitWorkspace(stem + GdbSuffix + more) == Some((stem + GdbSuffix, Split(more, GdbSuffix)[0]))
  {
    var path := stem + GdbSuffix + more;
    FirstOccurrenceAfterFreeText(stem, GdbSuffix, more);
    IndexOfIsFirst(path, GdbSuffix, |stem|);
    SplitStep(path, GdbSuffix, |stem|);
    assert path[..|stem|] == stem;
    assert path[|stem| + |GdbSuffix|..] == more;
  }

  /** A path with a single ".gdb": the remainder is everything after it. */
  lemma RemainderIsWholeTail(stem: string, more: string)
    requires !Contains(stem, GdbSuffix) && !Contains(more, GdbSuffix)
    ensures SplitWorkspace(stem + GdbSuffix + more) == Some((stem + GdbSuffix, more))
  {
    WorkspaceIsTextBeforeFirstGdb(stem, more);
    SplitFirstPiece(more, GdbSuffix);
  }

  /** Only the text between the first and the second ".gdb" is used. */
  lemma RemainderStopsAtSecondGdb(stem: string, middle: string, tail: string)
    requires !Contains(stem, GdbSuffix) && !Contains(middle, GdbSuffix)
    ensures SplitWorkspace(stem + GdbSuffix + middle + GdbSuffix + tail)
         == Some((stem + GdbSuffix, middle))
  {
    var more := middle + GdbSuffix + tail;
    var path := stem + GdbSuffix + middle + GdbSuffix + tail;
    assert path == stem + GdbSuffix + more;
    FirstPieceBeforeGdb(middle, tail);
    WorkspaceIsTextBeforeFirstGdb(stem, more);
  }

  /** Split on ".gdb" of `a + ".gdb" + b` starts with `a` when `a` has no ".gdb". */
  lemma FirstPieceBeforeGdb(a: string, b: string)
    requires !Contains(a, GdbSuffix)
    ensures Split(a + GdbSuffix + b, GdbSuffix)[0] == a
  {
    var s := a + GdbSuffix + b;
    FirstOccurrenceAfterFreeText(a, GdbSuffix, b);
    IndexOfIsFirst(s, GdbSuffix, |a|);
    SplitStep(s, GdbSuffix, |a|);
    assert s[..|a|] == a;
  }

  /** Two segments: a top-level feature class; the leading segment is ignored. */
  lemma TargetOfTopLevel(lead: string, fc: string)
    requires PathSeparator !in lead && PathSeparator !in fc
    ensures TargetOf(lead + [PathSeparator] + fc) == Some(TopLevel(fc))
  {
    SplitOnCharCons(lead, PathSeparator, fc);
    SplitOnCharNone(fc, PathSeparator);
  }

  /** Three or more segments: segment 1 is the dataset, segment 2 the feature
      class, and whatever follows the next backslash is ignored. */
  lemma TargetOfInDataset(lead: string, ds: string, fc: string, tail: string)
    requires PathSeparator !in lead && PathSeparator !in ds && PathSeparator !in fc
    requires tail == [] || tail[0] == PathSeparator
    ensures TargetOf(lead + [PathSeparator] + ds + [PathSeparator] + fc + tail)
         == Some(InDataset(ds, fc))
  {
    var rest := ds + [PathSeparator] + fc + tail;
    var whole := lead + [PathSeparator] + ds + [PathSeparator] + fc + tail;
    assert whole == lead + [PathSeparator] + rest;
    assert rest == ds + [PathSeparator] + (fc + tail);
    var last := Split(fc + tail, [PathSeparator]);
    if tail == [] {
      assert fc + tail == fc;
      SplitOnCharNone(fc, PathSeparator);
    } else {
      assert fc + tail == fc + [PathSeparator] + tail[1..];
      SplitOnCharCons(fc, PathSeparator, tail[1..]);
    }
    assert last[0] == fc;
    SplitOnCharCons(ds, PathSeparator, fc + tail);
    SplitOnCharCons(lead, PathSeparator, rest);
    var segments := Split(whole, [PathSeparator]);
    assert segments == [lead] + ([ds] + last);
    TargetOfThreeSegments(whole);
  }

  /** TargetOf read off the segments when there are at least three. */
  lemma TargetOfThreeSegments(rest: string)
    requires |Split(rest, [PathSeparator])| >= 3
    ensures TargetOf(rest) == Some(InDataset(Split(rest, [PathSeparator])[1], Split(rest, [PathSeparator])[2]))
  {
  }

  /** A path ending exactly in ".gdb" names no feature class. */
  lemma BareWorkspaceNamesNothing(stem: string)
    requires !Contains(stem, GdbSuffix)
    ensures ParsePath(stem + GdbSuffix) == None
  {
    assert stem + GdbSuffix == stem + GdbSuffix + [];
    assert !Contains([], GdbSuffix);
    RemainderIsWholeTail(stem, []);
  }

  /** Round trip: parsing a formatted path gives back its workspace and target. */
  lemma ParseFormatted(stem: string, t: Target)
    requires !Contains(stem, GdbSuffix)
    requires ValidTarget(t)
    ensures ParsePath(FormatPath(stem, t)) == Some((stem + GdbSuffix, t))
  {
    var text := FormatTarget(t);
    assert !(PathSeparator in GdbSuffix);
    assert !Contains([], GdbSuffix);
    match t
    case TopLevel(fc) =>
      assert text == [] + [PathSeparator] + fc;
      NoOccurrenceAcrossChar([], PathSeparator, fc, GdbSuffix);
      RemainderIsWholeTail(stem, text);
      TargetOfTopLevel([], fc);
    case InDataset(ds, fc) =>
      var front := [PathSeparator] + ds;
      assert front == [] + [PathSeparator] + ds;
      NoOccurrenceAcrossChar([], PathSeparator, ds, GdbSuffix);
      NoOccurrenceAcrossChar(front, PathSeparator, fc, GdbSuffix);
      RemainderIsWholeTail(stem, text);
      assert text == [] + [PathSeparator] + ds + [PathSeparator] + fc + [];
      TargetOfInDataset([], ds, fc, []);
  }
}
