/** Ordinal string splitting, as .NET's String.Split does it with
    StringSplitOptions.None: the separator is searched for from the left,
    occurrences do not overlap, and empty pieces are kept. */
module Strings {
  import opened Wrappers

  /** `sep` occurs in `s` starting at index `i`. */
  predicate OccursAt(s: string, sep: string, i: nat)
  {
    i + |sep| <= |s| && s[i..i + |sep|] == sep
  }

  /** `sep` occurs somewhere in `s`. */
  ghost predicate Contains(s: string, sep: string)
  {
    exists i: nat :: OccursAt(s, sep, i)
  }

  /** `k` is the leftmost occurrence of `sep` in `s`. */
  ghost predicate FirstOccurrence(s: string, sep: string, k: nat)
  {
    OccursAt(s, sep, k) && forall j: nat :: j < k ==> !OccursAt(s, sep, j)
  }

  /** The leftmost occurrence of `sep` in `s` at or after index `from`. */
  function FindFrom(s: string, sep: string, from: nat): (r: Option<nat>)
    requires |sep| > 0
    ensures r.Some? ==> from <= r.value && OccursAt(s, sep, r.value)
    ensures r.Some? ==> forall j: nat :: from <= j < r.value ==> !OccursAt(s, sep, j)
    ensures r.None? ==> forall j: nat :: from <= j ==> !OccursAt(s, sep, j)
    decreases |s| - from
  {
    if from + |sep| > |s| then None
    else if s[from..from + |sep|] == sep then Some(from)
    else FindFrom(s, sep, from + 1)
  }

  /** The leftmost occurrence of `sep` in `s`, if any. */
  function IndexOf(s: string, sep: string): (r: Option<nat>)
    requires |sep| > 0
    ensures r.None? <==> !Contains(s, sep)
    ensures r.Some? ==> FirstOccurrence(s, sep, r.value)
  {
    FindFrom(s, sep, 0)
  }

  /** IndexOf finds exactly the leftmost occurrence. */
  lemma IndexOfIsFirst(s: string, sep: string, k: nat)
    requires |sep| > 0
    requires FirstOccurrence(s, sep, k)
    ensures IndexOf(s, sep) == Some(k)
  {
    var r := IndexOf(s, sep);
    assert r.Some?;
    assert !(r.value < k) && !(k < r.value);
  }

  /** A one-character separator occurs exactly when the character does. */
  lemma CharContains(a: string, c: char)
    ensures Contains(a, [c]) <==> c in a
  {
    if c in a {
      var i :| 0 <= i < |a| && a[i] == c;
      assert a[i..i + 1] == [c];
      assert OccursAt(a, [c], i);
    } else {
      CharFree(a, c);
    }
  }

  /** An occurrence inside a prefix of `s` is an occurrence in `s`, and back. */
  lemma OccursInPrefix(s: string, sep: string, n: nat, j: nat)
    requires n <= |s|
    requires j + |sep| <= n
    ensures OccursAt(s[..n], sep, j) <==> OccursAt(s, sep, j)
  {
    assert s[..n][j..j + |sep|] == s[j..j + |sep|];
  }

  /** An occurrence inside a suffix of `s` is an occurrence in `s`, shifted. */
  lemma OccursInSuffix(s: string, sep: string, n: nat, j: nat)
    requires n <= |s|
    ensures OccursAt(s[n..], sep, j) <==> OccursAt(s, sep, n + j)
  {
    if n + j + |sep| <= |s| {
      assert s[n..][j..j + |sep|] == s[n + j..n + j + |sep|];
    }
  }

  /** The pieces of `s` between the occurrences of `sep`, left to right. */
  function Split(s: string, sep: string): (parts: seq<string>)
    requires |sep| > 0
    ensures |parts| >= 1
    ensures |parts| == 1 <==> !Contains(s, sep)
    ensures forall k :: 0 <= k < |parts| ==> !Contains(parts[k], sep)
    decreases |s|
  {
    match IndexOf(s, sep)
    case None => [s]
    case Some(i) =>
      PrefixBeforeFirstIsFree(s, sep, i);
      [s[..i]] + Split(s[i + |sep|..], sep)
  }

  /** The text before the leftmost occurrence of `sep` contains no `sep`. */
  lemma PrefixBeforeFirstIsFree(s: string, sep: string, k: nat)
    requires |sep| > 0
    requires FirstOccurrence(s, sep, k)
    ensures !Contains(s[..k], sep)
  {
    forall j: nat
      ensures !OccursAt(s[..k], sep, j)
    {
      if j + |sep| <= k {
        OccursInPrefix(s, sep, k, j);
      }
    }
  }

  /** The inverse of Split: the pieces glued back with `sep` between them. */
  function Join(parts: seq<string>, sep: string): (s: string)
    requires |parts| >= 1
    ensures |s| >= |parts[0]| && s[..|parts[0]|] == parts[0]
  {
    if |parts| == 1 then parts[0] else parts[0] + sep + Join(parts[1..], sep)
  }

  /** One step of Split: the text before the leftmost `sep`, then the pieces after it. */
  lemma SplitStep(s: string, sep: string, i: nat)
    requires |sep| > 0
    requires IndexOf(s, sep) == Some(i)
    ensures i + |sep| <= |s|
    ensures Split(s, sep) == [s[..i]] + Split(s[i + |sep|..], sep)
    ensures s == s[..i] + sep + s[i + |sep|..]
  {
    assert OccursAt(s, sep, i);
    assert s[i..i + |sep|] == sep;
    assert s == s[..i] + s[i..i + |sep|] + s[i + |sep|..];
  }

  /** Splitting loses nothing: gluing the pieces back gives the input. */
  lemma {:induction false} SplitThenJoin(s: string, sep: string)
    requires |sep| > 0
    ensures Join(Split(s, sep), sep) == s
    decreases |s|
  {
    match IndexOf(s, sep)
    case None =>
    case Some(i) =>
      var tail := s[i + |sep|..];
      var head := s[..i];
      var rest := Split(tail, sep);
      SplitStep(s, sep, i);
      SplitThenJoin(tail, sep);
      JoinCons(head, rest, sep);
  }

  /** Join of a piece in front of at least one more piece. */
  lemma JoinCons(head: string, rest: seq<string>, sep: string)
    requires |rest| >= 1
    ensures Join([head] + rest, sep) == head + sep + Join(rest, sep)
  {
    assert ([head] + rest)[1..] == rest;
  }

  /** The first piece is the text before the leftmost occurrence of `sep`
      (or all of `s`); it is followed by the end of `s` or by `sep`. */
  lemma SplitFirstPiece(s: string, sep: string)
    requires |sep| > 0
    ensures |Split(s, sep)[0]| <= |s|
    ensures s[..|Split(s, sep)[0]|] == Split(s, sep)[0]
    ensures Contains(s, sep) ==> FirstOccurrence(s, sep, |Split(s, sep)[0]|)
    ensures !Contains(s, sep) ==> Split(s, sep)[0] == s
  {
  }

  /** When `a` is free of `sep` and no later character of `sep` repeats its
      first one, the leftmost occurrence in `a + sep + b` is the one right after `a`. */
  lemma FirstOccurrenceAfterFreeText(a: string, sep: string, b: string)
    requires |sep| > 0
    requires !Contains(a, sep)
    requires forall d :: 0 < d < |sep| ==> sep[d] != sep[0]
    ensures FirstOccurrence(a + sep + b, sep, |a|)
  {
    var s := a + sep + b;
    assert s[|a|..|a| + |sep|] == sep;
    assert s[..|a|] == a;
    forall j: nat | j < |a|
      ensures !OccursAt(s, sep, j)
    {
      if j + |sep| <= |a| {
        OccursInPrefix(s, sep, |a|, j);
        assert !OccursAt(a, sep, j);
      } else if j + |sep| <= |s| {
        assert s[j..j + |sep|][|a| - j] == s[|a|] == sep[0];
      }
    }
  }

  /** An occurrence of `sep` cannot span a character that `sep` does not hold. */
  lemma NoOccurrenceAcrossChar(a: string, c: char, b: string, sep: string)
    requires |sep| > 0
    requires c !in sep
    requires !Contains(a, sep) && !Contains(b, sep)
    ensures !Contains(a + [c] + b, sep)
  {
    var s := a + [c] + b;
    assert s[..|a|] == a;
    assert s[|a| + 1..] == b;
    forall j: nat
      ensures !OccursAt(s, sep, j)
    {
      if j + |sep| <= |a| {
        OccursInPrefix(s, sep, |a|, j);
        assert !OccursAt(a, sep, j);
      } else if j > |a| {
        OccursInSuffix(s, sep, |a| + 1, j - |a| - 1);
        assert !OccursAt(b, sep, j - |a| - 1);
      } else if j + |sep| <= |s| {
        assert s[j..j + |sep|][|a| - j] == s[|a|] == c;
      }
    }
  }

  /** A text without `c` has no occurrence of the one-character separator `[c]`. */
  lemma CharFree(a: string, c: char)
    requires c !in a
    ensures !Contains(a, [c])
  {
    forall j: nat | j + 1 <= |a|
      ensures !OccursAt(a, [c], j)
    {
      assert a[j..j + 1][0] == a[j];
    }
  }

  /** Splitting on a single character `c` peels off the text before the first `c`. */
  lemma SplitOnCharCons(a: string, c: char, b: string)
    requires c !in a
    ensures Split(a + [c] + b, [c]) == [a] + Split(b, [c])
  {
    var s := a + [c] + b;
    assert s[|a|..|a| + 1] == [c];
    assert s[..|a|] == a;
    CharFree(a, c);
    FirstOccurrenceAfterFreeText(a, [c], b);
    assert IndexOf(s, [c]) == Some(|a|);
    assert s[|a| + 1..] == b;
  }

  /** A text without `c` is a single piece when split on `c`. */
  lemma SplitOnCharNone(a: string, c: char)
    requires c !in a
    ensures Split(a, [c]) == [a]
  {
    CharFree(a, c);
  }

  /** Splitting on a character is the inverse of joining pieces free of it. */
  lemma {:induction false} JoinThenSplitOnChar(parts: seq<string>, c: char)
    requires |parts| >= 1
    requires forall k :: 0 <= k < |parts| ==> c !in parts[k]
    ensures Split(Join(parts, [c]), [c]) == parts
    decreases |parts|
  {
    if |parts| == 1 {
      SplitOnCharNone(parts[0], c);
    } else {
      var rest := parts[1..];
      assert forall k :: 0 <= k < |rest| ==> c !in rest[k] by {
        forall k | 0 <= k < |rest| ensures c !in rest[k] {
          assert rest[k] == parts[k + 1];
        }
      }
      JoinThenSplitOnChar(rest, c);
      assert Join(parts, [c]) == parts[0] + [c] + Join(rest, [c]);
      SplitOnCharCons(parts[0], c, Join(rest, [c]));
      assert parts == [parts[0]] + rest;
    }
  }
}
