/**
 * Which files count as the user's own source: a path is rejected when it
 * lies inside the Xcode toolchain or inside a CocoaPods directory, both
 * decided by plain substring search (std::string::find).
 */
module SourceClassifier {
  import opened Wrappers

  const SYSTEM_MARKER: string := "/Applications/Xcode.app/"
  const PODS_MARKER: string := "/Pods/"

  ghost predicate OccursAt(s: string, sub: string, i: nat)
  {
    i + |sub| <= |s| && s[i..i + |sub|] == sub
  }

  ghost predicate Contains(s: string, sub: string)
  {
    exists i: nat :: OccursAt(s, sub, i)
  }

  /** std::string::find(sub, start); None plays the part of npos. */
  function FindFrom(s: string, sub: string, start: nat): (r: Option<nat>)
    ensures r.Some? ==> start <= r.value && OccursAt(s, sub, r.value)
    ensures r.Some? ==> forall i: nat :: start <= i < r.value ==> !OccursAt(s, sub, i)
    ensures r.None? ==> forall i: nat :: start <= i ==> !OccursAt(s, sub, i)
    decreases |s| - start
  {
    if start + |sub| > |s| then None
    else if s[start..start + |sub|] == sub then Some(start)
    else FindFrom(s, sub, start + 1)
  }

  /** std::string::find(sub): the first occurrence, or None when there is none. */
  function Find(s: string, sub: string): (r: Option<nat>)
    ensures r.None? <==> !Contains(s, sub)
    ensures r.Some? ==> OccursAt(s, sub, r.value) && forall i: nat :: i < r.value ==> !OccursAt(s, sub, i)
  {
    FindFrom(s, sub, 0)
  }

  /** A file of a CocoaPods dependency. */
  function IsPodFile(filename: string): (r: bool)
    ensures r <==> Contains(filename, PODS_MARKER)
  {
    Find(filename, PODS_MARKER).Some?
  }

  /** A file of the Xcode toolchain (SDK headers). */
  function IsSystemSource(filename: string): (r: bool)
    ensures r <==> Contains(filename, SYSTEM_MARKER)
  {
    Find(filename, SYSTEM_MARKER).Some?
  }

  /** The user's own source: neither a toolchain file nor a CocoaPods file. */
  function IsUserSourceUsefulFile(filename: string): (r: bool)
    ensures r <==> !Contains(filename, SYSTEM_MARKER) && !Contains(filename, PODS_MARKER)
  {
    !IsSystemSource(filename) && !IsPodFile(filename)
  }

  lemma MarkerOccurs(prefix: string, marker: string, suffix: string)
    ensures Contains(prefix + marker + suffix, marker)
  {
    var s := prefix + marker + suffix;
    assert s[|prefix|..|prefix| + |marker|] == marker;
    assert OccursAt(s, marker, |prefix|);
  }

  /** The toolchain marker excludes a path wherever it occurs, not only as a leading root. */
  lemma SystemPathIsNotUserSource(prefix: string, suffix: string)
    ensures IsSystemSource(prefix + SYSTEM_MARKER + suffix)
    ensures !IsUserSourceUsefulFile(prefix + SYSTEM_MARKER + suffix)
  {
    MarkerOccurs(prefix, SYSTEM_MARKER, suffix);
  }

  /** Any path with a Pods directory component is vendored, wherever it occurs. */
  lemma PodsPathIsNotUserSource(prefix: string, suffix: string)
    ensures IsPodFile(prefix + PODS_MARKER + suffix)
    ensures !IsUserSourceUsefulFile(prefix + PODS_MARKER + suffix)
  {
    MarkerOccurs(prefix, PODS_MARKER, suffix);
  }

  /** A path shorter than both markers cannot contain either: it is user source. */
  lemma ShortPathIsUserSource(filename: string)
    requires |filename| < |PODS_MARKER|
    ensures IsUserSourceUsefulFile(filename)
  {
    assert forall i: nat :: !OccursAt(filename, PODS_MARKER, i);
    assert forall i: nat :: !OccursAt(filename, SYSTEM_MARKER, i);
  }
}
