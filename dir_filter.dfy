/** Pruning of the sub-directory list of a directory walk: every entry equal to the
    skipped name, ignoring letter case, is removed in place. */
module DirFilter {
  import opened Names

  /** The entries of `dirs` equal to `skip` ignoring case, in order. */
  function Matching(dirs: seq<string>, skip: string): (r: seq<string>)
    ensures |r| <= |dirs|
    ensures forall d :: d in r <==> d in dirs && SameIgnoringCase(d, skip)
    decreases |dirs|
  {
    if dirs == [] then []
    else (if SameIgnoringCase(dirs[0], skip) then [dirs[0]] else []) + Matching(dirs[1..], skip)
  }

  /** The entries of `dirs` not equal to `skip` ignoring case, in order. */
  function Kept(dirs: seq<string>, skip: string): (r: seq<string>)
    ensures |r| <= |dirs|
    ensures forall d :: d in r <==> d in dirs && !SameIgnoringCase(d, skip)
    decreases |dirs|
  {
    if dirs == [] then []
    else (if SameIgnoringCase(dirs[0], skip) then [] else [dirs[0]]) + Kept(dirs[1..], skip)
  }

  /** Python's `list.remove(x)`: drop the first element equal to `x`. */
  function RemoveFirst(s: seq<string>, x: string): (r: seq<string>)
    requires x in s
    ensures |r| == |s| - 1
    ensures multiset(r) == multiset(s) - multiset{x}
    decreases |s|
  {
    assert s == [s[0]] + s[1..];
    if s[0] == x then s[1..] else [s[0]] + RemoveFirst(s[1..], x)
  }

  /** `dirs` after its first `k` matching entries have been removed. */
  function DropMatches(dirs: seq<string>, skip: string, k: nat): seq<string>
    decreases |dirs|
  {
    if dirs == [] then []
    else if SameIgnoringCase(dirs[0], skip) && k > 0 then DropMatches(dirs[1..], skip, k - 1)
    else [dirs[0]] + DropMatches(dirs[1..], skip, k)
  }

  lemma {:induction false} DropNone(dirs: seq<string>, skip: string)
    ensures DropMatches(dirs, skip, 0) == dirs
    decreases |dirs|
  {
    if dirs != [] {
      DropNone(dirs[1..], skip);
    }
  }

  /** Removing the k-th matching name (by value, first occurrence) from the list that
      has already lost the first k matching entries removes exactly the next one. */
  lemma {:induction false} RemoveNextMatch(dirs: seq<string>, skip: string, k: nat)
    requires k < |Matching(dirs, skip)|
    ensures Matching(dirs, skip)[k] in DropMatches(dirs, skip, k)
    ensures RemoveFirst(DropMatches(dirs, skip, k), Matching(dirs, skip)[k]) == DropMatches(dirs, skip, k + 1)
    decreases |dirs|
  {
    var m := Matching(dirs, skip);
    var rest := Matching(dirs[1..], skip);
    if SameIgnoringCase(dirs[0], skip) {
      assert m == [dirs[0]] + rest;
      if k == 0 {
        DropNone(dirs, skip);
        DropNone(dirs[1..], skip);
        assert DropMatches(dirs, skip, 1) == dirs[1..];
      } else {
        assert m[k] == rest[k - 1];
        assert DropMatches(dirs, skip, k) == DropMatches(dirs[1..], skip, k - 1);
        assert DropMatches(dirs, skip, k + 1) == DropMatches(dirs[1..], skip, k);
        RemoveNextMatch(dirs[1..], skip, k - 1);
      }
    } else {
      assert m == rest;
      RemoveNextMatch(dirs[1..], skip, k);
      var tail := DropMatches(dirs[1..], skip, k);
      assert DropMatches(dirs, skip, k) == [dirs[0]] + tail;
      assert DropMatches(dirs, skip, k + 1) == [dirs[0]] + DropMatches(dirs[1..], skip, k + 1);
      assert dirs[0] != m[k] by {
        assert m[k] in rest;
      }
      assert ([dirs[0]] + tail)[1..] == tail;
    }
  }

  /** Once every matching entry has been dropped, what is left is `Kept`. */
  lemma {:induction false} DropAllMatches(dirs: seq<string>, skip: string)
    ensures DropMatches(dirs, skip, |Matching(dirs, skip)|) == Kept(dirs, skip)
    decreases |dirs|
  {
    if dirs != [] {
      DropAllMatches(dirs[1..], skip);
    }
  }

  /** `Kept` works piecewise, so surviving entries keep their relative order: what
      survives of a prefix comes before what survives of the rest. */
  lemma {:induction false} KeptConcat(a: seq<string>, b: seq<string>, skip: string)
    ensures Kept(a + b, skip) == Kept(a, skip) + Kept(b, skip)
    decreases |a|
  {
    if a == [] {
      assert a + b == b;
    } else {
      assert (a + b)[1..] == a[1..] + b;
      KeptConcat(a[1..], b, skip);
    }
  }

  /** The sub-directory list handed out by one step of a directory walk; the walk
      descends only into the entries still present after the step returns. */
  class WalkStep {
    var dirs: seq<string>

    constructor (dirs0: seq<string>)
      ensures dirs == dirs0
    {
      dirs := dirs0;
    }

    /** Collect the entries equal to `skip` ignoring case, then remove each of them
        by value, first occurrence first. */
    method SkipDir(skip: string)
      modifies this
      ensures dirs == Kept(old(dirs), skip)
    {
      var toRemove := Matching(dirs, skip);
      ghost var original := dirs;
      DropNone(original, skip);
      var i := 0;
      while i < |toRemove|
        invariant 0 <= i <= |toRemove|
        invariant dirs == DropMatches(original, skip, i)
      {
        RemoveNextMatch(original, skip, i);
        dirs := RemoveFirst(dirs, toRemove[i]);
        i := i + 1;
      }
      DropAllMatches(original, skip);
    }
  }
}
