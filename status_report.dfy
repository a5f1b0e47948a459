/** The libc patch status check over a list of files: every file's path lands in
    exactly one of five lists, by which patterns its bytes hold, or in the error
    list when it cannot be read. */
module StatusReport {
  import opened Wrappers
  import opened FileKinds
  import opened LibcPatch
  import opened Seqs

  /** The list a file is reported in: the bucket of its bytes, or the error list. */
  datatype Group = InBucket(bucket: Bucket) | ReadError

  function GroupOf(f: FileEntry, search: seq<bv8>, patch: seq<bv8>): (g: Group)
    ensures g == ReadError <==> f.content.None?
    ensures f.content.Some? ==> g == InBucket(StatusOf(f.content.value, search, patch))
  {
    match f.content
    case None => ReadError
    case Some(c) => InBucket(StatusOf(c, search, patch))
  }

  /** The paths of the files of `fs` in group `g`, in order. */
  function PathsIn(fs: seq<FileEntry>, search: seq<bv8>, patch: seq<bv8>, g: Group): (ps: seq<string>)
    ensures |ps| <= |fs|
    decreases |fs|
  {
    if fs == [] then []
    else PathsIn(fs[..|fs| - 1], search, patch, g) + (if GroupOf(fs[|fs| - 1], search, patch) == g then [fs[|fs| - 1].path] else [])
  }

  /** The path of every file of `fs` is listed in its own group. */
  lemma {:induction false} ListedInOwnGroup(fs: seq<FileEntry>, search: seq<bv8>, patch: seq<bv8>, i: nat)
    requires i < |fs|
    ensures fs[i].path in PathsIn(fs, search, patch, GroupOf(fs[i], search, patch))
    decreases |fs|
  {
    var n := |fs| - 1;
    if i < n {
      ListedInOwnGroup(fs[..n], search, patch, i);
    }
  }

  /** The five lists together have one entry per file. */
  lemma {:induction false} GroupsCoverAll(fs: seq<FileEntry>, search: seq<bv8>, patch: seq<bv8>)
    ensures |PathsIn(fs, search, patch, InBucket(Original))| + |PathsIn(fs, search, patch, InBucket(Patched))| +
            |PathsIn(fs, search, patch, InBucket(BothPatterns))| + |PathsIn(fs, search, patch, InBucket(NoPattern))| +
            |PathsIn(fs, search, patch, ReadError)| == |fs|
    decreases |fs|
  {
    if fs != [] {
      GroupsCoverAll(fs[..|fs| - 1], search, patch);
    }
  }

  /** The lists `check_libc_patch_status` returns. */
  class Report {
    var originalFiles: seq<string>
    var patchedFiles: seq<string>
    var bothPatternsFiles: seq<string>
    var noPatternFiles: seq<string>
    var errorFiles: seq<string>

    constructor ()
      ensures originalFiles == [] && patchedFiles == [] && bothPatternsFiles == []
      ensures noPatternFiles == [] && errorFiles == []
    {
      originalFiles, patchedFiles, bothPatternsFiles := [], [], [];
      noPatternFiles, errorFiles := [], [];
    }

    /** The list that collects group `g`. */
    function Listed(g: Group): seq<string>
      reads this
    {
      match g
      case InBucket(Original) => originalFiles
      case InBucket(Patched) => patchedFiles
      case InBucket(BothPatterns) => bothPatternsFiles
      case InBucket(NoPattern) => noPatternFiles
      case ReadError => errorFiles
    }

    /** Check one file: its path goes to the list of its group, and only there. */
    method Add(f: FileEntry, search: seq<bv8>, patch: seq<bv8>)
      modifies this
      ensures forall g :: Listed(g) == old(Listed(g)) + (if GroupOf(f, search, patch) == g then [f.path] else [])
    {
      match f.content {
        case None =>
          errorFiles := errorFiles + [f.path];
        case Some(c) =>
          var hasOriginal := Contains(c, search);
          var hasPatch := Contains(c, patch);
          if hasOriginal && !hasPatch {
            originalFiles := originalFiles + [f.path];
          } else if hasPatch && !hasOriginal {
            patchedFiles := patchedFiles + [f.path];
          } else if hasOriginal && hasPatch {
            bothPatternsFiles := bothPatternsFiles + [f.path];
          } else {
            noPatternFiles := noPatternFiles + [f.path];
          }
      }
    }

    /** Check every file in order: each list grows by the paths of the files in its
        group, in order. */
    method CheckAll(fs: seq<FileEntry>, search: seq<bv8>, patch: seq<bv8>)
      modifies this
      ensures forall g :: Listed(g) == old(Listed(g)) + PathsIn(fs, search, patch, g)
    {
      var i := 0;
      while i < |fs|
        invariant 0 <= i <= |fs|
        invariant forall g :: Listed(g) == old(Listed(g)) + PathsIn(fs[..i], search, patch, g)
      {
        label before:
        Add(fs[i], search, patch);
        forall g ensures Listed(g) == old(Listed(g)) + PathsIn(fs[..i + 1], search, patch, g) {
          var extra := if GroupOf(fs[i], search, patch) == g then [fs[i].path] else [];
          calc {
            Listed(g);
          ==
            old@before(Listed(g)) + extra;
          ==
            (old(Listed(g)) + PathsIn(fs[..i], search, patch, g)) + extra;
          == { PathsInStep(fs, search, patch, i, g); }
            old(Listed(g)) + PathsIn(fs[..i + 1], search, patch, g);
          }
        }
        i := i + 1;
      }
      assert fs[..|fs|] == fs;
    }
  }

  lemma PathsInStep(fs: seq<FileEntry>, search: seq<bv8>, patch: seq<bv8>, i: nat, g: Group)
    requires i < |fs|
    ensures PathsIn(fs[..i + 1], search, patch, g) == PathsIn(fs[..i], search, patch, g) + (if GroupOf(fs[i], search, patch) == g then [fs[i].path] else [])
  {
    assert fs[..i + 1][..i] == fs[..i];
  }
}
