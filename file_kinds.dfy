/** Classification of the files met while walking an input directory: ELF images,
    SELF containers, backups, and the files the libc patch looks at. */
module FileKinds {
  import opened Wrappers
  import opened Names
  import opened Seqs

  /** A regular file met during a directory walk: its path, its base name, and its
      bytes, or None when it cannot be opened or read. */
  datatype FileEntry = FileEntry(path: string, name: string, content: Option<seq<bv8>>)

  /** ELF identification bytes EI_MAG0..EI_MAG3: 0x7F 'E' 'L' 'F'. */
  const ElfMagic: seq<bv8> := [0x7F, 0x45, 0x4C, 0x46]
  /** The two accepted SELF container magics. */
  const SelfMagicA: seq<bv8> := [0x4F, 0x15, 0x3D, 0x1D]
  const SelfMagicB: seq<bv8> := [0x54, 0x14, 0xF5, 0xEE]

  /** Backup copies end in `.bak` (case-sensitive) and are never processed. */
  predicate IsBackupName(name: string)
  {
    EndsWith(name, ".bak")
  }

  /** `f.read(4)`: the first four bytes, or all of them when the file is shorter. */
  function ReadMagic(content: seq<bv8>): (m: seq<bv8>)
    ensures |m| <= 4 && |m| <= |content| && m == content[..|m|]
    ensures |m| == 4 || m == content
  {
    if |content| < 4 then content else content[..4]
  }

  /** `_is_elf_file`: a readable file not named `*.bak` whose four-byte magic read
      is the ELF magic, so it holds at least four bytes. */
  predicate IsElfFile(f: FileEntry): (r: bool)
    ensures r <==>
      !IsBackupName(f.name) && f.content.Some? &&
      |f.content.value| >= 4 && f.content.value[..4] == ElfMagic
  {
    !IsBackupName(f.name) && f.content.Some? && ReadMagic(f.content.value) == ElfMagic
  }

  /** `_is_self_file`: the same test against either SELF magic. */
  predicate IsSelfFile(f: FileEntry): (r: bool)
    ensures r <==>
      !IsBackupName(f.name) && f.content.Some? && |f.content.value| >= 4 &&
      (f.content.value[..4] == SelfMagicA || f.content.value[..4] == SelfMagicB)
  {
    !IsBackupName(f.name) && f.content.Some? && ReadMagic(f.content.value) in [SelfMagicA, SelfMagicB]
  }

  /** A file the detection step counts as neither SELF nor ELF. */
  predicate IsOtherFile(f: FileEntry)
  {
    !IsBackupName(f.name) && !IsSelfFile(f) && !IsElfFile(f)
  }

  /** A file the detection step looks at at all. */
  predicate IsExamined(f: FileEntry)
  {
    !IsBackupName(f.name)
  }

  /** A file named `libc.prx`, in any letter case. */
  predicate IsLibcPrx(f: FileEntry): (r: bool)
    ensures r <==> SameIgnoringCase(f.name, "libc.prx")
    ensures r ==> |f.name| == 8 && !IsBackupName(f.name)
  {
    assert Lower("libc.prx") == "libc.prx";
    assert Lower(f.name) == "libc.prx" ==>
      LowerChar(f.name[7]) == Lower(f.name)[7] == "libc.prx"[7] == 'x' && f.name[7] != 'k';
    Lower(f.name) == "libc.prx"
  }

  /** A file is never both an ELF image and a SELF container. */
  lemma NeverBoth(f: FileEntry)
    ensures !(IsElfFile(f) && IsSelfFile(f))
  {
    if f.content.Some? && |ReadMagic(f.content.value)| == 4 {
      var m := ReadMagic(f.content.value);
      assert m == ElfMagic ==> m[0] == 0x7F;
      assert SelfMagicA[0] != 0x7F && SelfMagicB[0] != 0x7F;
    }
  }

  /** Backups and files shorter than four bytes are neither ELF nor SELF. */
  lemma BackupOrShortIsNeither(f: FileEntry)
    requires IsBackupName(f.name) || f.content.None? || |f.content.value| < 4
    ensures !IsElfFile(f) && !IsSelfFile(f)
  {
  }

  /** The SELF files of a walk, in walk order. */
  function SelfFiles(walk: seq<FileEntry>): (r: seq<FileEntry>)
    ensures |r| <= |walk|
    ensures forall t :: t in r <==> t in walk && IsSelfFile(t)
    decreases |walk|
  {
    if walk == [] then []
    else
      var n := |walk| - 1;
      assert walk == walk[..n] + [walk[n]];
      SelfFiles(walk[..n]) + (if IsSelfFile(walk[n]) then [walk[n]] else [])
  }

  /** The ELF files of a walk, in walk order. */
  function ElfFiles(walk: seq<FileEntry>): (r: seq<FileEntry>)
    ensures |r| <= |walk|
    ensures forall t :: t in r <==> t in walk && IsElfFile(t)
    decreases |walk|
  {
    if walk == [] then []
    else
      var n := |walk| - 1;
      assert walk == walk[..n] + [walk[n]];
      ElfFiles(walk[..n]) + (if IsElfFile(walk[n]) then [walk[n]] else [])
  }

  /** How many files of a walk satisfy `p`; like the status and step counts of the
      other modules, kept first-order over its own element type. */
  function CountWhere(walk: seq<FileEntry>, p: FileEntry -> bool): (n: nat)
    ensures n <= |walk|
    decreases |walk|
  {
    if walk == [] then 0
    else CountWhere(walk[..|walk| - 1], p) + (if p(walk[|walk| - 1]) then 1 else 0)
  }

  /** Every non-backup file is exactly one of SELF, ELF or other. */
  lemma {:induction false} KindsPartition(walk: seq<FileEntry>)
    ensures |SelfFiles(walk)| + |ElfFiles(walk)| + CountWhere(walk, IsOtherFile) == CountWhere(walk, IsExamined)
    decreases |walk|
  {
    if walk != [] {
      KindsPartition(walk[..|walk| - 1]);
      NeverBoth(walk[|walk| - 1]);
    }
  }

  /** Step 1 of the combined pipeline: every non-backup file of the walk is put in
      exactly one of three groups, SELF first, then ELF, else other. */
  method DetectKinds(walk: seq<FileEntry>) returns (selfFiles: seq<FileEntry>, elfFiles: seq<FileEntry>, otherCount: nat)
    ensures selfFiles == SelfFiles(walk)
    ensures elfFiles == ElfFiles(walk)
    ensures otherCount == CountWhere(walk, IsOtherFile)
    ensures |selfFiles| + |elfFiles| + otherCount == CountWhere(walk, IsExamined)
  {
    selfFiles, elfFiles, otherCount := [], [], 0;
    var i := 0;
    while i < |walk|
      invariant 0 <= i <= |walk|
      invariant selfFiles == SelfFiles(walk[..i])
      invariant elfFiles == ElfFiles(walk[..i])
      invariant otherCount == CountWhere(walk[..i], IsOtherFile)
    {
      var f := walk[i];
      assert walk[..i + 1][..i] == walk[..i];
      NeverBoth(f);
      if IsBackupName(f.name) {
      } else if IsSelfFile(f) {
        selfFiles := selfFiles + [f];
      } else if IsElfFile(f) {
        elfFiles := elfFiles + [f];
      } else {
        otherCount := otherCount + 1;
      }
      i := i + 1;
    }
    assert walk[..|walk|] == walk;
    KindsPartition(walk);
  }

  /** Some file in `fs` has path `p`. */
  predicate HasPath(fs: seq<FileEntry>, p: string)
  {
    exists t :: t in fs && t.path == p
  }

  /** The `libc.prx` files the second walk appends after `found`, in walk order:
      each one whose path is neither in `found` nor among those appended before it. */
  function NewLibcFiles(walk: seq<FileEntry>, found: seq<FileEntry>): (r: seq<FileEntry>)
    ensures |r| <= |walk|
    decreases |walk|
  {
    if walk == [] then []
    else
      var prev := NewLibcFiles(walk[..|walk| - 1], found);
      var f := walk[|walk| - 1];
      prev + (if IsLibcPrx(f) && !HasPath(found + prev, f.path) then [f] else [])
  }

  /** Directory mode of the libc patch, revert and status check: the SELF files of
      the walk in walk order, then every `libc.prx` whose path is not listed yet. */
  method CollectPatchTargets(walk: seq<FileEntry>) returns (targets: seq<FileEntry>)
    ensures |SelfFiles(walk)| <= |targets|
    ensures targets[..|SelfFiles(walk)|] == SelfFiles(walk)
    ensures targets == SelfFiles(walk) + NewLibcFiles(walk, SelfFiles(walk))
    ensures forall t :: t in targets ==> t in walk && (IsSelfFile(t) || IsLibcPrx(t))
    ensures forall f :: f in walk && (IsSelfFile(f) || IsLibcPrx(f)) ==> HasPath(targets, f.path)
    ensures forall k :: |SelfFiles(walk)| <= k < |targets| ==> !HasPath(targets[..k], targets[k].path)
  {
    var selfs := [];
    var i := 0;
    while i < |walk|
      invariant 0 <= i <= |walk|
      invariant selfs == SelfFiles(walk[..i])
    {
      assert walk[..i + 1][..i] == walk[..i];
      if !IsBackupName(walk[i].name) && IsSelfFile(walk[i]) {
        selfs := selfs + [walk[i]];
      }
      i := i + 1;
    }
    assert walk[..|walk|] == walk;
    targets := AddLibcFiles(walk, selfs);
  }

  /** The second walk of directory mode: append every `libc.prx` of the walk whose
      path is not yet among `found`, in walk order. */
  method AddLibcFiles(walk: seq<FileEntry>, found: seq<FileEntry>) returns (targets: seq<FileEntry>)
    requires forall t :: t in found ==> t in walk && IsSelfFile(t)
    ensures |found| <= |targets| && targets[..|found|] == found
    ensures targets == found + NewLibcFiles(walk, found)
    ensures forall t :: t in targets ==> t in walk && (IsSelfFile(t) || IsLibcPrx(t))
    ensures forall f :: f in found || (f in walk && IsLibcPrx(f)) ==> HasPath(targets, f.path)
    ensures forall k :: |found| <= k < |targets| ==> !HasPath(targets[..k], targets[k].path)
  {
    targets := found;
    var i := 0;
    while i < |walk|
      invariant 0 <= i <= |walk|
      invariant targets == found + NewLibcFiles(walk[..i], found)
    {
      var f := walk[i];
      assert walk[..i + 1][..i] == walk[..i];
      if IsLibcPrx(f) && !HasPath(targets, f.path) {
        targets := targets + [f];
      }
      i := i + 1;
    }
    assert walk[..|walk|] == walk;
    NewLibcFilesFromWalk(walk, found);
    NewLibcFilesCover(walk, found);
    NewLibcFilesNoRepeat(walk, found);
    assert targets[..|found|] == found;
    forall f | f in found ensures HasPath(targets, f.path) {
      assert f in targets;
    }
  }

  /** Every file the second walk appends is a `libc.prx` of the walk. */
  lemma {:induction false} NewLibcFilesFromWalk(walk: seq<FileEntry>, found: seq<FileEntry>)
    ensures forall t :: t in NewLibcFiles(walk, found) ==> t in walk && IsLibcPrx(t)
    decreases |walk|
  {
    if walk != [] {
      var n := |walk| - 1;
      NewLibcFilesFromWalk(walk[..n], found);
      assert walk == walk[..n] + [walk[n]];
    }
  }

  /** After the second walk, the path of every `libc.prx` of the walk is listed. */
  lemma {:induction false} NewLibcFilesCover(walk: seq<FileEntry>, found: seq<FileEntry>)
    ensures forall f :: f in walk && IsLibcPrx(f) ==> HasPath(found + NewLibcFiles(walk, found), f.path)
    decreases |walk|
  {
    if walk != [] {
      var n := |walk| - 1;
      var prev := NewLibcFiles(walk[..n], found);
      var last := walk[n];
      var ts := found + NewLibcFiles(walk, found);
      NewLibcFilesCover(walk[..n], found);
      assert walk == walk[..n] + [last];
      assert ts == (found + prev) + (if IsLibcPrx(last) && !HasPath(found + prev, last.path) then [last] else []);
      forall f | f in walk && IsLibcPrx(f) ensures HasPath(ts, f.path) {
        if f in walk[..n] || HasPath(found + prev, f.path) {
          assert HasPath(found + prev, f.path);
          var t :| t in found + prev && t.path == f.path;
          assert t in ts;
        } else {
          assert f == last;
          assert last in ts;
        }
      }
    }
  }

  /** The second walk never appends a path that is already listed. */
  lemma {:induction false} NewLibcFilesNoRepeat(walk: seq<FileEntry>, found: seq<FileEntry>)
    ensures forall k :: |found| <= k < |found + NewLibcFiles(walk, found)| ==>
      !HasPath((found + NewLibcFiles(walk, found))[..k], (found + NewLibcFiles(walk, found))[k].path)
    decreases |walk|
  {
    if walk != [] {
      var n := |walk| - 1;
      var prev := NewLibcFiles(walk[..n], found);
      var last := walk[n];
      NewLibcFilesNoRepeat(walk[..n], found);
      if IsLibcPrx(last) && !HasPath(found + prev, last.path) {
        AppendKeepsPaths(found + prev, last, |found|);
        assert found + NewLibcFiles(walk, found) == (found + prev) + [last];
      } else {
        assert found + NewLibcFiles(walk, found) == found + prev;
      }
    }
  }

  lemma AppendKeepsPaths(ts: seq<FileEntry>, f: FileEntry, n: nat)
    requires n <= |ts|
    requires !HasPath(ts, f.path)
    requires forall k :: n <= k < |ts| ==> !HasPath(ts[..k], ts[k].path)
    ensures (ts + [f])[..n] == ts[..n]
    ensures forall t :: t in ts ==> t in ts + [f]
    ensures forall k :: n <= k < |ts + [f]| ==> !HasPath((ts + [f])[..k], (ts + [f])[k].path)
  {
    forall k | n <= k < |ts + [f]|
      ensures !HasPath((ts + [f])[..k], (ts + [f])[k].path)
    {
      if k < |ts| {
        assert (ts + [f])[..k] == ts[..k];
      } else {
        assert (ts + [f])[..k] == ts;
      }
    }
  }

  /** Single-file mode: the file is checked when it is a SELF container or its name
      contains `libc` in any case; any other file is still tried, but only in verbose
      mode (the warning and the append share one branch). */
  function SelectedAsSingleFile(f: FileEntry, verbose: bool): (selected: bool)
    ensures verbose ==> selected
    ensures !verbose ==> (selected <==> IsSelfFile(f) || Contains(Lower(f.name), "libc"))
  {
    IsSelfFile(f) || Contains(Lower(f.name), "libc") || verbose
  }
}
