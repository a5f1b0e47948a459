/** The libc.prx byte-pattern toggle: applying swaps every occurrence of a 15-byte
    search pattern for a 15-byte replacement, reverting swaps them back, and a status
    check sorts a file by which of the two patterns it holds. */
module LibcPatch {
  import opened Wrappers
  import opened Seqs

  /** "4h6F1LLbTiw#A#B", present in an unpatched libc.prx. */
  const Pattern: seq<bv8> :=
    [0x34, 0x68, 0x36, 0x46, 0x31, 0x4C, 0x4C, 0x62, 0x54, 0x69, 0x77, 0x23, 0x41, 0x23, 0x42]
  /** "IWIBBdTHit4#A#B", present once the patch is applied. */
  const Replacement: seq<bv8> :=
    [0x49, 0x57, 0x49, 0x42, 0x42, 0x64, 0x54, 0x48, 0x69, 0x74, 0x34, 0x23, 0x41, 0x23, 0x42]

  /** Per-file result of a toggle. Apply reports them as applied, already_patched,
      pattern_not_found and failed; revert as reverted, already_original,
      patch_not_found and failed. */
  datatype Status = Changed | AlreadyPresent | SearchAbsent | Failed

  /** The status of one file and the bytes it holds afterwards. */
  datatype Outcome = Outcome(status: Status, content: seq<bv8>)

  /** The decision made for one file's bytes: leave them when the search pattern is
      absent or the other pattern is already there; otherwise replace every
      occurrence, write, read back and keep the result only if the search pattern is
      gone and the other pattern present. On a failed check the original bytes come
      back only when a backup was made. */
  function Toggle(content: seq<bv8>, search: seq<bv8>, replacement: seq<bv8>, backup: bool): (o: Outcome)
    ensures o.status == SearchAbsent <==> !Contains(content, search)
    ensures o.status == AlreadyPresent <==> Contains(content, search) && Contains(content, replacement)
    ensures o.status in {SearchAbsent, AlreadyPresent} ==> o.content == content
    ensures o.status == Changed ==>
      o.content == ReplaceAll(content, search, replacement) &&
      !Contains(o.content, search) && Contains(o.content, replacement)
    ensures o.status == Failed ==>
      o.content == (if backup then content else ReplaceAll(content, search, replacement)) &&
      (Contains(ReplaceAll(content, search, replacement), search) ||
       !Contains(ReplaceAll(content, search, replacement), replacement))
    ensures |search| == |replacement| ==> |o.content| == |content|
  {
    if !Contains(content, search) then Outcome(SearchAbsent, content)
    else if Contains(content, replacement) then Outcome(AlreadyPresent, content)
    else
      var written := ReplaceAll(content, search, replacement);
      if !Contains(written, search) && Contains(written, replacement) then Outcome(Changed, written)
      else Outcome(Failed, if backup then content else written)
  }

  /** `apply_libc_patch` on one file's bytes, with the default patterns: a file
      without the search pattern is not found, one holding both is already patched,
      and a file it changes ends in the patched group. */
  function Apply(content: seq<bv8>, backup: bool): (o: Outcome)
    ensures |o.content| == |content|
    ensures o.status == SearchAbsent <==> DefaultStatus(content) in {Patched, NoPattern}
    ensures o.status == AlreadyPresent <==> DefaultStatus(content) == BothPatterns
    ensures o.status == Changed ==> DefaultStatus(o.content) == Patched
  {
    Toggle(content, Pattern, Replacement, backup)
  }

  /** `revert_libc_patch` on one file's bytes: the same toggle with the patterns
      swapped, so a file without the patch is already original, and a file it
      changes ends in the original group. */
  function Revert(content: seq<bv8>, backup: bool): (o: Outcome)
    ensures |o.content| == |content|
    ensures o.status == SearchAbsent <==> DefaultStatus(content) in {Original, NoPattern}
    ensures o.status == AlreadyPresent <==> DefaultStatus(content) == BothPatterns
    ensures o.status == Changed ==> DefaultStatus(o.content) == Original
  {
    Toggle(content, Replacement, Pattern, backup)
  }

  /** The four groups of the status check. */
  datatype Bucket = Original | Patched | BothPatterns | NoPattern

  /** `check_libc_patch_status` on one file's bytes. */
  function StatusOf(content: seq<bv8>, search: seq<bv8>, patch: seq<bv8>): (b: Bucket)
    ensures b == Original <==> Contains(content, search) && !Contains(content, patch)
    ensures b == Patched <==> !Contains(content, search) && Contains(content, patch)
    ensures b == BothPatterns <==> Contains(content, search) && Contains(content, patch)
    ensures b == NoPattern <==> !Contains(content, search) && !Contains(content, patch)
  {
    var hasOriginal := Contains(content, search);
    var hasPatch := Contains(content, patch);
    if hasOriginal && !hasPatch then Original
    else if hasPatch && !hasOriginal then Patched
    else if hasOriginal && hasPatch then BothPatterns
    else NoPattern
  }

  /** The status check with the default patterns. */
  function DefaultStatus(content: seq<bv8>): Bucket
  {
    StatusOf(content, Pattern, Replacement)
  }

  lemma PatternHasNoBorder()
    ensures NoBorder(Pattern)
  {
    forall k | 0 < k < |Pattern| ensures Pattern[k..] != Pattern[..|Pattern| - k] {
      if k == 1 { assert Pattern[k..][0] != Pattern[..15 - k][0];
      } else if k == 2 { assert Pattern[k..][0] != Pattern[..15 - k][0];
      } else if k == 3 { assert Pattern[k..][0] != Pattern[..15 - k][0];
      } else if k == 4 { assert Pattern[k..][0] != Pattern[..15 - k][0];
      } else if k == 5 { assert Pattern[k..][0] != Pattern[..15 - k][0];
      } else if k == 6 { assert Pattern[k..][0] != Pattern[..15 - k][0];
      } else if k == 7 { assert Pattern[k..][0] != Pattern[..15 - k][0];
      } else if k == 8 { assert Pattern[k..][0] != Pattern[..15 - k][0];
      } else if k == 9 { assert Pattern[k..][0] != Pattern[..15 - k][0];
      } else if k == 10 { assert Pattern[k..][0] != Pattern[..15 - k][0];
      } else if k == 11 { assert Pattern[k..][0] != Pattern[..15 - k][0];
      } else if k == 12 { assert Pattern[k..][0] != Pattern[..15 - k][0];
      } else if k == 13 { assert Pattern[k..][0] != Pattern[..15 - k][0];
      } else if k == 14 { assert Pattern[k..][0] != Pattern[..15 - k][0];
      }
    }
  }

  lemma ReplacementHasNoBorder()
    ensures NoBorder(Replacement)
  {
    forall k | 0 < k < |Replacement| ensures Replacement[k..] != Replacement[..|Replacement| - k] {
      if k == 1 { assert Replacement[k..][0] != Replacement[..15 - k][0];
      } else if k == 2 { assert Replacement[k..][1] != Replacement[..15 - k][1];
      } else if k == 3 { assert Replacement[k..][0] != Replacement[..15 - k][0];
      } else if k == 4 { assert Replacement[k..][0] != Replacement[..15 - k][0];
      } else if k == 5 { assert Replacement[k..][0] != Replacement[..15 - k][0];
      } else if k == 6 { assert Replacement[k..][0] != Replacement[..15 - k][0];
      } else if k == 7 { assert Replacement[k..][0] != Replacement[..15 - k][0];
      } else if k == 8 { assert Replacement[k..][0] != Replacement[..15 - k][0];
      } else if k == 9 { assert Replacement[k..][0] != Replacement[..15 - k][0];
      } else if k == 10 { assert Replacement[k..][0] != Replacement[..15 - k][0];
      } else if k == 11 { assert Replacement[k..][0] != Replacement[..15 - k][0];
      } else if k == 12 { assert Replacement[k..][0] != Replacement[..15 - k][0];
      } else if k == 13 { assert Replacement[k..][0] != Replacement[..15 - k][0];
      } else if k == 14 { assert Replacement[k..][0] != Replacement[..15 - k][0];
      }
    }
  }

  /** No suffix of the replacement, the whole replacement included, begins the pattern. */
  lemma ReplacementSuffixNotPatternPrefix()
    ensures forall k :: 0 <= k < |Replacement| ==> Replacement[k..] != Pattern[..|Pattern| - k]
  {
    forall k | 0 <= k < |Replacement| ensures Replacement[k..] != Pattern[..|Pattern| - k] {
      if k == 0 { assert Replacement[k..][0] != Pattern[..15 - k][0];
      } else if k == 1 { assert Replacement[k..][0] != Pattern[..15 - k][0];
      } else if k == 2 { assert Replacement[k..][0] != Pattern[..15 - k][0];
      } else if k == 3 { assert Replacement[k..][0] != Pattern[..15 - k][0];
      } else if k == 4 { assert Replacement[k..][0] != Pattern[..15 - k][0];
      } else if k == 5 { assert Replacement[k..][0] != Pattern[..15 - k][0];
      } else if k == 6 { assert Replacement[k..][0] != Pattern[..15 - k][0];
      } else if k == 7 { assert Replacement[k..][0] != Pattern[..15 - k][0];
      } else if k == 8 { assert Replacement[k..][0] != Pattern[..15 - k][0];
      } else if k == 9 { assert Replacement[k..][0] != Pattern[..15 - k][0];
      } else if k == 10 { assert Replacement[k..][1] != Pattern[..15 - k][1];
      } else if k == 11 { assert Replacement[k..][0] != Pattern[..15 - k][0];
      } else if k == 12 { assert Replacement[k..][0] != Pattern[..15 - k][0];
      } else if k == 13 { assert Replacement[k..][0] != Pattern[..15 - k][0];
      } else if k == 14 { assert Replacement[k..][0] != Pattern[..15 - k][0];
      }
    }
  }

  /** No suffix of the pattern, the whole pattern included, begins the replacement. */
  lemma PatternSuffixNotReplacementPrefix()
    ensures forall k :: 0 <= k < |Pattern| ==> Pattern[k..] != Replacement[..|Replacement| - k]
  {
    forall k | 0 <= k < |Pattern| ensures Pattern[k..] != Replacement[..|Replacement| - k] {
      if k == 0 { assert Pattern[k..][0] != Replacement[..15 - k][0];
      } else if k == 1 { assert Pattern[k..][0] != Replacement[..15 - k][0];
      } else if k == 2 { assert Pattern[k..][0] != Replacement[..15 - k][0];
      } else if k == 3 { assert Pattern[k..][0] != Replacement[..15 - k][0];
      } else if k == 4 { assert Pattern[k..][0] != Replacement[..15 - k][0];
      } else if k == 5 { assert Pattern[k..][0] != Replacement[..15 - k][0];
      } else if k == 6 { assert Pattern[k..][0] != Replacement[..15 - k][0];
      } else if k == 7 { assert Pattern[k..][0] != Replacement[..15 - k][0];
      } else if k == 8 { assert Pattern[k..][0] != Replacement[..15 - k][0];
      } else if k == 9 { assert Pattern[k..][0] != Replacement[..15 - k][0];
      } else if k == 10 { assert Pattern[k..][0] != Replacement[..15 - k][0];
      } else if k == 11 { assert Pattern[k..][0] != Replacement[..15 - k][0];
      } else if k == 12 { assert Pattern[k..][0] != Replacement[..15 - k][0];
      } else if k == 13 { assert Pattern[k..][0] != Replacement[..15 - k][0];
      } else if k == 14 { assert Pattern[k..][0] != Replacement[..15 - k][0];
      }
    }
  }

  /** The two default patterns have equal length, neither has a border, and
      replacing either by the other can never recreate the one replaced. */
  lemma DefaultPatternsSafe()
    ensures |Pattern| == |Replacement| == 15
    ensures NoBorder(Pattern) && NoBorder(Replacement)
    ensures NoOverlap(Pattern, Replacement) && NoOverlap(Replacement, Pattern)
  {
    PatternHasNoBorder();
    ReplacementHasNoBorder();
    ReplacementSuffixNotPatternPrefix();
    PatternSuffixNotReplacementPrefix();
  }

  /** With the default patterns the read-back check after apply always passes:
      apply never reports a failure. */
  lemma ApplyNeverFails(content: seq<bv8>, backup: bool)
    ensures Apply(content, backup).status != Failed
  {
    DefaultPatternsSafe();
    if Contains(content, Pattern) && !Contains(content, Replacement) {
      ReplaceRemoves(content, Pattern, Replacement);
      ReplaceIntroduces(content, Pattern, Replacement);
    }
  }

  /** With the default patterns revert never reports a failure either. */
  lemma RevertNeverFails(content: seq<bv8>, backup: bool)
    ensures Revert(content, backup).status != Failed
  {
    DefaultPatternsSafe();
    if Contains(content, Replacement) && !Contains(content, Pattern) {
      ReplaceRemoves(content, Replacement, Pattern);
      ReplaceIntroduces(content, Replacement, Pattern);
    }
  }

  /** What apply does to each group of the status check: an original file becomes
      patched; every other file is left alone and reported as already patched
      (both patterns) or pattern not found (search pattern absent). */
  lemma ApplyByStatus(content: seq<bv8>, backup: bool)
    ensures DefaultStatus(content) == Original ==>
      Apply(content, backup).status == Changed && DefaultStatus(Apply(content, backup).content) == Patched
    ensures DefaultStatus(content) == BothPatterns ==>
      Apply(content, backup) == Outcome(AlreadyPresent, content)
    ensures DefaultStatus(content) in {Patched, NoPattern} ==>
      Apply(content, backup) == Outcome(SearchAbsent, content)
  {
    ApplyNeverFails(content, backup);
  }

  /** What revert does to each group: a patched file becomes original; every other
      file is left alone. */
  lemma RevertByStatus(content: seq<bv8>, backup: bool)
    ensures DefaultStatus(content) == Patched ==>
      Revert(content, backup).status == Changed && DefaultStatus(Revert(content, backup).content) == Original
    ensures DefaultStatus(content) == BothPatterns ==>
      Revert(content, backup) == Outcome(AlreadyPresent, content)
    ensures DefaultStatus(content) in {Original, NoPattern} ==>
      Revert(content, backup) == Outcome(SearchAbsent, content)
  {
    RevertNeverFails(content, backup);
  }

  /** Reverting a file that apply has just patched restores its original bytes. */
  lemma RevertUndoesApply(content: seq<bv8>, backup1: bool, backup2: bool)
    requires DefaultStatus(content) == Original
    ensures Revert(Apply(content, backup1).content, backup2) == Outcome(Changed, content)
  {
    DefaultPatternsSafe();
    ApplyByStatus(content, backup1);
    var patched := Apply(content, backup1).content;
    RevertByStatus(patched, backup2);
    ReplaceRoundTrip(content, Pattern, Replacement);
  }

  /** Applying to a file that revert has just restored gives back the patched bytes. */
  lemma ApplyUndoesRevert(content: seq<bv8>, backup1: bool, backup2: bool)
    requires DefaultStatus(content) == Patched
    ensures Apply(Revert(content, backup1).content, backup2) == Outcome(Changed, content)
  {
    DefaultPatternsSafe();
    RevertByStatus(content, backup1);
    var restored := Revert(content, backup1).content;
    ApplyByStatus(restored, backup2);
    ReplaceRoundTrip(content, Replacement, Pattern);
  }

  /** A second apply changes nothing. */
  lemma ApplyIdempotent(content: seq<bv8>, backup1: bool, backup2: bool)
    ensures Apply(Apply(content, backup1).content, backup2).content == Apply(content, backup1).content
  {
    ApplyByStatus(content, backup1);
    ApplyByStatus(Apply(content, backup1).content, backup2);
  }

  /** What a file met in the walk holds after the toggle; a file that cannot be
      read stays unreadable. */
  function FileAfter(file: Option<seq<bv8>>, search: seq<bv8>, replacement: seq<bv8>, backup: bool): (r: Option<seq<bv8>>)
    ensures r.None? <==> file.None?
    ensures file.Some? && !Contains(file.value, search) ==> r == file
    ensures file.Some? && |search| == |replacement| ==> |r.value| == |file.value|
  {
    match file
    case None => None
    case Some(c) => Some(Toggle(c, search, replacement, backup).content)
  }

  /** The status a file contributes to the counters; a file that cannot be read
      counts as failed. */
  function FileStatus(file: Option<seq<bv8>>, search: seq<bv8>, replacement: seq<bv8>, backup: bool): (s: Status)
    ensures file.None? ==> s == Failed
    ensures file.Some? ==> (s == SearchAbsent <==> !Contains(file.value, search))
    ensures file.Some? ==>
      (s == AlreadyPresent <==> Contains(file.value, search) && Contains(file.value, replacement))
  {
    match file
    case None => Failed
    case Some(c) => Toggle(c, search, replacement, backup).status
  }

  /** The statuses of a list of files, in order. */
  function Statuses(files: seq<Option<seq<bv8>>>, search: seq<bv8>, replacement: seq<bv8>, backup: bool): (ss: seq<Status>)
    ensures |ss| == |files|
    ensures forall i :: 0 <= i < |files| ==> ss[i] == FileStatus(files[i], search, replacement, backup)
  {
    seq(|files|, i requires 0 <= i < |files| => FileStatus(files[i], search, replacement, backup))
  }

  /** How many entries of `ss` are `x`. Each module counts its own element type
      with a first-order function of this shape: a generic count over boxed
      elements makes the counting loops too costly for the solver. */
  function CountOf(ss: seq<Status>, x: Status): (n: nat)
    ensures n <= |ss|
    decreases |ss|
  {
    if ss == [] then 0
    else CountOf(ss[..|ss| - 1], x) + (if ss[|ss| - 1] == x then 1 else 0)
  }

  /** `CountOf` is the multiplicity of `x` in `ss`. */
  lemma {:induction false} CountOfIsMultiplicity(ss: seq<Status>, x: Status)
    ensures CountOf(ss, x) == multiset(ss)[x]
    decreases |ss|
  {
    if ss != [] {
      var n := |ss| - 1;
      CountOfIsMultiplicity(ss[..n], x);
      assert ss == ss[..n] + [ss[n]];
      assert multiset(ss) == multiset(ss[..n]) + multiset{ss[n]};
    }
  }

  /** Extending a prefix of statuses by one raises the count of that one status. */
  lemma CountOfSnoc(ss: seq<Status>, i: nat)
    requires i < |ss|
    ensures forall x :: CountOf(ss[..i + 1], x) == CountOf(ss[..i], x) + (if ss[i] == x then 1 else 0)
  {
    assert ss[..i + 1][..i] == ss[..i];
  }

  /** Every status falls in exactly one of the four counters. */
  lemma {:induction false} CountersCoverAll(ss: seq<Status>)
    ensures CountOf(ss, Changed) + CountOf(ss, AlreadyPresent) +
            CountOf(ss, SearchAbsent) + CountOf(ss, Failed) == |ss|
    decreases |ss|
  {
    if ss != [] {
      var n := |ss| - 1;
      CountersCoverAll(ss[..n]);
      assert CountOf(ss, Changed) == CountOf(ss[..n], Changed) + (if ss[n] == Changed then 1 else 0);
      assert CountOf(ss, AlreadyPresent) == CountOf(ss[..n], AlreadyPresent) + (if ss[n] == AlreadyPresent then 1 else 0);
      assert CountOf(ss, SearchAbsent) == CountOf(ss[..n], SearchAbsent) + (if ss[n] == SearchAbsent then 1 else 0);
      assert CountOf(ss, Failed) == CountOf(ss[..n], Failed) + (if ss[n] == Failed then 1 else 0);
    }
  }

  /** The counters of one apply or revert run. */
  class PatchRun {
    var changed: nat
    var alreadyPresent: nat
    var searchAbsent: nat
    var failed: nat

    constructor ()
      ensures changed == 0 && alreadyPresent == 0 && searchAbsent == 0 && failed == 0
    {
      changed, alreadyPresent, searchAbsent, failed := 0, 0, 0, 0;
    }

    /** The sum of all four counters. */
    function Total(): nat
      reads this
    {
      changed + alreadyPresent + searchAbsent + failed
    }

    /** The counter of status `x`. */
    function Counter(x: Status): nat
      reads this
    {
      match x
      case Changed => changed
      case AlreadyPresent => alreadyPresent
      case SearchAbsent => searchAbsent
      case Failed => failed
    }

    /** Count one file: exactly one counter goes up by one. */
    method Record(s: Status)
      modifies this
      ensures forall x :: Counter(x) == old(Counter(x)) + (if s == x then 1 else 0)
      ensures Total() == old(Total()) + 1
    {
      match s
      case Changed => changed := changed + 1;
      case AlreadyPresent => alreadyPresent := alreadyPresent + 1;
      case SearchAbsent => searchAbsent := searchAbsent + 1;
      case Failed => failed := failed + 1;
    }

    /** One file of the loop: toggle it, count it under its status and return what
        it holds afterwards. */
    method ProcessOne(file: Option<seq<bv8>>, search: seq<bv8>, replacement: seq<bv8>, backup: bool)
      returns (after: Option<seq<bv8>>)
      modifies this
      ensures after == FileAfter(file, search, replacement, backup)
      ensures forall x :: Counter(x) == old(Counter(x)) + (if FileStatus(file, search, replacement, backup) == x then 1 else 0)
      ensures Total() == old(Total()) + 1
    {
      Record(FileStatus(file, search, replacement, backup));
      after := FileAfter(file, search, replacement, backup);
    }

    /** The per-file loop: toggle every file in order, count each in the counter of
        its status and return what every file holds afterwards. */
    method ProcessFiles(files: seq<Option<seq<bv8>>>, search: seq<bv8>, replacement: seq<bv8>, backup: bool)
      returns (after: seq<Option<seq<bv8>>>)
      modifies this
      ensures |after| == |files|
      ensures forall i :: 0 <= i < |files| ==> after[i] == FileAfter(files[i], search, replacement, backup)
      ensures forall x :: Counter(x) == old(Counter(x)) + CountOf(Statuses(files, search, replacement, backup), x)
      ensures Total() == old(Total()) + |files|
    {
      after := [];
      ghost var ss := Statuses(files, search, replacement, backup);
      var i := 0;
      while i < |files|
        invariant 0 <= i <= |files|
        invariant |after| == i
        invariant forall j :: 0 <= j < i ==> after[j] == FileAfter(files[j], search, replacement, backup)
        invariant forall x :: Counter(x) == old(Counter(x)) + CountOf(ss[..i], x)
        invariant Total() == old(Total()) + i
      {
        label before:
        var a := ProcessOne(files[i], search, replacement, backup);
        forall x ensures Counter(x) == old(Counter(x)) + CountOf(ss[..i + 1], x) {
          CountOfSnoc(ss, i);
          assert Counter(x) == old@before(Counter(x)) + (if ss[i] == x then 1 else 0);
        }
        after := after + [a];
        i := i + 1;
      }
      assert ss[..|files|] == ss;
    }
  }
}
