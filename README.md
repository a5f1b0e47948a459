# PS5 backport tool: decision logic

`Backport.py` drives a PS5 homebrew backport workflow. It decrypts SELF
containers to ELF, downgrades the SDK version stamped in each ELF, fake-signs
the ELF files back to SELF, and then applies or reverts a byte patch in
`libc.prx`. The converters themselves live in modules this model does not
include. This project models the deterministic decisions `Backport.py` makes
around those calls, and proves properties about them:

- **Libc patch toggle** (`libc_patch.dfy`). Apply swaps every occurrence of
  the 15-byte pattern `4h6F1LLbTiw#A#B` for `IWIBBdTHit4#A#B`. Python's
  `bytes.replace` semantics are modelled exactly: leftmost, non-overlapping.
  Revert is the same toggle with the two patterns swapped.
  - Each file gets one status and its resulting bytes.
  - A class holds the four per-run counters.
  - For the two default patterns it is proved that:
    - the read-back check never fails;
    - revert undoes apply, and apply undoes revert;
    - apply is idempotent.
- **Status check** (`status_report.dfy`). Every file lands in exactly one of
  the lists original / patched / both / none / error.
- **File classification** (`file_kinds.dfy`).
  - ELF and SELF detection by the first four bytes, with `.bak` names refused.
  - The detection partition of the combined pipeline.
  - How the libc patch picks its target files, in directory mode and in
    single-file mode.
- **Directory pruning** (`dir_filter.dfy`). `_should_skip_dir` removes every
  entry equal to the skipped name, ignoring ASCII case, in place, and keeps the
  order of the others.
- **Pipeline gating** (`pipeline.dfy`).
  - Which libc action follows signing.
  - How the decrypt, downgrade and signing steps count each file.
  - A file whose downgrade failed is never signed, and counts as a signing
    failure.

`seqs.dfy` holds the generic sequence facts behind the toggle: `in`,
`bytes.replace`, and the no-overlap conditions under which replacing removes
every match and can be undone. `names.dfy` holds ASCII lower-casing and suffix
tests.

## Model

| member | source | states |
|---|---|---|
| Seqs.ContainsIff | Backport.py:360-362 | `Contains`, the model of Python's `in` on bytes, holds exactly when the pattern occurs at some index |
| Seqs.ReplaceAll | Backport.py:380 | a same-length replacement keeps the length; when the pattern is absent the bytes come back unchanged |
| Seqs.ReplaceIntroduces | Backport.py:380-391 | replacing a pattern that occurs leaves at least one copy of the replacement |
| Seqs.ReplaceRemoves | Backport.py:380-391 | when pattern and replacement cannot overlap, no copy of the pattern is left after replacing |
| Seqs.ReplaceRoundTrip | Backport.py:483-484 | when the replacement has no border and was absent, replacing back restores the input exactly |
| LibcPatch.Toggle | Backport.py:359-446 | search absent gives pattern-not-found; both patterns give already-patched; both leave the bytes unchanged. Otherwise every match is replaced, success requires the search gone and the replacement present, and on failure the bytes are restored only when a backup was made. Length is preserved |
| LibcPatch.Apply | Backport.py:359-446 | apply keeps the length; it reports pattern-not-found exactly for a patched or pattern-free file and already-patched exactly for a file holding both patterns; a file it changes ends in the patched group |
| LibcPatch.Revert | Backport.py:590-677 | revert keeps the length; it reports patch-not-found exactly for an original or pattern-free file and already-original exactly for a file holding both patterns; a file it changes ends in the original group |
| LibcPatch.StatusOf | Backport.py:815-844 | the four buckets, each as an if-and-only-if on which of the two patterns is present |
| LibcPatch.PatternHasNoBorder | Backport.py:48 | no proper suffix of the search pattern is a prefix of it |
| LibcPatch.ReplacementHasNoBorder | Backport.py:49 | no proper suffix of the replacement is a prefix of it |
| LibcPatch.ReplacementSuffixNotPatternPrefix | Backport.py:48-49 | no suffix of the replacement begins the search pattern |
| LibcPatch.PatternSuffixNotReplacementPrefix | Backport.py:48-49 | no suffix of the search pattern begins the replacement |
| LibcPatch.DefaultPatternsSafe | Backport.py:48-49 | both patterns are 15 bytes long, have no border and cannot overlap each other in either order |
| LibcPatch.ApplyNeverFails | Backport.py:387-414 | with the default patterns the read-back check of apply always passes |
| LibcPatch.RevertNeverFails | Backport.py:618-645 | with the default patterns the read-back check of revert always passes |
| LibcPatch.ApplyByStatus | Backport.py:359-446 | apply turns an original file into a patched one; it leaves a file with both patterns as already patched, and any other file as pattern-not-found, unchanged |
| LibcPatch.RevertByStatus | Backport.py:590-677 | revert turns a patched file into an original one; it leaves every other file unchanged with the matching status |
| LibcPatch.RevertUndoesApply | Backport.py:483-484 | reverting a freshly applied original file succeeds and restores its exact bytes |
| LibcPatch.ApplyUndoesRevert | Backport.py:483-484 | applying to a freshly reverted patched file succeeds and restores its exact bytes |
| LibcPatch.ApplyIdempotent | Backport.py:359-370 | a second apply leaves the bytes of the first apply unchanged |
| LibcPatch.FileAfter | Backport.py:343-463 | an unreadable file stays unreadable; a readable file without the search pattern is left as it is; with equal-length patterns a file keeps its length |
| LibcPatch.FileStatus | Backport.py:343-463 | an unreadable file counts as failed; a readable one counts as not found exactly when the search pattern is absent, and as already present exactly when both patterns are |
| LibcPatch.Statuses | Backport.py:343-463 | one status per file, in order; an unreadable file counts as failed |
| LibcPatch.CountOfIsMultiplicity | Backport.py:343-463 | the count used for every per-run counter is the multiplicity of the element in the list |
| LibcPatch.CountOfSnoc | Backport.py:343-463 | counting one more file raises the count of its own status only |
| LibcPatch.CountersCoverAll | Backport.py:343-463 | the four counters add up to the number of files |
| LibcPatch.PatchRun.Record | Backport.py:359-446 | counting one file raises the counter of its status by one and leaves the other three unchanged |
| LibcPatch.PatchRun.ProcessOne | Backport.py:359-463 | one file of the loop: the bytes returned are what the file holds after the toggle; the counter of its status rises by one and the other three stay |
| LibcPatch.PatchRun.ProcessFiles | Backport.py:343-463 | every file is toggled in order and its resulting bytes returned; each counter rises by the number of files with its status; the total rises by the number of files |
| StatusReport.GroupOf | Backport.py:810-856 | an unreadable file goes to the error list; a readable one goes to the bucket of its bytes for the given search and patch patterns |
| StatusReport.Report.Add | Backport.py:810-856 | one file's path is appended to the list of its group and to no other list |
| StatusReport.ListedInOwnGroup | Backport.py:828-844 | every file's path is listed in the list of its own group |
| StatusReport.GroupsCoverAll | Backport.py:801-856 | the five lists together hold one entry per file |
| StatusReport.Report.CheckAll | Backport.py:801-856 | each of the five lists grows by exactly the paths of the files in its group, in the order the files are checked |
| FileKinds.ReadMagic | Backport.py:81-82 | the magic read is the first four bytes, or the whole file when it is shorter |
| FileKinds.IsElfFile | Backport.py:75-85 | a file is ELF exactly when its name does not end in `.bak`, it is readable, and its first four of at least four bytes are `7F 45 4C 46` |
| FileKinds.IsSelfFile | Backport.py:87-97 | a file is SELF exactly when its name does not end in `.bak`, it is readable, and its first four of at least four bytes are one of the two SELF magics |
| FileKinds.IsLibcPrx | Backport.py:324-326 | a file is `libc.prx` exactly when its name equals `libc.prx` ignoring case; such a name has eight characters and never ends in `.bak` |
| FileKinds.NeverBoth | Backport.py:75-97 | no file is both ELF and SELF |
| FileKinds.BackupOrShortIsNeither | Backport.py:75-97 | a backup, an unreadable file or a file shorter than four bytes is neither ELF nor SELF |
| FileKinds.SelfFiles | Backport.py:1285-1287 | a file is among the SELF files of a walk exactly when it is in the walk and is SELF |
| FileKinds.ElfFiles | Backport.py:1288-1290 | a file is among the ELF files of a walk exactly when it is in the walk and is ELF |
| FileKinds.KindsPartition | Backport.py:1279-1291 | the SELF files, the ELF files and the other files of a walk add up to its non-backup files |
| FileKinds.DetectKinds | Backport.py:1276-1291 | the SELF and ELF lists are exactly the SELF and ELF files in walk order; the other count is the rest; the three add up to the number of non-backup files |
| FileKinds.CollectPatchTargets | Backport.py:309-327 | the targets are the SELF files in walk order followed by the `libc.prx` files of a second walk, again in walk order, each appended only when its path is not yet listed; so every SELF file and every `libc.prx` is listed, no later entry repeats a path, and no other file is listed |
| FileKinds.AddLibcFiles | Backport.py:319-327 | the second walk keeps the found list as a prefix and then appends, in walk order, exactly each `libc.prx` whose path is not listed yet; so every `libc.prx` is covered and no path is added twice |
| FileKinds.NewLibcFilesFromWalk | Backport.py:324-327 | every file the second walk appends is a `libc.prx` of the walk |
| FileKinds.NewLibcFilesCover | Backport.py:324-327 | after the second walk the path of every `libc.prx` of the walk is listed |
| FileKinds.NewLibcFilesNoRepeat | Backport.py:326-327 | the second walk never appends a path that is already listed |
| FileKinds.AppendKeepsPaths | Backport.py:326-327 | appending a file with a new path keeps the list free of repeated paths |
| FileKinds.SelectedAsSingleFile | Backport.py:299-306 | a single file is patched when it is SELF or its name contains `libc` in any case; in verbose mode any file is tried |
| DirFilter.Matching | Backport.py:101 | the collected names are exactly the entries equal to the skipped name ignoring case |
| DirFilter.RemoveFirst | Backport.py:103 | `list.remove` drops exactly one copy of the name: the list is one shorter and has one occurrence of the name fewer, every other element staying |
| DirFilter.Kept | Backport.py:99-103 | an entry survives exactly when it was present and does not equal the skipped name ignoring case |
| DirFilter.RemoveNextMatch | Backport.py:102-103 | removing the next collected name by value removes exactly the next matching entry |
| DirFilter.DropAllMatches | Backport.py:101-103 | once every collected name is removed, what is left is exactly the kept entries |
| DirFilter.KeptConcat | Backport.py:99-103 | pruning works piecewise, so the survivors keep their relative order |
| DirFilter.WalkStep.SkipDir | Backport.py:99-103 | the list afterwards is exactly the kept entries of the list before, in order |
| Pipeline.ChooseLibcAction | Backport.py:1146-1173 | apply exactly when enabled with SDK pair up to 6; revert exactly when enabled, the pair is above 6 and auto-revert is on; otherwise nothing |
| Pipeline.LibcStep | Backport.py:1146-1173 | a patch target (a signed SELF file or `libc.prx`) keeps its length; after an apply it never holds only the unpatched pattern, after a revert never only the patched one; with no action it is untouched |
| Pipeline.LibcStepResult | Backport.py:1146-1173 | a patch target (a signed SELF file or `libc.prx`) holding one pattern ends patched for a low pair and original for a high pair with auto-revert; otherwise it is untouched |
| Pipeline.HighSdkRunUndoesLowSdkRun | Backport.py:1146-1173 | a low-pair run followed by a high-pair run with auto-revert restores an unpatched file exactly |
| Pipeline.ConvertStep | Backport.py:1100-1126 | a file is skipped exactly when its output exists and overwrite is off; otherwise it is a success or a failure by the converter's result |
| Pipeline.DecryptStep | Backport.py:1330-1364 | a SELF file is skipped exactly when its output exists and overwrite is off; otherwise it is a success exactly when the converter succeeded; decrypting never reports an upstream skip |
| Pipeline.DowngradeStep | Backport.py:1030-1055 | the downgrade counts a success exactly when the patcher succeeded, and a failure otherwise |
| Pipeline.SignStep | Backport.py:1082-1092 | signing skips a file exactly when its downgrade failed; a signed file was downgraded; a downgraded file gets the converter step |
| Pipeline.StepsPartition | Backport.py:1078-1137 | every file of a step is counted in exactly one way |
| Pipeline.SignedAtMostDowngraded | Backport.py:1082-1092 | no more files are signed than were downgraded |
| Pipeline.DowngradeFailuresSkipSigning | Backport.py:1082-1092 | the files skipped by signing are exactly as many as the downgrade failures |
| Pipeline.Tally.Decrypt | Backport.py:1319-1364 | the decrypt tally rises by the successes and failures of the decrypt steps; a skipped file counts nowhere |
| Pipeline.DowngradeCountsEveryFile | Backport.py:1030-1055 | the downgrade counts every file once, as a success or a failure |
| Pipeline.Tally.Downgrade | Backport.py:1024-1055 | the downgrade tally rises by the successes and failures; together they rise by the number of files |
| Pipeline.Tally.SignOne | Backport.py:1082-1126 | the signer runs exactly for a downgraded file whose output is new or may be overwritten; a downgrade failure or a signer failure raises the failure count |
| Pipeline.Tally.Sign | Backport.py:1078-1137 | the signer runs exactly for downgraded files whose output is new or may be overwritten; the success and failure counts follow the sign steps, with downgrade failures counted as failures |
| Pipeline.DowngradeAndSign | Backport.py:1024-1137 | with fresh tallies, the downgrade counters are the successes and failures of the downgrade steps; signing successes are the signed files; signing failures are the downgrade failures plus the signer failures; hence signing successes never exceed downgrade successes |

## Left out

- The SELF/ELF converters and the SDK version patcher are not part of this
  model. What each call returns for a file is an input: the job records in
  `Pipeline`.
- Directory walks, path handling, `mkdir`, copies and `rmtree` are left out.
  A walk is given as the sequence of files it meets, each with its bytes or
  None when reading fails.
- The working-directory choice and the ELF copy step of
  `decrypt_and_sign_pipeline` are left out as filesystem work.
- Backup creation, restoration and cleanup are left out. Only their effect on
  a failed toggle is modelled: the original bytes come back exactly when a
  backup was made.
- An exception while writing the patched bytes is left out. The read-back is
  taken to return exactly the bytes written.
- The per-file `files` dictionaries, messages, colours and printing are left
  out.
- Fakelib copying, config persistence, timestamps, interactive prompts and
  argument parsing are left out.
- PAID/PType parsing and its range checks are left out. They depend on
  Python's `int(s, 0)` and on a converter method this model does not include.
- `decrypt_files` and `check_libc_patch_in_file` are left out. They repeat the
  classification and pattern tests modelled here on other call paths.
- The early returns taken when no file is found are left out.
- The `is_libc_file` flag of the status report is left out. It is display
  only.
- DirFilter.Kept: `str.lower` is modelled for ASCII letters only. Non-ASCII
  case folding is not captured.
- LibcPatch.PatchRun.ProcessFiles: files are processed in one pass over their
  bytes. Aliasing between two walk entries naming the same file is not
  captured.
