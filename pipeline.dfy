/** Step gating and per-step counters of the two batch pipelines: downgrade then
    fake-sign ELF files, optionally preceded by decrypting SELF files, and followed
    by applying or reverting the libc patch depending on the SDK pair. The
    converters themselves are not modelled: what each call returned for a file is
    part of that file's job record. */
module Pipeline {
  import opened LibcPatch

  /** What happens to the libc patch after signing. */
  datatype LibcAction = NoLibcAction | ApplyLibc | RevertLibc

  /** The patch is applied for SDK pairs up to 6, reverted above 6 only when the
      automatic revert is on, and left alone when the patch step is switched off. */
  function ChooseLibcAction(enabled: bool, sdkPair: int, autoRevert: bool): (a: LibcAction)
    ensures a == ApplyLibc <==> enabled && sdkPair <= 6
    ensures a == RevertLibc <==> enabled && sdkPair > 6 && autoRevert
    ensures a == NoLibcAction <==> !enabled || (sdkPair > 6 && !autoRevert)
  {
    if !enabled then NoLibcAction
    else if sdkPair <= 6 then ApplyLibc
    else if autoRevert then RevertLibc
    else NoLibcAction
  }

  /** The bytes of one patch target after the libc step: a signed SELF file or
      `libc.prx`, as the directory walk of the patch collects them. The pipelines
      never make a backup for it. After an apply no target is left holding only
      the unpatched pattern, and after a revert none holds only the patched one. */
  function LibcStep(a: LibcAction, content: seq<bv8>): (r: seq<bv8>)
    ensures |r| == |content|
    ensures a == ApplyLibc ==> DefaultStatus(r) != Original
    ensures a == RevertLibc ==> DefaultStatus(r) != Patched
    ensures a == NoLibcAction ==> r == content
  {
    match a
    case NoLibcAction => content
    case ApplyLibc => ApplyByStatus(content, false); Apply(content, false).content
    case RevertLibc => RevertByStatus(content, false); Revert(content, false).content
  }

  /** A patch target holding exactly one of the two patterns ends patched for a low SDK pair,
      original for a high one with automatic revert, and untouched otherwise. */
  lemma LibcStepResult(enabled: bool, sdkPair: int, autoRevert: bool, content: seq<bv8>)
    requires DefaultStatus(content) in {Original, Patched}
    ensures enabled && sdkPair <= 6 ==>
      DefaultStatus(LibcStep(ChooseLibcAction(enabled, sdkPair, autoRevert), content)) == Patched
    ensures enabled && sdkPair > 6 && autoRevert ==>
      DefaultStatus(LibcStep(ChooseLibcAction(enabled, sdkPair, autoRevert), content)) == Original
    ensures !enabled || (sdkPair > 6 && !autoRevert) ==>
      LibcStep(ChooseLibcAction(enabled, sdkPair, autoRevert), content) == content
  {
    ApplyByStatus(content, false);
    RevertByStatus(content, false);
  }

  /** Running the pipeline on an unpatched file with a low SDK pair and then again
      with a high SDK pair and automatic revert gives back the original bytes. */
  lemma HighSdkRunUndoesLowSdkRun(content: seq<bv8>, low: int, high: int, autoRevert: bool)
    requires DefaultStatus(content) == Original
    requires low <= 6 < high
    ensures LibcStep(ChooseLibcAction(true, high, true), LibcStep(ChooseLibcAction(true, low, autoRevert), content)) == content
  {
    RevertUndoesApply(content, false, false);
  }

  /** What one file contributes to a step. */
  datatype FileStep = Converted | ConvertFailed | SkippedExisting | SkippedUpstream

  /** One converter call (decrypt or sign): skipped when the output exists and
      overwriting is off, otherwise the converter's verdict; an exception counts as
      a failure like a false result. */
  function ConvertStep(outputExists: bool, overwrite: bool, converterOk: bool): (s: FileStep)
    ensures s == SkippedExisting <==> outputExists && !overwrite
    ensures s == Converted <==> (!outputExists || overwrite) && converterOk
    ensures s == ConvertFailed <==> (!outputExists || overwrite) && !converterOk
    ensures s != SkippedUpstream
  {
    if outputExists && !overwrite then SkippedExisting
    else if converterOk then Converted
    else ConvertFailed
  }

  /** A SELF file to decrypt: whether its output already exists and what the
      decrypting converter returned for it. */
  datatype SelfJob = SelfJob(outputExists: bool, decryptOk: bool)

  /** An ELF file to downgrade and sign: what the SDK patcher returned for it,
      whether its signed output already exists and what the signer returned. */
  datatype ElfJob = ElfJob(downgradeOk: bool, outputExists: bool, signerOk: bool)

  /** Decrypting one SELF file is a converter call gated on its output. */
  function DecryptStep(job: SelfJob, overwrite: bool): (s: FileStep)
    ensures s == SkippedExisting <==> job.outputExists && !overwrite
    ensures s == Converted <==> (!job.outputExists || overwrite) && job.decryptOk
    ensures s == ConvertFailed <==> (!job.outputExists || overwrite) && !job.decryptOk
    ensures s != SkippedUpstream
  {
    ConvertStep(job.outputExists, overwrite, job.decryptOk)
  }

  /** The downgrade step neither skips nor checks the output: it succeeds or fails. */
  function DowngradeStep(job: ElfJob): (s: FileStep)
    ensures s == Converted <==> job.downgradeOk
    ensures s == ConvertFailed <==> !job.downgradeOk
  {
    if job.downgradeOk then Converted else ConvertFailed
  }

  /** Signing skips a file whose downgrade did not succeed before anything else. */
  function SignStep(job: ElfJob, overwrite: bool): (s: FileStep)
    ensures s == SkippedUpstream <==> !job.downgradeOk
    ensures s == Converted ==> job.downgradeOk && job.signerOk
    ensures job.downgradeOk ==> s == ConvertStep(job.outputExists, overwrite, job.signerOk)
  {
    if !job.downgradeOk then SkippedUpstream
    else ConvertStep(job.outputExists, overwrite, job.signerOk)
  }

  function DecryptSteps(jobs: seq<SelfJob>, overwrite: bool): (ss: seq<FileStep>)
    ensures |ss| == |jobs|
    ensures forall i :: 0 <= i < |jobs| ==> ss[i] == DecryptStep(jobs[i], overwrite)
  {
    seq(|jobs|, i requires 0 <= i < |jobs| => DecryptStep(jobs[i], overwrite))
  }

  function DowngradeSteps(jobs: seq<ElfJob>): (ss: seq<FileStep>)
    ensures |ss| == |jobs|
    ensures forall i :: 0 <= i < |jobs| ==> ss[i] == DowngradeStep(jobs[i])
  {
    seq(|jobs|, i requires 0 <= i < |jobs| => DowngradeStep(jobs[i]))
  }

  function SignSteps(jobs: seq<ElfJob>, overwrite: bool): (ss: seq<FileStep>)
    ensures |ss| == |jobs|
    ensures forall i :: 0 <= i < |jobs| ==> ss[i] == SignStep(jobs[i], overwrite)
  {
    seq(|jobs|, i requires 0 <= i < |jobs| => SignStep(jobs[i], overwrite))
  }

  /** How many entries of `ss` are `x`. The same first-order shape as the status
      count of the libc patch, over this module's own element type: a generic
      count over boxed elements makes the counting loops too costly. */
  function Count(ss: seq<FileStep>, x: FileStep): (n: nat)
    ensures n <= |ss|
    decreases |ss|
  {
    if ss == [] then 0
    else Count(ss[..|ss| - 1], x) + (if ss[|ss| - 1] == x then 1 else 0)
  }

  /** Extending a prefix of steps by one raises the count of that one step. */
  lemma CountStep(ss: seq<FileStep>, i: nat)
    requires i < |ss|
    ensures forall x :: Count(ss[..i + 1], x) == Count(ss[..i], x) + (if ss[i] == x then 1 else 0)
  {
    assert ss[..i + 1][..i] == ss[..i];
  }

  /** Every file of a step is counted in exactly one way. */
  lemma {:induction false} StepsPartition(ss: seq<FileStep>)
    ensures Count(ss, Converted) + Count(ss, ConvertFailed) +
            Count(ss, SkippedExisting) + Count(ss, SkippedUpstream) == |ss|
    decreases |ss|
  {
    if ss != [] {
      var n := |ss| - 1;
      StepsPartition(ss[..n]);
      assert Count(ss, Converted) == Count(ss[..n], Converted) + (if ss[n] == Converted then 1 else 0);
      assert Count(ss, ConvertFailed) == Count(ss[..n], ConvertFailed) + (if ss[n] == ConvertFailed then 1 else 0);
      assert Count(ss, SkippedExisting) == Count(ss[..n], SkippedExisting) + (if ss[n] == SkippedExisting then 1 else 0);
      assert Count(ss, SkippedUpstream) == Count(ss[..n], SkippedUpstream) + (if ss[n] == SkippedUpstream then 1 else 0);
    }
  }

  /** The downgrade counts every file, as a success or as a failure. */
  lemma {:induction false} DowngradeCountsEveryFile(jobs: seq<ElfJob>)
    ensures Count(DowngradeSteps(jobs), Converted) + Count(DowngradeSteps(jobs), ConvertFailed) == |jobs|
    decreases |jobs|
  {
    if jobs != [] {
      var n := |jobs| - 1;
      DowngradeCountsEveryFile(jobs[..n]);
      assert DowngradeSteps(jobs)[..n] == DowngradeSteps(jobs[..n]);
    }
  }

  /** Signing succeeds for no more files than the downgrade did. */
  lemma {:induction false} SignedAtMostDowngraded(jobs: seq<ElfJob>, overwrite: bool)
    ensures Count(SignSteps(jobs, overwrite), Converted) <= Count(DowngradeSteps(jobs), Converted)
    decreases |jobs|
  {
    if jobs != [] {
      var n := |jobs| - 1;
      SignedAtMostDowngraded(jobs[..n], overwrite);
      assert SignSteps(jobs, overwrite)[..n] == SignSteps(jobs[..n], overwrite);
      assert DowngradeSteps(jobs)[..n] == DowngradeSteps(jobs[..n]);
    }
  }

  /** Every file whose downgrade failed is skipped by signing, and signing skips for
      that reason no other file. */
  lemma {:induction false} DowngradeFailuresSkipSigning(jobs: seq<ElfJob>, overwrite: bool)
    ensures Count(SignSteps(jobs, overwrite), SkippedUpstream) == Count(DowngradeSteps(jobs), ConvertFailed)
    decreases |jobs|
  {
    if jobs != [] {
      var n := |jobs| - 1;
      DowngradeFailuresSkipSigning(jobs[..n], overwrite);
      assert SignSteps(jobs, overwrite)[..n] == SignSteps(jobs[..n], overwrite);
      assert DowngradeSteps(jobs)[..n] == DowngradeSteps(jobs[..n]);
    }
  }

  /** The `successful` and `failed` counters of one step (decrypt, downgrade or
      signing) of a run. */
  class Tally {
    var successful: nat
    var failed: nat

    constructor ()
      ensures successful == 0 && failed == 0
    {
      successful, failed := 0, 0;
    }

    /** Decrypt every SELF file in order; a skipped file is counted nowhere. */
    method Decrypt(jobs: seq<SelfJob>, overwrite: bool) returns (steps: seq<FileStep>)
      modifies this
      ensures steps == DecryptSteps(jobs, overwrite)
      ensures successful == old(successful) + Count(steps, Converted)
      ensures failed == old(failed) + Count(steps, ConvertFailed)
    {
      steps := [];
      ghost var ss := DecryptSteps(jobs, overwrite);
      var i := 0;
      while i < |jobs|
        invariant 0 <= i <= |jobs|
        invariant steps == ss[..i]
        invariant successful == old(successful) + Count(steps, Converted)
        invariant failed == old(failed) + Count(steps, ConvertFailed)
      {
        var job := jobs[i];
        var s: FileStep;
        if job.outputExists && !overwrite {
          s := SkippedExisting;
        } else if job.decryptOk {
          s := Converted;
          successful := successful + 1;
        } else {
          s := ConvertFailed;
          failed := failed + 1;
        }
        CountStep(ss, i);
        assert ss[..i + 1] == steps + [s];
        steps := steps + [s];
        i := i + 1;
      }
      assert ss[..|jobs|] == ss;
    }

    /** Downgrade every ELF file in order; each is counted as a success or a failure. */
    method Downgrade(jobs: seq<ElfJob>) returns (steps: seq<FileStep>)
      modifies this
      ensures steps == DowngradeSteps(jobs)
      ensures successful == old(successful) + Count(steps, Converted)
      ensures failed == old(failed) + Count(steps, ConvertFailed)
      ensures successful + failed == old(successful) + old(failed) + |jobs|
    {
      steps := [];
      ghost var ss := DowngradeSteps(jobs);
      var i := 0;
      while i < |jobs|
        invariant 0 <= i <= |jobs|
        invariant steps == ss[..i]
        invariant successful == old(successful) + Count(steps, Converted)
        invariant failed == old(failed) + Count(steps, ConvertFailed)
      {
        var s: FileStep;
        if jobs[i].downgradeOk {
          s := Converted;
          successful := successful + 1;
        } else {
          s := ConvertFailed;
          failed := failed + 1;
        }
        CountStep(ss, i);
        assert ss[..i + 1] == steps + [s];
        steps := steps + [s];
        i := i + 1;
      }
      assert ss[..|jobs|] == ss;
      DowngradeCountsEveryFile(jobs);
    }

    /** Sign one ELF file: returns whether the signer was run. */
    method SignOne(job: ElfJob, overwrite: bool) returns (run: bool)
      modifies this
      ensures run <==> job.downgradeOk && (!job.outputExists || overwrite)
      ensures successful == old(successful) + (if SignStep(job, overwrite) == Converted then 1 else 0)
      ensures failed == old(failed) + (if SignStep(job, overwrite) in {ConvertFailed, SkippedUpstream} then 1 else 0)
    {
      if !job.downgradeOk {
        failed := failed + 1;
        run := false;
      } else if job.outputExists && !overwrite {
        run := false;
      } else {
        if job.signerOk {
          successful := successful + 1;
        } else {
          failed := failed + 1;
        }
        run := true;
      }
    }

    /** Sign every ELF file in order. A file whose downgrade failed is not signed and
        counts as a signing failure; a file whose output exists is skipped uncounted
        unless overwriting. The result says, per file, whether the signer was run. */
    method Sign(jobs: seq<ElfJob>, overwrite: bool) returns (signerRun: seq<bool>)
      modifies this
      ensures |signerRun| == |jobs|
      ensures forall i :: 0 <= i < |jobs| ==>
        (signerRun[i] <==> jobs[i].downgradeOk && (!jobs[i].outputExists || overwrite))
      ensures successful == old(successful) + Count(SignSteps(jobs, overwrite), Converted)
      ensures failed == old(failed) + Count(SignSteps(jobs, overwrite), ConvertFailed)
                                    + Count(SignSteps(jobs, overwrite), SkippedUpstream)
    {
      signerRun := [];
      ghost var ss := SignSteps(jobs, overwrite);
      var i := 0;
      while i < |jobs|
        invariant 0 <= i <= |jobs|
        invariant |signerRun| == i
        invariant forall j :: 0 <= j < i ==>
          (signerRun[j] <==> jobs[j].downgradeOk && (!jobs[j].outputExists || overwrite))
        invariant successful == old(successful) + Count(ss[..i], Converted)
        invariant failed == old(failed) + Count(ss[..i], ConvertFailed) + Count(ss[..i], SkippedUpstream)
      {
        CountStep(ss, i);
        var run := SignOne(jobs[i], overwrite);
        signerRun := signerRun + [run];
        i := i + 1;
      }
      assert ss[..|jobs|] == ss;
    }
  }

  /** One downgrade-then-sign run with fresh counters: the jobs determine all four
      counters, signing never succeeds more often than the downgrade, and every
      downgrade failure is also a signing failure. */
  method DowngradeAndSign(jobs: seq<ElfJob>, overwrite: bool) returns (downgrade: Tally, signing: Tally)
    ensures downgrade.successful == Count(DowngradeSteps(jobs), Converted)
    ensures downgrade.failed == Count(DowngradeSteps(jobs), ConvertFailed)
    ensures signing.successful == Count(SignSteps(jobs, overwrite), Converted)
    ensures signing.failed == downgrade.failed + Count(SignSteps(jobs, overwrite), ConvertFailed)
    ensures downgrade.successful + downgrade.failed == |jobs|
    ensures signing.successful <= downgrade.successful
    ensures signing.failed >= downgrade.failed
  {
    downgrade := new Tally();
    signing := new Tally();
    var _ := downgrade.Downgrade(jobs);
    var _ := signing.Sign(jobs, overwrite);
    SignedAtMostDowngraded(jobs, overwrite);
    DowngradeFailuresSkipSigning(jobs, overwrite);
  }
}
