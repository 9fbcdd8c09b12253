/**
 * The order of the steps of `npm install`/`npm ci` and which error it reports, with every step
 * that touches the file system, spawns npm or talks to Artifactory reduced to its outcome.
 *
 * The point of the flow is the project `.npmrc`: once the prerequisites (which back it up) succeed,
 * the temporary `.npmrc` is replaced by the backup exactly once, whatever fails afterwards.
 */
module RunFlow {
  import opened Wrappers
  import opened Text
  import opened NpmArguments

  const TwoErrorsHeader: string := "Two errors occurred:\n "

  /**
   * restoreNpmrcAndError: the error of the failed step when the restore succeeds, or one error
   * naming the restore failure and then the step's failure.
   */
  function RestoreNpmrcAndError(err: Error, restoreErr: Option<Error>): (r: Error)
    ensures r == err <==> restoreErr.None?
    ensures restoreErr.Some? ==>
      && HasPrefix(r.message, TwoErrorsHeader + restoreErr.value.message)
      && HasSuffix(r.message, "\n " + err.message)
  {
    match restoreErr
    case None => err
    case Some(restore) => Error(TwoErrorsHeader + restore.message + "\n " + err.message)
  }

  /** When the restore succeeds, the caller sees the step's error as it was. */
  lemma RestoreSucceededKeepsError(err: Error)
    ensures RestoreNpmrcAndError(err, None) == err
  {
  }

  /**
   * When the restore fails, both messages can be read back from the combined one: the restore
   * failure right after the header, the step's failure at the end after a newline and a space.
   */
  lemma RestoreFailedNamesBoth(err: Error, restore: Error)
    ensures var m := RestoreNpmrcAndError(err, Some(restore)).message;
      && HasPrefix(m, TwoErrorsHeader)
      && HasPrefix(m[|TwoErrorsHeader|..], restore.message + "\n ")
      && HasSuffix(m, "\n " + err.message)
      && m[|TwoErrorsHeader| + |restore.message| + 2..] == err.message
  {
    var m := RestoreNpmrcAndError(err, Some(restore)).message;
    assert m == TwoErrorsHeader + (restore.message + "\n ") + err.message;
    assert m[|TwoErrorsHeader|..] == (restore.message + "\n ") + err.message;
  }

  /** Two failures never look like one: the combined message differs from the step's own. */
  lemma RestoreFailedIsNotTheStepError(err: Error, restore: Error)
    ensures RestoreNpmrcAndError(err, Some(restore)) != err
  {
    var m := RestoreNpmrcAndError(err, Some(restore)).message;
    assert |m| > |err.message|;
  }

  /** A step of run whose running the model records. */
  datatype Step =
    | Prerequisites
    | CreateTempNpmrc
    | InstallOrCi
    | RestoreNpmrc
    | SetDependenciesList
    | CollectChecksums
    | SaveDependencies

  /**
   * The outcome of every step, as it would be if that step ran: the steps themselves are not part
   * of this model. `collectBuildInfo` is what the prerequisites decided; `npmArgs` are the arguments
   * given to npm, and any of them left after filterFlags turns collection off.
   */
  datatype Outcomes = Outcomes(
    prerequisites: Option<Error>,
    createTempNpmrc: Option<Error>,
    installOrCi: Option<Error>,
    restore: Option<Error>,
    collectBuildInfo: bool,
    npmArgs: seq<string>,
    setDependenciesList: Option<Error>,
    collectChecksums: Option<Error>,
    saveDependencies: Option<Error>)

  /** The error run returns and the steps it ran, in order. */
  datatype Run = Run(error: Option<Error>, steps: seq<Step>)

  /** The build-info steps, which run only after the restore and return the first error. */
  function BuildInfoSteps(o: Outcomes): Run
  {
    if o.setDependenciesList.Some? then Run(o.setDependenciesList, [SetDependenciesList])
    else if o.collectChecksums.Some? then Run(o.collectChecksums, [SetDependenciesList, CollectChecksums])
    else Run(o.saveDependencies, [SetDependenciesList, CollectChecksums, SaveDependencies])
  }

  /** Whether runInstallOrCi keeps build-info collection on: it is configured and no argument is left after filterFlags. */
  predicate CollectsBuildInfo(o: Outcomes)
  {
    o.collectBuildInfo && |NonFlags(o.npmArgs)| == 0
  }

  /**
   * run: failed prerequisites end it before anything else; otherwise the `.npmrc` is restored, and
   * only a run that gets past the restore with collection on goes on to the build-info steps.
   */
  function RunCommand(o: Outcomes): (r: Run)
    ensures |r.steps| > 0 && r.steps[0] == Prerequisites
    ensures o.prerequisites.Some? ==> r == Run(o.prerequisites, [Prerequisites])
    ensures RestoreNpmrc in r.steps <==> o.prerequisites.None?
    ensures SetDependenciesList in r.steps <==>
      o.prerequisites.None? && o.createTempNpmrc.None? && o.installOrCi.None? && o.restore.None? && CollectsBuildInfo(o)
  {
    if o.prerequisites.Some? then Run(o.prerequisites, [Prerequisites])
    else if o.createTempNpmrc.Some? then
      Run(Some(RestoreNpmrcAndError(o.createTempNpmrc.value, o.restore)), [Prerequisites, CreateTempNpmrc, RestoreNpmrc])
    else if o.installOrCi.Some? then
      Run(Some(RestoreNpmrcAndError(o.installOrCi.value, o.restore)), [Prerequisites, CreateTempNpmrc, InstallOrCi, RestoreNpmrc])
    else if o.restore.Some? then Run(o.restore, [Prerequisites, CreateTempNpmrc, InstallOrCi, RestoreNpmrc])
    else if !CollectsBuildInfo(o) then Run(None, [Prerequisites, CreateTempNpmrc, InstallOrCi, RestoreNpmrc])
    else
      var tail := BuildInfoSteps(o);
      Run(tail.error, [Prerequisites, CreateTempNpmrc, InstallOrCi, RestoreNpmrc] + tail.steps)
  }

  /** The steps that may come before the restore: the ones that prepare and run npm. */
  predicate IsSetupStep(s: Step)
  {
    s == Prerequisites || s == CreateTempNpmrc || s == InstallOrCi
  }

  /** How many times the run restores the project `.npmrc`. */
  function Restores(steps: seq<Step>): nat
  {
    multiset(steps)[RestoreNpmrc]
  }

  /** The restore happens once, after every setup step and before every other step. */
  predicate RestoredOnceAfterSetup(steps: seq<Step>)
  {
    && Restores(steps) == 1
    && (forall i, j :: 0 <= i < j < |steps| && steps[j] == RestoreNpmrc ==> IsSetupStep(steps[i]))
    && (forall i, j :: 0 <= i < j < |steps| && steps[i] == RestoreNpmrc ==> !IsSetupStep(steps[j]))
  }

  lemma SetupThenRestore(setup: seq<Step>, tail: seq<Step>)
    requires forall i :: 0 <= i < |setup| ==> IsSetupStep(setup[i])
    requires forall i :: 0 <= i < |tail| ==> !IsSetupStep(tail[i]) && tail[i] != RestoreNpmrc
    ensures RestoredOnceAfterSetup(setup + [RestoreNpmrc] + tail)
  {
    var steps := setup + [RestoreNpmrc] + tail;
    assert multiset(steps) == multiset(setup) + multiset{RestoreNpmrc} + multiset(tail);
    assert RestoreNpmrc !in setup && RestoreNpmrc !in tail;
    forall i, j | 0 <= i < j < |steps| && steps[j] == RestoreNpmrc ensures IsSetupStep(steps[i]) {
      assert j == |setup|;
    }
    forall i, j | 0 <= i < j < |steps| && steps[i] == RestoreNpmrc ensures !IsSetupStep(steps[j]) {
      assert i == |setup|;
      assert steps[j] == tail[j - |setup| - 1];
    }
  }

  /** The steps of a run whose prerequisites succeed: setup, the restore, then the build-info steps if any. */
  lemma StepsAfterPrerequisites(o: Outcomes) returns (setup: seq<Step>, tail: seq<Step>)
    requires o.prerequisites.None?
    ensures RunCommand(o).steps == setup + [RestoreNpmrc] + tail
    ensures forall i :: 0 <= i < |setup| ==> IsSetupStep(setup[i])
    ensures forall i :: 0 <= i < |tail| ==> !IsSetupStep(tail[i]) && tail[i] != RestoreNpmrc
  {
    if o.createTempNpmrc.Some? {
      setup, tail := [Prerequisites, CreateTempNpmrc], [];
    } else if o.installOrCi.Some? || o.restore.Some? || !CollectsBuildInfo(o) {
      setup, tail := [Prerequisites, CreateTempNpmrc, InstallOrCi], [];
    } else {
      setup, tail := [Prerequisites, CreateTempNpmrc, InstallOrCi], BuildInfoSteps(o).steps;
    }
  }

  /**
   * A run whose prerequisites fail touches nothing and never restores; once they succeed, the
   * `.npmrc` is restored exactly once, after every setup step that ran and before any build-info step.
   */
  lemma RestoreExactlyOnce(o: Outcomes)
    ensures o.prerequisites.Some? ==> Restores(RunCommand(o).steps) == 0 && RunCommand(o).error == o.prerequisites
    ensures o.prerequisites.None? ==> RestoredOnceAfterSetup(RunCommand(o).steps)
  {
    if o.prerequisites.None? {
      var setup, tail := StepsAfterPrerequisites(o);
      SetupThenRestore(setup, tail);
    }
  }

  /**
   * run succeeds exactly when every step it needs succeeds: the prerequisites, the `.npmrc`,
   * npm itself and the restore, and, when build info is collected, its three steps.
   */
  lemma RunSucceedsIff(o: Outcomes)
    ensures RunCommand(o).error.None? <==>
      && o.prerequisites.None? && o.createTempNpmrc.None? && o.installOrCi.None? && o.restore.None?
      && (CollectsBuildInfo(o) ==>
            o.setDependenciesList.None? && o.collectChecksums.None? && o.saveDependencies.None?)
  {
  }

  /**
   * The error a failing run reports: the first failing step's, combined with a restore failure only
   * for the two steps that run while the temporary `.npmrc` is in place.
   */
  lemma RunReportsFirstFailure(o: Outcomes)
    requires o.prerequisites.None?
    ensures o.createTempNpmrc.Some? ==>
      RunCommand(o).error == Some(RestoreNpmrcAndError(o.createTempNpmrc.value, o.restore))
    ensures o.createTempNpmrc.None? && o.installOrCi.Some? ==>
      RunCommand(o).error == Some(RestoreNpmrcAndError(o.installOrCi.value, o.restore))
    ensures o.createTempNpmrc.None? && o.installOrCi.None? && o.restore.Some? ==>
      RunCommand(o).error == o.restore
  {
  }

  /** Arguments left after filterFlags skip build-info collection even when it was configured. */
  lemma ArgumentsSkipCollection(o: Outcomes, arg: string)
    requires o.prerequisites.None? && o.createTempNpmrc.None? && o.installOrCi.None? && o.restore.None?
    requires arg in o.npmArgs && !HasPrefix(arg, "-")
    ensures RunCommand(o) == Run(None, [Prerequisites, CreateTempNpmrc, InstallOrCi, RestoreNpmrc])
  {
    NonFlagsMembers(o.npmArgs);
    assert arg in NonFlags(o.npmArgs);
  }
}
