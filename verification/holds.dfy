/** The FIPS variant's apt setup: release any apt hold on a package of the
    fixed FIPS hold list, then run the shared repository setup. */
module FipsHolds {
  import opened Wrappers
  import opened PyText
  import opened Entitlements
  import opened Apt

  /** `a` is `b` with some elements left out, order kept. */
  ghost predicate IsSubsequence(a: seq<string>, b: seq<string>) {
    if |a| == 0 then true
    else if |b| == 0 then false
    else if a[0] == b[0] then IsSubsequence(a[1..], b[1..])
    else IsSubsequence(a, b[1..])
  }

  /** The `showholds` lines naming a package of the FIPS hold list, kept in
      their original order and multiplicity. */
  function KeepFipsHolds(lines: seq<string>): (r: seq<string>)
    ensures forall x :: x in r <==> x in lines && x in FipsProPackageHolds
    ensures IsSubsequence(r, lines)
  {
    if |lines| == 0 then []
    else
      var rest := KeepFipsHolds(lines[1..]);
      assert lines == [lines[0]] + lines[1..];
      if lines[0] in FipsProPackageHolds then [lines[0]] + rest
      else
        assert |rest| > 0 ==> rest[0] != lines[0] by {
          if |rest| > 0 {
            assert rest[0] in rest;
          }
        }
        rest
  }

  /** Each held line on the hold list is kept as often as it was printed;
      every other line is dropped. */
  lemma {:induction false} KeepFipsHoldsCounts(lines: seq<string>)
    ensures forall x :: multiset(KeepFipsHolds(lines))[x]
                     == if x in FipsProPackageHolds then multiset(lines)[x] else 0
  {
    if |lines| > 0 {
      KeepFipsHoldsCounts(lines[1..]);
      assert lines == [lines[0]] + lines[1..];
    }
  }

  /** Nothing is kept exactly when no line names a package on the hold list. */
  lemma KeepFipsHoldsEmptyIff(lines: seq<string>)
    ensures |KeepFipsHolds(lines)| == 0 <==> forall i :: 0 <= i < |lines| ==> lines[i] !in FipsProPackageHolds
  {
    if |KeepFipsHolds(lines)| == 0 {
      forall i | 0 <= i < |lines|
        ensures lines[i] !in FipsProPackageHolds
      {
        assert lines[i] in lines;
      }
    } else {
      assert KeepFipsHolds(lines)[0] in KeepFipsHolds(lines);
    }
  }

  /** The packages to release, given what `apt-mark showholds` printed. */
  function UnholdsFor(printed: string): seq<string> {
    KeepFipsHolds(SplitLines(printed))
  }

  /** `apt-mark showholds`, failing with "apt-mark showholds failed.". */
  const ShowHolds: AptCommand :=
    AptCommand(["apt-mark", "showholds"], CommandFailedMessage(["apt-mark", "showholds"]), map[])

  /** `apt-mark unhold` of the given packages. */
  function UnholdCommand(unholds: seq<string>): AptCommand {
    var args := ["apt-mark", "unhold"] + unholds;
    AptCommand(args, CommandFailedMessage(args), map[])
  }

  /** One action of the setup: an apt command, or the shared repository
      setup (keys, sources, pinning) that follows it. */
  datatype Step = RunApt(cmd: AptCommand) | BaseSetup

  /** Why the setup stopped: an apt command failed, or the shared setup did. */
  datatype SetupError = CommandFailed(error: AptError) | BaseSetupFailed(reason: string)

  /** The actions taken, in order, and how the setup ended. */
  datatype Trace = Trace(steps: seq<Step>, result: Result<(), SetupError>)

  /** The steps in `done`, then the shared setup with outcome `base`. */
  function ThenBaseSetup(done: seq<Step>, base: Result<(), string>): Trace {
    Trace(done + [BaseSetup],
          if base.Success? then Success(()) else Failure(BaseSetupFailed(base.error)))
  }

  /** The steps in `done`, the last of which failed with `e`. */
  function Aborted(done: seq<Step>, e: AptError): Trace {
    Trace(done, Failure(CommandFailed(e)))
  }

  /** Every apt command among the steps succeeded under `run`. */
  predicate AllCommandsSucceed(run: Runner, steps: seq<Step>) {
    forall i :: 0 <= i < |steps| && steps[i].RunApt? ==> run(steps[i].cmd).Success?
  }

  /** `setup_apt_config` of a variant. FIPS first lists the held packages,
      releases the ones on its hold list (only if there are any) and then
      runs the shared setup; FIPS Updates runs the shared setup directly.
      `run` runs apt commands; `base` is the outcome of the shared setup. */
  function SetupAptConfig(v: Variant, run: Runner, base: Result<(), string>): (t: Trace)
    ensures |t.steps| > 0
    ensures v == FipsUpdates ==> t.steps == [BaseSetup]
    ensures v == Fips ==> t.steps[0] == RunApt(ShowHolds)
    // every step but the last is an apt command that succeeded
    ensures forall i :: 0 <= i < |t.steps| - 1 ==> t.steps[i].RunApt? && run(t.steps[i].cmd).Success?
    // a failing apt command is the last step and its error is the result
    ensures t.steps[|t.steps| - 1].RunApt? ==>
      RunCommand(run, t.steps[|t.steps| - 1].cmd).Failure?
      && t.result == Failure(CommandFailed(RunCommand(run, t.steps[|t.steps| - 1].cmd).error))
    // otherwise the shared setup ran last and decides the result
    ensures t.steps[|t.steps| - 1] == BaseSetup ==> (t.result.Success? <==> base.Success?)
    // the only other command is a non-empty unhold of packages on the hold list
    ensures forall i :: 1 <= i < |t.steps| && t.steps[i].RunApt? ==>
      i == 1 && v == Fips
      && |t.steps[i].cmd.args| > 2 && t.steps[i].cmd.args[..2] == ["apt-mark", "unhold"]
      && forall k :: 2 <= k < |t.steps[i].cmd.args| ==> t.steps[i].cmd.args[k] in FipsProPackageHolds
  {
    match v
    case FipsUpdates => ThenBaseSetup([], base)
    case Fips =>
      match RunCommand(run, ShowHolds)
      case Failure(e) => Aborted([RunApt(ShowHolds)], e)
      case Success(holds) =>
        var unholds := UnholdsFor(holds);
        if |unholds| == 0 then ThenBaseSetup([RunApt(ShowHolds)], base)
        else
          var unhold := UnholdCommand(unholds);
          assert unhold.args[2..] == unholds;
          match RunCommand(run, unhold)
          case Failure(e) => Aborted([RunApt(ShowHolds), RunApt(unhold)], e)
          case Success(_) => ThenBaseSetup([RunApt(ShowHolds), RunApt(unhold)], base)
  }

  /** The shared setup runs exactly when no apt command of the trace fails,
      and the whole setup succeeds exactly when, in addition, the shared
      setup does. */
  lemma BaseSetupRunsIff(v: Variant, run: Runner, base: Result<(), string>)
    ensures BaseSetup in SetupAptConfig(v, run, base).steps
        <==> AllCommandsSucceed(run, SetupAptConfig(v, run, base).steps)
    ensures SetupAptConfig(v, run, base).result.Success?
        <==> AllCommandsSucceed(run, SetupAptConfig(v, run, base).steps) && base.Success?
  {
    var t := SetupAptConfig(v, run, base);
    var n := |t.steps| - 1;
    if BaseSetup in t.steps {
      var i :| 0 <= i < |t.steps| && t.steps[i] == BaseSetup;
      assert i == n;
    }
    if t.steps[n].RunApt? {
      assert !run(t.steps[n].cmd).Success?;
    }
  }

  /** For FIPS, after `showholds` printed `out`, an unhold is issued exactly
      when some printed line is on the hold list, and it releases exactly
      those lines, in printed order. */
  lemma UnholdIssuedIff(run: Runner, base: Result<(), string>, out: string)
    requires run(ShowHolds) == Success(out)
    ensures var unholds := UnholdsFor(out);
      && (RunApt(UnholdCommand(unholds)) in SetupAptConfig(Fips, run, base).steps <==> |unholds| > 0)
      && ((|SetupAptConfig(Fips, run, base).steps| > 1 && SetupAptConfig(Fips, run, base).steps[1].RunApt?)
          <==> |unholds| > 0)
      && (|unholds| > 0 ==> |SetupAptConfig(Fips, run, base).steps| > 1
                            && SetupAptConfig(Fips, run, base).steps[1] == RunApt(UnholdCommand(unholds)))
  {
    var unholds := UnholdsFor(out);
    var t := SetupAptConfig(Fips, run, base);
    if |unholds| == 0 {
      assert t.steps == [RunApt(ShowHolds), BaseSetup];
      assert UnholdCommand(unholds) != ShowHolds by {
        assert UnholdCommand(unholds).args[1] != ShowHolds.args[1];
      }
    } else {
      assert t.steps[1] == RunApt(UnholdCommand(unholds));
    }
  }

  /** When `showholds` prints one package per line, the packages released
      are the printed ones on the hold list, in printed order. */
  lemma UnholdsForPrintedLines(held: seq<string>)
    requires forall i :: 0 <= i < |held| ==> IsLine(held[i])
    ensures UnholdsFor(Terminated(held)) == KeepFipsHolds(held)
  {
    SplitLinesTerminated(held);
  }
}
