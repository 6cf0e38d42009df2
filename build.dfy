/** The build step sequence (lines 142-149 of `execute`): five calls on one
    `BuildSrcUnix` object, with no `try`/`finally`, so the first step that
    throws ends the sequence. What each step does inside is external; a step
    either returns or throws, as the injected fault set says. */
module Build {
  import opened Model
  import opened Options

  datatype Step = Phpize | CreateTempDir | Configure | Install | Cleanup

  /** The order the source calls the steps in. */
  const Order: seq<Step> := [Phpize, CreateTempDir, Configure, Install, Cleanup]

  /** The builder: what it was given, which of its steps throw, and the steps
      entered so far. */
  class BuildSrcUnix {
    const package: Package
    const options: Option<OptionsValue>
    const faults: set<Step>
    var trace: seq<Step>

    constructor (package: Package, options: Option<OptionsValue>, faults: set<Step>)
      ensures this.package == package && this.options == options && this.faults == faults
      ensures trace == []
    {
      this.package := package;
      this.options := options;
      this.faults := faults;
      trace := [];
    }

    /** Enter `step`: it is recorded, and `ok` is false when it throws. */
    method Perform(step: Step) returns (ok: bool)
      modifies this
      ensures trace == old(trace) + [step]
      ensures ok <==> step !in faults
    {
      trace := trace + [step];
      ok := step !in faults;
    }
  }

  /** The steps entered when `steps` are called in order and the first one
      that throws propagates. */
  function RunUntilFault(steps: seq<Step>, faults: set<Step>): seq<Step> {
    if steps == [] then []
    else [steps[0]] + (if steps[0] in faults then [] else RunUntilFault(steps[1..], faults))
  }

  /** The step whose exception leaves `execute`, if any. */
  function FirstFault(steps: seq<Step>, faults: set<Step>): Option<Step> {
    if steps == [] then None
    else if steps[0] in faults then Some(steps[0])
    else FirstFault(steps[1..], faults)
  }

  /** The call order taken apart one step at a time, so that the two tables
      below can unfold the recursive functions along it. */
  lemma OrderTails()
    ensures Order[0] == Phpize && Order[1..][0] == CreateTempDir && Order[2..][0] == Configure
    ensures Order[3..][0] == Install && Order[4..] == [Cleanup]
    ensures Order[1..][1..] == Order[2..] && Order[2..][1..] == Order[3..] && Order[3..][1..] == Order[4..]
  {
  }

  /** The steps entered, for every fault set. */
  lemma OrderRuns(faults: set<Step>)
    ensures RunUntilFault(Order, faults) ==
      if Phpize in faults then [Phpize]
      else if CreateTempDir in faults then [Phpize, CreateTempDir]
      else if Configure in faults then [Phpize, CreateTempDir, Configure]
      else if Install in faults then [Phpize, CreateTempDir, Configure, Install]
      else Order
  {
    OrderTails();
    assert RunUntilFault([Cleanup], faults) == [Cleanup];
    var r3 := RunUntilFault(Order[3..], faults);
    assert r3 == if Install in faults then [Install] else [Install, Cleanup];
    var r2 := RunUntilFault(Order[2..], faults);
    assert r2 == if Configure in faults then [Configure] else [Configure] + r3;
    var r1 := RunUntilFault(Order[1..], faults);
    assert r1 == if CreateTempDir in faults then [CreateTempDir] else [CreateTempDir] + r2;
    assert RunUntilFault(Order, faults) == if Phpize in faults then [Phpize] else [Phpize] + r1;
  }

  /** The step that throws, for every fault set. */
  lemma OrderFaults(faults: set<Step>)
    ensures FirstFault(Order, faults) ==
      if Phpize in faults then Some(Phpize)
      else if CreateTempDir in faults then Some(CreateTempDir)
      else if Configure in faults then Some(Configure)
      else if Install in faults then Some(Install)
      else if Cleanup in faults then Some(Cleanup)
      else None
  {
    OrderTails();
    assert FirstFault([Cleanup], faults) == if Cleanup in faults then Some(Cleanup) else None;
    var f3 := FirstFault(Order[3..], faults);
    assert f3 == if Install in faults then Some(Install) else FirstFault([Cleanup], faults);
    var f2 := FirstFault(Order[2..], faults);
    assert f2 == if Configure in faults then Some(Configure) else f3;
    var f1 := FirstFault(Order[1..], faults);
    assert f1 == if CreateTempDir in faults then Some(CreateTempDir) else f2;
  }

  /** Lines 143-148 as written, on a fresh builder. */
  method Drive(build: BuildSrcUnix) returns (failed: Option<Step>)
    requires build.trace == []
    modifies build
    ensures build.trace == RunUntilFault(Order, build.faults)
    ensures failed == FirstFault(Order, build.faults)
  {
    OrderRuns(build.faults);
    OrderFaults(build.faults);
    var ok := build.Perform(Phpize);
    if !ok { return Some(Phpize); }
    ok := build.Perform(CreateTempDir);
    if !ok { return Some(CreateTempDir); }
    ok := build.Perform(Configure);
    if !ok { return Some(Configure); }
    ok := build.Perform(Install);
    if !ok { return Some(Install); }
    ok := build.Perform(Cleanup);
    if !ok { return Some(Cleanup); }
    return None;
  }

  /** The entered steps are a non-empty prefix of the call order, and all of
      them but the last returned normally. */
  lemma {:induction false} RunUntilFaultPrefix(steps: seq<Step>, faults: set<Step>)
    requires steps != []
    ensures var t := RunUntilFault(steps, faults);
      && 0 < |t| <= |steps|
      && t == steps[..|t|]
      && (forall i :: 0 <= i < |t| - 1 ==> t[i] !in faults)
  {
    if steps[0] !in faults && |steps| > 1 {
      var rest := steps[1..];
      RunUntilFaultPrefix(rest, faults);
      var t, u := RunUntilFault(steps, faults), RunUntilFault(rest, faults);
      assert t == [steps[0]] + u;
      assert steps == [steps[0]] + rest;
      forall i | 0 <= i < |t| - 1 ensures t[i] !in faults {
        if i > 0 { assert t[i] == u[i - 1]; }
      }
    } else if steps[0] !in faults {
      assert steps[1..] == [];
    }
  }

  /** The last entered step is where an exception left, unless every step
      was entered and returned. */
  lemma {:induction false} RunUntilFaultLast(steps: seq<Step>, faults: set<Step>)
    requires steps != []
    ensures var t := RunUntilFault(steps, faults);
      && |t| > 0
      && (FirstFault(steps, faults) == None <==> t == steps && t[|t| - 1] !in faults)
      && (FirstFault(steps, faults) != None ==> FirstFault(steps, faults) == Some(t[|t| - 1]) && t[|t| - 1] in faults)
  {
    if steps[0] !in faults && |steps| > 1 {
      var rest := steps[1..];
      RunUntilFaultLast(rest, faults);
      RunUntilFaultPrefix(rest, faults);
      var t, u := RunUntilFault(steps, faults), RunUntilFault(rest, faults);
      assert t == [steps[0]] + u;
      assert t[|t| - 1] == u[|u| - 1];
      assert steps == [steps[0]] + rest;
      if t == steps {
        assert u == rest;
      }
    } else if steps[0] !in faults {
      assert steps[1..] == [];
    }
  }

  /** Without a dry run, cleanup is entered exactly when none of the four
      steps before it threw: a failing configure, say, leaves the temporary
      directory in place. */
  lemma CleanupRunsOnlyAfterSuccess(faults: set<Step>)
    ensures Cleanup in RunUntilFault(Order, faults)
      <==> Phpize !in faults && CreateTempDir !in faults && Configure !in faults && Install !in faults
  {
    OrderRuns(faults);
    OrderFaults(faults);
  }

  /** With no step throwing, all five are entered, each once, in order. */
  lemma FullRun(faults: set<Step>)
    requires Phpize !in faults && CreateTempDir !in faults && Configure !in faults
    requires Install !in faults && Cleanup !in faults
    ensures RunUntilFault(Order, faults) == Order
    ensures FirstFault(Order, faults) == None
  {
    OrderRuns(faults);
    OrderFaults(faults);
  }

  /** A failing configure: phpize, the temporary directory and configure are
      entered, nothing after them, and configure's exception is the result. */
  lemma ConfigureFailure(faults: set<Step>)
    requires Configure in faults && Phpize !in faults && CreateTempDir !in faults
    ensures RunUntilFault(Order, faults) == [Phpize, CreateTempDir, Configure]
    ensures FirstFault(Order, faults) == Some(Configure)
  {
    OrderRuns(faults);
    OrderFaults(faults);
  }
}
