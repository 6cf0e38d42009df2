/** `InstallerCommand::execute` as a whole: resolve the argument, download a
    registry package, load its manifest, move into a versioned root, elicit
    the options, then run the build steps unless it is a dry run. Every
    effect on the outside world is an input, and what the command does is
    returned as the ordered list of its effects. */
module Installer {
  import opened Model
  import opened Reference
  import opened Manifest
  import opened Options
  import opened Build

  /** Everything outside the command: the disk, the downloader (`None` when
      it throws), the foreign manifest code, `realpath`, the operator, and the
      build steps that throw. */
  datatype World = World(
    fs: FileSystem,
    download: (Identity, FileSystem) -> Option<FileSystem>,
    readers: Readers,
    realpath: string -> string,
    ask: Oracle,
    faults: set<Step>)

  /** One observable effect. */
  datatype Event =
    | Fetched(id: Identity)
    | ManifestIo(op: ManifestOp)
    | Asked(question: Question)
    | Built(step: Step)

  /** Why `execute` ended with an exception or a PHP error. */
  datatype Failure =
    | InvalidPackageName(message: string)
    | DownloadFailed
    | XmlNotSupported(message: string)
    | NullPackage
    | ScalarUsedAsArray
    | StepFailed(step: Step)

  datatype Outcome =
    | Finished(package: Package, options: Option<OptionsValue>)
    | Failed(failure: Failure)

  /** The stage an effect belongs to. */
  function Stage(e: Event): nat {
    match e
    case Fetched(_) => 0
    case ManifestIo(_) => 1
    case Asked(_) => 2
    case Built(_) => 3
  }

  /** The stages never interleave: every effect of a stage comes before every
      effect of a later one. */
  predicate Sequential(events: seq<Event>) {
    forall i, j :: 0 <= i < j < |events| ==> Stage(events[i]) <= Stage(events[j])
  }

  predicate AllAtStage(events: seq<Event>, stage: nat) {
    forall i :: 0 <= i < |events| ==> Stage(events[i]) == stage
  }

  /** The build steps among the effects, in order. */
  function Builds(events: seq<Event>): seq<Step> {
    if events == [] then []
    else (if events[0].Built? then [events[0].step] else []) + Builds(events[1..])
  }

  /** The questions among the effects, in order. */
  function Asks(events: seq<Event>): seq<Question> {
    if events == [] then []
    else (if events[0].Asked? then [events[0].question] else []) + Asks(events[1..])
  }

  function ManifestEvents(ops: seq<ManifestOp>): (r: seq<Event>)
    ensures AllAtStage(r, 1)
  {
    seq(|ops|, i requires 0 <= i < |ops| => ManifestIo(ops[i]))
  }

  function AskEvents(qs: seq<Question>): (r: seq<Event>)
    ensures AllAtStage(r, 2)
  {
    seq(|qs|, i requires 0 <= i < |qs| => Asked(qs[i]))
  }

  function BuildEvents(steps: seq<Step>): (r: seq<Event>)
    ensures AllAtStage(r, 3)
  {
    seq(|steps|, i requires 0 <= i < |steps| => Built(steps[i]))
  }

  lemma {:induction false} BuildsAppend(a: seq<Event>, b: seq<Event>)
    ensures Builds(a + b) == Builds(a) + Builds(b)
    ensures Asks(a + b) == Asks(a) + Asks(b)
  {
    if a != [] {
      assert (a + b)[1..] == a[1..] + b;
      BuildsAppend(a[1..], b);
    } else {
      assert a + b == b;
    }
  }

  /** Effects of one stage other than the build hold no build steps, and
      effects other than questions hold no questions. */
  lemma {:induction false} FilterStage(es: seq<Event>, stage: nat)
    requires AllAtStage(es, stage)
    ensures stage != 3 ==> Builds(es) == []
    ensures stage != 2 ==> Asks(es) == []
  {
    if es != [] {
      FilterStage(es[1..], stage);
    }
  }

  lemma {:induction false} BuildsOwn(steps: seq<Step>)
    ensures Builds(BuildEvents(steps)) == steps
  {
    if steps != [] {
      assert BuildEvents(steps)[1..] == BuildEvents(steps[1..]);
      BuildsOwn(steps[1..]);
    }
  }

  lemma {:induction false} AsksOwn(qs: seq<Question>)
    ensures Asks(AskEvents(qs)) == qs
  {
    if qs != [] {
      assert AskEvents(qs)[1..] == AskEvents(qs[1..]);
      AsksOwn(qs[1..]);
    }
  }

  /** What the command tells the downloader to fetch: the identity of a
      registry reference, nothing for a directory or an invalid name. */
  function FetchEvents(arg: string, env: Env, w: World): (r: seq<Event>)
    ensures AllAtStage(r, 0)
  {
    match Resolve(arg, w.fs, env)
    case Remote(id) => [Fetched(id)]
    case _ => []
  }

  /** Where lines 90-149 go on: the path and the disk left by lines 58-88,
      or `None` when those lines already ended the command. */
  function Root(arg: string, env: Env, w: World): Option<(string, FileSystem)> {
    match Resolve(arg, w.fs, env)
    case InvalidName(_) => None
    case LocalPath(p) => Some((p, w.fs))
    case Remote(id) =>
      match w.download(id, w.fs)
      case None => None
      case Some(placed) => Some((id.targetPath, placed))
  }

  /** Lines 58-88: the argument is resolved and a registry reference is
      downloaded. `stopped` is the failure that ends the command here, `fetch`
      the download attempted, `path` and `fs` where loading goes on. */
  method Acquire(arg: string, env: Env, w: World)
    returns (stopped: Option<Failure>, fetch: seq<Event>, path: string, fs: FileSystem)
    ensures fetch == FetchEvents(arg, env, w)
    ensures stopped.None? <==> Root(arg, env, w).Some?
    ensures stopped.None? ==> Root(arg, env, w) == Some((path, fs))
    ensures match Resolve(arg, w.fs, env)
      case InvalidName(message) => stopped == Some(InvalidPackageName(message)) && fetch == []
      case LocalPath(p) => stopped == None && fetch == [] && path == p && fs == w.fs
      case Remote(id) =>
        && fetch == [Fetched(id)]
        && match w.download(id, w.fs)
           case None => stopped == Some(DownloadFailed)
           case Some(placed) => stopped == None && path == id.targetPath && fs == placed
  {
    fetch, path, fs := [], "", w.fs;
    stopped := None;
    match Resolve(arg, fs, env) {
      case InvalidName(message) =>
        stopped := Some(InvalidPackageName(message));
      case LocalPath(p) =>
        path := p;
      case Remote(id) =>
        fetch := [Fetched(id)];
        var placed := w.download(id, fs);
        if placed.None? {
          stopped := Some(DownloadFailed);
        } else {
          fs := placed.value;
          path := id.targetPath;
        }
    }
  }

  /** Lines 142-149: unless it is a dry run, a fresh builder runs the five
      steps until one throws. */
  method BuildStage(package: Package, value: Option<OptionsValue>, dryRun: bool, faults: set<Step>)
    returns (failedAt: Option<Step>, steps: seq<Step>)
    ensures dryRun ==> failedAt == None && steps == []
    ensures !dryRun ==> failedAt == FirstFault(Order, faults) && steps == RunUntilFault(Order, faults)
    ensures !dryRun && failedAt == None ==> steps == Order
  {
    failedAt, steps := None, [];
    if !dryRun {
      var build := new BuildSrcUnix(package, value, faults);
      failedAt := Drive(build);
      steps := build.trace;
      OrderRuns(faults);
      OrderFaults(faults);
    }
  }

  /** What lines 113-149 do with a package `p` loaded from `path` on `fs`:
      the questions asked, and then one of three ends. The option loop throws
      (only possible for a package named `enable`) and nothing is built. Or
      the run finishes with the package rooted in its canonical directory and
      the loop's options, every step entered unless it is a dry run. Or the
      first faulty step ends it after the steps up to it. */
  predicate Installs(p: Package, fs: FileSystem, path: string, env: Env, dryRun: bool, w: World,
                     outcome: Outcome, questions: seq<Question>, steps: seq<Step>)
  {
    var opts := p.configureOptions;
    var visit := VisitAll(EnableDecls(opts), p.name, w.ask);
    var thrown := |opts| > 0 && visit.failed;
    var fault := FirstFault(Order, w.faults);
    && questions == (if |opts| == 0 then [] else visit.questions)
    && if thrown then outcome == Failed(ScalarUsedAsArray) && steps == []
       else if dryRun || fault.None? then
         && outcome == Finished(p.(rootDir := w.realpath(AdjustRoot(fs, path, env.sep, p))),
                                if |opts| == 0 then None else Some(visit.value))
         && steps == (if dryRun then [] else Order)
       else outcome == Failed(StepFailed(fault.value)) && steps == RunUntilFault(Order, w.faults)
  }

  /** Lines 113-149: the versioned root, the option loop and the build. */
  method InstallPackage(p: Package, fs: FileSystem, path: string, env: Env, dryRun: bool, w: World)
    returns (outcome: Outcome, questions: seq<Question>, steps: seq<Step>)
    ensures Installs(p, fs, path, env, dryRun, w, outcome, questions, steps)
  {
    var root := AdjustRoot(fs, path, env.sep, p);
    var package := p.(rootDir := w.realpath(root));
    var value, failed;
    value, questions, failed := Elicit(package.name, package.configureOptions, w.ask);
    steps := [];
    if failed {
      outcome := Failed(ScalarUsedAsArray);
    } else {
      outcome := Finished(package, value);
      var failedAt;
      failedAt, steps := BuildStage(package, value, dryRun, w.faults);
      if failedAt.Some? {
        outcome := Failed(StepFailed(failedAt.value));
      }
    }
  }

  /** The general facts about a run of lines 113-149: a dry run builds
      nothing, a finished run entered every step, a failed step is the first
      faulty one, and for a package not named `enable` the questions and the
      options are those of the reference definition of the loop. */
  lemma InstallsShape(p: Package, fs: FileSystem, path: string, env: Env, dryRun: bool, w: World,
                      outcome: Outcome, questions: seq<Question>, steps: seq<Step>)
    requires Installs(p, fs, path, env, dryRun, w, outcome, questions, steps)
    ensures dryRun ==> steps == [] && !(outcome.Failed? && outcome.failure.StepFailed?)
    ensures steps != [] ==> !dryRun && (outcome.Finished? || outcome.failure.StepFailed?)
    ensures !dryRun && outcome.Finished? ==> steps == Order
    ensures outcome.Failed? && outcome.failure.StepFailed? ==>
      && steps == RunUntilFault(Order, w.faults)
      && FirstFault(Order, w.faults) == Some(outcome.failure.step)
    ensures outcome.Finished? && outcome.package.name != EnableKey ==>
      var opts := outcome.package.configureOptions;
      && questions == Questions(NonSelf(EnableDecls(opts), outcome.package.name))
      && outcome.options == (if |opts| == 0 then None else Some(Expected(EnableDecls(opts), outcome.package.name, w.ask)))
  {
    if p.name != EnableKey {
      VisitAllShape(EnableDecls(p.configureOptions), p.name, w.ask);
    }
  }

  /** Effects of one early stage in front of a sequential history of later
      stages keep it sequential and add no question and no build step. */
  lemma Prepend(front: seq<Event>, rest: seq<Event>, stage: nat)
    requires stage < 2 && AllAtStage(front, stage) && Sequential(rest)
    requires forall e :: e in rest ==> Stage(e) > stage
    ensures Sequential(front + rest)
    ensures Builds(front + rest) == Builds(rest) && Asks(front + rest) == Asks(rest)
  {
    var events := front + rest;
    forall i, j | 0 <= i < j < |events| ensures Stage(events[i]) <= Stage(events[j]) {
      if j < |front| {
        assert events[i] == front[i] && events[j] == front[j];
      } else if i < |front| {
        assert events[i] == front[i] && events[j] == rest[j - |front|];
        assert rest[j - |front|] in rest;
      } else {
        assert events[i] == rest[i - |front|] && events[j] == rest[j - |front|];
      }
    }
    BuildsAppend(front, rest);
    FilterStage(front, stage);
  }

  /** The questions and then the build steps, as effects. */
  lemma Tail(questions: seq<Question>, steps: seq<Step>)
    ensures var tail := AskEvents(questions) + BuildEvents(steps);
      && Sequential(tail)
      && (forall e :: e in tail ==> Stage(e) >= 2)
      && Asks(tail) == questions && Builds(tail) == steps
  {
    var asks, builds := AskEvents(questions), BuildEvents(steps);
    var tail := asks + builds;
    forall i | 0 <= i < |tail| ensures Stage(tail[i]) == if i < |asks| then 2 else 3 {
      if i < |asks| {
        assert tail[i] == asks[i];
      } else {
        assert tail[i] == builds[i - |asks|];
      }
    }
    forall e | e in tail ensures Stage(e) >= 2 {
      var i :| 0 <= i < |tail| && tail[i] == e;
    }
    BuildsAppend(asks, builds);
    FilterStage(asks, 2);
    FilterStage(builds, 3);
    BuildsOwn(steps);
    AsksOwn(questions);
  }

  /** Lines 113-149 as effects, after the manifest's effects `load`: the
      questions asked, then the steps entered, and nothing else. */
  method Install(load: seq<Event>, p: Package, fs: FileSystem, path: string, env: Env, dryRun: bool, w: World)
    returns (outcome: Outcome, rest: seq<Event>)
    requires AllAtStage(load, 1)
    ensures Sequential(rest) && forall e :: e in rest ==> Stage(e) >= 1
    ensures rest == load + AskEvents(Asks(rest)) + BuildEvents(Builds(rest))
    ensures Installs(p, fs, path, env, dryRun, w, outcome, Asks(rest), Builds(rest))
    ensures dryRun ==> Builds(rest) == [] && !(outcome.Failed? && outcome.failure.StepFailed?)
    ensures Builds(rest) != [] ==> !dryRun && (outcome.Finished? || outcome.failure.StepFailed?)
    ensures !dryRun && outcome.Finished? ==> Builds(rest) == Order
    ensures outcome.Failed? && outcome.failure.StepFailed? ==>
      && Builds(rest) == RunUntilFault(Order, w.faults)
      && FirstFault(Order, w.faults) == Some(outcome.failure.step)
    ensures outcome.Finished? && outcome.package.name != EnableKey ==>
      var opts := outcome.package.configureOptions;
      && Asks(rest) == Questions(NonSelf(EnableDecls(opts), outcome.package.name))
      && outcome.options == (if |opts| == 0 then None else Some(Expected(EnableDecls(opts), outcome.package.name, w.ask)))
  {
    var questions, steps;
    outcome, questions, steps := InstallPackage(p, fs, path, env, dryRun, w);
    InstallsShape(p, fs, path, env, dryRun, w, outcome, questions, steps);
    var tail := AskEvents(questions) + BuildEvents(steps);
    Tail(questions, steps);
    rest := load + tail;
    Prepend(load, tail, 1);
    assert rest == load + AskEvents(questions) + BuildEvents(steps);
  }

  /** Lines 90-149: the manifest is loaded from `path` on `fs`, and a loaded
      package is installed; `rest` is every effect from the manifest on. */
  method LoadAndInstall(path: string, fs: FileSystem, noConvert: bool, dryRun: bool, env: Env, w: World)
    returns (outcome: Outcome, rest: seq<Event>)
    ensures Sequential(rest) && forall e :: e in rest ==> Stage(e) >= 1
    ensures var run := Load(fs, path, env.sep, noConvert, w.readers);
      && ManifestEvents(run.ops) <= rest
      && (run.loaded.Unsupported? ==>
            outcome == Failed(XmlNotSupported(XmlUnsupportedMessage)) && rest == ManifestEvents(run.ops))
      && (run.loaded.NoPackage? ==> outcome == Failed(NullPackage) && rest == ManifestEvents(run.ops))
      && (run.loaded.Found? ==>
            && rest == ManifestEvents(run.ops) + AskEvents(Asks(rest)) + BuildEvents(Builds(rest))
            && Installs(run.loaded.package, run.fs, path, env, dryRun, w, outcome, Asks(rest), Builds(rest)))
    ensures dryRun ==> Builds(rest) == [] && !(outcome.Failed? && outcome.failure.StepFailed?)
    ensures Builds(rest) != [] ==> !dryRun && (outcome.Finished? || outcome.failure.StepFailed?)
    ensures !dryRun && outcome.Finished? ==> Builds(rest) == Order
    ensures outcome.Failed? && outcome.failure.StepFailed? ==>
      && Builds(rest) == RunUntilFault(Order, w.faults)
      && FirstFault(Order, w.faults) == Some(outcome.failure.step)
    ensures outcome.Finished? && outcome.package.name != EnableKey ==>
      var opts := outcome.package.configureOptions;
      && Asks(rest) == Questions(NonSelf(EnableDecls(opts), outcome.package.name))
      && outcome.options == (if |opts| == 0 then None else Some(Expected(EnableDecls(opts), outcome.package.name, w.ask)))
  {
    var run := LoadManifest(fs, path, env.sep, noConvert, w.readers);
    var load := ManifestEvents(run.ops);
    rest := load;
    match run.loaded {
      case Unsupported =>
        outcome := Failed(XmlNotSupported(XmlUnsupportedMessage));
      case NoPackage =>
        outcome := Failed(NullPackage);
      case Found(package) =>
        outcome, rest := Install(load, package, run.fs, path, env, dryRun, w);
    }
    if !run.loaded.Found? {
      Prepend(load, [], 1);
      assert load + [] == load;
    }
  }

  /** A history of questions and builds after `mid` stays so once an
      earlier stage is put in front. */
  lemma Exact(head: seq<Event>, mid: seq<Event>, tail: seq<Event>, stage: nat)
    requires stage < 2 && AllAtStage(head, stage) && Sequential(tail)
    requires forall e :: e in tail ==> Stage(e) > stage
    requires tail == mid + AskEvents(Asks(tail)) + BuildEvents(Builds(tail))
    ensures head + tail == head + mid + AskEvents(Asks(head + tail)) + BuildEvents(Builds(head + tail))
  {
    Prepend(head, tail, stage);
  }

  lemma PrefixCat(a: seq<Event>, b: seq<Event>, c: seq<Event>)
    requires b <= c
    ensures a + b <= a + c
  {
    assert (a + c)[..|a + b|] == a + c[..|b|];
  }

  /** Lines 58-149 of `execute`. */
  method Execute(arg: string, noConvert: bool, dryRun: bool, env: Env, w: World)
    returns (outcome: Outcome, events: seq<Event>)
    ensures Sequential(events)
    ensures Resolve(arg, w.fs, env).InvalidName? ==>
      outcome == Failed(InvalidPackageName(Resolve(arg, w.fs, env).message)) && events == []
    ensures Resolve(arg, w.fs, env).Remote? ==>
      |events| > 0 && events[0] == Fetched(Resolve(arg, w.fs, env).id)
    ensures Resolve(arg, w.fs, env).LocalPath? ==> forall e :: e in events ==> !e.Fetched?
    ensures Resolve(arg, w.fs, env).Remote? && w.download(Resolve(arg, w.fs, env).id, w.fs).None? ==>
      outcome == Failed(DownloadFailed) && events == [Fetched(Resolve(arg, w.fs, env).id)]
    ensures Root(arg, env, w).Some? ==>
      var path, fs := Root(arg, env, w).value.0, Root(arg, env, w).value.1;
      var run := Load(fs, path, env.sep, noConvert, w.readers);
      var loading := FetchEvents(arg, env, w) + ManifestEvents(run.ops);
      && loading <= events
      && (run.loaded.Unsupported? ==> outcome == Failed(XmlNotSupported(XmlUnsupportedMessage)) && events == loading)
      && (run.loaded.NoPackage? ==> outcome == Failed(NullPackage) && events == loading)
      && (run.loaded.Found? ==>
            && events == loading + AskEvents(Asks(events)) + BuildEvents(Builds(events))
            && Installs(run.loaded.package, run.fs, path, env, dryRun, w, outcome, Asks(events), Builds(events)))
    ensures dryRun ==> Builds(events) == [] && !(outcome.Failed? && outcome.failure.StepFailed?)
    ensures Builds(events) != [] ==> !dryRun && (outcome.Finished? || outcome.failure.StepFailed?)
    ensures !dryRun && outcome.Finished? ==> Builds(events) == Order
    ensures outcome.Failed? && outcome.failure.StepFailed? ==>
      && Builds(events) == RunUntilFault(Order, w.faults)
      && FirstFault(Order, w.faults) == Some(outcome.failure.step)
    ensures outcome.Finished? && outcome.package.name != EnableKey ==>
      var opts := outcome.package.configureOptions;
      && Asks(events) == Questions(NonSelf(EnableDecls(opts), outcome.package.name))
      && outcome.options == (if |opts| == 0 then None else Some(Expected(EnableDecls(opts), outcome.package.name, w.ask)))
  {
    var stopped, fetch, path, fs := Acquire(arg, env, w);
    if stopped.Some? {
      outcome, events := Failed(stopped.value), fetch;
      Prepend(fetch, [], 0);
      assert fetch + [] == fetch;
    } else {
      var rest;
      outcome, rest := LoadAndInstall(path, fs, noConvert, dryRun, env, w);
      events := fetch + rest;
      Prepend(fetch, rest, 0);
      ghost var run := Load(fs, path, env.sep, noConvert, w.readers);
      PrefixCat(fetch, ManifestEvents(run.ops), rest);
      if run.loaded.Found? {
        Exact(fetch, ManifestEvents(run.ops), rest, 0);
      }
    }
  }
}
