# pickle `install` command, modelled in Dafny

This project models `InstallerCommand::execute` of pickle, the PHP extension
installer, together with the `RE_PACKAGE` pattern that it uses to recognize
registry references. The command runs in this order:

1. **Resolve the reference.** The `path` argument loses its trailing `/` and `\`.
   An existing directory is used as it is. Anything else must match
   `[pecl/]<name>[-alpha|-beta|-stable|@<version>]`. From the match the command
   derives the package identity, the PECL download URL and the staging path,
   and the package is downloaded there.
2. **Find the manifest.** The command loads `pickle.json`. When that gives
   nothing, it either refuses (`--no-convert`) or converts `package.xml`
   into `pickle.json` and loads that.
3. **Choose the root.** The package root moves into `<prettyName>-<prettyVersion>`
   when that sub-directory exists.
4. **Ask for options.** Each entry of the manifest's `enable` option group is
   visited in order:
   - the entry named like the package is forced on, at the top level of the result;
   - every other entry is asked as a yes/no question, and its answer is recorded under `enable`.
5. **Build.** Unless `--dry-run` is given, the command calls `phpize`,
   `createTempDir`, `configure`, `install` and `cleanup` on a `BuildSrcUnix`.
   The first step that throws ends the command.

The modules follow these stages:

| file | module | what it holds |
|---|---|---|
| `model.dfy` | `Model` | shared values: packages, option tables, the observable disk, the platform |
| `reference.dfy` | `Reference` | a hand-written recognizer for `RE_PACKAGE`, the derivation of defaults, URL and target, and `Resolve` |
| `manifest.dfy` | `Manifest` | `Load`, which specifies the manifest choice; `LoadManifest`, which is that code as written; the versioned root |
| `options.dfy` | `Options` | `VisitAll`, which specifies the option loop; `Elicit`, the loop itself; the expected shape of the result |
| `build.dfy` | `Build` | the `BuildSrcUnix` object with a trace of entered steps and injected faults; the fixed call sequence |
| `installer.dfy` | `Installer` | `Execute`, which composes the stages and returns the outcome and the ordered list of its effects |

Recognizer and derivation are pure functions. The three stateful parts are
imperative methods: manifest loading, where `$package` is reassigned; the
option loop, which builds `$options_value` in place; and the build calls on a
stateful object. Each method is proved against a specification function, and
the properties are proved as lemmas about that function.

Every effect on the world is an input of `Execute`:

- the disk, as a set of directories and a map of files to their text (`is_dir` is membership in the directories, `file_exists` membership in the files);
- the downloader, which either places files or fails;
- the JSON and XML manifest readers and the JSON writer, as uninterpreted functions;
- `realpath`;
- the console's answers, as an oracle from the question's position and text to a boolean;
- the set of build steps that throw.

`sys_get_temp_dir()` and `DIRECTORY_SEPARATOR` are the `Env` parameter.

Where the code and its documentation disagree, the model follows the code:

- When neither manifest file exists, there is no "no manifest" error. `$package`
  stays `null`, and the next use of it fails (outcome `NullPackage`).
- The JSON load is judged by its result, not by whether the file exists. A
  `pickle.json` that loads as `null` is treated like a missing one: it can be
  rejected under `--no-convert`, or overwritten by a conversion.
- `--no-convert` throws whenever no package was loaded from `pickle.json`,
  whether or not `package.xml` exists.
- `cleanup` is not guaranteed. There is no `try`/`finally`, so a failing step
  leaves every later step, `cleanup` included, unentered.
- The URL gets `/` only together with an explicit version. Without one it gets
  no version segment at all. The staging directory is `<tmp><sep><name>`, so it
  depends on the name alone and is not unique.
- After a conversion, nothing checks that the reloaded package equals the XML one.
  The model keeps the two loads unrelated.
- PCRE's `$` without the `D` modifier also matches just before a final
  newline. An argument such as `foo\n`, which `rtrim` leaves alone, is
  therefore accepted. When `foo\n` is not a directory it resolves to the same
  registry identity as `foo`, so it downloads `foo` (`Reference.Match`,
  `Reference.ResolveTrailingNewline`). It can differ from `foo` itself only
  when `foo` is an existing directory.
- A package named `enable` collides with the `enable` slot of the result:
  - its forced `true` overwrites the table of earlier answers;
  - a question asked after the forced entry ends in PHP's "Cannot use a scalar
    value as an array" error. The question has already been asked by then
    (outcome `ScalarUsedAsArray`). This is the behaviour of PHP 8, which the
    model assumes; older PHP versions only warn there.

## Model

| member | source | states |
|---|---|---|
| Reference.TrimSeparators | src/Console/Command/InstallerCommand.php:58 | `rtrim(path, '/\\')` yields a prefix of the argument that does not end in a separator, and everything it cuts off is a separator |
| Reference.WordRun | src/Console/Command/InstallerCommand.php:22 | `\w+` is greedy: the run of word characters is maximal |
| Reference.DigitRun | src/Console/Command/InstallerCommand.php:25 | `\d+` is greedy: the run of digits is maximal |
| Reference.VersionIff | src/Console/Command/InstallerCommand.php:25 | the recognizer for `(?:\d+.?)+` accepts exactly the texts that start with a digit, hold no newline and never have two non-digits in a row |
| Reference.ParseStability | src/Console/Command/InstallerCommand.php:24 | the alternation `beta\|stable\|alpha` accepts a text exactly when it is the name of a stability, and yields that stability |
| Reference.ParseBody | src/Console/Command/InstallerCommand.php:22-27 | soundness after the prefix: a match holds a word and at most one suffix, and spells the text exactly |
| Reference.ParseFrom | src/Console/Command/InstallerCommand.php:22-27 | soundness after a skipped prefix: a match spells the rest of the text exactly |
| Reference.Parse | src/Console/Command/InstallerCommand.php:20-28 | soundness of the strict pattern: a match is well formed and, with the `pecl/` prefix when the text has it, spells the text exactly |
| Reference.ParsePrefixed | src/Console/Command/InstallerCommand.php:21 | a text starting with `pecl/` is matched after the prefix |
| Reference.ParseBare | src/Console/Command/InstallerCommand.php:21 | a text not starting with `pecl/` is matched whole |
| Reference.Match | src/Console/Command/InstallerCommand.php:20-28 | soundness of the pattern with PCRE's `$`: the text is the match's spelling, optionally followed by one newline |
| Reference.RenderLast | src/Console/Command/InstallerCommand.php:22-27 | no accepted spelling is empty or ends in a newline |
| Reference.NoPeclPrefix | src/Console/Command/InstallerCommand.php:21-22 | a spelling without the optional prefix never starts with `pecl/`, so the prefix is taken exactly when present |
| Reference.WordRunCat | src/Console/Command/InstallerCommand.php:22 | `\w+` stops exactly at the end of a word followed by a non-word character |
| Reference.BodySplit | src/Console/Command/InstallerCommand.php:22-27 | in a spelling, the word run is the package name and the rest is the suffix |
| Reference.ParseBodyRender | src/Console/Command/InstallerCommand.php:22-27 | without the prefix, every well-formed match is parsed back to exactly itself |
| Reference.ParseRender | src/Console/Command/InstallerCommand.php:20-28 | completeness and unambiguity: every well-formed match, spelled with or without `pecl/`, is parsed back to exactly itself |
| Reference.MatchRender | src/Console/Command/InstallerCommand.php:20-28 | the same for `preg_match`, with and without a final newline |
| Reference.MatchAccepts | src/Console/Command/InstallerCommand.php:20-28 | `preg_match` succeeds exactly on the accepted arguments, and the captured groups are the one match that spells the argument |
| Reference.TrimAbsorbs | src/Console/Command/InstallerCommand.php:58 | trailing separators are cut off whatever precedes them |
| Reference.TrimKeeps | src/Console/Command/InstallerCommand.php:58 | a text not ending in a separator is left unchanged |
| Reference.ResolveIgnoresTrailingSeparators | src/Console/Command/InstallerCommand.php:58-63 | adding trailing separators to the argument never changes the resolution |
| Reference.ResolveOnlySeparators | src/Console/Command/InstallerCommand.php:58-63 | an argument made only of separators (`///`) trims to the empty text and is rejected with `Invalid package name: ` |
| Reference.ResolveCases | src/Console/Command/InstallerCommand.php:58-63 | an existing directory bypasses the pattern; otherwise an accepted argument resolves remotely and any other argument is rejected with `Invalid package name: ` plus the trimmed path — each case if and only if |
| Reference.ResolveSpelling | src/Console/Command/InstallerCommand.php:58-84 | a spelling that is not a directory resolves to the identity derived from its match |
| Reference.ResolveTrailingNewline | src/Console/Command/InstallerCommand.php:26-28 | a spelling followed by one newline, when that text is not a directory, resolves to the registry identity derived from the spelling's match, so it downloads that package |
| Reference.DerivePlain | src/Console/Command/InstallerCommand.php:65-84 | a bare name derives stability `stable`, version `latest`, pretty version `latest-stable`, the bare URL and the name-only target |
| Reference.DeriveStability | src/Console/Command/InstallerCommand.php:65-84 | a name with a stability keeps it, derives version `latest`, pretty version `latest-<st>` and the URL with `-<st>` |
| Reference.DeriveVersion | src/Console/Command/InstallerCommand.php:65-84 | a name with an explicit version derives stability `stable`, the version as both version and pretty version, and the URL with `/<v>` |
| Reference.ResolveDerives | src/Console/Command/InstallerCommand.php:58-84 | any trimmed argument that is not a directory and spells a well-formed match, with or without one final newline, resolves to the identity derived from that match |
| Reference.ResolvePlain | src/Console/Command/InstallerCommand.php:65-84 | `[pecl/]name`: stability `stable`, version `latest`, pretty version `latest-stable`, URL `http://pecl.php.net/get/name`, target `<tmp><sep>name` |
| Reference.ResolveStability | src/Console/Command/InstallerCommand.php:65-84 | `[pecl/]name-<st>`: the given stability is kept, version `latest`, pretty version `latest-<st>`, and the URL gains `-<st>` only |
| Reference.ResolveVersion | src/Console/Command/InstallerCommand.php:65-84 | `[pecl/]name@<v>`: stability `stable`, version and pretty version `<v>`, and the URL gains `/<v>` only |
| Reference.ResolveFooVersion | src/Console/Command/InstallerCommand.php:73-81 | `foo@1.2.3` gives name `foo`, version `1.2.3`, stability `stable`, URL `http://pecl.php.net/get/foo/1.2.3` |
| Reference.DeriveInvariant | src/Console/Command/InstallerCommand.php:65-84 | every derived identity has a word for its name and a target that depends on the name only; `latest` goes with `latest-<stability>`; an explicit version forces `stable`; the URL carries at most one suffix |
| Reference.RemoteInvariants | src/Console/Command/InstallerCommand.php:58-84 | every remote resolution satisfies that invariant |
| Manifest.ChooseSource | src/Console/Command/InstallerCommand.php:93-109 | a `pickle.json` that yields a package always wins; without one, `--no-convert` refuses whatever else exists; a conversion happens exactly when neither applies and `package.xml` exists |
| Manifest.LoadFrame | src/Console/Command/InstallerCommand.php:90-109 | a load changes no directory and no file but `pickle.json`, which it writes only by a conversion. A conversion needs `package.xml` and no `--no-convert`, and ends with the XML load, the dump and the JSON reload. The first effect is a JSON load exactly when `pickle.json` existed, and a refusal never reads `package.xml` |
| Manifest.LoadManifest | src/Console/Command/InstallerCommand.php:90-109 | the branches as written compute exactly the case-by-case load: the package, the new disk and the order of file effects |
| Manifest.CanonicalWins | src/Console/Command/InstallerCommand.php:93-97 | a `pickle.json` that loads is used as it is: one JSON load, `package.xml` untouched, nothing written |
| Manifest.NoConvertRejects | src/Console/Command/InstallerCommand.php:97-99 | without a loaded package, `--no-convert` throws whether or not `package.xml` exists, and reads and writes nothing more |
| Manifest.ConversionOrder | src/Console/Command/InstallerCommand.php:101-109 | conversion is an XML load, then the dump to `pickle.json`, then a JSON load of the dumped text, whose result is the one used |
| Manifest.NeitherFileLeavesNull | src/Console/Command/InstallerCommand.php:91-109 | with neither file present there is no effect and no error: the package stays null |
| Manifest.ReloadAfterConversion | src/Console/Command/InstallerCommand.php:93-109 | once a conversion has produced a package, loading the same root again reads only `pickle.json` and gives the same package, with or without `--no-convert` |
| Manifest.AdjustRoot | src/Console/Command/InstallerCommand.php:113-115 | the path becomes `<path><sep><prettyName>-<prettyVersion>` exactly when that directory exists, and is unchanged otherwise |
| Options.QuestionFor | src/Console/Command/InstallerCommand.php:134 | the question's default is the entry's default, and its text starts with the entry's prompt |
| Options.QuestionDetermines | src/Console/Command/InstallerCommand.php:134 | two entries get the same question exactly when their prompts and their defaults agree |
| Options.VisitStep | src/Console/Command/InstallerCommand.php:126-139 | one loop pass. After a throw, nothing changes. The package's own entry sets its slot to `true` and asks nothing. Any other entry asks its question and throws exactly when `enable` already holds `true`; otherwise it appends its row, with that answer, to the `enable` table. No other slot changes |
| Options.NonSelf | src/Console/Command/InstallerCommand.php:126-132 | the asked entries are declared entries, and none of them is named like the package |
| Options.VisitAllShape | src/Console/Command/InstallerCommand.php:124-139 | for a package not named `enable`, the loop never throws. It builds the package's own entry as `true` at the top level and the asked entries' rows, in declared order and keyed to the k-th answer, under `enable`. It asks exactly one question per asked entry, with its prompt and default |
| Options.FailedSticks | src/Console/Command/InstallerCommand.php:126-139 | once the loop has thrown, the remaining entries change nothing |
| Options.Elicit | src/Console/Command/InstallerCommand.php:121-140 | empty configure options leave the result null with no question. Otherwise the loop computes exactly the specified visit, and for a package not named `enable` the expected shape, with one question per non-self entry |
| Options.NonInteractiveKeepsDefaults | src/Console/Command/InstallerCommand.php:134-138 | when every answer is the question's default, every asked entry records its declared default and the own entry is still `true` |
| Options.EnableNamedPackageLosesAnswers | src/Console/Command/InstallerCommand.php:128-138 | for a package named `enable`, its own entry after a prompted one overwrites the answers with `true` |
| Options.EnableNamedPackageThrows | src/Console/Command/InstallerCommand.php:128-138 | for a package named `enable`, a prompted entry after its own entry throws |
| Build.BuildSrcUnix.constructor | src/Console/Command/InstallerCommand.php:143 | a new builder holds the package, the options and the faults, and has entered no step |
| Build.BuildSrcUnix.Perform | src/Console/Command/InstallerCommand.php:144-148 | entering a step appends it to the trace, and the step returns exactly when it is not a faulty step |
| Build.OrderRuns | src/Console/Command/InstallerCommand.php:144-148 | the steps entered, for every fault set, spelled out |
| Build.OrderFaults | src/Console/Command/InstallerCommand.php:144-148 | the step whose exception ends the command, for every fault set, spelled out |
| Build.Drive | src/Console/Command/InstallerCommand.php:143-148 | the five calls leave exactly the steps, in call order, up to and including the first that throws, and report that step |
| Build.RunUntilFaultPrefix | src/Console/Command/InstallerCommand.php:144-148 | the entered steps are a non-empty prefix of the call order, and every one but the last returned |
| Build.RunUntilFaultLast | src/Console/Command/InstallerCommand.php:144-148 | the last entered step threw exactly when some step threw, and it is then the first faulty step; otherwise all steps were entered |
| Build.CleanupRunsOnlyAfterSuccess | src/Console/Command/InstallerCommand.php:144-148 | `cleanup` is entered if and only if none of the four earlier steps threw |
| Build.FullRun | src/Console/Command/InstallerCommand.php:142-149 | with no faulty step, all five steps are entered once each, in order, and nothing throws |
| Build.ConfigureFailure | src/Console/Command/InstallerCommand.php:144-146 | a failing `configure` after two good steps: `phpize`, `createTempDir`, `configure` are entered, nothing later, and `configure`'s exception ends the command |
| Installer.Acquire | src/Console/Command/InstallerCommand.php:58-88 | an invalid name stops with its message; a directory is used as it is, with no download; a registry reference is downloaded to its target, and the command stops exactly when the download fails |
| Installer.BuildStage | src/Console/Command/InstallerCommand.php:142-149 | a dry run enters no step; otherwise the steps entered are those up to the first faulty one, and that step is reported; without a fault all five are entered in order |
| Installer.InstallPackage | src/Console/Command/InstallerCommand.php:113-149 | the questions are those of the loop, or none without configure options. A throwing loop builds nothing. Otherwise a dry run, or a build without a faulty step, finishes: the package is rooted at the `realpath` of the chosen root and carries the loop's options. A faulty step ends the run after the steps up to it |
| Installer.InstallsShape | src/Console/Command/InstallerCommand.php:113-149 | from that: a dry run builds nothing, a finished build entered all five steps, a step failure names the first faulty step, and a package not named `enable` gets the reference questions and options |
| Installer.Install | src/Console/Command/InstallerCommand.php:113-149 | the same run as an ordered list of effects after the manifest's: exactly the questions, then exactly the build steps, and nothing else; a dry run builds nothing, a finished build entered all five steps, a step failure names the first faulty step |
| Installer.LoadAndInstall | src/Console/Command/InstallerCommand.php:90-149 | the manifest's file effects come first. A refused XML manifest or a null package ends the run with its error and nothing more. A loaded package is installed as above, and after the manifest's effects come only its questions and then its build steps |
| Installer.Execute | src/Console/Command/InstallerCommand.php:56-150 | see below |

`Installer.Execute` states the following:

- the effects never interleave across stages: fetch, then manifest, then questions, then build;
- an invalid name fails with its message and has no effect at all;
- a remote reference starts with its download;
- a failed download ends the command there, with that download as its only effect;
- a local directory downloads nothing;
- once a root is reached (the directory, or the download's target), the download and then the file effects of loading the manifest from that root come first;
- after a loaded manifest, only questions and then build steps follow, with no further manifest effect;
- a refused XML manifest fails with its message, and a null package with `NullPackage`, and neither asks or builds anything;
- a loaded package is installed as `Installer.InstallPackage` states: the asked questions, the build steps and the outcome, including the root directory and options of a finished run;
- a dry run enters no build step and cannot fail in one;
- a build step is entered only when the run is not dry and no earlier stage failed;
- a finished run that is not dry entered all five steps in order;
- a step failure reports the first faulty step, and the entered steps are those up to it;
- a finished run for a package not named `enable` asked exactly the questions of its non-self entries, and returns the expected options shape.

## Left out

- The PECL download (`PECLDownloader`, Composer `Config` and `ConsoleIO`): network and archive extraction. It is an input that places files on the disk or fails, and the model follows only its failure.
- Path canonicalization: `realpath` is an uninterpreted input. Its `false` result for a missing path is not modelled apart from other results.
- The JSON and XML manifest formats, and the `Loader` and `Dumper` classes: these are foreign code, kept uninterpreted. Exceptions thrown inside them are not modelled.
- `showInfo` (line 111) and the rest of the console output, since it has no effect on the result. The question helper is replaced by an answer oracle.
- What each `BuildSrcUnix` step does (phpize, configure, make and the temporary directory), since these are external tools. Each step is modelled only as returning or throwing.
- `configure()` (lines 30-54): command-line wiring only. The argument and the two flags are direct inputs of `Execute`, and the `getcwd()` default is not modelled.
- Options.Elicit: the name comparison is plain string equality. PHP's loose `==` (numeric strings such as `1` and `01` compare equal) is not modelled.
- Options.Elicit: PHP arrays turn integer-like option names into integer keys. Option names are kept as text.
- Options.Elicit: the result map is unordered, so the model does not capture that the top-level keys follow first insertion. Inside `enable` the order of answers is kept.
- Options.Elicit: a non-boolean `default` value is not modelled, because declared defaults are booleans here.
- Options.Elicit: configure options whose `enable` group is missing are iterated as nothing. The PHP warning for that case is not modelled.
- Reference.IsWordChar: `\w` is ASCII letters, digits and underscore, as in the C locale. Locale-dependent word characters are not modelled.
- Reference.Resolve: `is_dir` is membership in the model's set of directories. Symbolic links and permissions are not modelled.
- Reference.IsVersion: the argument is a sequence of Unicode characters, not PHP's bytes. Without the `u` modifier PCRE reads a non-ASCII character as several bytes, so `.` in `(?:\d+.?)+` can take only one of them. `foo@1é` is therefore rejected by PHP but accepted here. The same holds for `VersionIff`, `Match`, `MatchAccepts` and `ResolveCases`.
- Reference.Match: the `false` result of `preg_match` is not modelled. PCRE gives it when it hits its backtracking limit, which `(?:\d+.?)+` can reach on a long run of digits followed by characters that fail the match. The code tests only `=== 0`, so it would go on with empty captures; the model rejects such an argument as an invalid name.
- Options.Visit: PHP 8 is assumed, where writing into the `true` held by `enable` throws. Under PHP 7 and earlier this is only a warning: the write is skipped, the loop goes on asking, and the result keeps `enable` as `true`.
- Manifest.Load: `file_exists` is read as "a file of that name exists". PHP's `file_exists` is also true for a directory, and a directory named `pickle.json` or `package.xml` is not modelled. The disk does not keep its files and directories disjoint.
