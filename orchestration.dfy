/**
 * `install`: the stages one after another, over one manifest value that every
 * stage shares (Node caches the `require`d manifest, so the scripts and the
 * dependency stages mutate the same object).
 */
module Orchestration {
  import opened Wrappers
  import opened Manifests
  import opened Tables
  import opened Resolver
  import opened Scripts
  import opened Dependencies
  import opened FileInstall

  /** The stages as they start; the two subprocess stages are opaque markers. */
  datatype Stage =
    | Initialize(manager: PackageManager)
    | CopyFiles
    | AddScripts
    | MergeDependencies
    | InstallPackages(manager: PackageManager)

  /** The answers of the prompt. An unset list of files or scripts is the empty list. */
  datatype Selections = Selections(
    manager: PackageManager,
    files: seq<FileKey>,
    scripts: seq<ScriptKey>,
    dependencies: DependencyMode,
    installDependencies: InstallMode)

  /**
   * What lies outside the target: the tool's own manifest, its template files,
   * and the manifest that `<manager> init -y` writes (None when it fails).
   */
  datatype Environment = Environment(own: Manifest, templates: Templates, initialized: Option<Manifest>)

  /** The target directory: its manifest (None when absent), its other files, and the stages run so far. */
  datatype Project = Project(pkg: Option<Manifest>, files: Files, trace: seq<Stage>)

  /** `files.map(f => supportedFiles[f])`. */
  function FileNames(keys: seq<FileKey>): seq<string>
  {
    seq(|keys|, i requires 0 <= i < |keys| => FileName(keys[i]))
  }

  /**
   * The mapped names are the selected keys' canonical names, one per key, and
   * canonical names always resolve, so INDIRECT mode never hits the failing
   * lookup.
   */
  lemma FileNamesResolvable(keys: seq<FileKey>, mode: DependencyMode)
    ensures |FileNames(keys)| == |keys|
    ensures forall i | 0 <= i < |keys| :: FileNames(keys)[i] == FileName(keys[i])
    ensures Resolvable(FileNames(keys), mode)
  {
    forall i | 0 <= i < |keys| ensures KeyOfFileName(FileNames(keys)[i]).Some? {
      KeyOfFileNameRoundTrip(keys[i]);
    }
  }

  function InitStage(p: Project, sel: Selections, env: Environment): Project
  {
    if p.pkg.None? then Project(env.initialized, p.files, p.trace + [Initialize(sel.manager)]) else p
  }

  function FilesStage(p: Project, sel: Selections, env: Environment): Project
  {
    if |sel.files| > 0 then
      FileNamesResolvable(sel.files, sel.dependencies);
      p.(files := FilesInstalled(p.files, p.pkg, FileNames(sel.files), sel.dependencies, env.templates),
         trace := p.trace + [CopyFiles])
    else p
  }

  /** The project after the scripts stage, and whether `installScripts` threw (no manifest to load). */
  function ScriptsStage(p: Project, sel: Selections): (Project, bool)
  {
    if |sel.scripts| == 0 then (p, false)
    else if p.pkg.None? then (p.(trace := p.trace + [AddScripts]), true)
    else (p.(pkg := Some(ScriptsAdded(p.pkg.value, sel.scripts, sel.manager)), trace := p.trace + [AddScripts]), false)
  }

  function DependenciesStage(p: Project, sel: Selections, env: Environment): Project
  {
    if sel.dependencies != NoDependencies then
      p.(pkg := DependenciesAdded(p.pkg, env.own, sel.dependencies), trace := p.trace + [MergeDependencies])
    else p
  }

  function PackagesStage(p: Project, sel: Selections): Project
  {
    if sel.installDependencies != No then p.(trace := p.trace + [InstallPackages(sel.manager)]) else p
  }

  /** The whole run. A throw from the scripts stage rejects `install` and skips the stages after it. */
  function Run(p: Project, sel: Selections, env: Environment): Project
  {
    var afterFiles := FilesStage(InitStage(p, sel, env), sel, env);
    var (afterScripts, threw) := ScriptsStage(afterFiles, sel);
    if threw then afterScripts
    else PackagesStage(DependenciesStage(afterScripts, sel, env), sel)
  }

  /** The run is cut short: scripts are selected and there is still no manifest when they are installed. */
  predicate Aborted(p: Project, sel: Selections, env: Environment)
  {
    |sel.scripts| > 0 && p.pkg.None? && env.initialized.None?
  }

  /** Position of a stage in the fixed order of `install`. */
  function Rank(s: Stage): nat
  {
    match s
    case Initialize(_) => 0
    case CopyFiles => 1
    case AddScripts => 2
    case MergeDependencies => 3
    case InstallPackages(_) => 4
  }

  /** Stages in strictly increasing position: the fixed order, each stage at most once. */
  predicate Ranked(stages: seq<Stage>)
  {
    forall i, j | 0 <= i < j < |stages| :: Rank(stages[i]) < Rank(stages[j])
  }

  /** The stages a run adds to the trace, in the order they run. */
  function Added(p: Project, sel: Selections, env: Environment): seq<Stage>
  {
    var t := Run(p, sel, env).trace;
    if |p.trace| <= |t| then t[|p.trace|..] else []
  }

  /** The stage a condition selects, as a list of zero or one stages. */
  function When(condition: bool, s: Stage): seq<Stage>
  {
    if condition then [s] else []
  }

  /** Each stage function's effect on the trace and on the manifest. */
  lemma InitEffect(p: Project, sel: Selections, env: Environment)
    ensures InitStage(p, sel, env).trace == p.trace + When(p.pkg.None?, Initialize(sel.manager))
    ensures InitStage(p, sel, env).pkg == if p.pkg.None? then env.initialized else p.pkg
    ensures InitStage(p, sel, env).files == p.files
  {
  }

  lemma FilesEffect(p: Project, sel: Selections, env: Environment)
    ensures FilesStage(p, sel, env).trace == p.trace + When(|sel.files| > 0, CopyFiles)
    ensures FilesStage(p, sel, env).pkg == p.pkg
  {
  }

  lemma ScriptsEffect(p: Project, sel: Selections)
    ensures ScriptsStage(p, sel).0.trace == p.trace + When(|sel.scripts| > 0, AddScripts)
    ensures ScriptsStage(p, sel).1 <==> |sel.scripts| > 0 && p.pkg.None?
  {
  }

  lemma ScriptsState(p: Project, sel: Selections)
    ensures ScriptsStage(p, sel).0.files == p.files
    ensures ScriptsStage(p, sel).0.pkg == if |sel.scripts| > 0 && p.pkg.Some? then Some(ScriptsAdded(p.pkg.value, sel.scripts, sel.manager)) else p.pkg
  {
  }

  lemma LaterEffects(p: Project, sel: Selections, env: Environment)
    ensures DependenciesStage(p, sel, env).trace == p.trace + When(sel.dependencies != NoDependencies, MergeDependencies)
    ensures PackagesStage(p, sel).trace == p.trace + When(sel.installDependencies != No, InstallPackages(sel.manager))
  {
  }

  lemma LaterState(p: Project, sel: Selections, env: Environment)
    ensures DependenciesStage(p, sel, env).files == p.files
    ensures DependenciesStage(p, sel, env).pkg == if sel.dependencies != NoDependencies then DependenciesAdded(p.pkg, env.own, sel.dependencies) else p.pkg
    ensures PackagesStage(p, sel).pkg == p.pkg
    ensures PackagesStage(p, sel).files == p.files
  {
  }

  /** The stages a run should add, written out from the conditions in `install`. */
  function Planned(p: Project, sel: Selections, env: Environment): seq<Stage>
  {
    var aborted := Aborted(p, sel, env);
    When(p.pkg.None?, Initialize(sel.manager))
    + When(|sel.files| > 0, CopyFiles)
    + When(|sel.scripts| > 0, AddScripts)
    + When(sel.dependencies != NoDependencies && !aborted, MergeDependencies)
    + When(sel.installDependencies != No && !aborted, InstallPackages(sel.manager))
  }

  /** The project after the first three stages. */
  function Early(p: Project, sel: Selections, env: Environment): Project
  {
    ScriptsStage(FilesStage(InitStage(p, sel, env), sel, env), sel).0
  }

  /** Initialization, files and scripts append their markers. */
  lemma EarlyTrace(p: Project, sel: Selections, env: Environment)
    ensures Early(p, sel, env).trace ==
      p.trace + (When(p.pkg.None?, Initialize(sel.manager)) + When(|sel.files| > 0, CopyFiles) + When(|sel.scripts| > 0, AddScripts))
  {
    var p1 := InitStage(p, sel, env);
    var p2 := FilesStage(p1, sel, env);
    InitEffect(p, sel, env);
    FilesEffect(p1, sel, env);
    ScriptsEffect(p2, sel);
  }

  /** The scripts stage throws exactly when the run aborts, and the later stages run only when it does not. */
  lemma RunShape(p: Project, sel: Selections, env: Environment)
    ensures Run(p, sel, env) ==
      if Aborted(p, sel, env) then Early(p, sel, env)
      else PackagesStage(DependenciesStage(Early(p, sel, env), sel, env), sel)
  {
    var p1 := InitStage(p, sel, env);
    var p2 := FilesStage(p1, sel, env);
    InitEffect(p, sel, env);
    FilesEffect(p1, sel, env);
    ScriptsEffect(p2, sel);
  }

  /** The stages after the scripts stage append their markers when they run. */
  lemma LateTrace(p: Project, sel: Selections, env: Environment)
    ensures PackagesStage(DependenciesStage(p, sel, env), sel).trace ==
      p.trace + (When(sel.dependencies != NoDependencies, MergeDependencies) + When(sel.installDependencies != No, InstallPackages(sel.manager)))
  {
    LaterEffects(p, sel, env);
    LaterEffects(DependenciesStage(p, sel, env), sel, env);
  }

  /** The plan, split at the scripts stage: the later stages only when the run is not aborted. */
  lemma PlannedSplit(p: Project, sel: Selections, env: Environment)
    ensures var early := When(p.pkg.None?, Initialize(sel.manager)) + When(|sel.files| > 0, CopyFiles) + When(|sel.scripts| > 0, AddScripts);
      var late := When(sel.dependencies != NoDependencies, MergeDependencies) + When(sel.installDependencies != No, InstallPackages(sel.manager));
      Planned(p, sel, env) == if Aborted(p, sel, env) then early else early + late
  {
  }

  /** The run appends exactly the planned stages to the trace. */
  lemma RunTrace(p: Project, sel: Selections, env: Environment)
    ensures Run(p, sel, env).trace == p.trace + Planned(p, sel, env)
  {
    RunShape(p, sel, env);
    EarlyTrace(p, sel, env);
    PlannedSplit(p, sel, env);
    if !Aborted(p, sel, env) {
      LateTrace(Early(p, sel, env), sel, env);
    }
  }

  /**
   * Each stage runs exactly when `install` asks for it: initialization iff
   * the manifest is absent, files and scripts iff selected, dependencies iff
   * the mode is not NONE, package installation iff the install answer is not
   * NO (the last two only when the scripts stage did not throw); and the stages
   * appear in the fixed order, each at most once.
   */
  lemma RunStages(p: Project, sel: Selections, env: Environment)
    ensures Run(p, sel, env).trace[..|p.trace|] == p.trace
    ensures Initialize(sel.manager) in Added(p, sel, env) <==> p.pkg.None?
    ensures CopyFiles in Added(p, sel, env) <==> |sel.files| > 0
    ensures AddScripts in Added(p, sel, env) <==> |sel.scripts| > 0
    ensures MergeDependencies in Added(p, sel, env) <==> sel.dependencies != NoDependencies && !Aborted(p, sel, env)
    ensures InstallPackages(sel.manager) in Added(p, sel, env) <==> sel.installDependencies != No && !Aborted(p, sel, env)
    ensures Ranked(Added(p, sel, env))
  {
    RunTrace(p, sel, env);
    PlannedContains(p, sel, env, Initialize(sel.manager));
    PlannedContains(p, sel, env, CopyFiles);
    PlannedContains(p, sel, env, AddScripts);
    PlannedContains(p, sel, env, MergeDependencies);
    PlannedContains(p, sel, env, InstallPackages(sel.manager));
    PlannedRanked(p, sel, env);
    var t := Run(p, sel, env).trace;
    assert t[|p.trace|..] == Planned(p, sel, env);
  }

  lemma InAppended(stages: seq<Stage>, condition: bool, s: Stage, x: Stage)
    ensures x in stages + When(condition, s) <==> x in stages || (condition && x == s)
  {
    assert x in stages ==> x in stages + When(condition, s);
  }

  /** A stage is planned exactly when its condition in `install` holds. */
  lemma PlannedContains(p: Project, sel: Selections, env: Environment, x: Stage)
    ensures x in Planned(p, sel, env) <==>
      || (x == Initialize(sel.manager) && p.pkg.None?)
      || (x == CopyFiles && |sel.files| > 0)
      || (x == AddScripts && |sel.scripts| > 0)
      || (x == MergeDependencies && sel.dependencies != NoDependencies && !Aborted(p, sel, env))
      || (x == InstallPackages(sel.manager) && sel.installDependencies != No && !Aborted(p, sel, env))
  {
    var aborted := Aborted(p, sel, env);
    var s1 := When(p.pkg.None?, Initialize(sel.manager));
    var s2 := When(|sel.files| > 0, CopyFiles);
    var s3 := When(|sel.scripts| > 0, AddScripts);
    var s4 := When(sel.dependencies != NoDependencies && !aborted, MergeDependencies);
    InAppended([], p.pkg.None?, Initialize(sel.manager), x);
    assert [] + s1 == s1;
    InAppended(s1, |sel.files| > 0, CopyFiles, x);
    InAppended(s1 + s2, |sel.scripts| > 0, AddScripts, x);
    InAppended(s1 + s2 + s3, sel.dependencies != NoDependencies && !aborted, MergeDependencies, x);
    InAppended(s1 + s2 + s3 + s4, sel.installDependencies != No && !aborted, InstallPackages(sel.manager), x);
  }

  /** Every stage of `stages` comes before position `bound` of the fixed order. */
  predicate Below(stages: seq<Stage>, bound: nat)
  {
    forall i | 0 <= i < |stages| :: Rank(stages[i]) < bound
  }

  lemma AppendRanked(stages: seq<Stage>, condition: bool, s: Stage)
    requires Ranked(stages) && Below(stages, Rank(s))
    ensures Ranked(stages + When(condition, s)) && Below(stages + When(condition, s), Rank(s) + 1)
  {
  }

  /** The first three stages of `install`, each run or skipped, stay in order. */
  lemma EarlyRanked(init: bool, copy: bool, scripts: bool, manager: PackageManager)
    ensures var early := When(init, Initialize(manager)) + When(copy, CopyFiles) + When(scripts, AddScripts);
      Ranked(early) && Below(early, 3)
  {
    var s1 := When(init, Initialize(manager));
    assert Ranked(s1) && Below(s1, 1);
    AppendRanked(s1, copy, CopyFiles);
    AppendRanked(s1 + When(copy, CopyFiles), scripts, AddScripts);
  }

  /** The last two stages, each run or skipped, stay in order after the first three. */
  lemma LateRanked(early: seq<Stage>, dependencies: bool, packages: bool, manager: PackageManager)
    requires Ranked(early) && Below(early, 3)
    ensures Ranked(early + When(dependencies, MergeDependencies) + When(packages, InstallPackages(manager)))
  {
    AppendRanked(early, dependencies, MergeDependencies);
    AppendRanked(early + When(dependencies, MergeDependencies), packages, InstallPackages(manager));
  }

  /** The planned stages are in the fixed order of `install`, each at most once. */
  lemma PlannedRanked(p: Project, sel: Selections, env: Environment)
    ensures Ranked(Planned(p, sel, env))
  {
    var aborted := Aborted(p, sel, env);
    EarlyRanked(p.pkg.None?, |sel.files| > 0, |sel.scripts| > 0, sel.manager);
    var early := When(p.pkg.None?, Initialize(sel.manager)) + When(|sel.files| > 0, CopyFiles) + When(|sel.scripts| > 0, AddScripts);
    LateRanked(early, sel.dependencies != NoDependencies && !aborted, sel.installDependencies != No && !aborted, sel.manager);
  }

  /** The manifest after the scripts and the dependency stages, when there is one to start from. */
  function Staged(start: Manifest, sel: Selections, own: Manifest): Option<Manifest>
  {
    var withScripts := if |sel.scripts| > 0 then ScriptsAdded(start, sel.scripts, sel.manager) else start;
    if sel.dependencies != NoDependencies then DependenciesAdded(Some(withScripts), own, sel.dependencies) else Some(withScripts)
  }

  /** Once there is a manifest, the run applies the scripts and the dependency stages to it. */
  lemma RunPkg(p: Project, sel: Selections, env: Environment)
    requires p.pkg.Some? || env.initialized.Some?
    ensures Run(p, sel, env).pkg == Staged(if p.pkg.Some? then p.pkg.value else env.initialized.value, sel, env.own)
  {
    var p1 := InitStage(p, sel, env);
    var p2 := FilesStage(p1, sel, env);
    var p3 := ScriptsStage(p2, sel).0;
    InitEffect(p, sel, env);
    FilesEffect(p1, sel, env);
    ScriptsState(p2, sel);
    LaterState(p3, sel, env);
    LaterState(DependenciesStage(p3, sel, env), sel, env);
  }

  /** What the scripts and the dependency stages keep and what they add. */
  lemma StagedManifest(start: Manifest, sel: Selections, own: Manifest)
    ensures var final := Staged(start, sel, own);
      && final.Some?
      && final.value.name == start.name
      && final.value.version == start.version
      && final.value.dependencies == start.dependencies
      && final.value.peerDependencies == start.peerDependencies
      && (|sel.scripts| == 0 ==> final.value.scripts == start.scripts)
      && (|sel.scripts| > 0 ==> final.value.scripts == ScriptsAdded(start, sel.scripts, sel.manager).scripts)
      && (forall n | n in OrEmpty(start.devDependencies) ::
            n in OrEmpty(final.value.devDependencies) &&
            OrEmpty(final.value.devDependencies)[n] == OrEmpty(start.devDependencies)[n])
      && (sel.dependencies == NoDependencies ==> final.value.devDependencies == start.devDependencies)
      && (sel.dependencies.Direct? || sel.dependencies.Indirect? ==>
            GetMissingDependencies(own, final.value, sel.dependencies) == Success(map[]))
  {
    var m := if |sel.scripts| > 0 then ScriptsAdded(start, sel.scripts, sel.manager) else start;
    if sel.dependencies.Direct? || sel.dependencies.Indirect? {
      DependenciesSatisfied(m, own, sel.dependencies);
    }
  }

  /**
   * The manifest the run leaves behind, starting from an existing or an
   * initialized one: name, version, dependencies and peerDependencies are
   * untouched; the selected scripts hold their commands and the dependency
   * stage does not undo them; devDependencies keeps every entry it had and,
   * in either valid mode, afterwards declares everything the mode requires.
   */
  lemma RunManifest(p: Project, sel: Selections, env: Environment)
    requires p.pkg.Some? || env.initialized.Some?
    ensures var start := if p.pkg.Some? then p.pkg.value else env.initialized.value;
      var final := Run(p, sel, env).pkg;
      && final.Some?
      && final.value.name == start.name
      && final.value.version == start.version
      && final.value.dependencies == start.dependencies
      && final.value.peerDependencies == start.peerDependencies
      && (|sel.scripts| == 0 ==> final.value.scripts == start.scripts)
      && (|sel.scripts| > 0 ==> final.value.scripts == ScriptsAdded(start, sel.scripts, sel.manager).scripts)
      && (forall n | n in OrEmpty(start.devDependencies) ::
            n in OrEmpty(final.value.devDependencies) &&
            OrEmpty(final.value.devDependencies)[n] == OrEmpty(start.devDependencies)[n])
      && (sel.dependencies == NoDependencies ==> final.value.devDependencies == start.devDependencies)
      && (sel.dependencies.Direct? || sel.dependencies.Indirect? ==>
            GetMissingDependencies(env.own, final.value, sel.dependencies) == Success(map[]))
  {
    RunPkg(p, sel, env);
    StagedManifest(if p.pkg.Some? then p.pkg.value else env.initialized.value, sel, env.own);
  }

  /** The later stages leave the files as the files stage wrote them. */
  lemma RunKeepsFiles(p: Project, sel: Selections, env: Environment)
    ensures Run(p, sel, env).files == FilesStage(InitStage(p, sel, env), sel, env).files
  {
    var p2 := FilesStage(InitStage(p, sel, env), sel, env);
    var p3 := ScriptsStage(p2, sel).0;
    ScriptsState(p2, sel);
    LaterState(p3, sel, env);
    LaterState(DependenciesStage(p3, sel, env), sel, env);
  }

  /** What the files stage writes, on its own. */
  lemma FilesStageContents(p: Project, sel: Selections, env: Environment)
    ensures |sel.files| == 0 ==> FilesStage(p, sel, env).files == p.files
    ensures (FileNamesResolvable(sel.files, sel.dependencies);
      TemplatesPresent(FileNames(sel.files), sel.dependencies, env.templates) ==>
        var r := FilesStage(p, sel, env).files;
        && (forall i | 0 <= i < |sel.files| ::
              var (source, target) := Resolve(FileName(sel.files[i]), sel.dependencies);
              target in r && r[target] == InstalledContent(env.templates[source], target, p.pkg))
        && (forall f | f in p.files && f !in Targets(FileNames(sel.files), sel.dependencies) :: f in r && r[f] == p.files[f]))
  {
    FileNamesResolvable(sel.files, sel.dependencies);
    var names := FileNames(sel.files);
    if |sel.files| > 0 && TemplatesPresent(names, sel.dependencies, env.templates) {
      FilesInstalledContents(p.files, p.pkg, names, sel.dependencies, env.templates);
      FilesInstalledOverwrites(p.files, p.pkg, names, sel.dependencies, env.templates);
    }
  }

  /**
   * The files the run leaves behind: without selected files nothing changes;
   * with them, and their templates shipped, each selected key's resolved file
   * holds its template (the esdoc config with the manifest's name in place of
   * every placeholder), and every other file is untouched.
   */
  lemma RunFiles(p: Project, sel: Selections, env: Environment)
    ensures |sel.files| == 0 ==> Run(p, sel, env).files == p.files
    ensures (FileNamesResolvable(sel.files, sel.dependencies);
      TemplatesPresent(FileNames(sel.files), sel.dependencies, env.templates) ==>
        var pkg := InitStage(p, sel, env).pkg;
        var r := Run(p, sel, env).files;
        && (forall i | 0 <= i < |sel.files| ::
              var (source, target) := Resolve(FileName(sel.files[i]), sel.dependencies);
              target in r && r[target] == InstalledContent(env.templates[source], target, pkg))
        && (forall f | f in p.files && f !in Targets(FileNames(sel.files), sel.dependencies) :: f in r && r[f] == p.files[f]))
  {
    RunKeepsFiles(p, sel, env);
    InitEffect(p, sel, env);
    FilesStageContents(InitStage(p, sel, env), sel, env);
  }
}
