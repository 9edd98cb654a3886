/**
 * Whole runs on concrete selections: a demo project, and a directory without
 * a manifest.
 */
module Scenarios {
  import opened Wrappers
  import opened Manifests
  import opened Tables
  import opened Scripts
  import opened Dependencies
  import opened FileInstall
  import opened Orchestration

  /** `{"name": "demo", "devDependencies": {}}`, at some version. */
  function Demo(version: string): Manifest
  {
    Manifest("demo", version, None, Some(map[]), None, None)
  }

  /** babel and eslint, the lint script, INDIRECT mode, npm, no package installation. */
  function DemoSelections(): Selections
  {
    Selections(Npm, [Babel, Eslint], [Lint], Indirect, No)
  }

  /**
   * The demo run writes the delegating `.babelrc` and `.eslintrc`, stores
   * `eslint src` as the only script, and gains exactly one devDependency: the
   * tool itself at a caret range of its version.
   */
  lemma DemoRun(own: Manifest, templates: Templates, version: string)
    requires TemplatePath(Extended, ".babelrc") in templates
    requires TemplatePath(Extended, ".eslintrc") in templates
    ensures var r := Run(Project(Some(Demo(version)), map[], []), DemoSelections(), Environment(own, templates, None));
      && ".babelrc" in r.files && r.files[".babelrc"] == templates[TemplatePath(Extended, ".babelrc")]
      && ".eslintrc" in r.files && r.files[".eslintrc"] == templates[TemplatePath(Extended, ".eslintrc")]
      && r.pkg.Some?
      && r.pkg.value.scripts == Some(map["lint" := "eslint src"])
      && r.pkg.value.devDependencies == Some(map[own.name := "^" + own.version])
      && r.trace == [CopyFiles, AddScripts, MergeDependencies]
  {
    var p := Project(Some(Demo(version)), map[], []);
    var sel := DemoSelections();
    var env := Environment(own, templates, None);
    DemoFiles(p, sel, env);
    DemoPackage(p, sel, env, version);
    DemoTrace(p, sel, env);
  }

  lemma DemoFiles(p: Project, sel: Selections, env: Environment)
    requires sel == DemoSelections()
    requires TemplatePath(Extended, ".babelrc") in env.templates
    requires TemplatePath(Extended, ".eslintrc") in env.templates
    ensures var r := Run(p, sel, env).files;
      && ".babelrc" in r && r[".babelrc"] == env.templates[TemplatePath(Extended, ".babelrc")]
      && ".eslintrc" in r && r[".eslintrc"] == env.templates[TemplatePath(Extended, ".eslintrc")]
  {
    assert EsdocFile == ".esdoc.js";
    DemoResolved(env.templates);
    RunFiles(p, sel, env);
    assert Resolve(FileName(sel.files[0]), sel.dependencies) == (TemplatePath(Extended, ".babelrc"), ".babelrc");
    assert Resolve(FileName(sel.files[1]), sel.dependencies) == (TemplatePath(Extended, ".eslintrc"), ".eslintrc");
  }

  /** In INDIRECT mode babel and eslint resolve to their delegating variants. */
  lemma DemoResolved(templates: Templates)
    requires TemplatePath(Extended, ".babelrc") in templates
    requires TemplatePath(Extended, ".eslintrc") in templates
    ensures Resolvable(FileNames([Babel, Eslint]), Indirect)
    ensures Resolve(FileName(Babel), Indirect) == (TemplatePath(Extended, ".babelrc"), ".babelrc")
    ensures Resolve(FileName(Eslint), Indirect) == (TemplatePath(Extended, ".eslintrc"), ".eslintrc")
    ensures TemplatesPresent(FileNames([Babel, Eslint]), Indirect, templates)
  {
    ResolveByKey(Babel, Indirect);
    ResolveByKey(Eslint, Indirect);
    FileNamesResolvable([Babel, Eslint], Indirect);
    var names := FileNames([Babel, Eslint]);
    assert names[0] == FileName(Babel) && names[1] == FileName(Eslint);
  }

  lemma DemoPackage(p: Project, sel: Selections, env: Environment, version: string)
    requires p.pkg == Some(Demo(version)) && sel == DemoSelections()
    ensures var r := Run(p, sel, env).pkg;
      && r.Some?
      && r.value.scripts == Some(map["lint" := "eslint src"])
      && r.value.devDependencies == Some(map[env.own.name := "^" + env.own.version])
  {
    RunPkg(p, sel, env);
    DemoManifest(env.own, version);
  }

  lemma DemoTrace(p: Project, sel: Selections, env: Environment)
    requires p.pkg.Some? && p.trace == [] && sel == DemoSelections()
    ensures Run(p, sel, env).trace == [CopyFiles, AddScripts, MergeDependencies]
  {
    RunTrace(p, sel, env);
    DemoPlanned(p, sel, env);
    assert p.trace + [CopyFiles, AddScripts, MergeDependencies] == [CopyFiles, AddScripts, MergeDependencies];
  }

  lemma DemoPlanned(p: Project, sel: Selections, env: Environment)
    requires p.pkg.Some? && sel == DemoSelections()
    ensures Planned(p, sel, env) == [CopyFiles, AddScripts, MergeDependencies]
  {
    assert !Aborted(p, sel, env);
    assert Planned(p, sel, env) == [] + [CopyFiles] + [AddScripts] + [MergeDependencies] + [];
  }

  /** With no scripts object yet, adding one script yields exactly that script. */
  lemma OneScriptAdded(m: Manifest, k: ScriptKey, manager: PackageManager)
    requires m.scripts.None?
    ensures ScriptsAdded(m, [k], manager) == m.(scripts := Some(map[ScriptName(k) := ScriptCommand(k, manager)]))
  {
    assert [k][..0] == [];
    assert ScriptEntries(map[], [k], manager) == ScriptEntries(map[], [], manager)[ScriptName(k) := ScriptCommand(k, manager)];
  }

  /** Into a manifest that declares nothing, INDIRECT mode adds exactly the tool itself. */
  lemma IndirectIntoEmpty(m: Manifest, own: Manifest)
    requires DeclaredNames(m) == {} && m.devDependencies == Some(map[])
    ensures DependenciesAdded(Some(m), own, Indirect) == Some(m.(devDependencies := Some(map[own.name := "^" + own.version])))
  {
    assert map[] + map[own.name := "^" + own.version] == map[own.name := "^" + own.version];
  }

  lemma DemoManifest(own: Manifest, version: string)
    ensures var final := Staged(Demo(version), DemoSelections(), own);
      && final.Some?
      && final.value.scripts == Some(map["lint" := "eslint src"])
      && final.value.devDependencies == Some(map[own.name := "^" + own.version])
  {
    OneScriptAdded(Demo(version), Lint, Npm);
    ScriptCommandValues(Lint, Npm);
    var withScripts := Demo(version).(scripts := Some(map["lint" := "eslint src"]));
    assert DeclaredNames(withScripts) == {};
    IndirectIntoEmpty(withScripts, own);
  }

  /**
   * Without a manifest, initialization is the first stage the run starts,
   * before files, scripts and dependencies, and it runs exactly once.
   */
  lemma InitializeFirst(p: Project, sel: Selections, env: Environment)
    requires p.pkg.None?
    ensures |Added(p, sel, env)| > 0 && Added(p, sel, env)[0] == Initialize(sel.manager)
    ensures forall i | 0 < i < |Added(p, sel, env)| :: !Added(p, sel, env)[i].Initialize?
  {
    RunStages(p, sel, env);
    RunTrace(p, sel, env);
    var added := Added(p, sel, env);
    assert added == Planned(p, sel, env);
    assert added[0] == Initialize(sel.manager);
    forall i | 0 < i < |added| ensures !added[i].Initialize? {
      assert Rank(added[0]) < Rank(added[i]);
    }
  }
}
