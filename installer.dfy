/**
 * The installer as it runs: a target directory whose in-memory manifest (the
 * one object every `require` of its `package.json` returns), other files and
 * record of stages the stage methods update in place, loop by loop.
 */
module Installer {
  import opened Wrappers
  import opened Text
  import opened Manifests
  import opened Tables
  import opened Resolver
  import opened Scripts
  import opened Dependencies
  import opened FileInstall
  import opened Orchestration

  /** The `forEach` that sets each missing entry: later entries win, earlier ones stay. */
  method SetEach(base: Entries, missing: Entries) returns (dev: Entries)
    ensures dev == base + missing
  {
    dev := base;
    var pending := missing.Keys;
    while pending != {}
      invariant pending <= missing.Keys
      invariant dev == base + map n | n in missing.Keys - pending :: missing[n]
      decreases pending
    {
      var n :| n in pending;
      dev := dev[n := missing[n]];
      pending := pending - {n};
    }
    assert missing == map n | n in missing.Keys - pending :: missing[n];
  }

  class Target {
    /** The cached manifest object; None while the directory has no `package.json`. */
    var pkg: Option<Manifest>
    /** The directory's other files, by name. */
    var files: Files
    /** The stages started so far. */
    var trace: seq<Stage>

    constructor (pkg: Option<Manifest>, files: Files)
      ensures this.pkg == pkg && this.files == files && trace == []
    {
      this.pkg := pkg;
      this.files := files;
      trace := [];
    }

    /** The directory as a value, for the specification of `install`. */
    function Snapshot(): Project
      reads this
    {
      Project(pkg, files, trace)
    }

    /** `initializePackage`: the manifest is whatever `<manager> init -y` produced, if anything. */
    method InitializePackage(initialized: Option<Manifest>)
      modifies this`pkg
      ensures pkg == initialized
    {
      pkg := initialized;
    }

    /**
     * `installFiles`: for each name, redirect to the extended template in
     * INDIRECT mode, copy the template over the target when it ships, and
     * rewrite the placeholder in the esdoc config when the manifest loads.
     */
    method InstallFiles(names: seq<string>, mode: DependencyMode, templates: Templates)
      requires Resolvable(names, mode)
      modifies this`files
      ensures files == FilesInstalled(old(files), pkg, names, mode, templates)
    {
      for i := 0 to |names|
        invariant files == FilesInstalled(old(files), pkg, names[..i], mode, templates)
      {
        ghost var before := files;
        var file := names[i];
        var source := TemplatePath(Base, file);
        if mode.Indirect? {
          var key := KeyOfFileName(file).value;
          if ExtendedFileName(key).Some? {
            source := TemplatePath(Extended, ExtendedFileName(key).value);
            file := ExtendedFileName(key).value;
          }
        }
        var target := file;
        assert (source, target) == Resolve(names[i], mode);
        if source in templates {
          files := files[target := templates[source]];
        }
        ghost var copied := files;
        if file == EsdocFile && pkg.Some? && target in files {
          files := files[target := ReplaceAll(files[target], Placeholder, pkg.value.name)];
        }
        PostProcessedCases(copied, pkg, target);
        FileInstalledUnfolded(before, pkg, names[i], mode, templates);
        FilesInstalledStep(old(files), pkg, names, i, mode, templates);
      }
      assert names[..|names|] == names;
    }

    /**
     * `installScripts`: loading the manifest throws when there is none, which
     * rejects the caller; otherwise each script is set, with `yarn` rewritten
     * to `npm run` under npm when the command mentions it.
     */
    method InstallScripts(keys: seq<ScriptKey>, manager: PackageManager) returns (threw: bool)
      modifies this`pkg
      ensures threw <==> old(pkg).None?
      ensures pkg == if old(pkg).None? then old(pkg) else Some(ScriptsAdded(old(pkg).value, keys, manager))
    {
      if pkg.None? {
        return true;
      }
      var m := pkg.value;
      var scripts := OrEmpty(m.scripts);
      for i := 0 to |keys|
        invariant scripts == ScriptEntries(OrEmpty(m.scripts), keys[..i], manager)
      {
        var value := ScriptTemplate(keys[i]);
        if manager == Npm && Contains(value, "yarn") {
          value := ReplaceAll(value, "yarn", "npm run");
        } else if manager == Npm {
          ReplaceAllAbsent(value, "yarn", "npm run");
        }
        scripts := scripts[ScriptName(keys[i]) := value];
        assert keys[..i + 1][..i] == keys[..i];
      }
      assert keys[..|keys|] == keys;
      pkg := Some(m.(scripts := Some(scripts)));
      return false;
    }

    /**
     * `addDependencies`: nothing changes when the manifest is absent or the
     * mode is invalid (both throw inside the `try`); otherwise each missing
     * entry is set in devDependencies.
     */
    method AddDependencies(own: Manifest, mode: DependencyMode)
      modifies this`pkg
      ensures pkg == DependenciesAdded(old(pkg), own, mode)
    {
      if pkg.None? {
        return;
      }
      var target := pkg.value;
      var found := GetMissingDependencies(own, target, mode);
      if found.Failure? {
        return;
      }
      var missing := found.value;
      if |missing| > 0 {
        var dev := SetEach(OrEmpty(target.devDependencies), missing);
        pkg := Some(target.(devDependencies := Some(dev)));
      }
    }

    /**
     * `install`: initialize when there is no manifest, then files, scripts,
     * dependencies and package installation as selected, recording each
     * stage as it starts. A throw from the scripts stage ends the run.
     */
    method Install(sel: Selections, own: Manifest, templates: Templates, initialized: Option<Manifest>)
      modifies this
      ensures Snapshot() == Run(old(Snapshot()), sel, Environment(own, templates, initialized))
    {
      ghost var env := Environment(own, templates, initialized);
      ghost var p0 := Snapshot();
      if pkg.None? {
        trace := trace + [Initialize(sel.manager)];
        InitializePackage(initialized);
      }
      ghost var p1 := Snapshot();
      assert p1 == InitStage(p0, sel, env);
      if |sel.files| > 0 {
        FileNamesResolvable(sel.files, sel.dependencies);
        trace := trace + [CopyFiles];
        InstallFiles(FileNames(sel.files), sel.dependencies, templates);
      }
      ghost var p2 := Snapshot();
      assert p2 == FilesStage(p1, sel, env);
      if |sel.scripts| > 0 {
        trace := trace + [AddScripts];
        var threw := InstallScripts(sel.scripts, sel.manager);
        if threw {
          assert Snapshot() == ScriptsStage(p2, sel).0;
          return;
        }
      }
      ghost var p3 := Snapshot();
      assert (p3, false) == ScriptsStage(p2, sel);
      if sel.dependencies != NoDependencies {
        trace := trace + [MergeDependencies];
        AddDependencies(own, sel.dependencies);
      }
      assert Snapshot() == DependenciesStage(p3, sel, env);
      if sel.installDependencies != No {
        trace := trace + [InstallPackages(sel.manager)];
      }
    }
  }
}
