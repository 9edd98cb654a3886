/**
 * `installFiles` as a function on the target directory's files: for each
 * selected canonical file name, pick the template (the extended variant in
 * INDIRECT mode when there is one), copy it over the target file, and in the
 * esdoc config replace the placeholder by the manifest's name.
 */
module FileInstall {
  import opened Wrappers
  import opened Text
  import opened Manifests
  import opened Tables

  /** `files/` and `files/extended/` of the tool's own package. */
  datatype TemplateDir = Base | Extended

  datatype TemplatePath = TemplatePath(dir: TemplateDir, name: string)

  /** The tool's template files, by path. A path that is absent makes the copy fail. */
  type Templates = map<TemplatePath, string>

  /** The target directory's files other than the manifest, by file name. */
  type Files = map<string, string>

  /** In INDIRECT mode every name must be a canonical file name, or the key lookup's destructuring throws. */
  predicate Resolvable(names: seq<string>, mode: DependencyMode)
  {
    mode.Indirect? ==> forall i | 0 <= i < |names| :: KeyOfFileName(names[i]).Some?
  }

  /** The template to copy and the name to copy it to. */
  function Resolve(name: string, mode: DependencyMode): (TemplatePath, string)
    requires mode.Indirect? ==> KeyOfFileName(name).Some?
  {
    if mode.Indirect? && ExtendedFileName(KeyOfFileName(name).value).Some? then
      var extended := ExtendedFileName(KeyOfFileName(name).value).value;
      (TemplatePath(Extended, extended), extended)
    else
      (TemplatePath(Base, name), name)
  }

  /**
   * For a selected key, INDIRECT mode uses the extended variant when the key
   * has one (eslint becomes `.eslintrc`); otherwise the canonical file is used.
   */
  lemma ResolveByKey(k: FileKey, mode: DependencyMode)
    ensures KeyOfFileName(FileName(k)) == Some(k)
    ensures Resolve(FileName(k), mode) ==
      if mode.Indirect? && ExtendedFileName(k).Some? then
        (TemplatePath(Extended, ExtendedFileName(k).value), ExtendedFileName(k).value)
      else
        (TemplatePath(Base, FileName(k)), FileName(k))
  {
    KeyOfFileNameRoundTrip(k);
  }

  /** The esdoc config is the only key whose installed file is `.esdoc.js`, in every mode. */
  lemma OnlyEsdocIsPostProcessed(k: FileKey, mode: DependencyMode)
    ensures KeyOfFileName(FileName(k)) == Some(k)
    ensures Resolve(FileName(k), mode).1 == EsdocFile <==> k == Esdoc
  {
    ResolveByKey(k, mode);
  }

  /** Two selected files never land on the same target name from different templates. */
  lemma ResolveTargetDeterminesSource(a: string, b: string, mode: DependencyMode)
    requires mode.Indirect? ==> KeyOfFileName(a).Some? && KeyOfFileName(b).Some?
    ensures Resolve(a, mode).1 == Resolve(b, mode).1 ==> Resolve(a, mode).0 == Resolve(b, mode).0
  {
    if mode.Indirect? {
      var ka, kb := KeyOfFileName(a).value, KeyOfFileName(b).value;
      ResolveByKey(ka, mode);
      ResolveByKey(kb, mode);
      IndirectTargetInjective(ka, kb);
    }
  }

  /** In INDIRECT mode different keys are installed under different names. */
  lemma IndirectTargetInjective(a: FileKey, b: FileKey)
    ensures KeyOfFileName(FileName(a)) == Some(a) && KeyOfFileName(FileName(b)) == Some(b)
    ensures Resolve(FileName(a), Indirect).1 == Resolve(FileName(b), Indirect).1 ==> a == b
  {
    ResolveByKey(a, Indirect);
    ResolveByKey(b, Indirect);
  }

  /** The post-processing step: only `.esdoc.js` is rewritten, and only when the manifest and the file exist. */
  function PostProcessed(fs: Files, pkg: Option<Manifest>, target: string): Files
  {
    if target == EsdocFile && pkg.Some? && target in fs then
      fs[target := ReplaceAll(fs[target], Placeholder, pkg.value.name)]
    else
      fs
  }

  /** One iteration of the loop: copy (skipped when the template is missing), then post-process. */
  function FileInstalled(fs: Files, pkg: Option<Manifest>, name: string, mode: DependencyMode, templates: Templates): Files
    requires mode.Indirect? ==> KeyOfFileName(name).Some?
  {
    var (source, target) := Resolve(name, mode);
    var copied := if source in templates then fs[target := templates[source]] else fs;
    PostProcessed(copied, pkg, target)
  }

  /** The files after the loop has run over `names`. */
  function FilesInstalled(fs: Files, pkg: Option<Manifest>, names: seq<string>, mode: DependencyMode, templates: Templates): Files
    requires Resolvable(names, mode)
    decreases |names|
  {
    if names == [] then fs
    else
      var init := names[..|names| - 1];
      FileInstalled(FilesInstalled(fs, pkg, init, mode, templates), pkg, names[|names| - 1], mode, templates)
  }

  lemma PostProcessedCases(fs: Files, pkg: Option<Manifest>, target: string)
    ensures target == EsdocFile && pkg.Some? && target in fs ==>
      PostProcessed(fs, pkg, target) == fs[target := ReplaceAll(fs[target], Placeholder, pkg.value.name)]
    ensures !(target == EsdocFile && pkg.Some? && target in fs) ==> PostProcessed(fs, pkg, target) == fs
  {
  }

  /** One iteration, with the template and the target named. */
  lemma FileInstalledUnfolded(fs: Files, pkg: Option<Manifest>, name: string, mode: DependencyMode, templates: Templates)
    requires mode.Indirect? ==> KeyOfFileName(name).Some?
    ensures var (source, target) := Resolve(name, mode);
      FileInstalled(fs, pkg, name, mode, templates) ==
        PostProcessed(if source in templates then fs[target := templates[source]] else fs, pkg, target)
  {
  }

  /** The loop after `i + 1` names is one more iteration after `i` names. */
  lemma FilesInstalledStep(fs: Files, pkg: Option<Manifest>, names: seq<string>, i: nat, mode: DependencyMode, templates: Templates)
    requires Resolvable(names, mode) && i < |names|
    ensures Resolvable(names[..i], mode) && Resolvable(names[..i + 1], mode)
    ensures FilesInstalled(fs, pkg, names[..i + 1], mode, templates) ==
      FileInstalled(FilesInstalled(fs, pkg, names[..i], mode, templates), pkg, names[i], mode, templates)
  {
    assert names[..i + 1][..i] == names[..i];
  }

  /** Every selected file's template ships with the tool. */
  predicate TemplatesPresent(names: seq<string>, mode: DependencyMode, templates: Templates)
  {
    && Resolvable(names, mode)
    && forall i | 0 <= i < |names| :: Resolve(names[i], mode).0 in templates
  }

  /** What an installed file holds: the template, with the placeholder replaced in the esdoc config. */
  function InstalledContent(template: string, target: string, pkg: Option<Manifest>): string
  {
    if target == EsdocFile && pkg.Some? then ReplaceAll(template, Placeholder, pkg.value.name) else template
  }

  /** The target names the loop writes. */
  function Targets(names: seq<string>, mode: DependencyMode): set<string>
    requires Resolvable(names, mode)
  {
    set i | 0 <= i < |names| :: Resolve(names[i], mode).1
  }

  /** The writes of the loop, as one map from target name to content. */
  function Writes(names: seq<string>, pkg: Option<Manifest>, mode: DependencyMode, templates: Templates): (w: Files)
    requires TemplatesPresent(names, mode, templates)
    ensures w.Keys == Targets(names, mode)
    decreases |names|
  {
    if names == [] then map[]
    else
      var init := names[..|names| - 1];
      var (source, target) := Resolve(names[|names| - 1], mode);
      assert Targets(names, mode) == Targets(init, mode) + {target} by {
        forall t | t in Targets(names, mode) ensures t in Targets(init, mode) + {target} {
          var i :| 0 <= i < |names| && Resolve(names[i], mode).1 == t;
          if i < |names| - 1 {
            assert names[i] == init[i];
          }
        }
        forall t | t in Targets(init, mode) ensures t in Targets(names, mode) {
          var i :| 0 <= i < |init| && Resolve(init[i], mode).1 == t;
          assert init[i] == names[i];
        }
      }
      Writes(init, pkg, mode, templates)[target := InstalledContent(templates[source], target, pkg)]
  }

  /**
   * With every template present the loop amounts to overwriting the targets
   * with fixed contents: no other file changes and nothing depends on what the
   * targets held before.
   */
  lemma {:induction false} FilesInstalledOverwrites(fs: Files, pkg: Option<Manifest>, names: seq<string>, mode: DependencyMode, templates: Templates)
    requires TemplatesPresent(names, mode, templates)
    ensures FilesInstalled(fs, pkg, names, mode, templates) == fs + Writes(names, pkg, mode, templates)
    decreases |names|
  {
    if names != [] {
      var init, last := names[..|names| - 1], names[|names| - 1];
      TemplatesPresentPrefix(names, mode, templates);
      var w := Writes(init, pkg, mode, templates);
      var resolved := Resolve(last, mode);
      var content := InstalledContent(templates[resolved.0], resolved.1, pkg);
      FilesInstalledOverwrites(fs, pkg, init, mode, templates);
      FileInstalledOverwrites(fs + w, pkg, last, mode, templates);
      WritesLast(names, pkg, mode, templates);
      UpdateUnion(fs, w, resolved.1, content);
    }
  }

  /** The writes of all names are those of all but the last, plus the last one's. */
  lemma WritesLast(names: seq<string>, pkg: Option<Manifest>, mode: DependencyMode, templates: Templates)
    requires names != [] && TemplatesPresent(names, mode, templates)
    ensures TemplatesPresent(names[..|names| - 1], mode, templates)
    ensures var resolved := Resolve(names[|names| - 1], mode);
      Writes(names, pkg, mode, templates) ==
        Writes(names[..|names| - 1], pkg, mode, templates)[resolved.1 := InstalledContent(templates[resolved.0], resolved.1, pkg)]
  {
    TemplatesPresentPrefix(names, mode, templates);
  }

  lemma UpdateUnion(a: Files, b: Files, k: string, v: string)
    ensures (a + b)[k := v] == a + b[k := v]
  {
  }

  lemma TemplatesPresentPrefix(names: seq<string>, mode: DependencyMode, templates: Templates)
    requires names != [] && TemplatesPresent(names, mode, templates)
    ensures TemplatesPresent(names[..|names| - 1], mode, templates)
    ensures Resolve(names[|names| - 1], mode).0 in templates
  {
    var init := names[..|names| - 1];
    forall i | 0 <= i < |init| ensures init[i] == names[i] { }
  }

  /** One iteration with its template present overwrites the target with the installed content. */
  lemma FileInstalledOverwrites(fs: Files, pkg: Option<Manifest>, name: string, mode: DependencyMode, templates: Templates)
    requires mode.Indirect? ==> KeyOfFileName(name).Some?
    requires Resolve(name, mode).0 in templates
    ensures FileInstalled(fs, pkg, name, mode, templates) ==
      fs[Resolve(name, mode).1 := InstalledContent(templates[Resolve(name, mode).0], Resolve(name, mode).1, pkg)]
  {
  }

  /** Installing the same files twice gives the same files as installing them once. */
  lemma FilesInstalledIdempotent(fs: Files, pkg: Option<Manifest>, names: seq<string>, mode: DependencyMode, templates: Templates)
    requires TemplatesPresent(names, mode, templates)
    ensures FilesInstalled(FilesInstalled(fs, pkg, names, mode, templates), pkg, names, mode, templates)
         == FilesInstalled(fs, pkg, names, mode, templates)
  {
    var once := FilesInstalled(fs, pkg, names, mode, templates);
    FilesInstalledOverwrites(fs, pkg, names, mode, templates);
    FilesInstalledOverwrites(once, pkg, names, mode, templates);
    var w := Writes(names, pkg, mode, templates);
    assert (fs + w) + w == fs + w;
  }

  /** One iteration touches no name other than its own target. */
  lemma FileInstalledElsewhere(fs: Files, pkg: Option<Manifest>, name: string, mode: DependencyMode, templates: Templates, f: string)
    requires mode.Indirect? ==> KeyOfFileName(name).Some?
    requires f != Resolve(name, mode).1
    ensures f in FileInstalled(fs, pkg, name, mode, templates) <==> f in fs
    ensures f in fs ==> FileInstalled(fs, pkg, name, mode, templates)[f] == fs[f]
  {
  }

  lemma ResolvablePrefix(names: seq<string>, mode: DependencyMode)
    requires names != [] && Resolvable(names, mode)
    ensures Resolvable(names[..|names| - 1], mode)
  {
    var init := names[..|names| - 1];
    forall i | 0 <= i < |init| ensures init[i] == names[i] { }
  }

  /**
   * Whether or not the copies succeed, the loop neither creates, removes nor
   * changes any file other than the resolved targets.
   */
  lemma {:induction false} FilesInstalledFrame(fs: Files, pkg: Option<Manifest>, names: seq<string>, mode: DependencyMode, templates: Templates)
    requires Resolvable(names, mode)
    ensures forall f | f !in Targets(names, mode) ::
      (f in FilesInstalled(fs, pkg, names, mode, templates) <==> f in fs) &&
      (f in fs ==> FilesInstalled(fs, pkg, names, mode, templates)[f] == fs[f])
    decreases |names|
  {
    if names != [] {
      var init, last := names[..|names| - 1], names[|names| - 1];
      ResolvablePrefix(names, mode);
      FilesInstalledFrame(fs, pkg, init, mode, templates);
      assert Resolve(names[|names| - 1], mode).1 in Targets(names, mode);
      forall f | f !in Targets(names, mode)
        ensures f in FilesInstalled(fs, pkg, names, mode, templates) <==> f in fs
        ensures f in fs ==> FilesInstalled(fs, pkg, names, mode, templates)[f] == fs[f]
      {
        FileInstalledElsewhere(FilesInstalled(fs, pkg, init, mode, templates), pkg, last, mode, templates, f);
      }
    }
  }

  /**
   * Every selected file whose template ships ends up at its resolved name
   * holding that template, with every placeholder replaced in the esdoc
   * config, even when other copies fail.
   */
  lemma {:induction false} FilesInstalledContents(fs: Files, pkg: Option<Manifest>, names: seq<string>, mode: DependencyMode, templates: Templates)
    requires Resolvable(names, mode)
    ensures forall i | 0 <= i < |names| && Resolve(names[i], mode).0 in templates ::
      var (source, target) := Resolve(names[i], mode);
      target in FilesInstalled(fs, pkg, names, mode, templates) &&
      FilesInstalled(fs, pkg, names, mode, templates)[target] == InstalledContent(templates[source], target, pkg)
    decreases |names|
  {
    if names != [] {
      var init, last := names[..|names| - 1], names[|names| - 1];
      ResolvablePrefix(names, mode);
      FilesInstalledContents(fs, pkg, init, mode, templates);
      var before := FilesInstalled(fs, pkg, init, mode, templates);
      var r := FilesInstalled(fs, pkg, names, mode, templates);
      assert r == FileInstalled(before, pkg, last, mode, templates);
      forall i | 0 <= i < |names| && Resolve(names[i], mode).0 in templates
        ensures Resolve(names[i], mode).1 in r
        ensures r[Resolve(names[i], mode).1] == InstalledContent(templates[Resolve(names[i], mode).0], Resolve(names[i], mode).1, pkg)
      {
        ResolveTargetDeterminesSource(names[i], last, mode);
        if Resolve(names[i], mode).1 == Resolve(last, mode).1 {
          FileInstalledOverwrites(before, pkg, last, mode, templates);
        } else {
          if i < |names| - 1 {
            assert names[i] == init[i];
          }
          FileInstalledElsewhere(before, pkg, last, mode, templates, Resolve(names[i], mode).1);
        }
      }
    }
  }
}
