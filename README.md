# babel7-base installer, modelled in Dafny

`babel7-base` is a shared Babel 7 / ESLint / Prettier configuration that ships
with a command-line installer. The installer (`cli/install.js`) sets up a
target project in five stages:

1. it initializes a `package.json` with `<manager> init -y` when none exists;
2. it copies the selected config-file templates, using the thin "extended"
   variants in INDIRECT dependency mode, and writes the target's package name
   into the esdoc config;
3. it registers the selected npm scripts, rewriting `yarn` to `npm run` for npm;
4. it merges the missing devDependencies into the manifest (DIRECT: every
   shareable runtime dependency of the tool; INDIRECT: the tool itself at
   `^version`);
5. it runs `<manager> install`.

The model has these modules:

- `Wrappers`: `Option` and `Result`.
- `Text`: the global regex replacement `s.replace(/pat/g, rep)`, with a
  split/join characterisation.
- `Manifests`: the manifest as a value. Its dependency objects are maps.
- `Tables`: the constant tables, the reverse file-name lookup, and the
  checked defaults of the two checkbox questions.
- `Resolver`: `getMissingDependencies`.
- `Scripts`: the `installScripts` loop as a fold.
- `Dependencies`: `addDependencies` as a function.
- `FileInstall`: the `installFiles` loop as a fold.
- `Orchestration`: `install` as a composition of stage functions over one
  shared manifest value.
- `Installer`: a `Target` class whose methods run the same loops imperatively
  on the directory's fields. Each method is proved equal to the corresponding
  function.
- `Scenarios`: a concrete demo run, and a lemma about every run without a
  manifest.

The manifest is one shared value because Node caches what `require` returns.
`getPackage` therefore hands every stage the same object, and the scripts
stage's edits are visible to the dependency stage without re-reading the
disk. The model threads one `Option<Manifest>` through the stages:

- `None` means there is no manifest.
- The result of `init -y` enters as the parameter `initialized`.
- Disk writes of the manifest are not modelled separately from the in-memory
  object.

Two facts about the code shape the model:

- **One abort case.** `install` is fail-soft except for one case:
  `installScripts` calls `getPackage` outside its `try`
  (cli/install.js:180). When scripts are selected and there is still no
  manifest (`init` failed), the `require` throws, `install` rejects, and the
  dependency and package-installation stages are skipped. `Run` and
  `Aborted` model this, and `RunStages` states it.
- **One shared manifest.** Every stage shares the one object that `require`
  caches, as described above; no stage re-reads the manifest from disk.

## Model

| member | source | states |
|---|---|---|
| Tables.FileName | cli/install.js:7-15 | `supportedFiles`: the canonical file name of each of the seven config-file keys, in declaration order. Specified by `KeyOfFileNameRoundTrip` (the names are distinct) and `FileChoices`. |
| Tables.ExtendedFileName | cli/install.js:25-30 | `supportedFilesExtended`: the delegating variant for babel, eslint, esdoc and prettier, and none for the other keys. Specified by `ResolveByKey` and `IndirectTargetInjective`. |
| Tables.CheckedFiles | cli/install.js:17-23 | `checkedFiles`: babel, eslint, gitattributes, editorconfig and prettier. Specified by `FileChoices`. |
| Tables.ScriptName | cli/install.js:32-37 | The keys of `supportedScripts`, under which each script is stored. Specified by `ScriptChoices` and `ScriptEntriesSpec`. |
| Tables.ScriptTemplate | cli/install.js:32-37 | `supportedScripts`: the command of each script, written for yarn. Specified by `ScriptCommandValues` and `WatchUnderNpm`. |
| Tables.CheckedScripts | cli/install.js:38 | `checkedScripts`: the build, watch and lint commands. Specified by `ScriptChoices`. |
| Resolver.CliOnly | cli/install.js:230-233 | The four names the `switch` rejects: commander, fs-extra, inquirer and replace-in-file. Specified by `Shareable`. |
| Orchestration.FileNames | cli/install.js:107 | `files.map(f => supportedFiles[f])`. Specified by `FileNamesResolvable`. |
| Tables.FileChoices | cli/install.js:63-71 | The files question offers every key of `supportedFiles` in table order. A key starts checked exactly when its file name is in `checkedFiles`: all except esdoc and sublime. |
| Tables.ScriptChoices | cli/install.js:72-80 | The scripts question offers every script in table order. Exactly `docs` starts unchecked, because its command is not in `checkedScripts`. |
| Tables.FindKey | cli/install.js:143 | The `find` over the entries of `supportedFiles`. A found key has the searched file name; when nothing is found, no listed key has that name. |
| Tables.KeyOfFileName | cli/install.js:143 | The reverse lookup of a file name over all keys. A result maps back to the name; `None` means no key has that name. |
| Tables.KeyOfFileNameRoundTrip | cli/install.js:7-15 | `supportedFiles` is injective: every key is found again from its own file name. |
| Resolver.Shareable | cli/install.js:229-237 | The `switch` rejects exactly the four CLI-only names (commander, fs-extra, inquirer, replace-in-file) and accepts every other name. |
| Resolver.SharedDependencies | cli/install.js:228-238 | `ownDeps`: the tool's runtime dependencies minus the CLI-only denylist (commander, fs-extra, inquirer, replace-in-file), with their version strings. |
| Resolver.GetMissingDependencies | cli/install.js:227-268 | DIRECT gives exactly the shared dependencies that the target declares nowhere, each with the tool's own version string. INDIRECT gives nothing when the tool's name is already declared, and otherwise exactly `{name: "^" + version}`. Any other mode fails with `InvalidMode`. |
| Resolver.MissingIsUndeclared | cli/install.js:246-264 | Nothing reported missing is declared anywhere in the target. |
| Dependencies.DependenciesAdded | cli/install.js:206-225 | With no manifest, or an invalid mode (both caught by the `try`), the manifest is unchanged. Otherwise only `devDependencies` changes: it keeps every entry it had, gains exactly the missing names with their versions, and is left alone when nothing is missing. |
| Dependencies.DependenciesSatisfied | cli/install.js:206-264 | After `addDependencies` in DIRECT or INDIRECT mode, the resolver finds nothing missing. |
| Dependencies.DependenciesAddedIdempotent | cli/install.js:206-225 | Adding dependencies twice leaves the same manifest as adding them once. |
| Text.ReplaceAll | cli/install.js:167-171 | `s.replace(/pat/g, rep)` on a literal pattern and a replacement without `$` patterns. Specified by `ReplaceAllIsSplitJoin`, `ReplaceAllAbsent` and `ReplaceFirstOnly`. |
| Scripts.ScriptCommand | cli/install.js:183-188 | The command stored for one script: the template, with `yarn` rewritten to `npm run` under npm. Specified by `WatchUnderNpm`, `OthersVerbatimUnderNpm` and `ScriptCommandValues`. |
| Scripts.ScriptEntries | cli/install.js:181-189 | The scripts object after the `forEach` over the selected scripts. Specified by `ScriptEntriesSpec`. |
| Dependencies.Merged | cli/install.js:213-217 | The manifest with the missing entries set in its devDependencies, created when absent. Specified by `DependenciesAdded`, `DependenciesSatisfied` and `DependenciesAddedIdempotent`. |
| FileInstall.Resolve | cli/install.js:136-151 | The template to copy and the name to copy it to. Specified by `ResolveByKey`, `OnlyEsdocIsPostProcessed`, `ResolveTargetDeterminesSource` and `IndirectTargetInjective`. |
| FileInstall.PostProcessed | cli/install.js:164-175 | The esdoc substitution, skipped when there is no manifest or no `.esdoc.js` (the two throws the `try` catches). Specified through `FilesInstalledContents`. |
| FileInstall.FileInstalled | cli/install.js:136-175 | One iteration of the loop: copy when the template ships, then post-process. Specified by `FilesInstalledOverwrites` and `FilesInstalledContents`. |
| FileInstall.FilesInstalled | cli/install.js:133-177 | The loop over all selected names. Specified by `FilesInstalledFrame`, `FilesInstalledContents`, `FilesInstalledOverwrites` and `FilesInstalledIdempotent`, and implemented by `Installer.Target.InstallFiles`. |
| Orchestration.InitStage | cli/install.js:101-103 | The initialization stage, run when there is no manifest. Specified by `RunStages` and `InitializeFirst`. |
| Orchestration.FilesStage | cli/install.js:105-109 | The file stage, run when files are selected. Specified by `RunFiles`. |
| Orchestration.ScriptsStage | cli/install.js:111-113 | The scripts stage, run when scripts are selected; it reports the throw of a missing manifest. Specified by `RunStages` and `RunManifest`. |
| Orchestration.DependenciesStage | cli/install.js:115-117 | The dependency stage, run unless the mode is NONE. Specified by `RunStages` and `RunManifest`. |
| Orchestration.PackagesStage | cli/install.js:119-121 | The package-installation stage, run unless the answer is NO. Specified by `RunStages`. |
| Orchestration.Run | cli/install.js:97-122 | `install` as the composition of the five stages. Specified by `RunTrace`, `RunStages`, `PlannedRanked`, `RunManifest` and `RunFiles`, and implemented by `Installer.Target.Install`. |
| Text.ReplaceAllIsSplitJoin | cli/install.js:166-171 | The global replacement equals splitting the text at the pattern and joining the pieces with the replacement. Splitting and joining with the pattern gives the text back, and no piece contains the pattern: every occurrence is replaced and nothing else changes. |
| Text.SplitJoinRoundTrip | cli/install.js:166-171 | Joining the split pieces with the pattern itself restores the text. |
| Text.SplitPiecesClean | cli/install.js:166-171 | No split piece contains the pattern. |
| Text.ReplaceAllAbsent | cli/install.js:185-187 | A text that does not contain the pattern is unchanged by the replacement, so the `includes('yarn')` guard changes no result. |
| Text.ReplaceFirstOnly | cli/install.js:185-187 | A text that begins with the pattern and contains no further start of it has only that leading occurrence replaced. |
| Scripts.WatchUnderNpm | cli/install.js:32-37 | Under npm, `watch` is stored as `npm run build --watch`. |
| Scripts.OthersVerbatimUnderNpm | cli/install.js:183-188 | Under npm, every command other than `watch` is stored verbatim: none mentions yarn. |
| Scripts.ScriptCommandValues | cli/install.js:182-189 | The stored command of every script under both managers: only `watch` under npm differs from its template. |
| Scripts.ScriptEntriesSpec | cli/install.js:181-189 | After the `forEach`, the scripts object holds its old names plus the selected ones. Each selected script holds its command, and every other entry is untouched. |
| Scripts.ScriptsAdded | cli/install.js:179-195 | `installScripts` on an existing manifest changes only `scripts`, which it creates when absent. The selected names are set; all other names keep their presence and values. |
| Scripts.ScriptsAddedIdempotent | cli/install.js:179-195 | Installing the same scripts twice gives the manifest that installing them once gives. |
| FileInstall.ResolveByKey | cli/install.js:136-151 | For a selected key, INDIRECT mode uses the extended template and file name when the key has one (`.eslintrc` for eslint). DIRECT, NONE and the keys without a variant use the canonical template and name. |
| FileInstall.OnlyEsdocIsPostProcessed | cli/install.js:164-175 | In every mode, the esdoc config is the only key whose installed file is `.esdoc.js`, the one file that gets the substitution. |
| FileInstall.ResolveTargetDeterminesSource | cli/install.js:136-157 | Two files installed under the same name come from the same template. |
| FileInstall.IndirectTargetInjective | cli/install.js:25-30 | In INDIRECT mode different keys are installed under different names. |
| FileInstall.Writes | cli/install.js:133-177 | The loop's writes cover exactly the resolved target names. |
| FileInstall.FilesInstalledOverwrites | cli/install.js:133-177 | With every template present, the loop overwrites the resolved targets with fixed contents. No other file changes, and the result does not depend on what the targets held before. |
| FileInstall.FilesInstalledFrame | cli/install.js:133-177 | Whether or not the copies succeed, no file other than the resolved targets is created, removed or changed. |
| FileInstall.FilesInstalledContents | cli/install.js:133-177 | Every selected file whose template ships ends up at its resolved name holding that template, even when other copies fail (a failed copy is caught and the loop goes on). The esdoc config holds it with every `package-name` replaced by the manifest's name. |
| FileInstall.FilesInstalledIdempotent | cli/install.js:133-177 | With every template present, installing the same files twice gives the files that installing them once gives. |
| Orchestration.FileNamesResolvable | cli/install.js:105-109 | The names that `install` maps from the selected keys are their canonical names, one per key in order, and they always resolve, so the INDIRECT lookup never fails. |
| Orchestration.RunTrace | cli/install.js:97-122 | The run appends exactly the planned stages to the record of stages. |
| Orchestration.RunStages | cli/install.js:97-122 | Initialization runs iff the manifest is absent. Files run iff any are selected; scripts iff any are selected. Dependencies run iff the mode is not NONE, and package installation iff the install answer is not NO; these two also require that the scripts stage did not throw. Stages run in the fixed order, each at most once. |
| Orchestration.PlannedContains | cli/install.js:97-122 | A stage is planned exactly when its condition in `install` holds. |
| Orchestration.PlannedRanked | cli/install.js:97-122 | Planned stages are in `install`'s order, each at most once. |
| Orchestration.RunManifest | cli/install.js:97-122 | Starting from an existing or initialized manifest, the run leaves name, version, dependencies and peerDependencies untouched. The selected scripts hold their commands, and the dependency stage does not undo them. devDependencies keeps every old entry. In either valid mode, nothing required is missing afterwards. |
| Orchestration.RunFiles | cli/install.js:97-122 | Without selected files, no file changes. With selected files whose templates are present, each resolved target holds its installed content and every other file is untouched. The scripts and dependency stages never touch files. |
| Installer.SetEach | cli/install.js:214-217 | The `forEach` that sets each missing entry yields the old devDependencies overridden by the missing ones. |
| Installer.Target.constructor | cli/install.js:97-100 | A target directory with its manifest (or none), its files, and no stages started. |
| Installer.Target.InitializePackage | cli/install.js:124-131 | The manifest afterwards is whatever `init -y` produced, or none when it failed. |
| Installer.Target.InstallFiles | cli/install.js:133-177 | The in-place loop leaves the files equal to `FilesInstalled` of the old files. |
| Installer.Target.InstallScripts | cli/install.js:179-195 | With no manifest it throws, because `getPackage` is outside the `try`. Otherwise the in-place loop leaves the manifest equal to `ScriptsAdded`. |
| Installer.Target.AddDependencies | cli/install.js:206-225 | The in-place merge leaves the manifest equal to `DependenciesAdded` of the old one. |
| Installer.Target.Install | cli/install.js:97-122 | Running the stages in place leaves the directory equal to `Run` of its old state. |
| Scenarios.DemoRun | cli/install.js:97-122 | The demo project has manifest `{"name": "demo", "devDependencies": {}}`. With babel and eslint, lint, INDIRECT and npm selected, it ends with `.babelrc` and `.eslintrc` from the extended templates and `scripts` equal to `{"lint": "eslint src"}`. devDependencies holds exactly the tool at `^version`, and the stages run are files, scripts, dependencies. |
| Scenarios.InitializeFirst | cli/install.js:101-103 | Without a manifest, initialization is the first stage started and is not started again. |

## Left out

- Disk I/O is not modelled as such. Manifest writes (`fs.writeJson`) and their failures are not separate from the in-memory manifest. A failed copy is modelled only as a template that does not ship. `replace-in-file`'s two failures that the `try` catches, no manifest and no `.esdoc.js`, are modelled by `FileInstall.PostProcessed`; its I/O errors (an unreadable or unwritable file) are not.
- The replacement inside `replace-in-file` is modelled as a pure global replacement on the file's text. Reading and writing the file, and its encoding, are left out.
- JSON key order and formatting are left out. Dependency and script objects are maps, so the order in which entries appear in `package.json` is not modelled.
- `execAsync` and its subprocesses are left out. The effect of `<manager> init -y` is a parameter of the run. `<manager> install` appears only as a stage marker, because its effect is outside the target's manifest and files.
- Logging is left out, as are asynchrony and the `await` ordering beyond the sequence of stages.
- The prompt (`inquirer`) and `cli/index.js` are not part of this model, including the question messages and the default answers. Only the checked defaults of the two checkbox questions are modelled.
- The answer labels of `DependencyMode` are left out. A dependency mode is one of three values or `Unrecognized` for any other answer.
- The content of the template files, including `files/.esdoc.js`, is a parameter of the run. Only the `package-name` placeholder matters.
- FileInstall.PostProcessed: the manifest name is inserted literally. `replace-in-file` passes it to `String.prototype.replace`, which expands `$&`, `$$`, `` $` `` and `$'` in a replacement string, so a name such as `a$&b` would be written as `apackage-nameb` and `a$$b` as `a$b`. The model does not capture this expansion; it agrees with the source for every name without `$`.
- A manifest without a `name` field is not modelled: the esdoc substitution would insert `undefined`.
- FileInstall.Resolve: the INDIRECT reverse lookup destructures the result of `find`, so it throws a TypeError on a name that is not in `supportedFiles`. The model requires the name to be canonical instead, and `install` only passes canonical names (`Orchestration.FileNamesResolvable`).
- Scripts.ScriptCommand: the function omits the `includes('yarn')` guard. It is present in `Installer.Target.InstallScripts`, and `Text.ReplaceAllAbsent` shows it changes no result.
