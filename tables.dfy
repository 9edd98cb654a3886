/**
 * The installer's fixed tables: the config files it can create, the "extended"
 * variants used when the target depends on this tool indirectly, the scripts
 * it can register, the answers of the prompt, and the choices that are
 * checked by default.
 */
module Tables {
  import opened Wrappers

  /** The keys of `supportedFiles`, in declaration order. */
  datatype FileKey = Babel | Eslint | Prettier | Gitattributes | Editorconfig | Esdoc | Sublime

  const FileKeys: seq<FileKey> := [Babel, Eslint, Prettier, Gitattributes, Editorconfig, Esdoc, Sublime]

  /** `supportedFiles`: the canonical file name of each config file. */
  function FileName(k: FileKey): string
  {
    match k
    case Babel => ".babelrc"
    case Eslint => ".eslintrc.js"
    case Prettier => "prettier.config.js"
    case Gitattributes => ".gitattributes"
    case Editorconfig => ".editorconfig"
    case Esdoc => ".esdoc.js"
    case Sublime => "project.sublime-project"
  }

  /** `supportedFilesExtended`: the thin, delegating variant, for the keys that have one. */
  function ExtendedFileName(k: FileKey): Option<string>
  {
    match k
    case Babel => Some(".babelrc")
    case Eslint => Some(".eslintrc")
    case Esdoc => Some(".esdoc.js")
    case Prettier => Some("prettier.config.js")
    case _ => None
  }

  /** `supportedFiles.esdoc`, the documentation generator's config: the one file that is post-processed. */
  const EsdocFile: string := FileName(Esdoc)

  /** The placeholder in the esdoc template that becomes the target package's name. */
  const Placeholder: string := "package-name"

  /** `checkedFiles`: canonical names of the files offered as checked. */
  const CheckedFiles: seq<string> :=
    [FileName(Babel), FileName(Eslint), FileName(Gitattributes), FileName(Editorconfig), FileName(Prettier)]

  /** The keys of `supportedScripts`, in declaration order. */
  datatype ScriptKey = Build | Watch | Lint | Docs

  const ScriptKeys: seq<ScriptKey> := [Build, Watch, Lint, Docs]

  /** The name under which a script is stored in the manifest's `scripts` object. */
  function ScriptName(k: ScriptKey): string
  {
    match k
    case Build => "build"
    case Watch => "watch"
    case Lint => "lint"
    case Docs => "docs"
  }

  /** `supportedScripts`: the command of each script, written for yarn. */
  function ScriptTemplate(k: ScriptKey): string
  {
    match k
    case Build => "babel src --out-dir lib --copy-files"
    case Watch => "yarn build --watch"
    case Lint => "eslint src"
    case Docs => "esdoc"
  }

  /** `checkedScripts`: commands of the scripts offered as checked. */
  const CheckedScripts: seq<string> := [ScriptTemplate(Build), ScriptTemplate(Watch), ScriptTemplate(Lint)]

  datatype PackageManager = Yarn | Npm

  datatype InstallMode = Yes | No

  /**
   * The answer to the dependency question. `Unrecognized` stands for any
   * value other than the three labels the prompt offers.
   */
  datatype DependencyMode = NoDependencies | Indirect | Direct | Unrecognized(answer: string)

  /** One entry of a checkbox question: the key offered and whether it starts checked. */
  datatype Choice<K> = Choice(key: K, checked: bool)

  lemma FileNameInjective(a: FileKey, b: FileKey)
    ensures FileName(a) == FileName(b) ==> a == b
  {
  }

  lemma ScriptNameInjective(a: ScriptKey, b: ScriptKey)
    ensures ScriptName(a) == ScriptName(b) ==> a == b
  {
  }

  /**
   * The choices of the files question: every file key in table order, checked
   * when its canonical name is in `checkedFiles`. All but esdoc and sublime
   * start checked.
   */
  function FileChoices(): (cs: seq<Choice<FileKey>>)
    ensures |cs| == |FileKeys|
    ensures forall i | 0 <= i < |cs| :: cs[i].key == FileKeys[i]
    ensures forall i | 0 <= i < |cs| :: cs[i].checked <==> cs[i].key != Esdoc && cs[i].key != Sublime
  {
    seq(|FileKeys|, i requires 0 <= i < |FileKeys| => Choice(FileKeys[i], FileName(FileKeys[i]) in CheckedFiles))
  }

  /**
   * The choices of the scripts question: every script key in table order,
   * checked when its command is in `checkedScripts`. Only docs starts unchecked.
   */
  function ScriptChoices(): (cs: seq<Choice<ScriptKey>>)
    ensures |cs| == |ScriptKeys|
    ensures forall i | 0 <= i < |cs| :: cs[i].key == ScriptKeys[i]
    ensures forall i | 0 <= i < |cs| :: cs[i].checked <==> cs[i].key != Docs
  {
    seq(|ScriptKeys|, i requires 0 <= i < |ScriptKeys| => Choice(ScriptKeys[i], ScriptTemplate(ScriptKeys[i]) in CheckedScripts))
  }

  /** `Object.entries(supportedFiles).find(([key, value]) => value === name)` over `keys`. */
  function FindKey(keys: seq<FileKey>, name: string): (r: Option<FileKey>)
    ensures r.Some? ==> r.value in keys && FileName(r.value) == name
    ensures r.None? ==> forall k | k in keys :: FileName(k) != name
    decreases |keys|
  {
    if keys == [] then None
    else if FileName(keys[0]) == name then Some(keys[0])
    else FindKey(keys[1..], name)
  }

  /** The key whose canonical file name is `name`, if there is one. */
  function KeyOfFileName(name: string): (r: Option<FileKey>)
    ensures r.Some? ==> FileName(r.value) == name
    ensures r.None? ==> forall k: FileKey :: FileName(k) != name
  {
    AllKeysListed();
    FindKey(FileKeys, name)
  }

  lemma AllKeysListed()
    ensures forall k: FileKey :: k in FileKeys
  {
    forall k: FileKey ensures k in FileKeys {
      match k
      case Babel => assert FileKeys[0] == k;
      case Eslint => assert FileKeys[1] == k;
      case Prettier => assert FileKeys[2] == k;
      case Gitattributes => assert FileKeys[3] == k;
      case Editorconfig => assert FileKeys[4] == k;
      case Esdoc => assert FileKeys[5] == k;
      case Sublime => assert FileKeys[6] == k;
    }
  }

  /** The reverse lookup inverts the table: a key is found again from its file name. */
  lemma KeyOfFileNameRoundTrip(k: FileKey)
    ensures KeyOfFileName(FileName(k)) == Some(k)
  {
    var r := KeyOfFileName(FileName(k));
    FileNameInjective(r.value, k);
  }
}
