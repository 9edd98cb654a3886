/**
 * `getMissingDependencies`: which entries the target manifest lacks, given
 * this tool's own manifest and the chosen dependency mode.
 */
module Resolver {
  import opened Wrappers
  import opened Manifests
  import opened Tables

  /** The tool's own command-line libraries, never offered to a target project. */
  const CliOnly: set<string> := {"commander", "fs-extra", "inquirer", "replace-in-file"}

  /** The `switch` filter over the tool's own dependency names: it rejects exactly the CLI-only ones. */
  predicate Shareable(dep: string)
    ensures Shareable(dep) <==> dep !in CliOnly
  {
    match dep
    case "commander" => false
    case "fs-extra" => false
    case "inquirer" => false
    case "replace-in-file" => false
    case _ => true
  }

  /** `throw new Error('Invalid mode ...')`. */
  datatype ResolveError = InvalidMode(mode: DependencyMode)

  /** The tool's own runtime dependencies that a target may share, with their versions. */
  function SharedDependencies(own: Manifest): (deps: Entries)
    ensures forall n :: n in deps <==> n in OrEmpty(own.dependencies) && n !in CliOnly
    ensures forall n | n in deps :: deps[n] == OrEmpty(own.dependencies)[n]
  {
    map n | n in OrEmpty(own.dependencies) && Shareable(n) :: OrEmpty(own.dependencies)[n]
  }

  /**
   * DIRECT: every shareable own dependency the target declares nowhere, at the
   * own manifest's exact version. INDIRECT: nothing when the target already
   * declares this tool, else the tool itself at `^<own version>`. Any other
   * mode fails.
   */
  function GetMissingDependencies(own: Manifest, target: Manifest, mode: DependencyMode): (r: Result<Entries, ResolveError>)
    ensures mode.Direct? ==> r.Success?
    ensures mode.Direct? ==> forall n :: n in r.value <==>
      && n in OrEmpty(own.dependencies)
      && n !in CliOnly
      && n !in OrEmpty(target.dependencies)
      && n !in OrEmpty(target.devDependencies)
      && n !in OrEmpty(target.peerDependencies)
    ensures mode.Direct? ==> forall n | n in r.value :: r.value[n] == own.dependencies.value[n]
    ensures mode.Indirect? ==> r.Success?
    ensures mode.Indirect? && own.name in DeclaredNames(target) ==> r.value == map[]
    ensures mode.Indirect? && own.name !in DeclaredNames(target) ==> r.value == map[own.name := "^" + own.version]
    ensures !mode.Direct? && !mode.Indirect? ==> r == Failure(InvalidMode(mode))
  {
    var ownDeps := SharedDependencies(own);
    var targetDeps := DeclaredNames(target);
    match mode
    case Direct => Success(map n | n in ownDeps && n !in targetDeps :: ownDeps[n])
    case Indirect =>
      if own.name in targetDeps then Success(map[])
      else Success(map[own.name := "^" + own.version])
    case _ => Failure(InvalidMode(mode))
  }

  /** Whatever is reported missing is declared nowhere in the target, so adding it overwrites nothing. */
  lemma MissingIsUndeclared(own: Manifest, target: Manifest, mode: DependencyMode)
    requires GetMissingDependencies(own, target, mode).Success?
    ensures GetMissingDependencies(own, target, mode).value.Keys !! DeclaredNames(target)
  {
  }
}
