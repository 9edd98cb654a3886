/**
 * `addDependencies` as a function on the (possibly missing) manifest: merge
 * the resolver's missing entries into `devDependencies`, creating it when
 * absent; every failure is caught and leaves the manifest as it was.
 */
module Dependencies {
  import opened Wrappers
  import opened Manifests
  import opened Tables
  import opened Resolver

  /** The manifest with `missing` merged into `devDependencies`. */
  function Merged(m: Manifest, missing: Entries): Manifest
  {
    m.(devDependencies := Some(OrEmpty(m.devDependencies) + missing))
  }

  /**
   * The manifest after `addDependencies`. It is unchanged when there is no
   * manifest, when the mode is invalid, or when nothing is missing; otherwise
   * only `devDependencies` changes: it gains the missing entries and keeps
   * every entry it had.
   */
  function DependenciesAdded(pkg: Option<Manifest>, own: Manifest, mode: DependencyMode): (r: Option<Manifest>)
    ensures pkg.None? ==> r == pkg
    ensures !mode.Direct? && !mode.Indirect? ==> r == pkg
    ensures pkg.Some? ==> r.Some? && r.value == pkg.value.(devDependencies := r.value.devDependencies)
    ensures pkg.Some? ==> forall n | n in OrEmpty(pkg.value.devDependencies) ::
      n in OrEmpty(r.value.devDependencies) && OrEmpty(r.value.devDependencies)[n] == OrEmpty(pkg.value.devDependencies)[n]
    ensures pkg.Some? && GetMissingDependencies(own, pkg.value, mode).Success? ==>
      var missing := GetMissingDependencies(own, pkg.value, mode).value;
      && (missing == map[] ==> r == pkg)
      && (missing != map[] ==>
            && r.value.devDependencies.Some?
            && r.value.devDependencies.value.Keys == OrEmpty(pkg.value.devDependencies).Keys + missing.Keys
            && forall n | n in missing :: r.value.devDependencies.value[n] == missing[n])
  {
    match pkg
    case None => pkg
    case Some(target) =>
      match GetMissingDependencies(own, target, mode)
      case Failure(_) => pkg
      case Success(missing) =>
        if |missing| > 0 then
          MissingIsUndeclared(own, target, mode);
          Some(Merged(target, missing))
        else
          assert missing == map[];
          pkg
  }

  /**
   * After `addDependencies` in either valid mode, the resolver finds nothing
   * missing any more: the target declares everything the mode asks for.
   */
  lemma DependenciesSatisfied(m: Manifest, own: Manifest, mode: DependencyMode)
    requires mode.Direct? || mode.Indirect?
    ensures GetMissingDependencies(own, DependenciesAdded(Some(m), own, mode).value, mode) == Success(map[])
  {
    var after := DependenciesAdded(Some(m), own, mode).value;
    var missing := GetMissingDependencies(own, m, mode).value;
    assert DeclaredNames(m) <= DeclaredNames(after);
    assert missing.Keys <= DeclaredNames(after);
    var again := GetMissingDependencies(own, after, mode).value;
    if mode.Direct? {
      forall n | n in SharedDependencies(own) ensures n in DeclaredNames(after) {
        if n !in DeclaredNames(m) {
          assert n in missing;
        }
      }
    }
    assert again == map[];
  }

  /** Running `addDependencies` a second time writes nothing. */
  lemma DependenciesAddedIdempotent(pkg: Option<Manifest>, own: Manifest, mode: DependencyMode)
    ensures DependenciesAdded(DependenciesAdded(pkg, own, mode), own, mode) == DependenciesAdded(pkg, own, mode)
  {
    if pkg.Some? && (mode.Direct? || mode.Indirect?) {
      DependenciesSatisfied(pkg.value, own, mode);
    }
  }
}
