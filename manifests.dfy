/**
 * The project manifest (`package.json`) as far as the installer reads or
 * writes it: the package's name and version and four optional string-to-string
 * objects.
 */
module Manifests {
  import opened Wrappers

  /** A JSON object whose values are strings: dependency versions or script commands. */
  type Entries = map<string, string>

  datatype Manifest = Manifest(
    name: string,
    version: string,
    dependencies: Option<Entries>,
    devDependencies: Option<Entries>,
    peerDependencies: Option<Entries>,
    scripts: Option<Entries>)

  /** `field || {}`: an absent object reads as the empty one. */
  function OrEmpty(field: Option<Entries>): Entries
  {
    match field
    case Some(entries) => entries
    case None => map[]
  }

  /** The package names a manifest declares in any of its three dependency objects. */
  function DeclaredNames(m: Manifest): set<string>
  {
    OrEmpty(m.dependencies).Keys + OrEmpty(m.devDependencies).Keys + OrEmpty(m.peerDependencies).Keys
  }
}
