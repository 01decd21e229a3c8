/**
 Package identities, sources and dependencies as src/cargo/core uses them. Two source ids
 are equal when their kinds and canonical locations are, whatever precise revision they
 carry; `SourceKey` is that part, and `PackageKey` is what equality and hashing of a
 package id look at.
 */
module Packages {
  import opened Collections

  type Version = string
  type SourceKey = string

  /** A version requirement is known by the versions it accepts; an exact one accepts just its version. */
  datatype VersionReq = Exact(version: Version) | Accepting(accepts: Version -> bool) {
    predicate Matches(v: Version) {
      if Exact? then v == version else accepts(v)
    }
  }

  datatype SourceId = SourceId(key: SourceKey, url: string, precise: Option<string>)

  datatype PackageKey = PackageKey(name: string, version: Version, source: SourceKey)

  datatype PackageId = PackageId(name: string, version: Version, source: SourceId) {
    function Key(): PackageKey {
      PackageKey(name, version, source.key)
    }
  }

  datatype Dependency = Dependency(
    name: string,
    source: SourceId,
    req: VersionReq,
    onlyMatchName: bool,
    optional: bool,
    transitive: bool)
  {
    predicate MatchesIgnoringSource(id: PackageKey) {
      name == id.name && req.Matches(id.version)
    }

    predicate MatchesId(id: PackageKey) {
      name == id.name && (onlyMatchName || (req.Matches(id.version) && source.key == id.source))
    }
  }
}
