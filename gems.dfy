/**
 * What ingestion receives: the publish-event payload and the downloaded
 * gem specification, with RubyGems' own objects (`Gem::Version`,
 * `Gem::Requirement`, `Gem::Platform`) reduced to the strings and flags
 * the core reads from them.
 */
module Gems {
  import opened Wrappers

  /**
   * One declared dependency: a `Gem::Dependency` (target name, requirement
   * string as `Gem::Requirement#to_s` prints it, and type), or a legacy
   * `[name, requirement]` pair from an old specification.
   */
  datatype Dep =
    | GemDep(name: string, requirement: string, depType: string)
    | Legacy(name: string, requirement: string)

  /** The fields of a `Gem::Specification` the core reads. */
  datatype Spec = Spec(
    name: string,
    version: string,
    platform: string,
    prerelease: bool,
    fullName: string,
    requiredRubyVersion: Option<string>,
    requiredRubygemsVersion: Option<string>,
    dependencies: seq<Dep>)

  /** A publish event: version and platform as the index reports them. */
  datatype Payload = Payload(name: string, version: string, platform: string, prerelease: bool, fullName: string)

  /** The platform of a pure-Ruby gem, left out of version strings and download names. */
  const RubyPlatform := "ruby"

  /** A version with its platform: `number` for "ruby", `number-platform` otherwise. */
  function VersionString(number: string, platform: string): string
  {
    if platform == RubyPlatform then number else number + "-" + platform
  }

  /** Whether any dependency is a legacy pair. */
  predicate HasLegacy(deps: seq<Dep>) {
    exists i :: 0 <= i < |deps| && deps[i].Legacy?
  }
}
