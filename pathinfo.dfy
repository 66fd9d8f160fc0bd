/**
 * The part of a Nix `ExportedPathInfo` record that the upload scheduler looks at:
 * the store path itself and the store paths it references.
 */
module PathInfo {

  /** One artifact of a closure. Records are compared by value, as the scheduler's
      graph keys are. */
  datatype ExportedPathInfo = ExportedPathInfo(path: string, references: seq<string>)

  /** `target` depends on `source`: `target` references the path of `source`, and the
      two paths differ (a self-reference is not a dependency). */
  predicate DependsOn(target: ExportedPathInfo, source: ExportedPathInfo): (r: bool)
    ensures r ==> source != target
  {
    source.path != target.path && source.path in target.references
  }
}
