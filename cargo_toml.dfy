/** The parts of a parsed Cargo manifest that the installer reads.

    A manifest's `[dependencies]` table maps each key to either a bare
    version string or a table of details. Parsing the TOML text itself is
    not part of this model: the installer receives the table already parsed,
    as a sequence of (key, dependency) entries in the table's iteration
    order. */
module CargoToml {

  datatype Option<T> = None | Some(value: T)

  /** The fields of a detailed dependency table that the installer uses. */
  datatype DependencyDetail = DependencyDetail(
    version: Option<string>,
    registry: Option<string>,
    registryIndex: Option<string>,
    path: Option<string>,
    git: Option<string>,
    branch: Option<string>,
    tag: Option<string>,
    rev: Option<string>,
    package: Option<string>,
    features: seq<string>,
    defaultFeatures: Option<bool>)

  /** `foo = "1.0"` is Simple; `foo = { ... }` is Detailed. */
  datatype Dependency =
    | Simple(version: string)
    | Detailed(detail: DependencyDetail)

  /** One entry of the dependencies table: the manifest key and its value. */
  type Entry = (string, Dependency)
}
