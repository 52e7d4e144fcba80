/** The parsed manifest: the records `serde_yaml` fills from the config file.
    Paths are kept as strings; the model never looks inside them. */
module Manifest {

  type Path = string

  /** One entry of `packages`. `ensure` is "latest" or an exact apt version. */
  datatype PackageConfig = PackageConfig(name: string, ensure: string)

  /** One entry of `files`. `trigger` is "" when no service depends on the file. */
  datatype FileConfig = FileConfig(
    filename: Path,
    source: Path,
    owner: string,
    group: string,
    mode: string,
    trigger: string)

  /** The whole manifest, in the order it was written. */
  datatype ConfigType = ConfigType(packages: seq<PackageConfig>, files: seq<FileConfig>)

  /** The `ensure` value that asks for no version pin. */
  const Latest: string := "latest"
}
