/** What the run learns from the host, as plain values instead of I/O. */
module HostView {

  import opened Manifest

  /** The answers the host gives while the run handles one file entry:
      `contentEqual` is `file_diff::diff(source, filename)` (false when the
      target is missing), `parentIsDir` is `is_dir` on the target's parent,
      `copySucceeds` says whether `fs::copy` returns `Ok`. */
  datatype Probe = Probe(contentEqual: bool, parentIsDir: bool, copySucceeds: bool)

  /** `probe(i)` answers for the file at position `i` of the manifest, at the
      moment the run reaches it. `parentOf` stands for `Path::parent` and
      `resolveSource` for joining `source` onto the config file's folder. */
  datatype Host = Host(
    probe: nat -> Probe,
    parentOf: Path -> Path,
    resolveSource: Path -> Path)
}
