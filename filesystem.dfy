/**
 * What the handlers learn from the file system, as plain values: the result
 * of `os.Stat` on a path and the entries `filepath.Walk` visits.
 */
module FileSystem {
  import opened Wrappers

  /** The part of `os.FileMode` the handlers inspect. `Other` covers
      symbolic links, devices, sockets and pipes: neither a directory nor
      a regular file. */
  datatype FileMode = Regular | Directory | Other {
    /** `FileMode.IsDir()` */
    predicate IsDir() { this == Directory }
    /** `FileMode.IsRegular()` */
    predicate IsRegular() { this == Regular }
  }

  /** An `os.Stat` outcome: the mode of the target, or the error's text. */
  type StatResult = Result<FileMode>

  /** One call of the walk callback: the visited path, its file info
      (None for a nil `os.FileInfo`) and the error reported for it. */
  datatype WalkEntry = WalkEntry(fpath: string, info: Option<FileMode>, err: Option<string>)
}
