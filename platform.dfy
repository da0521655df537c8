/**
 * The collaborators of the checksum tool that the model does not look into:
 * the operating system's path functions, the hash of a file's contents and
 * the entries a directory walk visits. Each is a value passed in by the
 * caller, so every property below holds whatever they do, unless a lemma
 * names an assumption about them.
 */
module Platform {
  import opened Wrappers

  /** An error returned by the file system or by a path function. */
  datatype Error = Error(message: string)

  /**
   * The functions of Go's `path/filepath` package that the tool calls:
   * `Dir`, `Base`, `Join`, `IsAbs`, `Rel` (which may fail) and `Abs`
   * (which may fail).
   */
  datatype PathOps = PathOps(
    dir: string -> string,
    base: string -> string,
    join: (string, string) -> string,
    isAbs: string -> bool,
    rel: (string, string) -> Result<string, Error>,
    abs: string -> Result<string, Error>)

  /**
   * Opening a file and hashing its contents: the lower-case hexadecimal
   * MD5 digest of the file at the given path, or the error met while
   * opening or reading it.
   */
  type Hasher = string -> Result<string, Error>

  /**
   * One call of a `filepath.Walk` callback: the path visited, whether it is
   * a directory, and the error the walk passes in for it, if any.
   */
  datatype WalkEntry = WalkEntry(path: string, isDir: bool, err: Option<Error>)
}
