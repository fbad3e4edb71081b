/**
  The working directory as an abstract set of existing paths (folders and
  files alike), with the contents of the files that the settings step reads
  and writes. Paths are relative to the working directory.
 */
module Filesystem {
  import opened Common

  /** The path separator that `os.path.join` inserts. */
  const Sep: char := '/'

  /** `os.path.join(dir, name)` for a relative `name`; an empty `dir` adds nothing. */
  function Join(dir: string, name: string): string {
    if dir == "" then name else dir + [Sep] + name
  }

  /** The intermediate folders that `os.makedirs(p)` creates on the way to `p`. */
  function Ancestors(p: string): set<string> {
    set i | 0 < i < |p| && p[i] == Sep :: p[..i]
  }

  /** The exceptions the modelled steps let escape. */
  datatype FsError =
    | FileExists(path: string)     // the target is already there
    | NotReadable(path: string)    // `open(path, 'r')` on a path that is not a file

  /** The file system: existing paths and the contents of the files among them. */
  datatype Fs = Fs(paths: set<string>, files: map<string, string>) {
    /** Every file with contents is an existing path. */
    predicate Valid() {
      files.Keys <= paths
    }
  }

  /**
    `os.makedirs(p)`: creates `p` and every missing folder above it, and raises
    `FileExistsError` when `p` already exists.
   */
  function MakeDirs(fs: Fs, p: string): (r: Result<Fs, FsError>)
    ensures r.Err? <==> p in fs.paths
    ensures r.Err? ==> r.error == FileExists(p)
    ensures r.Ok? ==> r.value.files == fs.files
    ensures r.Ok? ==> fs.paths + {p} + Ancestors(p) == r.value.paths
  {
    if p in fs.paths then Err(FileExists(p))
    else Ok(fs.(paths := fs.paths + Ancestors(p) + {p}))
  }
}
