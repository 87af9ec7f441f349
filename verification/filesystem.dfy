/** The filesystem as the handlers observe it: a finite map from file paths to
    contents and a finite set of directory paths, keyed by the path text. */
module FileSystems {
  import opened Wrappers
  import opened Bytes
  import opened Paths

  datatype FileSystem = FileSystem(files: map<Path, seq<Byte>>, dirs: set<Path>)

  /** `os.path.exists`. */
  predicate Exists(fs: FileSystem, p: Path) {
    p in fs.files || p in fs.dirs
  }

  /** `os.path.isfile`. */
  predicate IsFile(fs: FileSystem, p: Path) {
    p in fs.files
  }

  /** `os.path.isdir`. */
  predicate IsDir(fs: FileSystem, p: Path) {
    p in fs.dirs
  }

  /** Every path that exists; finite, which is what makes every name search end. */
  function Existing(fs: FileSystem): (r: set<Path>)
    ensures forall p :: p in r <==> Exists(fs, p)
  {
    fs.files.Keys + fs.dirs
  }

  /** Contents of a regular file, or `None` when there is none to open. */
  function Read(fs: FileSystem, p: Path): Option<seq<Byte>> {
    if p in fs.files then Some(fs.files[p]) else None
  }

  /** `open(p, "wb").write(data)`. */
  function Write(fs: FileSystem, p: Path, data: seq<Byte>): FileSystem {
    fs.(files := fs.files[p := data])
  }

  /** `os.remove(p)`. */
  function Remove(fs: FileSystem, p: Path): FileSystem {
    fs.(files := fs.files - {p})
  }

  /** `os.makedirs(p)`. */
  function MakeDir(fs: FileSystem, p: Path): FileSystem {
    fs.(dirs := fs.dirs + {p})
  }
}
