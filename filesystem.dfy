/** The part of the filesystem the bookmark manager consults, as a value.
    `Path::exists`, `Path::is_dir` and `Path::canonicalize` become queries on a
    snapshot that the caller passes in. */
module FileSystem {

  datatype Kind = RegularFile | Directory

  /** What an existing path resolves to: the kind of object it names (symbolic
      links followed) and its canonical absolute form. */
  datatype Entry = Entry(kind: Kind, canonical: string)

  /** A snapshot of the filesystem: every path that exists, and what it resolves to. */
  datatype Fs = Fs(entries: map<string, Entry>) {

    /** `Path::exists` */
    predicate Exists(path: string) {
      path in entries
    }

    /** `Path::is_dir`: false for a path that does not exist */
    predicate IsDir(path: string) {
      path in entries && entries[path].kind == Directory
    }

    /** `Path::canonicalize`, whose failure on a missing path the manager unwraps,
        so a caller must know the path exists. */
    function Canonicalize(path: string): string
      requires Exists(path)
    {
      entries[path].canonical
    }

    /** What a real filesystem guarantees of canonical paths: the canonical form of
        an existing path exists too and names an object of the same kind. */
    ghost predicate Coherent() {
      forall p :: p in entries ==>
        entries[p].canonical in entries && entries[entries[p].canonical].kind == entries[p].kind
    }
  }
}
