/**
 * The configuration tree the checkers read: a map from each regular file's
 * normalised absolute path to its raw text.  Directories, permissions,
 * symbolic links, the working directory and byte decoding are not modelled.
 */
module Files {
  import opened Wrappers
  import opened Text
  import opened Paths

  type FileSystem = map<string, string>

  /** `os.path.exists(p)` for a file: no empty path exists. */
  predicate Exists(fs: FileSystem, p: string)
  {
    p != "" && NormPath(p) in fs
  }

  /** Reading a file in text mode: its text with newlines translated, or None when it does not exist. */
  function Read(fs: FileSystem, p: string): (r: Option<string>)
    ensures r.Some? <==> Exists(fs, p)
    ensures r.Some? ==> '\r' !in r.value
  {
    if Exists(fs, p) then Some(Translate(fs[NormPath(p)])) else None
  }

  /** `text.splitlines()` of a file read in full. */
  function ReadLines(fs: FileSystem, p: string): (r: Option<seq<string>>)
    ensures r.Some? <==> Exists(fs, p)
  {
    match Read(fs, p)
    case None => None
    case Some(t) => Some(SplitLines(t))
  }

  /** `for raw in f`: the file's lines, each but the last ending in "\n". */
  function IterLines(fs: FileSystem, p: string): (r: Option<seq<string>>)
    ensures r.Some? <==> Exists(fs, p)
  {
    match Read(fs, p)
    case None => None
    case Some(t) => Some(FileLines(t))
  }

  /** The lines of a file, or none at all when it does not exist. */
  function LinesOrEmpty(fs: FileSystem, p: string): (r: seq<string>)
    ensures !Exists(fs, p) ==> r == []
  {
    match ReadLines(fs, p)
    case None => []
    case Some(ls) => ls
  }
}
