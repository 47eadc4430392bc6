/** The records the archive extractor and the diff engine exchange
    (src/lib/types/index.ts). */
module Types {

  datatype Option<T> = None | Some(value: T)
  {
    function GetOr(default: T): T
    {
      match this
      case Some(v) => v
      case None => default
    }
  }

  datatype Result<T, E> = Success(value: T) | Failure(error: E)

  /** One byte of an archive. */
  newtype byte = x: int | 0 <= x < 256

  datatype PackageType = Npm | Wp

  /** A file taken from an archive; `content` is absent for binary files. */
  datatype FileEntry = FileEntry(
    path: string,
    content: Option<string>,
    isBinary: bool,
    isMinified: bool,
    size: int)

  /** Normalised path to file. */
  type FileTree = map<string, FileEntry>

  datatype DiffStatus = Added | Deleted | Modified

  datatype WordChangeType = WordEqual | WordInsert | WordDelete

  datatype WordChange = WordChange(kind: WordChangeType, text: string)

  datatype LineType = Context | Add | Delete

  datatype DiffLine = DiffLine(
    kind: LineType,
    oldNumber: Option<int>,
    newNumber: Option<int>,
    content: string,
    wordDiff: Option<seq<WordChange>>)

  datatype DiffHunk = DiffHunk(
    oldStart: int,
    oldCount: int,
    newStart: int,
    newCount: int,
    lines: seq<DiffLine>)

  datatype DiffFile = DiffFile(
    path: string,
    status: DiffStatus,
    isBinary: bool,
    isMinified: bool,
    hunks: seq<DiffHunk>,
    oldContent: Option<string>,
    newContent: Option<string>)

  datatype DiffStats = DiffStats(files: int, insertions: int, deletions: int)

  datatype DiffResult = DiffResult(
    packageType: PackageType,
    packageName: string,
    fromVersion: string,
    toVersion: string,
    files: seq<DiffFile>,
    stats: DiffStats)

  /** The optional `children` array of a tree node. */
  datatype Children = NoChildren | ChildNodes(nodes: seq<TreeNode>)

  /** A node of the file browser: a directory (with children) or a file. */
  datatype TreeNode = TreeNode(
    name: string,
    path: string,
    isDirectory: bool,
    status: Option<DiffStatus>,
    children: Children,
    file: Option<DiffFile>)
}
