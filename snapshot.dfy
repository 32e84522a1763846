/** The filesystem as the scan sees it, frozen at one instant: what `is_dir`,
    `exists` and `read_dir` report for each input path. */
module Snapshot {
  import opened Wrappers
  import opened Paths

  /** A directory entry's file name. A name that is not valid UTF-8 keeps only
      its lossy rendering, in which each invalid sequence reads as U+FFFD. */
  datatype OsName = Utf8(text: string) | NonUtf8(lossy: string) {

    /** OsStr::to_str */
    function ToStr(): Option<string> {
      match this
      case Utf8(text) => Some(text)
      case NonUtf8(_) => None
    }

    /** OsStr::to_string_lossy */
    function Lossy(): string {
      match this
      case Utf8(text) => text
      case NonUtf8(lossy) => lossy
    }
  }

  /** One item of a `ReadDir` iterator: an entry, or an error reading it. */
  datatype EntryResult = EntryError | Entry(name: OsName)

  /** What the filesystem says about one input path. */
  datatype Listing =
    | Missing                                // does not exist
    | NotADirectory                          // exists, but is not a directory
    | Unreadable                             // a directory that `read_dir` fails on
    | Listed(entries: seq<EntryResult>)      // a directory and its listing

  type FileSystem = Path -> Listing

  /** Path::is_dir */
  predicate IsDir(l: Listing) {
    l.Unreadable? || l.Listed?
  }

  /** DirEntry::path. A name that is not UTF-8 is seen through its lossy rendering. */
  function EntryPath(dir: Path, name: OsName): Path {
    Join(dir, name.Lossy())
  }
}
