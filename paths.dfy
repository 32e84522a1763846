/** `std::path::Path` as the sequence of its components, which is how Rust
    compares and hashes paths: `/usr/bin` and `/usr/bin/` are one path. */
module Paths {
  import opened Wrappers
  import opened Orders
  import opened Text

  /** std::path::Component, without the Windows `Prefix`. */
  datatype Component = RootDir | CurDir | ParentDir | Normal(name: string)

  type Path = seq<Component>

  datatype Platform = Unix | Windows

  /** std::path::MAIN_SEPARATOR */
  function MainSeparator(platform: Platform): char {
    match platform
    case Unix => '/'
    case Windows => '\\'
  }

  /** Position of a component kind in the declaration order `Component` derives `Ord` from. */
  function Rank(c: Component): nat {
    match c
    case RootDir => 0
    case CurDir => 1
    case ParentDir => 2
    case Normal(_) => 3
  }

  /** The derived Ord of Component: by kind, then by name. */
  function ComponentCmp(x: Component, y: Component): Ordering {
    if x.Normal? && y.Normal? then StrCmp(x.name, y.name)
    else if Rank(x) < Rank(y) then Less
    else if Rank(x) == Rank(y) then Equal
    else Greater
  }

  /** Ord for Path and PathBuf: the components, lexicographically. */
  function PathCmp(p: Path, q: Path): Ordering {
    Lex(p, q, ComponentCmp)
  }

  lemma ComponentCmpTotal()
    ensures TotalOrder(ComponentCmp)
  {
    StrCmpTotal();
  }

  lemma PathCmpTotal()
    ensures TotalOrder(PathCmp)
  {
    ComponentCmpTotal();
    LexTotal(ComponentCmp);
  }

  /** Path::join with a single file name, as `DirEntry::path` builds an entry's path. */
  function Join(dir: Path, name: string): Path {
    dir + [Normal(name)]
  }

  /** Path::file_name: the last component when it is a normal one. */
  function FileName(p: Path): Option<string> {
    if |p| > 0 && p[|p| - 1].Normal? then Some(p[|p| - 1].name) else None
  }

  /** Path::parent: the path without its last component, unless that is the root. */
  function Parent(p: Path): Option<Path> {
    if |p| > 0 && !p[|p| - 1].RootDir? then Some(p[..|p| - 1]) else None
  }

  function ComponentText(c: Component, sep: char): string {
    match c
    case RootDir => [sep]
    case CurDir => "."
    case ParentDir => ".."
    case Normal(name) => name
  }

  /** PathBuf::push of a relative piece: a separator goes in between unless the
      buffer is empty or already ends with one. */
  function Push(buf: string, piece: string, sep: char): string {
    if buf == [] || EndsWith(buf, sep) then buf + piece else buf + [sep] + piece
  }

  /** Path::display: the text the components are pushed into. */
  function Display(p: Path, sep: char): string {
    if |p| == 0 then ""
    else Push(Display(p[..|p| - 1], sep), ComponentText(p[|p| - 1], sep), sep)
  }

  /** The display text of an entry path: the directory's text pushed with the name. */
  lemma DisplayJoin(dir: Path, name: string, sep: char)
    ensures Display(Join(dir, name), sep) == Push(Display(dir, sep), name, sep)
  {
    assert Join(dir, name)[..|dir|] == dir;
  }

  /** The entry path `Join(dir, name)` takes apart into `dir` and `name` again,
      and two entry paths are equal only for the same directory and name. */
  lemma JoinParts(dir: Path, name: string, sep: char)
    ensures FileName(Join(dir, name)) == Some(name)
    ensures Parent(Join(dir, name)) == Some(dir)
    ensures Display(Join(dir, name), sep) == Push(Display(dir, sep), name, sep)
    ensures forall d, n :: Join(d, n) == Join(dir, name) ==> d == dir && n == name
  {
    var p := Join(dir, name);
    assert p[..|p| - 1] == dir;
    forall d, n | Join(d, n) == p ensures d == dir && n == name {
      assert Join(d, n)[..|d|] == d;
      assert Join(d, n)[|d|] == Normal(n);
    }
  }

  /** Entries of one directory are ordered by their names. */
  lemma JoinOrder(dir: Path, a: string, b: string)
    ensures PathCmp(Join(dir, a), Join(dir, b)) == StrCmp(a, b)
  {
    ComponentCmpTotal();
    LexCommonPrefix(dir, [Normal(a)], [Normal(b)], ComponentCmp);
  }
}
