/** The first version of the program (`src/main.rs`): one sequential pass
    that collects matching executables into an ordered set of `PathInfo`
    records and prints each one highlighted. Parallelism is not modelled: the
    set it builds does not depend on the order the directories are visited in. */
module Legacy {
  import opened Wrappers
  import opened Orders
  import opened SortedSets
  import opened Text
  import opened Paths
  import opened Snapshot
  import opened Highlighter
  import Finder

  /** PathInfo: the entry's full path text, its directory's text and its file name. */
  datatype PathInfo = PathInfo(pathStr: string, stem: string, name: string)

  /** impl Ord for PathInfo: by path text, then directory text, then name. */
  function Cmp(a: PathInfo, b: PathInfo): Ordering {
    StrCmp(a.pathStr, b.pathStr).ThenWith(StrCmp(a.stem, b.stem)).ThenWith(StrCmp(a.name, b.name))
  }

  /** impl PartialOrd for PathInfo: always the total order. */
  function PartialCmp(a: PathInfo, b: PathInfo): Option<Ordering> {
    Some(Cmp(a, b))
  }

  function Fields(x: PathInfo): seq<string> {
    [x.pathStr, x.stem, x.name]
  }

  /** The chain of `then_with` is the lexicographic order on the three fields. */
  lemma CmpIsLex(a: PathInfo, b: PathInfo)
    ensures Cmp(a, b) == Lex(Fields(a), Fields(b), StrCmp)
  {
    var fa, fb := Fields(a), Fields(b);
    assert fa[1..][1..][1..] == [] && fb[1..][1..][1..] == [];
    assert Lex(fa[1..][1..], fb[1..][1..], StrCmp) == StrCmp(a.name, b.name).ThenWith(Equal);
    assert StrCmp(a.name, b.name).ThenWith(Equal) == StrCmp(a.name, b.name);
  }

  /** The order agrees with the derived equality and is a total order, as
      `BTreeSet` requires of its elements. */
  lemma CmpTotal()
    ensures TotalOrder(Cmp)
  {
    StrCmpTotal();
    LexTotal(StrCmp);
    forall a, b ensures Cmp(a, b) == Lex(Fields(a), Fields(b), StrCmp) {
      CmpIsLex(a, b);
    }
    forall a, b | Fields(a) == Fields(b) ensures a == b {
      assert Fields(a)[0] == Fields(b)[0] && Fields(a)[1] == Fields(b)[1] && Fields(a)[2] == Fields(b)[2];
    }
  }

  /** partial_cmp is defined for every pair and is consistent with `Eq` and `Ord`. */
  lemma PartialCmpConsistent(a: PathInfo, b: PathInfo)
    ensures PartialCmp(a, b).Some?
    ensures PartialCmp(a, b).value == Equal <==> a == b
    ensures PartialCmp(b, a).value == PartialCmp(a, b).value.Reverse()
  {
    CmpTotal();
  }

  /** The record inserted for entry `name` of directory `dir`. */
  function EntryInfo(dir: Path, name: OsName, platform: Platform): PathInfo {
    var sep := MainSeparator(platform);
    PathInfo(Display(EntryPath(dir, name), sep), Display(dir, sep), name.Lossy())
  }

  /** main.rs's highlight_text. `pattern` arrives lower-cased; only the name is
      lower-cased here. The separator after the directory text is always written. */
  function LegacyHighlight(info: PathInfo, pattern: string, platform: Platform): seq<Segment> {
    match Find(Lower(info.name), pattern)
    case None => [Plain(info.pathStr)]
    case Some(index) =>
      [Plain(info.stem), Plain([MainSeparator(platform)]), Plain(info.name[..index]),
       Emph(info.name[index..index + |pattern|]), Plain(info.name[index + |pattern|..])]
  }

  /** Without the emphasis, the legacy output reads as directory, separator and
      name whenever the name contains the pattern, and as the stored path
      text otherwise. */
  lemma LegacyHighlightStrips(info: PathInfo, pattern: string, platform: Platform)
    ensures Contains(Lower(info.name), pattern) ==>
      Strip(LegacyHighlight(info, pattern, platform)) == info.stem + [MainSeparator(platform)] + info.name
    ensures !Contains(Lower(info.name), pattern) ==>
      Strip(LegacyHighlight(info, pattern, platform)) == info.pathStr
  {
    if Contains(Lower(info.name), pattern) {
      var i := Find(Lower(info.name), pattern).value;
      StripSplit(info.stem, [MainSeparator(platform)], info.name, i, |pattern|);
    } else {
      assert LegacyHighlight(info, pattern, platform)[1..] == [];
    }
  }

  /** Where the emphasis falls: for the leftmost occurrence `i` of the
      (already lower-case) pattern in the lower-cased name, the output is the
      directory text, the separator (always), the name up to `i`, the
      original-case slice as long as the pattern, and the rest of the name. */
  lemma LegacyHighlightFound(info: PathInfo, pattern: string, platform: Platform, i: nat)
    requires OccursAt(Lower(info.name), pattern, i)
    requires forall j :: 0 <= j < i ==> !OccursAt(Lower(info.name), pattern, j)
    ensures i + |pattern| <= |info.name|
    ensures Lower(info.name[i..i + |pattern|]) == pattern
    ensures LegacyHighlight(info, pattern, platform) ==
      [Plain(info.stem), Plain([MainSeparator(platform)]), Plain(info.name[..i]),
       Emph(info.name[i..i + |pattern|]), Plain(info.name[i + |pattern|..])]
  {
    FindLeftmost(Lower(info.name), pattern, i);
    LowerSlice(info.name, i, i + |pattern|);
  }

  /** The stored path text comes out as one plain segment exactly when the
      lower-cased name does not contain the pattern. */
  lemma LegacyHighlightUnchanged(info: PathInfo, pattern: string, platform: Platform)
    ensures LegacyHighlight(info, pattern, platform) == [Plain(info.pathStr)] <==>
      !Contains(Lower(info.name), pattern)
  {
  }

  /** For a matching entry, the legacy output reads as the entry's path
      exactly when the directory's text is neither empty nor ends with the
      separator; otherwise it has one separator too many. */
  lemma LegacyRoundTripIff(dir: Path, name: OsName, pattern: string, platform: Platform)
    requires Contains(Lower(name.Lossy()), pattern)
    ensures
      var sep := MainSeparator(platform);
      var info := EntryInfo(dir, name, platform);
      (Strip(LegacyHighlight(info, pattern, platform)) == info.pathStr <==>
       Display(dir, sep) != "" && !EndsWith(Display(dir, sep), sep))
  {
    var sep := MainSeparator(platform);
    var info := EntryInfo(dir, name, platform);
    LegacyHighlightStrips(info, pattern, platform);
    JoinParts(dir, name.Lossy(), sep);
    var stem := Display(dir, sep);
    if stem == "" || EndsWith(stem, sep) {
      assert |stem + [sep] + name.Lossy()| != |stem + name.Lossy()|;
    }
  }

  lemma RootEntryInfo()
    ensures EntryInfo([RootDir], Utf8("ls"), Unix) == PathInfo("/ls", "/", "ls")
  {
    DisplayRootChild("ls", '/');
    assert [RootDir][..0] == [];
    assert EntryPath([RootDir], Utf8("ls")) == [RootDir, Normal("ls")];
  }

  /** The entry `ls` of the root directory is printed as `//ls`, where the
      stored path text is `/ls`. */
  lemma RootEntryDoubledSeparator()
    ensures EntryInfo([RootDir], Utf8("ls"), Unix) == PathInfo("/ls", "/", "ls")
    ensures Strip(LegacyHighlight(EntryInfo([RootDir], Utf8("ls"), Unix), "ls", Unix)) == "//ls"
  {
    RootEntryInfo();
    assert Contains(Lower("ls"), "ls") by {
      assert Lower("ls") == "ls";
      OccursAtChars("ls", "ls", 0);
    }
    LegacyHighlightStrips(PathInfo("/ls", "/", "ls"), "ls", Unix);
  }


  /** The file extensions accepted as executable outside Unix. */
  const Extensions: seq<string> := ["exe", "sh", "bat", "cmd", "com", "ps1", "vbs", "py"]

  /** What `exists` and `is_file` report for a path. */
  datatype FileKind = Absent | Directory | RegularFile

  /** The index of the last '.' in `name`. */
  function LastDot(name: string): (r: Option<nat>)
    ensures r.Some? ==> r.value < |name| && name[r.value] == '.'
    ensures forall j :: 0 <= j < |name| && name[j] == '.' ==> r.Some? && j <= r.value
  {
    if |name| == 0 then None
    else if name[|name| - 1] == '.' then Some(|name| - 1)
    else LastDot(name[..|name| - 1])
  }

  /** The extension of a file name: the text after its last '.', unless that
      dot starts the name or the name is "..". */
  function NameExtension(name: string): Option<string> {
    if name == ".." then None
    else match LastDot(name)
      case None => None
      case Some(k) => if k == 0 then None else Some(name[k + 1..])
  }

  /** Path::extension */
  function Extension(p: Path): Option<string> {
    match FileName(p)
    case None => None
    case Some(name) => NameExtension(name)
  }

  /** is_executable outside Unix: an existing regular file whose extension,
      lower-cased, is one of `Extensions`. */
  predicate IsExecutableOnWindows(kind: FileKind, p: Path) {
    kind == RegularFile && Lower(Extension(p).UnwrapOr("")) in Extensions
  }

  predicate NoDot(s: string) {
    forall j :: 0 <= j < |s| ==> s[j] != '.'
  }

  /** A name made of a non-empty base, a dot and a dot-free extension that
      lower-cases into the list. */
  ghost predicate ExecutableName(name: string) {
    exists base, ext :: name == base + "." + ext && base != "" && NoDot(ext) && Lower(ext) in Extensions
  }

  /** The extension found is what follows a non-empty base and a dot, and holds no dot. */
  lemma ExtensionSplits(name: string)
    requires NameExtension(name).Some?
    ensures var k := LastDot(name).value;
      name == name[..k] + "." + NameExtension(name).value && name[..k] != "" && NoDot(NameExtension(name).value)
  {
    var k := LastDot(name).value;
    var ext := name[k + 1..];
    assert name == name[..k] + "." + ext;
    forall j | 0 <= j < |ext| ensures ext[j] != '.' {
      assert ext[j] == name[k + 1 + j];
    }
  }

  /** A non-empty base, a dot and a non-empty dot-free extension: that extension is found. */
  lemma ExtensionOfSplit(base: string, ext: string)
    requires base != "" && NoDot(ext) && |ext| > 0
    ensures NameExtension(base + "." + ext) == Some(ext)
  {
    var name := base + "." + ext;
    assert name[|base|] == '.';
    forall j | |base| < j < |name| ensures name[j] != '.' {
      assert name[j] == ext[j - |base| - 1];
    }
    LastDotIs(name, |base|);
    assert name[|base| + 1..] == ext;
    assert |name| > 2;
  }

  lemma ExecutableNameIff(name: string)
    ensures Lower(NameExtension(name).UnwrapOr("")) in Extensions <==> ExecutableName(name)
  {
    assert Lower("") == "";
    if NameExtension(name).Some? {
      ExtensionSplits(name);
    }
    if ExecutableName(name) {
      var base, ext :| name == base + "." + ext && base != "" && NoDot(ext) && Lower(ext) in Extensions;
      assert |Lower(ext)| > 0;
      ExtensionOfSplit(base, ext);
    }
  }

  /** A file is executable outside Unix exactly when it is a regular file
      whose name is a non-empty base, a dot and a dot-free extension that
      lower-cases into the list. */
  lemma IsExecutableOnWindowsIff(kind: FileKind, p: Path)
    ensures IsExecutableOnWindows(kind, p) <==>
      kind == RegularFile && FileName(p).Some? && ExecutableName(FileName(p).value)
  {
    if FileName(p).Some? {
      ExecutableNameIff(FileName(p).value);
    } else {
      assert Lower("") == "";
    }
  }

  lemma LastDotIs(name: string, k: nat)
    requires k < |name| && name[k] == '.'
    requires forall j :: k < j < |name| ==> name[j] != '.'
    ensures LastDot(name) == Some(k)
  {
  }

  /** Names the check accepts and refuses, upper case included. */
  lemma ScenarioWindowsExtensions()
    ensures NameExtension("ls.EXE") == Some("EXE") && Lower("EXE") in Extensions
    ensures NameExtension("setup.tar.py") == Some("py") && Lower("py") in Extensions
    ensures NameExtension("ls") == None
    ensures NameExtension(".exe") == None
    ensures NameExtension("ls.exe.txt") == Some("txt") && Lower("txt") !in Extensions
  {
    LastDotIs("ls.EXE", 2);
    assert Lower("EXE") == "exe";
    LastDotIs("setup.tar.py", 9);
    assert Lower("py") == "py";
    assert LastDot("ls") == None by {
      assert "ls"[..1] == "l";
      assert LastDot("l") == None;
    }
    LastDotIs(".exe", 0);
    LastDotIs("ls.exe.txt", 6);
    assert Lower("txt") == "txt";
  }

  /** The search of one run: the lower-cased pattern, the executability test
      of an entry path, the similarity score and the platform. */
  datatype Query = Query(pattern: string, isExecutable: Path -> bool,
                         jaroWinkler: (string, string) -> real, platform: Platform)

  /** The similarity threshold, fixed in this version. */
  const LegacyThreshold: real := 0.8

  /** The name test: the lower-cased name contains the pattern or is similar enough to it. */
  predicate Matches(name: string, q: Query) {
    Contains(Lower(name), q.pattern) || q.jaroWinkler(Lower(name), q.pattern) >= LegacyThreshold
  }

  /** Entry `e` of `dir` is inserted: it was read, is executable and matches. */
  predicate Accepted(dir: Path, e: EntryResult, q: Query) {
    e.Entry? && q.isExecutable(EntryPath(dir, e.name)) && Matches(e.name.Lossy(), q)
  }

  /** The records inserted for a directory's listing, in listing order. */
  function DirInfos(dir: Path, entries: seq<EntryResult>, q: Query): (r: seq<PathInfo>)
    ensures forall x :: x in r <==> exists e :: e in entries && Accepted(dir, e, q) && x == EntryInfo(dir, e.name, q.platform)
  {
    if |entries| == 0 then []
    else
      var init, last := entries[..|entries| - 1], entries[|entries| - 1];
      assert entries == init + [last];
      DirInfos(dir, init, q) + (if Accepted(dir, last, q) then [EntryInfo(dir, last.name, q.platform)] else [])
  }

  /** One more accepted or rejected entry keeps the set's members those of
      the old set plus the records of the entries scanned so far. */
  lemma InsertStep(dir: Path, entries: seq<EntryResult>, q: Query, j: nat, found: seq<PathInfo>, cur: seq<PathInfo>)
    requires TotalOrder(Cmp) && StrictlySorted(cur, Cmp)
    requires j < |entries|
    requires forall x :: x in cur <==> x in found || x in DirInfos(dir, entries[..j], q)
    ensures
      var next := if Accepted(dir, entries[j], q) then Insert(cur, EntryInfo(dir, entries[j].name, q.platform), Cmp) else cur;
      StrictlySorted(next, Cmp) &&
      forall x :: x in next <==> x in found || x in DirInfos(dir, entries[..j + 1], q)
  {
    assert entries[..j + 1][..j] == entries[..j];
  }

  /** Some directory of `paths` that is listed holds an accepted entry whose record is `x`. */
  ghost predicate Inserted(x: PathInfo, paths: seq<Path>, fs: FileSystem, q: Query) {
    exists d, e :: d in paths && fs(d).Listed? && e in fs(d).entries && Accepted(d, e, q)
      && x == EntryInfo(d, e.name, q.platform)
  }

  /** The records inserted for all directories, in scan order. */
  function AllInfos(paths: seq<Path>, fs: FileSystem, q: Query): (r: seq<PathInfo>)
    ensures forall x :: x in r <==> Inserted(x, paths, fs, q)
  {
    if |paths| == 0 then []
    else
      var init, last := paths[..|paths| - 1], paths[|paths| - 1];
      assert paths == init + [last];
      AllInfos(init, fs, q) + (if fs(last).Listed? then DirInfos(last, fs(last).entries, q) else [])
  }

  /** The ordered set of inserted records, as the `BTreeSet` iterates it. */
  function FoundSet(paths: seq<Path>, fs: FileSystem, q: Query): (r: seq<PathInfo>)
    ensures StrictlySorted(r, Cmp)
    ensures forall x :: x in r <==> Inserted(x, paths, fs, q)
  {
    CmpTotal();
    Collect(AllInfos(paths, fs, q), Cmp)
  }

  /** What stops the pass: an existing path that cannot be listed, or an entry that cannot be read. */
  predicate ListingPanics(l: Listing) {
    l.NotADirectory? || l.Unreadable? || (l.Listed? && EntryError in l.entries)
  }

  datatype Outcome =
    | EmptyPattern                                    // rejected before the search
    | Panicked                                        // an `unwrap` failed
    | Printed(found: seq<PathInfo>, lines: seq<seq<Segment>>)

  /** The body of the pass over one listed directory: each entry is unwrapped
      (a read error panics), checked, matched, and its record inserted. */
  method InsertMatches(dir: Path, entries: seq<EntryResult>, q: Query, found: seq<PathInfo>)
      returns (panicked: bool, found': seq<PathInfo>)
    requires TotalOrder(Cmp) && StrictlySorted(found, Cmp)
    ensures panicked <==> EntryError in entries
    ensures StrictlySorted(found', Cmp)
    ensures !panicked ==> forall x :: x in found' <==> x in found || x in DirInfos(dir, entries, q)
  {
    found' := found;
    var j := 0;
    while j < |entries|
      invariant 0 <= j <= |entries|
      invariant forall k :: 0 <= k < j ==> entries[k].Entry?
      invariant StrictlySorted(found', Cmp)
      invariant forall x :: x in found' <==> x in found || x in DirInfos(dir, entries[..j], q)
    {
      var entry := entries[j];
      if entry.EntryError? {
        return true, found';
      }
      InsertStep(dir, entries, q, j, found, found');
      if !q.isExecutable(EntryPath(dir, entry.name)) {
        j := j + 1;
        continue;
      }
      var name := entry.name.Lossy();
      var nameLower := Lower(name);
      if Contains(nameLower, q.pattern) || q.jaroWinkler(nameLower, q.pattern) >= LegacyThreshold {
        found' := Insert(found', EntryInfo(dir, entry.name, q.platform), Cmp);
      }
      j := j + 1;
    }
    assert entries[..j] == entries;
    assert EntryError !in entries by {
      forall k | 0 <= k < |entries| ensures entries[k] != EntryError {
        assert entries[k].Entry?;
      }
    }
    panicked := false;
  }

  /** The printing loop: one highlighted line per record, in set order. */
  method HighlightAll(found: seq<PathInfo>, pattern: string, platform: Platform) returns (lines: seq<seq<Segment>>)
    ensures |lines| == |found|
    ensures forall k :: 0 <= k < |lines| ==> lines[k] == LegacyHighlight(found[k], pattern, platform)
  {
    lines := [];
    var k := 0;
    while k < |found|
      invariant 0 <= k <= |found|
      invariant |lines| == k
      invariant forall m :: 0 <= m < k ==> lines[m] == LegacyHighlight(found[m], pattern, platform)
    {
      lines := lines + [LegacyHighlight(found[k], pattern, platform)];
      k := k + 1;
    }
  }

  /** super_which: visit every path that exists, list it, insert the records
      of accepted entries into the ordered set, then highlight them in order. */
  method SuperWhich(paths: seq<Path>, fs: FileSystem, pattern: string, isExecutable: Path -> bool,
                    jaroWinkler: (string, string) -> real, platform: Platform) returns (outcome: Outcome)
    ensures outcome.Panicked? <==> exists d :: d in paths && ListingPanics(fs(d))
    ensures !outcome.EmptyPattern?
    ensures outcome.Printed? ==>
      outcome.found == FoundSet(paths, fs, Query(pattern, isExecutable, jaroWinkler, platform))
    ensures outcome.Printed? ==> |outcome.lines| == |outcome.found|
    ensures outcome.Printed? ==> forall k :: 0 <= k < |outcome.lines| ==>
      outcome.lines[k] == LegacyHighlight(outcome.found[k], pattern, platform)
  {
    var q := Query(pattern, isExecutable, jaroWinkler, platform);
    CmpTotal();
    var found: seq<PathInfo> := [];
    var i := 0;
    while i < |paths|
      invariant 0 <= i <= |paths|
      invariant forall k :: 0 <= k < i ==> !ListingPanics(fs(paths[k]))
      invariant StrictlySorted(found, Cmp)
      invariant forall x :: x in found <==> x in AllInfos(paths[..i], fs, q)
    {
      var dir := paths[i];
      assert paths[..i + 1][..i] == paths[..i];
      if fs(dir).Missing? {
        i := i + 1;
        continue;
      }
      if !fs(dir).Listed? {
        return Panicked;
      }
      var panicked;
      panicked, found := InsertMatches(dir, fs(dir).entries, q, found);
      if panicked {
        return Panicked;
      }
      i := i + 1;
    }
    assert paths[..i] == paths;
    SortedUnique(found, FoundSet(paths, fs, q), Cmp);
    var lines := HighlightAll(found, pattern, platform);
    return Printed(found, lines);
  }

  /** main: an empty pattern is refused; otherwise the pattern is lower-cased
      and the search runs. */
  method Run(paths: seq<Path>, fs: FileSystem, pattern: string, isExecutable: Path -> bool,
             jaroWinkler: (string, string) -> real, platform: Platform) returns (outcome: Outcome)
    ensures outcome.EmptyPattern? <==> pattern == ""
    ensures outcome.Panicked? <==> pattern != "" && exists d :: d in paths && ListingPanics(fs(d))
    ensures outcome.Printed? ==>
      outcome.found == FoundSet(paths, fs, Query(Lower(pattern), isExecutable, jaroWinkler, platform))
    ensures outcome.Printed? ==> |outcome.lines| == |outcome.found|
    ensures outcome.Printed? ==> forall k :: 0 <= k < |outcome.lines| ==>
      outcome.lines[k] == LegacyHighlight(outcome.found[k], Lower(pattern), platform)
  {
    if pattern == "" {
      return EmptyPattern;
    }
    outcome := SuperWhich(paths, fs, Lower(pattern), isExecutable, jaroWinkler, platform);
  }

  /** Every readable entry of every listed input directory has a UTF-8 name. */
  ghost predicate AllUtf8(paths: seq<Path>, fs: FileSystem) {
    forall d, e :: d in paths && fs(d).Listed? && e in fs(d).entries && e.Entry? ==> e.name.Utf8?
  }

  /** The library search at the legacy threshold reports the same executables
      as this version stores: every path it finds has a legacy record, and,
      when every name is UTF-8, every legacy record is that of a path it finds. */
  lemma LegacyAgreesWithLibrary(paths: seq<Path>, fs: FileSystem, pattern: string, isExecutable: Path -> bool,
                                jaroWinkler: (string, string) -> real, platform: Platform)
    ensures
      var legacy := FoundSet(paths, fs, Query(Lower(pattern), isExecutable, jaroWinkler, platform));
      var library := Finder.FindExecutables(paths, fs, pattern, LegacyThreshold, isExecutable, jaroWinkler);
      forall d, n :: Join(d, n) in library ==> EntryInfo(d, Utf8(n), platform) in legacy
    ensures
      var legacy := FoundSet(paths, fs, Query(Lower(pattern), isExecutable, jaroWinkler, platform));
      var library := Finder.FindExecutables(paths, fs, pattern, LegacyThreshold, isExecutable, jaroWinkler);
      AllUtf8(paths, fs) ==>
        forall x :: x in legacy ==> exists d, n :: Join(d, n) in library && x == EntryInfo(d, Utf8(n), platform)
  {
    var q := Query(Lower(pattern), isExecutable, jaroWinkler, platform);
    var m := Finder.Matcher(Lower(pattern), LegacyThreshold, isExecutable, jaroWinkler);
    var legacy := FoundSet(paths, fs, q);
    var library := Finder.FindExecutables(paths, fs, pattern, LegacyThreshold, isExecutable, jaroWinkler);
    forall d, n | Join(d, n) in library ensures EntryInfo(d, Utf8(n), platform) in legacy {
      assert Finder.Found(Join(d, n), paths, fs, m);
      var d', n' :| d' in paths && fs(d').Listed? && Entry(Utf8(n')) in fs(d').entries
        && Finder.Selected(d', n', m) && Join(d, n) == Join(d', n');
      JoinParts(d', n', '/');
      assert Accepted(d, Entry(Utf8(n)), q);
      assert Inserted(EntryInfo(d, Utf8(n), platform), paths, fs, q);
    }
    if AllUtf8(paths, fs) {
      forall x | x in legacy ensures exists d, n :: Join(d, n) in library && x == EntryInfo(d, Utf8(n), platform) {
        var d, e :| d in paths && fs(d).Listed? && e in fs(d).entries && Accepted(d, e, q)
          && x == EntryInfo(d, e.name, q.platform);
        var n := e.name.text;
        assert e == Entry(Utf8(n));
        assert Finder.Selected(d, n, m);
        assert Finder.Found(Join(d, n), paths, fs, m);
      }
    }
  }

  /** A regular file named in the search path stops the legacy pass, where the
      library skips it and reports nothing. */
  method ScenarioFileOnPath(isExecutable: Path -> bool, jaroWinkler: (string, string) -> real)
      returns (legacy: Outcome, library: seq<Path>)
    ensures legacy == Panicked
    ensures library == []
  {
    var hosts: Path := [RootDir, Normal("etc"), Normal("hosts")];
    var fs: FileSystem := d => if d == hosts then NotADirectory else Missing;
    legacy := SuperWhich([hosts], fs, "ls", isExecutable, jaroWinkler, Unix);
    assert ListingPanics(fs(hosts));
    library := Finder.FindExecutables([hosts], fs, "ls", LegacyThreshold, isExecutable, jaroWinkler);
    Finder.SkippedInputsAddNothing([], hosts, fs, "ls", LegacyThreshold, isExecutable, jaroWinkler);
    assert [] + [hosts] == [hosts];
  }
}
