/** The match engine of the library: `find_executables` scans each input
    directory, keeps the entries that the caller's executability check accepts
    and whose lower-cased UTF-8 name contains the lower-cased pattern or is
    similar enough to it, and gathers the joined paths into one ordered set.
    The parallel scan is modelled as a sequential fold over the directories. */
module Finder {
  import opened Wrappers
  import opened Orders
  import opened SortedSets
  import opened Text
  import opened Paths
  import opened Snapshot

  /** Everything a scan compares an entry against. The Jaro-Winkler metric is a
      parameter: the model only knows it as a number compared with `>=`. */
  datatype Matcher = Matcher(
    patternLower: string,
    threshold: real,
    isExecutable: Path -> bool,
    jaroWinkler: (string, string) -> real)

  /** `needle` occurs somewhere in `hay`. */
  ghost predicate Substring(needle: string, hay: string) {
    exists i :: OccursAt(hay, needle, i)
  }

  /** The match rule for an entry `name` of directory `dir`: the check accepts the
      joined path, and the lower-cased name contains the lower-cased pattern or
      its similarity reaches the threshold. */
  ghost predicate Selected(dir: Path, name: string, m: Matcher) {
    && m.isExecutable(Join(dir, name))
    && (Substring(m.patternLower, Lower(name)) || m.jaroWinkler(Lower(name), m.patternLower) >= m.threshold)
  }

  /** The path a scan reports, in terms of the inputs: `p` joins an input
      directory that could be listed with the UTF-8 name of one of its entries
      that the match rule selects. */
  ghost predicate Found(p: Path, paths: seq<Path>, fs: FileSystem, m: Matcher) {
    exists d, name :: d in paths && fs(d).Listed? && Entry(Utf8(name)) in fs(d).entries
      && Selected(d, name, m) && p == Join(d, name)
  }

  /** The filter chain on one directory entry: drop read errors, ask the check,
      drop names that are not UTF-8, then substring test or similarity. */
  function MatchEntry(dir: Path, e: EntryResult, m: Matcher): (r: Option<Path>)
    ensures r.Some? <==> e.Entry? && e.name.Utf8? && Selected(dir, e.name.text, m)
    ensures r.Some? ==> r.value == Join(dir, e.name.text)
  {
    if e.EntryError? then None
    else
      var p := EntryPath(dir, e.name);
      if !m.isExecutable(p) then None
      else match e.name.ToStr()
        case None => None
        case Some(name) =>
          var nameLower := Lower(name);
          if Contains(nameLower, m.patternLower) || m.jaroWinkler(nameLower, m.patternLower) >= m.threshold
          then Some(p)
          else None
  }

  /** The matches of one listed directory, in listing order. */
  function MatchEntries(dir: Path, entries: seq<EntryResult>, m: Matcher): (r: seq<Path>)
    ensures forall p :: p in r <==>
      exists name :: Entry(Utf8(name)) in entries && Selected(dir, name, m) && p == Join(dir, name)
  {
    if |entries| == 0 then []
    else
      var first := match MatchEntry(dir, entries[0], m)
        case Some(p) => [p]
        case None => [];
      var rest := MatchEntries(dir, entries[1..], m);
      assert forall e :: e in entries <==> e == entries[0] || e in entries[1..] by {
        assert entries == [entries[0]] + entries[1..];
      }
      first + rest
  }

  /** One input path: skipped unless it is a directory; a directory whose
      listing fails contributes nothing (the source prints a warning). */
  function ScanPath(dir: Path, listing: Listing, m: Matcher): (r: seq<Path>)
    ensures listing.Listed? ==> r == MatchEntries(dir, listing.entries, m)
    ensures !listing.Listed? ==> r == []
  {
    if !IsDir(listing) then []
    else match listing
      case Listed(entries) => MatchEntries(dir, entries, m)
      case _ => []
  }

  /** The flattened per-directory results, directory after directory. */
  function ScanAll(paths: seq<Path>, fs: FileSystem, m: Matcher): (r: seq<Path>)
    ensures forall p :: p in r <==> Found(p, paths, fs, m)
  {
    if |paths| == 0 then []
    else
      var rest := ScanAll(paths[1..], fs, m);
      assert forall d :: d in paths <==> d == paths[0] || d in paths[1..] by {
        assert paths == [paths[0]] + paths[1..];
      }
      ScanPath(paths[0], fs(paths[0]), m) + rest
  }

  /** find_executables: the set of found paths, in ascending `Path` order. */
  function FindExecutables(paths: seq<Path>, fs: FileSystem, pattern: string, threshold: real,
                           isExecutable: Path -> bool, jaroWinkler: (string, string) -> real): (r: seq<Path>)
    ensures StrictlySorted(r, PathCmp)
    ensures forall p :: p in r <==>
      Found(p, paths, fs, Matcher(Lower(pattern), threshold, isExecutable, jaroWinkler))
  {
    PathCmpTotal();
    Collect(ScanAll(paths, fs, Matcher(Lower(pattern), threshold, isExecutable, jaroWinkler)), PathCmp)
  }

  /** The directories the scan warns about: those that are directories but
      cannot be listed. Missing paths and files are skipped without a word.
      (The warnings of different directories may interleave in any order.) */
  function Warnings(paths: seq<Path>, fs: FileSystem): (r: seq<Path>)
    ensures forall d :: d in r <==> d in paths && fs(d).Unreadable?
  {
    if |paths| == 0 then []
    else
      assert forall d :: d in paths <==> d == paths[0] || d in paths[1..] by {
        assert paths == [paths[0]] + paths[1..];
      }
      (if IsDir(fs(paths[0])) && !fs(paths[0]).Listed? then [paths[0]] else []) + Warnings(paths[1..], fs)
  }

  /** Merging two result sets, as the final `collect` merges the vectors the
      directories produced. */
  function Merge(a: seq<Path>, b: seq<Path>): (r: seq<Path>)
    ensures StrictlySorted(r, PathCmp)
    ensures forall p :: p in r <==> p in a || p in b
  {
    PathCmpTotal();
    Union(a, b, PathCmp)
  }

  /** Two ordered sets of paths with the same members are the same result. */
  lemma SameMembersSameResult(r1: seq<Path>, r2: seq<Path>)
    requires StrictlySorted(r1, PathCmp) && StrictlySorted(r2, PathCmp)
    requires forall p :: p in r1 <==> p in r2
    ensures r1 == r2
  {
    PathCmpTotal();
    SortedUnique(r1, r2, PathCmp);
  }

  /** Completeness: an executable entry whose lower-cased name contains the
      lower-cased pattern is found, whatever its similarity score. */
  lemma SubstringMatchIsFound(paths: seq<Path>, fs: FileSystem, pattern: string, threshold: real,
                              isExecutable: Path -> bool, jaroWinkler: (string, string) -> real,
                              d: Path, name: string)
    requires d in paths && fs(d).Listed? && Entry(Utf8(name)) in fs(d).entries
    requires isExecutable(Join(d, name))
    requires Contains(Lower(name), Lower(pattern))
    ensures Join(d, name) in FindExecutables(paths, fs, pattern, threshold, isExecutable, jaroWinkler)
  {
    var m := Matcher(Lower(pattern), threshold, isExecutable, jaroWinkler);
    assert Selected(d, name, m);
    assert Found(Join(d, name), paths, fs, m);
  }

  /** The scan does not depend on the order of the input directories, nor on
      how often one is repeated: only the set of inputs matters. */
  lemma InputOrderIrrelevant(paths1: seq<Path>, paths2: seq<Path>, fs: FileSystem, pattern: string,
                             threshold: real, isExecutable: Path -> bool, jaroWinkler: (string, string) -> real)
    requires forall d :: d in paths1 <==> d in paths2
    ensures FindExecutables(paths1, fs, pattern, threshold, isExecutable, jaroWinkler)
         == FindExecutables(paths2, fs, pattern, threshold, isExecutable, jaroWinkler)
  {
    var m := Matcher(Lower(pattern), threshold, isExecutable, jaroWinkler);
    var r1 := FindExecutables(paths1, fs, pattern, threshold, isExecutable, jaroWinkler);
    var r2 := FindExecutables(paths2, fs, pattern, threshold, isExecutable, jaroWinkler);
    assert forall p :: Found(p, paths1, fs, m) <==> Found(p, paths2, fs, m);
    SameMembersSameResult(r1, r2);
  }

  /** The result for a list of inputs is the merge of the results for its parts. */
  lemma ResultIsUnionOfParts(paths1: seq<Path>, paths2: seq<Path>, fs: FileSystem, pattern: string,
                             threshold: real, isExecutable: Path -> bool, jaroWinkler: (string, string) -> real)
    ensures FindExecutables(paths1 + paths2, fs, pattern, threshold, isExecutable, jaroWinkler)
         == Merge(FindExecutables(paths1, fs, pattern, threshold, isExecutable, jaroWinkler),
                  FindExecutables(paths2, fs, pattern, threshold, isExecutable, jaroWinkler))
  {
    var r := FindExecutables(paths1 + paths2, fs, pattern, threshold, isExecutable, jaroWinkler);
    var u := Merge(FindExecutables(paths1, fs, pattern, threshold, isExecutable, jaroWinkler),
                   FindExecutables(paths2, fs, pattern, threshold, isExecutable, jaroWinkler));
    SameMembersSameResult(r, u);
  }

  /** An input that is missing, is not a directory, or cannot be listed adds
      nothing, and no input at all finds nothing. */
  lemma SkippedInputsAddNothing(paths: seq<Path>, d: Path, fs: FileSystem, pattern: string,
                                threshold: real, isExecutable: Path -> bool, jaroWinkler: (string, string) -> real)
    requires !fs(d).Listed?
    ensures FindExecutables(paths + [d], fs, pattern, threshold, isExecutable, jaroWinkler)
         == FindExecutables(paths, fs, pattern, threshold, isExecutable, jaroWinkler)
    ensures FindExecutables([], fs, pattern, threshold, isExecutable, jaroWinkler) == []
  {
    var r1 := FindExecutables(paths + [d], fs, pattern, threshold, isExecutable, jaroWinkler);
    var r2 := FindExecutables(paths, fs, pattern, threshold, isExecutable, jaroWinkler);
    SameMembersSameResult(r1, r2);
    var r0 := FindExecutables([], fs, pattern, threshold, isExecutable, jaroWinkler);
    SameMembersSameResult(r0, []);
  }

  /** The listed directories among `paths` hold the same UTF-8 entry names in both snapshots. */
  ghost predicate SameUtf8Names(paths: seq<Path>, fs1: FileSystem, fs2: FileSystem) {
    forall d :: d in paths ==>
      && (fs1(d).Listed? <==> fs2(d).Listed?)
      && (fs1(d).Listed? ==> forall name :: Entry(Utf8(name)) in fs1(d).entries <==> Entry(Utf8(name)) in fs2(d).entries)
  }

  /** Entries whose names are not UTF-8, entries that could not be read, and
      the order of a listing never change the result. */
  lemma OnlyUtf8NamesMatter(paths: seq<Path>, fs1: FileSystem, fs2: FileSystem, pattern: string,
                            threshold: real, isExecutable: Path -> bool, jaroWinkler: (string, string) -> real)
    requires SameUtf8Names(paths, fs1, fs2)
    ensures FindExecutables(paths, fs1, pattern, threshold, isExecutable, jaroWinkler)
         == FindExecutables(paths, fs2, pattern, threshold, isExecutable, jaroWinkler)
  {
    var m := Matcher(Lower(pattern), threshold, isExecutable, jaroWinkler);
    var r1 := FindExecutables(paths, fs1, pattern, threshold, isExecutable, jaroWinkler);
    var r2 := FindExecutables(paths, fs2, pattern, threshold, isExecutable, jaroWinkler);
    assert forall p :: Found(p, paths, fs1, m) <==> Found(p, paths, fs2, m);
    SameMembersSameResult(r1, r2);
  }

  /** Raising the threshold can only remove paths from the result. */
  lemma ThresholdMonotone(paths: seq<Path>, fs: FileSystem, pattern: string, low: real, high: real,
                          isExecutable: Path -> bool, jaroWinkler: (string, string) -> real)
    requires low <= high
    ensures forall p :: p in FindExecutables(paths, fs, pattern, high, isExecutable, jaroWinkler)
                    ==> p in FindExecutables(paths, fs, pattern, low, isExecutable, jaroWinkler)
  {
  }

  /** The names of the library's test, all lower-case already. */
  const TestNames: seq<string> := ["ll.exe", "la.exe", "lsx.exe", "lsa.exe", "as.exe", "grep.exe", "dd.exe", "rm.exe", "rmz.exe"]

  lemma NoLs(n: string)
    requires forall i :: 0 <= i < |n| - 1 ==> n[i] != 'l' || n[i + 1] != 's'
    ensures !Substring("ls", n)
  {
    forall i ensures !OccursAt(n, "ls", i) {
      OccursAtChars(n, "ls", i);
    }
  }

  lemma TestNamesContainingLs()
    ensures forall n :: n in TestNames ==> Lower(n) == n
    ensures forall n :: n in TestNames ==> (Substring("ls", n) <==> n == "lsx.exe" || n == "lsa.exe")
  {
    forall n | n in TestNames ensures Lower(n) == n {
      assert forall i :: 0 <= i < |n| ==> 'a' <= n[i] <= 'z' || n[i] == '.';
    }
    assert OccursAt("lsx.exe", "ls", 0) && OccursAt("lsa.exe", "ls", 0);
    NoLs("ll.exe");
    NoLs("la.exe");
    NoLs("as.exe");
    NoLs("grep.exe");
    NoLs("dd.exe");
    NoLs("rm.exe");
    NoLs("rmz.exe");
  }

  /** The library's own test: nine executables `*.exe` in one directory,
      pattern "LS", threshold 0.7, a check that accepts everything. Only
      `lsa.exe` and `lsx.exe` contain "ls"; the other seven are found only if
      their similarity reaches 0.7. The standard Jaro-Winkler scores against
      "ls" are 0.6 for `ll.exe` and `la.exe` (Jaro 5/9 plus the one-letter
      prefix bonus), 5/9 for `as.exe`, and 0 for `grep.exe`, `dd.exe`,
      `rm.exe` and `rmz.exe`, which contain neither letter,
      so the real metric meets the requirement below. */
  lemma ScenarioFindLs(jaroWinkler: (string, string) -> real)
    requires forall n :: n in TestNames && n != "lsx.exe" && n != "lsa.exe" ==> jaroWinkler(n, "ls") < 0.7
    ensures
      var dir := [RootDir, Normal("tmp")];
      var fs := (d: Path) => if d == dir then Listed(TestListing()) else Missing;
      FindExecutables([dir], fs, "LS", 0.7, _ => true, jaroWinkler) == [Join(dir, "lsa.exe"), Join(dir, "lsx.exe")]
  {
    var dir := [RootDir, Normal("tmp")];
    var fs := (d: Path) => if d == dir then Listed(TestListing()) else Missing;
    TestSelection(dir, _ => true, jaroWinkler);
    TestOrder(dir);
    OneDirectoryResult(dir, fs, "LS", 0.7, _ => true, jaroWinkler, "lsa.exe", "lsx.exe");
  }

  /** Of the test's names, the rule selects exactly the two containing "ls". */
  lemma TestSelection(dir: Path, isExecutable: Path -> bool, jaroWinkler: (string, string) -> real)
    requires forall p :: isExecutable(p)
    requires forall n :: n in TestNames && n != "lsx.exe" && n != "lsa.exe" ==> jaroWinkler(n, "ls") < 0.7
    ensures forall name :: Entry(Utf8(name)) in TestListing() && Selected(dir, name, Matcher(Lower("LS"), 0.7, isExecutable, jaroWinkler))
              <==> name == "lsa.exe" || name == "lsx.exe"
  {
    assert Lower("LS") == "ls";
    TestNamesContainingLs();
  }

  lemma TestOrder(dir: Path)
    ensures PathCmp(Join(dir, "lsa.exe"), Join(dir, "lsx.exe")) == Less
  {
    JoinOrder(dir, "lsa.exe", "lsx.exe");
    LexCommonPrefix("ls", "a.exe", "x.exe", CharCmp);
    assert "lsa.exe" == "ls" + "a.exe" && "lsx.exe" == "ls" + "x.exe";
  }

  function TestListing(): (entries: seq<EntryResult>)
    ensures forall name :: Entry(Utf8(name)) in entries <==> name in TestNames
  {
    [Entry(Utf8("ll.exe")), Entry(Utf8("la.exe")), Entry(Utf8("lsx.exe")), Entry(Utf8("lsa.exe")), Entry(Utf8("as.exe")),
     Entry(Utf8("grep.exe")), Entry(Utf8("dd.exe")), Entry(Utf8("rm.exe")), Entry(Utf8("rmz.exe"))]
  }

  lemma OneDirectoryResult(dir: Path, fs: FileSystem, pattern: string, threshold: real,
                           isExecutable: Path -> bool, jaroWinkler: (string, string) -> real, a: string, b: string)
    requires fs(dir).Listed?
    requires PathCmp(Join(dir, a), Join(dir, b)) == Less
    requires forall name :: Entry(Utf8(name)) in fs(dir).entries && Selected(dir, name, Matcher(Lower(pattern), threshold, isExecutable, jaroWinkler))
               <==> name == a || name == b
    ensures FindExecutables([dir], fs, pattern, threshold, isExecutable, jaroWinkler) == [Join(dir, a), Join(dir, b)]
  {
    var r := FindExecutables([dir], fs, pattern, threshold, isExecutable, jaroWinkler);
    OneDirectoryMembers(dir, fs, Matcher(Lower(pattern), threshold, isExecutable, jaroWinkler), a, b);
    PairSorted(Join(dir, a), Join(dir, b), PathCmp);
    SameMembersSameResult(r, [Join(dir, a), Join(dir, b)]);
  }

  lemma OneDirectoryMembers(dir: Path, fs: FileSystem, m: Matcher, a: string, b: string)
    requires fs(dir).Listed?
    requires forall name :: Entry(Utf8(name)) in fs(dir).entries && Selected(dir, name, m) <==> name == a || name == b
    ensures forall p :: Found(p, [dir], fs, m) <==> p in [Join(dir, a), Join(dir, b)]
  {
    forall p ensures Found(p, [dir], fs, m) <==> p in [Join(dir, a), Join(dir, b)] {
      if Found(p, [dir], fs, m) {
        var d, name :| d in [dir] && fs(d).Listed? && Entry(Utf8(name)) in fs(d).entries
          && Selected(d, name, m) && p == Join(d, name);
        assert name == a || name == b;
      }
      if p == Join(dir, a) {
        assert Entry(Utf8(a)) in fs(dir).entries && Selected(dir, a, m);
      }
      if p == Join(dir, b) {
        assert Entry(Utf8(b)) in fs(dir).entries && Selected(dir, b, m);
      }
    }
  }
}
