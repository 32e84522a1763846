/** The library's `highlight_text`: re-locates the pattern in a path's file
    name, case-insensitively, and rebuilds the display text with the matched
    span emphasised. Emphasis is an abstract tag on a segment; the terminal
    escape codes that carry it are not modelled. */
module Highlighter {
  import opened Wrappers
  import opened Text
  import opened Paths

  /** One piece of display text, emphasised or not. */
  datatype Segment = Plain(text: string) | Emph(text: string)

  /** The display text with the emphasis taken away. */
  function Strip(segments: seq<Segment>): string {
    if |segments| == 0 then "" else segments[0].text + Strip(segments[1..])
  }

  /** The separator written between the parent's text and the file name:
      none after an empty parent or one that already ends with it. */
  function SeparatorAfter(stem: string, sep: char): string {
    if stem == "" || EndsWith(stem, sep) then "" else [sep]
  }

  /** highlight_text. `separator` is the caller's choice; `None` means the
      platform's own. The path's display text and its parent's always use the
      platform's separator. */
  function HighlightText(path: Path, pattern: string, separator: Option<char>, platform: Platform): seq<Segment> {
    var sep := separator.UnwrapOr(MainSeparator(platform));
    match FileName(path)
    case None => [Plain(Display(path, MainSeparator(platform)))]
    case Some(name) =>
      var stem := match Parent(path)
        case Some(parent) => Display(parent, MainSeparator(platform))
        case None => "";
      HighlightName(stem, name, pattern, sep, Display(path, MainSeparator(platform)))
  }

  /** The part of highlight_text after the parent's text is known: find the
      lower-cased pattern in the lower-cased name and split the name around
      it, or fall back to the path's own text `whole`. */
  function HighlightName(stem: string, name: string, pattern: string, sep: char, whole: string): seq<Segment> {
    match Find(Lower(name), Lower(pattern))
    case Some(index) =>
      [Plain(stem), Plain(SeparatorAfter(stem, sep)), Plain(name[..index]),
       Emph(name[index..index + |pattern|]), Plain(name[index + |pattern|..])]
    case None => [Plain(whole)]
  }

  /** The path comes back unchanged, as one plain segment, exactly when it has
      no file name or the lower-cased pattern does not occur in the lower-cased
      name. */
  lemma HighlightUnchanged(path: Path, pattern: string, separator: Option<char>, platform: Platform)
    ensures HighlightText(path, pattern, separator, platform) == [Plain(Display(path, MainSeparator(platform)))]
        <==> FileName(path).None? || forall i :: !OccursAt(Lower(FileName(path).value), Lower(pattern), i)
  {
  }

  /** When the pattern occurs in the file name: the parent's text, the
      separator if the parent needs one, then the name with its leftmost match
      emphasised. The emphasised text is the original-case slice of the name,
      as long as the pattern, and lower-cases to the lower-cased pattern. */
  lemma HighlightFound(path: Path, pattern: string, separator: Option<char>, platform: Platform, name: string, i: nat)
    requires FileName(path) == Some(name)
    requires OccursAt(Lower(name), Lower(pattern), i)
    requires forall j :: 0 <= j < i ==> !OccursAt(Lower(name), Lower(pattern), j)
    ensures i + |pattern| <= |name|
    ensures Lower(name[i..i + |pattern|]) == Lower(pattern)
    ensures
      var stem := Display(path[..|path| - 1], MainSeparator(platform));
      var sep := separator.UnwrapOr(MainSeparator(platform));
      HighlightText(path, pattern, separator, platform)
        == [Plain(stem), Plain(if stem != "" && !EndsWith(stem, sep) then [sep] else ""),
            Plain(name[..i]), Emph(name[i..i + |pattern|]), Plain(name[i + |pattern|..])]
  {
    FindLeftmost(Lower(name), Lower(pattern), i);
    HighlightSegments(path, pattern, separator, platform, name, i);
    LowerSlice(name, i, i + |pattern|);
  }

  /** Stripping distributes over concatenation of segment lists. */
  lemma {:induction false} StripConcat(x: seq<Segment>, y: seq<Segment>)
    ensures Strip(x + y) == Strip(x) + Strip(y)
  {
    if |x| == 0 {
      assert x + y == y;
    } else {
      assert (x + y)[1..] == x[1..] + y;
      StripConcat(x[1..], y);
    }
  }

  /** One segment strips to its text. */
  lemma StripSingle(x: Segment)
    ensures Strip([x]) == x.text
  {
    assert [x][1..] == [];
  }

  lemma StripFive(a: string, b: string, c: string, d: string, e: string)
    ensures Strip([Plain(a), Plain(b), Plain(c), Emph(d), Plain(e)]) == a + b + c + d + e
  {
    var front := [Plain(a), Plain(b)];
    var back := [Plain(c), Emph(d), Plain(e)];
    assert front + back == [Plain(a), Plain(b), Plain(c), Emph(d), Plain(e)];
    StripConcat(front, back);
    StripConcat([Plain(a)], [Plain(b)]);
    StripConcat([Plain(c)], [Emph(d), Plain(e)]);
    StripConcat([Emph(d)], [Plain(e)]);
    assert [Plain(a)] + [Plain(b)] == front;
    assert [Plain(c)] + ([Emph(d)] + [Plain(e)]) == back;
    StripSingle(Plain(a));
    StripSingle(Plain(b));
    StripSingle(Plain(c));
    StripSingle(Emph(d));
    StripSingle(Plain(e));
  }

  lemma StripSplit(stem: string, sepText: string, name: string, i: nat, n: nat)
    requires i + n <= |name|
    ensures Strip([Plain(stem), Plain(sepText), Plain(name[..i]), Emph(name[i..i + n]), Plain(name[i + n..])])
         == stem + sepText + name
  {
    StripFive(stem, sepText, name[..i], name[i..i + n], name[i + n..]);
    assert name[..i] + name[i..i + n] + name[i + n..] == name;
  }

  /** The five segments of a name, for the match `Find` reports. */
  lemma HighlightNameFound(stem: string, name: string, pattern: string, sep: char, whole: string, i: nat)
    requires Find(Lower(name), Lower(pattern)) == Some(i)
    ensures i + |pattern| <= |name|
    ensures HighlightName(stem, name, pattern, sep, whole)
         == [Plain(stem), Plain(SeparatorAfter(stem, sep)),
             Plain(name[..i]), Emph(name[i..i + |pattern|]), Plain(name[i + |pattern|..])]
  {
    assert i + |pattern| <= |name| by {
      assert OccursAt(Lower(name), Lower(pattern), i);
    }
  }

  /** The five segments of a path, for the match `Find` reports. */
  lemma HighlightSegments(path: Path, pattern: string, separator: Option<char>, platform: Platform, name: string, i: nat)
    requires FileName(path) == Some(name)
    requires Find(Lower(name), Lower(pattern)) == Some(i)
    ensures i + |pattern| <= |name|
    ensures
      var stem := Display(path[..|path| - 1], MainSeparator(platform));
      var sep := separator.UnwrapOr(MainSeparator(platform));
      HighlightText(path, pattern, separator, platform)
        == [Plain(stem), Plain(SeparatorAfter(stem, sep)),
            Plain(name[..i]), Emph(name[i..i + |pattern|]), Plain(name[i + |pattern|..])]
  {
    var stem := Display(path[..|path| - 1], MainSeparator(platform));
    var sep := separator.UnwrapOr(MainSeparator(platform));
    var whole := Display(path, MainSeparator(platform));
    assert HighlightText(path, pattern, separator, platform) == HighlightName(stem, name, pattern, sep, whole) by {
      assert Parent(path) == Some(path[..|path| - 1]);
    }
    HighlightNameFound(stem, name, pattern, sep, whole, i);
  }

  /** Without the emphasis, a highlighted name reads as parent, separator if
      needed, and the whole name, whatever separator the caller chose. */
  lemma HighlightStripsToName(path: Path, pattern: string, separator: Option<char>, platform: Platform)
    requires FileName(path).Some? && Find(Lower(FileName(path).value), Lower(pattern)).Some?
    ensures
      var stem := Display(path[..|path| - 1], MainSeparator(platform));
      var sep := separator.UnwrapOr(MainSeparator(platform));
      Strip(HighlightText(path, pattern, separator, platform)) == stem + SeparatorAfter(stem, sep) + FileName(path).value
  {
    var name := FileName(path).value;
    var stem := Display(path[..|path| - 1], MainSeparator(platform));
    var sep := separator.UnwrapOr(MainSeparator(platform));
    assert HighlightText(path, pattern, separator, platform)
        == HighlightName(stem, name, pattern, sep, Display(path, MainSeparator(platform))) by {
      assert Parent(path) == Some(path[..|path| - 1]);
    }
    StripHighlightName(stem, name, pattern, sep, Display(path, MainSeparator(platform)));
  }

  /** Without the emphasis, a found match reads as the parent's text, the separator if needed and the name. */
  lemma StripHighlightName(stem: string, name: string, pattern: string, sep: char, whole: string)
    requires Find(Lower(name), Lower(pattern)).Some?
    ensures Strip(HighlightName(stem, name, pattern, sep, whole)) == stem + SeparatorAfter(stem, sep) + name
  {
    var i := Find(Lower(name), Lower(pattern)).value;
    HighlightNameFound(stem, name, pattern, sep, whole, i);
    StripSplit(stem, SeparatorAfter(stem, sep), name, i, |pattern|);
  }


  /** `push` writes exactly the separator `SeparatorAfter` describes. */
  lemma PushSeparator(stem: string, name: string, sep: char)
    ensures Push(stem, name, sep) == stem + SeparatorAfter(stem, sep) + name
  {
    if stem == "" || EndsWith(stem, sep) {
      assert stem + "" == stem;
    }
  }

  /** Only the separator a caller's choice resolves to matters. */
  lemma SameSeparatorSameText(path: Path, pattern: string, s1: Option<char>, s2: Option<char>, platform: Platform)
    requires s1.UnwrapOr(MainSeparator(platform)) == s2.UnwrapOr(MainSeparator(platform))
    ensures HighlightText(path, pattern, s1, platform) == HighlightText(path, pattern, s2, platform)
  {
  }

  /** The round trip when the pattern occurs in the file name. */
  lemma RoundTripMatched(path: Path, pattern: string, separator: Option<char>, platform: Platform)
    requires separator.UnwrapOr(MainSeparator(platform)) == MainSeparator(platform)
    requires FileName(path).Some? && Find(Lower(FileName(path).value), Lower(pattern)).Some?
    ensures Strip(HighlightText(path, pattern, separator, platform)) == Display(path, MainSeparator(platform))
  {
    var sep := MainSeparator(platform);
    var name := FileName(path).value;
    var parent := path[..|path| - 1];
    assert Display(path, sep) == Push(Display(parent, sep), name, sep) by {
      assert path == Join(parent, name);
      DisplayJoin(parent, name, sep);
    }
    PushSeparator(Display(parent, sep), name, sep);
    HighlightStripsToName(path, pattern, separator, platform);
  }

  /** The round trip when the path is returned whole. */
  lemma RoundTripUnmatched(path: Path, pattern: string, separator: Option<char>, platform: Platform)
    requires FileName(path).None? || Find(Lower(FileName(path).value), Lower(pattern)).None?
    ensures Strip(HighlightText(path, pattern, separator, platform)) == Display(path, MainSeparator(platform))
  {
    var whole := [Plain(Display(path, MainSeparator(platform)))];
    assert HighlightText(path, pattern, separator, platform) == whole;
    assert whole[1..] == [];
  }

  /** Round trip: without the emphasis the output is the path's display text,
      whenever the separator is the platform's own (in particular by default). */
  lemma HighlightRoundTrip(path: Path, pattern: string, separator: Option<char>, platform: Platform)
    requires separator.UnwrapOr(MainSeparator(platform)) == MainSeparator(platform)
    ensures Strip(HighlightText(path, pattern, separator, platform)) == Display(path, MainSeparator(platform))
    ensures HighlightText(path, pattern, separator, platform) == HighlightText(path, pattern, None, platform)
  {
    SameSeparatorSameText(path, pattern, separator, None, platform);
    if FileName(path).Some? && Find(Lower(FileName(path).value), Lower(pattern)).Some? {
      RoundTripMatched(path, pattern, separator, platform);
    } else {
      RoundTripUnmatched(path, pattern, separator, platform);
    }
  }

  /** One more component on a path whose display text is known. */
  lemma DisplayStep(dir: Path, text: string, name: string, sep: char)
    requires Display(dir, sep) == text && text != "" && !EndsWith(text, sep)
    ensures Display(dir + [Normal(name)], sep) == text + [sep] + name
  {
    DisplayJoin(dir, name, sep);
  }

  lemma DisplayOne(name: string, sep: char)
    ensures Display([Normal(name)], sep) == name
  {
    assert [Normal(name)][..0] == [];
  }

  lemma DisplayRootChild(name: string, sep: char)
    ensures Display([RootDir, Normal(name)], sep) == [sep] + name
  {
    var root: Path := [RootDir];
    assert root[..0] == [];
    assert [RootDir, Normal(name)] == Join(root, name);
    DisplayJoin(root, name, sep);
  }

  lemma DisplayUsrBin()
    ensures Display([RootDir, Normal("usr"), Normal("bin")], '/') == "/usr/bin"
  {
    DisplayRootChild("usr", '/');
    DisplayStep([RootDir, Normal("usr")], "/usr", "bin", '/');
    assert [RootDir, Normal("usr")] + [Normal("bin")] == [RootDir, Normal("usr"), Normal("bin")];
  }

  lemma DisplayCSome()
    ensures Display([Normal("C:"), Normal("some")], '\\') == "C:\\some"
  {
    DisplayOne("C:", '\\');
    DisplayStep([Normal("C:")], "C:", "some", '\\');
    assert [Normal("C:")] + [Normal("some")] == [Normal("C:"), Normal("some")];
  }

  lemma DisplayCSomeBin()
    ensures Display([Normal("C:"), Normal("some"), Normal("bin")], '\\') == "C:\\some\\bin"
  {
    DisplayCSome();
    DisplayStep([Normal("C:"), Normal("some")], "C:\\some", "bin", '\\');
    assert [Normal("C:"), Normal("some")] + [Normal("bin")] == [Normal("C:"), Normal("some"), Normal("bin")];
  }

  /** The library's test on a Unix path, with '/' as the separator. */
  lemma ScenarioHighlightUnix()
    ensures HighlightText([RootDir, Normal("usr"), Normal("bin"), Normal("lsx")], "LS", Some('/'), Unix)
         == [Plain("/usr/bin"), Plain("/"), Plain(""), Emph("ls"), Plain("x")]
  {
    var path := [RootDir, Normal("usr"), Normal("bin"), Normal("lsx")];
    assert Lower("LS") == "ls" && Lower("lsx") == "lsx";
    assert OccursAt("lsx", "ls", 0);
    HighlightFound(path, "LS", Some('/'), Unix, "lsx", 0);
    assert path[..3] == [RootDir, Normal("usr"), Normal("bin")];
    DisplayUsrBin();
    assert !EndsWith("/usr/bin", '/');
  }

  /** The library's test on a Windows path, with '\\' as the separator. */
  lemma ScenarioHighlightWindows()
    ensures HighlightText([Normal("C:"), Normal("some"), Normal("bin"), Normal("lsx.exe")], "LS", Some('\\'), Windows)
         == [Plain("C:\\some\\bin"), Plain("\\"), Plain(""), Emph("ls"), Plain("x.exe")]
  {
    var path := [Normal("C:"), Normal("some"), Normal("bin"), Normal("lsx.exe")];
    assert Lower("LS") == "ls" && Lower("lsx.exe") == "lsx.exe";
    assert OccursAt("lsx.exe", "ls", 0);
    HighlightFound(path, "LS", Some('\\'), Windows, "lsx.exe", 0);
    assert path[..3] == [Normal("C:"), Normal("some"), Normal("bin")];
    DisplayCSomeBin();
    assert !EndsWith("C:\\some\\bin", '\\');
  }
}
