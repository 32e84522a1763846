# superwhich, modelled in Dafny

superwhich is a "smart `which`". Given a pattern, it looks through the
directories of the search path for executables whose names contain the
pattern (case-insensitively) or are similar to it by Jaro-Winkler score. It
prints them in order, with the matching part of each name highlighted.

This project models two versions of that core:

- the library (`src/lib.rs`):
  - `find_executables` returns the ordered set of matching paths;
  - `highlight_text` renders one path with its match emphasised.
- the first version of the program (`src/main.rs`):
  - `super_which` fills an ordered set of `PathInfo` records and prints them;
  - its own `highlight_text`;
  - the `Ord`/`PartialOrd` implementations of `PathInfo`;
  - the extension-based executability test used outside Unix.

Modules:

- `Orders` models `std::cmp::Ordering`, `then_with` and lexicographic order. It proves that lexicographic order lifts a total order.
- `SortedSets` models a `BTreeSet` as a strictly sorted sequence. Inserting into it and collecting into it are defined here. It proves that a sorted set is determined by its members.
- `Text` models ASCII lower-casing, `str::find` (leftmost occurrence), `contains`, `ends_with` and the order of `String`.
- `Paths` models a `Path` as its components. It covers the component-wise order of paths, `join`, `file_name`, `parent`, and `display`, which follows the separator rule of `PathBuf::push`.
- `Snapshot` is the filesystem frozen at one instant. For each input path it records:
  - whether the path is missing, is not a directory, or cannot be listed;
  - otherwise, its listing: entries, read errors, and names that are not UTF-8.
- `Finder` is `find_executables`, as pure functions. It defines what "found" means, and it proves that the result:
  - is ordered;
  - is independent of input order;
  - is the union of the results for the parts of the input;
  - ignores inputs that cannot be listed.
- `Highlighter` is the library's `highlight_text`. It proves a round trip: without the emphasis, the output is the path's display text.
- `Legacy` is `src/main.rs`. Its parts:
  - `super_which` is a method with loops. It is proved against a specification function: the sorted set of records inserted.
  - the `PathInfo` order is proved to be a total order.
  - the legacy highlighter, the Windows extension test, and a lemma relating this version's results to the library's.

Inputs the model does not compute become parameters:

- the Jaro-Winkler score, a function to `real`;
- the executability check, a predicate on paths;
- the platform, which decides the separator;
- the filesystem, a function from paths to listings.

## Model

| member | source | states |
|---|---|---|
| Finder.MatchEntry | src/lib.rs:128-145 | An entry yields a path exactly when it was read without error, the check accepts its path, its name is UTF-8, and the lower-cased name contains the lower-cased pattern or scores at least the threshold. The path yielded is the directory joined with the name. |
| Finder.MatchEntries | src/lib.rs:128-146 | A listing yields exactly the joined paths of the selected UTF-8 entries. |
| Finder.ScanPath | src/lib.rs:110-126 | A listed directory yields its matches. A missing path, a file or an unreadable directory yields nothing. |
| Finder.ScanAll | src/lib.rs:108-149 | A path is produced exactly when it joins a listed input directory with a selected UTF-8 entry name. |
| Finder.FindExecutables | src/lib.rs:96-151 | The result is strictly ascending in `Path` order. Its members are exactly the found paths for the lower-cased pattern. |
| Finder.Warnings | src/lib.rs:112-125 | A warning is printed for exactly those inputs that are directories but cannot be listed. |
| Finder.SameMembersSameResult | src/lib.rs:150 | Two ordered results with the same members are the same set. |
| Finder.SubstringMatchIsFound | src/lib.rs:131-140 | Completeness: an executable entry whose lower-cased name contains the lower-cased pattern is always reported, whatever the threshold. |
| Finder.InputOrderIrrelevant | src/lib.rs:108-111 | Inputs with the same directories give the same result, whatever their order or repetitions, so parallel visiting cannot change it. |
| Finder.ResultIsUnionOfParts | src/lib.rs:108-150 | The result for a concatenation of inputs is the ordered union of the results for the parts. |
| Finder.SkippedInputsAddNothing | src/lib.rs:110-125 | Adding an input that is not a listed directory leaves the result unchanged. No input gives an empty result. |
| Finder.OnlyUtf8NamesMatter | src/lib.rs:133-134 | Two filesystems that agree on the UTF-8 entry names of the listed inputs give the same result. |
| Finder.ThresholdMonotone | src/lib.rs:138 | Lowering the threshold never loses a result. |
| Finder.ScenarioFindLs | src/lib.rs:217-240 | With the nine test names, pattern "LS" and threshold 0.7, the result is exactly `lsa.exe` then `lsx.exe`, given that the other seven names score below 0.7. |
| Highlighter.HighlightUnchanged | src/lib.rs:178-204 | The output is the path's display text as one plain segment exactly when the path has no file name or the lower-cased pattern does not occur in the lower-cased name. |
| Highlighter.HighlightFound | src/lib.rs:181-201 | For the leftmost match at `i`, the output has five parts: the parent's text; the separator, written only if that text is non-empty and does not already end with it; the name before `i`; the emphasised original-case slice as long as the pattern, which lower-cases to the lower-cased pattern; and the rest of the name. |
| Highlighter.HighlightStripsToName | src/lib.rs:189-201 | Without emphasis, a match reads as the parent's text, the separator if needed, then the whole file name. This holds for any separator. |
| Highlighter.HighlightRoundTrip | src/lib.rs:176-205 | With the platform's separator (the default), the output without emphasis is exactly the path's display text. Passing the platform separator is the same as passing none. |
| Highlighter.ScenarioHighlightUnix | src/lib.rs:255-259 | `/usr/bin/lsx` with "LS" and '/' highlights "ls" after "/usr/bin/", with "x" after it. |
| Highlighter.ScenarioHighlightWindows | src/lib.rs:244-253 | `C:\some\bin\lsx.exe` with "LS" and '\\' highlights "ls" after `C:\some\bin\`, with "x.exe" after it. |
| Highlighter.HighlightText | src/lib.rs:176-205 | Its contract is stated by `HighlightUnchanged` (the path's own text when there is no file name or no match), `HighlightFound` (the five segments of the leftmost match) and `HighlightRoundTrip` (without emphasis, the path's display text). |
| Highlighter.StripConcat | src/lib.rs:190-201 | Removing emphasis from a list of pieces gives the concatenation of their texts, as `format!` writes the five pieces one after another. |
| Paths.Display | src/lib.rs:179-182 | Its contract is stated by `Paths.JoinParts`: the text of an entry's path is the directory's text with the name pushed on, a separator added only when the directory text is non-empty and does not already end with one. |
| Paths.PathCmpTotal | src/lib.rs:101 | The component-wise order of paths, which the result set is sorted by, is a total order that agrees with equality. |
| Paths.JoinParts | src/lib.rs:130-133 | An entry's path has the entry's name as file name and the directory as parent. Its display text is the directory's text pushed with the name. Different directory or name pairs give different paths. |
| Paths.JoinOrder | src/lib.rs:221-224 | Paths of entries in one directory are ordered as their names are. |
| Text.Find | src/lib.rs:189 | `find` returns an occurrence with none to its left, and `None` exactly when there is no occurrence. |
| Text.Lower | src/lib.rs:186-187 | Lower-casing keeps the length and maps each character on its own. |
| SortedSets.Insert | src/main.rs:115 | Inserting keeps the set strictly ordered. Its members are the old ones plus the new one. |
| SortedSets.InsertIdempotent | src/main.rs:115 | Inserting a record that is already present changes nothing. |
| SortedSets.Collect | src/lib.rs:150 | Collecting gives a strictly ordered set with exactly the collected members. |
| SortedSets.SortedUnique | src/lib.rs:150 | Two strictly ordered sequences with the same members are equal. |
| Legacy.CmpIsLex | src/main.rs:171-178 | The `then_with` chain is the lexicographic order on (path text, directory text, name). |
| Legacy.CmpTotal | src/main.rs:171-178 | The `PathInfo` order is total and agrees with the derived equality, as the ordered set requires. |
| Legacy.PartialCmpConsistent | src/main.rs:180-183 | `partial_cmp` is always defined. It says `Equal` exactly for equal records, and it is antisymmetric. |
| Legacy.Cmp | src/main.rs:171-178 | Its contract is stated by `Legacy.CmpIsLex` and `Legacy.CmpTotal`: path text first, then directory text, then name, a total order. |
| Legacy.PartialCmp | src/main.rs:180-183 | Its contract is stated by `Legacy.PartialCmpConsistent`: always `Some` of `cmp`. |
| Legacy.EntryInfo | src/main.rs:113-119 | A record holds the entry path's text, the directory's text and the lossy name. `Legacy.RootEntryInfo` gives the record of `ls` in `/`, and `Legacy.LegacyRoundTripIff` relates its path text to the directory text. |
| Legacy.LegacyHighlight | src/main.rs:154-169 | Its contract is stated by `Legacy.LegacyHighlightFound`, `Legacy.LegacyHighlightUnchanged` and `Legacy.LegacyHighlightStrips`. |
| Legacy.LegacyHighlightFound | src/main.rs:155-168 | For the leftmost occurrence `i` of the lower-case pattern in the lower-cased name, the output is the directory text, the separator (always), the name before `i`, the emphasised original-case slice as long as the pattern, which lower-cases to the pattern, and the rest of the name. |
| Legacy.LegacyHighlightUnchanged | src/main.rs:155-159 | The stored path text comes out alone, as one plain segment, exactly when the lower-cased name does not contain the pattern. |
| Legacy.LegacyHighlightStrips | src/main.rs:154-169 | Without emphasis, a matching name reads as directory text, separator, name. A non-matching name reads as the stored path text. |
| Legacy.LegacyRoundTripIff | src/main.rs:161-168 | For a matching entry, the legacy output equals the entry's path text exactly when the directory's text is non-empty and does not end with the separator. |
| Legacy.RootEntryDoubledSeparator | src/main.rs:161-168 | The entry `ls` of `/` is stored with path text "/ls" and printed as "//ls". |
| Legacy.RootEntryInfo | src/main.rs:113-119 | The entry `ls` of `/` is stored as path text "/ls", directory text "/" and name "ls". |
| Legacy.IsExecutableOnWindowsIff | src/main.rs:130-152 | Outside Unix, a path counts as executable exactly when it is a regular file whose name is a non-empty base, a dot and a dot-free extension that lower-cases into the list. |
| Legacy.ScenarioWindowsExtensions | src/main.rs:38 | Examples: "ls.EXE" and "setup.tar.py" have listed extensions. "ls" and ".exe" have none. "ls.exe.txt" has the unlisted "txt". |
| Legacy.IsExecutableOnWindows | src/main.rs:130-152 | Its contract is stated by `Legacy.IsExecutableOnWindowsIff`. |
| Legacy.Extension | src/main.rs:143-148 | Its contract is stated by `Legacy.IsExecutableOnWindowsIff` and `Legacy.ScenarioWindowsExtensions`: the text after the last dot of a file name that has a non-empty base. |
| Legacy.DirInfos | src/main.rs:105-121 | A directory's records are exactly those of its entries that were read, pass the check and match; a record holds the path text, the directory text and the lossy name. |
| Legacy.AllInfos | src/main.rs:100-122 | The records inserted are exactly those of accepted entries of listed input directories. |
| Legacy.FoundSet | src/main.rs:98-124 | The set iterated for printing is strictly ordered by the `PathInfo` order, and it holds exactly the inserted records. |
| Legacy.InsertMatches | src/main.rs:105-121 | Scanning one listed directory panics exactly when one of its entries cannot be read. Otherwise the set stays ordered and gains exactly that directory's records. |
| Legacy.HighlightAll | src/main.rs:124-127 | One line per record, each the record highlighted, in set order. |
| Legacy.SuperWhich | src/main.rs:97-128 | The pass panics exactly when some input is an existing non-directory, an unreadable directory, or holds an unreadable entry. Otherwise it prints one highlighted line per record, in the order of the set, and the set is exactly the specified one. |
| Legacy.Run | src/main.rs:70-86 | An empty pattern is refused. Otherwise the search runs with the lower-cased pattern, and its outcome is passed on: the ordered set, and one line per record highlighted with the lower-cased pattern. |
| Legacy.LegacyAgreesWithLibrary | src/main.rs:105-119 | At threshold 0.8, every path the library finds has a legacy record. When every name is UTF-8, every legacy record is that of a path the library finds. |
| Legacy.ScenarioFileOnPath | src/main.rs:101-105 | With the regular file `/etc/hosts` as the only input, the legacy pass panics, while the library returns nothing. |

## Left out

- Parallelism (`rayon`, the `Mutex` around the set) is not modelled. Both versions are modelled as sequential passes. The library's result is proved independent of input order. In the legacy version the set is order-independent, and any panic ends the run whatever the order.
- Terminal colour and bold escape codes are left out. Emphasis is an abstract `Emph` segment, and the colour argument is dropped.
- The text and formatting of the library's warning is left out. `Finder.Warnings` states only which directories get one.
- Jaro-Winkler is a parameter. Its value is a `real` compared with `>=`, so floating point and NaN are not modelled.
- `Text.Lower`: lowers ASCII letters only, where Rust's `to_lowercase` is full Unicode and may change a string's length. So byte-index mismatches between a name and its lower-cased form are not modelled. For the Windows extension list, ASCII lowering decides membership exactly as Unicode lowering does.
- Names are sequences of characters, and indices count characters rather than UTF-8 bytes. The same slices result for ASCII names.
- `Paths.Display`: a path is its components, so the raw text of a search-path entry with a redundant separator (`/usr//bin`) is shown normalised.
- Windows drive prefixes are modelled as a normal first component, and '/' is not accepted as a separator on Windows.
- Directory components are always text. Only entry names may be non-UTF-8, and the executability check sees an entry's path through its lossy rendering.
- Highlighter.HighlightUnchanged: a file name that is not UTF-8, for which the library's `highlight_text` also returns the display text (src/lib.rs:178-179), cannot be written down, because a path's components are text. The lemma covers a missing file name and a name without a match.
- The Unix branch of the legacy `is_executable` (permission bits) and the `is_executable` crate are the executability parameter. Only the extension test is modelled.
- Of `main` (src/main.rs:70-95), only the refusal of an empty pattern and the lower-casing of the pattern are modelled, by `Legacy.Run`. Left out: argument parsing, the colour choice, the message and exit status of the refusal, reading `PATH` and the exit when it is unset, splitting it into paths (the paths are a parameter), and the timer with its elapsed-time print. The benchmarks are left out too.

## Findings

| source | as written | input that shows it | evidently intended | confidence | as-written member | corrected member |
|---|---|---|---|---|---|---|
| src/main.rs:161-168 | the platform separator is always written between the directory text and the name | search path `/` containing `ls`, pattern "ls", on Unix: the stored path is "/ls" but "//ls" is printed | write the separator only when the directory text is non-empty and does not already end with it, so the line reads as the path | not executed | Legacy.RootEntryDoubledSeparator | Highlighter.HighlightRoundTrip |
| src/main.rs:101-105 | an input that exists is passed to `read_dir(...).unwrap()` without checking that it is a directory | search path naming the regular file `/etc/hosts`: `read_dir` fails and the run panics before printing anything | skip inputs that are not directories | not executed | Legacy.ScenarioFileOnPath | Finder.SkippedInputsAddNothing |
