/** The string operations the matcher and the highlighters rely on:
    lower-casing, `str::find`/`str::contains`, `str::ends_with` and the order
    of `String`. Strings are sequences of Unicode scalar values; comparing
    them by code point is the same as comparing their UTF-8 bytes. */
module Text {
  import opened Wrappers
  import opened Orders

  /** Lower-casing of one character, restricted to ASCII letters. */
  function LowerChar(c: char): char {
    if 'A' <= c <= 'Z' then (c as int + ('a' as int - 'A' as int)) as char else c
  }

  /** str::to_lowercase over ASCII: one character in, one character out, so
      every index into the result is an index into the original. */
  function Lower(s: string): (r: string)
    ensures |r| == |s|
    ensures forall i :: 0 <= i < |s| ==> r[i] == LowerChar(s[i])
  {
    seq(|s|, i requires 0 <= i < |s| => LowerChar(s[i]))
  }

  /** `needle` occurs in `hay` starting at index `i`. */
  predicate OccursAt(hay: string, needle: string, i: int) {
    0 <= i && i + |needle| <= |hay| && hay[i..i + |needle|] == needle
  }

  /** An occurrence, character by character. */
  lemma OccursAtChars(hay: string, needle: string, i: int)
    ensures OccursAt(hay, needle, i) <==>
      0 <= i && i + |needle| <= |hay| && forall k :: 0 <= k < |needle| ==> hay[i + k] == needle[k]
    ensures |needle| == 2 ==>
      (OccursAt(hay, needle, i) <==> 0 <= i && i + 2 <= |hay| && hay[i] == needle[0] && hay[i + 1] == needle[1])
  {
    if 0 <= i && i + |needle| <= |hay| {
      var window := hay[i..i + |needle|];
      assert forall k :: 0 <= k < |needle| ==> window[k] == hay[i + k];
    }
  }

  function FindFrom(hay: string, needle: string, start: nat): (r: Option<nat>)
    decreases |hay| - start
    ensures r.Some? ==> start <= r.value && OccursAt(hay, needle, r.value)
    ensures r.Some? ==> forall j :: start <= j < r.value ==> !OccursAt(hay, needle, j)
    ensures r.None? ==> forall j :: start <= j ==> !OccursAt(hay, needle, j)
  {
    if start + |needle| > |hay| then None
    else if hay[start..start + |needle|] == needle then Some(start)
    else FindFrom(hay, needle, start + 1)
  }

  /** str::find: the index of the leftmost occurrence of `needle`, if any. */
  function Find(hay: string, needle: string): (r: Option<nat>)
    ensures r.Some? ==> OccursAt(hay, needle, r.value)
    ensures r.Some? ==> forall j :: 0 <= j < r.value ==> !OccursAt(hay, needle, j)
    ensures r.None? <==> forall j :: !OccursAt(hay, needle, j)
  {
    FindFrom(hay, needle, 0)
  }

  /** The leftmost occurrence is the one `Find` reports. */
  lemma FindLeftmost(hay: string, needle: string, i: nat)
    requires OccursAt(hay, needle, i)
    requires forall j :: 0 <= j < i ==> !OccursAt(hay, needle, j)
    ensures Find(hay, needle) == Some(i)
  {
    var r := Find(hay, needle);
    assert r.Some?;
    assert !(r.value < i) && !(i < r.value);
  }

  /** Lower-casing commutes with slicing. */
  lemma LowerSlice(s: string, i: nat, j: nat)
    requires i <= j <= |s|
    ensures Lower(s[i..j]) == Lower(s)[i..j]
  {
  }

  /** str::contains */
  predicate Contains(hay: string, needle: string) {
    Find(hay, needle).Some?
  }

  /** str::ends_with with a `char` pattern. */
  predicate EndsWith(s: string, c: char) {
    |s| > 0 && s[|s| - 1] == c
  }

  /** Ord for char: by code point. */
  function CharCmp(x: char, y: char): Ordering {
    if x < y then Less else if x == y then Equal else Greater
  }

  /** Ord for String. */
  function StrCmp(a: string, b: string): Ordering {
    Lex(a, b, CharCmp)
  }

  lemma StrCmpTotal()
    ensures TotalOrder(StrCmp)
  {
    assert TotalOrder(CharCmp);
    LexTotal(CharCmp);
  }
}
