/**
  The two string operations the entities' name searches rely on:
  std::string::find (first occurrence, or npos) and ::tolower in the "C"
  locale, which only folds the ASCII letters A-Z.
 */
module Text {

  /** `needle` occurs in `hay` starting at index `i`. */
  predicate OccursAt(hay: string, needle: string, i: nat) {
    i + |needle| <= |hay| && hay[i..i + |needle|] == needle
  }

  /** `needle` is a substring of `hay`. */
  ghost predicate Contains(hay: string, needle: string) {
    exists i: nat :: OccursAt(hay, needle, i)
  }

  /** std::string::find from position `from`: the first index at or after
      `from` where `needle` occurs, or -1 (npos) when there is none. */
  function FindFrom(hay: string, needle: string, from: nat): (r: int)
    ensures r == -1 || (from <= r && OccursAt(hay, needle, r))
    ensures forall i: nat :: from <= i && (r == -1 || i < r) ==> !OccursAt(hay, needle, i)
    decreases |hay| + 1 - from
  {
    if from + |needle| > |hay| then
      assert forall i: nat :: from <= i ==> !OccursAt(hay, needle, i);
      -1
    else if hay[from..from + |needle|] == needle then from
    else FindFrom(hay, needle, from + 1)
  }

  /** std::string::find: the first occurrence of `needle` in `hay`, or -1. */
  function Find(hay: string, needle: string): (r: int)
    ensures r == -1 <==> !Contains(hay, needle)
    ensures r != -1 ==> 0 <= r && OccursAt(hay, needle, r)
  {
    var r := FindFrom(hay, needle, 0);
    assert r != -1 ==> OccursAt(hay, needle, r as nat);
    r
  }

  /** ::tolower on one character in the "C" locale. */
  function LowerChar(c: char): (r: char)
  {
    if 'A' <= c <= 'Z' then (c as int + 32) as char else c
  }

  /** std::transform(..., ::tolower) over a whole string. */
  function Lower(s: string): (r: string)
    ensures |r| == |s|
    ensures forall i :: 0 <= i < |s| ==> r[i] == LowerChar(s[i])
  {
    if s == [] then [] else [LowerChar(s[0])] + Lower(s[1..])
  }
}
