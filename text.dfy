/**
 * String facts used by the search: substring containment (the library's
 * `str::contains`) and lowercasing, modelled as a per-character map.
 */
module Text {

  /** `sub` occurs in `s` starting at index `i`. */
  predicate OccursAt(s: string, sub: string, i: int)
  {
    0 <= i && i + |sub| <= |s| && s[i..i + |sub|] == sub
  }

  /** `sub` occurs in `s` as a contiguous substring, at one index or more. */
  predicate Contains(s: string, sub: string)
  {
    exists i | 0 <= i <= |s| - |sub| :: OccursAt(s, sub, i)
  }

  /** A string lacking the first character of a non-empty `sub` does not contain `sub`. */
  lemma MissingFirstChar(s: string, sub: string)
    requires sub != [] && sub[0] !in s
    ensures !Contains(s, sub)
  {
  }

  /** The empty string is a substring of every string. */
  lemma ContainsEmpty(s: string)
    ensures Contains(s, "")
  {
    assert OccursAt(s, "", 0);
  }

  /** Containment is transitive: a substring of a substring is a substring. */
  lemma ContainsTransitive(s: string, mid: string, sub: string)
    requires Contains(s, mid) && Contains(mid, sub)
    ensures Contains(s, sub)
  {
    var i :| 0 <= i <= |s| - |mid| && OccursAt(s, mid, i);
    var j :| 0 <= j <= |mid| - |sub| && OccursAt(mid, sub, j);
    assert mid == s[i..i + |mid|];
    assert j + |sub| <= |mid|;
    var inS, inMid := s[i + j..i + j + |sub|], mid[j..j + |sub|];
    assert forall k :: 0 <= k < |sub| ==> inS[k] == inMid[k];
    assert OccursAt(s, sub, i + j);
  }

  /** Applies a per-character map to every character of `s`. */
  function MapChars(f: char -> char, s: string): (r: string)
    ensures |r| == |s|
    ensures forall i :: 0 <= i < |s| ==> r[i] == f(s[i])
  {
    seq(|s|, i requires 0 <= i < |s| => f(s[i]))
  }

  /** Mapping characters commutes with slicing. */
  lemma MapCharsSlice(f: char -> char, s: string, i: int, j: int)
    requires 0 <= i <= j <= |s|
    ensures MapChars(f, s)[i..j] == MapChars(f, s[i..j])
  {
  }

  /** A per-character map keeps every occurrence: if `sub` is in `s`, its image is in the image of `s`. */
  lemma ContainsMapped(f: char -> char, s: string, sub: string)
    requires Contains(s, sub)
    ensures Contains(MapChars(f, s), MapChars(f, sub))
  {
    var i :| 0 <= i <= |s| - |sub| && OccursAt(s, sub, i);
    MapCharsSlice(f, s, i, i + |sub|);
    assert OccursAt(MapChars(f, s), MapChars(f, sub), i);
  }

  /** ASCII lowercase of one character; every other character is left as it is. */
  function ToLower(c: char): char
  {
    if 'A' <= c <= 'Z' then (c as int - 'A' as int + 'a' as int) as char else c
  }

  /** Lowercase of a whole string, one character at a time. */
  function Lower(s: string): string
  {
    MapChars(ToLower, s)
  }

  /** Lowercasing keeps the length, lowers each ASCII capital to its own letter, and changes nothing else. */
  lemma LowerSpec(s: string)
    ensures |Lower(s)| == |s|
    ensures forall i :: 0 <= i < |s| && 'A' <= s[i] <= 'Z' ==> Lower(s)[i] == (s[i] as int + 32) as char
    ensures forall i :: 0 <= i < |s| ==> !('A' <= Lower(s)[i] <= 'Z')
    ensures forall i :: 0 <= i < |s| && !('A' <= s[i] <= 'Z') ==> Lower(s)[i] == s[i]
  {
  }

  /** Text with no ASCII upper-case letter is its own lowercase. */
  lemma LowerOfLowercase(s: string)
    requires forall i :: 0 <= i < |s| ==> !('A' <= s[i] <= 'Z')
    ensures Lower(s) == s
  {
  }

  /** A lower-case letter is in the lowercase of `s` only if it, or its upper-case form, is in `s`. */
  lemma LowerLacks(s: string, c: char)
    requires 'a' <= c <= 'z'
    requires c !in s && (c as int - 32) as char !in s
    ensures c !in Lower(s)
  {
  }

  /** Lowercasing twice is lowercasing once. */
  lemma LowerIdempotent(s: string)
    ensures Lower(Lower(s)) == Lower(s)
  {
  }

  /** Case-sensitive containment implies containment after lowercasing both sides. */
  lemma ContainsLower(s: string, sub: string)
    requires Contains(s, sub)
    ensures Contains(Lower(s), Lower(sub))
  {
    ContainsMapped(ToLower, s, sub);
  }
}
