/**
 * The two line searches: keep, in file order, every line of the contents that
 * contains the query, either exactly or after lowercasing both sides.
 */
module Searcher {
  import opened Text
  import opened LineSplit

  /** `a` can be obtained from `b` by deleting elements, keeping the order of the rest. */
  predicate IsSubsequence<T(==)>(a: seq<T>, b: seq<T>)
  {
    if a == [] then true
    else if b == [] then false
    else (a[0] == b[0] && IsSubsequence(a[1..], b[1..])) || IsSubsequence(a, b[1..])
  }

  /** A subsequence has no more of any element than the sequence it is taken from. */
  lemma {:induction false} SubsequenceMultiset<T>(a: seq<T>, b: seq<T>)
    requires IsSubsequence(a, b)
    ensures multiset(a) <= multiset(b)
  {
    if a != [] {
      assert b == [b[0]] + b[1..];
      if a[0] == b[0] && IsSubsequence(a[1..], b[1..]) {
        SubsequenceMultiset(a[1..], b[1..]);
        assert a == [a[0]] + a[1..];
      } else {
        SubsequenceMultiset(a, b[1..]);
      }
    }
  }

  /** Whether one line is kept: the test of `search`, or of `search_case_insensitive`. */
  predicate LineMatches(ignoreCase: bool, query: string, line: string)
  {
    if ignoreCase then Contains(Lower(line), Lower(query)) else Contains(line, query)
  }

  /** The lines that match, in their original order. */
  function Select(ignoreCase: bool, query: string, lines: seq<string>): seq<string>
  {
    if lines == [] then []
    else
      (if LineMatches(ignoreCase, query, lines[0]) then [lines[0]] else [])
      + Select(ignoreCase, query, lines[1..])
  }

  /** Selecting from a concatenation selects from each part. */
  lemma {:induction false} SelectConcat(ignoreCase: bool, query: string, a: seq<string>, b: seq<string>)
    ensures Select(ignoreCase, query, a + b) == Select(ignoreCase, query, a) + Select(ignoreCase, query, b)
  {
    if a != [] {
      var head := if LineMatches(ignoreCase, query, a[0]) then [a[0]] else [];
      assert (a + b)[0] == a[0];
      assert (a + b)[1..] == a[1..] + b;
      SelectConcat(ignoreCase, query, a[1..], b);
      calc {
        Select(ignoreCase, query, a + b);
        head + Select(ignoreCase, query, a[1..] + b);
        head + (Select(ignoreCase, query, a[1..]) + Select(ignoreCase, query, b));
        (head + Select(ignoreCase, query, a[1..])) + Select(ignoreCase, query, b);
      }
    } else {
      assert a + b == b;
    }
  }

  /** A line is selected exactly when it is one of the lines and it matches. */
  lemma {:induction false} SelectMembers(ignoreCase: bool, query: string, lines: seq<string>)
    ensures forall l :: l in Select(ignoreCase, query, lines) <==> l in lines && LineMatches(ignoreCase, query, l)
  {
    if lines != [] {
      SelectMembers(ignoreCase, query, lines[1..]);
      assert lines == [lines[0]] + lines[1..];
    }
  }

  /** The selection keeps the lines' order: it is a subsequence of them. */
  lemma {:induction false} SelectIsSubsequence(ignoreCase: bool, query: string, lines: seq<string>)
    ensures IsSubsequence(Select(ignoreCase, query, lines), lines)
  {
    if lines != [] {
      var h, t := lines[0], lines[1..];
      SelectIsSubsequence(ignoreCase, query, t);
      var s := Select(ignoreCase, query, t);
      assert lines == [h] + t;
      if LineMatches(ignoreCase, query, h) {
        assert ([h] + s)[1..] == s;
      } else {
        assert Select(ignoreCase, query, lines) == s;
        SubsequenceExtend(s, t, h);
      }
    }
  }

  /** The selection holds every occurrence of a matching line and none of the others. */
  lemma {:induction false} SelectCounts(ignoreCase: bool, query: string, lines: seq<string>)
    ensures forall x :: multiset(Select(ignoreCase, query, lines))[x]
                        == if LineMatches(ignoreCase, query, x) then multiset(lines)[x] else 0
  {
    if lines != [] {
      SelectCounts(ignoreCase, query, lines[1..]);
      assert lines == [lines[0]] + lines[1..];
    }
  }

  /**
   * The selection is the only subsequence of the lines that holds every
   * occurrence of each matching line and no other line.
   */
  lemma {:induction false} SelectUnique(ignoreCase: bool, query: string, lines: seq<string>, r: seq<string>)
    requires IsSubsequence(r, lines)
    requires forall x :: multiset(r)[x] == if LineMatches(ignoreCase, query, x) then multiset(lines)[x] else 0
    ensures r == Select(ignoreCase, query, lines)
  {
    if lines == [] {
      assert r == [];
    } else {
      var h, t := lines[0], lines[1..];
      assert lines == [h] + t;
      assert multiset(t)[h] < multiset(lines)[h];
      assert r != [] ==> multiset(r)[r[0]] > 0;
      if r != [] && r[0] == h && IsSubsequence(r[1..], t) {
        assert r == [h] + r[1..];
        if LineMatches(ignoreCase, query, h) {
          forall x ensures multiset(r[1..])[x] == if LineMatches(ignoreCase, query, x) then multiset(t)[x] else 0 {
            assert multiset(r)[x] == multiset(r[1..])[x] + (if x == h then 1 else 0);
          }
          SelectUnique(ignoreCase, query, t, r[1..]);
        } else {
          assert false;
        }
      } else {
        assert r == [] || IsSubsequence(r, t);
        SubsequenceMultiset(r, t);
        if LineMatches(ignoreCase, query, h) {
          assert false;
        }
        forall x ensures multiset(r)[x] == if LineMatches(ignoreCase, query, x) then multiset(t)[x] else 0 {
          if x != h {
            assert multiset(lines)[x] == multiset(t)[x];
          }
        }
        SelectUnique(ignoreCase, query, t, r);
      }
    }
  }

  /** An empty query selects every line, unchanged and in order, in both modes. */
  lemma {:induction false} SelectEmptyQuery(ignoreCase: bool, lines: seq<string>)
    ensures Select(ignoreCase, "", lines) == lines
  {
    if lines != [] {
      ContainsEmpty(lines[0]);
      ContainsEmpty(Lower(lines[0]));
      assert Lower("") == "";
      SelectEmptyQuery(ignoreCase, lines[1..]);
    }
  }

  /** Every line the case-sensitive search keeps is kept by the case-insensitive one, in the same order. */
  lemma {:induction false} SensitiveWithinInsensitive(query: string, lines: seq<string>)
    ensures IsSubsequence(Select(false, query, lines), Select(true, query, lines))
  {
    if lines != [] {
      var h, t := lines[0], lines[1..];
      SensitiveWithinInsensitive(query, t);
      var a, b := Select(false, query, t), Select(true, query, t);
      if Contains(h, query) {
        ContainsLower(h, query);
        assert ([h] + a)[1..] == a && ([h] + b)[1..] == b;
      } else if LineMatches(true, query, h) {
        assert Select(false, query, lines) == a;
        assert Select(true, query, lines) == [h] + b;
        SubsequenceExtend(a, b, h);
      } else {
        assert Select(false, query, lines) == a;
        assert Select(true, query, lines) == b;
      }
    }
  }

  /** Putting an element in front of a sequence keeps its subsequences. */
  lemma SubsequenceExtend<T>(a: seq<T>, b: seq<T>, h: T)
    requires IsSubsequence(a, b)
    ensures IsSubsequence(a, [h] + b)
  {
    assert ([h] + b)[1..] == b;
  }

  /** `search`: the lines of `contents` that contain `query`, in file order. */
  method Search(query: string, contents: string) returns (results: seq<string>)
    ensures results == Select(false, query, Lines(contents))
    ensures IsSubsequence(results, Lines(contents))
    ensures forall l :: l in results <==> l in Lines(contents) && Contains(l, query)
  {
    var lines := Lines(contents);
    results := [];
    var i := 0;
    while i < |lines|
      invariant 0 <= i <= |lines|
      invariant results == Select(false, query, lines[..i])
    {
      SelectConcat(false, query, lines[..i], [lines[i]]);
      assert lines[..i + 1] == lines[..i] + [lines[i]];
      if Contains(lines[i], query) {
        results := results + [lines[i]];
      }
      i := i + 1;
    }
    assert lines[..i] == lines;
    SelectIsSubsequence(false, query, lines);
    SelectMembers(false, query, lines);
  }

  /**
   * `search_case_insensitive`: the lines of `contents` whose lowercase contains
   * the lowercased query, returned as they are in the file.
   */
  method SearchCaseInsensitive(query: string, contents: string) returns (results: seq<string>)
    ensures results == Select(true, query, Lines(contents))
    ensures IsSubsequence(results, Lines(contents))
    ensures forall l :: l in results <==> l in Lines(contents) && Contains(Lower(l), Lower(query))
  {
    var loweredQuery := Lower(query);
    var lines := Lines(contents);
    results := [];
    var i := 0;
    while i < |lines|
      invariant 0 <= i <= |lines|
      invariant results == Select(true, query, lines[..i])
    {
      SelectConcat(true, query, lines[..i], [lines[i]]);
      assert lines[..i + 1] == lines[..i] + [lines[i]];
      if Contains(Lower(lines[i]), loweredQuery) {
        results := results + [lines[i]];
      }
      i := i + 1;
    }
    assert lines[..i] == lines;
    SelectIsSubsequence(true, query, lines);
    SelectMembers(true, query, lines);
  }

  /** The lines of the first test file: one of them has "duct" in it. */
  function PoemLines(): seq<string>
  {
    ["Rust:", "Safe, Fast, Productive.", "Pick three."]
  }

  /** The lines of the second test file: a fourth line has "Duct" only with a capital D. */
  function PoemWithTapeLines(): seq<string>
  {
    PoemLines() + ["Duct tape."]
  }

  lemma PoemSplits()
    ensures Lines(Joined(PoemLines())) == PoemLines()
    ensures Lines(Joined(PoemWithTapeLines())) == PoemWithTapeLines()
  {
    LinesOfJoined(PoemLines());
    LinesOfJoined(PoemWithTapeLines());
  }

  /** "duct" is in the middle line of the poem and in no other line. */
  lemma DuctInPoem()
    ensures Contains("Safe, Fast, Productive.", "duct")
    ensures !Contains("Rust:", "duct") && !Contains("Pick three.", "duct") && !Contains("Duct tape.", "duct")
  {
    assert Contains("Safe, Fast, Productive.", "duct") by {
      assert OccursAt("Safe, Fast, Productive.", "duct", 15);
    }
    assert !Contains("Rust:", "duct") by { MissingFirstChar("Rust:", "duct"); }
    assert !Contains("Pick three.", "duct") by { MissingFirstChar("Pick three.", "duct"); }
    assert !Contains("Duct tape.", "duct") by { MissingFirstChar("Duct tape.", "duct"); }
  }

  /** The one-result test: searching the poem for "duct" finds the middle line only. */
  lemma OneResult()
    ensures Select(false, "duct", Lines(Joined(PoemLines()))) == ["Safe, Fast, Productive."]
  {
    PoemSplits();
    DuctInPoem();
  }

  /** After lowercasing, "duct" is also found in the fourth line, and still not in the first and third. */
  lemma DuctInLoweredPoem()
    ensures Lower("duct") == "duct"
    ensures Contains(Lower("Safe, Fast, Productive."), "duct") && Contains(Lower("Duct tape."), "duct")
    ensures !Contains(Lower("Rust:"), "duct") && !Contains(Lower("Pick three."), "duct")
  {
    assert Lower("duct") == "duct" by { LowerOfLowercase("duct"); }
    assert Contains(Lower("Safe, Fast, Productive."), "duct") by {
      DuctInPoem();
      ContainsLower("Safe, Fast, Productive.", "duct");
    }
    assert Contains(Lower("Duct tape."), "duct") by {
      MapCharsSlice(ToLower, "Duct tape.", 0, 4);
      assert "Duct tape."[0..4] == "Duct";
      assert Lower("Duct") == "duct";
      assert OccursAt(Lower("Duct tape."), "duct", 0);
    }
    assert !Contains(Lower("Rust:"), "duct") by {
      LowerLacks("Rust:", 'd');
      MissingFirstChar(Lower("Rust:"), "duct");
    }
    assert !Contains(Lower("Pick three."), "duct") by {
      LowerLacks("Pick three.", 'd');
      MissingFirstChar(Lower("Pick three."), "duct");
    }
  }

  /** The case-sensitive test: "Duct tape." is not found, since its "D" is upper case. */
  lemma CaseSensitive()
    ensures Select(false, "duct", Lines(Joined(PoemWithTapeLines()))) == ["Safe, Fast, Productive."]
  {
    PoemSplits();
    DuctInPoem();
  }

  /** The case-insensitive test: "Duct tape." is found too, and returned with its capital D. */
  lemma CaseInsensitive()
    ensures Select(true, "duct", Lines(Joined(PoemWithTapeLines())))
         == ["Safe, Fast, Productive.", "Duct tape."]
  {
    PoemSplits();
    DuctInLoweredPoem();
  }

  /** The test files, written out as the tests write them. */
  lemma PoemText()
    ensures Joined(PoemLines()) == "Rust:\nSafe, Fast, Productive.\nPick three."
    ensures Joined(PoemWithTapeLines()) == "Rust:\nSafe, Fast, Productive.\nPick three.\nDuct tape."
  {
    var ls := PoemWithTapeLines();
    assert ls[1..][1..][1..] == ["Duct tape."];
    assert Joined(ls[1..][1..]) == "Pick three." + "\n" + "Duct tape.";
    assert Joined(ls[1..]) == "Safe, Fast, Productive." + "\n" + ("Pick three." + "\n" + "Duct tape.");
    assert Joined(ls) == "Rust:" + "\n" + ("Safe, Fast, Productive." + "\n" + ("Pick three." + "\n" + "Duct tape."));
  }

  /** The three tests, run through the two search methods on the test files' text. */
  method SearchTests() returns (one: seq<string>, sensitive: seq<string>, insensitive: seq<string>)
    ensures one == ["Safe, Fast, Productive."]
    ensures sensitive == ["Safe, Fast, Productive."]
    ensures insensitive == ["Safe, Fast, Productive.", "Duct tape."]
  {
    OneResult();
    CaseSensitive();
    CaseInsensitive();
    one := Search("duct", Joined(PoemLines()));
    sensitive := Search("duct", Joined(PoemWithTapeLines()));
    insensitive := SearchCaseInsensitive("duct", Joined(PoemWithTapeLines()));
  }
}
