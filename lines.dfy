/**
 * Splitting file contents into lines the way the library's `str::lines` does:
 * a line ends at `\n`, one `\r` directly before that `\n` is dropped with it,
 * and the final line ending is optional.
 */
module LineSplit {

  /** Index of the first `\n` in `s`, or `|s|` when there is none. */
  function LineEnd(s: string): (k: nat)
    ensures k <= |s|
    ensures forall j :: 0 <= j < k ==> s[j] != '\n'
    ensures k < |s| ==> s[k] == '\n'
    decreases |s|
  {
    if s == [] || s[0] == '\n' then 0 else 1 + LineEnd(s[1..])
  }

  /** The three properties of `LineEnd` determine it: any index that has them is `LineEnd(s)`. */
  lemma LineEndAt(s: string, k: nat)
    requires k <= |s|
    requires forall j :: 0 <= j < k ==> s[j] != '\n'
    requires k < |s| ==> s[k] == '\n'
    ensures LineEnd(s) == k
  {
  }

  predicate EndsWithCr(l: string)
  {
    |l| > 0 && l[|l| - 1] == '\r'
  }

  /** Drops one trailing `\r`, the first half of a `\r\n` line ending. */
  function StripCr(l: string): string
  {
    if EndsWithCr(l) then l[..|l| - 1] else l
  }

  /** The lines of `s`, without their line endings. */
  function Lines(s: string): seq<string>
    decreases |s|
  {
    if s == [] then []
    else
      var k := LineEnd(s);
      if k == |s| then [s] else [StripCr(s[..k])] + Lines(s[k + 1..])
  }

  /** Lines never contain a `\n`. */
  lemma {:induction false} LinesHaveNoNewline(s: string)
    ensures forall l :: l in Lines(s) ==> '\n' !in l
    decreases |s|
  {
    if s != [] {
      var k := LineEnd(s);
      if k < |s| {
        LinesHaveNoNewline(s[k + 1..]);
        assert '\n' !in s[..k];
      }
    }
  }

  /** Each line followed by `\n`, all concatenated. */
  function Terminated(ls: seq<string>): string
  {
    if ls == [] then "" else ls[0] + "\n" + Terminated(ls[1..])
  }

  /** Each line followed by `\r\n`, all concatenated. */
  function CrlfTerminated(ls: seq<string>): string
  {
    if ls == [] then "" else ls[0] + "\r\n" + CrlfTerminated(ls[1..])
  }

  /** The first line ending of `l + e + rest` is the one just after `l`. */
  lemma LineEndAfter(l: string, e: string, rest: string)
    requires '\n' !in l && |e| > 0 && e[|e| - 1] == '\n' && '\n' !in e[..|e| - 1]
    ensures LineEnd(l + e + rest) == |l| + |e| - 1
  {
    var s := l + e + rest;
    forall j | 0 <= j < |l| + |e| - 1 ensures s[j] != '\n' {
      if j < |l| { assert s[j] == l[j]; } else { assert s[j] == e[..|e| - 1][j - |l|]; }
    }
    LineEndAt(s, |l| + |e| - 1);
  }

  /** A line followed by `\n` is split off the front of the rest. */
  lemma LinesCons(l: string, rest: string)
    requires '\n' !in l && !EndsWithCr(l)
    ensures Lines(l + "\n" + rest) == [l] + Lines(rest)
  {
    var s := l + "\n" + rest;
    LineEndAfter(l, "\n", rest);
    assert s[..|l|] == l;
    assert s[|l| + 1..] == rest;
  }

  /** Text without any `\n` is a single line, kept whole. */
  lemma LinesSingle(l: string)
    requires l != [] && '\n' !in l
    ensures Lines(l) == [l]
  {
    LineEndAt(l, |l|);
  }

  /** The lines joined with `\n` between them, with no line ending after the last. */
  function Joined(ls: seq<string>): string
  {
    if ls == [] then "" else if |ls| == 1 then ls[0] else ls[0] + "\n" + Joined(ls[1..])
  }

  /**
   * Splitting lines joined with `\n` gives them back, provided no line holds a
   * `\n` or ends in `\r`, and the last line is not empty (an empty last line
   * leaves nothing after the final `\n`, and no line is produced for it).
   */
  lemma {:induction false} LinesOfJoined(ls: seq<string>)
    requires forall l :: l in ls ==> '\n' !in l && !EndsWithCr(l)
    requires ls != [] ==> ls[|ls| - 1] != []
    ensures Lines(Joined(ls)) == ls
  {
    if |ls| == 1 {
      LinesSingle(ls[0]);
    } else if |ls| > 1 {
      assert ls[1..][|ls[1..]| - 1] == ls[|ls| - 1];
      LinesOfJoined(ls[1..]);
      LinesCons(ls[0], Joined(ls[1..]));
    }
  }

  /** Splitting `\n`-terminated lines gives them back. */
  lemma {:induction false} LinesOfTerminated(ls: seq<string>)
    requires forall l :: l in ls ==> '\n' !in l && !EndsWithCr(l)
    ensures Lines(Terminated(ls)) == ls
  {
    if ls != [] {
      var s := Terminated(ls);
      var rest := Terminated(ls[1..]);
      assert s == ls[0] + "\n" + rest;
      LineEndAfter(ls[0], "\n", rest);
      assert s[..|ls[0]|] == ls[0];
      assert s[|ls[0]| + 1..] == rest;
      LinesOfTerminated(ls[1..]);
    }
  }

  /** Splitting `\r\n`-terminated lines gives them back, even when a line itself ends in `\r`. */
  lemma {:induction false} LinesOfCrlfTerminated(ls: seq<string>)
    requires forall l :: l in ls ==> '\n' !in l
    ensures Lines(CrlfTerminated(ls)) == ls
  {
    if ls != [] {
      var s := CrlfTerminated(ls);
      var rest := CrlfTerminated(ls[1..]);
      assert s == ls[0] + "\r\n" + rest;
      LineEndAfter(ls[0], "\r\n", rest);
      assert s[..|ls[0]| + 1] == ls[0] + "\r";
      assert StripCr(ls[0] + "\r") == ls[0];
      assert s[|ls[0]| + 2..] == rest;
      LinesOfCrlfTerminated(ls[1..]);
    }
  }

  /** A final `\n` after a non-empty last line adds no empty line. */
  lemma {:induction false} FinalNewlineOptional(s: string)
    requires s != [] && s[|s| - 1] != '\n' && s[|s| - 1] != '\r'
    ensures Lines(s + "\n") == Lines(s)
    decreases |s|
  {
    var t := s + "\n";
    var k := LineEnd(s);
    LineEndAt(t, k);
    if k < |s| {
      assert t[..k] == s[..k];
      assert t[k + 1..] == s[k + 1..] + "\n";
      FinalNewlineOptional(s[k + 1..]);
    } else {
      assert t[..k] == s;
      assert t[k + 1..] == [];
    }
  }

  /** A final `\r\n` after a non-empty last line adds no empty line either. */
  lemma {:induction false} FinalCrlfOptional(s: string)
    requires s != [] && s[|s| - 1] != '\n'
    ensures Lines(s + "\r\n") == Lines(s)
    decreases |s|
  {
    var t := s + "\r\n";
    var k := LineEnd(s);
    if k < |s| {
      LineEndAt(t, k);
      assert t[..k] == s[..k];
      assert t[k + 1..] == s[k + 1..] + "\r\n";
      FinalCrlfOptional(s[k + 1..]);
    } else {
      LineEndAt(t, k + 1);
      assert t[..k + 1] == s + "\r";
      assert StripCr(s + "\r") == s;
      assert t[k + 2..] == [];
    }
  }
}
