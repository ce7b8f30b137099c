/** The line filter of `cleanDiffBetweenFiles` (client.ts): file-header lines
    are always kept, hunk-body lines only inside a hunk, and everything else
    between file sections is dropped. */
module CleanDiff {
  import opened Text

  predicate IsGitLine(l: string) {
    StartsWith(l, "diff --git")
  }

  predicate IsHunkLine(l: string) {
    StartsWith(l, "@@")
  }

  /** `---`, `+++` and `index ` lines, kept wherever they appear. */
  predicate IsFileHeader(l: string) {
    StartsWith(l, "---") || StartsWith(l, "+++") || StartsWith(l, "index ")
  }

  /** An added, removed or context line, or an empty line. */
  predicate IsBodyLine(l: string) {
    StartsWith(l, "+") || StartsWith(l, "-") || StartsWith(l, " ") || l == ""
  }

  /** A lone `+` or `-` right before a `diff --git` line. */
  predicate IsStray(lines: seq<string>, i: nat)
    requires i < |lines|
  {
    (lines[i] == "+" || lines[i] == "-") && IsGitLine(LineAfter(lines, i))
  }

  /** Line `i` lies inside a hunk: some earlier line opens a hunk and no
      `diff --git` line comes between. */
  predicate InHunk(lines: seq<string>, i: nat)
    requires i <= |lines|
  {
    exists j :: 0 <= j < i && IsHunkLine(lines[j]) && NoGitLineBetween(lines, j, i)
  }

  predicate NoGitLineBetween(lines: seq<string>, j: nat, i: nat)
    requires j <= i <= |lines|
  {
    forall k :: j < k < i ==> !IsGitLine(lines[k])
  }

  /** The declarative filter: which input lines survive. */
  predicate Keep(lines: seq<string>, i: nat)
    requires i < |lines|
  {
    var l := lines[i];
    || IsGitLine(l) || IsHunkLine(l) || IsFileHeader(l)
    || (InHunk(lines, i) && IsBodyLine(l) && !IsStray(lines, i))
  }

  /** The kept lines from index `i` on, in order. */
  function SelectFrom(lines: seq<string>, i: nat): seq<string>
    requires i <= |lines|
    decreases |lines| - i
  {
    if i == |lines| then []
    else (if Keep(lines, i) then [lines[i]] else []) + SelectFrom(lines, i + 1)
  }

  /** The loop of the source, with its `inHunk` flag as a parameter. */
  function CleanFrom(lines: seq<string>, i: nat, inHunk: bool): seq<string>
    requires i <= |lines|
    decreases |lines| - i
  {
    if i == |lines| then []
    else
      var l := lines[i];
      if IsGitLine(l) then [l] + CleanFrom(lines, i + 1, false)
      else if IsHunkLine(l) then [l] + CleanFrom(lines, i + 1, true)
      else if IsFileHeader(l) then [l] + CleanFrom(lines, i + 1, inHunk)
      else if inHunk && IsBodyLine(l) && !IsStray(lines, i) then [l] + CleanFrom(lines, i + 1, inHunk)
      else CleanFrom(lines, i + 1, inHunk)
  }

  function CleanLines(lines: seq<string>): seq<string> {
    CleanFrom(lines, 0, false)
  }

  lemma GitNotHunk(l: string)
    requires IsGitLine(l)
    ensures !IsHunkLine(l)
  {
    assert l[0] == 'd';
  }

  /** How the flag evolves: a `diff --git` line clears it, an `@@` line sets it. */
  lemma InHunkStep(lines: seq<string>, i: nat)
    requires i < |lines|
    ensures InHunk(lines, i + 1) ==
      if IsGitLine(lines[i]) then false
      else if IsHunkLine(lines[i]) then true
      else InHunk(lines, i)
  {
    if IsGitLine(lines[i]) {
      GitNotHunk(lines[i]);
    } else if IsHunkLine(lines[i]) {
      assert NoGitLineBetween(lines, i, i + 1);
    } else {
      if InHunk(lines, i) {
        var j :| 0 <= j < i && IsHunkLine(lines[j]) && NoGitLineBetween(lines, j, i);
        assert NoGitLineBetween(lines, j, i + 1);
      }
      if InHunk(lines, i + 1) {
        var j :| 0 <= j < i + 1 && IsHunkLine(lines[j]) && NoGitLineBetween(lines, j, i + 1);
        assert j < i && NoGitLineBetween(lines, j, i);
      }
    }
  }

  /** The stateful loop keeps exactly the lines the declarative filter keeps. */
  lemma {:induction false} CleanFromSelects(lines: seq<string>, i: nat, inHunk: bool)
    requires i <= |lines| && inHunk == InHunk(lines, i)
    ensures CleanFrom(lines, i, inHunk) == SelectFrom(lines, i)
    decreases |lines| - i
  {
    if i < |lines| {
      InHunkStep(lines, i);
      var l := lines[i];
      if IsGitLine(l) || IsHunkLine(l) {
        CleanFromSelects(lines, i + 1, InHunk(lines, i + 1));
      } else {
        CleanFromSelects(lines, i + 1, inHunk);
      }
    }
  }

  lemma CleanLinesSelects(lines: seq<string>)
    ensures CleanLines(lines) == SelectFrom(lines, 0)
  {
    CleanFromSelects(lines, 0, false);
  }

  /** Every surviving line is a header line or a hunk-body line. */
  lemma {:induction false} SelectFromShape(lines: seq<string>, i: nat)
    requires i <= |lines|
    ensures forall n :: 0 <= n < |SelectFrom(lines, i)| ==>
      var l := SelectFrom(lines, i)[n];
      IsGitLine(l) || IsHunkLine(l) || IsFileHeader(l) || IsBodyLine(l)
    decreases |lines| - i
  {
    if i < |lines| {
      SelectFromShape(lines, i + 1);
    }
  }
}
