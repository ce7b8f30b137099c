/** `addMissingGitHeaders` (client.ts): a diff without any `diff --git` line
    gets one synthesised before each `--- a/P` line that is directly followed
    by a `+++ b/` line. */
module GitHeaders {
  import opened Text

  function GitHeaderFor(path: string): string {
    "diff --git a/" + path + " b/" + path
  }

  /** `lines[i]` opens a standard file header: `--- a/P` then `+++ b/…`. */
  predicate Unheaded(lines: seq<string>, i: nat)
    requires i < |lines|
  {
    StartsWith(lines[i], "--- a/") && StartsWith(LineAfter(lines, i), "+++ b/")
  }

  /** The line-by-line rewrite: each opening line is preceded by its header. */
  function WithHeaders(lines: seq<string>): seq<string>
  {
    if |lines| == 0 then []
    else
      (if Unheaded(lines, 0) then [GitHeaderFor(lines[0][6..])] else [])
        + [lines[0]] + WithHeaders(lines[1..])
  }

  function AddMissingGitHeaders(diff: string): string {
    if Contains(diff, "diff --git") then diff
    else Join(WithHeaders(Split(diff, '\n')), "\n")
  }

  /** The lines that do not start with `diff --git`. */
  function WithoutGitLines(lines: seq<string>): (r: seq<string>)
  {
    if |lines| == 0 then []
    else (if StartsWith(lines[0], "diff --git") then [] else [lines[0]]) + WithoutGitLines(lines[1..])
  }

  /** Deleting the inserted lines gives back the input lines. */
  lemma {:induction false} WithoutInserted(lines: seq<string>)
    requires forall i :: 0 <= i < |lines| ==> !StartsWith(lines[i], "diff --git")
    ensures WithoutGitLines(WithHeaders(lines)) == lines
    decreases |lines|
  {
    if |lines| > 0 {
      var pre := if Unheaded(lines, 0) then [GitHeaderFor(lines[0][6..])] else [];
      var rest := WithHeaders(lines[1..]);
      assert WithHeaders(lines) == pre + ([lines[0]] + rest);
      WithoutAppend(pre, [lines[0]] + rest);
      WithoutAppend([lines[0]], rest);
      if pre != [] {
        HeaderIsGitLine(lines[0][6..]);
      }
      WithoutInserted(lines[1..]);
    }
  }

  lemma HeaderIsGitLine(path: string)
    ensures StartsWith(GitHeaderFor(path), "diff --git")
  {
    SplitAt("diff --git", " a/" + path + " b/" + path);
    assert GitHeaderFor(path) == "diff --git" + (" a/" + path + " b/" + path);
  }

  lemma {:induction false} WithoutAppend(a: seq<string>, b: seq<string>)
    ensures WithoutGitLines(a + b) == WithoutGitLines(a) + WithoutGitLines(b)
    decreases |a|
  {
    if |a| > 0 {
      assert (a + b)[1..] == a[1..] + b;
      WithoutAppend(a[1..], b);
    } else {
      assert a + b == b;
    }
  }

  /** In the output every `--- a/P` line directly followed by a `+++ b/` line
      comes right after `diff --git a/P b/P`. */
  lemma {:induction false} HeadersPrecede(lines: seq<string>, j: nat)
    requires j < |WithHeaders(lines)| && Unheaded(WithHeaders(lines), j)
    ensures j > 0 && WithHeaders(lines)[j - 1] == GitHeaderFor(WithHeaders(lines)[j][6..])
    decreases |lines|
  {
    var r := WithHeaders(lines);
    var pre := if Unheaded(lines, 0) then [GitHeaderFor(lines[0][6..])] else [];
    var rest := WithHeaders(lines[1..]);
    assert r == pre + [lines[0]] + rest;
    if j > |pre| {
      var j' := j - |pre| - 1;
      assert r[j] == rest[j'] && LineAfter(r, j) == LineAfter(rest, j');
      HeadersPrecede(lines[1..], j');
      assert r[j - 1] == rest[j' - 1];
    }
  }

  /** Headers go nowhere else: every `diff --git` line of the output of a
      header-free input directly precedes the `--- a/P` + `+++ b/` pair it
      was made for. With `HeadersPrecede` this gives exactly one header per
      pair and none elsewhere. */
  lemma {:induction false} HeadersOnlyBeforePairs(lines: seq<string>, j: nat)
    requires forall i :: 0 <= i < |lines| ==> !StartsWith(lines[i], "diff --git")
    requires j < |WithHeaders(lines)| && StartsWith(WithHeaders(lines)[j], "diff --git")
    ensures j + 1 < |WithHeaders(lines)| && Unheaded(WithHeaders(lines), j + 1)
    ensures WithHeaders(lines)[j] == GitHeaderFor(WithHeaders(lines)[j + 1][6..])
    decreases |lines|
  {
    var r := WithHeaders(lines);
    var pre := if Unheaded(lines, 0) then [GitHeaderFor(lines[0][6..])] else [];
    var rest := WithHeaders(lines[1..]);
    assert r == pre + [lines[0]] + rest;
    if j < |pre| {
      assert r[j + 1] == lines[0];
      if |lines| > 1 {
        NotOpening(lines[1]);
        assert rest[0] == lines[1];
      }
      assert LineAfter(r, j + 1) == LineAfter(lines, 0);
    } else if j > |pre| {
      var j' := j - |pre| - 1;
      assert r[j] == rest[j'];
      forall i | 0 <= i < |lines[1..]|
        ensures !StartsWith(lines[1..][i], "diff --git")
      {
        assert lines[1..][i] == lines[i + 1];
      }
      HeadersOnlyBeforePairs(lines[1..], j');
      assert r[j + 1] == rest[j' + 1] && LineAfter(r, j + 1) == LineAfter(rest, j' + 1);
    }
  }

  /** A `+++ b/` line is not a `--- a/` line. */
  lemma NotOpening(l: string)
    requires StartsWith(l, "+++ b/")
    ensures !StartsWith(l, "--- a/")
  {
    assert l[0] == "+++ b/"[0];
  }

  /** The inserted headers bring no line terminator of their own. */
  lemma {:induction false} WithHeadersNoTerminator(lines: seq<string>, c: char)
    requires IsLineTerminator(c)
    requires forall i :: 0 <= i < |lines| ==> c !in lines[i]
    ensures forall i :: 0 <= i < |WithHeaders(lines)| ==> c !in WithHeaders(lines)[i]
    decreases |lines|
  {
    if |lines| > 0 {
      var r := WithHeaders(lines);
      var pre := if Unheaded(lines, 0) then [GitHeaderFor(lines[0][6..])] else [];
      var rest := WithHeaders(lines[1..]);
      assert r == pre + [lines[0]] + rest;
      assert forall i :: 0 <= i < |lines[1..]| ==> c !in lines[1..][i] by {
        forall i | 0 <= i < |lines[1..]| ensures c !in lines[1..][i] {
          assert lines[1..][i] == lines[i + 1];
        }
      }
      WithHeadersNoTerminator(lines[1..], c);
      forall i | 0 <= i < |r|
        ensures c !in r[i]
      {
        if i < |pre| {
          HeaderNoTerminator(lines[0], c);
          assert r[i] == pre[0];
        } else if i == |pre| {
          assert r[i] == lines[0];
        } else {
          assert r[i] == rest[i - |pre| - 1];
        }
      }
    }
  }

  /** A header built from a line's path holds no terminator the line lacks. */
  lemma HeaderNoTerminator(line: string, c: char)
    requires IsLineTerminator(c) && c !in line && |line| >= 6
    ensures c !in GitHeaderFor(line[6..])
  {
    var path := line[6..];
    assert forall x :: x in path ==> x in line;
    assert c !in "diff --git a/" && c !in " b/";
  }

  /** Text-level inverse: deleting the `diff --git` lines from the result
      gives back the original text. */
  lemma AddHeadersInverse(diff: string)
    requires !Contains(diff, "diff --git")
    ensures Join(WithoutGitLines(Split(AddMissingGitHeaders(diff), '\n')), "\n") == diff
  {
    var lines := Split(diff, '\n');
    forall i | 0 <= i < |lines|
      ensures !StartsWith(lines[i], "diff --git")
    {
      if StartsWith(lines[i], "diff --git") {
        JoinContains(lines, "\n", i, "diff --git");
      }
    }
    WithHeadersNoTerminator(lines, '\n');
    SplitJoin(WithHeaders(lines), '\n');
    WithoutInserted(lines);
  }
}
