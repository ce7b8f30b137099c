/** `fixHunkHeaders` (client.ts): every parseable `@@` line is rewritten with
    the old and new line counts of the hunk body that follows it. */
module FixHeaders {
  import opened Text
  import opened Wrappers
  import opened HunkHeader
  import opened CleanDiff

  /** A line that ends a hunk body: the next `@@` or `diff --git` line. */
  predicate IsStop(l: string) {
    IsHunkLine(l) || IsGitLine(l)
  }

  /** Removed, context and empty lines count on the old side. */
  predicate IsOldSide(l: string) {
    StartsWith(l, "-") || StartsWith(l, " ") || l == ""
  }

  /** Added, context and empty lines count on the new side. */
  predicate IsNewSide(l: string) {
    StartsWith(l, "+") || StartsWith(l, " ") || l == ""
  }

  /** The source's counting loop, from line `j` up to the next stop line. */
  function Tally(lines: seq<string>, j: nat): (nat, nat)
    requires j <= |lines|
    decreases |lines| - j
  {
    if j == |lines| || IsStop(lines[j]) then (0, 0)
    else
      var (o, n) := Tally(lines, j + 1);
      var l := lines[j];
      if StartsWith(l, "-") then (o + 1, n)
      else if StartsWith(l, "+") then (o, n + 1)
      else if StartsWith(l, " ") || l == "" then (o + 1, n + 1)
      else (o, n)
  }

  /** The end of the hunk body that starts at line `j`. */
  function BodyEnd(lines: seq<string>, j: nat): (e: nat)
    requires j <= |lines|
    ensures j <= e <= |lines|
    decreases |lines| - j
  {
    if j == |lines| || IsStop(lines[j]) then j else BodyEnd(lines, j + 1)
  }

  datatype Side = OldSide | NewSide

  predicate OnSide(l: string, side: Side) {
    if side == OldSide then IsOldSide(l) else IsNewSide(l)
  }

  /** The number of lines of `ls` that count on `side`. */
  function CountSide(ls: seq<string>, side: Side): nat {
    if |ls| == 0 then 0 else (if OnSide(ls[0], side) then 1 else 0) + CountSide(ls[1..], side)
  }

  /** The counting loop yields the number of old-side and new-side lines of
      the body, which runs to the next stop line. */
  lemma {:induction false} TallyCounts(lines: seq<string>, j: nat)
    requires j <= |lines|
    ensures var e := BodyEnd(lines, j);
      && (e == |lines| || IsStop(lines[e]))
      && (forall k :: j <= k < e ==> !IsStop(lines[k]))
      && Tally(lines, j) == (CountSide(lines[j..e], OldSide), CountSide(lines[j..e], NewSide))
    decreases |lines| - j
  {
    if !(j == |lines| || IsStop(lines[j])) {
      TallyCounts(lines, j + 1);
      var e := BodyEnd(lines, j);
      assert lines[j..e][1..] == lines[j + 1..e];
      PlusNotMinus(lines[j]);
    }
  }

  lemma PlusNotMinus(l: string)
    ensures !(StartsWith(l, "-") && StartsWith(l, "+"))
    ensures !(StartsWith(l, "-") && StartsWith(l, " ")) && !(StartsWith(l, "+") && StartsWith(l, " "))
  {
  }

  /** The header written for a parsed `@@` line: both starts and the suffix
      kept, both counts replaced. */
  function Rewrite(h: Header, suffix: string, counts: (nat, nat)): string {
    "@@ -" + h.oldStart + "," + NatToString(counts.0) + " +" + h.newStart + "," + NatToString(counts.1) + " @@" + suffix
  }

  function FixLine(lines: seq<string>, i: nat): string
    requires i < |lines|
  {
    if !IsHunkLine(lines[i]) then lines[i]
    else
      match Search(lines[i])
      case None => lines[i]
      case Some((h, suffix)) => Rewrite(h, suffix, Tally(lines, i + 1))
  }

  function FixHunkHeaders(lines: seq<string>): (r: seq<string>)
  {
    seq(|lines|, i requires 0 <= i < |lines| => FixLine(lines, i))
  }

  /** The header a rewritten line stands for. */
  function Fixed(h: Header, counts: (nat, nat)): Header {
    Header(h.oldStart, Some(NatToString(counts.0)), h.newStart, Some(NatToString(counts.1)))
  }

  lemma RewriteRenders(h: Header, suffix: string, counts: (nat, nat))
    ensures Rewrite(h, suffix, counts) == Render(Fixed(h, counts)) + suffix
  {
  }

  /** What the rewrite produces parses back to the same starts and suffix
      and to the recounted numbers. */
  lemma RewriteParses(h: Header, suffix: string, counts: (nat, nat))
    requires WellFormed(h) && NoLineTerminator(suffix)
    ensures Search(Rewrite(h, suffix, counts)) == Some((Fixed(h, counts), suffix))
    ensures IsHunkLine(Rewrite(h, suffix, counts))
  {
    var f := Fixed(h, counts);
    assert WellFormed(f);
    RewriteRenders(h, suffix, counts);
    SearchRendered(f, suffix);
    RenderedHunkLine(f, suffix);
  }

  /** A rendered header opens a hunk line. */
  lemma RenderedHunkLine(f: Header, suffix: string)
    ensures IsHunkLine(Render(f) + suffix)
  {
    assert (Render(f) + suffix)[..2] == "@@";
  }

  /** One line of the result: the same number of lines, non-`@@` lines and
      unparseable `@@` lines unchanged, and a parsed `@@` line replaced by a
      header that parses back to the same starts and suffix and whose counts
      are the old-side and new-side lines of the body up to the next stop line. */
  lemma FixLineSpec(lines: seq<string>, i: nat)
    requires i < |lines|
    ensures |FixHunkHeaders(lines)| == |lines|
    ensures !IsHunkLine(lines[i]) || Search(lines[i]).None? ==> FixHunkHeaders(lines)[i] == lines[i]
    ensures IsHunkLine(lines[i]) && Search(lines[i]).Some? ==>
      var (h, suffix) := Search(lines[i]).value;
      var body := lines[i + 1..BodyEnd(lines, i + 1)];
      var counts := (CountSide(body, OldSide), CountSide(body, NewSide));
      && Search(FixHunkHeaders(lines)[i]) == Some((Fixed(h, counts), suffix))
      && DigitsValue(NatToString(counts.0)) == counts.0
      && DigitsValue(NatToString(counts.1)) == counts.1
  {
    if IsHunkLine(lines[i]) && Search(lines[i]).Some? {
      var (h, suffix) := Search(lines[i]).value;
      SearchSound(lines[i]);
      TallyCounts(lines, i + 1);
      RewriteParses(h, suffix, Tally(lines, i + 1));
      NatToStringValue(Tally(lines, i + 1).0);
      NatToStringValue(Tally(lines, i + 1).1);
    }
  }

  /** Rewriting keeps every line's role: stop lines stay stop lines and all
      other lines are untouched. */
  lemma FixKeepsRoles(lines: seq<string>, k: nat)
    requires k < |lines|
    ensures IsStop(FixHunkHeaders(lines)[k]) == IsStop(lines[k])
    ensures !IsHunkLine(lines[k]) ==> FixHunkHeaders(lines)[k] == lines[k]
  {
    if IsHunkLine(lines[k]) && Search(lines[k]).Some? {
      var (h, suffix) := Search(lines[k]).value;
      SearchSound(lines[k]);
      RewriteParses(h, suffix, Tally(lines, k + 1));
    }
  }

  lemma {:induction false} TallySame(lines: seq<string>, r: seq<string>, j: nat)
    requires |r| == |lines| && j <= |lines|
    requires forall k :: 0 <= k < |lines| ==> IsStop(r[k]) == IsStop(lines[k])
    requires forall k :: 0 <= k < |lines| && !IsStop(lines[k]) ==> r[k] == lines[k]
    ensures Tally(r, j) == Tally(lines, j)
    decreases |lines| - j
  {
    if j < |lines| && !IsStop(lines[j]) {
      TallySame(lines, r, j + 1);
    }
  }

  lemma FixLineStable(lines: seq<string>, i: nat)
    requires i < |lines| && Tally(FixHunkHeaders(lines), i + 1) == Tally(lines, i + 1)
    ensures FixLine(FixHunkHeaders(lines), i) == FixHunkHeaders(lines)[i]
  {
    FixKeepsRoles(lines, i);
    if IsHunkLine(lines[i]) && Search(lines[i]).Some? {
      var (h, suffix) := Search(lines[i]).value;
      SearchSound(lines[i]);
      RewriteParses(h, suffix, Tally(lines, i + 1));
    }
  }

  /** Fixing the headers twice changes nothing more than fixing them once. */
  lemma FixIdempotent(lines: seq<string>)
    ensures FixHunkHeaders(FixHunkHeaders(lines)) == FixHunkHeaders(lines)
  {
    var r := FixHunkHeaders(lines);
    forall k | 0 <= k < |lines|
      ensures IsStop(r[k]) == IsStop(lines[k])
      ensures !IsStop(lines[k]) ==> r[k] == lines[k]
    {
      FixKeepsRoles(lines, k);
    }
    forall i | 0 <= i < |lines|
      ensures FixHunkHeaders(r)[i] == r[i]
    {
      TallySame(lines, r, i + 1);
      FixLineStable(lines, i);
    }
  }
}
