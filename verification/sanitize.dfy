/** `sanitizeGeminiOutput` (client.ts): the stages that turn model output
    into a patch `git apply` accepts — trim, strip code fences, normalise
    line endings, drop preamble text, synthesise `diff --git` headers, clean
    the lines between file sections, recount hunk headers, sort and rebase
    hunks, trim again and end with a newline. */
module Sanitize {
  import opened Text
  import opened Wrappers
  import opened Cuts
  import opened HunkHeader
  import opened CleanDiff
  import opened FixHeaders
  import opened GitHeaders
  import opened SortHunks

  /* ---------- Code fences ---------- */

  /** `text.replace(/^```(?:diff)?\s*\n?/, '')`: the optional `diff` tag is
      taken when present and `\s*` already swallows every newline, so the
      `\n?` always matches empty. */
  function StripLeadingFence(s: string): string {
    if !StartsWith(s, "```") then s
    else
      var t := s[3..];
      var u := if StartsWith(t, "diff") then t[4..] else t;
      u[LeadingSpace(u)..]
  }

  /** What the leading-fence replacement leaves: a suffix of its input, the
      input itself when no fence opens it, and otherwise text that does not
      start with white space. */
  lemma LeadingFenceShape(s: string)
    ensures EndsWith(s, StripLeadingFence(s))
    ensures !StartsWith(s, "```") ==> StripLeadingFence(s) == s
    ensures StartsWith(s, "```") ==>
      var r := StripLeadingFence(s); r == [] || !IsSpace(r[0])
  {
    var r := StripLeadingFence(s);
    if StartsWith(s, "```") {
      var t := s[3..];
      var u := if StartsWith(t, "diff") then t[4..] else t;
      assert s[|s| - |r|..] == r;
    } else {
      assert s[|s| - |s|..] == s;
    }
  }

  /** A ```` ``` ```` or ```` ```diff ```` line before a body that does not
      start with white space is removed, and nothing else is. */
  lemma LeadingFenceRemoved(lang: string, ws: string, body: string)
    requires lang == "" || lang == "diff"
    requires |ws| >= 1 && AllSpace(ws)
    requires body == [] || !IsSpace(body[0])
    ensures StripLeadingFence("```" + lang + ws + body) == body
  {
    var u := ws + body;
    assert "```" + lang + ws + body == "```" + lang + u;
    if lang == "" {
      assert u[0] == ws[0] && IsSpace(u[0]);
      if |u| >= 4 {
        assert u[..4][0] == u[0];
      }
    }
    FenceOpening(lang, u);
    SpaceRun(ws, body);
  }

  /** After the opening fence and its tag, the white-space run is dropped. */
  lemma FenceOpening(lang: string, u: string)
    requires lang == "diff" || (lang == "" && !StartsWith(u, "diff"))
    ensures StripLeadingFence("```" + lang + u) == u[LeadingSpace(u)..]
  {
    var s := "```" + lang + u;
    assert s == "```" + (lang + u);
    SplitAt("```", lang + u);
    if lang == "diff" {
      SplitAt("diff", u);
    } else {
      assert lang + u == u;
    }
  }

  /** The white-space run of `ws + body` is exactly `ws` when `body` does not
      start with white space. */
  lemma {:induction false} SpaceRun(ws: string, body: string)
    requires AllSpace(ws) && (body == [] || !IsSpace(body[0]))
    ensures LeadingSpace(ws + body) == |ws| && (ws + body)[|ws|..] == body
    decreases |ws|
  {
    if |ws| > 0 {
      assert (ws + body)[1..] == ws[1..] + body;
      SpaceRun(ws[1..], body);
    } else {
      assert ws + body == body;
    }
  }

  /** A closing fence at index `q`: ```` ``` ```` there and only white space after it. */
  predicate ClosingFence(s: string, q: nat) {
    OccursAt(s, "```", q) && AllSpace(s[q + 3..])
  }

  /** `/\n?```\s*$/` matches from index `p`: with the newline when one is
      there and the rest matches, otherwise without it. */
  predicate FenceFrom(s: string, p: nat)
    requires p <= |s|
  {
    (p < |s| && s[p] == '\n' && ClosingFence(s, p + 1)) || ClosingFence(s, p)
  }

  /** The leftmost index at or after `from` where the trailing fence matches. */
  function FenceStart(s: string, from: nat): (r: Option<nat>)
    requires from <= |s|
    ensures r.Some? ==> from <= r.value <= |s| && FenceFrom(s, r.value)
    decreases |s| - from
  {
    if FenceFrom(s, from) then Some(from)
    else if from == |s| then None
    else FenceStart(s, from + 1)
  }

  /** `text.replace(/\n?```\s*$/, '')`: everything from the match on is removed. */
  function StripTrailingFence(s: string): string {
    match FenceStart(s, 0)
    case None => s
    case Some(p) => s[..p]
  }

  /** FenceStart finds the first matching index. */
  lemma {:induction false} FenceStartFirst(s: string, from: nat, p: nat)
    requires from <= p <= |s| && FenceFrom(s, p)
    requires forall q :: from <= q < p ==> !FenceFrom(s, q)
    ensures FenceStart(s, from) == Some(p)
    decreases p - from
  {
    if from < p {
      FenceStartFirst(s, from + 1, p);
    }
  }

  /** Inside a fence-free body, up to and including the newline that closes
      it, no ```` ``` ```` starts. */
  lemma NoFenceBefore(body: string, tail: string, q: nat)
    requires !Contains(body, "```") && |tail| > 0 && tail[0] == '\n' && q <= |body|
    ensures !OccursAt(body + tail, "```", q)
  {
    var s := body + tail;
    if q + 3 <= |body| {
      assert body[q..q + 3] == s[q..q + 3];
      assert !OccursAt(body, "```", q);
    } else if q + 3 <= |s| {
      assert s[q..q + 3][|body| - q] == s[|body|] == '\n';
    }
  }

  /** A closing ```` ``` ```` line after a body that holds no fence is
      removed together with the newline before it, and nothing else is. */
  lemma TrailingFenceRemoved(body: string, ws: string)
    requires !Contains(body, "```") && AllSpace(ws)
    ensures StripTrailingFence(body + "\n```" + ws) == body
  {
    var tail := "\n```" + ws;
    var s := body + tail;
    assert s == body + "\n```" + ws;
    forall q | 0 <= q < |body|
      ensures !FenceFrom(s, q)
    {
      NoFenceBefore(body, tail, q);
      NoFenceBefore(body, tail, q + 1);
    }
    assert s[|body| + 1..|body| + 4] == "```";
    assert s[|body| + 4..] == ws;
    FenceStartFirst(s, 0, |body|);
  }

  /** What the trailing-fence replacement leaves is a prefix of its input,
      and all of it when no closing fence matches. */
  lemma TrailingFenceShape(s: string)
    ensures StartsWith(s, StripTrailingFence(s))
    ensures (forall p :: 0 <= p <= |s| ==> !FenceFrom(s, p)) ==> StripTrailingFence(s) == s
  {
    if FenceStart(s, 0).Some? {
      var p := FenceStart(s, 0).value;
      assert s[..p][..p] == s[..p];
    }
  }

  /* ---------- Line endings ---------- */

  /** `.replace(/\r\n/g, '\n')`: pairs are replaced left to right. */
  function CrLfToLf(s: string): string
    decreases |s|
  {
    if |s| == 0 then s
    else if |s| > 1 && s[0] == '\r' && s[1] == '\n' then "\n" + CrLfToLf(s[2..])
    else [s[0]] + CrLfToLf(s[1..])
  }

  /** `.replace(/\r/g, '\n')`. */
  function CrToLf(s: string): (r: string)
    ensures |r| == |s| && '\r' !in r
  {
    seq(|s|, i requires 0 <= i < |s| => if s[i] == '\r' then '\n' else s[i])
  }

  /** The two replacements `sanitizeGeminiOutput` and `writePatchFile` both apply. */
  function NormalizeEol(s: string): string {
    CrToLf(CrLfToLf(s))
  }

  lemma {:induction false} CrLfPlain(s: string)
    requires '\r' !in s
    ensures CrLfToLf(s) == s
    decreases |s|
  {
    if |s| > 0 {
      CrLfPlain(s[1..]);
      assert s == [s[0]] + s[1..];
    }
  }

  /** Text without carriage returns is left as it is. */
  lemma NormalizePlain(s: string)
    requires '\r' !in s
    ensures NormalizeEol(s) == s
  {
    CrLfPlain(s);
  }

  lemma {:induction false} CrLfAppend(a: string, b: string)
    requires '\r' !in a
    ensures CrLfToLf(a + b) == a + CrLfToLf(b)
    decreases |a|
  {
    if |a| > 0 {
      assert (a + b)[1..] == a[1..] + b;
      CrLfAppend(a[1..], b);
    } else {
      assert a + b == b;
    }
  }

  lemma CrToLfAppend(a: string, b: string)
    ensures CrToLf(a + b) == CrToLf(a) + CrToLf(b)
  {
  }

  /** Lines ended by CRLF read as the same lines ended by LF. */
  lemma {:induction false} NormalizeCrLfLines(lines: seq<string>)
    requires forall k :: 0 <= k < |lines| ==> '\r' !in lines[k]
    ensures NormalizeEol(Join(lines, "\r\n")) == Join(lines, "\n")
    decreases |lines|
  {
    if |lines| == 1 {
      NormalizePlain(lines[0]);
    } else if |lines| > 1 {
      var rest := Join(lines[1..], "\r\n");
      assert Join(lines, "\r\n") == lines[0] + ("\r\n" + rest);
      CrLfAppend(lines[0], "\r\n" + rest);
      assert ("\r\n" + rest)[2..] == rest;
      NormalizeCrLfLines(lines[1..]);
      CrToLfAppend(lines[0], CrLfToLf("\r\n" + rest));
      CrToLfAppend("\n", CrLfToLf(rest));
      NormalizePlain(lines[0]);
      assert Join(lines, "\n") == lines[0] + ("\n" + Join(lines[1..], "\n"));
    }
  }

  /** Lines ended by a lone CR read as the same lines ended by LF. */
  lemma {:induction false} NormalizeCrLines(lines: seq<string>)
    requires forall k :: 0 <= k < |lines| ==> '\r' !in lines[k] && (k > 0 ==> !StartsWith(lines[k], "\n"))
    ensures NormalizeEol(Join(lines, "\r")) == Join(lines, "\n")
    decreases |lines|
  {
    if |lines| == 1 {
      NormalizePlain(lines[0]);
    } else if |lines| > 1 {
      var rest := Join(lines[1..], "\r");
      assert Join(lines, "\r") == lines[0] + ("\r" + rest);
      CrLfAppend(lines[0], "\r" + rest);
      JoinStart(lines[1..], "\r");
      assert CrLfToLf("\r" + rest) == "\r" + CrLfToLf(rest) by {
        assert ("\r" + rest)[1..] == rest;
      }
      NormalizeCrLines(lines[1..]);
      CrToLfAppend(lines[0], "\r" + CrLfToLf(rest));
      CrToLfAppend("\r", CrLfToLf(rest));
      NormalizePlain(lines[0]);
      assert Join(lines, "\n") == lines[0] + ("\n" + Join(lines[1..], "\n"));
    }
  }

  /** A join starts with its first part, or with the separator when that part is empty. */
  lemma JoinStart(parts: seq<string>, sep: string)
    requires |parts| >= 1 && |sep| >= 1 && '\n' !in sep && !StartsWith(parts[0], "\n")
    ensures !StartsWith(Join(parts, sep), "\n")
  {
    var s := Join(parts, sep);
    if |parts| > 1 {
      assert s == parts[0] + sep + Join(parts[1..], sep);
      if |parts[0]| == 0 {
        assert s[0] == sep[0];
      } else {
        assert s[0] == parts[0][0];
      }
    }
  }

  /* ---------- Preamble ---------- */

  /** `gitStart >= 0 ? gitStart : stdStart >= 0 ? stdStart : -1`: the first
      `diff --git` anywhere, else the first line starting with `--- a/`. */
  function DiffStart(text: string): (r: Option<nat>)
    ensures r.Some? ==> r.value <= |text|
  {
    var g := IndexOf(text, "diff --git");
    if g >= 0 then Some(g as nat) else FirstCut(OldPathCut, text, 0)
  }

  function StripPreamble(text: string): string {
    match DiffStart(text)
    case None => text
    case Some(d) => if d > 0 then text[d..] else text
  }

  /** Text before the first diff marker is dropped and nothing else: with a
      `diff --git` anywhere the result starts at the first one; otherwise with
      a line starting `--- a/` it starts at the first such line; otherwise
      the text is unchanged. */
  lemma PreambleSpec(text: string)
    ensures EndsWith(text, StripPreamble(text))
    ensures Contains(text, "diff --git") ==>
      var d := |text| - |StripPreamble(text)|;
      && StartsWith(StripPreamble(text), "diff --git")
      && forall j: nat :: j < d ==> !OccursAt(text, "diff --git", j)
    ensures !Contains(text, "diff --git") ==>
      (forall j: nat :: j <= |text| ==> !IsCut(OldPathCut, text, j)) ==> StripPreamble(text) == text
    ensures !Contains(text, "diff --git") && (exists j: nat :: j <= |text| && IsCut(OldPathCut, text, j)) ==>
      var d := |text| - |StripPreamble(text)|;
      && StartsWith(StripPreamble(text), "--- a/")
      && forall j: nat :: j < d ==> !IsCut(OldPathCut, text, j)
  {
    var r := StripPreamble(text);
    match DiffStart(text)
    case None =>
      assert text[|text| - |text|..] == text;
      if !Contains(text, "diff --git") && exists j: nat :: j <= |text| && IsCut(OldPathCut, text, j) {
        var j: nat :| j <= |text| && IsCut(OldPathCut, text, j);
        FirstCutLeftmost(OldPathCut, text, 0, j);
      }
    case Some(d) =>
      assert r == text[d..];
      assert text[|text| - |r|..] == r;
      if Contains(text, "diff --git") {
        StartsWithSlice(text, "diff --git", d);
      } else {
        StartsWithSlice(text, "--- a/", d);
        forall j: nat | j < d
          ensures !IsCut(OldPathCut, text, j)
        {
          if IsCut(OldPathCut, text, j) {
            FirstCutLeftmost(OldPathCut, text, 0, j);
          }
        }
      }
  }

  /** An occurrence at `i` is a prefix of the suffix from `i`. */
  lemma StartsWithSlice(s: string, p: string, i: nat)
    requires OccursAt(s, p, i)
    ensures StartsWith(s[i..], p)
  {
    assert s[i..][..|p|] == s[i..i + |p|];
  }

  /** Text that already starts at a diff marker has no preamble. */
  lemma PreambleNone(r: string)
    requires StartsWith(r, "diff --git") || (!Contains(r, "diff --git") && StartsWith(r, "--- a/"))
    ensures StripPreamble(r) == r
  {
    if StartsWith(r, "diff --git") {
      StartsWithOccurs(r, "diff --git", 0);
    } else {
      StartsWithOccurs(r, "--- a/", 0);
      assert IsCut(OldPathCut, r, 0);
      FirstCutLeftmost(OldPathCut, r, 0, 0);
    }
  }

  /** A suffix of a text without `diff --git` has none either. */
  lemma NoDiffSuffix(text: string, d: nat)
    requires d <= |text| && !Contains(text, "diff --git")
    ensures !Contains(text[d..], "diff --git")
  {
    var r := text[d..];
    assert text[..d] + r == text;
    forall j: nat | j <= |r|
      ensures !OccursAt(r, "diff --git", j)
    {
      OccursShift(text[..d], r, "diff --git", j);
    }
  }

  /** Stripping the preamble twice strips nothing more. */
  lemma PreambleIdempotent(text: string)
    ensures StripPreamble(StripPreamble(text)) == StripPreamble(text)
  {
    var r := StripPreamble(text);
    PreambleSpec(text);
    if Contains(text, "diff --git") {
      PreambleNone(r);
    } else if exists j: nat :: j <= |text| && IsCut(OldPathCut, text, j) {
      var d := |text| - |r|;
      assert r == text[d..];
      NoDiffSuffix(text, d);
      PreambleNone(r);
    }
  }

  /* ---------- The whole pipeline ---------- */

  /** `fixHunkHeaders(cleaned).join('\n')` over the lines the filter keeps. */
  function CleanDiffBetweenFiles(diff: string): string {
    Join(FixHunkHeaders(CleanLines(Split(diff, '\n'))), "\n")
  }

  /** The last two steps: trim, then end a non-empty text with a newline. */
  function Finish(text: string): string {
    var t := Trim(text);
    if |t| > 0 && !EndsWith(t, "\n") then t + "\n" else t
  }

  function Sanitize(raw: string): string {
    var unfenced := StripTrailingFence(StripLeadingFence(Trim(raw)));
    var diff := StripPreamble(NormalizeEol(unfenced));
    Finish(SortAndRebaseHunks(CleanDiffBetweenFiles(AddMissingGitHeaders(diff))))
  }

  /** The result is empty exactly when the text is all white space; otherwise
      it is the trimmed text followed by exactly one newline. */
  lemma FinishShape(text: string)
    ensures Finish(text) == "" <==> AllSpace(text)
    ensures Finish(text) != "" ==>
      var r := Finish(text);
      && r == Trim(text) + "\n"
      && |r| >= 2 && !IsSpace(r[0]) && !IsSpace(r[|r| - 2])
  {
    var t := Trim(text);
    TrimEmpty(text);
    if |t| > 0 {
      assert t[|t| - 1..] != "\n" by { assert t[|t| - 1..][0] == t[|t| - 1]; }
    }
  }

  /** Empty, or starting with no white space and ending in exactly one
      newline after a non-blank character. */
  predicate Finished(r: string) {
    r == [] || (r[|r| - 1] == '\n' && |r| >= 2 && !IsSpace(r[|r| - 2]) && !IsSpace(r[0]))
  }

  /** `sanitizeGeminiOutput` always returns text that is empty or ends in one
      newline after a non-blank character, and starts with no white space. */
  lemma SanitizeShape(raw: string)
    ensures Finished(Sanitize(raw))
  {
    var unfenced := StripTrailingFence(StripLeadingFence(Trim(raw)));
    var diff := StripPreamble(NormalizeEol(unfenced));
    var text := SortAndRebaseHunks(CleanDiffBetweenFiles(AddMissingGitHeaders(diff)));
    FinishShape(text);
    assert Finished(Finish(text));
  }

  /** The output holds no carriage return. */
  lemma SanitizeNoCr(raw: string)
    ensures '\r' !in Sanitize(raw)
  {
    var unfenced := StripTrailingFence(StripLeadingFence(Trim(raw)));
    var normal := NormalizeEol(unfenced);
    var diff := StripPreamble(normal);
    PreambleSpec(normal);
    SuffixChars(normal, diff, '\r');
    var headed := AddMissingGitHeaders(diff);
    AddHeadersNoCr(diff);
    var cleaned := CleanDiffBetweenFiles(headed);
    CleanNoCr(headed);
    var sorted := SortAndRebaseHunks(cleaned);
    SortNoCr(cleaned);
    TrimChars(sorted, '\r');
  }

  /* ---------- Carriage returns stay out ---------- */

  /** No part of `ss` holds `c`. */
  predicate AllFree(ss: seq<string>, c: char) {
    forall k :: 0 <= k < |ss| ==> c !in ss[k]
  }

  lemma SuffixChars(s: string, r: string, c: char)
    requires EndsWith(s, r) && c !in s
    ensures c !in r
  {
    assert forall x :: x in s[|s| - |r|..] ==> x in s;
  }

  lemma TrimChars(s: string, c: char)
    requires c !in s
    ensures c !in Trim(s)
  {
    var r := Trim(s);
    var a: nat :| a + |r| <= |s| && r == s[a..a + |r|] && AllSpace(s[..a]) && AllSpace(s[a + |r|..]);
    assert forall x :: x in s[a..a + |r|] ==> x in s;
  }

  lemma {:induction false} SplitChars(s: string, sep: char, c: char)
    requires c !in s
    ensures AllFree(Split(s, sep), c)
    decreases |s|
  {
    if sep in s {
      var i := FirstIndexOfChar(s, sep);
      assert forall x :: x in s[..i] ==> x in s;
      assert forall x :: x in s[i + 1..] ==> x in s;
      SplitChars(s[i + 1..], sep, c);
    }
  }

  lemma AddHeadersNoCr(diff: string)
    requires '\r' !in diff
    ensures '\r' !in AddMissingGitHeaders(diff)
  {
    if !Contains(diff, "diff --git") {
      var lines := Split(diff, '\n');
      SplitChars(diff, '\n', '\r');
      WithHeadersNoTerminator(lines, '\r');
      JoinChars(WithHeaders(lines), "\n", '\r');
    }
  }

  lemma {:induction false} SelectChars(lines: seq<string>, i: nat, c: char)
    requires i <= |lines| && AllFree(lines, c)
    ensures AllFree(SelectFrom(lines, i), c)
    decreases |lines| - i
  {
    if i < |lines| {
      SelectChars(lines, i + 1, c);
    }
  }

  /** A rewritten header consists of digits, fixed text and a suffix that
      holds no line terminator. */
  lemma FixLineNoCr(lines: seq<string>, i: nat)
    requires i < |lines| && '\r' !in lines[i]
    ensures '\r' !in FixLine(lines, i)
  {
    if IsHunkLine(lines[i]) && Search(lines[i]).Some? {
      var (h, suffix) := Search(lines[i]).value;
      SearchSound(lines[i]);
      RewriteNoCr(h, suffix, Tally(lines, i + 1));
    }
  }

  lemma RewriteNoCr(h: Header, suffix: string, counts: (nat, nat))
    requires WellFormed(h) && NoLineTerminator(suffix)
    ensures '\r' !in Rewrite(h, suffix, counts)
  {
    assert '\r' !in NatToString(counts.0) && '\r' !in NatToString(counts.1);
    assert '\r' !in h.oldStart && '\r' !in h.newStart && '\r' !in suffix;
  }

  lemma CleanNoCr(diff: string)
    requires '\r' !in diff
    ensures '\r' !in CleanDiffBetweenFiles(diff)
  {
    var lines := Split(diff, '\n');
    SplitChars(diff, '\n', '\r');
    CleanLinesSelects(lines);
    SelectChars(lines, 0, '\r');
    var kept := CleanLines(lines);
    var fixedLines := FixHunkHeaders(kept);
    forall k | 0 <= k < |fixedLines|
      ensures '\r' !in fixedLines[k]
    {
      FixLineNoCr(kept, k);
    }
    JoinChars(fixedLines, "\n", '\r');
  }

  lemma {:induction false} PiecesChars(k: Cut, s: string, i: nat, c: char)
    requires i < |s| && c !in s
    ensures AllFree(PiecesFrom(k, s, i), c)
    decreases |s| - i
  {
    var j := CutAfter(k, s, i);
    PiecesFromStep(k, s, i);
    assert forall x :: x in s[i..j] ==> x in s;
    if j < |s| {
      PiecesChars(k, s, j, c);
    }
  }

  lemma SplitBeforeChars(k: Cut, s: string, c: char)
    requires c !in s
    ensures AllFree(SplitBefore(k, s), c)
  {
    if s != [] {
      PiecesChars(k, s, 0, c);
    }
  }

  lemma {:induction false} DropEmptyChars(ss: seq<string>, c: char)
    requires AllFree(ss, c)
    ensures AllFree(DropEmpty(ss), c)
    decreases |ss|
  {
    if |ss| > 0 {
      DropEmptyChars(ss[1..], c);
    }
  }

  /** Rewriting the new start only brings in digits. */
  lemma ReplaceNoCr(raw: string, n: nat)
    requires '\r' !in raw
    ensures '\r' !in ReplaceNewStart(raw, n)
  {
    if MatchPrefix(raw).Some? {
      var p := MatchPrefix(raw).value;
      MatchPrefixSound(raw);
      assert '\r' !in NatToString(n);
    }
  }

  lemma SortSectionNoCr(section: string)
    requires '\r' !in section
    ensures '\r' !in SortSection(section)
  {
    match FirstCut(HunkCut, section, 0)
    case None =>
    case Some(f) =>
      assert forall x :: x in section[f..] ==> x in section;
      var parsed := ParseAll(Chunks(section[f..]));
      ChunksNoCr(section[f..]);
      SortedNoCr(parsed);
      RebaseNoCr(SortChunks(parsed), 0);
      assert forall x :: x in section[..f] ==> x in section;
  }

  /** The hunk chunks of a text without carriage returns hold none. */
  lemma ChunksNoCr(block: string)
    requires '\r' !in block
    ensures forall n :: 0 <= n < |ParseAll(Chunks(block))| ==> '\r' !in ParseAll(Chunks(block))[n].raw
  {
    SplitBeforeChars(HunkCut, block, '\r');
    DropEmptyChars(SplitBefore(HunkCut, block), '\r');
  }

  /** Sorting only reorders the chunks. */
  lemma SortedNoCr(cs: seq<Chunk>)
    requires forall n :: 0 <= n < |cs| ==> '\r' !in cs[n].raw
    ensures forall n :: 0 <= n < |SortChunks(cs)| ==> '\r' !in SortChunks(cs)[n].raw
  {
    var sorted := SortChunks(cs);
    SortChunksSpec(cs);
    forall n | 0 <= n < |sorted|
      ensures '\r' !in sorted[n].raw
    {
      assert sorted[n] in multiset(cs);
      var m :| 0 <= m < |cs| && cs[m] == sorted[n];
    }
  }

  /** Rebasing rewrites only digits, so no carriage return appears. */
  lemma {:induction false} RebaseNoCr(cs: seq<Chunk>, offset: int)
    requires forall n :: 0 <= n < |cs| ==> '\r' !in cs[n].raw
    ensures '\r' !in Concat(RebaseFrom(cs, offset))
    decreases |cs|
  {
    if |cs| > 0 {
      var start := Max(1, cs[0].oldStart + offset) as nat;
      var next := offset + cs[0].newCount - cs[0].oldCount;
      var x := ReplaceNewStart(cs[0].raw, start);
      var rest := RebaseFrom(cs[1..], next);
      ReplaceNoCr(cs[0].raw, start);
      RebaseNoCr(cs[1..], next);
      assert RebaseFrom(cs, offset) == [x] + rest;
      assert ([x] + rest)[0] == x && ([x] + rest)[1..] == rest;
    }
  }

  lemma SortNoCr(diff: string)
    requires '\r' !in diff
    ensures '\r' !in SortAndRebaseHunks(diff)
  {
    var sections := SplitBefore(SectionCut, diff);
    SplitBeforeChars(SectionCut, diff, '\r');
    var out := seq(|sections|, i requires 0 <= i < |sections| => SortSection(sections[i]));
    forall i | 0 <= i < |out|
      ensures '\r' !in out[i]
    {
      SortSectionNoCr(sections[i]);
    }
    ConcatChars(out, '\r');
  }
}
