/** The diff panel's reader (DiffViewer.tsx `parseDiff`): the diff text is
    read line by line into files, each with its hunks, its added and removed
    counts, and every hunk line numbered on the old and the new side. */
module DiffViewer {
  import opened Text
  import opened Wrappers
  import opened HunkHeader
  import opened GitPaths
  import opened CleanDiff

  datatype LineType = Add | Remove | Context

  /** `DiffLine`: a removed line has no new number and an added line no old one. */
  datatype ViewLine = ViewLine(kind: LineType, content: string, oldNum: Option<nat>, newNum: Option<nat>)

  /** `DiffHunk`: the `@@` line as written and the lines after it. */
  datatype ViewHunk = ViewHunk(header: string, lines: seq<ViewLine>)

  /** `DiffFile`. */
  datatype ViewFile = ViewFile(filename: string, hunks: seq<ViewHunk>, added: nat, removed: nat)

  /** The loop's variables: the files so far (`cur` is the last one, and
      there is none before the first `diff --git` line), whether `hunk` is
      set (it is then the last hunk of `cur`), and the two line counters. */
  datatype Reader = Reader(files: seq<ViewFile>, inHunk: bool, oLine: nat, nLine: nat)

  /** A set `hunk` belongs to a current file. */
  predicate Ready(r: Reader) {
    r.inHunk ==> r.files != [] && r.files[|r.files| - 1].hunks != []
  }

  /** `m ? m[2] : line` for `/diff --git a\/(.*) b\/(.*)/`: the second path
      of the leftmost match, or the whole line. */
  function FileName(line: string): string {
    match FindHeader(Greedy, line, 0)
    case None => line
    case Some(p) => HeaderAt(Greedy, line, p).value.toPath
  }

  /** `index `, `--- ` and `+++ ` lines are skipped wherever they appear. */
  predicate Skipped(line: string) {
    StartsWith(line, "index ") || StartsWith(line, "--- ") || StartsWith(line, "+++ ")
  }

  /** `parseInt` of the two start captures of the hunk-range expression, or
      0 and 0 when the line does not match. */
  function Starts(line: string): (nat, nat) {
    match Search(line)
    case None => (0, 0)
    case Some((h, _)) =>
      SearchSound(line);
      (DigitsValue(h.oldStart), DigitsValue(h.newStart))
  }

  /** The line a body line becomes, numbered with the current counters: the
      first character is dropped from added and removed lines, and from a
      context line only when it is a space. */
  function BodyLine(line: string, o: nat, n: nat): ViewLine {
    if StartsWith(line, "+") then ViewLine(Add, line[1..], None, Some(n))
    else if StartsWith(line, "-") then ViewLine(Remove, line[1..], Some(o), None)
    else ViewLine(Context, if StartsWith(line, " ") then line[1..] else line, Some(o), Some(n))
  }

  function OldStep(l: ViewLine): nat {
    if l.kind == Add then 0 else 1
  }

  function NewStep(l: ViewLine): nat {
    if l.kind == Remove then 0 else 1
  }

  function IsKind(l: ViewLine, k: LineType): nat {
    if l.kind == k then 1 else 0
  }

  /** Pushes a body line onto the current hunk, bumping the file's count and
      the counters of the sides the line is on. */
  function Record(r: Reader, l: ViewLine): (r': Reader)
    requires r.files != [] && r.files[|r.files| - 1].hunks != []
    ensures |r'.files| == |r.files| && r'.inHunk == r.inHunk
  {
    r.(files := r.files[..|r.files| - 1] + [Pushed(r.files[|r.files| - 1], l)],
       oLine := r.oLine + OldStep(l), nLine := r.nLine + NewStep(l))
  }

  /** The file with `l` appended to its last hunk and counted. */
  function Pushed(f: ViewFile, l: ViewLine): ViewFile
    requires f.hunks != []
  {
    var h := f.hunks[|f.hunks| - 1];
    f.(hunks := f.hunks[..|f.hunks| - 1] + [h.(lines := h.lines + [l])],
       added := f.added + IsKind(l, Add), removed := f.removed + IsKind(l, Remove))
  }

  /** One iteration of `for (const line of lines)`. */
  function Step(r: Reader, line: string): (r': Reader)
    requires Ready(r)
    ensures Ready(r')
  {
    if IsGitLine(line) then Reader(r.files + [ViewFile(FileName(line), [], 0, 0)], false, r.oLine, r.nLine)
    else if r.files == [] || Skipped(line) then r
    else if IsHunkLine(line) then
      var f := r.files[|r.files| - 1];
      var (o, n) := Starts(line);
      Reader(r.files[..|r.files| - 1] + [f.(hunks := f.hunks + [ViewHunk(line, [])])], true, o, n)
    else if !r.inHunk then r
    else Record(r, BodyLine(line, r.oLine, r.nLine))
  }

  const Start := Reader([], false, 0, 0)

  /** The loop over the lines. */
  function Scan(ls: seq<string>): (r: Reader)
    ensures Ready(r)
  {
    if ls == [] then Start else Step(Scan(ls[..|ls| - 1]), ls[|ls| - 1])
  }

  /** `parseDiff`. */
  function ParseDiff(raw: string): seq<ViewFile> {
    Scan(Split(raw, '\n')).files
  }

  /* ---- One file per `diff --git` line ---- */

  function Names(fs: seq<ViewFile>): (r: seq<string>)
    ensures |r| == |fs| && forall i :: 0 <= i < |fs| ==> r[i] == fs[i].filename
  {
    seq(|fs|, i requires 0 <= i < |fs| => fs[i].filename)
  }

  /** The names the `diff --git` lines among `ls` give, in order. */
  function GitNames(ls: seq<string>): seq<string> {
    if ls == [] then []
    else GitNames(ls[..|ls| - 1]) + (if IsGitLine(ls[|ls| - 1]) then [FileName(ls[|ls| - 1])] else [])
  }

  lemma StepNames(r: Reader, line: string)
    requires Ready(r)
    ensures Names(Step(r, line).files) == Names(r.files) + (if IsGitLine(line) then [FileName(line)] else [])
  {
    var r' := Step(r, line);
    if !IsGitLine(line) && r.files != [] && !Skipped(line) && (IsHunkLine(line) || r.inHunk) {
      assert |r'.files| == |r.files|;
      assert forall i :: 0 <= i < |r.files| ==> r'.files[i].filename == r.files[i].filename;
    }
  }

  lemma {:induction false} ScanNames(ls: seq<string>)
    ensures Names(Scan(ls).files) == GitNames(ls)
  {
    if ls != [] {
      ScanNames(ls[..|ls| - 1]);
      StepNames(Scan(ls[..|ls| - 1]), ls[|ls| - 1]);
    }
  }

  /** The viewer shows one file per `diff --git` line, in the order of the
      lines, named after the line's second path. */
  lemma FilesInOrder(raw: string)
    ensures Names(ParseDiff(raw)) == GitNames(Split(raw, '\n'))
  {
    ScanNames(Split(raw, '\n'));
  }

  /** Lines that are neither `diff --git` nor `@@` lines change nothing while
      no hunk is open: before the first file, and in a file before its
      first hunk. */
  lemma {:induction false} OutsideHunkIgnored(pre: seq<string>, ls: seq<string>)
    requires !Scan(pre).inHunk
    requires forall i :: 0 <= i < |ls| ==> !IsGitLine(ls[i]) && !IsHunkLine(ls[i])
    ensures Scan(pre + ls) == Scan(pre)
    decreases |ls|
  {
    if ls == [] {
      assert pre + ls == pre;
    } else {
      var init := ls[..|ls| - 1];
      assert (pre + ls)[..|pre + ls| - 1] == pre + init;
      OutsideHunkIgnored(pre, init);
    }
  }

  /** Text before the first `diff --git` line yields no file. */
  lemma {:induction false} PreambleIgnored(ls: seq<string>)
    requires forall i :: 0 <= i < |ls| ==> !IsGitLine(ls[i])
    ensures Scan(ls) == Start
  {
    if ls != [] {
      PreambleIgnored(ls[..|ls| - 1]);
    }
  }

  /* ---- The added and removed counts ---- */

  function KindCount(ls: seq<ViewLine>, k: LineType): nat {
    if ls == [] then 0 else KindCount(ls[..|ls| - 1], k) + IsKind(ls[|ls| - 1], k)
  }

  /** The lines of kind `k` over all the hunks. */
  function HunksCount(hs: seq<ViewHunk>, k: LineType): nat {
    if hs == [] then 0 else HunksCount(hs[..|hs| - 1], k) + KindCount(hs[|hs| - 1].lines, k)
  }

  /** A file's counts are the numbers of its added and removed lines. */
  predicate Counted(f: ViewFile) {
    f.added == HunksCount(f.hunks, Add) && f.removed == HunksCount(f.hunks, Remove)
  }

  predicate AllCounted(fs: seq<ViewFile>) {
    forall i :: 0 <= i < |fs| ==> Counted(fs[i])
  }

  lemma KindCountPush(ls: seq<ViewLine>, l: ViewLine, k: LineType)
    ensures KindCount(ls + [l], k) == KindCount(ls, k) + IsKind(l, k)
  {
    assert (ls + [l])[..|ls|] == ls;
  }

  /** Replacing the last hunk changes the totals by the change in that hunk. */
  lemma HunksCountLast(hs: seq<ViewHunk>, h: ViewHunk, k: LineType)
    requires hs != []
    ensures HunksCount(hs[..|hs| - 1] + [h], k) == HunksCount(hs, k) - KindCount(hs[|hs| - 1].lines, k) + KindCount(h.lines, k)
  {
    assert (hs[..|hs| - 1] + [h])[..|hs| - 1] == hs[..|hs| - 1];
  }

  lemma HunksCountPush(hs: seq<ViewHunk>, h: ViewHunk, k: LineType)
    ensures HunksCount(hs + [h], k) == HunksCount(hs, k) + KindCount(h.lines, k)
  {
    assert (hs + [h])[..|hs|] == hs;
  }

  /** Files before the last one are left alone. */
  lemma ReplaceLast(fs: seq<ViewFile>, f: ViewFile)
    requires fs != [] && AllCounted(fs) && Counted(f)
    ensures AllCounted(fs[..|fs| - 1] + [f])
  {
    var fs' := fs[..|fs| - 1] + [f];
    forall i | 0 <= i < |fs'|
      ensures Counted(fs'[i])
    {
      if i < |fs| - 1 {
        assert fs'[i] == fs[i];
      }
    }
  }

  lemma RecordCounted(r: Reader, l: ViewLine)
    requires r.files != [] && r.files[|r.files| - 1].hunks != [] && AllCounted(r.files)
    ensures AllCounted(Record(r, l).files)
  {
    var f := r.files[|r.files| - 1];
    PushedCounted(f, l);
    ReplaceLast(r.files, Pushed(f, l));
  }

  lemma PushedCounted(f: ViewFile, l: ViewLine)
    requires f.hunks != [] && Counted(f)
    ensures Counted(Pushed(f, l))
  {
    var h := f.hunks[|f.hunks| - 1];
    var h' := h.(lines := h.lines + [l]);
    KindCountPush(h.lines, l, Add);
    KindCountPush(h.lines, l, Remove);
    HunksCountLast(f.hunks, h', Add);
    HunksCountLast(f.hunks, h', Remove);
  }

  lemma StepCounted(r: Reader, line: string)
    requires Ready(r) && AllCounted(r.files)
    ensures AllCounted(Step(r, line).files)
  {
    if IsGitLine(line) {
      var fs' := Step(r, line).files;
      assert forall i :: 0 <= i < |r.files| ==> fs'[i] == r.files[i];
    } else if r.files != [] && !Skipped(line) {
      if IsHunkLine(line) {
        var f := r.files[|r.files| - 1];
        HunksCountPush(f.hunks, ViewHunk(line, []), Add);
        HunksCountPush(f.hunks, ViewHunk(line, []), Remove);
        ReplaceLast(r.files, f.(hunks := f.hunks + [ViewHunk(line, [])]));
      } else if r.inHunk {
        RecordCounted(r, BodyLine(line, r.oLine, r.nLine));
      }
    }
  }

  lemma {:induction false} ScanCounted(ls: seq<string>)
    ensures AllCounted(Scan(ls).files)
  {
    if ls != [] {
      ScanCounted(ls[..|ls| - 1]);
      StepCounted(Scan(ls[..|ls| - 1]), ls[|ls| - 1]);
    }
  }

  /** Every file's `added` and `removed` are the numbers of added and
      removed lines in its hunks. */
  lemma CountsMatchLines(raw: string)
    ensures AllCounted(ParseDiff(raw))
  {
    ScanCounted(Split(raw, '\n'));
  }

  /* ---- Line numbers ---- */

  function OldCount(ls: seq<ViewLine>): nat {
    if ls == [] then 0 else OldCount(ls[..|ls| - 1]) + OldStep(ls[|ls| - 1])
  }

  function NewCount(ls: seq<ViewLine>): nat {
    if ls == [] then 0 else NewCount(ls[..|ls| - 1]) + NewStep(ls[|ls| - 1])
  }

  /** Line `k` of `ls`, in a hunk whose header gives the starts `o` and
      `n`, carries the numbers its sides give it: the old number counts up
      from `o` over the removed and context lines before it, the new number
      from `n` over the added and context lines, and the side a line is not
      on gives no number. */
  predicate LineNumbered(ls: seq<ViewLine>, k: nat, o: nat, n: nat)
    requires k < |ls|
  {
    && ls[k].oldNum == (if ls[k].kind == Add then None else Some(o + OldCount(ls[..k])))
    && ls[k].newNum == (if ls[k].kind == Remove then None else Some(n + NewCount(ls[..k])))
  }

  predicate NumberedFrom(ls: seq<ViewLine>, o: nat, n: nat) {
    forall k :: 0 <= k < |ls| ==> LineNumbered(ls, k, o, n)
  }

  predicate Numbered(h: ViewHunk) {
    NumberedFrom(h.lines, Starts(h.header).0, Starts(h.header).1)
  }

  predicate HunksNumbered(hs: seq<ViewHunk>) {
    forall j :: 0 <= j < |hs| ==> Numbered(hs[j])
  }

  predicate FileNumbered(f: ViewFile) {
    HunksNumbered(f.hunks)
  }

  predicate AllNumbered(fs: seq<ViewFile>) {
    forall i :: 0 <= i < |fs| ==> FileNumbered(fs[i])
  }

  /** Every hunk is numbered, and while a hunk is open the counters hold the
      next numbers of its sides. */
  predicate Numbering(r: Reader) {
    && Ready(r)
    && AllNumbered(r.files)
    && (r.inHunk ==>
      var f := r.files[|r.files| - 1];
      var h := f.hunks[|f.hunks| - 1];
      r.oLine == Starts(h.header).0 + OldCount(h.lines) && r.nLine == Starts(h.header).1 + NewCount(h.lines))
  }

  lemma PushNumbered(ls: seq<ViewLine>, l: ViewLine, o: nat, n: nat)
    requires NumberedFrom(ls, o, n)
    requires l.oldNum == (if l.kind == Add then None else Some(o + OldCount(ls)))
    requires l.newNum == (if l.kind == Remove then None else Some(n + NewCount(ls)))
    ensures NumberedFrom(ls + [l], o, n)
  {
    var ls' := ls + [l];
    forall k | 0 <= k < |ls'|
      ensures LineNumbered(ls', k, o, n)
    {
      if k < |ls| {
        assert ls'[..k] == ls[..k];
        assert LineNumbered(ls, k, o, n);
      } else {
        assert ls'[..k] == ls;
      }
    }
  }

  lemma ReplaceLastNumbered(fs: seq<ViewFile>, f: ViewFile)
    requires fs != [] && AllNumbered(fs) && FileNumbered(f)
    ensures AllNumbered(fs[..|fs| - 1] + [f])
  {
    var fs' := fs[..|fs| - 1] + [f];
    forall i | 0 <= i < |fs'|
      ensures FileNumbered(fs'[i])
    {
      if i < |fs| - 1 {
        assert fs'[i] == fs[i];
      }
    }
  }

  lemma ReplaceLastHunk(hs: seq<ViewHunk>, h: ViewHunk)
    requires hs != [] && HunksNumbered(hs) && Numbered(h)
    ensures HunksNumbered(hs[..|hs| - 1] + [h])
  {
    var hs' := hs[..|hs| - 1] + [h];
    forall j | 0 <= j < |hs'|
      ensures Numbered(hs'[j])
    {
      if j < |hs| - 1 {
        assert hs'[j] == hs[j];
      }
    }
  }

  lemma CountsPush(ls: seq<ViewLine>, l: ViewLine)
    ensures OldCount(ls + [l]) == OldCount(ls) + OldStep(l)
    ensures NewCount(ls + [l]) == NewCount(ls) + NewStep(l)
  {
    assert (ls + [l])[..|ls|] == ls;
  }

  /** The open hunk after a push: the old one with the line appended. */
  lemma RecordLast(r: Reader, l: ViewLine)
    requires r.files != [] && r.files[|r.files| - 1].hunks != []
    ensures var f := r.files[|r.files| - 1];
      var h := f.hunks[|f.hunks| - 1];
      var f' := Record(r, l).files[|r.files| - 1];
      && Record(r, l).files == r.files[..|r.files| - 1] + [f']
      && f'.hunks == f.hunks[..|f.hunks| - 1] + [h.(lines := h.lines + [l])]
  {
  }

  /** A body line takes the counters as the numbers of the sides it is on. */
  lemma BodyLineNumbers(line: string, ls: seq<ViewLine>, o: nat, n: nat)
    ensures var l := BodyLine(line, o + OldCount(ls), n + NewCount(ls));
      && l.oldNum == (if l.kind == Add then None else Some(o + OldCount(ls)))
      && l.newNum == (if l.kind == Remove then None else Some(n + NewCount(ls)))
  {
  }

  /** Pushing a body line numbered with the counters keeps the lines
      numbered and the counters one past their sides. */
  lemma PushFrom(ls: seq<ViewLine>, line: string, o: nat, n: nat, oL: nat, nL: nat)
    requires NumberedFrom(ls, o, n)
    requires oL == o + OldCount(ls) && nL == n + NewCount(ls)
    ensures var l := BodyLine(line, oL, nL);
      && NumberedFrom(ls + [l], o, n)
      && oL + OldStep(l) == o + OldCount(ls + [l])
      && nL + NewStep(l) == n + NewCount(ls + [l])
  {
    var l := BodyLine(line, oL, nL);
    BodyLineNumbers(line, ls, o, n);
    PushNumbered(ls, l, o, n);
    CountsPush(ls, l);
  }

  lemma OpenPush(h: ViewHunk, line: string, oL: nat, nL: nat)
    requires Numbered(h)
    requires oL == Starts(h.header).0 + OldCount(h.lines) && nL == Starts(h.header).1 + NewCount(h.lines)
    ensures var l := BodyLine(line, oL, nL);
      && Numbered(h.(lines := h.lines + [l]))
      && oL + OldStep(l) == Starts(h.header).0 + OldCount(h.lines + [l])
      && nL + NewStep(l) == Starts(h.header).1 + NewCount(h.lines + [l])
  {
    PushFrom(h.lines, line, Starts(h.header).0, Starts(h.header).1, oL, nL);
  }

  lemma RecordNumbered(r: Reader, line: string)
    requires Numbering(r) && r.inHunk
    ensures Numbering(Record(r, BodyLine(line, r.oLine, r.nLine)))
  {
    var l := BodyLine(line, r.oLine, r.nLine);
    var f := r.files[|r.files| - 1];
    var h := f.hunks[|f.hunks| - 1];
    var f' := Record(r, l).files[|r.files| - 1];
    RecordLast(r, l);
    assert FileNumbered(f);
    OpenPush(h, line, r.oLine, r.nLine);
    ReplaceLastHunk(f.hunks, h.(lines := h.lines + [l]));
    ReplaceLastNumbered(r.files, f');
  }

  lemma StepNumbered(r: Reader, line: string)
    requires Numbering(r)
    ensures Numbering(Step(r, line))
  {
    if IsGitLine(line) {
      var fs' := Step(r, line).files;
      assert forall i :: 0 <= i < |r.files| ==> fs'[i] == r.files[i];
    } else if r.files != [] && !Skipped(line) {
      if IsHunkLine(line) {
        var f := r.files[|r.files| - 1];
        var f' := f.(hunks := f.hunks + [ViewHunk(line, [])]);
        assert FileNumbered(f') by {
          forall j | 0 <= j < |f'.hunks|
            ensures Numbered(f'.hunks[j])
          {
            if j < |f.hunks| {
              assert f'.hunks[j] == f.hunks[j];
            }
          }
        }
        ReplaceLastNumbered(r.files, f');
      } else if r.inHunk {
        RecordNumbered(r, line);
      }
    }
  }

  lemma {:induction false} ScanNumbered(ls: seq<string>)
    ensures Numbering(Scan(ls))
  {
    if ls != [] {
      ScanNumbered(ls[..|ls| - 1]);
      StepNumbered(Scan(ls[..|ls| - 1]), ls[|ls| - 1]);
    }
  }

  /** Every line of every hunk is numbered from the header's starts: old
      numbers over the removed and context lines, new numbers over the added
      and context lines, each side counting up by one. */
  lemma LinesNumbered(raw: string)
    ensures AllNumbered(ParseDiff(raw))
  {
    ScanNumbered(Split(raw, '\n'));
  }

  /* ---- What a body line keeps ---- */

  /** The marker a line of each kind is written with. */
  function Marker(k: LineType): string {
    match k
    case Add => "+"
    case Remove => "-"
    case Context => " "
  }

  /** An added or removed line, and a context line that starts with a
      space, is its marker followed by the content shown. */
  lemma BodyLineRestores(line: string, o: nat, n: nat)
    requires StartsWith(line, "+") || StartsWith(line, "-") || StartsWith(line, " ")
    ensures Marker(BodyLine(line, o, n).kind) + BodyLine(line, o, n).content == line
  {
    assert line == line[..1] + line[1..];
  }

  /** A removed line whose text starts with `-- ` reads as a `--- ` file
      header and is dropped, even inside a hunk: it is neither shown nor
      counted, and the old-side numbers after it shift down by one. */
  lemma DashedRemovalDropped(r: Reader, text: string)
    requires Ready(r) && r.files != []
    ensures Step(r, "-" + "-- " + text) == r
  {
    var line := "-" + "-- " + text;
    assert line[0] == '-';
    assert line[..4] == "--- ";
    SkippedStep(r, line);
  }

  /** A skipped line that is no `diff --git` line leaves a reader that has a
      file unchanged. */
  lemma SkippedStep(r: Reader, line: string)
    requires Ready(r) && r.files != []
    requires !IsGitLine(line) && Skipped(line)
    ensures Step(r, line) == r
  {
  }
}
