/** `applyPatch` (applyPatch.ts): the diff is normalised and written to a
    temporary file, applied with `git apply`, and on failure with the
    `patch` command; once the `try` is reached the file is removed whatever
    happened. The file system and both commands are inputs: only their
    outcomes matter. */
module ApplyPatch {
  import opened Text
  import opened Wrappers
  import opened Types
  import opened Sanitize

  /** Lines `writePatchFile` drops. */
  predicate IsIndexLine(l: string) {
    StartsWith(l, "index ")
  }

  function DropIndexLines(lines: seq<string>): (r: seq<string>)
  {
    if |lines| == 0 then []
    else (if IsIndexLine(lines[0]) then [] else [lines[0]]) + DropIndexLines(lines[1..])
  }

  /** The text `writePatchFile` writes: line endings made `\n`, then every
      `index ` line removed. */
  function PatchText(diff: string): string {
    Join(DropIndexLines(Split(NormalizeEol(diff), '\n')), "\n")
  }

  /** What the outside world does during one application. */
  datatype ApplyWorld = ApplyWorld(
    writeError: Option<string>,   // the temporary file cannot be written
    repoError: Option<string>,    // `simpleGit(repoPath)` throws (no such directory)
    gitApplies: bool,             // `git apply` succeeds
    patchExit: Option<int>,       // the `patch` command's exit code; `None` for `null`
    patchStderr: string,          // what `patch` wrote to standard error
    unlinkSucceeds: bool)         // removing the temporary file succeeds

  /** The steps taken, in order. */
  datatype Step = WritePatch(text: string) | GitApply | PatchCommand | Unlink

  /** The result (or the rejection) and the steps taken. */
  datatype ApplyRun = ApplyRun(result: Try<PatchResult>, steps: seq<Step>)

  /** The message the `patch` fallback rejects with. */
  function PatchFailure(exit: Option<int>, stderr: string): string {
    var code := match exit case None => "null" case Some(c) => IntToString(c);
    "patch command failed (exit " + code + "): " + Trim(stderr)
  }

  function Apply(diff: string, w: ApplyWorld): ApplyRun
  {
    var written := [WritePatch(PatchText(diff))];
    match w.writeError
    case Some(e) => ApplyRun(Threw(e), written)
    case None =>
      // the git handle is made before the `try`, so its failure skips the cleanup
      if w.repoError.Some? then ApplyRun(Threw(w.repoError.value), written)
      else if w.gitApplies then
        ApplyRun(Done(PatchResult(true, diff, None, None)), written + [GitApply, Unlink])
      else if w.patchExit == Some(0) then
        ApplyRun(Done(PatchResult(true, diff, None, None)), written + [GitApply, PatchCommand, Unlink])
      else
        ApplyRun(Done(PatchResult(false, diff, Some(PatchFailure(w.patchExit, w.patchStderr)), None)),
                 written + [GitApply, PatchCommand, Unlink])
  }

  /** Removing `index ` lines keeps every other line, in order, and no
      `index ` line. */
  lemma {:induction false} DropIndexLinesSpec(lines: seq<string>)
    ensures forall l :: l in DropIndexLines(lines) <==> l in lines && !IsIndexLine(l)
    decreases |lines|
  {
    if |lines| > 0 {
      DropIndexLinesSpec(lines[1..]);
      assert lines == [lines[0]] + lines[1..];
    }
  }

  /** Removal distributes over runs of lines, so the kept lines keep their order. */
  lemma {:induction false} DropIndexLinesAppend(a: seq<string>, b: seq<string>)
    ensures DropIndexLines(a + b) == DropIndexLines(a) + DropIndexLines(b)
    decreases |a|
  {
    if |a| == 0 {
      assert a + b == b;
    } else {
      assert (a + b)[1..] == a[1..] + b;
      DropIndexLinesAppend(a[1..], b);
    }
  }

  lemma {:induction false} DropIndexLinesChars(lines: seq<string>, c: char)
    requires AllFree(lines, c)
    ensures AllFree(DropIndexLines(lines), c)
    decreases |lines|
  {
    if |lines| > 0 {
      DropIndexLinesChars(lines[1..], c);
    }
  }

  /** The written text has no carriage return, and its lines are exactly the
      kept lines: those of the `\n`-normalised diff without the `index `
      lines (one empty line when none is kept). */
  lemma PatchTextSpec(diff: string)
    ensures '\r' !in PatchText(diff)
    ensures var kept := DropIndexLines(Split(NormalizeEol(diff), '\n'));
      Split(PatchText(diff), '\n') == (if kept == [] then [""] else kept)
    ensures forall l :: l in Split(PatchText(diff), '\n') ==> !IsIndexLine(l)
  {
    var lines := Split(NormalizeEol(diff), '\n');
    var kept := DropIndexLines(lines);
    SplitChars(NormalizeEol(diff), '\n', '\r');
    DropIndexLinesChars(lines, '\r');
    JoinChars(kept, "\n", '\r');
    DropIndexLinesChars(lines, '\n');
    DropIndexLinesSpec(lines);
    if kept == [] {
      assert Split("", '\n') == [""];
    } else {
      SplitJoin(kept, '\n');
    }
  }

  /** The outcome of an application:
      - a failed write rejects, and nothing else is attempted;
      - so does a failure to open the repository, after the write: the
        temporary file is then left behind;
      - otherwise the result always carries the caller's diff unchanged;
      - it succeeds exactly when `git apply` or, failing that, `patch` succeeds;
      - the fallback runs exactly when `git apply` failed;
      - a double failure reports the fallback's message;
      - the file is removed last on every path that reaches the `try`. */
  lemma ApplyOutcome(diff: string, w: ApplyWorld)
    ensures var run := Apply(diff, w);
      && (run.result.Done? <==> w.writeError.None? && w.repoError.None?)
      && run.steps[0] == WritePatch(PatchText(diff))
      && (run.result.Threw? ==> run.steps == [run.steps[0]] && Unlink !in run.steps)
      && (run.result.Threw? ==>
            run.result.message == (if w.writeError.Some? then w.writeError.value else w.repoError.value))
      && (run.result.Done? ==>
        && run.result.value.diff == diff
        && run.result.value.validateError.None?
        && (run.result.value.ok <==> w.gitApplies || w.patchExit == Some(0))
        && (run.result.value.ok <==> run.result.value.applyError.None?)
        && (!run.result.value.ok ==> run.result.value.applyError == Some(PatchFailure(w.patchExit, w.patchStderr)))
        && (PatchCommand in run.steps <==> !w.gitApplies)
        && run.steps[1] == GitApply
        && run.steps[|run.steps| - 1] == Unlink)
  {
  }

  /** Whether the temporary file could be removed never changes the result. */
  lemma CleanupIrrelevant(diff: string, w: ApplyWorld, unlinkSucceeds: bool)
    ensures Apply(diff, w.(unlinkSucceeds := unlinkSucceeds)) == Apply(diff, w)
  {
  }
}

