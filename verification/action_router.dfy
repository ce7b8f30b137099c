/** The evidence state machine (actionRouter.ts) as a transition function:
    an event and the outcomes of everything the router calls — test and lint
    runs, file collection, the model, patch application — give the next
    evidence state. `now` is the clock reading the state is stamped with. */
module ActionRouter {
  import opened Text
  import opened Wrappers
  import opened Types
  import opened Modes
  import opened Prompts
  import opened Sanitize
  import opened Validator
  import opened ApplyPatch

  /** The outcomes of the collaborators during one event. */
  datatype World = World(
    test: RunResult,                       // the first test run
    lint: RunResult,                       // the first lint run
    files: Try<seq<CollectedFile>>,        // the collected source files
    reply: string -> Try<string>,          // the model's answer to a prompt
    apply: ApplyWorld,                     // what applying the patch meets
    retest: RunResult,                     // the test run after a patch
    relint: RunResult)                     // the lint run after a patch

  /** The output handed to the model: standard output, a line break,
      standard error. */
  function Output(r: RunResult): string {
    r.stdout + "\n" + r.stderr
  }

  /** `getEvidence`: a copy of the state, which for an immutable value is the
      state itself. */
  function GetEvidence(e: EvidenceState): EvidenceState {
    e
  }

  /** `resetDemo`: once the repository is reverted, the initial evidence
      stamped `now`; a failed revert rejects and leaves the state alone. */
  function ResetDemo(e: EvidenceState, revertError: Option<string>, now: int): (EvidenceState, Try<EvidenceState>) {
    match revertError
    case Some(m) => (e, Threw(m))
    case None => (InitialEvidence(now), Done(InitialEvidence(now)))
  }

  /** `if (rawDiff.length > 0 && !rawDiff.endsWith('\n')) rawDiff += '\n'`. */
  function WithFinalNewline(s: string): (r: string)
  {
    if |s| > 0 && !EndsWith(s, "\n") then s + "\n" else s
  }

  /** The fix prompt: both outputs, the files and the current mode. */
  function FixRequest(e: EvidenceState, w: World, files: seq<CollectedFile>): string {
    BuildUserPrompt(Output(w.test), Output(w.lint), files, ModeName(e.mode))
  }

  /** `generateDiff` and the newline step: the files are collected, the model
      asked, its answer sanitised and given a final line break. */
  function GeneratedDiff(e: EvidenceState, w: World): Try<string> {
    match w.files
    case Threw(m) => Threw(m)
    case Done(files) =>
      match w.reply(FixRequest(e, w, files))
      case Threw(m) => Threw(m)
      case Done(text) => Done(WithFinalNewline(Sanitize.Sanitize(text)))
  }

  /** The state after an error was thrown in the fix path. */
  function Crashed(e: EvidenceState, message: string, now: int): EvidenceState {
    e.(status := ERROR, patchResult := Some(PatchResult(false, "", Some(message), None)), updatedAt := now)
  }

  /** Button A: test, lint, generate a diff, validate it, apply it, test and
      lint again. */
  function HandleFix(e: EvidenceState, w: World, now: int): EvidenceState {
    var running := e.(status := RUNNING);
    if w.test.ok && w.lint.ok then
      running.(status := PASS, testResult := Some(w.test), lintResult := Some(w.lint),
               diff := None, patchResult := None, updatedAt := now)
    else
      match GeneratedDiff(e, w)
      case Threw(m) => Crashed(running, m, now)
      case Done(rawDiff) =>
        var validation := ValidateDiff(rawDiff);
        if !validation.ok then
          running.(status := ERROR, diff := Some(rawDiff),
                   patchResult := Some(PatchResult(false, rawDiff, None, validation.reason)), updatedAt := now)
        else
          match Apply(rawDiff, w.apply).result
          case Threw(m) => Crashed(running, m, now)
          case Done(patchResult) =>
            if !patchResult.ok then
              running.(status := ERROR, diff := Some(rawDiff), patchResult := Some(patchResult), updatedAt := now)
            else
              running.(status := if w.retest.ok && w.relint.ok then PASS else FAIL,
                       diff := Some(rawDiff), patchResult := Some(patchResult),
                       testResult := Some(w.retest), lintResult := Some(w.relint), updatedAt := now)
  }

  /** Button B: test, lint, collect the files and ask the model to explain. */
  function HandleExplain(e: EvidenceState, w: World, now: int): EvidenceState {
    var running := e.(status := RUNNING);
    var answer := match w.files
      case Threw(m) => Threw(m)
      case Done(files) => w.reply(BuildUserPrompt(Output(w.test), Output(w.lint), files, "explain"));
    match answer
    case Threw(m) => running.(status := ERROR, explanation := Some(m), updatedAt := now)
    case Done(text) => running.(status := IDLE, explanation := Some(Trim(text)), testResult := Some(w.test), updatedAt := now)
  }

  /** `dispatch`: a rotation steps the mode one place, forward for a positive
      delta and back otherwise; a press runs the button's handler. */
  function Dispatch(e: EvidenceState, event: ActionEvent, w: World, now: int): EvidenceState {
    match event
    case Rotate(delta) =>
      e.(mode := RotateMode(e.mode, if delta > 0 then 1 else -1), lastEvent := Some(event), updatedAt := now)
    case Press(A) => HandleFix(e, w, now)
    case Press(B) => HandleExplain(e, w, now)
  }

  /** The fields an event other than a press leaves alone. */
  predicate SameRun(e: EvidenceState, r: EvidenceState) {
    && r.status == e.status && r.diff == e.diff && r.patchResult == e.patchResult
    && r.testResult == e.testResult && r.lintResult == e.lintResult && r.explanation == e.explanation
  }

  /** A rotation moves the mode one step, records the event and touches
      nothing of the run: a zero or negative delta steps back, so a further
      step forward returns to the old mode. */
  lemma RotateEvent(e: EvidenceState, delta: int, w: World, now: int)
    ensures var r := Dispatch(e, Rotate(delta), w, now);
      && SameRun(e, r) && r.lastEvent == Some(Rotate(delta)) && r.updatedAt == now
      && (delta > 0 ==> r.mode == RotateMode(e.mode, 1))
      && (delta <= 0 ==> RotateMode(r.mode, 1) == e.mode)
  {
    RotateForward(e.mode);
  }

  /** A press leaves the mode and the last recorded event alone. */
  lemma PressKeepsMode(e: EvidenceState, b: ButtonId, w: World, now: int)
    ensures Dispatch(e, Press(b), w, now).mode == e.mode
    ensures Dispatch(e, Press(b), w, now).lastEvent == e.lastEvent
    ensures Dispatch(e, Press(b), w, now).updatedAt == now
  {
    if b == A && !(w.test.ok && w.lint.ok) && GeneratedDiff(e, w).Threw? {
      FixThrown(e, w, now);
    } else if b == A && !(w.test.ok && w.lint.ok) && GeneratedDiff(e, w).Done? {
      var d := GeneratedDiff(e, w).value;
      if ValidateDiff(d).ok && Apply(d, w.apply).result.Done? {
        FixApplied(e, w, now);
      } else if ValidateDiff(d).ok {
        FixThrown(e, w, now);
      }
    }
  }

  /** Sanitised text is empty or already ends in a line break, so the
      newline step never changes it. */
  lemma NewlineNoop(raw: string)
    ensures WithFinalNewline(Sanitize.Sanitize(raw)) == Sanitize.Sanitize(raw)
  {
    SanitizeShape(raw);
    FinishedKept(Sanitize.Sanitize(raw));
  }

  /** Finished text is left alone by the newline step. */
  lemma FinishedKept(s: string)
    requires Finished(s)
    ensures WithFinalNewline(s) == s
  {
    if |s| > 0 {
      assert s[|s| - 1..] == "\n";
    }
  }

  /** The newline step: an empty text stays empty, any other ends in a line
      break, and at most one is added. */
  lemma FinalNewline(s: string)
    ensures s == [] ==> WithFinalNewline(s) == []
    ensures s != [] ==> EndsWith(WithFinalNewline(s), "\n")
    ensures WithFinalNewline(s) == s || WithFinalNewline(s) == s + "\n"
  {
    if s != [] && !EndsWith(s, "\n") {
      assert (s + "\n")[|s|..] == "\n";
    }
  }

  /** Tests and lint that already pass end the run at once with PASS: no
      diff, no patch, and nothing asked of the model or the patcher. */
  lemma FixAlreadyPassing(e: EvidenceState, w: World, w2: World, now: int)
    requires w.test.ok && w.lint.ok
    requires w2.test == w.test && w2.lint == w.lint
    ensures var r := HandleFix(e, w, now);
      && r.status == PASS && r.diff.None? && r.patchResult.None?
      && r.testResult == Some(w.test) && r.lintResult == Some(w.lint)
      && r.mode == e.mode && r.explanation == e.explanation
    ensures HandleFix(e, w2, now) == HandleFix(e, w, now)
  {
  }

  /** The generated diff is the sanitised reply to the fix prompt, and the
      fix prompt always carries the lint section, because the lint output
      handed over always holds at least a line break. */
  lemma GeneratedIsSanitized(e: EvidenceState, w: World)
    requires w.files.Done?
    ensures w.reply(FixRequest(e, w, w.files.value)).Done? ==>
      GeneratedDiff(e, w) == Done(Sanitize.Sanitize(w.reply(FixRequest(e, w, w.files.value)).value))
    ensures w.reply(FixRequest(e, w, w.files.value)).Threw? ==>
      GeneratedDiff(e, w) == Threw(w.reply(FixRequest(e, w, w.files.value)).message)
    ensures LintSection(Output(w.lint)) != ""
  {
    if w.reply(FixRequest(e, w, w.files.value)).Done? {
      NewlineNoop(w.reply(FixRequest(e, w, w.files.value)).value);
    }
    LintOnly(Output(w.test), Output(w.lint), w.files.value, ModeName(e.mode));
    assert Output(w.lint)[|w.lint.stdout|] == '\n';
  }

  /** Any error thrown on the way — collecting files, asking the model,
      applying the patch — ends in ERROR with the message recorded as an
      apply error of an empty patch. */
  lemma FixThrown(e: EvidenceState, w: World, now: int)
    requires !(w.test.ok && w.lint.ok)
    ensures GeneratedDiff(e, w).Threw? ==>
      HandleFix(e, w, now) == Crashed(e, GeneratedDiff(e, w).message, now)
    ensures (GeneratedDiff(e, w).Done? && ValidateDiff(GeneratedDiff(e, w).value).ok
      && Apply(GeneratedDiff(e, w).value, w.apply).result.Threw?) ==>
      HandleFix(e, w, now) == Crashed(e, Apply(GeneratedDiff(e, w).value, w.apply).result.message, now)
  {
  }

  /** A fix run ends in ERROR exactly when something threw, the validator
      rejected the diff or the patcher reported failure. */
  lemma FixError(e: EvidenceState, w: World, now: int)
    requires !(w.test.ok && w.lint.ok)
    ensures HandleFix(e, w, now).status == ERROR <==>
      (|| GeneratedDiff(e, w).Threw?
       || !ValidateDiff(GeneratedDiff(e, w).value).ok
       || Apply(GeneratedDiff(e, w).value, w.apply).result.Threw?
       || !Apply(GeneratedDiff(e, w).value, w.apply).result.value.ok)
  {
    match GeneratedDiff(e, w)
    case Threw(m) =>
      assert HandleFix(e, w, now) == Crashed(e.(status := RUNNING), m, now);
    case Done(d) =>
      FixDone(e, w, now, d, ValidateDiff(d), Apply(d, w.apply).result);
  }

  /** The outcome of a generated diff, with the validator's verdict and the
      patcher's result as plain values. */
  lemma FixDone(e: EvidenceState, w: World, now: int, d: string, v: ValidationResult, a: Try<PatchResult>)
    requires !(w.test.ok && w.lint.ok) && GeneratedDiff(e, w) == Done(d)
    requires v == ValidateDiff(d) && a == Apply(d, w.apply).result
    ensures HandleFix(e, w, now).status == ERROR <==> (!v.ok || a.Threw? || !a.value.ok)
  {
  }

  /** A diff the validator rejects is stored with the rejection reason, the
      state is ERROR, and the patch is never applied and nothing re-run:
      the outcome does not depend on the patcher or the later runs. */
  lemma FixRejected(e: EvidenceState, w: World, w2: World, now: int)
    requires !(w.test.ok && w.lint.ok) && GeneratedDiff(e, w).Done?
    requires !ValidateDiff(GeneratedDiff(e, w).value).ok
    requires w2 == w.(apply := w2.apply, retest := w2.retest, relint := w2.relint)
    ensures var d := GeneratedDiff(e, w).value;
      var r := HandleFix(e, w, now);
      && r.status == ERROR && r.diff == Some(d)
      && r.patchResult == Some(PatchResult(false, d, None, ValidateDiff(d).reason))
      && ValidateDiff(d).reason.Some?
    ensures HandleFix(e, w2, now) == HandleFix(e, w, now)
  {
    ValidateOk(GeneratedDiff(e, w).value);
  }

  /** A validated diff goes to the patcher: a failed application is stored
      as it came back with ERROR; a successful one is followed by a fresh
      test and lint run, and the state is PASS exactly when both pass. */
  lemma FixApplied(e: EvidenceState, w: World, now: int)
    requires !(w.test.ok && w.lint.ok) && GeneratedDiff(e, w).Done?
    requires ValidateDiff(GeneratedDiff(e, w).value).ok
    requires Apply(GeneratedDiff(e, w).value, w.apply).result.Done?
    ensures var d := GeneratedDiff(e, w).value;
      var pr := Apply(d, w.apply).result.value;
      var r := HandleFix(e, w, now);
      && r.diff == Some(d) && r.patchResult == Some(pr)
      && (!pr.ok ==> r.status == ERROR && r.testResult == e.testResult && r.lintResult == e.lintResult)
      && (pr.ok ==> (r.status == PASS <==> w.retest.ok && w.relint.ok) && r.status != ERROR
                    && r.testResult == Some(w.retest) && r.lintResult == Some(w.relint))
  {
  }

  /** An explanation is the trimmed reply to the explain prompt, records the
      test run and leaves the lint result as it was; a thrown error becomes
      the explanation with status ERROR. The run never touches the diff or
      the patch. */
  lemma ExplainOutcome(e: EvidenceState, w: World, now: int)
    ensures var r := HandleExplain(e, w, now);
      && r.lintResult == e.lintResult && r.diff == e.diff && r.patchResult == e.patchResult
      && r.mode == e.mode && r.updatedAt == now
      && (r.status == IDLE || r.status == ERROR)
      && (w.files.Threw? ==> r.status == ERROR && r.explanation == Some(w.files.message))
      && (w.files.Done? ==>
            var answer := w.reply(BuildUserPrompt(Output(w.test), Output(w.lint), w.files.value, "explain"));
            && (answer.Done? ==> r.status == IDLE && r.explanation == Some(Trim(answer.value))
                                 && r.testResult == Some(w.test))
            && (answer.Threw? ==> r.status == ERROR && r.explanation == Some(answer.message)))
  {
  }

  /** A successful reset is the initial evidence stamped with the current
      time, whatever came before; a failed revert changes nothing. */
  lemma ResetRestores(e: EvidenceState, e2: EvidenceState, revertError: Option<string>, now: int)
    ensures revertError.None? ==>
      && ResetDemo(e, revertError, now).0 == ResetDemo(e2, revertError, now).0
      && ResetDemo(e, revertError, now).0.mode == SAFE
      && ResetDemo(e, revertError, now).0.status == IDLE
      && ResetDemo(e, revertError, now).0.updatedAt == now
      && ResetDemo(e, revertError, now).1 == Done(ResetDemo(e, revertError, now).0)
    ensures revertError.Some? ==>
      ResetDemo(e, revertError, now) == (e, Threw(revertError.value))
  {
  }
}

