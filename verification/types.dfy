/** The shared data types (types.ts): modes, console events, patch and run
    results and the evidence record the interface shows. */
module Types {
  import opened Wrappers

  datatype Mode = SAFE | PERF | SEC | REFACTOR

  /** `ALL_MODES`, in rotation order. */
  const AllModes: seq<Mode> := [SAFE, PERF, SEC, REFACTOR]

  /** The string a mode is written as. */
  function ModeName(m: Mode): string {
    match m
    case SAFE => "SAFE"
    case PERF => "PERF"
    case SEC => "SEC"
    case REFACTOR => "REFACTOR"
  }

  /** `ALL_MODES.indexOf(m)`: every mode has a place in the list. */
  function ModeIndex(m: Mode): (i: nat)
    ensures i < |AllModes| && AllModes[i] == m
  {
    match m
    case SAFE => 0
    case PERF => 1
    case SEC => 2
    case REFACTOR => 3
  }

  /** `ALL_MODES` lists four modes, each once: indexing and `indexOf` are
      inverse to each other. */
  lemma AllModesDistinct()
    ensures |AllModes| == 4
    ensures forall i :: 0 <= i < |AllModes| ==> ModeIndex(AllModes[i]) == i
    ensures forall i, j :: 0 <= i < j < |AllModes| ==> AllModes[i] != AllModes[j]
  {
  }

  datatype ButtonId = A | B

  /** `ActionEvent`: a dial rotation or a button press. The source's `delta`
      is a JavaScript number, which may also be fractional or NaN; only its
      sign is ever looked at (a positive delta steps forward, anything else,
      NaN included, steps back), so an integer stands for it here. */
  datatype ActionEvent = Rotate(delta: int) | Press(buttonId: ButtonId)

  /** `PatchResult`; the optional fields are `None` when absent. */
  datatype PatchResult = PatchResult(ok: bool, diff: string, applyError: Option<string>, validateError: Option<string>)

  /** `RunResult` of a test or lint run. */
  datatype RunResult = RunResult(ok: bool, exitCode: int, stdout: string, stderr: string)

  datatype Status = IDLE | RUNNING | PASS | FAIL | ERROR

  /** `EvidenceState`; `null` fields and the absent `lastEvent` are `None`. */
  datatype EvidenceState = EvidenceState(
    mode: Mode,
    status: Status,
    lastEvent: Option<ActionEvent>,
    diff: Option<string>,
    patchResult: Option<PatchResult>,
    testResult: Option<RunResult>,
    lintResult: Option<RunResult>,
    explanation: Option<string>,
    updatedAt: int)

  /** `INITIAL_EVIDENCE`, stamped with the clock reading `now`. */
  function InitialEvidence(now: int): (r: EvidenceState)
    ensures r.mode == AllModes[0] && r.status == IDLE && r.lastEvent.None?
    ensures r.diff.None? && r.patchResult.None? && r.testResult.None?
    ensures r.lintResult.None? && r.explanation.None? && r.updatedAt == now
  {
    EvidenceState(SAFE, IDLE, None, None, None, None, None, None, now)
  }
}
