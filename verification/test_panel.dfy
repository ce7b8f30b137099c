/** The test panel's reading of runner output (TestPanel.tsx): the output is
    cut into lines and every line is classified by its trimmed text. */
module TestPanel {
  import opened Text

  /** `OutputLine['type']`. */
  datatype LineKind = PassLine | FailLine | InfoLine | PlainLine | HeadingLine

  datatype OutputLine = OutputLine(text: string, kind: LineKind)

  /** `✓`, `✔`, `PASS` at the start or `passed` anywhere. */
  predicate PassMark(t: string) {
    || StartsWith(t, "\U{2713}") || StartsWith(t, "\U{2714}")
    || StartsWith(t, "PASS") || Contains(t, "passed")
  }

  /** `✗`, `✘`, `FAIL` at the start, or `failed` or `Error` anywhere. */
  predicate FailMark(t: string) {
    || StartsWith(t, "\U{2717}") || StartsWith(t, "\U{2718}")
    || StartsWith(t, "FAIL") || Contains(t, "failed") || Contains(t, "Error")
  }

  /** The summary lines of a test runner and shell prompts. */
  predicate InfoMark(t: string) {
    || StartsWith(t, "Test Suites:") || StartsWith(t, "Tests:")
    || StartsWith(t, "Time:") || StartsWith(t, ">")
  }

  /** `/^\s*(PASS|FAIL)\s/`. */
  predicate SpacedVerdict(t: string) {
    var k := LeadingSpace(t);
    && (OccursAt(t, "PASS", k) || OccursAt(t, "FAIL", k))
    && k + 4 < |t| && IsSpace(t[k + 4])
  }

  /** `s?\s` at `j`: white space, or an `s` and then white space. */
  predicate PluralThenSpace(t: string, j: nat) {
    || (j < |t| && IsSpace(t[j]))
    || (j + 1 < |t| && t[j] == 's' && IsSpace(t[j + 1]))
  }

  /** `/words?\s/`: the word, an optional `s`, then white space. */
  predicate WordThenSpace(t: string, w: string) {
    exists k: nat | k <= |t| :: OccursAt(t, w, k) && PluralThenSpace(t, k + |w|)
  }

  /** `s?\s*\(` at `j`. The optional `s` is taken when present: without it
      the next character would be that `s`, which is neither white space nor
      a parenthesis. */
  predicate ParenAfter(t: string, j: nat) {
    j <= |t| &&
    var j2 := if j < |t| && t[j] == 's' then j + 1 else j;
    var e := j2 + LeadingSpace(t[j2..]);
    e < |t| && t[e] == '('
  }

  /** `/problems?\s*\(/`. */
  predicate ProblemCount(t: string) {
    exists k: nat | k <= |t| :: OccursAt(t, "problem", k) && ParenAfter(t, k + 7)
  }

  /** The linter's summary words. */
  predicate LintWord(t: string) {
    ProblemCount(t) || WordThenSpace(t, "error") || WordThenSpace(t, "warning")
  }

  /** The rules in the source's order, applied to a trimmed line. */
  function Kind(t: string): (r: LineKind)
    ensures r != HeadingLine
  {
    if PassMark(t) then PassLine
    else if FailMark(t) then FailLine
    else if InfoMark(t) then InfoLine
    else if SpacedVerdict(t) then (if StartsWith(t, "PASS") then PassLine else FailLine)
    else if LintWord(t) then FailLine
    else PlainLine
  }

  /** `classifyLine`: the kind of the trimmed line. */
  function ClassifyLine(line: string): (r: LineKind)
    ensures r != HeadingLine
  {
    Kind(Trim(line))
  }

  /** `parseOutput`: one classified entry per line. */
  function ParseOutput(raw: string): (r: seq<OutputLine>)
  {
    var lines := Split(raw, '\n');
    seq(|lines|, k requires 0 <= k < |lines| => OutputLine(lines[k], ClassifyLine(lines[k])))
  }

  function Texts(r: seq<OutputLine>): seq<string> {
    seq(|r|, k requires 0 <= k < |r| => r[k].text)
  }

  /** The classification written as the ordered list of rules it amounts to:
      the `^\s*(PASS|FAIL)\s` rule is never reached, because the line it
      tests is trimmed and so starts with `PASS` or `FAIL` itself, which the
      first two rules already catch. */
  lemma ClassifyRules(line: string)
    ensures var t := Trim(line);
      && (ClassifyLine(line) == PassLine <==> PassMark(t))
      && (ClassifyLine(line) == FailLine <==>
            !PassMark(t) && (FailMark(t) || (!InfoMark(t) && LintWord(t))))
      && (ClassifyLine(line) == InfoLine <==> !PassMark(t) && !FailMark(t) && InfoMark(t))
      && (ClassifyLine(line) == PlainLine <==>
            !PassMark(t) && !FailMark(t) && !InfoMark(t) && !LintWord(t))
  {
    var t := Trim(line);
    if SpacedVerdict(t) {
      assert LeadingSpace(t) == 0;
      assert t[0..4] == t[..4];
    }
  }

  /** Only the trimmed text matters: leading and trailing white space never
      changes a line's kind. */
  lemma ClassifyTrimmed(line: string)
    ensures ClassifyLine(Trim(line)) == ClassifyLine(line)
  {
    TrimIdempotent(line);
  }

  /** The pass rule wins over every failure word: a runner summary that
      reports both passed and failed tests is shown as passing. */
  lemma PassFirst(line: string)
    requires Contains(Trim(line), "passed")
    ensures ClassifyLine(line) == PassLine
  {
  }

  /** Parsing keeps every line of the output, in order and unchanged, so
      joining the texts back gives the output; each carries its line's kind. */
  lemma ParseOutputLines(raw: string)
    ensures |ParseOutput(raw)| == |Split(raw, '\n')|
    ensures Join(Texts(ParseOutput(raw)), "\n") == raw
    ensures forall k :: 0 <= k < |ParseOutput(raw)| ==>
      ParseOutput(raw)[k].kind == ClassifyLine(ParseOutput(raw)[k].text) != HeadingLine
  {
    assert Texts(ParseOutput(raw)) == Split(raw, '\n');
  }
}
