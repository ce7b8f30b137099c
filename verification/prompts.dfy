/** `buildUserPrompt` (prompts.ts): the text sent to the model, built from
    the source files, the test output, the lint output and the mode. */
module Prompts {
  import opened Text

  /** A collected source file: its path and its content. */
  datatype CollectedFile = CollectedFile(path: string, content: string)

  function FileEntry(f: CollectedFile): string {
    "--- " + f.path + " ---\n" + f.content
  }

  function FileEntries(files: seq<CollectedFile>): (r: seq<string>)
    ensures |r| == |files| && forall i :: 0 <= i < |files| ==> r[i] == FileEntry(files[i])
  {
    seq(|files|, i requires 0 <= i < |files| => FileEntry(files[i]))
  }

  /** Every file rendered as `--- path ---` and its content, blank-line separated. */
  function FileContext(files: seq<CollectedFile>): string {
    Join(FileEntries(files), "\n\n")
  }

  /** The lint section; an absent lint output (`undefined`) behaves as the
      empty one, since only its truthiness is tested. */
  function LintSection(lintOutput: string): string {
    if lintOutput != "" then "\n\nHere is the lint output:\n\n" + lintOutput else ""
  }

  const Intro := "Here are the source files:\n\n"

  /** The fixed lines of the explain template after the lint section. */
  const ExplainTemplate: seq<string> := [
    "\n\nAnalyze the code and produce a STRUCTURED explanation using this exact format:",
    "",
    "## Issues Found",
    "",
    "For EACH file that has problems, write:",
    "",
    "### `filename.js`",
    "- Bullet describing each issue",
    "- Use `inline code` for variable/function names",
    "",
    "## Fixes",
    "",
    "For EACH file that needs fixing, write:",
    "",
    "### `filename.js`",
    "- Describe each fix clearly",
    "- Show the before \U{2192} after using `old code` \U{2192} `new code`",
    "",
    "If a file has no issues, mention it briefly at the end.",
    "Be concise but thorough. Use markdown formatting (##, ###, `, **, -)."
  ]

  /** The fix prompt's text before the lint section. */
  function FixHead(context: string, testOutput: string): string {
    Intro + context + "\n\nHere is the failing test output:\n\n" + testOutput
  }

  const ModuleNote := "\n\nIMPORTANT: These files use CommonJS (require/module.exports). Do NOT convert to ES modules."
  const GenerateRequest := "\n\nGenerate a COMPLETE unified diff that fixes ALL the issues above. "

  /** The fix prompt's text after the lint section. */
  function FixTail(mode: string): string {
    ModuleNote + GenerateRequest + ("Mode: " + mode)
  }

  function BuildUserPrompt(testOutput: string, lintOutput: string, files: seq<CollectedFile>, mode: string): string {
    var context := FileContext(files);
    if mode == "explain" then
      Join([Intro + context, "\n\nHere is the test output:\n\n" + testOutput, LintSection(lintOutput)]
           + ExplainTemplate, "\n")
    else
      FixHead(context, testOutput) + LintSection(lintOutput) + FixTail(mode)
  }

  /** The file context of two runs of files is their contexts, blank-line
      separated: entries stay in input order. */
  lemma FileContextAppend(a: seq<CollectedFile>, b: seq<CollectedFile>)
    requires |a| >= 1 && |b| >= 1
    ensures FileContext(a + b) == FileContext(a) + "\n\n" + FileContext(b)
  {
    assert FileEntries(a + b) == FileEntries(a) + FileEntries(b);
    JoinAppend(FileEntries(a), FileEntries(b), "\n\n");
  }

  /** No files give an empty context, one file gives its entry. */
  lemma FileContextSmall(f: CollectedFile)
    ensures FileContext([]) == ""
    ensures FileContext([f]) == "--- " + f.path + " ---\n" + f.content
  {
    assert FileEntries([f]) == [FileEntry(f)];
  }

  /** The explain prompt starts with the file context and holds both
      section templates. */
  lemma ExplainPrompt(testOutput: string, lintOutput: string, files: seq<CollectedFile>)
    ensures var p := BuildUserPrompt(testOutput, lintOutput, files, "explain");
      && StartsWith(p, Intro + FileContext(files))
      && Contains(p, "## Issues Found") && Contains(p, "## Fixes")
  {
    var parts := [Intro + FileContext(files), "\n\nHere is the test output:\n\n" + testOutput, LintSection(lintOutput)]
      + ExplainTemplate;
    JoinStartsWith(parts, "\n");
    assert parts[5] == "## Issues Found" && parts[13] == "## Fixes";
    JoinContains(parts, "\n", 5, "## Issues Found");
    JoinContains(parts, "\n", 13, "## Fixes");
  }

  /** The fix prompt puts the failing test output after the file context
      and ends with the mode. */
  lemma FixPrompt(testOutput: string, lintOutput: string, files: seq<CollectedFile>, mode: string)
    requires mode != "explain"
    ensures var p := BuildUserPrompt(testOutput, lintOutput, files, mode);
      && StartsWith(p, Intro + FileContext(files) + "\n\nHere is the failing test output:\n\n" + testOutput)
      && EndsWith(p, "Mode: " + mode)
  {
    var head := FixHead(FileContext(files), testOutput);
    var tail := FixTail(mode);
    assert BuildUserPrompt(testOutput, lintOutput, files, mode) == head + LintSection(lintOutput) + tail;
    assert tail == (ModuleNote + GenerateRequest) + ("Mode: " + mode);
    PrefixSuffix(head, LintSection(lintOutput), ModuleNote + GenerateRequest, "Mode: " + mode);
  }

  lemma PrefixSuffix(a: string, b: string, c: string, d: string)
    ensures StartsWith(a + b + (c + d), a) && EndsWith(a + b + (c + d), d)
  {
    var s := a + b + (c + d);
    assert s[..|a|] == a;
    assert s[|s| - |d|..] == d;
  }

  /** The prompt text before the lint section; it does not depend on the
      lint output. */
  function PromptBefore(testOutput: string, files: seq<CollectedFile>, mode: string): string {
    if mode == "explain" then
      Intro + FileContext(files) + "\n" + ("\n\nHere is the test output:\n\n" + testOutput) + "\n"
    else FixHead(FileContext(files), testOutput)
  }

  /** The prompt text after the lint section. */
  function PromptAfter(mode: string): string {
    if mode == "explain" then "\n" + Join(ExplainTemplate, "\n") else FixTail(mode)
  }

  /** The lint output affects the prompt only through its own section,
      which is empty exactly when the lint output is, in both modes. */
  lemma LintOnly(testOutput: string, lintOutput: string, files: seq<CollectedFile>, mode: string)
    ensures LintSection(lintOutput) == "" <==> lintOutput == ""
    ensures BuildUserPrompt(testOutput, lintOutput, files, mode)
      == PromptBefore(testOutput, files, mode) + LintSection(lintOutput) + PromptAfter(mode)
  {
    if mode == "explain" {
      ExplainAround(testOutput, lintOutput, files);
    }
  }

  lemma ExplainAround(testOutput: string, lint: string, files: seq<CollectedFile>)
    ensures BuildUserPrompt(testOutput, lint, files, "explain")
      == (Intro + FileContext(files) + "\n" + ("\n\nHere is the test output:\n\n" + testOutput) + "\n")
         + LintSection(lint) + ("\n" + Join(ExplainTemplate, "\n"))
  {
    JoinThreeThen(Intro + FileContext(files), "\n\nHere is the test output:\n\n" + testOutput,
      LintSection(lint), ExplainTemplate, "\n");
  }

  lemma JoinThreeThen(x: string, y: string, z: string, rest: seq<string>, sep: string)
    requires |rest| >= 1
    ensures Join([x, y, z] + rest, sep) == (x + sep + y + sep) + z + (sep + Join(rest, sep))
  {
    JoinAppend([x, y, z], rest, sep);
    JoinThree(x, y, z, sep);
  }

  lemma JoinThree(x: string, y: string, z: string, sep: string)
    ensures Join([x, y, z], sep) == x + sep + y + sep + z
  {
    JoinTwo(y, z, sep);
    assert [x, y, z][1..] == [y, z];
  }

  lemma JoinTwo(y: string, z: string, sep: string)
    ensures Join([y, z], sep) == y + sep + z
  {
    assert [y, z][1..] == [z];
  }
}
