# cursorpilot-os core, modelled in Dafny

CursorPilot takes failing tests and lint output from a demo repository. It asks a language model for a unified diff that fixes them. It cleans the answer, validates it and applies it as a patch. Then it runs the tests and lint again and shows the evidence in a desktop interface. A Logitech dial rotates through four modes: SAFE, PERF, SEC and REFACTOR.

This project models the deterministic heart of that pipeline as pure Dafny functions and proves properties about them:

- **The diff sanitiser** (`sanitizeGeminiOutput` and its helpers):
  - code fences and preamble are stripped;
  - line endings are normalised;
  - missing `diff --git` headers are synthesised;
  - stray lines between file sections are dropped;
  - hunk line counts are recounted;
  - hunks are stably sorted by old start, and their new starts are rebased.

  Modules: `Sanitize`, `GitHeaders`, `CleanDiff`, `FixHeaders`, `SortHunks`. Shared regex machinery lives in `HunkHeader`, `GitPaths`, `Cuts` and `Text`.
- **The diff validator** (`validateDiff`), module `Validator`: the ordered checks and their reasons, and the `/g` loop over header paths.
- **Patch application** (`applyPatch`), module `ApplyPatch`:
  - the normalised patch text;
  - the `git apply` → `patch` fallback;
  - the file system and processes, modelled as an `ApplyWorld` input.
- **The unified-diff parser and formatter**, module `UnifiedDiff`.
- **The evidence state machine** (`dispatch`, `handleFixAction`, `handleExplainAction`, `resetDemo`), module `ActionRouter`. It is a transition function whose collaborators are a `World` input: test and lint runs, file collection, the model's reply, the patcher, and the clock `now`.
- **Modes**:
  - `rotateMode` in module `Modes`;
  - the C# dial plug-in's index update in `ModeAdjustment`, including 32-bit wrap-around;
  - the shared types in `Types`;
  - `truncate` in `Utils`.
- **Prompt construction** (`buildUserPrompt`), module `Prompts`.
- **Parsers in the renderer**:
  - the diff viewer's `parseDiff`, module `DiffViewer`;
  - the explanation renderer's `parseBlocks`, module `Markdown`;
  - its `groupSections` and `detectSection`, module `Sections`;
  - the test panel's `classifyLine` and `parseOutput`, module `TestPanel`.

JavaScript strings are `seq<char>`. Regular expressions are written out as predicates and leftmost-match search functions, including:

- lazy versus greedy captures;
- the `m` flag's `^`;
- zero-width look-ahead splits;
- JavaScript's white-space class.

JavaScript's `%` and C#'s `%` truncate toward zero. The model writes this out as `Modes.TruncRem`.

Two behaviours of the code are worth stating plainly, and the model follows them:

- `cleanDiffBetweenFiles` keeps, outside hunks, only lines starting with `---`, `+++` or `index `. Other git metadata lines, such as mode lines, are dropped.
- `validateDiff` hardcodes the `src/` prefix and the 3000-line limit. The `ALLOWED_PATHS` and `MAX_DIFF_SIZE` constants of policy.ts are not used by it.

## Model

| member | source | states |
|---|---|---|
| Sanitize.LeadingFenceShape | packages/engine/src/llm/client.ts:191 | The opening-fence replacement leaves a suffix of its input. The input is unchanged when no fence opens it. Otherwise the result does not start with white space. |
| Sanitize.LeadingFenceRemoved | packages/engine/src/llm/client.ts:191 | A ```` ``` ```` or ```` ```diff ```` line, followed by white space, is removed, and the body after it is left intact. |
| Sanitize.TrailingFenceShape | packages/engine/src/llm/client.ts:192 | The closing-fence replacement leaves a prefix of its input, and the whole input when no closing fence matches. |
| Sanitize.TrailingFenceRemoved | packages/engine/src/llm/client.ts:192 | A closing fence after a fence-free body is removed together with the newline before it, and nothing else is. |
| Sanitize.NormalizePlain | packages/engine/src/llm/client.ts:195 | Text with no carriage return is left unchanged by the line-ending normalisation. |
| Sanitize.NormalizeCrLfLines | packages/engine/src/llm/client.ts:195 | Lines joined by CRLF normalise to the same lines joined by LF. |
| Sanitize.NormalizeCrLines | packages/engine/src/llm/client.ts:195 | Lines joined by a lone CR normalise to the same lines joined by LF. |
| Sanitize.PreambleSpec | packages/engine/src/llm/client.ts:198-203 | The result is a suffix of the input. With a `diff --git` anywhere, it starts at the first one. Otherwise, with a line starting `--- a/`, it starts at the first such line. Otherwise the text is unchanged. |
| Sanitize.PreambleIdempotent | packages/engine/src/llm/client.ts:198-203 | Stripping the preamble twice is the same as stripping it once. |
| Sanitize.FinishShape | packages/engine/src/llm/client.ts:214-219 | The result is empty exactly when the text is all white space. Otherwise it is the trimmed text plus one newline. |
| Sanitize.SanitizeShape | packages/engine/src/llm/client.ts:187-222 | The sanitised output is empty, or it starts with a non-blank character and ends in exactly one newline after a non-blank character. |
| Sanitize.SanitizeNoCr | packages/engine/src/llm/client.ts:187-222 | The sanitised output holds no carriage return. Every stage is shown to bring none back. |
| GitHeaders.WithoutInserted | packages/engine/src/llm/client.ts:167-182 | For lines without `diff --git`, deleting the `diff --git` lines from the output gives back the input lines. Only header lines are inserted. |
| GitHeaders.HeadersPrecede | packages/engine/src/llm/client.ts:172-179 | In the output, every `--- a/P` line followed by a `+++ b/` line comes directly after `diff --git a/P b/P`. |
| GitHeaders.HeadersOnlyBeforePairs | packages/engine/src/llm/client.ts:172-179 | For input without `diff --git`, every `diff --git` line of the output sits directly before a `--- a/P` line followed by a `+++ b/` line, and is `diff --git a/P b/P`. With `HeadersPrecede`, there is exactly one header per such pair and none anywhere else. |
| GitHeaders.AddHeadersInverse | packages/engine/src/llm/client.ts:167-182 | At text level, removing the inserted headers from the output restores the input diff. |
| GitHeaders.WithHeadersNoTerminator | packages/engine/src/llm/client.ts:176-177 | Synthesised headers introduce no line terminator. |
| CleanDiff.CleanLinesSelects | packages/engine/src/llm/client.ts:40-77 | The stateful `inHunk` loop equals an independent per-line selection. A line is kept by its kind and by whether an `@@` line precedes it with no `diff --git` in between. |
| CleanDiff.CleanFromSelects | packages/engine/src/llm/client.ts:44-77 | The loop from any index, with the `inHunk` flag it has there, keeps exactly the selected lines. |
| CleanDiff.SelectFromShape | packages/engine/src/llm/client.ts:48-75 | Every kept line is a git line, a hunk header, a `---`/`+++`/`index ` line, or a hunk body line. |
| FixHeaders.TallyCounts | packages/engine/src/llm/client.ts:96-105 | The counting loop stops at the next `@@` or `diff --git` line. The counts are those of the body lines on the old and new side. |
| FixHeaders.RewriteParses | packages/engine/src/llm/client.ts:108-111 | A rewritten header parses back to the same starts, the recounted counts and the same suffix. |
| FixHeaders.FixLineSpec | packages/engine/src/llm/client.ts:89-115 | Lines keep their number and position. A parsable `@@` line gets its body's old and new counts. Other lines are unchanged. |
| FixHeaders.FixKeepsRoles | packages/engine/src/llm/client.ts:89-115 | No line changes whether it starts a hunk or file section, and non-hunk lines are untouched. |
| FixHeaders.FixIdempotent | packages/engine/src/llm/client.ts:86-118 | Fixing hunk headers twice is fixing them once. |
| HunkHeader.SearchRendered | packages/engine/src/llm/client.ts:108 | A well-formed header text followed by a suffix matches the header regex with exactly that header and suffix. |
| HunkHeader.SearchSound | packages/engine/src/llm/client.ts:108 | Whatever the unanchored header regex matches is a well-formed header whose trailing capture has no line terminator. |
| SortHunks.SortChunksSpec | packages/engine/src/llm/client.ts:149 | The sort is ordered by old start and is a permutation. For every old start, the chunks carrying it keep their input order, i.e. the sort is stable. |
| SortHunks.ReplaceOnlyNewStart | packages/engine/src/llm/client.ts:156 | The replacement changes only the new-start digits, which read back as the requested value. Unmatched text is unchanged. |
| SortHunks.RebaseFormula | packages/engine/src/llm/client.ts:152-157 | The n-th rebased chunk gets new start `max(1, oldStart + Σ(newCount − oldCount))`, summed over the chunks before it. |
| SortHunks.ChunksTile | packages/engine/src/llm/client.ts:137 | The chunks of a hunk block concatenate back to the block, and each starts with `@@`. |
| SortHunks.SortSectionSpec | packages/engine/src/llm/client.ts:129-159 | In a section with an `@@` line, the text before it is kept. The rest is the tiled chunks, stably sorted and rebased. |
| SortHunks.SortNoHunks | packages/engine/src/llm/client.ts:125-161 | A diff with no line starting `@@` comes back unchanged. |
| GitPaths.LazyIff | packages/engine/src/llm/diffValidator.ts:35 | The lazy header regex reads paths `x` and `y` from a line exactly when that line is `diff --git a/x b/y` and `x` holds no inner ` b/` match. |
| GitPaths.LazyFirstPath | packages/engine/src/llm/diffValidator.ts:35 | The lazy first capture is the shortest that fits. |
| GitPaths.GreedyFirstPath | apps/desktop/src/renderer/components/DiffViewer.tsx:25 | The greedy first capture is the longest that fits. |
| Validator.PathProblemSpec | packages/engine/src/llm/diffValidator.ts:38-54 | A path has a problem exactly when it is not allowed. The reason names the path, or the blocked file name, in the source's check order. |
| Validator.CheckPathsSpec | packages/engine/src/llm/diffValidator.ts:37-57 | The paths pass exactly when all are allowed. Otherwise the reason is the first refused path's. |
| Validator.HeaderPathsSpec | packages/engine/src/llm/diffValidator.ts:35-37 | The `/g` loop finds nothing exactly when no header matches. Otherwise its first path is the leftmost match's second capture. |
| Validator.ValidateOk | packages/engine/src/llm/diffValidator.ts:13-58 | The verdict is ok, with no reason, exactly when the text is well shaped and every header path is allowed. |
| Validator.ValidateReasons | packages/engine/src/llm/diffValidator.ts:14-32 | The checks short-circuit in order: empty, missing header, fences, more than 3000 lines. Each has its own reason, and the line count is one plus the number of newlines. |
| Validator.TooLongReasonNames | packages/engine/src/llm/diffValidator.ts:31 | The too-long reason carries the line count and the limit 3000. |
| Validator.FirstHeaderJudged | packages/engine/src/llm/diffValidator.ts:37-55 | A well-shaped diff that starts with the header of a refused path is rejected with that path's problem. |
| UnifiedDiff.ParsePartSpec | packages/engine/src/patch/unifiedDiff.ts:14-25 | A piece yields an entry exactly when it starts with a header. The entry holds the whole piece and the paths its header spells. |
| UnifiedDiff.ParsePartsAppend | packages/engine/src/patch/unifiedDiff.ts:14-25 | Parsing keeps the order of the pieces. |
| UnifiedDiff.ParsePartsSound | packages/engine/src/patch/unifiedDiff.ts:14-25 | Every entry comes from a piece with a header and holds that piece whole. |
| UnifiedDiff.SplitJoined | packages/engine/src/patch/unifiedDiff.ts:12 | Sections joined by line breaks split back, at `^diff --git`, into each section with its line break. |
| UnifiedDiff.RoundTrip | packages/engine/src/patch/unifiedDiff.ts:10-35 | Formatting a parse and parsing it again gives the same path pairs in the same order. |
| ApplyPatch.DropIndexLinesSpec | packages/engine/src/patch/applyPatch.ts:20 | The filter keeps exactly the lines that do not start with `index `. |
| ApplyPatch.DropIndexLinesAppend | packages/engine/src/patch/applyPatch.ts:20 | The filter distributes over concatenation, so the kept lines keep their order. |
| ApplyPatch.PatchTextSpec | packages/engine/src/patch/applyPatch.ts:14-24 | The written patch has no CR. Its lines are the LF-normalised diff's lines without the `index ` lines. |
| ApplyPatch.ApplyOutcome | packages/engine/src/patch/applyPatch.ts:48-68 | A failed write rejects with nothing else attempted. A `simpleGit(repoPath)` failure after the write also rejects, before the `try`, so the temporary file is not removed. Otherwise the result carries the caller's diff and succeeds exactly when `git apply` or `patch` does. The fallback runs exactly when `git apply` failed, a double failure reports the fallback's message, and cleanup comes last. |
| ApplyPatch.CleanupIrrelevant | packages/engine/src/patch/applyPatch.ts:66 | An illustration of the swallowed cleanup error: whether the temporary file could be removed never changes the result or the steps. |
| Modes.TruncRem | packages/engine/src/actions/modes.ts:9 | The truncating remainder stays strictly between −n and n and keeps the sign of the dividend: non-negative for a non-negative one, non-positive for a negative one. It is congruent to the dividend. |
| Modes.RotateSpec | packages/engine/src/actions/modes.ts:7-11 | Rotation by `delta` is stepping `delta` places round `ALL_MODES`, for negative deltas too. |
| Modes.RotateZero | packages/engine/src/actions/modes.ts:7-11 | A zero delta keeps the current mode. |
| Modes.RotatePeriodic | packages/engine/src/actions/modes.ts:7-11 | Rotating by `delta` and by `delta + 4` lands on the same mode. |
| Modes.RotateBack | packages/engine/src/actions/modes.ts:7-11 | A step forward and then one back returns to the start. |
| Modes.RotateForward | packages/engine/src/actions/modes.ts:7-11 | A step back and then one forward returns to the start. |
| Modes.RotateWraps | packages/engine/src/actions/modes.ts:7-11 | The ends wrap: REFACTOR steps to SAFE, and SAFE steps back to REFACTOR. |
| ModeAdjustment.Add32 | plugins/cursorpilot-actions-plugin/CursorPilotPlugin/Actions/ModeAdjustment.cs:31 | C# unchecked `int` addition is congruent to the true sum modulo 2^32. |
| ModeAdjustment.AdjustSpec | plugins/cursorpilot-actions-plugin/CursorPilotPlugin/Actions/ModeAdjustment.cs:28-32 | The new index lies in 0..3 and is the old one moved by `ticks` modulo 4. Wrap-around of the sum does not disturb it. |
| ModeAdjustment.AdjustZero | plugins/cursorpilot-actions-plugin/CursorPilotPlugin/Actions/ModeAdjustment.cs:28-32 | Zero ticks leave an in-range index where it is. |
| ModeAdjustment.AdjustPeriodic | plugins/cursorpilot-actions-plugin/CursorPilotPlugin/Actions/ModeAdjustment.cs:31 | `ticks` and `ticks + 4` give the same index. |
| ModeAdjustment.AdjustFollowsRotation | plugins/cursorpilot-actions-plugin/CursorPilotPlugin/Actions/ModeAdjustment.cs:15 | One tick forward names the mode `rotateMode` steps to, so the plug-in and the engine cycle in the same order. |
| Types.AllModesDistinct | packages/shared/src/types.ts:4 | `ALL_MODES` lists four distinct modes, and `indexOf` inverts indexing. |
| Utils.TruncateSpec | packages/shared/src/utils.ts:2-5 | A string that fits is unchanged, and for a positive limit only such a string is. A longer one comes back exactly `maxLen` long, agreeing with the input on its first `maxLen − 1` characters and ending in `…`. |
| Utils.TruncateBound | packages/shared/src/utils.ts:2-5 | For a positive limit the result never exceeds it. |
| Utils.TruncateIdempotent | packages/shared/src/utils.ts:2-5 | For a positive limit, truncating twice is truncating once. |
| Utils.TruncateNonPositive | packages/shared/src/utils.ts:4 | For a limit below one, the negative slice end counts from the back, so the result can be longer than the limit. |
| Prompts.FileContextSmall | packages/engine/src/llm/prompts.ts:32-34 | No files give an empty context. One file gives `--- path ---`, a newline and its content. |
| Prompts.FileContextAppend | packages/engine/src/llm/prompts.ts:32-34 | The context of two non-empty runs of files is their two contexts separated by a blank line, so the entries keep input order. |
| Prompts.ExplainPrompt | packages/engine/src/llm/prompts.ts:36-62 | The explain prompt starts with the file context and contains both the Issues Found and Fixes templates. |
| Prompts.FixPrompt | packages/engine/src/llm/prompts.ts:64-71 | The fix prompt puts the failing test output after the file context and ends with `Mode: ` and the mode. |
| Prompts.LintOnly | packages/engine/src/llm/prompts.ts:40 | In both modes, the lint output affects the prompt only through its own section, which is empty exactly when the lint output is empty. |
| ActionRouter.RotateEvent | packages/engine/src/actions/actionRouter.ts:33-41 | A rotation steps the mode one place, forward for a positive delta and back otherwise. It records the event and leaves the run's fields alone. |
| ActionRouter.PressKeepsMode | packages/engine/src/actions/actionRouter.ts:45-51 | A button press keeps the mode and the last event, and stamps the time. |
| ActionRouter.NewlineNoop | packages/engine/src/actions/actionRouter.ts:94-96 | Sanitised output already ends in a newline or is empty, so the newline step never changes it. |
| ActionRouter.FinalNewline | packages/engine/src/actions/actionRouter.ts:94-96 | The newline step keeps empty text empty and otherwise ends it with exactly one added or existing line break. |
| ActionRouter.FixAlreadyPassing | packages/engine/src/actions/actionRouter.ts:69-80 | Passing tests and lint give PASS with no diff or patch, whatever the model or patcher would do. |
| ActionRouter.GeneratedIsSanitized | packages/engine/src/actions/actionRouter.ts:86-96 | The generated diff is the sanitised reply to the fix prompt, and that prompt always holds a lint section. |
| ActionRouter.FixThrown | packages/engine/src/actions/actionRouter.ts:141-151 | An error thrown while collecting, generating or applying ends in ERROR. The message is recorded as the apply error of an empty patch. |
| ActionRouter.FixError | packages/engine/src/actions/actionRouter.ts:60-155 | A fix run ends in ERROR exactly when something threw, validation failed, or the patch did not apply. |
| ActionRouter.FixRejected | packages/engine/src/actions/actionRouter.ts:99-109 | A rejected diff is stored with the validator's reason and status ERROR. The patcher and the re-runs are never consulted. |
| ActionRouter.FixApplied | packages/engine/src/actions/actionRouter.ts:112-140 | A failed application is stored with ERROR. A successful one records the fresh runs and is PASS exactly when both pass, FAIL otherwise. |
| ActionRouter.ExplainOutcome | packages/engine/src/actions/actionRouter.ts:160-191 | The explanation is the trimmed reply and records the test run. Lint, diff and patch are untouched, and an error becomes the explanation with ERROR. |
| ActionRouter.ResetRestores | packages/engine/src/actions/actionRouter.ts:19-23 | A successful reset gives the initial evidence stamped now, whatever came before. A failed revert changes nothing. |
| TestPanel.ClassifyRules | apps/desktop/src/renderer/components/TestPanel.tsx:15-23 | Each of the four kinds, stated as an iff over the rules in source order. The `PASS`/`FAIL`-with-space rule is unreachable. |
| TestPanel.ClassifyTrimmed | apps/desktop/src/renderer/components/TestPanel.tsx:16 | Leading and trailing white space never changes a line's kind. |
| TestPanel.PassFirst | apps/desktop/src/renderer/components/TestPanel.tsx:17 | A trimmed line containing `passed` is a pass line, whatever failure words it also holds. |
| TestPanel.ParseOutputLines | apps/desktop/src/renderer/components/TestPanel.tsx:25-30 | Parsing keeps every line in order, and joining the texts gives the output back. Each line carries its own kind, never `heading`. |
| Markdown.BlankMeaning | apps/desktop/src/renderer/components/MarkdownRenderer.tsx:125 | A line is skipped as blank exactly when its trim is empty. |
| Markdown.FenceMeaning | apps/desktop/src/renderer/components/MarkdownRenderer.tsx:128 | A line opens a fence exactly when its trim starts with three backticks. |
| Markdown.BlockParses | apps/desktop/src/renderer/components/MarkdownRenderer.tsx:123-153 | A renderable block's lines, before a blank line or the end, parse back to exactly that block. |
| Markdown.ParseRendered | apps/desktop/src/renderer/components/MarkdownRenderer.tsx:118-155 | Rendering renderable blocks, blank-line separated, and parsing the text gives the blocks back: headings, bullets with indent, code with language, paragraphs. |
| Sections.DetectSectionSpec | apps/desktop/src/renderer/components/MarkdownRenderer.tsx:65-72 | The warning look exactly when "issue", "problem" or "bug" occurs in the lower-cased title; the check mark exactly when none of those but "fix", "solution" or "change" does; the pin exactly when none of the six does. |
| Sections.DetectIgnoresCase | apps/desktop/src/renderer/components/MarkdownRenderer.tsx:66 | The look does not depend on the letter case of the title. |
| Sections.BugFixIsIssue | apps/desktop/src/renderer/components/MarkdownRenderer.tsx:67-70 | The issue words are tested first, so "Bug Fix" is an issue card. |
| Sections.GroupSectionsUngroup | apps/desktop/src/renderer/components/MarkdownRenderer.tsx:74-89 | When no level-2 title is empty, writing each section back as its title heading and its blocks gives the input blocks. Nothing is lost, added or reordered. |
| Sections.EmptyTitleDropped | apps/desktop/src/renderer/components/MarkdownRenderer.tsx:80 | An empty level-2 title is falsy, so its empty section is dropped. |
| Sections.GroupSectionsShape | apps/desktop/src/renderer/components/MarkdownRenderer.tsx:74-89 | Every section is non-empty or titled, holds no level-2 heading and carries its title's look. Only the first section can be untitled. |
| DiffViewer.FilesInOrder | apps/desktop/src/renderer/components/DiffViewer.tsx:23-30 | There is one file per `diff --git` line, in order, named by the greedy second path or else by the whole line. |
| DiffViewer.PreambleIgnored | apps/desktop/src/renderer/components/DiffViewer.tsx:31 | Lines before the first `diff --git` line yield no file and leave the counters at zero. |
| DiffViewer.OutsideHunkIgnored | apps/desktop/src/renderer/components/DiffViewer.tsx:31-42 | While no hunk is open, lines that are neither `diff --git` nor `@@` lines change nothing. This covers a file's lines before its first `@@`. |
| DiffViewer.CountsMatchLines | apps/desktop/src/renderer/components/DiffViewer.tsx:44-49 | Each file's added and removed counters equal the number of add and remove lines in its hunks. |
| DiffViewer.LinesNumbered | apps/desktop/src/renderer/components/DiffViewer.tsx:34-52 | Every shown line is numbered from its hunk header's starts. The old number is the start plus the preceding old-side lines, the new number likewise, and the other side is null. |
| DiffViewer.BodyLineRestores | apps/desktop/src/renderer/components/DiffViewer.tsx:44-52 | For lines starting with `+`, `-` or a space, the kind's marker plus the content gives back the line. |
| DiffViewer.DashedRemovalDropped | apps/desktop/src/renderer/components/DiffViewer.tsx:32 | The `--- ` skip applies inside hunks too, so a removed line whose text starts `-- ` is not shown and changes no state. |

## Left out

- I/O and collaborators become inputs:
  - the file system, `git`, the `patch` process, the language model and its network calls, file collection, the test and lint runners, the clock and random file names;
  - `ApplyPatch` takes an `ApplyWorld` and `ActionRouter` takes a `World`;
  - `generateDiff`'s and `explainIssue`'s HTTP calls are the `reply` function.
- `sleep` in utils.ts is a timer with no logic to model.
- Console logging in the C# plug-in and the call to `/api/mode` are I/O.
- Rendering is left out:
  - the React components in DiffViewer.tsx, MarkdownRenderer.tsx and TestPanel.tsx;
  - `renderBlock` and `renderInline`;
  - the summary counts of MarkdownRenderer.tsx lines 28-30, which are rendering arithmetic.

  The parsers they render are modelled.
- TestPanel's joining of stdout and stderr (line 37) is display glue. `ParseOutput` is modelled on whatever text it is given.
- ActionRouter.GetEvidence: the module-level mutable `evidence` and the copies `getEvidence` hands out are immaterial for immutable values, so the state is threaded through explicitly.
- ActionRouter.HandleFix: the handler is one atomic transition. The source publishes an intermediate `status: 'RUNNING'` with a fresh `updatedAt` before its first await (actionRouter.ts line 60), which `GET /api/evidence` can observe meanwhile (httpServer.ts lines 55-57). The model's result overwrites that state on every path, so the intermediate state is not modelled.
- ActionRouter.HandleFix: concurrent dispatches are not modelled. In the source, an event handled during the awaits, such as a rotation, changes the shared `evidence`, and the handler's final `{...evidence, …}` keeps that change. The model starts from the state the handler was called with and keeps its mode. The same holds for ActionRouter.HandleExplain.
- Sections.DetectSectionSpec: `toLowerCase` is modelled for the ASCII letters only. Titles with non-ASCII upper-case letters may be classified differently by the full Unicode mapping.
- DiffViewer.LinesNumbered: `parseInt` on huge digit runs loses precision beyond 2^53 in JavaScript. The model uses exact naturals, and so do all hunk-header numbers in `HunkHeader` and `SortHunks`.
- `String.length` and slicing count UTF-16 code units. The model counts `char`s, which differ only for characters outside the Basic Multilingual Plane, for example emoji in `truncate`.
- TestPanel.ClassifyRules: the `PASS`/`FAIL`-followed-by-space rule is unreachable, since a trimmed line starting with `PASS` or `FAIL` is caught earlier. It is stated as dead rather than modelled separately.
- Markdown.ParseRendered: the `if (para.length)` guard always holds, because the paragraph loop starts on a line that no earlier rule took. The round trip is stated for renderable blocks; text a renderer would not produce can parse in other ways.
- Sections.GroupSectionsUngroup: requires that no level-2 heading has an empty title. Such a section with no blocks is dropped together with its heading, as Sections.EmptyTitleDropped shows.
