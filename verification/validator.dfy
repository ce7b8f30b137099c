/** `validateDiff` (diffValidator.ts): a short-circuiting sequence of checks
    on generated diff text, each failing with a fixed reason, followed by a
    walk over every `diff --git a/X b/Y` header that vets the path `Y`. */
module Validator {
  import opened Text
  import opened Wrappers
  import opened GitPaths

  /** `ValidationResult`: `{ ok: true }` or `{ ok: false, reason }`. */
  datatype ValidationResult = ValidationResult(ok: bool, reason: Option<string>)

  const Accept := ValidationResult(true, None)

  function Reject(reason: string): ValidationResult {
    ValidationResult(false, Some(reason))
  }

  /** `BLOCKED_PATHS`: file names no change may touch. */
  const Blocked: seq<string> := ["package.json", "package-lock.json", "pnpm-lock.yaml", "yarn.lock"]

  /** `MAX_LINES`. */
  const MaxLines: nat := 3000

  const EmptyReason := "Empty diff output"
  const MissingHeaderReason := "Missing \"diff --git\" header \U{2014} not a valid unified diff"
  const FenceReason := "Contains markdown code fences \U{2014} must be raw diff only"

  function TooLongReason(count: nat): string {
    "Diff has " + NatToString(count) + " lines, exceeds limit of " + NatToString(MaxLines)
  }

  function OutsideSrcReason(path: string): string {
    "Change to \"" + path + "\" not allowed \U{2014} only src/ is permitted"
  }

  function BlockedReason(fileName: string): string {
    "Change to \"" + fileName + "\" is blocked"
  }

  function TestFileReason(path: string): string {
    "Change to test file \"" + path + "\" is blocked"
  }

  /** `diff.split('\n').length`. */
  function LineCount(s: string): nat {
    |Split(s, '\n')|
  }

  /** `filePath.split('/').pop()`: the text after the last `/`, or all of
      the path when it has none. */
  function LastSegment(p: string): (r: string)
    ensures '/' !in r && EndsWith(p, r)
    ensures |r| < |p| ==> p[|p| - |r| - 1] == '/'
    ensures |r| == |p| ==> r == p
  {
    var parts := Split(p, '/');
    var r := parts[|parts| - 1];
    if |parts| >= 2 then
      JoinLast(parts, "/");
      var front := Join(parts[..|parts| - 1], "/") + "/";
      assert p == front + r;
      assert p[|p| - |r|..] == r;
      assert p[|p| - |r| - 1] == front[|front| - 1];
      r
    else
      assert p == r;
      r
  }

  /** A test file: `__tests__`, `.test.` or `.spec.` anywhere in the path. */
  predicate IsTestPath(p: string) {
    Contains(p, "__tests__") || Contains(p, ".test.") || Contains(p, ".spec.")
  }

  /** A path every per-header check lets through. */
  predicate Allowed(p: string) {
    StartsWith(p, "src/") && LastSegment(p) !in Blocked && !IsTestPath(p)
  }

  /** The reason the checks of one header give, in their order, if any. */
  function PathProblem(p: string): (r: Option<string>)
  {
    if !StartsWith(p, "src/") then Some(OutsideSrcReason(p))
    else if LastSegment(p) in Blocked then Some(BlockedReason(LastSegment(p)))
    else if IsTestPath(p) then Some(TestFileReason(p))
    else None
  }

  /** The second paths of the headers the `/g` loop visits from `from`: each
      search resumes where the previous match ended. */
  function HeaderPaths(s: string, from: nat): (r: seq<string>)
    requires from <= |s|
    decreases |s| - from
  {
    match FindHeader(Lazy, s, from)
    case None => []
    case Some(p) =>
      var h := HeaderAt(Lazy, s, p).value;
      [h.toPath] + HeaderPaths(s, h.end)
  }

  /** The verdict on the headers' paths: the first problem found, or acceptance. */
  function CheckPaths(paths: seq<string>): (r: ValidationResult)
  {
    if |paths| == 0 then Accept
    else
      match PathProblem(paths[0])
      case Some(reason) => Reject(reason)
      case None => CheckPaths(paths[1..])
  }

  function ValidateDiff(diff: string): (r: ValidationResult)
  {
    if Trim(diff) == "" then Reject(EmptyReason)
    else if !Contains(diff, "diff --git") then Reject(MissingHeaderReason)
    else if Contains(diff, "```") then Reject(FenceReason)
    else if LineCount(diff) > MaxLines then Reject(TooLongReason(LineCount(diff)))
    else CheckPaths(HeaderPaths(diff, 0))
  }

  /** A problem exists exactly for the paths the checks do not allow, and
      its reason names the path, or the blocked file name. */
  lemma PathProblemSpec(p: string)
    ensures PathProblem(p).None? <==> Allowed(p)
    ensures !StartsWith(p, "src/") ==> PathProblem(p) == Some(OutsideSrcReason(p)) && Contains(OutsideSrcReason(p), p)
    ensures StartsWith(p, "src/") && LastSegment(p) in Blocked ==>
      PathProblem(p) == Some(BlockedReason(LastSegment(p))) && Contains(BlockedReason(LastSegment(p)), LastSegment(p))
    ensures StartsWith(p, "src/") && LastSegment(p) !in Blocked && IsTestPath(p) ==>
      PathProblem(p) == Some(TestFileReason(p)) && Contains(TestFileReason(p), p)
  {
    ContainsMiddle("Change to \"", p, "\" not allowed \U{2014} only src/ is permitted");
    ContainsMiddle("Change to \"", LastSegment(p), "\" is blocked");
    ContainsMiddle("Change to test file \"", p, "\" is blocked");
  }

  /** The paths pass exactly when every one is allowed; otherwise the reason
      is that of the first path that is not. */
  lemma {:induction false} CheckPathsSpec(paths: seq<string>)
    ensures CheckPaths(paths).ok <==> forall i :: 0 <= i < |paths| ==> Allowed(paths[i])
    ensures CheckPaths(paths).ok <==> CheckPaths(paths).reason.None?
    ensures !CheckPaths(paths).ok ==>
      exists i :: 0 <= i < |paths| && FirstRefused(paths, i) && CheckPaths(paths).reason == PathProblem(paths[i])
  {
    if |paths| > 0 {
      PathProblemSpec(paths[0]);
      if Allowed(paths[0]) {
        var rest := paths[1..];
        CheckPathsSpec(rest);
        assert CheckPaths(paths) == CheckPaths(rest);
        AllowedTail(paths);
        if !CheckPaths(rest).ok {
          var i :| 0 <= i < |rest| && FirstRefused(rest, i) && CheckPaths(rest).reason == PathProblem(rest[i]);
          RefusedTail(paths, i);
        }
      } else {
        assert FirstRefused(paths, 0);
      }
    }
  }

  /** After an allowed first path, all paths are allowed when the rest are. */
  lemma AllowedTail(paths: seq<string>)
    requires |paths| > 0 && Allowed(paths[0])
    ensures (forall i :: 0 <= i < |paths| ==> Allowed(paths[i])) <==>
      (forall i :: 0 <= i < |paths[1..]| ==> Allowed(paths[1..][i]))
  {
    assert forall i :: 1 <= i < |paths| ==> paths[i] == paths[1..][i - 1];
  }

  /** After an allowed first path, the first refusal of the rest is the
      first refusal of all paths. */
  lemma RefusedTail(paths: seq<string>, i: nat)
    requires |paths| > 0 && Allowed(paths[0])
    requires i < |paths[1..]| && FirstRefused(paths[1..], i)
    ensures FirstRefused(paths, i + 1) && paths[i + 1] == paths[1..][i]
  {
    assert forall j :: 1 <= j < |paths| ==> paths[j] == paths[1..][j - 1];
  }

  /** `paths[i]` is the first path the checks refuse. */
  predicate FirstRefused(paths: seq<string>, i: nat)
    requires i < |paths|
  {
    !Allowed(paths[i]) && forall j :: 0 <= j < i ==> Allowed(paths[j])
  }

  /** The `/g` loop finds no header exactly when the text has no match from
      `from` on; otherwise its first path is that of the leftmost match. */
  lemma HeaderPathsSpec(s: string, from: nat)
    requires from <= |s|
    ensures HeaderPaths(s, from) == [] <==> forall j :: from <= j <= |s| ==> HeaderAt(Lazy, s, j).None?
    ensures HeaderPaths(s, from) != [] ==>
      exists j :: from <= j <= |s| && LeftmostHeader(s, from, j) && HeaderPaths(s, from)[0] == HeaderAt(Lazy, s, j).value.toPath
  {
    match FindHeader(Lazy, s, from)
    case None =>
      forall j | from <= j <= |s|
        ensures HeaderAt(Lazy, s, j).None?
      {
        if HeaderAt(Lazy, s, j).Some? {
          FindHeaderLeftmost(Lazy, s, from, j);
        }
      }
    case Some(p) =>
      forall k | from <= k < p
        ensures HeaderAt(Lazy, s, k).None?
      {
        if HeaderAt(Lazy, s, k).Some? {
          FindHeaderLeftmost(Lazy, s, from, k);
        }
      }
      assert LeftmostHeader(s, from, p);
  }

  /** The header expression matches at `j` and nowhere in `[from, j)`. */
  predicate LeftmostHeader(s: string, from: nat, j: nat) {
    HeaderAt(Lazy, s, j).Some? && forall k :: from <= k < j ==> HeaderAt(Lazy, s, k).None?
  }

  /** The text-wide checks the validator applies before looking at paths. */
  predicate WellShaped(diff: string) {
    !AllSpace(diff) && Contains(diff, "diff --git") && !Contains(diff, "```")
      && CountChar(diff, '\n') < MaxLines
  }

  /** The verdict is `{ ok: true }`, with no reason, exactly when the text is
      well shaped and every header's second path is allowed. */
  lemma ValidateOk(diff: string)
    ensures ValidateDiff(diff).ok <==>
      (WellShaped(diff) && forall i :: 0 <= i < |HeaderPaths(diff, 0)| ==> Allowed(HeaderPaths(diff, 0)[i]))
    ensures ValidateDiff(diff).ok <==> ValidateDiff(diff).reason.None?
  {
    TrimEmpty(diff);
    SplitCount(diff, '\n');
    CheckPathsSpec(HeaderPaths(diff, 0));
  }

  /** The checks short-circuit in order, each with its own reason. */
  lemma ValidateReasons(diff: string)
    ensures AllSpace(diff) ==> ValidateDiff(diff) == Reject(EmptyReason)
    ensures !AllSpace(diff) && !Contains(diff, "diff --git") ==> ValidateDiff(diff) == Reject(MissingHeaderReason)
    ensures !AllSpace(diff) && Contains(diff, "diff --git") && Contains(diff, "```") ==>
      ValidateDiff(diff) == Reject(FenceReason)
    ensures (!AllSpace(diff) && Contains(diff, "diff --git") && !Contains(diff, "```")
             && CountChar(diff, '\n') >= MaxLines) ==>
      ValidateDiff(diff) == Reject(TooLongReason(CountChar(diff, '\n') + 1))
    ensures WellShaped(diff) ==> ValidateDiff(diff) == CheckPaths(HeaderPaths(diff, 0))
  {
    TrimEmpty(diff);
    SplitCount(diff, '\n');
  }

  /** The limit is written "3000". */
  lemma MaxLinesString()
    ensures NatToString(MaxLines) == "3000"
  {
  }

  /** The too-long reason carries the line count and the limit. */
  lemma TooLongReasonNames(count: nat)
    ensures Contains(TooLongReason(count), NatToString(count))
    ensures Contains(TooLongReason(count), "3000")
  {
    var a := "Diff has ";
    var n := NatToString(count);
    var b := " lines, exceeds limit of ";
    MaxLinesString();
    assert TooLongReason(count) == a + n + (b + "3000");
    ContainsMiddle(a, n, b + "3000");
    assert TooLongReason(count) == (a + n + b) + "3000" + "";
    ContainsMiddle(a + n + b, "3000", "");
  }

  /** A text that starts with the header line of `x` and `y` has `y` as the
      first path the loop visits. */
  lemma FirstHeaderPath(x: string, y: string, rest: string)
    requires LazyPaths(x, y) && (rest == [] || IsLineTerminator(rest[0]))
    ensures HeaderPaths(HeaderLine(x, y) + rest, 0) != []
    ensures HeaderPaths(HeaderLine(x, y) + rest, 0)[0] == y
  {
    LazyRendered(x, y, rest);
  }

  /** Such a text, once well shaped, is judged on `y` first: when `y` is not
      allowed, the verdict is `y`'s problem. */
  lemma FirstHeaderJudged(x: string, y: string, rest: string)
    requires LazyPaths(x, y) && (rest == [] || IsLineTerminator(rest[0]))
    requires WellShaped(HeaderLine(x, y) + rest) && !Allowed(y)
    ensures ValidateDiff(HeaderLine(x, y) + rest) == Reject(PathProblem(y).value)
  {
    var s := HeaderLine(x, y) + rest;
    FirstHeaderPath(x, y, rest);
    ValidateReasons(s);
    PathProblemSpec(y);
  }
}
