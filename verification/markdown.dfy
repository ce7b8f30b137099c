/** The explanation renderer's Markdown reading (MarkdownRenderer.tsx):
    `parseBlocks` turns text into headings, code blocks, bullets and
    paragraphs, `groupSections` cuts the blocks into titled sections at every
    level-2 heading, and `detectSection` picks a section's look from its title. */
module Markdown {
  import opened Text
  import opened Wrappers

  /** `ParsedBlock`, one constructor per `type`, each with the fields that
      type sets. */
  datatype Block =
    | Heading(content: string, level: nat)
    | Code(content: string, language: string)
    | Bullet(content: string, indent: nat)
    | Paragraph(content: string)

  /** `!line.trim()`: the line is all white space (see BlankMeaning). */
  predicate Blank(l: string) {
    AllSpace(l)
  }

  /** `line.trim().startsWith('```')`: three backticks after the leading
      white space (see FenceMeaning). */
  predicate IsFence(l: string) {
    OccursAt(l, "```", LeadingSpace(l))
  }

  lemma BlankMeaning(l: string)
    ensures Blank(l) <==> Trim(l) == ""
  {
    TrimEmpty(l);
  }

  lemma FenceMeaning(l: string)
    ensures IsFence(l) <==> StartsWith(Trim(l), "```")
  {
    if IsFence(l) {
      FenceTrims(l);
    }
    if StartsWith(Trim(l), "```") {
      TrimmedFence(l);
    }
  }

  lemma FenceTrims(l: string)
    requires IsFence(l)
    ensures StartsWith(Trim(l), "```")
  {
    var k := LeadingSpace(l);
    var b := TrailingSpace(l[k..]);
    assert Trim(l) == l[k..][..|l| - k - b];
    FenceKept(l, k, b);
  }

  /** Cutting trailing white space off the text after the leading white
      space keeps the three backticks it starts with. */
  lemma FenceKept(l: string, k: nat, b: nat)
    requires k + 3 <= |l| && l[k..k + 3] == "```"
    requires b <= |l| - k && AllSpace(l[k..][|l| - k - b..])
    ensures StartsWith(l[k..][..|l| - k - b], "```")
  {
    var s := l[k..];
    assert forall j :: |s| - b <= j < |s| ==> s[|s| - b..][j - (|s| - b)] == s[j];
    assert s[2] == l[k + 2] == '`';
    assert s[..|s| - b][..3] == l[k..k + 3];
  }

  lemma TrimmedFence(l: string)
    requires StartsWith(Trim(l), "```")
    ensures IsFence(l)
  {
    var k := LeadingSpace(l);
    var rest := l[k..];
    var b := TrailingSpace(rest);
    assert Trim(l) == rest[..|rest| - b];
    assert rest[..|rest| - b][..3] == rest[..3];
    assert l[k..k + 3] == rest[..3];
  }

  /** `line.trim().replace(/^```/, '').trim()` on a fence line. */
  function FenceLanguage(l: string): string {
    var t := Trim(l);
    if |t| >= 3 then Trim(t[3..]) else ""
  }

  /** The number of `#` characters the line starts with. */
  function Hashes(l: string): (n: nat)
    ensures n <= |l|
    ensures forall k :: 0 <= k < n ==> l[k] == '#'
    ensures n == |l| || l[n] != '#'
  {
    if |l| > 0 && l[0] == '#' then 1 + Hashes(l[1..]) else 0
  }

  /** `/^#{1,3}\s/`. A shorter run of `#` would be followed by another `#`,
      so only the whole run can precede the white space. */
  predicate HeadingStart(l: string) {
    1 <= Hashes(l) <= 3 && Hashes(l) < |l| && IsSpace(l[Hashes(l)])
  }

  predicate IsBulletChar(c: char) {
    c == '*' || c == '-' || c == '\U{2022}'
  }

  /** `/^\s*[*\-•]\s/`. A bullet character is not white space, so `\s*`
      takes the whole leading run. */
  predicate BulletStart(l: string) {
    var k := LeadingSpace(l);
    k + 1 < |l| && IsBulletChar(l[k]) && IsSpace(l[k + 1])
  }

  /** `\s+(.*)` from index `j`: the rest of the line after the white-space run. */
  function Capture(l: string, j: nat): (r: string)
    requires j <= |l|
    ensures NoLineTerminator(r)
  {
    RestOfLine(l, j + LeadingSpace(l[j..]))
  }

  /** What a line is to `parseBlocks`, tested in the source's order. */
  datatype LineClass = BlankLine | FenceLine | HeadingLine | BulletLine | TextLine

  function Classify(l: string): LineClass {
    if Blank(l) then BlankLine
    else if IsFence(l) then FenceLine
    else if HeadingStart(l) then HeadingLine
    else if BulletStart(l) then BulletLine
    else TextLine
  }

  /** A line the paragraph loop takes: not blank, not a fence, not a
      heading and not a bullet. */
  predicate ParaLine(l: string) {
    Classify(l) == TextLine
  }

  /** A fence line is never blank, so the fence class is exactly the
      inner loop's stop test. */
  lemma FenceClass(l: string)
    ensures Classify(l) == FenceLine <==> IsFence(l)
  {
    if IsFence(l) {
      assert !IsSpace(l[LeadingSpace(l)]);
    }
  }

  /** The index of the first fence line, or the number of lines. */
  function FenceEnd(ls: seq<string>): (e: nat)
    ensures e <= |ls| && (e == |ls| || Classify(ls[e]) == FenceLine)
    ensures forall j :: 0 <= j < e ==> Classify(ls[j]) != FenceLine
  {
    if ls == [] || Classify(ls[0]) == FenceLine then 0
    else
      var e := FenceEnd(ls[1..]);
      assert forall j :: 1 <= j < e + 1 ==> ls[j] == ls[1..][j - 1];
      1 + e
  }

  /** The index of the first line the paragraph loop stops at. */
  function ParaEnd(ls: seq<string>): (e: nat)
    ensures e <= |ls| && (e == |ls| || !ParaLine(ls[e]))
    ensures forall j :: 0 <= j < e ==> ParaLine(ls[j])
  {
    if ls == [] || !ParaLine(ls[0]) then 0
    else
      var e := ParaEnd(ls[1..]);
      assert forall j :: 1 <= j < e + 1 ==> ls[j] == ls[1..][j - 1];
      1 + e
  }

  /** One iteration of the `while (i < lines.length)` loop of `parseBlocks`:
      the blocks it emits and the number of lines it consumes. The paragraph
      branch always takes its first line, which passed every earlier test,
      so its `if (para.length)` guard always holds and every iteration
      consumes at least one line. */
  function Step(ls: seq<string>): (r: (seq<Block>, nat))
    requires ls != []
    ensures 1 <= r.1 <= |ls|
  {
    var l := ls[0];
    match Classify(l)
    case BlankLine => ([], 1)
    case FenceLine =>
      var body := ls[1..];
      var e := FenceEnd(body);
      ([Code(Join(body[..e], "\n"), FenceLanguage(l))], if e < |body| then e + 2 else e + 1)
    case HeadingLine => ([Heading(Capture(l, Hashes(l)), Hashes(l))], 1)
    case BulletLine => ([Bullet(Capture(l, LeadingSpace(l) + 1), LeadingSpace(l) / 2)], 1)
    case TextLine =>
      var e := ParaEnd(ls);
      ([Paragraph(Join(ls[..e], " "))], e)
  }

  /** The loop over the remaining lines. */
  function ParseLines(ls: seq<string>): (r: seq<Block>)
    decreases |ls|
  {
    if ls == [] then [] else Step(ls).0 + ParseLines(ls[Step(ls).1..])
  }

  /** `parseBlocks`. */
  function ParseBlocks(text: string): seq<Block> {
    ParseLines(Split(text, '\n'))
  }

  /** A run of `n` copies of one character. */
  function Run(c: char, n: nat): (r: string)
    ensures |r| == n && forall k :: 0 <= k < n ==> r[k] == c
  {
    seq(n, _ => c)
  }

  /** Text that `\s+(.*)` captures whole after one space: a single line that
      does not start with white space. */
  predicate Capturable(c: string) {
    NoLineTerminator(c) && (c == [] || !IsSpace(c[0]))
  }

  /** No line of the code is a fence. */
  predicate CodeLines(c: string) {
    forall k :: 0 <= k < |Split(c, '\n')| ==> Classify(Split(c, '\n')[k]) != FenceLine
  }

  /** Blocks that have a Markdown spelling `parseBlocks` reads back. */
  predicate Renderable(b: Block) {
    match b
    case Heading(c, level) => 1 <= level <= 3 && Capturable(c)
    case Bullet(c, _) => Capturable(c)
    case Code(c, lang) => '\n' !in lang && Trim(lang) == lang && CodeLines(c)
    case Paragraph(c) => '\n' !in c && ParaLine(c)
  }

  /** The Markdown spelling of one block. */
  function BlockLines(b: Block): seq<string> {
    match b
    case Heading(c, level) => [Run('#', level) + " " + c]
    case Bullet(c, indent) => [Run(' ', 2 * indent) + "- " + c]
    case Code(c, lang) => ["```" + lang] + Split(c, '\n') + ["```"]
    case Paragraph(c) => [c]
  }

  /** The blocks' lines, a blank line between neighbours. */
  function Lines(bs: seq<Block>): seq<string> {
    if |bs| == 0 then []
    else if |bs| == 1 then BlockLines(bs[0])
    else BlockLines(bs[0]) + ([""] + Lines(bs[1..]))
  }

  function Render(bs: seq<Block>): string {
    Join(Lines(bs), "\n")
  }

  /** `\s+(.*)` after one space and a capturable text takes the text. */
  lemma CaptureAfterSpace(l: string, j: nat, c: string)
    requires j <= |l| && l[j..] == " " + c && Capturable(c)
    ensures Capture(l, j) == c
  {
    assert (" " + c)[1..] == c;
    assert LeadingSpace(" " + c) == 1;
    assert l[j + 1..] == c;
    RestOfLineTail(l, j + 1);
  }

  /** A line whose first character is not white space is not blank, and is
      a fence exactly when it starts with the backticks. */
  lemma Leads(l: string)
    requires |l| > 0 && !IsSpace(l[0])
    ensures LeadingSpace(l) == 0 && !Blank(l)
    ensures IsFence(l) <==> StartsWith(l, "```")
  {
  }

  lemma HeadingRecognised(c: string, level: nat)
    requires 1 <= level <= 3
    ensures var l := Run('#', level) + " " + c;
      Classify(l) == HeadingLine && Hashes(l) == level
  {
    var l := Run('#', level) + " " + c;
    assert l[0] == '#' && l[level] == ' ';
    Leads(l);
    assert Hashes(l) == level;
  }

  lemma HeadingCaptured(c: string, level: nat)
    requires Capturable(c)
    ensures Capture(Run('#', level) + " " + c, level) == c
  {
    var l := Run('#', level) + " " + c;
    assert l[level..] == " " + c;
    CaptureAfterSpace(l, level, c);
  }

  lemma BulletRecognised(c: string, indent: nat)
    ensures var l := Run(' ', 2 * indent) + "- " + c;
      Classify(l) == BulletLine && LeadingSpace(l) == 2 * indent
  {
    var l := Run(' ', 2 * indent) + "- " + c;
    var k := 2 * indent;
    assert l[k] == '-' && l[k + 1] == ' ';
    assert forall j :: 0 <= j < k ==> l[j] == ' ';
    assert LeadingSpace(l) == k;
    assert Hashes(l) == 0;
    assert !IsSpace(l[k]);
  }

  lemma BulletCaptured(c: string, indent: nat)
    requires Capturable(c)
    ensures Capture(Run(' ', 2 * indent) + "- " + c, 2 * indent + 1) == c
  {
    var l := Run(' ', 2 * indent) + "- " + c;
    assert l[2 * indent + 1..] == " " + c;
    CaptureAfterSpace(l, 2 * indent + 1, c);
  }

  lemma FenceOpens(lang: string)
    ensures Classify("```" + lang) == FenceLine
  {
    var l := "```" + lang;
    Leads(l);
    assert l[..3] == "```";
  }

  lemma FenceTrimmed(lang: string)
    requires Trim(lang) == lang
    ensures Trim("```" + lang) == "```" + lang
  {
    FenceEnds(lang);
    TrimUnchanged("```" + lang);
  }

  /** A fence line ends with its language, or with a backtick when there is
      none, and starts with a backtick. */
  lemma FenceEnds(lang: string)
    requires Trim(lang) == lang
    ensures var l := "```" + lang; !IsSpace(l[0]) && !IsSpace(l[|l| - 1])
  {
    var l := "```" + lang;
    assert l[0] == '`';
    if |lang| > 0 {
      assert !IsSpace(lang[|lang| - 1]);
      assert l[|l| - 1] == lang[|lang| - 1];
    }
  }

  lemma FenceLanguageOf(lang: string)
    requires Trim(lang) == lang
    ensures FenceLanguage("```" + lang) == lang
  {
    FenceTrimmed(lang);
    assert ("```" + lang)[3..] == lang;
  }

  lemma FenceCloses()
    ensures Classify("```") == FenceLine
  {
    Leads("```");
  }

  lemma {:induction false} FenceEndAt(ls: seq<string>, k: nat)
    requires k < |ls| && Classify(ls[k]) == FenceLine
    requires forall j :: 0 <= j < k ==> Classify(ls[j]) != FenceLine
    ensures FenceEnd(ls) == k
  {
  }

  lemma {:induction false} ParaEndAt(ls: seq<string>, k: nat)
    requires k <= |ls| && (k == |ls| || !ParaLine(ls[k]))
    requires forall j :: 0 <= j < k ==> ParaLine(ls[j])
    ensures ParaEnd(ls) == k
  {
  }

  /** The code lines run up to the closing fence. */
  lemma CodeBody(code: seq<string>, tail: seq<string>)
    requires forall k :: 0 <= k < |code| ==> Classify(code[k]) != FenceLine
    ensures var body := code + (["```"] + tail);
      FenceEnd(body) == |code| && body[..|code|] == code
  {
    var body := code + (["```"] + tail);
    FenceCloses();
    assert body[|code|] == "```";
    FenceEndAt(body, |code|);
  }

  lemma Cons(x: string, rest: seq<string>)
    ensures ([x] + rest)[0] == x && ([x] + rest)[1..] == rest
  {
  }

  /** The fence branch of one loop iteration. */
  lemma FenceStep(ls: seq<string>)
    requires ls != [] && Classify(ls[0]) == FenceLine
    ensures var e := FenceEnd(ls[1..]);
      Step(ls) == ([Code(Join(ls[1..][..e], "\n"), FenceLanguage(ls[0]))], if e < |ls| - 1 then e + 2 else e + 1)
  {
  }

  lemma CodeLinesStep(lang: string, code: seq<string>, tail: seq<string>)
    requires Trim(lang) == lang
    requires forall k :: 0 <= k < |code| ==> Classify(code[k]) != FenceLine
    ensures Step((["```" + lang] + code + ["```"]) + tail) == ([Code(Join(code, "\n"), lang)], |code| + 2)
  {
    FenceOpens(lang);
    FenceLanguageOf(lang);
    CodeBody(code, tail);
    var body := code + (["```"] + tail);
    Regroup(["```" + lang], code, ["```"], tail);
    FenceStepAt("```" + lang, body, lang, code);
  }

  /** The fence branch once the closing fence and the language are known. */
  lemma FenceStepAt(first: string, body: seq<string>, lang: string, code: seq<string>)
    requires Classify(first) == FenceLine && FenceLanguage(first) == lang
    requires |code| < |body| && FenceEnd(body) == |code| && body[..|code|] == code
    ensures Step([first] + body) == ([Code(Join(code, "\n"), lang)], |code| + 2)
  {
    Cons(first, body);
    FenceStep([first] + body);
  }

  lemma Regroup(a: seq<string>, b: seq<string>, x: seq<string>, tail: seq<string>)
    ensures (a + b + x) + tail == a + (b + (x + tail))
  {
  }

  /** A code block's content splits into lines that join back to it. */
  lemma CodeBlockLines(c: string, lang: string)
    ensures BlockLines(Code(c, lang)) == ["```" + lang] + Split(c, '\n') + ["```"]
    ensures Join(Split(c, '\n'), "\n") == c
  {
  }

  /** The fence branch on a code block's lines consumes exactly those lines. */
  lemma CodeStepConsumed(c: string, lang: string, tail: seq<string>)
    requires Renderable(Code(c, lang))
    ensures Step(BlockLines(Code(c, lang)) + tail).1 == |BlockLines(Code(c, lang))|
  {
    CodeBlockLines(c, lang);
    CodeLinesStep(lang, Split(c, '\n'), tail);
  }

  /** The fence branch on a code block's lines emits that block. */
  lemma CodeStepEmits(c: string, lang: string, tail: seq<string>)
    requires Renderable(Code(c, lang))
    ensures Step(BlockLines(Code(c, lang)) + tail).0 == [Code(c, lang)]
  {
    CodeBlockLines(c, lang);
    CodeLinesStep(lang, Split(c, '\n'), tail);
  }

  lemma CodeStep(c: string, lang: string, tail: seq<string>)
    requires Renderable(Code(c, lang))
    ensures Step(BlockLines(Code(c, lang)) + tail) == ([Code(c, lang)], |BlockLines(Code(c, lang))|)
  {
    CodeStepConsumed(c, lang, tail);
    CodeStepEmits(c, lang, tail);
  }

  lemma ParagraphStep(c: string, tail: seq<string>)
    requires Renderable(Paragraph(c)) && (tail == [] || Classify(tail[0]) == BlankLine)
    ensures Step([c] + tail) == ([Paragraph(c)], 1)
  {
    var ls := [c] + tail;
    ParaEndAt(ls, 1);
    assert ls[..1] == [c];
  }

  /** One loop iteration on a renderable block's lines, followed by nothing
      or by a blank line, emits that block and consumes its lines. */
  lemma BlockStep(b: Block, tail: seq<string>)
    requires Renderable(b) && (tail == [] || Classify(tail[0]) == BlankLine)
    ensures Step(BlockLines(b) + tail) == ([b], |BlockLines(b)|)
  {
    match b
    case Heading(c, level) =>
      HeadingRecognised(c, level);
      HeadingCaptured(c, level);
    case Bullet(c, indent) =>
      BulletRecognised(c, indent);
      BulletCaptured(c, indent);
      assert (2 * indent) / 2 == indent;
    case Code(c, lang) =>
      CodeStep(c, lang, tail);
    case Paragraph(c) =>
      ParagraphStep(c, tail);
  }

  lemma BlockParses(b: Block, tail: seq<string>)
    requires Renderable(b) && (tail == [] || Classify(tail[0]) == BlankLine)
    ensures ParseLines(BlockLines(b) + tail) == [b] + ParseLines(tail)
  {
    BlockStep(b, tail);
    assert (BlockLines(b) + tail)[|BlockLines(b)|..] == tail;
  }

  /** A blank line produces nothing. */
  lemma BlankSkipped(ls: seq<string>)
    ensures ParseLines([""] + ls) == ParseLines(ls)
  {
    assert Step([""] + ls) == ([], 1);
    assert ([""] + ls)[1..] == ls;
  }

  lemma {:induction false} LinesParse(bs: seq<Block>)
    requires forall k :: 0 <= k < |bs| ==> Renderable(bs[k])
    ensures ParseLines(Lines(bs)) == bs
  {
    if |bs| == 1 {
      BlockParses(bs[0], []);
      assert BlockLines(bs[0]) + [] == BlockLines(bs[0]);
    } else if |bs| > 1 {
      var tail := [""] + Lines(bs[1..]);
      BlockParses(bs[0], tail);
      BlankSkipped(Lines(bs[1..]));
      LinesParse(bs[1..]);
    }
  }

  lemma RunWithout(c: char, n: nat, x: char)
    requires x != c
    ensures x !in Run(c, n)
  {
  }

  lemma PrefixedOneLine(p: string, c: string)
    requires '\n' !in p && NoLineTerminator(c)
    ensures '\n' !in p + c
  {
    assert IsLineTerminator('\n');
  }

  lemma FencedOneLine(first: string, code: seq<string>)
    requires '\n' !in first
    requires forall k :: 0 <= k < |code| ==> '\n' !in code[k]
    ensures forall k :: 0 <= k < |[first] + code + ["```"]| ==> '\n' !in ([first] + code + ["```"])[k]
  {
  }

  lemma BlockOneLine(b: Block)
    requires Renderable(b)
    ensures forall k :: 0 <= k < |BlockLines(b)| ==> '\n' !in BlockLines(b)[k]
  {
    match b
    case Heading(c, level) =>
      RunWithout('#', level, '\n');
      SingleOneLine(Run('#', level) + " ", c, BlockLines(b));
    case Bullet(c, indent) =>
      RunWithout(' ', 2 * indent, '\n');
      SingleOneLine(Run(' ', 2 * indent) + "- ", c, BlockLines(b));
    case Code(c, lang) =>
      FencedOneLine("```" + lang, Split(c, '\n'));
    case Paragraph(c) =>
  }

  /** A one-line spelling: a prefix and a text, neither with a line break. */
  lemma SingleOneLine(p: string, c: string, ls: seq<string>)
    requires '\n' !in p && NoLineTerminator(c) && ls == [p + c]
    ensures forall k :: 0 <= k < |ls| ==> '\n' !in ls[k]
  {
    PrefixedOneLine(p, c);
  }

  lemma {:induction false} LinesOneLine(bs: seq<Block>)
    requires forall k :: 0 <= k < |bs| ==> Renderable(bs[k])
    ensures forall k :: 0 <= k < |Lines(bs)| ==> '\n' !in Lines(bs)[k]
  {
    if |bs| > 0 {
      BlockOneLine(bs[0]);
      if |bs| > 1 {
        LinesOneLine(bs[1..]);
      }
    }
  }

  /** Rendering renderable blocks and parsing the text gives the blocks
      back: every construct is read the way it is written. */
  lemma ParseRendered(bs: seq<Block>)
    requires forall k :: 0 <= k < |bs| ==> Renderable(bs[k])
    ensures ParseBlocks(Render(bs)) == bs
  {
    LinesParse(bs);
    if |bs| == 0 {
      assert Split("", '\n') == [""];
      BlankSkipped([]);
      assert [""] + [] == [""];
    } else {
      LinesOneLine(bs);
      assert |Lines(bs)| >= 1;
      SplitJoin(Lines(bs), '\n');
    }
  }
}

