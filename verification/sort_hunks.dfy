/** `sortAndRebaseHunks` (client.ts): within each file section, hunk chunks
    are stably sorted by their old start line and each `+newStart` is
    recomputed from the line-count changes of the hunks before it. */
module SortHunks {
  import opened Text
  import opened Wrappers
  import opened HunkHeader
  import opened Cuts

  /** One hunk chunk: its `@@` line and body, as raw text, with the numbers
      read from its header. */
  datatype Chunk = Chunk(oldStart: nat, oldCount: nat, newCount: nat, raw: string)

  /** `parseInt(m[k] ?? '1')`. */
  function CountValue(c: Option<string>): nat
    requires OptDigits(c)
  {
    if c.Some? then DigitsValue(c.value) else 1
  }

  /** A chunk whose header does not parse sorts with old start 0 and counts 1. */
  function ParseChunk(h: string): (c: Chunk)
  {
    match MatchAt(h)
    case None => Chunk(0, 1, 1, h)
    case Some((hd, _)) =>
      MatchAtSound(h);
      Chunk(DigitsValue(hd.oldStart), CountValue(hd.oldCount), CountValue(hd.newCount), h)
  }

  predicate Sorted(cs: seq<Chunk>) {
    forall i, j :: 0 <= i < j < |cs| ==> cs[i].oldStart <= cs[j].oldStart
  }

  /** The chunks with old start `v`, in order. */
  function WithKey(cs: seq<Chunk>, v: nat): seq<Chunk> {
    if |cs| == 0 then [] else (if cs[0].oldStart == v then [cs[0]] else []) + WithKey(cs[1..], v)
  }

  /** Insert before the first chunk whose old start is not smaller. */
  function Insert(c: Chunk, s: seq<Chunk>): seq<Chunk> {
    if |s| == 0 || c.oldStart <= s[0].oldStart then [c] + s
    else [s[0]] + Insert(c, s[1..])
  }

  /** The stable sort `parsed.sort((a, b) => a.oldStart - b.oldStart)`. */
  function SortChunks(cs: seq<Chunk>): seq<Chunk> {
    if |cs| == 0 then [] else Insert(cs[0], SortChunks(cs[1..]))
  }

  lemma {:induction false} InsertMultiset(c: Chunk, s: seq<Chunk>)
    ensures multiset(Insert(c, s)) == multiset([c] + s)
    decreases |s|
  {
    if !(|s| == 0 || c.oldStart <= s[0].oldStart) {
      InsertMultiset(c, s[1..]);
      assert s == [s[0]] + s[1..];
    }
  }

  /** No chunk starts before `lo`. */
  predicate AtLeast(s: seq<Chunk>, lo: nat) {
    forall k :: 0 <= k < |s| ==> lo <= s[k].oldStart
  }

  lemma ConsSorted(x: Chunk, t: seq<Chunk>)
    requires Sorted(t) && AtLeast(t, x.oldStart)
    ensures Sorted([x] + t)
  {
    forall i, j | 0 <= i < j < |[x] + t|
      ensures ([x] + t)[i].oldStart <= ([x] + t)[j].oldStart
    {
      assert ([x] + t)[j] == t[j - 1];
      if i > 0 {
        assert ([x] + t)[i] == t[i - 1];
      }
    }
  }

  lemma {:induction false} InsertAtLeast(c: Chunk, s: seq<Chunk>, lo: nat)
    requires lo <= c.oldStart && AtLeast(s, lo)
    ensures AtLeast(Insert(c, s), lo)
    decreases |s|
  {
    if !(|s| == 0 || c.oldStart <= s[0].oldStart) {
      assert AtLeast(s[1..], lo) by {
        forall k | 0 <= k < |s[1..]| ensures lo <= s[1..][k].oldStart {
          assert s[1..][k] == s[k + 1];
        }
      }
      InsertAtLeast(c, s[1..], lo);
      var t := Insert(c, s[1..]);
      forall k | 0 <= k < |[s[0]] + t|
        ensures lo <= ([s[0]] + t)[k].oldStart
      {
        if k > 0 {
          assert ([s[0]] + t)[k] == t[k - 1];
        }
      }
    }
  }

  lemma {:induction false} InsertSorted(c: Chunk, s: seq<Chunk>)
    requires Sorted(s)
    ensures Sorted(Insert(c, s))
    decreases |s|
  {
    if |s| == 0 || c.oldStart <= s[0].oldStart {
      ConsSorted(c, s);
    } else {
      var rest := s[1..];
      assert Sorted(rest) && AtLeast(rest, s[0].oldStart) by {
        forall k | 0 <= k < |rest| ensures rest[k] == s[k + 1] { }
      }
      InsertSorted(c, rest);
      InsertAtLeast(c, rest, s[0].oldStart);
      ConsSorted(s[0], Insert(c, rest));
    }
  }

  lemma {:induction false} InsertWithKey(c: Chunk, s: seq<Chunk>, v: nat)
    ensures WithKey(Insert(c, s), v) == WithKey([c] + s, v)
    decreases |s|
  {
    if |s| == 0 || c.oldStart <= s[0].oldStart {
    } else {
      InsertWithKey(c, s[1..], v);
      assert ([s[0]] + Insert(c, s[1..]))[1..] == Insert(c, s[1..]);
      assert ([c] + s)[1..] == s;
      assert ([c] + s[1..])[1..] == s[1..];
    }
  }

  /** The sort is a stable sort: the result is ordered by old start, and for
      every old start the chunks carrying it keep their input order. These
      two facts determine the result; it is also a permutation. */
  lemma {:induction false} SortChunksSpec(cs: seq<Chunk>)
    ensures Sorted(SortChunks(cs))
    ensures multiset(SortChunks(cs)) == multiset(cs)
    ensures forall v: nat :: WithKey(SortChunks(cs), v) == WithKey(cs, v)
    decreases |cs|
  {
    if |cs| > 0 {
      SortChunksSpec(cs[1..]);
      InsertSorted(cs[0], SortChunks(cs[1..]));
      InsertMultiset(cs[0], SortChunks(cs[1..]));
      assert cs == [cs[0]] + cs[1..];
      forall v: nat
        ensures WithKey(SortChunks(cs), v) == WithKey(cs, v)
      {
        InsertWithKey(cs[0], SortChunks(cs[1..]), v);
        assert ([cs[0]] + SortChunks(cs[1..]))[1..] == SortChunks(cs[1..]);
      }
    }
  }

  /** `raw.replace(/^(@@ -\d+(?:,\d+)? \+)\d+/, '$1' + newStart)`. */
  function ReplaceNewStart(raw: string, newStart: nat): string {
    match MatchPrefix(raw)
    case None => raw
    case Some(p) => PrefixText(p.oldStart, p.oldCount) + NatToString(newStart) + p.rest
  }

  /** Only the new-start digits change: the result has the same old-side
      captures and the same rest, and the new start reads back as `newStart`. */
  lemma ReplaceOnlyNewStart(raw: string, newStart: nat)
    ensures MatchPrefix(raw).None? ==> ReplaceNewStart(raw, newStart) == raw
    ensures MatchPrefix(raw).Some? ==>
      var p := MatchPrefix(raw).value;
      && raw == PrefixText(p.oldStart, p.oldCount) + p.newStart + p.rest
      && MatchPrefix(ReplaceNewStart(raw, newStart)) == Some(Prefix(p.oldStart, p.oldCount, NatToString(newStart), p.rest))
      && DigitsValue(NatToString(newStart)) == newStart
  {
    if MatchPrefix(raw).Some? {
      var p := MatchPrefix(raw).value;
      MatchPrefixSound(raw);
      MatchPrefixRendered(p.oldStart, p.oldCount, NatToString(newStart), p.rest);
      NatToStringValue(newStart);
    }
  }

  /** Replacing the new start does not change what the chunk parses to. */
  lemma ReplaceKeepsParse(raw: string, newStart: nat)
    ensures var c := ParseChunk(ReplaceNewStart(raw, newStart));
      (c.oldStart, c.oldCount, c.newCount) == (ParseChunk(raw).oldStart, ParseChunk(raw).oldCount, ParseChunk(raw).newCount)
  {
    ReplaceOnlyNewStart(raw, newStart);
  }

  function Max(a: int, b: int): int {
    if a >= b then a else b
  }

  /** The rebasing loop: `newStart = max(1, oldStart + offset)`, then the
      offset grows by `newCount - oldCount`. */
  function RebaseFrom(cs: seq<Chunk>, offset: int): seq<string>
  {
    if |cs| == 0 then []
    else
      [ReplaceNewStart(cs[0].raw, Max(1, cs[0].oldStart + offset) as nat)]
        + RebaseFrom(cs[1..], offset + cs[0].newCount - cs[0].oldCount)
  }

  /** The sum of `newCount - oldCount` over the first `n` chunks. */
  function Delta(cs: seq<Chunk>, n: nat): int
    requires n <= |cs|
  {
    if n == 0 then 0 else Delta(cs, n - 1) + cs[n - 1].newCount - cs[n - 1].oldCount
  }

  lemma {:induction false} DeltaTail(cs: seq<Chunk>, n: nat)
    requires 0 < n <= |cs|
    ensures Delta(cs, n) == cs[0].newCount - cs[0].oldCount + Delta(cs[1..], n - 1)
  {
    if n > 1 {
      DeltaTail(cs, n - 1);
    }
  }

  /** The n-th rebased chunk gets `max(1, oldStart + Σ(newCount − oldCount))`
      over the chunks before it. */
  lemma {:induction false} RebaseFormula(cs: seq<Chunk>, offset: int, n: nat)
    requires n < |cs|
    ensures |RebaseFrom(cs, offset)| == |cs|
    ensures RebaseFrom(cs, offset)[n] == ReplaceNewStart(cs[n].raw, Max(1, cs[n].oldStart + offset + Delta(cs, n)) as nat)
    decreases |cs|
  {
    if n > 0 {
      RebaseFormula(cs[1..], offset + cs[0].newCount - cs[0].oldCount, n - 1);
      DeltaTail(cs, n);
    } else {
      RebaseLength(cs[1..], offset + cs[0].newCount - cs[0].oldCount);
    }
  }

  lemma {:induction false} RebaseLength(cs: seq<Chunk>, offset: int)
    ensures |RebaseFrom(cs, offset)| == |cs|
    decreases |cs|
  {
    if |cs| > 0 {
      RebaseLength(cs[1..], offset + cs[0].newCount - cs[0].oldCount);
    }
  }

  /** `.filter(Boolean)`: drop empty strings. */
  function DropEmpty(ss: seq<string>): seq<string> {
    if |ss| == 0 then [] else (if ss[0] == [] then [] else [ss[0]]) + DropEmpty(ss[1..])
  }

  function ParseAll(raws: seq<string>): (r: seq<Chunk>)
    ensures |r| == |raws| && forall n :: 0 <= n < |raws| ==> r[n] == ParseChunk(raws[n])
  {
    seq(|raws|, n requires 0 <= n < |raws| => ParseChunk(raws[n]))
  }

  /** The hunk chunks of a section, from its first `@@` line on. */
  function Chunks(block: string): seq<string> {
    DropEmpty(SplitBefore(HunkCut, block))
  }

  /** One file section: text before the first line starting with `@@` is
      kept, the chunks after it are sorted and rebased. */
  function SortSection(section: string): string {
    match FirstCut(HunkCut, section, 0)
    case None => section
    case Some(f) =>
      section[..f] + Concat(RebaseFrom(SortChunks(ParseAll(Chunks(section[f..]))), 0))
  }

  function SortAndRebaseHunks(diff: string): string {
    var sections := SplitBefore(SectionCut, diff);
    Concat(seq(|sections|, i requires 0 <= i < |sections| => SortSection(sections[i])))
  }

  lemma {:induction false} DropEmptyNoop(ss: seq<string>)
    requires forall n :: 0 <= n < |ss| ==> ss[n] != []
    ensures DropEmpty(ss) == ss
    decreases |ss|
  {
    if |ss| > 0 {
      DropEmptyNoop(ss[1..]);
    }
  }

  /** The chunks of a hunk block tile it, and each starts with `@@`. */
  lemma ChunksTile(block: string)
    requires IsCut(HunkCut, block, 0)
    ensures Concat(Chunks(block)) == block
    ensures forall n :: 0 <= n < |Chunks(block)| ==> StartsWith(Chunks(block)[n], "@@")
  {
    var ps := SplitBefore(HunkCut, block);
    SplitBeforeConcat(HunkCut, block);
    SplitBeforeMarked(HunkCut, block);
    DropEmptyNoop(ps);
  }

  /** `out` holds the chunks of `cs` in order, the n-th with its new start
      set to `max(1, oldStart + Σ(newCount − oldCount))` over the chunks before it. */
  predicate Rebased(cs: seq<Chunk>, out: seq<string>) {
    && |out| == |cs|
    && forall n :: 0 <= n < |cs| ==>
         out[n] == ReplaceNewStart(cs[n].raw, Max(1, cs[n].oldStart + Delta(cs, n)) as nat)
  }

  /** Every rebased chunk at once. */
  lemma RebaseAll(cs: seq<Chunk>)
    ensures Rebased(cs, RebaseFrom(cs, 0))
  {
    RebaseLength(cs, 0);
    forall n | 0 <= n < |cs|
      ensures RebaseFrom(cs, 0)[n] == ReplaceNewStart(cs[n].raw, Max(1, cs[n].oldStart + Delta(cs, n)) as nat)
    {
      RebaseFormula(cs, 0, n);
    }
  }

  /** The text from the first `@@` line on starts with a cut. */
  lemma BlockStartsAtCut(section: string, f: nat)
    requires f <= |section| && IsCut(HunkCut, section, f)
    ensures IsCut(HunkCut, section[f..], 0)
  {
    OccursShift(section[..f], section[f..], "@@", 0);
    assert section[..f] + section[f..] == section;
  }

  lemma SortSectionFound(section: string, f: nat)
    requires FirstCut(HunkCut, section, 0) == Some(f)
    ensures SortSection(section) == section[..f] + Concat(RebaseFrom(SortChunks(ParseAll(Chunks(section[f..]))), 0))
  {
  }

  /** A section with an `@@` line: the text before that line is kept, and
      what follows is the concatenation, in stably sorted order, of the
      chunks it splits into, each with its new start rebased to
      `max(1, oldStart + Σ(newCount − oldCount))` over the chunks before it. */
  lemma SortSectionSpec(section: string, f: nat)
    requires FirstCut(HunkCut, section, 0) == Some(f)
    ensures var chunks := Chunks(section[f..]);
      var sorted := SortChunks(ParseAll(chunks));
      SortSection(section) == section[..f] + Concat(RebaseFrom(sorted, 0))
    ensures var chunks := Chunks(section[f..]);
      var sorted := SortChunks(ParseAll(chunks));
      && Concat(chunks) == section[f..]
      && (forall n :: 0 <= n < |chunks| ==> StartsWith(chunks[n], "@@"))
      && Sorted(sorted) && multiset(sorted) == multiset(ParseAll(chunks))
      && (forall v: nat :: WithKey(sorted, v) == WithKey(ParseAll(chunks), v))
      && Rebased(sorted, RebaseFrom(sorted, 0))
  {
    SortSectionFound(section, f);
    BlockStartsAtCut(section, f);
    ChunksTile(section[f..]);
    var sorted := SortChunks(ParseAll(Chunks(section[f..])));
    SortChunksSpec(ParseAll(Chunks(section[f..])));
    RebaseAll(sorted);
  }

  /** No section piece of a text without `@@` lines holds one. */
  lemma {:induction false} PiecesNoHunk(s: string, i: nat)
    requires i < |s| && (i == 0 || IsCut(SectionCut, s, i))
    requires forall m: nat :: m <= |s| ==> !IsCut(HunkCut, s, m)
    ensures forall n :: 0 <= n < |PiecesFrom(SectionCut, s, i)| ==>
      FirstCut(HunkCut, PiecesFrom(SectionCut, s, i)[n], 0) == None
    decreases |s| - i
  {
    var j := CutAfter(SectionCut, s, i);
    CutAfterSpec(SectionCut, s, i);
    PiecesFromStep(SectionCut, s, i);
    SliceNoHunk(s, i, j);
    FirstCutNone(HunkCut, s[i..j], 0);
    if j < |s| {
      PiecesNoHunk(s, j);
    }
  }

  /** A section piece of a text without `@@` lines has none either: its
      start is a `diff --git ` line, not an `@@` one. */
  lemma SliceNoHunk(s: string, i: nat, j: nat)
    requires i < j <= |s| && (i == 0 || IsCut(SectionCut, s, i))
    requires forall m: nat :: m <= |s| ==> !IsCut(HunkCut, s, m)
    ensures forall m: nat :: m <= j - i ==> !IsCut(HunkCut, s[i..j], m)
  {
    if i > 0 {
      OccursFirst(s, "diff --git ", i);
    }
    forall m: nat | m <= j - i
      ensures !IsCut(HunkCut, s[i..j], m)
    {
      if IsCut(HunkCut, s[i..j], m) && (i == 0 || m > 0) {
        SliceCut(HunkCut, s, i, j, m);
      }
      if i > 0 && m == 0 && j - i >= 2 {
        assert s[i..j][0] == s[i];
      }
    }
  }

  /** A diff with no line starting with `@@` comes back unchanged. */
  lemma SortNoHunks(diff: string)
    requires forall m: nat :: m <= |diff| ==> !IsCut(HunkCut, diff, m)
    ensures SortAndRebaseHunks(diff) == diff
  {
    var sections := SplitBefore(SectionCut, diff);
    SplitBeforeConcat(SectionCut, diff);
    if diff != [] {
      PiecesNoHunk(diff, 0);
    } else {
      assert IsCut(HunkCut, diff, 0) == false;
      FirstCutNone(HunkCut, diff, 0);
    }
    var out := seq(|sections|, i requires 0 <= i < |sections| => SortSection(sections[i]));
    assert out == sections;
  }
}
