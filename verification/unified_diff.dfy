/** `parseUnifiedDiff` and `formatUnifiedDiff` (unifiedDiff.ts): the text is
    split before every line that starts with `diff --git`, and every piece
    whose start reads as a `diff --git a/X b/Y` header becomes one file entry
    holding the whole piece. Formatting joins the pieces with line breaks. */
module UnifiedDiff {
  import opened Text
  import opened Cuts
  import opened GitPaths

  /** `FileDiff`: the two header paths and the whole section text. */
  datatype FileDiff = FileDiff(fromPath: string, toPath: string, hunks: string)

  /** The entry one piece yields: none when it is blank or does not start
      with a header. */
  function ParsePart(part: string): (r: seq<FileDiff>)
    ensures |r| <= 1
  {
    if Trim(part) == "" then []
    else
      match HeaderAt(Lazy, part, 0)
      case None => []
      case Some(h) => [FileDiff(h.fromPath, h.toPath, part)]
  }

  /** The results of `f` on each element, concatenated in order. */
  function FlatMap<T, U>(f: T -> seq<U>, xs: seq<T>): seq<U> {
    if |xs| == 0 then [] else f(xs[0]) + FlatMap(f, xs[1..])
  }

  lemma {:induction false} FlatMapAppend<T, U>(f: T -> seq<U>, a: seq<T>, b: seq<T>)
    ensures FlatMap(f, a + b) == FlatMap(f, a) + FlatMap(f, b)
    decreases |a|
  {
    if |a| == 0 {
      assert a + b == b;
    } else {
      assert (a + b)[0] == a[0] && (a + b)[1..] == a[1..] + b;
      FlatMapAppend(f, a[1..], b);
    }
  }

  /** The `for (const part of parts)` loop: each piece adds its entry, if any. */
  function ParseParts(parts: seq<string>): (r: seq<FileDiff>)
  {
    FlatMap(ParsePart, parts)
  }

  function ParseUnifiedDiff(diff: string): seq<FileDiff> {
    ParseParts(SplitBefore(GitLineCut, diff))
  }

  function HunksOf(fds: seq<FileDiff>): (r: seq<string>)
    ensures |r| == |fds| && forall i :: 0 <= i < |fds| ==> r[i] == fds[i].hunks
  {
    seq(|fds|, i requires 0 <= i < |fds| => fds[i].hunks)
  }

  /** The sections joined by line breaks; no sections give the empty text. */
  function FormatUnifiedDiff(fds: seq<FileDiff>): (r: string)
    ensures |fds| == 0 ==> r == ""
    ensures forall i :: 0 <= i < |fds| ==> Contains(r, fds[i].hunks)
  {
    var r := Join(HunksOf(fds), "\n");
    forall i | 0 <= i < |fds|
      ensures Contains(r, fds[i].hunks)
    {
      JoinContains(HunksOf(fds), "\n", i, fds[i].hunks);
    }
    r
  }

  /** A piece yields an entry exactly when it starts with a header; the entry
      holds the piece whole and the paths its header line spells, the first
      being the shortest one followed by ` b/`. */
  lemma ParsePartSpec(part: string)
    ensures |ParsePart(part)| == 1 <==> HeaderAt(Lazy, part, 0).Some?
    ensures |ParsePart(part)| == 1 ==>
      var e := ParsePart(part)[0];
      && e.hunks == part
      && LazyPaths(e.fromPath, e.toPath)
      && StartsWith(part, HeaderLine(e.fromPath, e.toPath))
      && LazyReads(part, e.fromPath, e.toPath)
  {
    if HeaderAt(Lazy, part, 0).Some? {
      var h := HeaderAt(Lazy, part, 0).value;
      assert part[0] == 'd' by { assert part[0..13][0] == part[0]; }
      assert !AllSpace(part);
      TrimEmpty(part);
      LazySound(part, 0);
      assert part[..h.end][..16 + |h.fromPath| + |h.toPath|] == part[..16 + |h.fromPath| + |h.toPath|];
    }
  }

  /** Parsing respects the order of the pieces: the entries of two runs of
      pieces are the entries of the first followed by those of the second. */
  lemma {:induction false} ParsePartsAppend(a: seq<string>, b: seq<string>)
    ensures ParseParts(a + b) == ParseParts(a) + ParseParts(b)
  {
    FlatMapAppend(ParsePart, a, b);
  }

  /** Every entry comes from a piece with a header and holds it whole. */
  lemma {:induction false} ParsePartsSound(parts: seq<string>)
    ensures forall i :: 0 <= i < |ParseParts(parts)| ==>
      ParseParts(parts)[i].hunks in parts && Entry(ParseParts(parts)[i])
    decreases |parts|
  {
    if |parts| > 0 {
      ParsePartsSound(parts[1..]);
      var r := ParseParts(parts);
      var r0 := ParsePart(parts[0]);
      forall i | 0 <= i < |r|
        ensures r[i].hunks in parts && Entry(r[i])
      {
        if i < |r0| {
          assert r[i] == r0[0];
          assert r0[0].hunks == parts[0];
        } else {
          assert r[i] == ParseParts(parts[1..])[i - |r0|];
          assert r[i].hunks in parts[1..];
        }
      }
    }
  }

  /** An entry as parsing makes it: the section starts with its header line. */
  predicate Entry(e: FileDiff) {
    LazyReads(e.hunks, e.fromPath, e.toPath)
  }

  /** A parsed section: it starts with its header and holds no other line
      that starts with `diff --git`. */
  predicate Section(e: FileDiff) {
    Entry(e) && NoInnerCut(GitLineCut, e.hunks, |e.hunks|)
  }

  /** Every entry of a parse is a section. */
  lemma ParsedSections(diff: string)
    ensures forall i :: 0 <= i < |ParseUnifiedDiff(diff)| ==> Section(ParseUnifiedDiff(diff)[i])
  {
    ParsePartsSound(SplitBefore(GitLineCut, diff));
    SplitBeforeNoInner(GitLineCut, diff);
  }

  /** A text that reads as a header starts with the `diff --git` marker. */
  lemma HeaderMarked(s: string)
    requires HeaderAt(Lazy, s, 0).Some?
    ensures StartsWith(s, Marker(GitLineCut))
  {
    assert s[..10] == s[0..13][..10];
  }

  /** The pieces `formatUnifiedDiff` output splits into: each section, with
      the line break that followed it, if any. */
  function Terminated(hs: seq<string>): (r: seq<string>)
    ensures |r| == |hs|
  {
    seq(|hs|, i requires 0 <= i < |hs| => hs[i] + (if i + 1 < |hs| then "\n" else ""))
  }

  /** Joining sections with line breaks and splitting the result again
      gives every section back, each with its line break. */
  lemma {:induction false} SplitJoined(hs: seq<string>)
    requires |hs| >= 1
    requires forall i :: 0 <= i < |hs| ==>
      StartsWith(hs[i], Marker(GitLineCut)) && NoInnerCut(GitLineCut, hs[i], |hs[i]|)
    ensures SplitBefore(GitLineCut, Join(hs, "\n")) == Terminated(hs)
    decreases |hs|
  {
    var k := GitLineCut;
    if |hs| == 1 {
      assert hs[0] + [] == hs[0];
      SplitBeforeCons(k, hs[0], []);
    } else {
      var b := Join(hs[1..], "\n");
      JoinStartsWith(hs[1..], "\n");
      assert StartsWith(b, Marker(k)) by { assert b[..10] == hs[1][..10]; }
      JoinedCut(k, hs[0], b);
      assert Join(hs, "\n") == (hs[0] + "\n") + b;
      SplitBeforeCons(k, hs[0] + "\n", b);
      SplitJoined(hs[1..]);
      assert Terminated(hs) == [hs[0] + "\n"] + Terminated(hs[1..]);
    }
  }

  /** Pieces that all start with a header yield one entry each, in order. */
  lemma {:induction false} ParsePartsEach(ps: seq<string>)
    requires forall i :: 0 <= i < |ps| ==> HeaderAt(Lazy, ps[i], 0).Some?
    ensures |ParseParts(ps)| == |ps|
    ensures forall i :: 0 <= i < |ps| ==>
      ParseParts(ps)[i] == FileDiff(HeaderAt(Lazy, ps[i], 0).value.fromPath, HeaderAt(Lazy, ps[i], 0).value.toPath, ps[i])
    decreases |ps|
  {
    if |ps| > 0 {
      ParsePartOf(ps[0]);
      ParsePartsEach(ps[1..]);
    }
  }

  lemma ParsePartOf(part: string)
    requires HeaderAt(Lazy, part, 0).Some?
    ensures ParsePart(part) ==
      [FileDiff(HeaderAt(Lazy, part, 0).value.fromPath, HeaderAt(Lazy, part, 0).value.toPath, part)]
  {
    assert part[0] == 'd' by { assert part[0..13][0] == part[0]; }
    TrimEmpty(part);
  }

  /** `parsed` and `again` list the same paths, section for section, and
      each section of `again` is that of `parsed` with the line break
      formatting put after it. */
  predicate Reparsed(parsed: seq<FileDiff>, again: seq<FileDiff>) {
    |again| == |parsed|
    && forall i :: 0 <= i < |parsed| ==>
      && again[i].fromPath == parsed[i].fromPath
      && again[i].toPath == parsed[i].toPath
      && again[i].hunks == parsed[i].hunks + (if i + 1 < |parsed| then "\n" else "")
  }

  /** Formatting a parse and parsing the result gives the same paths, in
      the same order. */
  lemma RoundTrip(diff: string)
    ensures Reparsed(ParseUnifiedDiff(diff), ParseUnifiedDiff(FormatUnifiedDiff(ParseUnifiedDiff(diff))))
  {
    ParsedSections(diff);
    ReparseSections(ParseUnifiedDiff(diff));
  }

  /** Formatting sections and parsing the result gives their paths back. */
  lemma ReparseSections(fds: seq<FileDiff>)
    requires forall i :: 0 <= i < |fds| ==> Section(fds[i])
    ensures Reparsed(fds, ParseUnifiedDiff(FormatUnifiedDiff(fds)))
  {
    if |fds| == 0 {
      ReparseNone(fds);
    } else {
      FormattedPieces(fds);
      ReparseTerminated(fds);
    }
  }

  /** No sections format to the empty text, which parses to no entry. */
  lemma ReparseNone(fds: seq<FileDiff>)
    requires |fds| == 0
    ensures ParseUnifiedDiff(FormatUnifiedDiff(fds)) == []
  {
    assert FormatUnifiedDiff(fds) == "";
    ParseEmpty();
  }

  /** The empty text parses to no entry. */
  lemma ParseEmpty()
    ensures ParseUnifiedDiff("") == []
  {
    var parts := SplitBefore(GitLineCut, "");
    assert parts == [""];
    assert ParsePart("") == [] by {
      TrimEmpty("");
    }
    assert ParseParts(parts) == ParsePart("") + ParseParts([]);
  }

  /** The formatted text of sections splits into the terminated sections. */
  lemma FormattedPieces(fds: seq<FileDiff>)
    requires |fds| >= 1 && forall i :: 0 <= i < |fds| ==> Section(fds[i])
    ensures SplitBefore(GitLineCut, FormatUnifiedDiff(fds)) == Terminated(HunksOf(fds))
  {
    var hs := HunksOf(fds);
    forall i | 0 <= i < |hs|
      ensures StartsWith(hs[i], Marker(GitLineCut)) && NoInnerCut(GitLineCut, hs[i], |hs[i]|)
    {
      HeaderMarked(hs[i]);
    }
    SplitJoined(hs);
  }

  /** Each terminated section parses to the paths of its section. */
  lemma ReparseTerminated(fds: seq<FileDiff>)
    requires forall i :: 0 <= i < |fds| ==> Entry(fds[i])
    ensures Reparsed(fds, ParseParts(Terminated(HunksOf(fds))))
  {
    var hs := HunksOf(fds);
    var ps := Terminated(hs);
    forall i | 0 <= i < |ps|
      ensures HeaderAt(Lazy, ps[i], 0).Some?
      ensures HeaderAt(Lazy, ps[i], 0).value.fromPath == fds[i].fromPath
      ensures HeaderAt(Lazy, ps[i], 0).value.toPath == fds[i].toPath
    {
      LazyExtend(hs[i], if i + 1 < |hs| then "\n" else "");
    }
    ParsePartsEach(ps);
  }
}

