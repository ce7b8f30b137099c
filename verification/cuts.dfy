/** JavaScript `s.split(/(?=X)/)` for the zero-width lookaheads the repository
    splits on. A lookahead never consumes text, so the string is cut at every
    index `i > 0` where the lookahead holds (a match at index 0 is empty and
    skipped), and an empty string gives the single piece `""`. */
module Cuts {
  import opened Text
  import opened Wrappers

  /** `(?=diff --git )`, and with the m flag `(?=^@@)`, `(?=^diff --git)` and
      the search pattern `^--- a\/`. */
  datatype Cut = SectionCut | HunkCut | GitLineCut | OldPathCut

  function Marker(k: Cut): string {
    match k
    case SectionCut => "diff --git "
    case HunkCut => "@@"
    case GitLineCut => "diff --git"
    case OldPathCut => "--- a/"
  }

  /** No marker contains a line terminator. */
  lemma MarkerPlain(k: Cut)
    ensures NoLineTerminator(Marker(k))
  {
  }

  /** `^` under the m flag: the start of the text or just after a line terminator. */
  predicate LineStart(s: string, i: nat)
    requires i <= |s|
  {
    i == 0 || IsLineTerminator(s[i - 1])
  }

  predicate IsCut(k: Cut, s: string, i: nat)
    requires i <= |s|
  {
    OccursAt(s, Marker(k), i) && (k == SectionCut || LineStart(s, i))
  }

  /** No cut strictly inside `s[..n]`. */
  predicate NoInnerCut(k: Cut, s: string, n: nat)
    requires n <= |s|
  {
    forall m: nat :: 0 < m < n ==> !IsCut(k, s, m)
  }

  /** The values of `f` at `0 .. n - 1`, in order. */
  function Mask(f: nat -> bool, n: nat): (c: seq<bool>)
    ensures |c| == n
  {
    if n == 0 then [] else Mask(f, n - 1) + [f(n - 1)]
  }

  lemma {:induction false} MaskAt(f: nat -> bool, n: nat)
    ensures forall m :: 0 <= m < n ==> Mask(f, n)[m] == f(m)
  {
    if n > 0 {
      MaskAt(f, n - 1);
    }
  }

  /** The cuts of `s`, position by position: `c[m]` holds when `s` is cut at `m`. */
  function CutMask(k: Cut, s: string): (c: seq<bool>)
    ensures |c| == |s| + 1
  {
    Mask((m: nat) => m <= |s| && IsCut(k, s, m), |s| + 1)
  }

  lemma MaskIs(k: Cut, s: string)
    ensures forall m :: 0 <= m <= |s| ==> CutMask(k, s)[m] == IsCut(k, s, m)
  {
    MaskAt((m: nat) => m <= |s| && IsCut(k, s, m), |s| + 1);
  }

  /** In a mask over a text of `|c| - 1` characters, the first marked
      position after `i`, or the end of the text. */
  function NextCut(c: seq<bool>, i: nat): (j: nat)
    requires i + 1 < |c|
    ensures i < j < |c|
    decreases |c| - i
  {
    if i + 2 == |c| || c[i + 1] then i + 1 else NextCut(c, i + 1)
  }

  /** The pieces of `s` from `i` on, ending each one at the next marked position. */
  function Slices(s: string, c: seq<bool>, i: nat): seq<string>
    requires |c| == |s| + 1 && i < |s|
    decreases |s| - i
  {
    var j := NextCut(c, i);
    [s[i..j]] + (if j == |s| then [] else Slices(s, c, j))
  }

  /** The end of the piece that starts at `i`: the next cut, or the end of the text. */
  function CutAfter(k: Cut, s: string, i: nat): (j: nat)
    requires i < |s|
    ensures i < j <= |s|
  {
    NextCut(CutMask(k, s), i)
  }

  lemma {:induction false} NextCutSpec(c: seq<bool>, i: nat)
    requires i + 1 < |c|
    ensures NextCut(c, i) == |c| - 1 || c[NextCut(c, i)]
    ensures forall m :: i < m < NextCut(c, i) ==> !c[m]
    decreases |c| - i
  {
    if !(i + 2 == |c| || c[i + 1]) {
      NextCutSpec(c, i + 1);
    }
  }

  /** The first marked position after `i`, if nothing lies between, is the next cut. */
  lemma {:induction false} NextCutIs(c: seq<bool>, i: nat, j: nat)
    requires i < j < |c| && (j == |c| - 1 || c[j])
    requires forall m :: i < m < j ==> !c[m]
    ensures NextCut(c, i) == j
    decreases j - i
  {
    if i + 1 < j {
      NextCutIs(c, i + 1, j);
    }
  }

  /** A piece from `i` with no cut inside that ends at a cut or at the end. */
  lemma CutAfterIs(k: Cut, s: string, i: nat, j: nat)
    requires i < j <= |s| && (j == |s| || IsCut(k, s, j))
    requires forall m: nat :: i < m < j ==> !IsCut(k, s, m)
    ensures CutAfter(k, s, i) == j
  {
    MaskIs(k, s);
    NextCutIs(CutMask(k, s), i, j);
  }

  /** The piece that starts at `i` ends at the next cut, or at the end of the text. */
  lemma CutAfterSpec(k: Cut, s: string, i: nat)
    requires i < |s|
    ensures CutAfter(k, s, i) == |s| || IsCut(k, s, CutAfter(k, s, i))
    ensures forall m: nat :: i < m < CutAfter(k, s, i) ==> !IsCut(k, s, m)
  {
    MaskIs(k, s);
    NextCutSpec(CutMask(k, s), i);
  }

  function PiecesFrom(k: Cut, s: string, i: nat): (r: seq<string>)
    requires i < |s|
  {
    Slices(s, CutMask(k, s), i)
  }

  /** One piece, then the pieces from where it ends. */
  lemma PiecesFromStep(k: Cut, s: string, i: nat)
    requires i < |s|
    ensures PiecesFrom(k, s, i) ==
      [s[i..CutAfter(k, s, i)]] + (if CutAfter(k, s, i) == |s| then [] else PiecesFrom(k, s, CutAfter(k, s, i)))
  {
  }

  /** `s.split(/(?=X)/)`. */
  function SplitBefore(k: Cut, s: string): (r: seq<string>)
  {
    if s == [] then [""] else PiecesFrom(k, s, 0)
  }

  lemma {:induction false} PiecesFromConcat(k: Cut, s: string, i: nat)
    requires i < |s|
    ensures Concat(PiecesFrom(k, s, i)) == s[i..]
    ensures forall n :: 0 <= n < |PiecesFrom(k, s, i)| ==> PiecesFrom(k, s, i)[n] != []
    decreases |s| - i
  {
    var j := CutAfter(k, s, i);
    PiecesFromStep(k, s, i);
    var r := PiecesFrom(k, s, i);
    if j == |s| {
      assert s[i..j] == s[i..];
      assert Concat(r) == s[i..] + Concat([]);
    } else {
      PiecesFromConcat(k, s, j);
      assert r[1..] == PiecesFrom(k, s, j);
      Unsplit(s[i..], j - i);
      assert s[i..][..j - i] == s[i..j] && s[i..][j - i..] == s[j..];
    }
  }

  /** The pieces are non-empty (unless the text is) and concatenate back to the text. */
  lemma SplitBeforeConcat(k: Cut, s: string)
    ensures |SplitBefore(k, s)| >= 1
    ensures Concat(SplitBefore(k, s)) == s
    ensures s != [] ==> forall n :: 0 <= n < |SplitBefore(k, s)| ==> SplitBefore(k, s)[n] != []
  {
    if s != [] {
      PiecesFromConcat(k, s, 0);
    }
  }

  /** Every piece after the first starts with the marker, at a cut. */
  lemma {:induction false} PiecesFromMarked(k: Cut, s: string, i: nat)
    requires i < |s| && (i == 0 || IsCut(k, s, i))
    ensures forall n :: 0 < n < |PiecesFrom(k, s, i)| ==> StartsWith(PiecesFrom(k, s, i)[n], Marker(k))
    ensures IsCut(k, s, i) ==> StartsWith(PiecesFrom(k, s, i)[0], Marker(k))
    decreases |s| - i
  {
    var j := CutAfter(k, s, i);
    CutAfterSpec(k, s, i);
    PiecesFromStep(k, s, i);
    if IsCut(k, s, i) {
      if j < i + |Marker(k)| {
        MarkerNoOverlap(k, s, i, j);
      }
      OccursPrefix(s, Marker(k), i, j);
    }
    if j < |s| {
      PiecesFromMarked(k, s, j);
    }
  }

  /** Two cuts are at least a marker apart. */
  lemma MarkerNoOverlap(k: Cut, s: string, i: nat, m: nat)
    requires i < m < i + |Marker(k)| && m <= |s| && IsCut(k, s, i)
    ensures !IsCut(k, s, m)
  {
    var x := Marker(k);
    if k == SectionCut {
      assert s[m] == x[m - i] by { assert s[i..i + |x|][m - i] == s[m]; }
      if OccursAt(s, x, m) {
        OccursFirst(s, x, m);
      }
    } else {
      assert s[m - 1] == x[m - 1 - i] by { assert s[i..i + |x|][m - 1 - i] == s[m - 1]; }
      MarkerPlain(k);
    }
  }

  lemma SplitBeforeMarked(k: Cut, s: string)
    ensures forall n :: 0 < n < |SplitBefore(k, s)| ==> StartsWith(SplitBefore(k, s)[n], Marker(k))
    ensures IsCut(k, s, 0) ==> StartsWith(SplitBefore(k, s)[0], Marker(k))
  {
    if s != [] {
      PiecesFromMarked(k, s, 0);
    }
  }

  /** Cuts past the first character of `b` do not depend on what precedes `b`. */
  lemma CutShift(k: Cut, a: string, b: string, m: nat)
    requires 0 < m <= |b|
    ensures IsCut(k, a + b, |a| + m) == IsCut(k, b, m)
  {
    OccursShift(a, b, Marker(k), m);
    assert (a + b)[|a| + m - 1] == b[m - 1];
  }

  lemma {:induction false} NextCutSuffix(c: seq<bool>, e: seq<bool>, d: nat, i: nat)
    requires d + i + 1 < |c| && |c| == d + |e|
    requires forall m :: 0 < m < |e| ==> c[d + m] == e[m]
    ensures NextCut(c, d + i) == d + NextCut(e, i)
    decreases |c| - i
  {
    if d + i + 2 < |c| && !c[d + i + 1] {
      NextCutSuffix(c, e, d, i + 1);
    }
  }

  /** Slicing a suffix `t` of a text gives its pieces, provided the two
      masks agree past the suffix's first position. */
  lemma {:induction false} SlicesSuffix(s: string, c: seq<bool>, t: string, e: seq<bool>, d: nat, i: nat)
    requires |c| == |s| + 1 && d + i < |s| && t == s[d..] && |e| == |t| + 1
    requires forall m :: 0 < m < |e| ==> c[d + m] == e[m]
    ensures Slices(s, c, d + i) == Slices(t, e, i)
    decreases |s| - i
  {
    NextCutSuffix(c, e, d, i);
    var j := NextCut(e, i);
    assert s[d + i..d + j] == t[i..j];
    if d + j < |s| {
      SlicesSuffix(s, c, t, e, d, j);
    }
  }

  /** Past the first character of `b`, `a + b` is cut where `b` is. */
  lemma MaskShift(k: Cut, a: string, b: string)
    ensures forall m :: 0 < m < |CutMask(k, b)| ==> CutMask(k, a + b)[|a| + m] == CutMask(k, b)[m]
  {
    MaskIs(k, a + b);
    MaskIs(k, b);
    forall m | 0 < m < |CutMask(k, b)|
      ensures CutMask(k, a + b)[|a| + m] == CutMask(k, b)[m]
    {
      CutShift(k, a, b, m);
    }
  }

  /** The pieces of `b` from `i` on are those of `a + b` from `|a| + i` on. */
  lemma PiecesFromShift(k: Cut, a: string, b: string, i: nat)
    requires i < |b|
    ensures PiecesFrom(k, a + b, |a| + i) == PiecesFrom(k, b, i)
  {
    MaskShift(k, a, b);
    assert (a + b)[|a|..] == b;
    SlicesSuffix(a + b, CutMask(k, a + b), b, CutMask(k, b), |a|, i);
  }

  /** Splitting `a + b`, where `a` holds no cut and `b` starts at a cut, gives
      `a` followed by the pieces of `b`. */
  lemma SplitBeforeCons(k: Cut, a: string, b: string)
    requires a != [] && NoInnerCut(k, a + b, |a|)
    requires b != [] ==> IsCut(k, a + b, |a|)
    ensures SplitBefore(k, a + b) == [a] + (if b == [] then [] else SplitBefore(k, b))
  {
    var s := a + b;
    CutAfterIs(k, s, 0, |a|);
    PiecesFromStep(k, s, 0);
    assert s[0..|a|] == a;
    if b != [] {
      PiecesFromShift(k, a, b, 0);
    }
  }

  /** The first marked position at or after `from`. */
  function FirstMarked(c: seq<bool>, from: nat): (r: Option<nat>)
    requires from < |c|
    ensures r.Some? ==> from <= r.value < |c| && c[r.value]
    decreases |c| - from
  {
    if c[from] then Some(from)
    else if from + 1 == |c| then None
    else FirstMarked(c, from + 1)
  }

  lemma {:induction false} FirstMarkedLeftmost(c: seq<bool>, from: nat, m: nat)
    requires from <= m < |c| && c[m]
    ensures FirstMarked(c, from).Some? && FirstMarked(c, from).value <= m
    decreases |c| - from
  {
    if !c[from] {
      FirstMarkedLeftmost(c, from + 1, m);
    }
  }

  lemma {:induction false} FirstMarkedNone(c: seq<bool>, from: nat)
    requires from < |c| && forall m :: from <= m < |c| ==> !c[m]
    ensures FirstMarked(c, from) == None
    decreases |c| - from
  {
    if from + 1 < |c| {
      FirstMarkedNone(c, from + 1);
    }
  }

  /** `s.search(/^X/m)`: the first index at or after `from` where a line starts with the marker. */
  function FirstCut(k: Cut, s: string, from: nat): (r: Option<nat>)
    requires from <= |s|
    ensures r.Some? ==> from <= r.value <= |s| && IsCut(k, s, r.value)
  {
    MaskIs(k, s);
    FirstMarked(CutMask(k, s), from)
  }

  /** FirstCut is the leftmost cut: none lies before it, and none at all when it finds nothing. */
  lemma FirstCutLeftmost(k: Cut, s: string, from: nat, m: nat)
    requires from <= m <= |s| && IsCut(k, s, m)
    ensures FirstCut(k, s, from).Some? && FirstCut(k, s, from).value <= m
  {
    MaskIs(k, s);
    FirstMarkedLeftmost(CutMask(k, s), from, m);
  }

  /** With no cut at or after `from`, the search finds nothing. */
  lemma FirstCutNone(k: Cut, s: string, from: nat)
    requires from <= |s| && forall m: nat :: from <= m <= |s| ==> !IsCut(k, s, m)
    ensures FirstCut(k, s, from) == None
  {
    MaskIs(k, s);
    FirstMarkedNone(CutMask(k, s), from);
  }

  /** A cut inside a slice is a cut of the whole text, except possibly at the
      very start of a slice that starts mid-text. */
  lemma SliceCut(k: Cut, s: string, i: nat, j: nat, m: nat)
    requires i <= j <= |s| && m <= j - i && IsCut(k, s[i..j], m)
    requires i == 0 || m > 0
    ensures IsCut(k, s, i + m)
  {
    var x := Marker(k);
    var t := s[i..j];
    assert OccursAt(t, x, m);
    SliceSlice(s, i, j, m, m + |x|);
    assert OccursAt(s, x, i + m);
    if m > 0 {
      assert t[m - 1] == s[i + m - 1];
    }
  }

  /** No piece holds a cut after its first character. */
  lemma {:induction false} PiecesNoInner(k: Cut, s: string, i: nat)
    requires i < |s|
    ensures forall n :: 0 <= n < |PiecesFrom(k, s, i)| ==>
      NoInnerCut(k, PiecesFrom(k, s, i)[n], |PiecesFrom(k, s, i)[n]|)
    decreases |s| - i
  {
    var j := CutAfter(k, s, i);
    CutAfterSpec(k, s, i);
    PiecesFromStep(k, s, i);
    forall m: nat | 0 < m < j - i
      ensures !IsCut(k, s[i..j], m)
    {
      if IsCut(k, s[i..j], m) {
        SliceCut(k, s, i, j, m);
      }
    }
    if j < |s| {
      PiecesNoInner(k, s, j);
    }
  }

  lemma SplitBeforeNoInner(k: Cut, s: string)
    ensures forall n :: 0 <= n < |SplitBefore(k, s)| ==>
      NoInnerCut(k, SplitBefore(k, s)[n], |SplitBefore(k, s)[n]|)
  {
    if s != [] {
      PiecesNoInner(k, s, 0);
    }
  }

  /** A piece with no cut after its first character, a line break and text
      that starts with the marker: the only cut after the piece's start is
      the one just after the line break. */
  lemma JoinedCut(k: Cut, h: string, b: string)
    requires NoInnerCut(k, h, |h|) && StartsWith(b, Marker(k))
    ensures NoInnerCut(k, h + "\n" + b, |h| + 1)
    ensures IsCut(k, h + "\n" + b, |h| + 1)
  {
    var s := h + "\n" + b;
    var x := Marker(k);
    MarkerPlain(k);
    assert s[|h|] == '\n';
    forall m: nat | 0 < m < |h| + 1
      ensures !IsCut(k, s, m)
    {
      if m + |x| <= |h| {
        assert s[m..m + |x|] == h[m..m + |x|];
        assert s[m - 1] == h[m - 1];
        assert !IsCut(k, h, m);
      } else {
        assert m <= |h| < m + |x|;
        if m + |x| <= |s| {
          assert s[m..m + |x|][|h| - m] == s[|h|];
        }
      }
    }
    CutAfterBreak(k, h, b);
  }

  /** The marker just after a line break is a cut. */
  lemma CutAfterBreak(k: Cut, h: string, b: string)
    requires StartsWith(b, Marker(k))
    ensures IsCut(k, h + "\n" + b, |h| + 1)
  {
    var s := h + "\n" + b;
    var x := Marker(k);
    assert s[|h|] == '\n';
    assert s[|h| + 1..] == b;
    assert s[|h| + 1..|h| + 1 + |x|] == b[..|x|];
  }
}

