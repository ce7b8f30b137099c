/** The paths of a `diff --git a/X b/Y` line as the repository's regular
    expressions read them. The validator and the unified-diff parser use
    `diff --git a\/(.+?) b\/(.+)`: the first path is the SHORTEST non-empty
    run before a ` b/` that is followed by at least one more character of the
    line. The diff viewer uses `diff --git a\/(.*) b\/(.*)`: the first path
    is the LONGEST run before a ` b/` on the line. In both the second path is
    the rest of the line; `.` never crosses a line terminator. */
module GitPaths {
  import opened Text
  import opened Wrappers

  /** `(.+?)` or `(.*)` for the first path. */
  datatype Quantifier = Lazy | Greedy

  /** The two captured paths and the index where the match ends. */
  datatype Paths = Paths(fromPath: string, toPath: string, end: nat)

  /** ` b/` at `i` followed by one more character of the same line. */
  predicate LazyGap(s: string, i: nat) {
    OccursAt(s, " b/", i) && i + 3 < |s| && !IsLineTerminator(s[i + 3])
  }

  /** A first path of `n` characters from `q` satisfies `(.+?) b\/(.+)`. */
  predicate LazyFits(s: string, q: nat, n: nat) {
    n >= 1 && q + n <= |s| && NoLineTerminator(s[q..q + n]) && LazyGap(s, q + n)
  }

  /** A first path of `n` characters from `q` satisfies `(.*) b\/(.*)`. */
  predicate GreedyFits(s: string, q: nat, n: nat) {
    q + n <= |s| && NoLineTerminator(s[q..q + n]) && OccursAt(s, " b/", q + n)
  }

  /** The lazy quantifier tries lengths `n, n + 1, …` until the line ends. */
  function LazyFrom(s: string, q: nat, n: nat): (r: Option<nat>)
    requires n >= 1 && q + n - 1 <= |s| && NoLineTerminator(s[q..q + n - 1])
    ensures r.Some? ==> n <= r.value && LazyFits(s, q, r.value)
    decreases |s| + 1 - q - n
  {
    if q + n > |s| || IsLineTerminator(s[q + n - 1]) then None
    else
      assert s[q..q + n] == s[q..q + n - 1] + [s[q + n - 1]];
      if LazyGap(s, q + n) then Some(n)
      else LazyFrom(s, q, n + 1)
  }

  /** The greedy quantifier tries lengths `n, n - 1, …, 0`. */
  function GreedyDown(s: string, q: nat, n: nat): (r: Option<nat>)
    requires q + n <= |s| && NoLineTerminator(s[q..q + n])
    ensures r.Some? ==> r.value <= n && GreedyFits(s, q, r.value)
    decreases n
  {
    if OccursAt(s, " b/", q + n) then Some(n)
    else if n == 0 then None
    else
      assert s[q..q + n - 1] == s[q..q + n][..n - 1];
      GreedyDown(s, q, n - 1)
  }

  /** The length of the first path matched from `q`, if any. */
  function FirstPath(g: Quantifier, s: string, q: nat): (r: Option<nat>)
    requires q <= |s|
    ensures r.Some? && g == Lazy ==> LazyFits(s, q, r.value)
    ensures r.Some? && g == Greedy ==> GreedyFits(s, q, r.value)
  {
    if g == Lazy then
      assert s[q..q] == [];
      LazyFrom(s, q, 1)
    else GreedyDown(s, q, LineEnd(s, q) - q)
  }

  /** The header expression matched at index `p`. */
  function HeaderAt(g: Quantifier, s: string, p: nat): (r: Option<Paths>)
    ensures r.Some? ==> p < r.value.end <= |s|
  {
    if !OccursAt(s, "diff --git a/", p) then None
    else
      var q := p + 13;
      match FirstPath(g, s, q)
      case None => None
      case Some(n) =>
        var to := RestOfLine(s, q + n + 3);
        Some(Paths(s[q..q + n], to, q + n + 3 + |to|))
  }

  /** The leftmost index at or after `from` where the header matches. */
  function FindHeader(g: Quantifier, s: string, from: nat): (r: Option<nat>)
    requires from <= |s|
    ensures r.Some? ==> from <= r.value <= |s| && HeaderAt(g, s, r.value).Some?
    decreases |s| - from
  {
    if HeaderAt(g, s, from).Some? then Some(from)
    else if from == |s| then None
    else FindHeader(g, s, from + 1)
  }

  /** FindHeader finds a match whenever there is one, and none lies before it. */
  lemma {:induction false} FindHeaderLeftmost(g: Quantifier, s: string, from: nat, j: nat)
    requires from <= j <= |s| && HeaderAt(g, s, j).Some?
    ensures FindHeader(g, s, from).Some? && FindHeader(g, s, from).value <= j
    decreases |s| - from
  {
    if HeaderAt(g, s, from).None? {
      FindHeaderLeftmost(g, s, from + 1, j);
    }
  }

  /** The lazy path is the shortest that fits. */
  lemma {:induction false} LazyFromLeast(s: string, q: nat, n: nat, m: nat)
    requires n >= 1 && q + n - 1 <= |s| && NoLineTerminator(s[q..q + n - 1])
    requires n <= m && LazyFits(s, q, m)
    ensures LazyFrom(s, q, n).Some? && LazyFrom(s, q, n).value <= m
    decreases m - n
  {
    assert s[q..q + m][n - 1] == s[q + n - 1];
    if !LazyGap(s, q + n) {
      LinePrefix(s, q, n, m);
      LazyFromLeast(s, q, n + 1, m);
    }
  }

  /** A prefix of a run without line terminators has none either. */
  lemma LinePrefix(s: string, q: nat, n: nat, m: nat)
    requires n <= m && q + m <= |s| && NoLineTerminator(s[q..q + m])
    ensures NoLineTerminator(s[q..q + n])
  {
    var x, y := s[q..q + n], s[q..q + m];
    forall i | 0 <= i < n
      ensures !IsLineTerminator(x[i])
    {
      assert x[i] == y[i];
    }
  }

  /** The greedy path is the longest that fits on the line. */
  lemma {:induction false} GreedyDownMost(s: string, q: nat, n: nat, m: nat)
    requires q + n <= |s| && NoLineTerminator(s[q..q + n])
    requires m <= n && GreedyFits(s, q, m)
    ensures GreedyDown(s, q, n).Some? && m <= GreedyDown(s, q, n).value
    decreases n
  {
    if !OccursAt(s, " b/", q + n) && n > m {
      assert s[q..q + n - 1] == s[q..q + n][..n - 1];
      GreedyDownMost(s, q, n - 1, m);
    }
  }

  /** The lazy first path is the shortest that fits. */
  lemma LazyFirstPath(s: string, q: nat)
    requires q <= |s| && FirstPath(Lazy, s, q).Some?
    ensures forall m :: 1 <= m < FirstPath(Lazy, s, q).value ==> !LazyFits(s, q, m)
  {
    forall m | 1 <= m < FirstPath(Lazy, s, q).value
      ensures !LazyFits(s, q, m)
    {
      assert s[q..q] == [];
      if LazyFits(s, q, m) {
        LazyFromLeast(s, q, 1, m);
      }
    }
  }

  /** The greedy first path is the longest that fits. */
  lemma GreedyFirstPath(s: string, q: nat)
    requires q <= |s| && FirstPath(Greedy, s, q).Some?
    ensures forall m :: FirstPath(Greedy, s, q).value < m ==> !GreedyFits(s, q, m)
  {
    var e := LineEnd(s, q);
    forall m | FirstPath(Greedy, s, q).value < m
      ensures !GreedyFits(s, q, m)
    {
      if GreedyFits(s, q, m) && q + m <= e {
        GreedyDownMost(s, q, e - q, m);
      }
    }
  }

  /** Paths the lazy expression reads back unchanged: both non-empty, on one
      line, and no ` b/` inside the first path after its first character. */
  predicate LazyPaths(x: string, y: string) {
    |x| >= 1 && |y| >= 1 && NoLineTerminator(x) && NoLineTerminator(y) && NoInnerSeparator(x)
  }

  /** No ` b/` in `x` after its first character. */
  predicate NoInnerSeparator(x: string) {
    forall m: nat :: 1 <= m && m + 3 <= |x| ==> !OccursAt(x, " b/", m)
  }

  /** The header line of two paths. */
  function HeaderLine(x: string, y: string): string {
    "diff --git a/" + x + " b/" + y
  }

  /** A lazy match at `p` spells out a header line of paths it reads back,
      followed by the end of the line. */
  lemma LazySound(s: string, p: nat)
    requires HeaderAt(Lazy, s, p).Some?
    ensures var h := HeaderAt(Lazy, s, p).value;
      && LazyPaths(h.fromPath, h.toPath)
      && s[p..h.end] == HeaderLine(h.fromPath, h.toPath)
      && (h.end == |s| || IsLineTerminator(s[h.end]))
  {
    var q := p + 13;
    var n := FirstPath(Lazy, s, q).value;
    var to := RestOfLine(s, q + n + 3);
    assert HeaderAt(Lazy, s, p).value == Paths(s[q..q + n], to, q + n + 3 + |to|);
    LazyFirstPath(s, q);
    LazyMatchSound(s, p, q, n, to);
  }

  /** The paths of the shortest fitting first path, spelled out. */
  lemma LazyMatchSound(s: string, p: nat, q: nat, n: nat, to: string)
    requires OccursAt(s, "diff --git a/", p) && q == p + 13 && LazyFits(s, q, n)
    requires forall m :: 1 <= m < n ==> !LazyFits(s, q, m)
    requires to == RestOfLine(s, q + n + 3)
    ensures LazyPaths(s[q..q + n], to)
    ensures s[p..q + n + 3 + |to|] == HeaderLine(s[q..q + n], to)
    ensures q + n + 3 + |to| == |s| || IsLineTerminator(s[q + n + 3 + |to|])
  {
    NoInnerGap(s, q, n);
    SpellHeader(s, p, n, to);
    assert |to| >= 1 by {
      assert s[q + n + 3..][..|to|] == to;
    }
  }

  /** The shortest fitting first path holds no ` b/` after its first character. */
  lemma NoInnerGap(s: string, q: nat, n: nat)
    requires LazyFits(s, q, n) && forall m :: 1 <= m < n ==> !LazyFits(s, q, m)
    ensures NoInnerSeparator(s[q..q + n])
  {
    var x := s[q..q + n];
    forall m: nat | 1 <= m && m + 3 <= |x|
      ensures !OccursAt(x, " b/", m)
    {
      if OccursAt(x, " b/", m) {
        InnerGap(s, q, n, m);
      }
    }
  }

  /** A ` b/` inside the first path would have been a shorter match. */
  lemma InnerGap(s: string, q: nat, n: nat, m: nat)
    requires LazyFits(s, q, n) && 1 <= m && m + 3 <= n && OccursAt(s[q..q + n], " b/", m)
    ensures LazyFits(s, q, m)
  {
    var x := s[q..q + n];
    SliceSlice(s, q, q + n, m, m + 3);
    SliceSlice(s, q, q + n, 0, m);
    if m + 3 < n {
      assert s[q + m + 3] == x[m + 3];
    } else {
      assert s[q + n] == ' ' by { assert s[q + n..q + n + 3][0] == s[q + n]; }
    }
  }

  /** The matched text is the header line of its captures. */
  lemma SpellHeader(s: string, p: nat, n: nat, to: string)
    requires OccursAt(s, "diff --git a/", p) && p + 13 + n <= |s| && OccursAt(s, " b/", p + 13 + n)
    requires to == RestOfLine(s, p + 13 + n + 3)
    ensures s[p..p + 16 + n + |to|] == HeaderLine(s[p + 13..p + 13 + n], to)
  {
    var q := p + 13;
    var e := q + n + 3 + |to|;
    assert s[q + n + 3..][..|to|] == s[q + n + 3..e];
    assert s[p..e] == s[p..q] + s[q..q + n] + s[q + n..q + n + 3] + s[q + n + 3..e];
  }

  /** The lazy expression reads a header line back to its paths. */
  lemma LazyRendered(x: string, y: string, rest: string)
    requires LazyPaths(x, y) && (rest == [] || IsLineTerminator(rest[0]))
    ensures HeaderAt(Lazy, HeaderLine(x, y) + rest, 0) == Some(Paths(x, y, 16 + |x| + |y|))
  {
    var s := HeaderLine(x, y) + rest;
    HeaderLineParts(x, y, rest);
    NoEarlyGaps(x, y, rest);
    SpelledLayout(s, x, y, rest);
    ReadsFirstFit(s, x, y);
  }

  /** `s` spells a header whose first path `x` is the first that fits and
      whose line goes on with `y`. */
  predicate FirstFitLayout(s: string, x: string, y: string) {
    && OccursAt(s, "diff --git a/", 0) && 16 + |x| <= |s| && s[13..13 + |x|] == x
    && LazyFits(s, 13, |x|) && (forall i :: 14 <= i < 13 + |x| ==> !LazyGap(s, i))
    && RestOfLine(s, 16 + |x|) == y
  }

  /** `s` is the header line of `x` and `y` followed by `rest`. */
  predicate Spelled(s: string, x: string, y: string, rest: string) {
    && OccursAt(s, "diff --git a/", 0) && 16 + |x| <= |s| && s[13..13 + |x|] == x
    && OccursAt(s, " b/", 13 + |x|) && s[16 + |x|..] == y + rest
  }

  lemma SpelledLayout(s: string, x: string, y: string, rest: string)
    requires LazyPaths(x, y) && (rest == [] || IsLineTerminator(rest[0]))
    requires Spelled(s, x, y, rest) && forall i :: 14 <= i < 13 + |x| ==> !LazyGap(s, i)
    ensures FirstFitLayout(s, x, y)
  {
    assert s[16 + |x|] == y[0] by {
      assert s[16 + |x|..][0] == s[16 + |x|];
    }
    RestOfLineIs(s, 16 + |x|, y, rest);
  }

  /** A header whose first path is the first fit reads that path and the rest of the line. */
  lemma ReadsFirstFit(s: string, x: string, y: string)
    requires FirstFitLayout(s, x, y)
    ensures HeaderAt(Lazy, s, 0) == Some(Paths(x, y, 16 + |x| + |y|))
  {
    assert s[13..13] == [];
    LazyFromFirst(s, 13, 1, |x|);
  }

  /** Where the parts of a rendered header line sit. */
  lemma HeaderLineParts(x: string, y: string, rest: string)
    ensures Spelled(HeaderLine(x, y) + rest, x, y, rest)
  {
    var s := HeaderLine(x, y) + rest;
    assert s == "diff --git a/" + (x + (" b/" + (y + rest)));
    SplitAt("diff --git a/", x + (" b/" + (y + rest)));
    SplitAt(x, " b/" + (y + rest));
    SplitAt(" b/", y + rest);
    SliceSlice(s, 13, |s|, 0, |x|);
    SliceSlice(s, 13 + |x|, |s|, 0, 3);
  }

  lemma NoEarlyGaps(x: string, y: string, rest: string)
    requires LazyPaths(x, y)
    ensures forall i :: 14 <= i < 13 + |x| ==> !LazyGap(HeaderLine(x, y) + rest, i)
  {
    forall i | 14 <= i < 13 + |x|
      ensures !LazyGap(HeaderLine(x, y) + rest, i)
    {
      NoEarlyGap(x, y, rest, i - 13);
    }
  }

  /** In a rendered header no gap starts inside the first path. */
  lemma NoEarlyGap(x: string, y: string, rest: string, m: nat)
    requires LazyPaths(x, y) && 1 <= m < |x|
    ensures !LazyGap(HeaderLine(x, y) + rest, 13 + m)
  {
    var s := HeaderLine(x, y) + rest;
    HeaderLineParts(x, y, rest);
    if m + 3 <= |x| {
      SliceSlice(s, 13, 13 + |x|, m, m + 3);
      assert !OccursAt(x, " b/", m);
    } else {
      assert s[13 + |x|] == ' ' by { assert s[13 + |x|..13 + |x| + 3][0] == s[13 + |x|]; }
      assert s[13 + m..13 + m + 3][|x| - m] == s[13 + |x|];
    }
  }

  /** The lazy search stops at the first length that fits. */
  lemma {:induction false} LazyFromFirst(s: string, q: nat, n: nat, m: nat)
    requires n >= 1 && q + n - 1 <= |s| && NoLineTerminator(s[q..q + n - 1])
    requires n <= m && LazyFits(s, q, m)
    requires forall i :: q + n <= i < q + m ==> !LazyGap(s, i)
    ensures LazyFrom(s, q, n) == Some(m)
    decreases m - n
  {
    LazyFromLeast(s, q, n, m);
    if n < m {
      LinePrefix(s, q, n, m);
      LazyFromFirst(s, q, n + 1, m);
    }
  }

  /** `(.*)` from `i` captures `y` when `y` runs from `i` to a line break or the end. */
  lemma RestOfLineIs(s: string, i: nat, y: string, rest: string)
    requires i <= |s| && s[i..] == y + rest && NoLineTerminator(y)
    requires rest == [] || IsLineTerminator(rest[0])
    ensures RestOfLine(s, i) == y
  {
    if rest != [] {
      assert s[i + |y|] == s[i..][|y|] == rest[0];
    }
    forall k | i <= k < i + |y|
      ensures !IsLineTerminator(s[k])
    {
      assert s[k] == s[i..][k - i] == y[k - i];
    }
    LineEndAt(s, i, i + |y|);
    assert s[i..i + |y|] == s[i..][..|y|];
  }

  lemma {:induction false} LineEndAt(s: string, i: nat, e: nat)
    requires i <= e <= |s| && (e == |s| || IsLineTerminator(s[e]))
    requires forall k :: i <= k < e ==> !IsLineTerminator(s[k])
    ensures LineEnd(s, i) == e
    decreases e - i
  {
    if i < e {
      LineEndAt(s, i + 1, e);
    }
  }

  /** The lazy header expression at the start of `s` reads `x` and `y`. */
  predicate LazyReads(s: string, x: string, y: string) {
    HeaderAt(Lazy, s, 0).Some? && HeaderAt(Lazy, s, 0).value.fromPath == x
      && HeaderAt(Lazy, s, 0).value.toPath == y
  }

  /** The lazy header expression matches at the start of `s` exactly when `s`
      starts with the header line of paths it reads back, followed by the end
      of the line. */
  lemma LazyIff(s: string, x: string, y: string)
    ensures LazyReads(s, x, y)
      <==> (LazyPaths(x, y) && StartsWith(s, HeaderLine(x, y))
            && (|s| == |HeaderLine(x, y)| || IsLineTerminator(s[|HeaderLine(x, y)|])))
  {
    var hl := HeaderLine(x, y);
    if LazyReads(s, x, y) {
      LazySound(s, 0);
      assert |hl| == 16 + |x| + |y|;
    }
    if LazyPaths(x, y) && StartsWith(s, hl) && (|s| == |hl| || IsLineTerminator(s[|hl|])) {
      assert s == hl + s[|hl|..];
      LazyRendered(x, y, s[|hl|..]);
    }
  }

  /** Text after the end of a matched header line does not change what the
      lazy expression reads. */
  lemma LazyExtend(s: string, t: string)
    requires HeaderAt(Lazy, s, 0).Some? && (t == [] || IsLineTerminator(t[0]))
    ensures HeaderAt(Lazy, s + t, 0).Some?
    ensures HeaderAt(Lazy, s + t, 0).value.fromPath == HeaderAt(Lazy, s, 0).value.fromPath
    ensures HeaderAt(Lazy, s + t, 0).value.toPath == HeaderAt(Lazy, s, 0).value.toPath
  {
    var h := HeaderAt(Lazy, s, 0).value;
    LazySound(s, 0);
    assert s[..h.end] == s[0..h.end];
    LineReadOn(s, t, h.fromPath, h.toPath, h.end);
  }

  /** A header line that ends where the line does reads the same paths
      whatever comes after the line. */
  lemma LineReadOn(s: string, t: string, x: string, y: string, e: nat)
    requires LazyPaths(x, y) && e <= |s| && s[..e] == HeaderLine(x, y)
    requires e == |s| || IsLineTerminator(s[e])
    requires t == [] || IsLineTerminator(t[0])
    ensures HeaderAt(Lazy, s + t, 0) == Some(Paths(x, y, e))
  {
    var rest := s[e..] + t;
    assert s + t == HeaderLine(x, y) + rest by {
      assert s == s[..e] + s[e..];
    }
    if s[e..] != [] {
      assert rest[0] == s[e];
    }
    LazyRendered(x, y, rest);
  }
}

