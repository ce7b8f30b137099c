/** The hunk-range line of a unified diff, `@@ -A[,B] +C[,D] @@`, as the
    regular expressions of the repository match it. `\d+` is a maximal run
    of ASCII digits and an optional `,\d+` group is taken whenever a comma
    and at least one digit follow; nothing is gained by backtracking, so a
    match starting at a given index is unique, and an unanchored match is
    the leftmost index where the anchored match succeeds. */
module HunkHeader {
  import opened Text
  import opened Wrappers

  /** The captured parts of a hunk-range line; the counts are absent when
      the line omits them (`@@ -3 +3 @@`). */
  datatype Header = Header(oldStart: string, oldCount: Option<string>, newStart: string, newCount: Option<string>)

  predicate OptDigits(c: Option<string>) {
    c.None? || (|c.value| >= 1 && AllDigits(c.value))
  }

  /** Every capture is a non-empty run of digits. */
  predicate WellFormed(h: Header) {
    && |h.oldStart| >= 1 && AllDigits(h.oldStart) && OptDigits(h.oldCount)
    && |h.newStart| >= 1 && AllDigits(h.newStart) && OptDigits(h.newCount)
  }

  function CountText(c: Option<string>): string {
    if c.Some? then "," + c.value else ""
  }

  /** The text up to and including the `+` before the new start. */
  function PrefixText(oldStart: string, oldCount: Option<string>): string {
    "@@ -" + oldStart + CountText(oldCount) + " +"
  }

  /** The text a header stands for. */
  function Render(h: Header): string {
    PrefixText(h.oldStart, h.oldCount) + h.newStart + CountText(h.newCount) + " @@"
  }

  /** An optional `,\d+` group at the start of `s`: its digits and the text after it. */
  function OptCount(s: string): (r: (Option<string>, string))
  {
    if |s| > 0 && s[0] == ',' && DigitSpan(s[1..]) > 0 then
      (Some(s[1..][..DigitSpan(s[1..])]), s[1..][DigitSpan(s[1..])..])
    else (None, s)
  }

  lemma OptCountSound(s: string)
    ensures OptDigits(OptCount(s).0) && s == CountText(OptCount(s).0) + OptCount(s).1
  {
    if |s| > 0 && s[0] == ',' && DigitSpan(s[1..]) > 0 {
      DigitSpanSound(s[1..]);
      assert s == [','] + s[1..];
      assert s[1..] == s[1..][..DigitSpan(s[1..])] + s[1..][DigitSpan(s[1..])..];
    }
  }

  lemma OptCountRendered(c: Option<string>, r: string)
    requires OptDigits(c) && |r| > 0 && r[0] == ' '
    ensures OptCount(CountText(c) + r) == (c, r)
  {
    if c.Some? {
      var s := CountText(c) + r;
      assert s[1..] == c.value + r;
      DigitSpanOf(c.value, r);
    } else {
      assert CountText(c) + r == r;
    }
  }

  /** `^(@@ -\d+(?:,\d+)? \+)\d+`: the old-side captures, the new start and the rest. */
  datatype Prefix = Prefix(oldStart: string, oldCount: Option<string>, newStart: string, rest: string)

  function MatchPrefix(s: string): Option<Prefix> {
    if !StartsWith(s, "@@ -") then None
    else
      var t := s[4..];
      var n := DigitSpan(t);
      if n == 0 then None
      else
        var (oc, u) := OptCount(t[n..]);
        if !StartsWith(u, " +") then None
        else
          var v := u[2..];
          var m := DigitSpan(v);
          if m == 0 then None
          else Some(Prefix(t[..n], oc, v[..m], v[m..]))
  }

  lemma MatchPrefixSound(s: string)
    requires MatchPrefix(s).Some?
    ensures var m := MatchPrefix(s).value;
      && |m.oldStart| >= 1 && AllDigits(m.oldStart) && OptDigits(m.oldCount)
      && |m.newStart| >= 1 && AllDigits(m.newStart)
      && (m.rest == [] || !IsDigit(m.rest[0]))
      && s == PrefixText(m.oldStart, m.oldCount) + m.newStart + m.rest
  {
    var t := s[4..];
    var n := DigitSpan(t);
    DigitSpanSound(t);
    OptCountSound(t[n..]);
    var (oc, u) := OptCount(t[n..]);
    var v := u[2..];
    DigitSpanSound(v);
    var m := DigitSpan(v);
    var ns, v1, v2 := t[..n], v[..m], v[m..];
    Unsplit(s, 4);
    Unsplit(t, n);
    Unsplit(u, 2);
    Unsplit(v, m);
    assert u == " +" + (v1 + v2);
    assert t == ns + (CountText(oc) + (" +" + (v1 + v2)));
    assert s == "@@ -" + (ns + (CountText(oc) + (" +" + (v1 + v2))));
    Reassoc6("@@ -", ns, CountText(oc), " +", v1, v2);
  }

  lemma MatchPrefixRendered(a: string, c: Option<string>, b: string, rest: string)
    requires |a| >= 1 && AllDigits(a) && OptDigits(c) && |b| >= 1 && AllDigits(b)
    requires rest == [] || !IsDigit(rest[0])
    ensures MatchPrefix(PrefixText(a, c) + b + rest) == Some(Prefix(a, c, b, rest))
  {
    var v := b + rest;
    var u := " +" + v;
    var w := CountText(c) + u;
    var t := a + w;
    var s := PrefixText(a, c) + b + rest;
    Reassoc6("@@ -", a, CountText(c), " +", b, rest);
    SplitAt("@@ -", t);
    SplitAt(a, w);
    SplitAt(" +", v);
    SplitAt(b, rest);
    DigitSpanOf(a, w);
    OptCountRendered(c, u);
    DigitSpanOf(b, rest);
  }


  /** `^@@ -(\d+)(?:,(\d+))? \+(\d+)(?:,(\d+))? @@`: the header at the start of
      `s` and the text after it. */
  function MatchAt(s: string): Option<(Header, string)> {
    match MatchPrefix(s)
    case None => None
    case Some(pre) =>
      var (nc, w) := OptCount(pre.rest);
      if !StartsWith(w, " @@") then None
      else Some((Header(pre.oldStart, pre.oldCount, pre.newStart, nc), w[3..]))
  }

  lemma MatchAtSound(s: string)
    requires MatchAt(s).Some?
    ensures WellFormed(MatchAt(s).value.0)
    ensures s == Render(MatchAt(s).value.0) + MatchAt(s).value.1
  {
    var pre := MatchPrefix(s).value;
    MatchPrefixSound(s);
    OptCountSound(pre.rest);
    var (nc, w) := OptCount(pre.rest);
    Unsplit(w, 3);
    var pt := PrefixText(pre.oldStart, pre.oldCount);
    assert s == pt + pre.newStart + (CountText(nc) + (" @@" + w[3..]));
    Reassoc5(pt, pre.newStart, CountText(nc), " @@", w[3..]);
  }

  lemma MatchAtRendered(h: Header, rest: string)
    requires WellFormed(h)
    ensures MatchAt(Render(h) + rest) == Some((h, rest))
  {
    var pt := PrefixText(h.oldStart, h.oldCount);
    var w := " @@" + rest;
    var tail := CountText(h.newCount) + w;
    Reassoc5(pt, h.newStart, CountText(h.newCount), " @@", rest);
    assert Render(h) + rest == pt + h.newStart + tail;
    MatchPrefixRendered(h.oldStart, h.oldCount, h.newStart, tail);
    OptCountRendered(h.newCount, w);
    SplitAt(" @@", rest);
  }

  /** The anchored header expression matches exactly the well-formed headers
      rendered at the start of the text. */
  lemma MatchAtIff(s: string, h: Header, rest: string)
    ensures MatchAt(s) == Some((h, rest)) <==> WellFormed(h) && s == Render(h) + rest
  {
    if MatchAt(s) == Some((h, rest)) {
      MatchAtSound(s);
    }
    if WellFormed(h) && s == Render(h) + rest {
      MatchAtRendered(h, rest);
    }
  }

  /** The leftmost index at or after `from` where the header matches. */
  function FindFrom(s: string, from: nat): (r: Option<nat>)
    requires from <= |s|
    ensures r.Some? ==> from <= r.value <= |s| && MatchAt(s[r.value..]).Some?
    decreases |s| - from
  {
    if MatchAt(s[from..]).Some? then Some(from)
    else if from == |s| then None
    else FindFrom(s, from + 1)
  }

  /** FindFrom finds a match whenever there is one, and no match lies before it. */
  lemma {:induction false} FindFromLeftmost(s: string, from: nat, j: nat)
    requires from <= j <= |s|
    ensures FindFrom(s, from).None? ==> MatchAt(s[j..]).None?
    ensures FindFrom(s, from).Some? && j < FindFrom(s, from).value ==> MatchAt(s[j..]).None?
    decreases |s| - from
  {
    if MatchAt(s[from..]).None? && from < j {
      FindFromLeftmost(s, from + 1, j);
    }
  }

  /** `line.match(/@@ -(\d+)(?:,\d+)? \+(\d+)(?:,\d+)? @@(.*)/)`: the leftmost
      header in the line, with the `(.*)` suffix after it. */
  function Search(line: string): (r: Option<(Header, string)>)
    ensures r.Some? ==> NoLineTerminator(r.value.1)
  {
    match FindFrom(line, 0)
    case None => None
    case Some(p) =>
      var (h, rest) := MatchAt(line[p..]).value;
      Some((h, RestOfLine(rest, 0)))
  }

  /** A line that starts with a rendered header is found at its start, with
      the rest of the line as suffix. */
  lemma SearchRendered(h: Header, suffix: string)
    requires WellFormed(h) && NoLineTerminator(suffix)
    ensures Search(Render(h) + suffix) == Some((h, suffix))
  {
    var line := Render(h) + suffix;
    assert line[0..] == line;
    MatchAtRendered(h, suffix);
    RestOfLineAll(suffix);
  }

  /** A found header is well formed and its suffix stays on the line. */
  lemma SearchSound(line: string)
    requires Search(line).Some?
    ensures WellFormed(Search(line).value.0) && NoLineTerminator(Search(line).value.1)
  {
    var p := FindFrom(line, 0).value;
    MatchAtSound(line[p..]);
  }
}
