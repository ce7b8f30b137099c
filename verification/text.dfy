/** Character classes and string primitives with the meaning the JavaScript
    code relies on: `split` on one character, `join`, `trim`, `indexOf`,
    `startsWith`, `includes`, decimal rendering of numbers and `parseInt` on
    a run of digits. Strings are sequences of characters. */
module Text {

  /** The characters JavaScript treats as line terminators: `.` does not
      match them and a multiline `^` matches right after them. */
  predicate IsLineTerminator(c: char) {
    c == '\n' || c == '\r' || c == '\U{2028}' || c == '\U{2029}'
  }

  /** JavaScript white space: what `trim()` removes and `\s` matches. */
  predicate IsSpace(c: char) {
    || IsLineTerminator(c)
    || c == '\t' || c == '\U{000B}' || c == '\U{000C}' || c == ' '
    || c == '\U{00A0}' || c == '\U{FEFF}' || c == '\U{1680}'
    || ('\U{2000}' <= c <= '\U{200A}')
    || c == '\U{202F}' || c == '\U{205F}' || c == '\U{3000}'
  }

  predicate IsDigit(c: char) {
    '0' <= c <= '9'
  }

  predicate AllSpace(s: string) {
    forall i :: 0 <= i < |s| ==> IsSpace(s[i])
  }

  predicate AllDigits(s: string) {
    forall i :: 0 <= i < |s| ==> IsDigit(s[i])
  }

  predicate NoLineTerminator(s: string) {
    forall i :: 0 <= i < |s| ==> !IsLineTerminator(s[i])
  }

  predicate StartsWith(s: string, p: string) {
    |p| <= |s| && s[..|p|] == p
  }

  predicate EndsWith(s: string, p: string) {
    |p| <= |s| && s[|s| - |p|..] == p
  }

  /** `p` occurs in `s` starting at index `i`. */
  predicate OccursAt(s: string, p: string, i: nat) {
    i + |p| <= |s| && s[i..i + |p|] == p
  }

  /** JavaScript `s.includes(p)`. */
  predicate Contains(s: string, p: string) {
    exists i: nat | i <= |s| :: OccursAt(s, p, i)
  }

  /** An occurrence of `a + b` is an occurrence of `a` followed by one of `b`. */
  lemma OccursConcat(s: string, a: string, b: string, i: nat)
    ensures OccursAt(s, a + b, i) <==> OccursAt(s, a, i) && OccursAt(s, b, i + |a|)
  {
    if OccursAt(s, a, i) && OccursAt(s, b, i + |a|) {
      assert s[i..i + |a + b|] == s[i..i + |a|] + s[i + |a|..i + |a| + |b|];
    }
    if OccursAt(s, a + b, i) {
      assert s[i..i + |a|] == (a + b)[..|a|];
      assert s[i + |a|..i + |a| + |b|] == (a + b)[|a|..];
    }
  }

  /** Small facts of sequence algebra, stated once so that the proofs using
      them do not have to rediscover them in a large context. */
  lemma SplitAt(p: string, t: string)
    ensures StartsWith(p + t, p) && (p + t)[..|p|] == p && (p + t)[|p|..] == t
  {
    assert (p + t)[..|p|] == p;
  }

  lemma Unsplit(s: string, i: nat)
    requires i <= |s|
    ensures s == s[..i] + s[i..]
  {
  }

  lemma SliceSlice(s: string, i: nat, j: nat, a: nat, b: nat)
    requires i <= j <= |s| && a <= b <= j - i
    ensures s[i..j][a..b] == s[i + a..i + b]
  {
    assert forall k :: 0 <= k < b - a ==> s[i..j][a..b][k] == s[i + a + k];
  }

  lemma Reassoc6(a: string, b: string, c: string, d: string, e: string, f: string)
    ensures a + (b + (c + (d + (e + f)))) == a + b + c + d + e + f
  {
  }

  lemma Reassoc5(a: string, b: string, c: string, d: string, e: string)
    ensures a + b + (c + (d + e)) == a + b + c + d + e
  {
  }

  /** A slice occurs where it was taken. */
  lemma OccursSlice(s: string, i: nat, j: nat)
    requires i <= j <= |s|
    ensures OccursAt(s, s[i..j], i)
  {
  }

  lemma OccursFirst(s: string, p: string, i: nat)
    requires OccursAt(s, p, i) && |p| > 0
    ensures s[i] == p[0]
  {
    assert s[i..i + |p|][0] == s[i];
  }

  /** An occurrence inside `s[i..j]` that starts at `i` is a prefix of that slice. */
  lemma OccursPrefix(s: string, p: string, i: nat, j: nat)
    requires OccursAt(s, p, i) && i + |p| <= j <= |s|
    ensures StartsWith(s[i..j], p)
  {
    assert s[i..j][..|p|] == s[i..i + |p|];
  }

  /** Occurrences in `b` are occurrences in `a + b`, shifted by `|a|`. */
  lemma OccursShift(a: string, b: string, p: string, m: nat)
    requires m <= |b|
    ensures OccursAt(a + b, p, |a| + m) == OccursAt(b, p, m)
  {
    if m + |p| <= |b| {
      assert (a + b)[|a| + m..|a| + m + |p|] == b[m..m + |p|];
    }
  }

  lemma StartsWithOccurs(s: string, p: string, i: nat)
    requires i <= |s| && StartsWith(s[i..], p)
    ensures OccursAt(s, p, i)
  {
    assert s[i..][..|p|] == s[i..i + |p|];
  }

  /** The first index at or after `from` where `p` occurs, or -1. */
  function IndexOfFrom(s: string, p: string, from: nat): (r: int)
    requires from <= |s|
    ensures r == -1 || from <= r <= |s|
    ensures r >= 0 ==> OccursAt(s, p, r)
    ensures r == -1 ==> forall j: nat :: from <= j ==> !OccursAt(s, p, j)
    ensures r >= 0 ==> forall j: nat :: from <= j < r ==> !OccursAt(s, p, j)
    decreases |s| - from
  {
    if OccursAt(s, p, from) then from
    else if from == |s| then -1
    else IndexOfFrom(s, p, from + 1)
  }

  /** JavaScript `s.indexOf(p)`: the first occurrence, or -1 when there is none. */
  function IndexOf(s: string, p: string): (r: int)
    ensures r >= 0 <==> Contains(s, p)
    ensures r >= 0 ==> OccursAt(s, p, r) && forall j: nat :: j < r ==> !OccursAt(s, p, j)
  {
    IndexOfFrom(s, p, 0)
  }

  /** The first index of character `c` in `s`, which must contain it. */
  function FirstIndexOfChar(s: string, c: char): (r: nat)
    requires c in s
    ensures r < |s| && s[r] == c && c !in s[..r]
  {
    if s[0] == c then 0
    else
      var k := FirstIndexOfChar(s[1..], c);
      assert s[1..][..k] == s[1..k + 1];
      k + 1
  }

  /** JavaScript `parts.join(sep)`. */
  function Join(parts: seq<string>, sep: string): string {
    if |parts| == 0 then ""
    else if |parts| == 1 then parts[0]
    else parts[0] + sep + Join(parts[1..], sep)
  }

  /** What occurs in a part occurs in the join. */
  lemma {:induction false} JoinContains(parts: seq<string>, sep: string, k: nat, x: string)
    requires k < |parts| && StartsWith(parts[k], x)
    ensures Contains(Join(parts, sep), x)
    decreases |parts|
  {
    var s := Join(parts, sep);
    if |parts| == 1 {
      assert OccursAt(s, x, 0);
    } else if k == 0 {
      assert s == parts[0] + (sep + Join(parts[1..], sep));
      assert OccursAt(s, x, 0) by { assert s[..|x|] == parts[0][..|x|]; }
    } else {
      JoinContains(parts[1..], sep, k - 1, x);
      var i: nat :| i <= |Join(parts[1..], sep)| && OccursAt(Join(parts[1..], sep), x, i);
      var a := parts[0] + sep;
      assert s == a + Join(parts[1..], sep);
      OccursShift(a, Join(parts[1..], sep), x, i);
      assert OccursAt(s, x, |a| + i);
    }
  }

  /** The last part ends the join, after a separator when there are earlier parts. */
  lemma {:induction false} JoinLast(parts: seq<string>, sep: string)
    requires |parts| >= 2
    ensures Join(parts, sep) == Join(parts[..|parts| - 1], sep) + sep + parts[|parts| - 1]
    decreases |parts|
  {
    if |parts| > 2 {
      JoinLast(parts[1..], sep);
      assert parts[1..][..|parts| - 2] == parts[..|parts| - 1][1..];
    }
  }

  /** Joining two non-empty runs of parts is joining each and putting the
      separator between them. */
  lemma {:induction false} JoinAppend(a: seq<string>, b: seq<string>, sep: string)
    requires |a| >= 1 && |b| >= 1
    ensures Join(a + b, sep) == Join(a, sep) + sep + Join(b, sep)
    decreases |a|
  {
    if |a| > 1 {
      JoinAppend(a[1..], b, sep);
      assert (a + b)[1..] == a[1..] + b;
    }
  }

  /** A join starts with its first part. */
  lemma JoinStartsWith(ps: seq<string>, sep: string)
    requires |ps| >= 1
    ensures StartsWith(Join(ps, sep), ps[0])
  {
    if |ps| > 1 {
      assert Join(ps, sep) == ps[0] + (sep + Join(ps[1..], sep));
    }
  }

  /** The middle of a concatenation occurs in it. */
  lemma ContainsMiddle(a: string, b: string, c: string)
    ensures Contains(a + b + c, b)
  {
    assert OccursAt(a + b + c, b, |a|) by { assert (a + b + c)[|a|..|a| + |b|] == b; }
  }

  /** Concatenation of all parts, JavaScript `parts.join('')`. */
  function Concat(parts: seq<string>): string {
    if |parts| == 0 then "" else parts[0] + Concat(parts[1..])
  }

  /** JavaScript `s.split(sep)` for a one-character separator: never an empty
      list, no piece contains the separator, and joining the pieces back
      gives `s`. */
  function Split(s: string, sep: char): (r: seq<string>)
    ensures |r| >= 1
    ensures forall k :: 0 <= k < |r| ==> sep !in r[k]
    ensures Join(r, [sep]) == s
    decreases |s|
  {
    if sep !in s then [s]
    else
      var i := FirstIndexOfChar(s, sep);
      var rest := Split(s[i + 1..], sep);
      assert s == s[..i] + [sep] + s[i + 1..];
      [s[..i]] + rest
  }

  /** `lines[i + 1] ?? ''`: the line after `lines[i]`, or `""` after the last. */
  function LineAfter(lines: seq<string>, i: nat): string
    requires i < |lines|
  {
    if i + 1 < |lines| then lines[i + 1] else ""
  }

  /** Splitting a join of separator-free pieces gives the pieces back. */
  lemma {:induction false} SplitJoin(parts: seq<string>, sep: char)
    requires |parts| >= 1
    requires forall k :: 0 <= k < |parts| ==> sep !in parts[k]
    ensures Split(Join(parts, [sep]), sep) == parts
    decreases |parts|
  {
    if |parts| == 1 {
      assert Join(parts, [sep]) == parts[0];
    } else {
      var s := Join(parts, [sep]);
      assert s == parts[0] + [sep] + Join(parts[1..], [sep]);
      assert sep in s by { assert s[|parts[0]|] == sep; }
      var i := FirstIndexOfChar(s, sep);
      assert i == |parts[0]|;
      assert s[..i] == parts[0];
      assert s[i + 1..] == Join(parts[1..], [sep]);
      SplitJoin(parts[1..], sep);
    }
  }

  /** The number of pieces `split` yields is one more than the number of separators. */
  lemma {:induction false} SplitCount(s: string, sep: char)
    ensures |Split(s, sep)| == CountChar(s, sep) + 1
    decreases |s|
  {
    if sep in s {
      var i := FirstIndexOfChar(s, sep);
      assert s == s[..i] + [sep] + s[i + 1..];
      assert s[..i] + ([sep] + s[i + 1..]) == s;
      CountCharAppend(s[..i], [sep] + s[i + 1..], sep);
      CountCharAppend([sep], s[i + 1..], sep);
      assert CountChar([sep], sep) == 1 by { assert [sep][1..] == []; }
      CountCharAbsent(s[..i], sep);
      SplitCount(s[i + 1..], sep);
    } else {
      CountCharAbsent(s, sep);
    }
  }

  function CountChar(s: string, c: char): nat {
    if |s| == 0 then 0 else (if s[0] == c then 1 else 0) + CountChar(s[1..], c)
  }

  lemma {:induction false} CountCharAppend(a: string, b: string, c: char)
    ensures CountChar(a + b, c) == CountChar(a, c) + CountChar(b, c)
    decreases |a|
  {
    if |a| > 0 {
      assert (a + b)[1..] == a[1..] + b;
      CountCharAppend(a[1..], b, c);
    } else {
      assert a + b == b;
    }
  }

  lemma {:induction false} CountCharAbsent(s: string, c: char)
    requires c !in s
    ensures CountChar(s, c) == 0
    decreases |s|
  {
    if |s| > 0 {
      assert c !in s[1..];
      CountCharAbsent(s[1..], c);
    }
  }

  /** Every character of a join comes from a part or from the separator. */
  lemma {:induction false} JoinChars(parts: seq<string>, sep: string, c: char)
    requires c !in sep
    requires forall k :: 0 <= k < |parts| ==> c !in parts[k]
    ensures c !in Join(parts, sep)
    decreases |parts|
  {
    if |parts| > 1 {
      JoinChars(parts[1..], sep, c);
    }
  }

  lemma {:induction false} ConcatChars(parts: seq<string>, c: char)
    requires forall k :: 0 <= k < |parts| ==> c !in parts[k]
    ensures c !in Concat(parts)
    decreases |parts|
  {
    if |parts| > 0 {
      ConcatChars(parts[1..], c);
    }
  }

  lemma {:induction false} ConcatAppend(a: seq<string>, b: seq<string>)
    ensures Concat(a + b) == Concat(a) + Concat(b)
    decreases |a|
  {
    if |a| > 0 {
      assert (a + b)[1..] == a[1..] + b;
      ConcatAppend(a[1..], b);
    } else {
      assert a + b == b;
    }
  }

  /** The length of the leading white-space run of `s`. */
  function LeadingSpace(s: string): (n: nat)
    ensures n <= |s| && AllSpace(s[..n]) && (n == |s| || !IsSpace(s[n]))
  {
    if |s| == 0 || !IsSpace(s[0]) then 0
    else
      var k := LeadingSpace(s[1..]);
      k + 1
  }

  /** The length of the trailing white-space run of `s`. */
  function TrailingSpace(s: string): (n: nat)
    ensures n <= |s| && AllSpace(s[|s| - n..]) && (n == |s| || !IsSpace(s[|s| - n - 1]))
  {
    if |s| == 0 || !IsSpace(s[|s| - 1]) then 0
    else
      var k := TrailingSpace(s[..|s| - 1]);
      assert forall i :: |s| - k - 1 <= i < |s| - 1 ==> s[i] == s[..|s| - 1][i];
      k + 1
  }

  /** JavaScript `s.trim()`: `s` is the result wrapped in white space, and
      the result neither starts nor ends with white space. */
  function Trim(s: string): (r: string)
    ensures exists a: nat :: (a + |r| <= |s| && r == s[a..a + |r|]
      && AllSpace(s[..a]) && AllSpace(s[a + |r|..]))
    ensures |r| == 0 || (!IsSpace(r[0]) && !IsSpace(r[|r| - 1]))
  {
    var a := LeadingSpace(s);
    var rest := s[a..];
    var b := TrailingSpace(rest);
    TrimParts(s, a, rest, b);
    rest[..|rest| - b]
  }

  /** The slice between a leading and a trailing white-space run is wrapped
      in white space and neither starts nor ends with it. */
  lemma TrimParts(s: string, a: nat, rest: string, b: nat)
    requires a <= |s| && rest == s[a..] && b <= |rest|
    requires AllSpace(s[..a]) && (a == |s| || !IsSpace(s[a]))
    requires AllSpace(rest[|rest| - b..]) && (b == |rest| || !IsSpace(rest[|rest| - b - 1]))
    ensures var r := rest[..|rest| - b];
      && a + |r| <= |s| && r == s[a..a + |r|]
      && AllSpace(s[..a]) && AllSpace(s[a + |r|..])
    ensures var r := rest[..|rest| - b];
      |r| == 0 || (!IsSpace(r[0]) && !IsSpace(r[|r| - 1]))
  {
    var r := rest[..|rest| - b];
    assert s[a + |r|..] == rest[|rest| - b..];
    assert r == s[a..a + |r|];
    if |r| > 0 {
      assert r[0] == s[a];
      assert r[|r| - 1] == rest[|rest| - b - 1];
    }
  }

  /** Trimming twice is trimming once. */
  lemma TrimIdempotent(s: string)
    ensures Trim(Trim(s)) == Trim(s)
  {
    TrimUnchanged(Trim(s));
  }

  /** The trim of a string that is not all white space starts at the first
      character that is not. */
  lemma TrimFirst(s: string)
    requires LeadingSpace(s) < |s|
    ensures |Trim(s)| > 0 && Trim(s)[0] == s[LeadingSpace(s)]
  {
    var a := LeadingSpace(s);
    var rest := s[a..];
    assert !IsSpace(rest[0]);
    var b := TrailingSpace(rest);
    assert b < |rest|;
  }

  /** A string that neither starts nor ends with white space is its own trim. */
  lemma TrimUnchanged(s: string)
    requires |s| == 0 || (!IsSpace(s[0]) && !IsSpace(s[|s| - 1]))
    ensures Trim(s) == s
  {
    assert LeadingSpace(s) == 0;
    assert s[0..] == s;
    assert TrailingSpace(s) == 0;
  }

  lemma AllSpaceAppend(x: string, y: string)
    requires AllSpace(x) && AllSpace(y)
    ensures AllSpace(x + y)
  {
    forall i | 0 <= i < |x + y|
      ensures IsSpace((x + y)[i])
    {
      if i < |x| {
        assert (x + y)[i] == x[i];
      } else {
        assert (x + y)[i] == y[i - |x|];
      }
    }
  }

  /** `trim()` is empty exactly when the string is all white space. */
  lemma TrimEmpty(s: string)
    ensures Trim(s) == "" <==> AllSpace(s)
  {
    var a := LeadingSpace(s);
    var rest := s[a..];
    var b := TrailingSpace(rest);
    TrimParts(s, a, rest, b);
    var r := rest[..|rest| - b];
    assert Trim(s) == r;
    if r == "" {
      assert s == s[..a] + s[a + |r|..];
      AllSpaceAppend(s[..a], s[a + |r|..]);
    } else {
      assert s[a] == r[0];
    }
  }

  /** The end of the line that contains index `i`: the first line terminator
      at or after `i`, or the end of `s`. */
  function LineEnd(s: string, i: nat): (e: nat)
    requires i <= |s|
    ensures i <= e <= |s| && NoLineTerminator(s[i..e])
    ensures e < |s| ==> IsLineTerminator(s[e])
    decreases |s| - i
  {
    if i == |s| || IsLineTerminator(s[i]) then i
    else
      var e := LineEnd(s, i + 1);
      assert forall k :: 0 <= k < e - i ==> s[i..e][k] == s[i + k];
      e
  }

  /** What a greedy `(.*)` captures starting at index `i`. */
  function RestOfLine(s: string, i: nat): (r: string)
    requires i <= |s|
    ensures NoLineTerminator(r) && StartsWith(s[i..], r)
    ensures i + |r| == |s| || IsLineTerminator(s[i + |r|])
  {
    var e := LineEnd(s, i);
    assert s[i..][..e - i] == s[i..e];
    s[i..e]
  }

  /** A text without line terminators is captured whole by `(.*)`. */
  lemma RestOfLineAll(s: string)
    requires NoLineTerminator(s)
    ensures RestOfLine(s, 0) == s
  {
    LineEndNone(s, 0);
  }

  /** A line that runs to the end of the text is captured whole by `(.*)`. */
  lemma {:induction false} RestOfLineTail(s: string, i: nat)
    requires i <= |s| && NoLineTerminator(s[i..])
    ensures RestOfLine(s, i) == s[i..]
    decreases |s| - i
  {
    if i < |s| {
      assert s[i] == s[i..][0];
      assert s[i + 1..] == s[i..][1..];
      RestOfLineTail(s, i + 1);
    }
  }

  lemma {:induction false} LineEndNone(s: string, i: nat)
    requires i <= |s| && NoLineTerminator(s)
    ensures LineEnd(s, i) == |s|
    decreases |s| - i
  {
    if i < |s| {
      LineEndNone(s, i + 1);
    }
  }

  /** Length of the maximal run of ASCII digits at the start of `s`. */
  function DigitSpan(s: string): (n: nat)
    ensures n <= |s|
  {
    if |s| > 0 && IsDigit(s[0]) then 1 + DigitSpan(s[1..]) else 0
  }

  lemma {:induction false} DigitSpanSound(s: string)
    ensures AllDigits(s[..DigitSpan(s)])
    ensures DigitSpan(s) < |s| ==> !IsDigit(s[DigitSpan(s)])
  {
    if |s| > 0 && IsDigit(s[0]) {
      DigitSpanSound(s[1..]);
      assert s[..DigitSpan(s)] == [s[0]] + s[1..][..DigitSpan(s[1..])];
    }
  }

  lemma {:induction false} DigitSpanOf(ds: string, t: string)
    requires AllDigits(ds) && (t == [] || !IsDigit(t[0]))
    ensures DigitSpan(ds + t) == |ds|
  {
    if ds != [] {
      assert (ds + t)[1..] == ds[1..] + t;
      DigitSpanOf(ds[1..], t);
    } else {
      assert ds + t == t;
    }
  }

  function DigitChar(d: nat): (c: char)
    requires d < 10
    ensures IsDigit(c)
  {
    ['0', '1', '2', '3', '4', '5', '6', '7', '8', '9'][d]
  }

  function DigitValue(c: char): (d: nat)
    requires IsDigit(c)
    ensures d < 10
  {
    (c as int - '0' as int) as nat
  }

  /** JavaScript `parseInt` of a run of decimal digits (leading zeros allowed). */
  function DigitsValue(ds: string): nat
    requires AllDigits(ds)
  {
    if |ds| == 0 then 0
    else DigitsValue(ds[..|ds| - 1]) * 10 + DigitValue(ds[|ds| - 1])
  }

  /** The decimal rendering of a non-negative number, as `'' + n` gives it. */
  function NatToString(n: nat): (r: string)
    ensures |r| >= 1 && AllDigits(r)
  {
    if n < 10 then [DigitChar(n)]
    else NatToString(n / 10) + [DigitChar(n % 10)]
  }

  function IntToString(i: int): string {
    if i < 0 then "-" + NatToString(-i) else NatToString(i)
  }

  /** Reading the rendering back gives the number: `parseInt('' + n) == n`. */
  lemma {:induction false} NatToStringValue(n: nat)
    ensures DigitsValue(NatToString(n)) == n
  {
    var r := NatToString(n);
    if n < 10 {
      assert DigitValue(DigitChar(n)) == n;
    } else {
      assert r[..|r| - 1] == NatToString(n / 10);
      assert DigitValue(DigitChar(n % 10)) == n % 10;
      NatToStringValue(n / 10);
    }
  }
}
