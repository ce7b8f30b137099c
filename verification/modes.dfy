/** `rotateMode` (modes.ts): step through `ALL_MODES` by `delta`, wrapping at
    both ends. */
module Modes {
  import opened Types

  /** The remainder of JavaScript's and C#'s `a % n` for `n > 0`: it keeps
      the sign of `a`, unlike Dafny's `%`. */
  function TruncRem(a: int, n: int): (r: int)
    requires n > 0
    ensures -n < r < n
    ensures a >= 0 ==> 0 <= r
    ensures a < 0 ==> r <= 0
    ensures r % n == a % n
  {
    if a >= 0 then a % n
    else
      var q := -a / n;
      var r := -((-a) % n);
      assert r == a + n * q;
      ModShift(a, q, n);
      r
  }

  lemma ModShift(x: int, q: int, n: int)
    requires n > 0
    ensures (x + n * q) % n == x % n
  {
    var y := x + n * q;
    assert y == n * (x / n + q) + x % n;
    assert 0 <= x % n < n;
    DivModUnique(y, n, x / n + q, x % n);
  }

  /** Euclidean division leaves one quotient and one remainder. */
  lemma DivModUnique(y: int, n: int, d: int, m: int)
    requires n > 0 && 0 <= m < n && y == n * d + m
    ensures y % n == m
  {
    var d2, m2 := y / n, y % n;
    assert n * (d - d2) == m2 - m;
    MulOutside(n, d - d2);
  }

  /** A non-zero multiple of `n` is at least `n` away from zero. */
  lemma {:induction false} MulOutside(n: int, k: int)
    requires n > 0
    ensures k >= 1 ==> n * k >= n
    ensures k <= -1 ==> n * k <= -n
    decreases if k < 0 then -k else k
  {
    if k > 1 {
      MulOutside(n, k - 1);
      assert n * k == n * (k - 1) + n;
    } else if k < -1 {
      MulOutside(n, k + 1);
      assert n * k == n * (k + 1) - n;
    }
  }

  function RotateMode(current: Mode, delta: int): (r: Mode)
  {
    var n := |AllModes|;
    var next := TruncRem(TruncRem(ModeIndex(current) + delta, n) + n, n);
    AllModes[next]
  }

  /** Rotation is stepping by `delta` positions round the list. */
  lemma RotateSpec(current: Mode, delta: int)
    ensures RotateMode(current, delta) == AllModes[(ModeIndex(current) + delta) % |AllModes|]
  {
    var n := |AllModes|;
    var t := TruncRem(ModeIndex(current) + delta, n);
    ModShift(t, 1, n);
    assert TruncRem(t + n, n) == (t + n) % n;
  }

  /** No rotation keeps the mode. */
  lemma RotateZero(current: Mode)
    ensures RotateMode(current, 0) == current
  {
    RotateSpec(current, 0);
  }

  /** Rotating by `delta` and by `delta + 4` lands on the same mode. */
  lemma RotatePeriodic(current: Mode, delta: int)
    ensures RotateMode(current, delta + |AllModes|) == RotateMode(current, delta)
  {
    RotateSpec(current, delta);
    RotateSpec(current, delta + |AllModes|);
    ModShift(ModeIndex(current) + delta, 1, |AllModes|);
  }

  /** On four positions a step back undoes a step forward and the reverse. */
  lemma StepsCancel(i: int)
    requires 0 <= i < 4
    ensures ((i + 1) % 4 - 1) % 4 == i && ((i - 1) % 4 + 1) % 4 == i
  {
    if i == 0 {
      assert (0 - 1) % 4 == 3;
    } else if i == 3 {
      assert (3 + 1) % 4 == 0;
    }
  }

  /** One step forward and one back returns to the start. */
  lemma RotateBack(current: Mode)
    ensures RotateMode(RotateMode(current, 1), -1) == current
  {
    var i: int := ModeIndex(current);
    RotateSpec(current, 1);
    var next := RotateMode(current, 1);
    var k := (i + 1) % 4;
    assert next == AllModes[k];
    AllModesDistinct();
    assert ModeIndex(next) == k;
    RotateSpec(next, -1);
    StepsCancel(i);
  }

  /** The ends wrap round: `REFACTOR` steps forward to `SAFE` and back again. */
  lemma RotateWraps()
    ensures RotateMode(REFACTOR, 1) == SAFE && RotateMode(SAFE, -1) == REFACTOR
  {
    RotateSpec(REFACTOR, 1);
    assert (3 + 1) % 4 == 0;
    RotateSpec(SAFE, -1);
    assert (0 - 1) % 4 == 3;
  }

  /** One step back and one forward returns to the start. */
  lemma RotateForward(current: Mode)
    ensures RotateMode(RotateMode(current, -1), 1) == current
  {
    var i: int := ModeIndex(current);
    RotateSpec(current, -1);
    var prev := RotateMode(current, -1);
    var k := (i - 1) % 4;
    assert prev == AllModes[k];
    AllModesDistinct();
    assert ModeIndex(prev) == k;
    RotateSpec(prev, 1);
    StepsCancel(i);
  }
}
