/** The index update of `AdjustAsync` (ModeAdjustment.cs): the plug-in keeps
    its own position in the mode list and moves it by the dial's ticks with
    32-bit C# arithmetic. */
module ModeAdjustment {
  import opened Types
  import opened Modes

  /** The plug-in's own copy of the mode names. */
  const ModeNames: seq<string> := ["SAFE", "PERF", "SEC", "REFACTOR"]

  newtype Int32 = x: int | -0x8000_0000 <= x < 0x8000_0000

  /** C# `int` addition in an unchecked context: the sum wraps modulo 2^32. */
  function Add32(a: Int32, b: Int32): (r: Int32)
    ensures (r as int - (a as int + b as int)) % 0x1_0000_0000 == 0
  {
    var s := a as int + b as int;
    if s >= 0x8000_0000 then (s - 0x1_0000_0000) as Int32
    else if s < -0x8000_0000 then (s + 0x1_0000_0000) as Int32
    else s as Int32
  }

  /** `((_currentIndex + ticks) % Modes.Length + Modes.Length) % Modes.Length`. */
  function AdjustIndex(current: Int32, ticks: Int32): (r: Int32)
  {
    var n := |ModeNames|;
    var sum := Add32(current, ticks);
    TruncRem(TruncRem(sum as int, n) + n, n) as Int32
  }

  /** The new index lies in the list and is the old one moved by `ticks`
      round the list; wrap-around of the sum does not disturb it, because
      2^32 is a multiple of 4. */
  lemma AdjustSpec(current: Int32, ticks: Int32)
    ensures 0 <= AdjustIndex(current, ticks) < |ModeNames| as Int32
    ensures AdjustIndex(current, ticks) as int == (current as int + ticks as int) % |ModeNames|
  {
    var sum := Add32(current, ticks) as int;
    var t := TruncRem(sum, 4);
    assert (t + 4) % 4 == t % 4;
    var k := (sum - (current as int + ticks as int)) / 0x1_0000_0000;
    assert sum == current as int + ticks as int + 0x1_0000_0000 * k;
    assert 0x1_0000_0000 * k == 4 * (0x4000_0000 * k);
  }

  /** No ticks keep an index in range where it is. */
  lemma AdjustZero(current: Int32)
    requires 0 <= current < 4
    ensures AdjustIndex(current, 0) == current
  {
    AdjustSpec(current, 0);
  }

  /** `ticks` and `ticks + 4` give the same index. */
  lemma AdjustPeriodic(current: Int32, ticks: Int32)
    requires ticks as int + 4 < 0x8000_0000
    ensures AdjustIndex(current, ticks + 4) == AdjustIndex(current, ticks)
  {
    AdjustSpec(current, ticks);
    AdjustSpec(current, ticks + 4);
    assert (current as int + ticks as int + 4) % 4 == (current as int + ticks as int) % 4;
  }

  /** One tick forward from any index in range names the mode `rotateMode`
      steps to: the plug-in cycles in the order of `ALL_MODES`. */
  lemma AdjustFollowsRotation(current: Int32)
    requires 0 <= current < 4
    ensures ModeNames[AdjustIndex(current, 1)] == ModeName(RotateMode(AllModes[current], 1))
  {
    AdjustSpec(current, 1);
    RotateSpec(AllModes[current], 1);
  }
}
