/** `truncate` (utils.ts): shorten a string to a length, marking the cut
    with an ellipsis. */
module Utils {
  import opened Text

  const Ellipsis: char := '\U{2026}'

  /** JavaScript `s.slice(0, end)`: a negative end counts from the back. */
  function SliceTo(s: string, end: int): (r: string)
    ensures StartsWith(s, r)
  {
    if end < 0 then s[..if |s| + end < 0 then 0 else |s| + end]
    else s[..if end < |s| then end else |s|]
  }

  function Truncate(str: string, maxLen: int): string {
    if |str| <= maxLen then str else SliceTo(str, maxLen - 1) + [Ellipsis]
  }

  /** A string that fits comes back unchanged, and for a positive limit
      only such a string does. A longer one comes back exactly `maxLen`
      long: it agrees with the input on its first `maxLen - 1` characters
      and its last character is the ellipsis. */
  lemma TruncateSpec(str: string, maxLen: int)
    ensures |str| <= maxLen ==> Truncate(str, maxLen) == str
    ensures 1 <= maxLen ==> (Truncate(str, maxLen) == str <==> |str| <= maxLen)
    ensures 1 <= maxLen < |str| ==>
      var r := Truncate(str, maxLen);
      && |r| == maxLen
      && r[..maxLen - 1] == str[..maxLen - 1]
      && r[maxLen - 1] == Ellipsis
  {
  }

  /** For a positive limit the result never exceeds it. */
  lemma TruncateBound(str: string, maxLen: int)
    requires maxLen >= 1
    ensures |Truncate(str, maxLen)| <= maxLen
  {
    TruncateSpec(str, maxLen);
  }

  /** For a positive limit truncating twice is truncating once. */
  lemma TruncateIdempotent(str: string, maxLen: int)
    requires maxLen >= 1
    ensures Truncate(Truncate(str, maxLen), maxLen) == Truncate(str, maxLen)
  {
    TruncateSpec(str, maxLen);
    TruncateSpec(Truncate(str, maxLen), maxLen);
  }

  /** With a limit below one the slice end is negative and counts from the
      back, so a string longer than the limit loses only its last
      `1 - maxLen` characters and can come back longer than the limit. */
  lemma TruncateNonPositive(str: string, maxLen: int)
    requires maxLen <= 0 && |str| > maxLen
    ensures var keep := if |str| + maxLen - 1 < 0 then 0 else |str| + maxLen - 1;
      Truncate(str, maxLen) == str[..keep] + [Ellipsis]
  {
  }
}
