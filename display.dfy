/**
 * Shortening a line to the terminal width (`ellipsize`). A string is a
 * sequence of runes here, so lengths and cuts count runes, as the source
 * does.
 */
module Display {
  /** "…", the single rune that marks a cut. */
  const Ellipsis: char := '\U{2026}'

  function Max(a: int, b: int): int {
    if a < b then b else a
  }

  /**
   * `ellipsize`: `s` when it has at most `maxLength` runes; otherwise its
   * first `maxLength - 1` runes (none, when `maxLength` is below 1)
   * followed by the ellipsis, so exactly `maxLength` runes when
   * `maxLength >= 1`. An empty string is returned unchanged.
   */
  method Ellipsize(s: string, maxLength: int) returns (r: string)
    ensures |s| <= maxLength || |s| == 0 ==> r == s
    ensures |s| > maxLength && |s| > 0 ==>
              && |r| == Max(maxLength, 1)
              && r[..|r| - 1] == s[..|r| - 1]
              && r[|r| - 1] == Ellipsis
  {
    if |s| > maxLength {
      var index := 0;
      var runeIndex := 0;
      while runeIndex < |s|
        invariant 0 <= runeIndex <= |s|
        invariant index == runeIndex
        invariant runeIndex <= Max(maxLength - 1, 0)
      {
        index := index + 1;
        if index > maxLength - 1 {
          return s[..runeIndex] + [Ellipsis];
        }
        runeIndex := runeIndex + 1;
      }
    }
    return s;
  }
}
