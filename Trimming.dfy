/** Kotlin's `String.trim()`: drop the whitespace at both ends of a string. Which characters
    count as whitespace is the platform's table; here it is the parameter `isWhitespace`,
    so nothing below depends on a particular character set. */
module Trimming {

  ghost predicate AllWhitespace(s: string, isWhitespace: char -> bool)
  {
    forall i :: 0 <= i < |s| ==> isWhitespace(s[i])
  }

  /** The number of whitespace characters at the start of `s`. */
  function LeadingWhitespace(s: string, isWhitespace: char -> bool): (n: nat)
    ensures n <= |s|
    ensures forall i :: 0 <= i < n ==> isWhitespace(s[i])
    ensures n < |s| ==> !isWhitespace(s[n])
  {
    if s == [] || !isWhitespace(s[0]) then 0 else 1 + LeadingWhitespace(s[1..], isWhitespace)
  }

  /** The number of whitespace characters at the end of `s`. */
  function TrailingWhitespace(s: string, isWhitespace: char -> bool): (n: nat)
    ensures n <= |s|
    ensures forall i :: |s| - n <= i < |s| ==> isWhitespace(s[i])
    ensures n < |s| ==> !isWhitespace(s[|s| - 1 - n])
  {
    if s == [] || !isWhitespace(s[|s| - 1]) then 0
    else 1 + TrailingWhitespace(s[..|s| - 1], isWhitespace)
  }

  /** `s` without its leading and trailing whitespace. The result is empty exactly when `s`
      is all whitespace; otherwise it starts and ends with a non-whitespace character; and it
      is the part of `s` left between a whitespace prefix and a whitespace suffix. */
  function Trim(s: string, isWhitespace: char -> bool): (r: string)
    ensures r == [] <==> AllWhitespace(s, isWhitespace)
    ensures r != [] ==> !isWhitespace(r[0]) && !isWhitespace(r[|r| - 1])
    ensures exists i :: (0 <= i <= |s| - |r| && s[i..i + |r|] == r &&
                         AllWhitespace(s[..i], isWhitespace) && AllWhitespace(s[i + |r|..], isWhitespace))
  {
    var start := LeadingWhitespace(s, isWhitespace);
    var t := s[start..];
    var r := t[..|t| - TrailingWhitespace(t, isWhitespace)];
    assert s[start..start + |r|] == r;
    assert AllWhitespace(s[..start], isWhitespace);
    assert AllWhitespace(s[start + |r|..], isWhitespace) by {
      assert s[start + |r|..] == t[|r|..];
    }
    r
  }

  /** Trim gives back exactly the middle of a string padded with whitespace on both sides,
      provided the middle itself neither starts nor ends with whitespace. */
  lemma TrimPadded(prefix: string, middle: string, suffix: string, isWhitespace: char -> bool)
    requires AllWhitespace(prefix, isWhitespace) && AllWhitespace(suffix, isWhitespace)
    requires middle != [] ==> !isWhitespace(middle[0]) && !isWhitespace(middle[|middle| - 1])
    ensures Trim(prefix + middle + suffix, isWhitespace) == middle
  {
    var s := prefix + middle + suffix;
    if middle == [] {
      assert AllWhitespace(s, isWhitespace) by {
        assert s == prefix + suffix;
      }
    } else {
      var start := LeadingWhitespace(s, isWhitespace);
      assert s[|prefix|] == middle[0];
      assert start == |prefix|;
      var t := s[start..];
      assert t == middle + suffix;
      var n := TrailingWhitespace(t, isWhitespace);
      assert t[|t| - 1 - |suffix|] == middle[|middle| - 1];
      assert n == |suffix|;
      assert t[..|t| - n] == middle;
    }
  }

  /** Trimming twice is trimming once. */
  lemma TrimIdempotent(s: string, isWhitespace: char -> bool)
    ensures Trim(Trim(s, isWhitespace), isWhitespace) == Trim(s, isWhitespace)
  {
  }
}
