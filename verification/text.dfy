/**
 * String helpers of the JavaScript runtime that both cores rely on:
 * `String.prototype.trim`, `toLowerCase` (ASCII part) and `includes`.
 */
module Text {

  /**
   * ECMAScript WhiteSpace and LineTerminator code points, the set `trim` strips:
   * TAB, LF, VT, FF, CR, SPACE, NBSP, the other space separators (category Zs),
   * LINE SEPARATOR, PARAGRAPH SEPARATOR and the byte-order mark.
   */
  predicate IsWhitespace(c: char) {
    var n := c as int;
    || (0x09 <= n <= 0x0D)
    || n == 0x20 || n == 0xA0 || n == 0x1680
    || (0x2000 <= n <= 0x200A)
    || n == 0x2028 || n == 0x2029 || n == 0x202F || n == 0x205F
    || n == 0x3000 || n == 0xFEFF
  }

  /** Positions `lo` to `hi - 1` of `s` are all whitespace. */
  predicate BlankBetween(s: string, lo: int, hi: int) {
    forall i :: lo <= i < hi && 0 <= i < |s| ==> IsWhitespace(s[i])
  }

  /** A string with no characters other than whitespace (the empty string included). */
  predicate IsBlank(s: string) {
    BlankBetween(s, 0, |s|)
  }

  /** The first position at or after `i` that is not whitespace, or `|s|`. */
  function SkipBlanks(s: string, i: nat): (j: nat)
    requires i <= |s|
    ensures i <= j <= |s|
    ensures BlankBetween(s, i, j)
    ensures j < |s| ==> !IsWhitespace(s[j])
    decreases |s| - i
  {
    if i == |s| || !IsWhitespace(s[i]) then i else SkipBlanks(s, i + 1)
  }

  /** The end of `s[lo..hi]` with its trailing whitespace dropped. */
  function SkipBlanksBack(s: string, lo: nat, hi: nat): (j: nat)
    requires lo <= hi <= |s|
    ensures lo <= j <= hi
    ensures BlankBetween(s, j, hi)
    ensures j > lo ==> !IsWhitespace(s[j - 1])
    decreases hi
  {
    if hi == lo || !IsWhitespace(s[hi - 1]) then hi else SkipBlanksBack(s, lo, hi - 1)
  }

  /** Where the trimmed text starts. */
  function TrimStart(s: string): (lo: nat)
    ensures lo <= |s| && BlankBetween(s, 0, lo)
    ensures lo < |s| ==> !IsWhitespace(s[lo])
  {
    SkipBlanks(s, 0)
  }

  /** Where the trimmed text ends. */
  function TrimEnd(s: string): (hi: nat)
    ensures TrimStart(s) <= hi <= |s| && BlankBetween(s, hi, |s|)
    ensures hi > TrimStart(s) ==> !IsWhitespace(s[hi - 1])
  {
    SkipBlanksBack(s, TrimStart(s), |s|)
  }

  /**
   * `s.trim()`: the infix of `s` left after removing whitespace on both ends;
   * everything removed is whitespace and the result neither starts nor ends
   * with whitespace.
   */
  function Trim(s: string): (r: string)
    ensures r == s[TrimStart(s)..TrimEnd(s)]
    ensures BlankBetween(s, 0, TrimStart(s)) && BlankBetween(s, TrimEnd(s), |s|)
    ensures r == [] || (!IsWhitespace(r[0]) && !IsWhitespace(r[|r| - 1]))
  {
    s[TrimStart(s)..TrimEnd(s)]
  }

  /** Trimming yields the empty string exactly for blank input. */
  lemma TrimEmptyIffBlank(s: string)
    ensures Trim(s) == [] <==> IsBlank(s)
  {
    var lo, hi := TrimStart(s), TrimEnd(s);
    if lo < |s| {
      assert !IsWhitespace(s[lo]);
      if lo < hi {
        assert Trim(s)[0] == s[lo];
      }
    }
  }

  /** Trimming twice is trimming once. */
  lemma TrimIdempotent(s: string)
    ensures Trim(Trim(s)) == Trim(s)
  {
    var r := Trim(s);
    if r != [] {
      assert !IsWhitespace(r[0]) && !IsWhitespace(r[|r| - 1]);
    }
  }

  /** The lower-case form of one character, ASCII letters only. */
  function LowerChar(c: char): (d: char)
    ensures 'A' <= c <= 'Z' ==> d as int == c as int + 32
    ensures !('A' <= c <= 'Z') ==> d == c
    ensures !('A' <= d <= 'Z')
  {
    if 'A' <= c <= 'Z' then (c as int + 32) as char else c
  }

  /** `s.toLowerCase()` restricted to ASCII letters. */
  function ToLower(s: string): (r: string)
    ensures |r| == |s|
    ensures forall i :: 0 <= i < |s| ==> r[i] == LowerChar(s[i])
  {
    seq(|s|, i requires 0 <= i < |s| => LowerChar(s[i]))
  }

  /** Lower-casing is idempotent. */
  lemma ToLowerIdempotent(s: string)
    ensures ToLower(ToLower(s)) == ToLower(s)
  {
  }

  /** `pattern` occurs in `text` starting at position `i`. */
  predicate OccursAt(text: string, pattern: string, i: int) {
    0 <= i && i + |pattern| <= |text| && text[i..i + |pattern|] == pattern
  }

  /**
   * `text.includes(pattern)`: a left-to-right scan for a prefix match. The
   * empty pattern is found in every text, and a found pattern fits in the text.
   */
  function Includes(text: string, pattern: string): (r: bool)
    ensures pattern == [] ==> r
    ensures r ==> |pattern| <= |text|
    decreases |text|
  {
    pattern <= text || (text != [] && Includes(text[1..], pattern))
  }

  /** An occurrence found by `Includes` is an occurrence at some position. */
  lemma {:induction false} IncludesOccurs(text: string, pattern: string) returns (i: int)
    requires Includes(text, pattern)
    ensures OccursAt(text, pattern, i)
    decreases |text|
  {
    if pattern <= text {
      i := 0;
    } else {
      var j := IncludesOccurs(text[1..], pattern);
      assert text[1..][j..j + |pattern|] == text[j + 1..j + 1 + |pattern|];
      i := j + 1;
    }
  }

  /** An occurrence at any position is found by `Includes`. */
  lemma {:induction false} OccursIncludes(text: string, pattern: string, i: int)
    requires OccursAt(text, pattern, i)
    ensures Includes(text, pattern)
    decreases |text|
  {
    if i > 0 {
      assert text[1..][i - 1..i - 1 + |pattern|] == text[i..i + |pattern|];
      OccursIncludes(text[1..], pattern, i - 1);
    }
  }

  /** `Includes` holds exactly when the pattern occurs at some position. */
  lemma IncludesIffOccurs(text: string, pattern: string)
    ensures Includes(text, pattern) <==> exists i :: OccursAt(text, pattern, i)
  {
    if Includes(text, pattern) {
      var i := IncludesOccurs(text, pattern);
    }
    if i :| OccursAt(text, pattern, i) {
      OccursIncludes(text, pattern, i);
    }
  }
}
