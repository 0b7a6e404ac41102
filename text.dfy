/**
 * The pieces of JavaScript string behaviour the bookmark manager relies on:
 * the `\s` character class (also what `String.prototype.trim` strips), line
 * terminators (what the regular-expression `.` refuses), ASCII case mapping
 * for `toLowerCase`/`toUpperCase`, `trim`, and the
 * `charAt(0).toUpperCase() + slice(1)` capitalisation of a bookmark name.
 */
module JsText {

  /** A JavaScript line terminator: LF, CR, LINE SEPARATOR, PARAGRAPH SEPARATOR. */
  predicate IsLineTerminator(c: char) {
    c == '\n' || c == '\r' || c == '\U{2028}' || c == '\U{2029}'
  }

  /**
   * The JavaScript `\s` class: the WhiteSpace characters (TAB, VT, FF, SPACE,
   * NO-BREAK SPACE, ZERO WIDTH NO-BREAK SPACE and the Unicode space separators)
   * together with the line terminators. `trim` strips exactly these.
   */
  predicate IsWhitespace(c: char)
    ensures IsLineTerminator(c) ==> IsWhitespace(c)
  {
    c == '\t' || c == '\U{0B}' || c == '\U{0C}' || c == ' ' || c == '\U{A0}'
    || c == '\U{1680}' || ('\U{2000}' <= c <= '\U{200A}') || c == '\U{202F}'
    || c == '\U{205F}' || c == '\U{3000}' || c == '\U{FEFF}'
    || IsLineTerminator(c)
  }

  predicate IsAsciiUpper(c: char) { 'A' <= c <= 'Z' }

  predicate IsAsciiLower(c: char) { 'a' <= c <= 'z' }

  /** `toLowerCase` on one character, restricted to ASCII letters. */
  function LowerChar(c: char): (r: char)
    ensures !IsAsciiUpper(r)
    ensures IsAsciiUpper(c) || r == c
  {
    if IsAsciiUpper(c) then (c as int + 32) as char else c
  }

  /** `toUpperCase` on one character, restricted to ASCII letters. */
  function UpperChar(c: char): (r: char)
    ensures !IsAsciiLower(r)
    ensures IsAsciiLower(c) || r == c
    ensures LowerChar(r) == LowerChar(c)
  {
    if IsAsciiLower(c) then (c as int - 32) as char else c
  }

  /** `toLowerCase` on a string: a character-by-character map. */
  function Lower(s: string): (r: string)
    ensures |r| == |s|
    ensures forall i :: 0 <= i < |s| ==> r[i] == LowerChar(s[i])
  {
    if s == [] then [] else [LowerChar(s[0])] + Lower(s[1..])
  }

  /** `s.charAt(0).toUpperCase() + s.slice(1)`; `charAt(0)` of "" is "". */
  function Capitalize(s: string): (r: string)
    ensures |r| == |s|
    ensures s != [] ==> r[0] == UpperChar(s[0]) && !IsAsciiLower(r[0])
    ensures s == [] || r[1..] == s[1..]
    ensures Lower(r) == Lower(s)
  {
    if s == [] then [] else [UpperChar(s[0])] + s[1..]
  }

  /** The number of whitespace characters at the front of `s`. */
  function LeadingSpace(s: string): (n: nat)
    ensures n <= |s|
    ensures forall i :: 0 <= i < n ==> IsWhitespace(s[i])
    ensures n < |s| ==> !IsWhitespace(s[n])
  {
    if s == [] || !IsWhitespace(s[0]) then 0 else 1 + LeadingSpace(s[1..])
  }

  /** The number of whitespace characters at the back of `s`. */
  function TrailingSpace(s: string): (n: nat)
    ensures n <= |s|
    ensures forall i :: |s| - n <= i < |s| ==> IsWhitespace(s[i])
    ensures n < |s| ==> !IsWhitespace(s[|s| - 1 - n])
  {
    if s == [] || !IsWhitespace(s[|s| - 1]) then 0 else 1 + TrailingSpace(s[..|s| - 1])
  }

  /**
   * `String.prototype.trim`: the longest middle part of `s` that neither
   * starts nor ends with whitespace, everything around it being whitespace.
   */
  function Trim(s: string): (r: string)
    ensures LeadingSpace(s) + |r| <= |s|
    ensures r == [] || (!IsWhitespace(r[0]) && !IsWhitespace(r[|r| - 1]))
    ensures r == s[LeadingSpace(s)..LeadingSpace(s) + |r|]
    ensures forall i :: 0 <= i < LeadingSpace(s) ==> IsWhitespace(s[i])
    ensures forall i :: LeadingSpace(s) + |r| <= i < |s| ==> IsWhitespace(s[i])
  {
    var rest := s[LeadingSpace(s)..];
    rest[..|rest| - TrailingSpace(rest)]
  }

  /** A string that starts and ends with a non-whitespace character is its own trim. */
  lemma TrimOfTrimmed(s: string)
    requires s == [] || (!IsWhitespace(s[0]) && !IsWhitespace(s[|s| - 1]))
    ensures Trim(s) == s
  {
    if s != [] {
      assert LeadingSpace(s) == 0;
      assert TrailingSpace(s) == 0;
    }
  }

  /** Cutting a prefix off `s` leaves its trailing whitespace alone while a non-whitespace character remains. */
  lemma {:induction false} TrailingSpaceOfSuffix(s: string, k: nat)
    requires k <= |s| && TrailingSpace(s) < |s| - k
    ensures TrailingSpace(s[k..]) == TrailingSpace(s)
    decreases |s|
  {
    if IsWhitespace(s[|s| - 1]) {
      var p := s[..|s| - 1];
      TrailingSpaceOfSuffix(p, k);
      assert s[k..][..|s[k..]| - 1] == p[k..];
    }
  }

  /**
   * `trim` removes exactly the leading and the trailing whitespace: its
   * result is empty when `s` is all whitespace and otherwise has the length
   * of `s` less both runs.
   */
  lemma TrimLength(s: string)
    ensures LeadingSpace(s) == |s| ==> Trim(s) == [] && TrailingSpace(s) == |s|
    ensures LeadingSpace(s) < |s| ==>
      LeadingSpace(s) + TrailingSpace(s) < |s|
      && |Trim(s)| == |s| - LeadingSpace(s) - TrailingSpace(s)
  {
    var n := LeadingSpace(s);
    if n < |s| {
      assert !IsWhitespace(s[n]);
      TrailingSpaceOfSuffix(s, n);
    } else if s != [] {
      assert !(TrailingSpace(s) < |s|);
    }
  }

  /** Trimming twice is trimming once. */
  lemma TrimIdempotent(s: string)
    ensures Trim(Trim(s)) == Trim(s)
  {
    TrimOfTrimmed(Trim(s));
  }
}
