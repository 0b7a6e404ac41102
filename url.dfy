/**
 * The URL check of the bookmark manager: the case-insensitive regular
 * expression `^(https?:\/\/)[^\s/$.?#].[^\s]*$`, written out as the
 * deterministic automaton that recognises exactly its language, together
 * with a declarative description of that language and the proof that the two
 * agree.
 */
module UrlPattern {
  import opened JsText

  /** The characters `[^\s/$.?#]` admits right after the scheme. */
  predicate IsHostStart(c: char) {
    !IsWhitespace(c) && c != '/' && c != '$' && c != '.' && c != '?' && c != '#'
  }

  /**
   * Where the matcher stands: inside the letters of `http` (`Scheme(i)`
   * expects letter `i`), at the optional `s`, inside the `://` separator
   * (`Sep(j)` expects character `j`), at the host's first character, at the
   * `.` that follows it, inside the trailing `[^\s]*`, or failed for good.
   */
  datatype MatchState = Scheme(i: nat) | OptS | Sep(j: nat) | Host | Any | Tail | Dead

  const Letters: string := "http"
  const Separator: string := "://"

  /** One character of input. The `/i` flag makes the letters of the scheme case-insensitive. */
  function Step(st: MatchState, c: char): MatchState {
    match st
    case Scheme(i) =>
      if i < |Letters| && LowerChar(c) == Letters[i] then
        (if i + 1 == |Letters| then OptS else Scheme(i + 1))
      else Dead
    case OptS =>
      if LowerChar(c) == 's' then Sep(0) else if c == Separator[0] then Sep(1) else Dead
    case Sep(j) =>
      if j < |Separator| && c == Separator[j] then
        (if j + 1 == |Separator| then Host else Sep(j + 1))
      else Dead
    case Host => if IsHostStart(c) then Any else Dead
    case Any => if !IsLineTerminator(c) then Tail else Dead
    case Tail => if IsWhitespace(c) then Dead else Tail
    case Dead => Dead
  }

  /** The state reached from `st` after reading all of `s`. */
  function Run(st: MatchState, s: string): MatchState
    decreases |s|
  {
    if s == [] then st else Run(Step(st, s[0]), s[1..])
  }

  /** `isValidURL`: the whole of `url` is matched (the pattern is anchored by `^` and `$`). */
  predicate IsValidURL(url: string) {
    Run(Scheme(0), url) == Tail
  }

  // ---------------------------------------------------------------------
  // The language of the pattern, stated without the automaton.

  /** `u` starts with `scheme`, compared after lower-casing `u`. */
  ghost predicate HasSchemeCI(u: string, scheme: string) {
    |scheme| <= |u| && forall k :: 0 <= k < |scheme| ==> LowerChar(u[k]) == scheme[k]
  }

  /**
   * What must follow the scheme: a host-start character, one character that
   * is not a line terminator, then no whitespace at all.
   */
  ghost predicate AfterScheme(t: string) {
    2 <= |t| && IsHostStart(t[0]) && !IsLineTerminator(t[1])
    && forall k :: 2 <= k < |t| ==> !IsWhitespace(t[k])
  }

  ghost predicate UrlShape(u: string) {
    (HasSchemeCI(u, "http://") && AfterScheme(u[7..]))
    || (HasSchemeCI(u, "https://") && AfterScheme(u[8..]))
  }

  // ---------------------------------------------------------------------
  // The automaton accepts exactly UrlShape.

  lemma {:induction false} DeadStays(s: string)
    ensures Run(Dead, s) == Dead
    decreases |s|
  {
    if s != [] {
      DeadStays(s[1..]);
    }
  }

  lemma {:induction false} TailAccepts(s: string)
    ensures Run(Tail, s) == Tail <==> forall k :: 0 <= k < |s| ==> !IsWhitespace(s[k])
    decreases |s|
  {
    if s != [] {
      if IsWhitespace(s[0]) {
        DeadStays(s[1..]);
      } else {
        TailAccepts(s[1..]);
        assert forall k :: 1 <= k < |s| ==> s[k] == s[1..][k - 1];
      }
    }
  }

  lemma HostAccepts(s: string)
    ensures Run(Host, s) == Tail <==> AfterScheme(s)
  {
    if s != [] {
      if !IsHostStart(s[0]) {
        DeadStays(s[1..]);
      } else if |s| >= 2 {
        var t := s[1..];
        if IsLineTerminator(t[0]) {
          DeadStays(t[1..]);
        } else {
          TailAccepts(t[1..]);
          assert forall k :: 2 <= k < |s| ==> s[k] == t[1..][k - 2];
        }
      }
    }
  }

  /** From `Sep(j)` the rest of the separator must come, then what follows the scheme. */
  lemma {:induction false} SepAccepts(j: nat, s: string)
    requires j < |Separator|
    ensures Run(Sep(j), s) == Tail <==>
      |Separator| - j <= |s| && s[..|Separator| - j] == Separator[j..]
      && AfterScheme(s[|Separator| - j..])
    decreases |Separator| - j
  {
    if s == [] {
    } else if s[0] != Separator[j] {
      DeadStays(s[1..]);
    } else if j + 1 == |Separator| {
      HostAccepts(s[1..]);
    } else {
      SepAccepts(j + 1, s[1..]);
      if |Separator| - j <= |s| {
        assert s[..|Separator| - j] == [s[0]] + s[1..][..|Separator| - (j + 1)];
        assert s[1..][|Separator| - (j + 1)..] == s[|Separator| - j..];
      }
    }
  }

  /** From `Scheme(i)` the rest of `http` must come (in any case), then the optional `s`. */
  lemma {:induction false} SchemeAccepts(i: nat, s: string)
    requires i < |Letters|
    ensures Run(Scheme(i), s) == Tail <==>
      |Letters| - i <= |s|
      && (forall k :: 0 <= k < |Letters| - i ==> LowerChar(s[k]) == Letters[i + k])
      && Run(OptS, s[|Letters| - i..]) == Tail
    decreases |Letters| - i
  {
    if s == [] {
    } else if LowerChar(s[0]) != Letters[i] {
      DeadStays(s[1..]);
    } else if i + 1 == |Letters| {
    } else {
      SchemeAccepts(i + 1, s[1..]);
      if |Letters| - i <= |s| {
        assert s[1..][|Letters| - (i + 1)..] == s[|Letters| - i..];
      }
    }
  }

  lemma OptSAccepts(s: string)
    ensures Run(OptS, s) == Tail <==>
      1 <= |s|
      && ((LowerChar(s[0]) == 's' && Run(Sep(0), s[1..]) == Tail)
          || (s[0] == ':' && Run(Sep(1), s[1..]) == Tail))
  {
    if s != [] && LowerChar(s[0]) != 's' && s[0] != ':' {
      DeadStays(s[1..]);
    }
  }

  /**
   * `isValidURL(u)` holds exactly when `u` starts with `http://` or
   * `https://` in any letter case, then a character that is neither
   * whitespace nor one of `/ $ . ? #`, then one character that is not a line
   * terminator, and contains no whitespace after that.
   */
  lemma IsValidURLCharacterised(u: string)
    ensures IsValidURL(u) <==> UrlShape(u)
  {
    SchemeAccepts(0, u);
    if 4 <= |u| && forall k :: 0 <= k < 4 ==> LowerChar(u[k]) == Letters[k] {
      var t := u[4..];
      OptSAccepts(t);
      if 1 <= |t| {
        SepAccepts(0, t[1..]);
        SepAccepts(1, t[1..]);
        assert t[1..] == u[5..];
        if 8 <= |u| {
          assert u[5..][3..] == u[8..];
        }
        if 7 <= |u| {
          assert u[5..][2..] == u[7..];
        }
        if LowerChar(u[4]) == 's' {
          assert !HasSchemeCI(u, "http://");
          assert IsValidURL(u) <==> Run(Sep(0), u[5..]) == Tail;
          if 8 <= |u| {
            assert HasSchemeCI(u, "https://") <==> u[5..][..3] == Separator;
          }
        } else if u[4] == ':' {
          assert !HasSchemeCI(u, "https://");
          assert IsValidURL(u) <==> Run(Sep(1), u[5..]) == Tail;
          if 7 <= |u| {
            assert HasSchemeCI(u, "http://") <==> u[5..][..2] == Separator[1..];
          }
        } else {
          assert !HasSchemeCI(u, "http://");
          assert !HasSchemeCI(u, "https://");
        }
      }
    } else {
      if 4 <= |u| {
        var k :| 0 <= k < 4 && LowerChar(u[k]) != Letters[k];
        assert LowerChar(u[k]) != "http://"[k];
        assert LowerChar(u[k]) != "https://"[k];
      }
    }
  }

  /** A scheme in upper case is accepted: `HTTP://` passes the check. */
  lemma UpperCaseSchemeAccepted()
    ensures IsValidURL("HTTP://ab")
  {
    IsValidURLCharacterised("HTTP://ab");
  }

  /** The unescaped `.` lets a space through as the second character after the scheme. */
  lemma SpaceAfterHostStartAccepted()
    ensures IsValidURL("https://a b")
  {
    var u := "https://a b";
    assert HasSchemeCI(u, "https://");
    assert AfterScheme(u[8..]);
    IsValidURLCharacterised(u);
  }

  /** Other schemes, and a scheme with nothing after it, are refused. */
  lemma OtherSchemesRejected()
    ensures !IsValidURL("ftp://example.com")
    ensures !IsValidURL("https://")
    ensures !IsValidURL("https://a")
  {
    IsValidURLCharacterised("ftp://example.com");
    IsValidURLCharacterised("https://");
    IsValidURLCharacterised("https://a");
  }
}
