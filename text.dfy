/**
 * The string primitives the form rules are built from, with ECMAScript's
 * meaning: `String.prototype.trim`, the regular-expression classes `\s`,
 * `\S`, `\d`, `\D`, and `.length` counted in UTF-16 code units.
 */
module Text {

  /** ECMAScript's WhiteSpace and LineTerminator code points, the set that
      `trim`, `\s` and `\S` all use: TAB, LF, VT, FF, CR, SPACE, NO-BREAK
      SPACE, the other space separators (category Zs), LINE SEPARATOR,
      PARAGRAPH SEPARATOR and the byte order mark. */
  predicate IsSpace(c: char) {
    var n := c as int;
    || 0x09 <= n <= 0x0D
    || n == 0x20 || n == 0xA0 || n == 0x1680
    || 0x2000 <= n <= 0x200A
    || n == 0x2028 || n == 0x2029 || n == 0x202F || n == 0x205F
    || n == 0x3000 || n == 0xFEFF
  }

  /** `\d`: the ASCII decimal digits only. */
  predicate IsDigit(c: char) {
    '0' <= c <= '9'
  }

  ghost predicate AllSpace(s: string) {
    forall i | 0 <= i < |s| :: IsSpace(s[i])
  }

  /** Every character of s[lo..hi] is non-space (a run that `\S+` can match). */
  ghost predicate NonSpaceBetween(s: string, lo: int, hi: int)
    requires 0 <= lo <= hi <= |s|
  {
    forall k | lo <= k < hi :: !IsSpace(s[k])
  }

  // ---------------------------------------------------------------------
  // trim

  /** Number of whitespace characters at the start of s. */
  function LeadingSpaces(s: string): (k: nat)
    ensures k <= |s|
  {
    if s == [] || !IsSpace(s[0]) then 0 else 1 + LeadingSpaces(s[1..])
  }

  /** LeadingSpaces counts exactly the leading whitespace run. */
  lemma {:induction false} LeadingSpacesRun(s: string)
    ensures forall i | 0 <= i < LeadingSpaces(s) :: IsSpace(s[i])
    ensures LeadingSpaces(s) < |s| ==> !IsSpace(s[LeadingSpaces(s)])
  {
    if s != [] && IsSpace(s[0]) {
      LeadingSpacesRun(s[1..]);
      forall i | 0 <= i < LeadingSpaces(s) ensures IsSpace(s[i]) {
        if i > 0 { assert s[i] == s[1..][i - 1]; }
      }
    }
  }

  /** Number of whitespace characters at the end of s. */
  function TrailingSpaces(s: string): (k: nat)
    ensures k <= |s|
  {
    if s == [] || !IsSpace(s[|s| - 1]) then 0 else 1 + TrailingSpaces(s[..|s| - 1])
  }

  /** TrailingSpaces counts exactly the trailing whitespace run. */
  lemma {:induction false} TrailingSpacesRun(s: string)
    ensures forall i | |s| - TrailingSpaces(s) <= i < |s| :: IsSpace(s[i])
    ensures TrailingSpaces(s) < |s| ==> !IsSpace(s[|s| - 1 - TrailingSpaces(s)])
  {
    if s != [] && IsSpace(s[|s| - 1]) {
      var init := s[..|s| - 1];
      TrailingSpacesRun(init);
      forall i | |s| - TrailingSpaces(s) <= i < |s| ensures IsSpace(s[i]) {
        if i < |s| - 1 { assert s[i] == init[i]; }
      }
    }
  }

  /** `s.trim()`: never longer than s, and when not empty it starts and
      ends with a non-space character. */
  function Trim(s: string): (r: string)
    ensures |r| <= |s|
    ensures r != [] ==> !IsSpace(r[0]) && !IsSpace(r[|r| - 1])
  {
    var a := LeadingSpaces(s);
    var rest := s[a..];
    LeadingSpacesRun(s);
    TrailingSpacesRun(rest);
    assert a < |s| ==> rest[0] == s[a];
    s[a..|s| - TrailingSpaces(rest)]
  }

  /** trim gives the empty string exactly for whitespace-only input. */
  lemma TrimEdges(s: string)
    ensures Trim(s) == [] <==> AllSpace(s)
  {
    var a := LeadingSpaces(s);
    var rest := s[a..];
    LeadingSpacesRun(s);
    TrailingSpacesRun(rest);
    if a < |s| {
      assert rest[0] == s[a];
    }
  }

  /** trim removes a whitespace prefix and a whitespace suffix, nothing else. */
  lemma TrimSlice(s: string)
    ensures exists a, b | 0 <= a <= b <= |s| ::
              Trim(s) == s[a..b] && AllSpace(s[..a]) && AllSpace(s[b..])
  {
    var a := LeadingSpaces(s);
    var rest := s[a..];
    var b := |s| - TrailingSpaces(rest);
    LeadingSpacesRun(s);
    TrailingSpacesRun(rest);
    assert Trim(s) == s[a..b];
    forall i | 0 <= i < |s[..a]| ensures IsSpace(s[..a][i]) {
      assert s[..a][i] == s[i];
    }
    forall i | 0 <= i < |s[b..]| ensures IsSpace(s[b..][i]) {
      assert s[b..][i] == rest[|rest| - TrailingSpaces(rest) + i];
    }
  }

  /** A string with non-space characters at both ends is its own trim. */
  lemma TrimUnchanged(s: string)
    requires s != [] && !IsSpace(s[0]) && !IsSpace(s[|s| - 1])
    ensures Trim(s) == s
  {
  }

  // ---------------------------------------------------------------------
  // length in UTF-16 code units

  /** `.length` of a JavaScript string: a code point above U+FFFF is a
      surrogate pair and counts twice. */
  function Utf16Length(s: string): (n: nat)
    ensures |s| <= n <= 2 * |s|
  {
    if s == [] then 0
    else (if s[0] as int < 0x1_0000 then 1 else 2) + Utf16Length(s[1..])
  }

  /** Exactly one code unit per character when every character is in the
      Basic Multilingual Plane, and only then. */
  lemma {:induction false} Utf16LengthBounds(s: string)
    ensures Utf16Length(s) == |s| <==> forall i | 0 <= i < |s| :: s[i] as int < 0x1_0000
  {
    if s != [] {
      Utf16LengthBounds(s[1..]);
      if forall i | 0 <= i < |s| :: s[i] as int < 0x1_0000 {
        assert forall i | 0 <= i < |s[1..]| :: s[1..][i] as int < 0x1_0000 by {
          forall i | 0 <= i < |s[1..]| ensures s[1..][i] as int < 0x1_0000 { assert s[1..][i] == s[i + 1]; }
        }
      }
      if Utf16Length(s) == |s| {
        forall i | 0 <= i < |s| ensures s[i] as int < 0x1_0000 {
          if i > 0 { assert s[i] == s[1..][i - 1]; }
        }
      }
    }
  }

  /** One code unit exactly: a single character of the Basic Multilingual Plane. */
  lemma Utf16LengthOne(s: string)
    ensures Utf16Length(s) == 1 <==> |s| == 1 && s[0] as int < 0x1_0000
  {
    Utf16LengthBounds(s);
  }

  // ---------------------------------------------------------------------
  // s.replace(/\D/g, '')

  /** The digits of s, in order: only digits are left, and never more
      characters than s has. */
  function DigitsOnly(s: string): (r: string)
    ensures |r| <= |s|
    ensures forall c | c in r :: IsDigit(c)
  {
    if s == [] then []
    else (if IsDigit(s[0]) then [s[0]] else []) + DigitsOnly(s[1..])
  }

  /** A string made of digits is left as it is. */
  lemma {:induction false} DigitsOnlyOfDigits(s: string)
    requires forall i | 0 <= i < |s| :: IsDigit(s[i])
    ensures DigitsOnly(s) == s
  {
    if s != [] {
      assert forall i | 0 <= i < |s[1..]| :: IsDigit(s[1..][i]) by {
        forall i | 0 <= i < |s[1..]| ensures IsDigit(s[1..][i]) { assert s[1..][i] == s[i + 1]; }
      }
      DigitsOnlyOfDigits(s[1..]);
    }
  }

  /** A string of whitespace has no digits. */
  lemma {:induction false} DigitsOfSpaces(s: string)
    requires AllSpace(s)
    ensures DigitsOnly(s) == []
  {
    DigitsOnlyOfNonDigits(s);
  }

  /** A string with no digit contributes nothing. */
  lemma {:induction false} DigitsOnlyOfNonDigits(s: string)
    requires forall i | 0 <= i < |s| :: !IsDigit(s[i])
    ensures DigitsOnly(s) == []
  {
    if s != [] {
      DigitsOnlyOfNonDigits(s[1..]);
    }
  }

  /** Stripping works piecewise, so it keeps the digits' order. */
  lemma {:induction false} DigitsOnlyAppend(s: string, t: string)
    ensures DigitsOnly(s + t) == DigitsOnly(s) + DigitsOnly(t)
  {
    if s == [] {
      assert s + t == t;
    } else {
      assert (s + t)[1..] == s[1..] + t;
      DigitsOnlyAppend(s[1..], t);
    }
  }

  /** `/^\d{10}$/.test(t)`: exactly ten digits and nothing else. */
  predicate TenDigits(t: string) {
    |t| == 10 && forall i | 0 <= i < |t| :: IsDigit(t[i])
  }

  /** On the stripped string the anchored test is a length test. */
  lemma StrippedTenDigits(s: string)
    ensures TenDigits(DigitsOnly(s)) <==> |DigitsOnly(s)| == 10
  {
    var t := DigitsOnly(s);
    assert forall i | 0 <= i < |t| :: t[i] in t;
  }

  // ---------------------------------------------------------------------
  // /\S+@\S+\.\S+/.test(s), unanchored

  /** The regular expression's own reading: some substring of s is a
      non-space run, '@', a non-space run, '.', a non-space run. */
  ghost predicate MatchesEmailRegex(s: string) {
    exists at, dot | 0 <= at < dot < |s| :: RegexMatchAt(s, at, dot)
  }

  /** The regex matches with its '@' at `at` and its '.' at `dot`. */
  ghost predicate RegexMatchAt(s: string, at: int, dot: int)
    requires 0 <= at < dot < |s|
  {
    s[at] == '@' && s[dot] == '.' &&
    (exists i | 0 <= i < at :: NonSpaceBetween(s, i, at)) &&
    at + 1 < dot && NonSpaceBetween(s, at + 1, dot) &&
    (exists j :: RunAfter(s, dot, j))
  }

  /** s[dot+1..j] is a non-empty non-space run. */
  ghost predicate RunAfter(s: string, dot: int, j: int) {
    0 <= dot && dot + 1 < j <= |s| && NonSpaceBetween(s, dot + 1, j)
  }

  /** s[at] is an '@' that has a non-space character just before it. */
  ghost predicate AtAt(s: string, at: int) {
    0 < at < |s| && s[at] == '@' && !IsSpace(s[at - 1])
  }

  /** s[dot] is a '.' after at least one character past the '@' at `at`,
      with only non-space characters in between and a non-space one after. */
  ghost predicate DotAt(s: string, at: int, dot: int) {
    0 <= at && at + 1 < dot && dot + 1 < |s| && s[dot] == '.' &&
    NonSpaceBetween(s, at + 1, dot) && !IsSpace(s[dot + 1])
  }

  ghost predicate HasDotAfter(s: string, at: int) {
    exists dot :: DotAt(s, at, dot)
  }

  /** Each `\S+` may as well match a single character at its outer end, so
      the regex holds iff some '@' and '.' pair is well placed. */
  lemma EmailRegexByAnchors(s: string)
    ensures MatchesEmailRegex(s) <==> exists at :: AtAt(s, at) && HasDotAfter(s, at)
  {
    if MatchesEmailRegex(s) {
      var at, dot :| 0 <= at < dot < |s| && RegexMatchAt(s, at, dot);
      MatchAtAnchors(s, at, dot);
    }
    if exists at :: AtAt(s, at) && HasDotAfter(s, at) {
      var at :| AtAt(s, at) && HasDotAfter(s, at);
      var dot :| DotAt(s, at, dot);
      AnchorsMatchAt(s, at, dot);
    }
  }

  lemma MatchAtAnchors(s: string, at: int, dot: int)
    requires 0 <= at < dot < |s| && RegexMatchAt(s, at, dot)
    ensures AtAt(s, at) && DotAt(s, at, dot)
  {
    var i :| 0 <= i < at && NonSpaceBetween(s, i, at);
    var j :| RunAfter(s, dot, j);
    assert !IsSpace(s[at - 1]);
    assert !IsSpace(s[dot + 1]);
  }

  lemma AnchorsMatchAt(s: string, at: int, dot: int)
    requires AtAt(s, at) && DotAt(s, at, dot)
    ensures 0 <= at < dot < |s| && RegexMatchAt(s, at, dot)
  {
    assert NonSpaceBetween(s, at - 1, at);
    assert RunAfter(s, dot, dot + 2);
  }

  /** Scan the non-space run that starts after the '@' at `at`, from index k,
      for a well-placed '.'. */
  function DotRun(s: string, at: nat, k: nat): (found: bool)
    requires at < k <= |s|
    decreases |s| - k
  {
    if k == |s| || IsSpace(s[k]) then false
    else if s[k] == '.' && at + 1 < k && k + 1 < |s| && !IsSpace(s[k + 1]) then true
    else DotRun(s, at, k + 1)
  }

  /** Try every '@' from index p on. */
  function AtFrom(s: string, p: nat): (found: bool)
    requires 1 <= p <= |s|
    decreases |s| - p
  {
    if p == |s| then false
    else (s[p] == '@' && !IsSpace(s[p - 1]) && DotRun(s, p, p + 1)) || AtFrom(s, p + 1)
  }

  /** The executable email-shape test, which agrees with the regular
      expression's own reading in both directions. */
  function HasEmailShape(s: string): (b: bool)
    ensures b <==> MatchesEmailRegex(s)
  {
    EmailRegexByAnchors(s);
    if |s| > 0 then
      AtFromCorrect(s, 1);
      AtFrom(s, 1)
    else false
  }

  lemma {:induction false} DotRunCorrect(s: string, at: nat, k: nat)
    requires at < k <= |s|
    requires NonSpaceBetween(s, at + 1, k)
    ensures DotRun(s, at, k) <==> exists dot | k <= dot :: DotAt(s, at, dot)
    decreases |s| - k
  {
    if k == |s| {
    } else if IsSpace(s[k]) {
    } else if s[k] == '.' && at + 1 < k && k + 1 < |s| && !IsSpace(s[k + 1]) {
      assert DotAt(s, at, k);
    } else {
      DotRunCorrect(s, at, k + 1);
      assert !DotAt(s, at, k);
      if exists dot | k <= dot :: DotAt(s, at, dot) {
        var dot :| k <= dot && DotAt(s, at, dot);
        assert k + 1 <= dot;
      }
    }
  }

  lemma {:induction false} AtFromCorrect(s: string, p: nat)
    requires 1 <= p <= |s|
    ensures AtFrom(s, p) <==> exists at | p <= at :: AtAt(s, at) && HasDotAfter(s, at)
    decreases |s| - p
  {
    if p < |s| {
      AtFromCorrect(s, p + 1);
      DotRunCorrect(s, p, p + 1);
      if AtAt(s, p) && HasDotAfter(s, p) {
        var dot :| DotAt(s, p, dot);
        assert p + 1 <= dot;
      }
      if exists at | p <= at :: AtAt(s, at) && HasDotAfter(s, at) {
        var at :| p <= at && AtAt(s, at) && HasDotAfter(s, at);
        if at == p {
          var dot :| DotAt(s, p, dot);
          assert p + 1 <= dot;
        } else {
          assert p + 1 <= at;
        }
      }
    }
  }

  /** Without an '@' from index p on, no candidate is found there. */
  lemma {:induction false} AtFromWithoutAt(s: string, p: nat)
    requires 1 <= p <= |s|
    requires forall i | p <= i < |s| :: s[i] != '@'
    ensures !AtFrom(s, p)
    decreases |s| - p
  {
    if p < |s| {
      AtFromWithoutAt(s, p + 1);
    }
  }
}
