/** Models of the Python string built-ins the quiz tutor relies on:
    str.strip(), str.lower(), the substring test `needle in s`,
    "\n".join(...) and the decimal formatting of an int inside an f-string. */
module Text {

  /** Python's str.isspace(): the characters str.strip() removes. */
  predicate IsSpace(c: char) {
    || ('\t' <= c <= '\r')                      // \t \n \v \f \r
    || ('\U{1C}' <= c <= '\U{1F}')              // file/group/record/unit separators
    || c == ' ' || c == '\U{85}' || c == '\U{A0}' || c == '\U{1680}'
    || ('\U{2000}' <= c <= '\U{200A}')
    || c == '\U{2028}' || c == '\U{2029}' || c == '\U{202F}' || c == '\U{205F}' || c == '\U{3000}'
  }

  predicate AllSpace(s: string) {
    forall i :: 0 <= i < |s| ==> IsSpace(s[i])
  }

  /** Number of whitespace characters at the front of s. */
  function LeadingSpace(s: string): (k: nat)
    ensures k <= |s| && AllSpace(s[..k])
    ensures k < |s| ==> !IsSpace(s[k])
  {
    if s != [] && IsSpace(s[0]) then 1 + LeadingSpace(s[1..]) else 0
  }

  /** Number of whitespace characters at the end of s. */
  function TrailingSpace(s: string): (k: nat)
    ensures k <= |s| && AllSpace(s[|s| - k..])
    ensures k < |s| ==> !IsSpace(s[|s| - k - 1])
  {
    if s != [] && IsSpace(s[|s| - 1]) then
      var t := s[..|s| - 1];
      var k := TrailingSpace(t);
      assert s[|s| - 1 - k..] == t[|t| - k..] + [s[|s| - 1]];
      SpaceThenSpace(t[|t| - k..], s[|s| - 1]);
      1 + k
    else 0
  }

  lemma SpaceThenSpace(t: string, c: char)
    requires AllSpace(t) && IsSpace(c)
    ensures AllSpace(t + [c])
  {
    forall i | 0 <= i < |t| + 1 ensures IsSpace((t + [c])[i]) {
      if i < |t| {
        assert (t + [c])[i] == t[i];
      }
    }
  }

  /** `needle` occurs in `s` starting at position i. */
  predicate OccursAt(s: string, needle: string, i: nat) {
    i + |needle| <= |s| && s[i..i + |needle|] == needle
  }

  /** Python's `needle in s` for two strings. */
  predicate Contains(s: string, needle: string) {
    exists i | 0 <= i <= |s| :: OccursAt(s, needle, i)
  }

  /** Python's s.strip(): s with the whitespace at both ends removed. */
  function Strip(s: string): string {
    var t := s[LeadingSpace(s)..];
    t[..|t| - TrailingSpace(t)]
  }

  /** What strip() leaves is an infix of s framed by whitespace only. */
  lemma StripFramed(s: string)
    ensures var r := Strip(s);
      exists i: nat :: OccursAt(s, r, i) && AllSpace(s[..i]) && AllSpace(s[i + |r|..])
  {
    var i := LeadingSpace(s);
    var t := s[i..];
    var j := TrailingSpace(t);
    var r := t[..|t| - j];
    assert r == Strip(s);
    assert s[i..i + |r|] == r;
    assert OccursAt(s, r, i);
    assert s[i + |r|..] == t[|t| - j..];
  }

  /** ... that neither starts nor ends with whitespace ... */
  lemma StripTrimmed(s: string)
    ensures var r := Strip(s);
      r != "" ==> !IsSpace(r[0]) && !IsSpace(r[|r| - 1])
  {
    var i := LeadingSpace(s);
    var t := s[i..];
    var j := TrailingSpace(t);
    var r := t[..|t| - j];
    assert r == Strip(s);
    if r != "" {
      assert r[0] == s[i] && r[|r| - 1] == t[|t| - j - 1];
    }
  }

  /** ... and is empty exactly when s is all whitespace. */
  lemma StripEmptyIff(s: string)
    ensures Strip(s) == "" <==> AllSpace(s)
  {
    var i := LeadingSpace(s);
    var t := s[i..];
    var j := TrailingSpace(t);
    var r := t[..|t| - j];
    assert r == Strip(s);
    if i < |s| {
      assert t[0] == s[i] && !IsSpace(t[0]);
      assert j < |t|;
      assert r != "";
    } else {
      assert s[..i] == s;
    }
  }

  /** What strip() leaves is an infix of s, framed by whitespace only, that
      neither starts nor ends with whitespace; it is empty exactly when s is
      all whitespace. */
  lemma StripSpec(s: string)
    ensures var r := Strip(s);
      && (exists i: nat :: OccursAt(s, r, i) && AllSpace(s[..i]) && AllSpace(s[i + |r|..]))
      && (r != "" ==> !IsSpace(r[0]) && !IsSpace(r[|r| - 1]))
      && (r == "" <==> AllSpace(s))
  {
    StripFramed(s);
    StripTrimmed(s);
    StripEmptyIff(s);
  }

  /** Python's str.lower() on one character, restricted to ASCII. */
  function LowerChar(c: char): char {
    if 'A' <= c <= 'Z' then (c as int + 32) as char else c
  }

  /** Python's str.lower(), character by character (see LowerChar). */
  function Lower(s: string): string {
    seq(|s|, i requires 0 <= i < |s| => LowerChar(s[i]))
  }

  /** The comparison key the tutor uses everywhere: `x.strip().lower()`. */
  function Normalize(s: string): string {
    Lower(Strip(s))
  }

  /** Python's sep.join(parts). */
  function Join(sep: string, parts: seq<string>): string {
    if |parts| == 0 then ""
    else if |parts| == 1 then parts[0]
    else parts[0] + sep + Join(sep, parts[1..])
  }

  /** The digit character for 0 <= d < 10. */
  function Digit(d: nat): (c: char)
    requires d < 10
    ensures '0' <= c <= '9' && c as int - '0' as int == d
  {
    ('0' as int + d) as char
  }

  /** Every character of r is a decimal digit. */
  predicate IsDigits(r: string) {
    forall i :: 0 <= i < |r| ==> '0' <= r[i] <= '9'
  }

  /** The number a string of decimal digits denotes, read left to right. */
  function DecimalValue(r: string): int {
    if r == [] then 0 else 10 * DecimalValue(r[..|r| - 1]) + (r[|r| - 1] as int - '0' as int)
  }

  /** The decimal numeral of n, as an f-string prints a non-negative int:
      only digits, no leading zero unless n is 0, and denoting n. */
  function NatToString(n: nat): (r: string)
    ensures |r| >= 1 && IsDigits(r)
    ensures r[0] == '0' ==> n == 0
    ensures DecimalValue(r) == n
  {
    if n < 10 then
      assert [Digit(n)][..0] == [];
      [Digit(n)]
    else
      var front := NatToString(n / 10);
      assert (front + [Digit(n % 10)])[..|front|] == front;
      front + [Digit(n % 10)]
  }

  /** Two numerals are equal exactly when the numbers are. */
  lemma NatToStringInjective(m: nat, n: nat)
    ensures NatToString(m) == NatToString(n) <==> m == n
  {
  }

  /** A digit string, a separator that is not a digit, and anything: the
      separator's first occurrence splits the string back into its parts. */
  lemma DigitsThenSeparator(a: string, b: string, c: string, d: string, sep: char)
    requires IsDigits(a) && IsDigits(c) && !('0' <= sep <= '9')
    requires a + [sep] + b == c + [sep] + d
    ensures a == c && b == d
  {
    var x := a + [sep] + b;
    assert x[|a|] == sep;
    assert x[|c|] == sep;
    assert forall i :: 0 <= i < |a| ==> x[i] == a[i];
    assert forall i :: 0 <= i < |c| ==> x[i] == c[i];
    assert |a| == |c|;
    assert a == x[..|a|] == c;
    assert b == x[|a| + 1..] == d;
  }

  // ---------------------------------------------------------------------
  // Normalisation
  // ---------------------------------------------------------------------

  lemma LowerCharKeepsSpace(c: char)
    ensures IsSpace(LowerChar(c)) <==> IsSpace(c)
  {}

  /** A string that neither starts nor ends with whitespace is its own strip. */
  lemma {:induction false} StripOfTrimmed(s: string)
    requires s != "" ==> !IsSpace(s[0]) && !IsSpace(s[|s| - 1])
    ensures Strip(s) == s
  {
    assert LeadingSpace(s) == 0;
    assert s[0..] == s;
    assert TrailingSpace(s) == 0;
  }

  /** Normalising twice is normalising once: the comparison key is stable. */
  lemma {:induction false} NormalizeIdempotent(s: string)
    ensures Normalize(Normalize(s)) == Normalize(s)
  {
    var t := Strip(s);
    StripSpec(s);
    var l := Lower(t);
    if l != "" {
      LowerCharKeepsSpace(t[0]);
      LowerCharKeepsSpace(t[|t| - 1]);
    }
    StripOfTrimmed(l);
    forall i | 0 <= i < |l| ensures Lower(l)[i] == l[i] {}
  }

  // ---------------------------------------------------------------------
  // Substrings
  // ---------------------------------------------------------------------

  lemma ContainsItself(s: string)
    ensures Contains(s, s)
  {
    assert OccursAt(s, s, 0);
  }

  /** An occurrence inside a part is an occurrence inside the whole. */
  lemma {:induction false} ContainsInfix(a: string, b: string, c: string, needle: string)
    requires Contains(b, needle)
    ensures Contains(a + b + c, needle)
  {
    var i :| 0 <= i <= |b| && OccursAt(b, needle, i);
    assert (a + b + c)[|a| + i..|a| + i + |needle|] == b[i..i + |needle|];
    assert OccursAt(a + b + c, needle, |a| + i);
  }

  /** Characters c of p that start the needle are never followed, inside p,
      by the needle's second character, and p does not end with c: no
      occurrence of the needle can start inside p. */
  predicate Guarded(p: string, needle: string)
    requires |needle| >= 2
  {
    forall i :: 0 <= i < |p| && p[i] == needle[0] ==> i + 1 < |p| && p[i + 1] != needle[1]
  }

  lemma GuardedByAbsence(p: string, needle: string)
    requires |needle| >= 2 && needle[0] !in p
    ensures Guarded(p, needle)
  {
    forall i | 0 <= i < |p| ensures p[i] != needle[0] {
      assert p[i] in p;
    }
  }

  lemma GuardedConcat(p: string, q: string, needle: string)
    requires |needle| >= 2 && Guarded(p, needle) && Guarded(q, needle)
    ensures Guarded(p + q, needle)
  {
    forall i | 0 <= i < |p + q| && (p + q)[i] == needle[0]
      ensures i + 1 < |p + q| && (p + q)[i + 1] != needle[1]
    {
      if i >= |p| {
        assert q[i - |p|] == needle[0];
      }
    }
  }

  /** Gluing a guarded prefix onto a string free of the needle cannot create
      an occurrence of it. */
  lemma {:induction false} NotContainsAfterGuard(p: string, w: string, needle: string)
    requires |needle| >= 2 && Guarded(p, needle) && !Contains(w, needle)
    ensures !Contains(p + w, needle)
  {
    var s := p + w;
    forall i | 0 <= i <= |s| ensures !OccursAt(s, needle, i) {
      if i + |needle| <= |s| {
        var slice := s[i..i + |needle|];
        if i < |p| {
          assert slice[0] == p[i];
          if p[i] == needle[0] {
            assert slice[1] == p[i + 1];
          }
        } else {
          assert slice == w[i - |p|..i - |p| + |needle|];
          assert !OccursAt(w, needle, i - |p|);
        }
      }
    }
  }

  /** A string without the needle's first character does not contain it. */
  lemma NotContainsWithoutHead(s: string, needle: string)
    requires |needle| >= 1 && needle[0] !in s
    ensures !Contains(s, needle)
  {
    forall i | 0 <= i <= |s| ensures !OccursAt(s, needle, i) {
      if i + |needle| <= |s| {
        assert s[i..i + |needle|][0] == s[i];
        assert s[i] in s;
      }
    }
  }

  // ---------------------------------------------------------------------
  // Join
  // ---------------------------------------------------------------------

  /** Joining a non-empty list of non-empty strings gives a non-empty string. */
  lemma {:induction false} JoinNonEmpty(sep: string, parts: seq<string>)
    requires |parts| >= 1 && parts[0] != ""
    ensures Join(sep, parts) != ""
  {
    if |parts| > 1 {
      assert |Join(sep, parts)| >= |parts[0]|;
    }
  }

  /** Every joined part occurs in the joined string. */
  lemma {:induction false} JoinContainsParts(sep: string, parts: seq<string>, k: nat)
    requires k < |parts|
    ensures Contains(Join(sep, parts), parts[k])
  {
    if |parts| == 1 {
      ContainsItself(parts[0]);
    } else if k == 0 {
      ContainsItself(parts[0]);
      ContainsInfix("", parts[0], sep + Join(sep, parts[1..]), parts[0]);
      assert "" + parts[0] + (sep + Join(sep, parts[1..])) == Join(sep, parts);
    } else {
      JoinContainsParts(sep, parts[1..], k - 1);
      ContainsInfix(parts[0] + sep, Join(sep, parts[1..]), "", parts[k]);
      assert parts[0] + sep + Join(sep, parts[1..]) + "" == Join(sep, parts);
    }
  }
}
