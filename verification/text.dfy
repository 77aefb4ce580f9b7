/**
 * The string operations the sync routine relies on: ECMAScript's `String.prototype.trim`,
 * an ASCII model of `toUpperCase`, and the decimal rendering of a non-negative integer
 * (as in the template literal `SKU-${variant.id}`).
 */
module Text {

  /** The characters `trim` removes: ECMAScript's WhiteSpace (tab, vertical tab, form feed,
      space, no-break space, byte order mark and the Unicode space separators) and
      LineTerminator (line feed, carriage return, line and paragraph separators). */
  predicate IsJsWhitespace(c: char) {
    || c == '\t' || c == '\n' || c == '\U{000B}' || c == '\U{000C}' || c == '\r'
    || c == ' ' || c == '\U{00A0}' || c == '\U{1680}'
    || ('\U{2000}' <= c <= '\U{200A}')
    || c == '\U{2028}' || c == '\U{2029}' || c == '\U{202F}' || c == '\U{205F}'
    || c == '\U{3000}' || c == '\U{FEFF}'
  }

  predicate AllWhitespace(s: string) {
    forall i :: 0 <= i < |s| ==> IsJsWhitespace(s[i])
  }

  /** Number of leading whitespace characters. */
  function LeadingEnd(s: string): (k: nat)
    ensures k <= |s|
    ensures AllWhitespace(s[..k])
    ensures k < |s| ==> !IsJsWhitespace(s[k])
  {
    if s == [] || !IsJsWhitespace(s[0]) then 0 else 1 + LeadingEnd(s[1..])
  }

  /** Length of `s` without its trailing whitespace. */
  function TrailingStart(s: string): (k: nat)
    ensures k <= |s|
    ensures AllWhitespace(s[k..])
    ensures k > 0 ==> !IsJsWhitespace(s[k - 1])
  {
    if s == [] || !IsJsWhitespace(s[|s| - 1]) then |s|
    else
      var k := TrailingStart(s[..|s| - 1]);
      assert s[..|s| - 1][k..] + [s[|s| - 1]] == s[k..];
      k
  }

  /** `s.trim()`: `s` without its leading and trailing whitespace. */
  function Trim(s: string): (r: string)
    ensures |r| <= |s|
    ensures AllWhitespace(s) <==> r == []
    ensures r != [] ==> !IsJsWhitespace(r[0]) && !IsJsWhitespace(r[|r| - 1])
  {
    var a := LeadingEnd(s);
    if a == |s| then
      assert s[..a] == s;
      []
    else
      var b := TrailingStart(s);
      assert !AllWhitespace(s) by { assert !IsJsWhitespace(s[a]); }
      s[a..b]
  }

  /** Trimming undoes any whitespace padding around a string with non-blank ends. */
  lemma TrimOfPadded(pre: string, t: string, post: string)
    requires AllWhitespace(pre) && AllWhitespace(post)
    requires t != [] && !IsJsWhitespace(t[0]) && !IsJsWhitespace(t[|t| - 1])
    ensures Trim(pre + t + post) == t
  {
    var s := pre + t + post;
    var a := LeadingEnd(s);
    assert s[|pre|] == t[0];
    var b := TrailingStart(s);
    var e := |pre| + |t|;
    assert s[e - 1] == t[|t| - 1];
    assert s[a..b] == t;
  }

  lemma {:induction false} TrimIdempotent(s: string)
    ensures Trim(Trim(s)) == Trim(s)
  {
    var t := Trim(s);
    if t != [] {
      TrimOfPadded([], t, []);
      assert [] + t + [] == t;
    }
  }

  /** ASCII model of `toUpperCase` on one character. */
  function UpperChar(c: char): (u: char)
    ensures !('a' <= u <= 'z')
    ensures !('a' <= c <= 'z') ==> u == c
    ensures 'a' <= c <= 'z' ==> u as int == c as int - 32
  {
    if 'a' <= c <= 'z' then (c as int - 32) as char else c
  }

  /** ASCII model of `s.toUpperCase()`. */
  function Upper(s: string): (r: string)
    ensures |r| == |s|
  {
    if s == [] then [] else [UpperChar(s[0])] + Upper(s[1..])
  }

  /** `Upper` maps each character on its own. */
  lemma {:induction false} UpperAt(s: string)
    ensures forall i :: 0 <= i < |s| ==> Upper(s)[i] == UpperChar(s[i])
  {
    if s != [] {
      UpperAt(s[1..]);
    }
  }

  lemma {:induction false} UpperIdempotent(s: string)
    ensures Upper(Upper(s)) == Upper(s)
  {
    if s != [] {
      UpperIdempotent(s[1..]);
      assert Upper(s)[1..] == Upper(s[1..]);
    }
  }

  /** A string without lower-case ASCII letters is its own upper case. */
  lemma {:induction false} UpperOfNoLower(s: string)
    requires forall i :: 0 <= i < |s| ==> !('a' <= s[i] <= 'z')
    ensures Upper(s) == s
  {
    if s != [] {
      UpperOfNoLower(s[1..]);
      assert [s[0]] + s[1..] == s;
    }
  }

  /** The comparison key of an identifier: trimmed, then upper-cased. It is empty exactly
      for an all-whitespace string. */
  function Key(s: string): (k: string)
    ensures |k| <= |s|
    ensures k == [] <==> AllWhitespace(s)
  {
    Upper(Trim(s))
  }

  /** The key of a padded string is the upper-cased core. */
  lemma KeyOfPadded(pre: string, t: string, post: string)
    requires AllWhitespace(pre) && AllWhitespace(post)
    requires t != [] && !IsJsWhitespace(t[0]) && !IsJsWhitespace(t[|t| - 1])
    ensures Key(pre + t + post) == Upper(t)
  {
    TrimOfPadded(pre, t, post);
  }

  /** Upper-casing keeps a string's ends non-blank: only letters change, into letters. */
  lemma UpperKeepsEnds(t: string)
    requires t != [] && !IsJsWhitespace(t[0]) && !IsJsWhitespace(t[|t| - 1])
    ensures Upper(t) != [] && !IsJsWhitespace(Upper(t)[0]) && !IsJsWhitespace(Upper(t)[|t| - 1])
  {
    UpperAt(t);
  }

  /** The key ignores case and surrounding whitespace: a padded string has the key of
      its upper-cased core. */
  lemma KeyIgnoresCaseAndPadding(pre: string, t: string, post: string)
    requires AllWhitespace(pre) && AllWhitespace(post)
    requires t != [] && !IsJsWhitespace(t[0]) && !IsJsWhitespace(t[|t| - 1])
    ensures Key(pre + t + post) == Key(Upper(t))
  {
    KeyOfPadded(pre, t, post);
    UpperKeepsEnds(t);
    TrimOfPadded([], Upper(t), []);
    assert [] + Upper(t) + [] == Upper(t);
    UpperIdempotent(t);
  }

  /** Trimming before taking the key changes nothing. */
  lemma KeyOfTrimmed(s: string)
    ensures Key(Trim(s)) == Key(s)
  {
    TrimIdempotent(s);
  }

  function DigitChar(d: nat): (c: char)
    requires d < 10
    ensures '0' <= c <= '9'
  {
    ('0' as int + d) as char
  }

  /** The decimal rendering of `n`, as `${n}` prints a non-negative integer. */
  function Decimal(n: nat): (r: string)
    ensures r != []
    ensures forall i :: 0 <= i < |r| ==> '0' <= r[i] <= '9'
    ensures r[0] == '0' <==> n == 0
  {
    if n < 10 then [DigitChar(n)] else Decimal(n / 10) + [DigitChar(n % 10)]
  }

  /** Reading a string of decimal digits back as a number. */
  function DigitsValue(s: string): nat
    requires forall i :: 0 <= i < |s| ==> '0' <= s[i] <= '9'
  {
    if s == [] then 0
    else 10 * DigitsValue(s[..|s| - 1]) + (s[|s| - 1] as int - '0' as int)
  }

  /** `Decimal` loses nothing: distinct identifiers give distinct fallback SKUs. */
  lemma {:induction false} DecimalRoundTrip(n: nat)
    ensures DigitsValue(Decimal(n)) == n
  {
    if n >= 10 {
      var r := Decimal(n);
      assert r[..|r| - 1] == Decimal(n / 10);
      DecimalRoundTrip(n / 10);
    }
  }
}
