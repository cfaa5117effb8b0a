/**
 * Character classes and case mapping used by the repair scripts.
 *
 * Case mapping and the regular-expression classes are modelled exactly for
 * the Latin-1 range (U+0000 to U+00FF), which covers ASCII and the
 * Norwegian letters æ, ø and å. Characters above U+00FF are treated as
 * uncased, non-word, non-digit characters, except for the white-space
 * characters, which are listed completely.
 */
module Chars {

  // ---------------------------------------------------------------------
  // Case
  // ---------------------------------------------------------------------

  /** An upper-case letter: A-Z, À-Ö and Ø-Þ. */
  predicate IsUpper(c: char)
  {
    'A' <= c <= 'Z' || 'À' <= c <= 'Ö' || 'Ø' <= c <= 'Þ'
  }

  /** A lower-case letter: a-z, µ, ß-ö and ø-ÿ. */
  predicate IsLower(c: char)
  {
    'a' <= c <= 'z' || c == 'µ' || 'ß' <= c <= 'ö' || 'ø' <= c <= 'ÿ'
  }

  /** A character that has case. */
  predicate IsCased(c: char)
  {
    IsUpper(c) || IsLower(c)
  }

  /** The lower-case form of one character (JavaScript's toLowerCase, per character). */
  function ToLower(c: char): (r: char)
    ensures IsUpper(c) ==> IsLower(r) && r as int == c as int + 32
    ensures !IsUpper(c) ==> r == c
  {
    if IsUpper(c) then (c as int + 32) as char else c
  }

  /**
   * The upper-case form of one character (Python's str.upper on one
   * character). ß becomes "SS", µ becomes Greek capital mu, ÿ becomes Ÿ.
   */
  function UpperOf(c: char): (r: string)
    ensures IsLower(c) && c != 'ß' ==> |r| == 1 && r[0] != c
    ensures c == 'ß' ==> r == "SS"
    ensures !IsLower(c) ==> r == [c]
    ensures forall k :: 0 <= k < |r| ==> !IsLower(r[k])
  {
    if 'a' <= c <= 'z' || 'à' <= c <= 'ö' || 'ø' <= c <= 'þ' then [(c as int - 32) as char]
    else if c == 'µ' then "\U{039C}"
    else if c == 'ß' then "SS"
    else if c == 'ÿ' then "\U{0178}"
    else [c]
  }

  /** Python's str.upper. */
  function Upper(s: string): (r: string)
    ensures forall k :: 0 <= k < |r| ==> !IsLower(r[k])
  {
    if s == [] then [] else UpperOf(s[0]) + Upper(s[1..])
  }

  /** JavaScript's toLowerCase. */
  function Lower(s: string): (r: string)
    ensures |r| == |s|
    ensures forall k :: 0 <= k < |s| ==> r[k] == ToLower(s[k])
  {
    seq(|s|, k requires 0 <= k < |s| => ToLower(s[k]))
  }

  /** Python's str.isupper: some cased character and no lower-case one. */
  predicate IsUpperString(s: string)
  {
    (exists k :: 0 <= k < |s| && IsCased(s[k])) && forall k :: 0 <= k < |s| ==> !IsLower(s[k])
  }

  /** Upper keeps every character that is not lower case, and keeps the length without ß. */
  lemma {:induction false} UpperLength(s: string)
    requires 'ß' !in s
    ensures |Upper(s)| == |s|
  {
    if s != [] {
      UpperLength(s[1..]);
    }
  }

  /** Upper of a string with no lower-case letter is the string itself. */
  lemma {:induction false} UpperFixesUpper(s: string)
    requires forall k :: 0 <= k < |s| ==> !IsLower(s[k])
    ensures Upper(s) == s
  {
    if s != [] {
      assert !IsLower(s[0]);
      UpperFixesUpper(s[1..]);
      assert s == [s[0]] + s[1..];
    }
  }

  /** Upper is idempotent. */
  lemma UpperIdempotent(s: string)
    ensures Upper(Upper(s)) == Upper(s)
  {
    UpperFixesUpper(Upper(s));
  }

  /** Upper distributes over concatenation. */
  lemma {:induction false} UpperConcat(a: string, b: string)
    ensures Upper(a + b) == Upper(a) + Upper(b)
  {
    if a != [] {
      assert (a + b)[1..] == a[1..] + b;
      UpperConcat(a[1..], b);
    } else {
      assert a + b == b;
    }
  }

  /**
   * Upper changes only case: away from ß, µ and ÿ, whose upper-case forms
   * lie outside Latin-1 or take two characters, it keeps the length and
   * lower-casing its result gives the lower-cased input back.
   */
  lemma {:induction false} UpperOnlyCase(s: string)
    requires 'ß' !in s && 'µ' !in s && 'ÿ' !in s
    ensures |Upper(s)| == |s| && Lower(Upper(s)) == Lower(s)
  {
    if s != [] {
      UpperOnlyCase(s[1..]);
      var u := UpperOf(s[0]);
      assert |u| == 1 && ToLower(u[0]) == ToLower(s[0]);
      assert Upper(s) == u + Upper(s[1..]);
      forall k | 0 <= k < |s|
        ensures Lower(Upper(s))[k] == Lower(s)[k]
      {
        if k > 0 {
          assert Upper(s)[k] == Upper(s[1..])[k - 1];
          assert Lower(Upper(s[1..]))[k - 1] == Lower(s[1..])[k - 1];
        }
      }
    }
  }

  // ---------------------------------------------------------------------
  // Regular-expression classes
  // ---------------------------------------------------------------------

  /** An ASCII decimal digit (the model's `\d`). */
  predicate IsDigit(c: char)
  {
    '0' <= c <= '9'
  }

  /**
   * A word character (`\w` of a Unicode pattern): letters and digits,
   * including ª, ², ³, µ, ¹, º, ¼, ½ and ¾, and the underscore.
   */
  predicate IsWordChar(c: char)
  {
    IsDigit(c) || 'A' <= c <= 'Z' || 'a' <= c <= 'z' || c == '_'
    || c == 'ª' || c == '²' || c == '³' || c == 'µ'
    || c == '¹' || c == 'º' || '¼' <= c <= '¾'
    || 'À' <= c <= 'Ö' || 'Ø' <= c <= 'ö' || 'ø' <= c <= 'ÿ'
  }

  /** Every cased character is a word character. */
  lemma CasedIsWord(c: char)
    requires IsCased(c)
    ensures IsWordChar(c)
  {
  }

  /** White space in the sense of a Unicode `\s` and str.isspace. */
  predicate IsSpace(c: char)
  {
    '\t' <= c <= '\r' || '\U{1C}' <= c <= ' ' || c == '\U{85}' || c == '\U{A0}'
    || c == '\U{1680}' || '\U{2000}' <= c <= '\U{200A}' || c == '\U{2028}' || c == '\U{2029}'
    || c == '\U{202F}' || c == '\U{205F}' || c == '\U{3000}'
  }

  /** The characters JavaScript's String.prototype.trim removes. */
  predicate IsTrimSpace(c: char)
  {
    '\t' <= c <= '\r' || c == ' ' || c == '\U{A0}' || c == '\U{1680}'
    || '\U{2000}' <= c <= '\U{200A}' || c == '\U{2028}' || c == '\U{2029}'
    || c == '\U{202F}' || c == '\U{205F}' || c == '\U{3000}' || c == '\U{FEFF}'
  }

  // ---------------------------------------------------------------------
  // Trimming
  // ---------------------------------------------------------------------

  /** Number of leading trim-space characters. */
  function LeadingSpace(s: string): (n: nat)
    ensures n <= |s|
    ensures forall k :: 0 <= k < n ==> IsTrimSpace(s[k])
    ensures n < |s| ==> !IsTrimSpace(s[n])
  {
    if s != [] && IsTrimSpace(s[0]) then 1 + LeadingSpace(s[1..]) else 0
  }

  /** Number of trailing trim-space characters. */
  function TrailingSpace(s: string): (n: nat)
    ensures n <= |s|
    ensures forall k :: |s| - n <= k < |s| ==> IsTrimSpace(s[k])
    ensures n < |s| ==> !IsTrimSpace(s[|s| - n - 1])
  {
    if s != [] && IsTrimSpace(s[|s| - 1]) then 1 + TrailingSpace(s[..|s| - 1]) else 0
  }

  /** JavaScript's trim: the middle of `s` without surrounding space. */
  function Trim(s: string): (r: string)
    ensures |r| <= |s|
    ensures LeadingSpace(s) + |r| <= |s| && r == s[LeadingSpace(s)..LeadingSpace(s) + |r|]
    ensures r != [] ==> !IsTrimSpace(r[0]) && !IsTrimSpace(r[|r| - 1])
  {
    var a := LeadingSpace(s);
    var rest := s[a..];
    var b := TrailingSpace(rest);
    assert |rest| - b < |rest| ==> rest[|rest| - b - 1] == s[a + |rest| - b - 1];
    rest[..|rest| - b]
  }

  /** Trimming removes only space: everything dropped is trim space. */
  lemma TrimDropsOnlySpace(s: string)
    ensures var a := LeadingSpace(s);
            var r := Trim(s);
            s == s[..a] + r + s[a + |r|..]
            && (forall k :: 0 <= k < a ==> IsTrimSpace(s[k]))
            && (forall k :: a + |r| <= k < |s| ==> IsTrimSpace(s[k]))
  {
    var a := LeadingSpace(s);
    var rest := s[a..];
    var b := TrailingSpace(rest);
    var r := Trim(s);
    assert r == rest[..|rest| - b];
    forall k | a + |r| <= k < |s|
      ensures IsTrimSpace(s[k])
    {
      assert s[k] == rest[k - a];
    }
    assert s == s[..a] + r + s[a + |r|..];
  }

  /** Trim is idempotent. */
  lemma TrimIdempotent(s: string)
    ensures Trim(Trim(s)) == Trim(s)
  {
    var r := Trim(s);
    if r == [] {
    } else {
      assert LeadingSpace(r) == 0;
      assert r[0..] == r;
      assert TrailingSpace(r) == 0;
      assert r[..|r| - 0] == r;
    }
  }
}
