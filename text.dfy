/** JavaScript string primitives the handlers and components build on:
    character classes, `trim`, regex removal of a character class, `slice`,
    `toLowerCase` (restricted to Latin-1), `includes`, code-point ordering
    and UTF-16 length. Strings are sequences of Unicode scalar values. */
module Text {
  import opened Base

  /** `String.prototype.normalize("NFKC")`. It is a parameter of every
      sanitiser; no property of Unicode normalisation is assumed. */
  type Normalizer = string -> string

  /** The class `[\u200B-\u200D\uFEFF]`. */
  predicate IsZeroWidth(c: char) {
    ('\U{200B}' <= c <= '\U{200D}') || c == '\U{FEFF}'
  }

  /** The class `[\u0000-\u001F\u007F]`. */
  predicate IsControl(c: char) {
    c <= '\U{001F}' || c == '\U{007F}'
  }

  /** What `String.prototype.trim` removes: ECMAScript WhiteSpace and
      LineTerminator code points. */
  predicate IsWhitespace(c: char) {
    c == '\t' || c == '\n' || c == '\U{000B}' || c == '\U{000C}' || c == '\r'
    || c == ' ' || c == '\U{00A0}' || c == '\U{1680}'
    || ('\U{2000}' <= c <= '\U{200A}')
    || c == '\U{2028}' || c == '\U{2029}' || c == '\U{202F}' || c == '\U{205F}'
    || c == '\U{3000}' || c == '\U{FEFF}'
  }

  /** The character-name alphabet `[A-Za-zÀ-ÖØ-öø-ÿ\-\[\]]`. */
  predicate IsNameChar(c: char) {
    ('A' <= c <= 'Z') || ('a' <= c <= 'z')
    || ('\U{00C0}' <= c <= '\U{00D6}') || ('\U{00D8}' <= c <= '\U{00F6}')
    || ('\U{00F8}' <= c <= '\U{00FF}')
    || c == '-' || c == '[' || c == ']'
  }

  /** `s.replace(/[class]/g, "")`: every character of the class is removed,
      the others are kept in order. */
  function Strip(s: string, drop: char -> bool): (r: string)
    ensures |r| <= |s|
    ensures forall i | 0 <= i < |r| :: !drop(r[i])
    ensures forall i | 0 <= i < |r| :: r[i] in s
    ensures forall i | 0 <= i < |s| :: !drop(s[i]) ==> s[i] in r
    ensures (forall i | 0 <= i < |s| :: !drop(s[i])) ==> r == s
    decreases |s|
  {
    if s == [] then []
    else
      var rest := Strip(s[1..], drop);
      assert forall i | 1 <= i < |s| :: s[i] == s[1..][i - 1];
      if drop(s[0]) then rest else [s[0]] + rest
  }

  /** Number of whitespace code points at the front of `s`. */
  function LeadingWhitespace(s: string): (n: nat)
    ensures n <= |s|
    ensures forall i | 0 <= i < n :: IsWhitespace(s[i])
    ensures n < |s| ==> !IsWhitespace(s[n])
    decreases |s|
  {
    if s == [] || !IsWhitespace(s[0]) then 0
    else 1 + LeadingWhitespace(s[1..])
  }

  /** Number of whitespace code points at the back of `s`. */
  function TrailingWhitespace(s: string): (n: nat)
    ensures n <= |s|
    ensures forall i | |s| - n <= i < |s| :: IsWhitespace(s[i])
    ensures n < |s| ==> !IsWhitespace(s[|s| - 1 - n])
    decreases |s|
  {
    if s == [] || !IsWhitespace(s[|s| - 1]) then 0
    else 1 + TrailingWhitespace(s[..|s| - 1])
  }

  /** Neither end of `s` is whitespace. */
  predicate IsTrimmed(s: string) {
    s == [] || (!IsWhitespace(s[0]) && !IsWhitespace(s[|s| - 1]))
  }

  /** `String.prototype.trim`. */
  function Trim(s: string): (r: string)
    ensures IsTrimmed(r)
    ensures IsTrimmed(s) ==> r == s
    ensures r == [] <==> (forall i | 0 <= i < |s| :: IsWhitespace(s[i]))
    ensures |r| <= |s|
    ensures forall i | 0 <= i < |r| :: r[i] in s
  {
    var lo := LeadingWhitespace(s);
    if lo == |s| then []
    else
      var hi := |s| - TrailingWhitespace(s);
      assert lo < hi;
      s[lo..hi]
  }

  /** `s.slice(0, n)` (counted in code points on a string), and `take: n`
      on a query result. */
  function Take<T>(s: seq<T>, n: nat): (r: seq<T>)
    ensures |r| == Min(|s|, n)
    ensures r == s[..|r|]
  {
    if |s| <= n then s else s[..n]
  }

  /** `toLowerCase` on one code point, for ASCII and Latin-1 letters. */
  function LowerChar(c: char): char {
    if ('A' <= c <= 'Z') || ('\U{00C0}' <= c <= '\U{00DE}' && c != '\U{00D7}')
    then (c as int + 32) as char
    else c
  }

  /** `toLowerCase`, code point by code point. */
  function Lower(s: string): (r: string)
    ensures |r| == |s|
    ensures forall i | 0 <= i < |s| :: r[i] == LowerChar(s[i])
    decreases |s|
  {
    if s == [] then [] else [LowerChar(s[0])] + Lower(s[1..])
  }

  /** `s.replace(from, to)` with one-character strings: only the first
      occurrence is replaced. */
  function ReplaceFirst(s: string, from: char, to: char): (r: string)
    ensures |r| == |s|
    ensures forall i | 0 <= i < |s| :: r[i] == if s[i] == from && from !in s[..i] then to else s[i]
    ensures from !in s ==> r == s
    decreases |s|
  {
    if s == [] then []
    else if s[0] == from then
      var r := [to] + s[1..];
      assert forall i | 0 < i < |s| :: s[0] in s[..i];
      r
    else
      var rest := ReplaceFirst(s[1..], from, to);
      var r := [s[0]] + rest;
      forall i | 0 < i < |s|
        ensures r[i] == if s[i] == from && from !in s[..i] then to else s[i]
      {
        var t := s[1..];
        assert s[..i] == [s[0]] + t[..i - 1];
        assert (from in s[..i]) == (from in t[..i - 1]);
        assert s[i] == t[i - 1] && r[i] == rest[i - 1];
      }
      r
  }

  predicate IsPrefix(t: string, s: string) {
    |t| <= |s| && s[..|t|] == t
  }

  /** `s.includes(t)`: `t` occurs in `s` as a contiguous substring. */
  predicate Contains(s: string, t: string)
    decreases |s|
  {
    IsPrefix(t, s) || (s != [] && Contains(s[1..], t))
  }

  /** Case-insensitive `contains`, with the Latin-1 case mapping. */
  predicate ContainsInsensitive(s: string, t: string) {
    Contains(Lower(s), Lower(t))
  }

  /** Lexicographic order on code points (`ORDER BY name ASC` under a binary
      collation). */
  predicate StrLe(a: string, b: string)
    decreases |a|
  {
    a == [] || (b != [] && (a[0] < b[0] || (a[0] == b[0] && StrLe(a[1..], b[1..]))))
  }

  lemma {:induction false} StrLeReflexive(a: string)
    ensures StrLe(a, a)
    decreases |a|
  {
    if a != [] { StrLeReflexive(a[1..]); }
  }

  lemma {:induction false} StrLeTotal(a: string, b: string)
    ensures StrLe(a, b) || StrLe(b, a)
    decreases |a|
  {
    if a != [] && b != [] && a[0] == b[0] { StrLeTotal(a[1..], b[1..]); }
  }

  lemma {:induction false} StrLeTransitive(a: string, b: string, c: string)
    requires StrLe(a, b) && StrLe(b, c)
    ensures StrLe(a, c)
    decreases |a|
  {
    if a != [] && b != [] && c != [] && a[0] == b[0] && b[0] == c[0] {
      StrLeTransitive(a[1..], b[1..], c[1..]);
    }
  }

  /** JavaScript `length`: the number of UTF-16 code units. */
  function Utf16Length(s: string): (n: nat)
    ensures |s| <= n <= 2 * |s|
    ensures (forall i | 0 <= i < |s| :: s[i] <= '\U{FFFF}') ==> n == |s|
    decreases |s|
  {
    if s == [] then 0
    else (if s[0] <= '\U{FFFF}' then 1 else 2) + Utf16Length(s[1..])
  }

  /** Decimal digits of a natural number, as `String(n)` prints them. */
  function DecimalDigits(n: nat): (r: string)
    ensures r != []
    ensures forall i | 0 <= i < |r| :: '0' <= r[i] <= '9'
  {
    if n < 10 then [(48 + n) as char]
    else DecimalDigits(n / 10) + [(48 + n % 10) as char]
  }

  /** `String(x)` for an integer. */
  function IntToString(x: int): string {
    if x < 0 then "-" + DecimalDigits(-x) else DecimalDigits(x)
  }
}
