/** The input sanitisers: `normalizeName` (characters route and character
    form), `sanitizeNameInput` and `validName` (character form),
    `sanitizeNote` (selection route) and `sanitizeQuery` (quest search). */
module Sanitize {
  import opened Base
  import opened Text

  /** Upper bound on a character name, in JavaScript `length` units. */
  const MaxNameLength := 40
  /** `sanitizeNote` keeps at most this many characters. */
  const MaxNoteLength := 500
  /** `sanitizeQuery` keeps at most this many characters. */
  const MaxQueryLength := 50

  predicate NotNameChar(c: char) { !IsNameChar(c) }

  /** NFKC, then zero-width characters removed, then trimmed. */
  function NormalizeName(nf: Normalizer, input: string): (r: string)
    ensures forall i | 0 <= i < |r| :: !IsZeroWidth(r[i])
    ensures IsTrimmed(r)
    ensures forall i | 0 <= i < |r| :: r[i] in nf(input)
    ensures r == [] <==> (forall i | 0 <= i < |nf(input)| ::
                            IsZeroWidth(nf(input)[i]) || IsWhitespace(nf(input)[i]))
  {
    var s := Strip(nf(input), IsZeroWidth);
    var r := Trim(s);
    assert r == [] ==> forall i | 0 <= i < |nf(input)| ::
      IsZeroWidth(nf(input)[i]) || IsWhitespace(nf(input)[i]) by {
      if r == [] {
        forall i | 0 <= i < |nf(input)| && !IsZeroWidth(nf(input)[i])
          ensures IsWhitespace(nf(input)[i])
        {
          var k :| 0 <= k < |s| && s[k] == nf(input)[i];
        }
      }
    }
    r
  }

  /** Normalising a name that NFKC leaves alone gives it back unchanged. */
  lemma NormalizeNameIdempotent(nf: Normalizer, input: string)
    requires nf(NormalizeName(nf, input)) == NormalizeName(nf, input)
    ensures NormalizeName(nf, NormalizeName(nf, input)) == NormalizeName(nf, input)
  {
  }

  /** The character form's filter: normalise, drop every character outside
      the name alphabet, keep the first 40. */
  function SanitizeNameInput(nf: Normalizer, input: string): (r: string)
    ensures |r| <= MaxNameLength
    ensures forall i | 0 <= i < |r| :: IsNameChar(r[i])
  {
    Take(Strip(NormalizeName(nf, input), NotNameChar), MaxNameLength)
  }

  /** `validName`: JavaScript length 1..40, then the regex over the whole
      string. */
  predicate ValidName(name: string) {
    if Utf16Length(name) < 1 || Utf16Length(name) > MaxNameLength then false
    else forall i | 0 <= i < |name| :: IsNameChar(name[i])
  }

  /** Since the alphabet has no astral code points, `validName` is exactly a
      code-point length bound plus membership in the alphabet. */
  lemma ValidNameIff(name: string)
    ensures ValidName(name) <==>
      (1 <= |name| <= MaxNameLength && forall i | 0 <= i < |name| :: IsNameChar(name[i]))
  {
  }

  /** The form never produces a non-empty name the form then rejects. */
  lemma SanitizedNameIsValid(nf: Normalizer, input: string)
    ensures SanitizeNameInput(nf, input) != [] ==> ValidName(SanitizeNameInput(nf, input))
  {
    var r := SanitizeNameInput(nf, input);
    assert forall i | 0 <= i < |r| :: r[i] <= '\U{FFFF}';
  }

  /** The pipeline shared by `sanitizeNote` and `sanitizeQuery`: NFKC,
      zero-width characters removed, control characters removed, trimmed. */
  function CleanText(nf: Normalizer, input: string): (r: string)
    ensures forall i | 0 <= i < |r| :: !IsZeroWidth(r[i]) && !IsControl(r[i])
    ensures IsTrimmed(r)
  {
    var s := Strip(Strip(nf(input), IsZeroWidth), IsControl);
    var r := Trim(s);
    assert forall i | 0 <= i < |r| :: r[i] in s;
    r
  }

  /** `CleanText` is empty exactly when the normalised input consists only of
      whitespace, control and zero-width characters. */
  lemma {:induction false} CleanTextEmptyIff(nf: Normalizer, input: string)
    ensures CleanText(nf, input) == [] <==>
      (forall i | 0 <= i < |nf(input)| :: Invisible(nf(input)[i]))
  {
    var n := nf(input);
    var s1 := Strip(n, IsZeroWidth);
    var s := Strip(s1, IsControl);
    assert CleanText(nf, input) == Trim(s);
    if Trim(s) == [] {
      forall i | 0 <= i < |n| && !IsZeroWidth(n[i]) && !IsControl(n[i])
        ensures IsWhitespace(n[i])
      {
        assert n[i] in s1;
        var k :| 0 <= k < |s1| && s1[k] == n[i];
        assert n[i] in s;
      }
    } else {
      var k :| 0 <= k < |s| && !IsWhitespace(s[k]);
      assert s[k] in s1;
      var j :| 0 <= j < |s1| && s1[j] == s[k];
      assert s1[j] in n;
      var i :| 0 <= i < |n| && n[i] == s1[j];
      assert !Invisible(n[i]);
    }
  }

  /** A character that `sanitizeQuery` and `sanitizeNote` treat as absent. */
  predicate Invisible(c: char) {
    IsWhitespace(c) || IsControl(c) || IsZeroWidth(c)
  }

  function SanitizeNote(nf: Normalizer, input: string): (r: string)
    ensures |r| <= MaxNoteLength
    ensures forall i | 0 <= i < |r| :: !IsZeroWidth(r[i]) && !IsControl(r[i])
  {
    Take(CleanText(nf, input), MaxNoteLength)
  }

  function SanitizeQuery(nf: Normalizer, input: string): (r: string)
    ensures |r| <= MaxQueryLength
    ensures forall i | 0 <= i < |r| :: !IsZeroWidth(r[i]) && !IsControl(r[i])
  {
    Take(CleanText(nf, input), MaxQueryLength)
  }

  /** A query is empty after sanitising exactly when the normalised input is
      made only of whitespace, control and zero-width characters. */
  lemma QueryEmptyIff(nf: Normalizer, input: string)
    ensures SanitizeQuery(nf, input) == [] <==>
      (forall i | 0 <= i < |nf(input)| :: Invisible(nf(input)[i]))
  {
    CleanTextEmptyIff(nf, input);
  }
}
