/**
 * The attribute comparisons of `verify_ekyc` (app.py:92-100): the fuzzy name
 * score and the last-digits check.
 */
module Matcher {
  import opened Wrappers
  import opened Text

  /** A `fuzz.token_sort_ratio` value. */
  type Score = r: real | 0.0 <= r <= 100.0

  /**
   * `name_score`: `ratio` (standing for `fuzz.token_sort_ratio`) of the two
   * lower-cased names when both are supplied and non-empty, 0.0 otherwise.
   */
  function NameScore(expectedName: Option<string>, name: Option<string>,
                     ratio: (string, string) -> Score): (r: Score)
    ensures !(Truthy(expectedName) && Truthy(name)) ==> r == 0.0
  {
    if Truthy(expectedName) && Truthy(name) then ratio(Lower(expectedName.value), Lower(name.value))
    else 0.0
  }

  /** The score does not see the letter case of either name. */
  lemma NameScoreIgnoresCase(expectedName: string, name: string, ratio: (string, string) -> Score)
    ensures NameScore(Some(Lower(expectedName)), Some(Lower(name)), ratio)
            == NameScore(Some(expectedName), Some(name), ratio)
  {
    LowerIdempotent(expectedName);
    LowerIdempotent(name);
  }

  /**
   * `last4_ok`: both strings supplied and non-empty, and the digits of the
   * masked identifier end with the expected digits.
   */
  function LastFourOk(expectedLast4: Option<string>, masked: Option<string>): (ok: bool)
    ensures ok ==> Truthy(expectedLast4) && Truthy(masked)
    ensures ok ==> AllDigits(expectedLast4.value) && |expectedLast4.value| <= |masked.value|
  {
    if Truthy(expectedLast4) && Truthy(masked) then
      var digits := Digits(masked.value);
      var ok := EndsWith(digits, expectedLast4.value);
      assert ok ==> forall k :: 0 <= k < |expectedLast4.value|
                      ==> expectedLast4.value[k] == digits[|digits| - |expectedLast4.value| + k];
      ok
    else false
  }

  /** The check holds exactly when the digit string is some prefix followed by the expected digits. */
  lemma LastFourOkIffDigitsEndWith(expectedLast4: string, masked: string)
    ensures LastFourOk(Some(expectedLast4), Some(masked))
            <==> expectedLast4 != "" && masked != ""
                 && exists p: string :: Digits(masked) == p + expectedLast4
  {
    EndsWithIffConcat(Digits(masked), expectedLast4);
  }

  /** Non-digit characters of the masked identifier never affect the check. */
  lemma LastFourIgnoresNonDigits(expectedLast4: Option<string>, a: string, c: char, b: string)
    requires !IsDigit(c)
    ensures LastFourOk(expectedLast4, Some(a + [c] + b)) == LastFourOk(expectedLast4, Some(a + b))
  {
    DigitsIgnoresNonDigit(a, c, b);
    if a + b == "" {
      assert a == [] && b == [];
      assert Digits(a + [c] + b) == Digits(a + b);
    }
  }

  /** Separators in front of the digits are skipped: the digits alone are matched. */
  lemma LastFourAfterSeparators(prefix: string, digits: string, expectedLast4: string)
    requires forall k :: 0 <= k < |prefix| ==> !IsDigit(prefix[k])
    requires AllDigits(digits) && digits != ""
    ensures LastFourOk(Some(expectedLast4), Some(prefix + digits))
            <==> expectedLast4 != "" && EndsWith(digits, expectedLast4)
  {
    DigitsConcat(prefix, digits);
    NoDigits(prefix);
    DigitsOfDigits(digits);
  }

  /** "XXXX-XXXX-1234" matches "1234" and does not match "5678". */
  lemma LastFourExample()
    ensures LastFourOk(Some("1234"), Some("XXXX-XXXX-1234"))
    ensures !LastFourOk(Some("5678"), Some("XXXX-XXXX-1234"))
  {
    var prefix, digits := "XXXX-XXXX-", "1234";
    assert prefix + digits == "XXXX-XXXX-1234";
    LastFourAfterSeparators(prefix, digits, "1234");
    LastFourAfterSeparators(prefix, digits, "5678");
  }
}
