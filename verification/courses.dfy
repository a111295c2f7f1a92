/**
 * Course-code normalisation: a course taught in English carries its base
 * code with a trailing `E` (`MAT103E`), and both sections are meant to be
 * one course. The generator and the bidirectional checker share this rule.
 */
module Courses {
  import opened Text

  /** A trimmed code of two or more characters whose last `E` follows a digit. */
  predicate HasVariantSuffix(t: string)
  {
    |t| > 1 && t[|t| - 1] == 'E' && IsDigit(t[|t| - 2])
  }

  /**
   * `normalize_course`: strip the code, then drop one trailing `E` exactly
   * when it follows a digit. The result is the stripped code or that code
   * less its last character, nothing else.
   */
  function NormalizeCourse(code: string): (r: string)
    ensures var t := Trim(code); |r| <= |t| && r == t[..|r|]
    ensures |r| == |Trim(code)| || |r| == |Trim(code)| - 1
    ensures |r| < |Trim(code)| <==> HasVariantSuffix(Trim(code))
  {
    var t := Trim(code);
    if HasVariantSuffix(t) then t[..|t| - 1] else t
  }

  /** A normalised code is trimmed and never again ends in digit-then-`E`. */
  lemma NormalizedIsCanonical(code: string)
    ensures IsTrimmed(NormalizeCourse(code))
    ensures !HasVariantSuffix(NormalizeCourse(code))
  {
    var t := Trim(code);
    var r := NormalizeCourse(code);
    if HasVariantSuffix(t) {
      assert r[|r| - 1] == t[|t| - 2];
      assert r[0] == t[0];
    }
  }

  /** Normalising twice is normalising once. */
  lemma NormalizeIdempotent(code: string)
    ensures NormalizeCourse(NormalizeCourse(code)) == NormalizeCourse(code)
  {
    var r := NormalizeCourse(code);
    NormalizedIsCanonical(code);
    TrimOfTrimmed(r);
  }

  /** Stripping a code before normalising it changes nothing: the checker's extra `strip()` is harmless. */
  lemma NormalizeAfterTrim(code: string)
    ensures NormalizeCourse(Trim(code)) == NormalizeCourse(code)
  {
    TrimIdempotent(code);
  }

  /**
   * The two language sections merge: a stripped code ending in a digit and
   * the same code with `E` appended normalise to the same key, the base code.
   */
  lemma VariantSectionsMerge(base: string)
    requires IsTrimmed(base) && |base| > 0 && IsDigit(base[|base| - 1])
    ensures NormalizeCourse(base + "E") == base
    ensures NormalizeCourse(base) == base
  {
    var v := base + "E";
    assert v[0] == base[0] && v[|v| - 1] == 'E' && v[|v| - 2] == base[|base| - 1];
    TrimOfTrimmed(v);
    TrimOfTrimmed(base);
    assert v[..|v| - 1] == base;
  }

  /** A final `E` after a letter is part of the code: `CORE` stays `CORE`. */
  lemma LetterBeforeEKept(code: string)
    requires IsTrimmed(code) && |code| > 1 && code[|code| - 1] == 'E' && !IsDigit(code[|code| - 2])
    ensures NormalizeCourse(code) == code
  {
    TrimOfTrimmed(code);
  }
}
