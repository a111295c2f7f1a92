/**
 * The two pieces of Python string handling the transcript code relies on:
 * `str.strip()` with no argument, and `s.split('/')[0]`.
 */
module Text {

  /** Python's `str.isspace()` on one character: exactly what `strip()` removes. */
  predicate IsSpace(c: char)
  {
    || ('\U{9}' <= c <= '\U{D}')
    || ('\U{1C}' <= c <= '\U{20}')
    || c == '\U{85}' || c == '\U{A0}' || c == '\U{1680}'
    || ('\U{2000}' <= c <= '\U{200A}')
    || c == '\U{2028}' || c == '\U{2029}' || c == '\U{202F}' || c == '\U{205F}' || c == '\U{3000}'
  }

  /** A decimal digit, as `str.isdigit()` sees the ASCII range. */
  predicate IsDigit(c: char)
  {
    '0' <= c <= '9'
  }

  /** Neither end of `s` is whitespace: what `strip()` produces. */
  predicate IsTrimmed(s: string)
  {
    |s| == 0 || (!IsSpace(s[0]) && !IsSpace(s[|s| - 1]))
  }

  /** `s.lstrip()`: the suffix left after dropping leading whitespace. */
  function TrimStart(s: string): (r: string)
    ensures |r| <= |s| && r == s[|s| - |r|..]
    ensures |r| == 0 || !IsSpace(r[0])
    ensures forall i :: 0 <= i < |s| - |r| ==> IsSpace(s[i])
  {
    if |s| > 0 && IsSpace(s[0]) then TrimStart(s[1..]) else s
  }

  /** `s.rstrip()`: the prefix left after dropping trailing whitespace. */
  function TrimEnd(s: string): (r: string)
    ensures |r| <= |s| && r == s[..|r|]
    ensures |r| == 0 || !IsSpace(r[|r| - 1])
    ensures forall i :: |r| <= i < |s| ==> IsSpace(s[i])
  {
    if |s| > 0 && IsSpace(s[|s| - 1]) then TrimEnd(s[..|s| - 1]) else s
  }

  /** `r` is `s` with whitespace `s[..k]` dropped in front and whitespace dropped behind. */
  predicate StripsTo(s: string, r: string, k: int)
  {
    && 0 <= k <= |s| - |r| && r == s[k..k + |r|]
    && (forall i :: 0 <= i < k ==> IsSpace(s[i]))
    && (forall i :: k + |r| <= i < |s| ==> IsSpace(s[i]))
  }

  /** `s.strip()`: whitespace dropped at both ends, so neither end of the result is blank. */
  function Trim(s: string): (r: string)
    ensures IsTrimmed(r)
    ensures |r| <= |s|
  {
    var t := TrimStart(s);
    var r := TrimEnd(t);
    assert |r| > 0 ==> r[0] == t[0];
    r
  }

  /** What `strip()` keeps is a contiguous infix of `s` with only whitespace around it. */
  lemma TrimIsInfix(s: string)
    ensures exists k :: StripsTo(s, Trim(s), k)
  {
    var t := TrimStart(s);
    var r := TrimEnd(t);
    var k := |s| - |t|;
    assert r == Trim(s);
    assert t == s[k..];
    assert r == t[..|r|];
    assert r == s[k..k + |r|] by {
      assert forall i :: 0 <= i < |r| ==> r[i] == t[i] == s[k + i];
    }
    forall i | k + |r| <= i < |s|
      ensures IsSpace(s[i])
    {
      assert s[i] == t[i - k];
    }
    assert StripsTo(s, r, k);
  }

  /** A string that is already trimmed is left alone by `strip()`. */
  lemma TrimOfTrimmed(s: string)
    requires IsTrimmed(s)
    ensures Trim(s) == s
  {
    assert TrimStart(s) == s;
  }

  /** `strip()` is idempotent, and a string is a fixed point exactly when it is trimmed. */
  lemma TrimIdempotent(s: string)
    ensures Trim(Trim(s)) == Trim(s)
    ensures Trim(s) == s <==> IsTrimmed(s)
  {
    TrimOfTrimmed(Trim(s));
    if IsTrimmed(s) {
      TrimOfTrimmed(s);
    }
  }

  /** Leading whitespace in front of a non-blank start is all `lstrip()` removes. */
  lemma {:induction false} TrimStartPrefix(pre: string, t: string)
    requires forall i :: 0 <= i < |pre| ==> IsSpace(pre[i])
    requires |t| > 0 && !IsSpace(t[0])
    ensures TrimStart(pre + t) == t
  {
    if |pre| > 0 {
      assert (pre + t)[1..] == pre[1..] + t;
      TrimStartPrefix(pre[1..], t);
    } else {
      assert pre + t == t;
    }
  }

  /** Trailing whitespace behind a non-blank end is all `rstrip()` removes. */
  lemma {:induction false} TrimEndSuffix(t: string, post: string)
    requires forall i :: 0 <= i < |post| ==> IsSpace(post[i])
    requires |t| > 0 && !IsSpace(t[|t| - 1])
    ensures TrimEnd(t + post) == t
  {
    if |post| > 0 {
      assert (t + post)[..|t + post| - 1] == t + post[..|post| - 1];
      TrimEndSuffix(t, post[..|post| - 1]);
    } else {
      assert t + post == t;
    }
  }

  /** `strip()` removes exactly the surrounding whitespace and nothing inside. */
  lemma TrimSurrounded(pre: string, t: string, post: string)
    requires forall i :: 0 <= i < |pre| ==> IsSpace(pre[i])
    requires forall i :: 0 <= i < |post| ==> IsSpace(post[i])
    requires IsTrimmed(t) && |t| > 0
    ensures Trim(pre + t + post) == t
  {
    assert pre + t + post == pre + (t + post);
    TrimStartPrefix(pre, t + post);
    TrimEndSuffix(t, post);
  }

  /** `s.split('/')[0]`: the prefix of `s` before its first slash, or all of `s`. */
  function FirstSegment(s: string): (r: string)
    ensures |r| <= |s| && r == s[..|r|]
    ensures '/' !in r
    ensures |r| < |s| ==> s[|r|] == '/'
  {
    if |s| == 0 || s[0] == '/' then [] else [s[0]] + FirstSegment(s[1..])
  }

  /** Text after the first slash never reaches the first segment. */
  lemma {:induction false} FirstSegmentOfAnnotated(t: string, note: string)
    requires '/' !in t
    ensures FirstSegment(t + "/" + note) == t
    ensures FirstSegment(t) == t
  {
    var s := t + "/" + note;
    var r := FirstSegment(s);
    assert s[|t|] == '/';
    assert forall i :: 0 <= i < |t| ==> s[i] == t[i];
  }
}
