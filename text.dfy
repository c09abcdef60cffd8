/** Character and string operations used by the scanner and the extractor:
    the digit test (`contains_number`), the `.pdf` suffix test, Python's
    `str.replace(pat, "")`, and the decimal rendering of page numbers. */
module Text {

  /** An ASCII decimal digit. */
  predicate IsDigit(ch: char)
  {
    '0' <= ch <= '9'
  }

  /** `contains_number`: true exactly when some character of `s` is a digit. */
  function ContainsNumber(s: string): (b: bool)
    ensures b <==> exists i :: 0 <= i < |s| && IsDigit(s[i])
  {
    if s == [] then false
    else if IsDigit(s[0]) then true
    else
      var rest := ContainsNumber(s[1..]);
      assert forall i :: 1 <= i < |s| ==> s[i] == s[1..][i - 1];
      rest
  }

  /** Python's `s.endswith(suffix)`. */
  predicate EndsWith(s: string, suffix: string)
  {
    |suffix| <= |s| && s[|s| - |suffix|..] == suffix
  }

  /** `pat` starts at position `i` of `s`. */
  predicate OccursAt(s: string, pat: string, i: nat)
  {
    i + |pat| <= |s| && s[i..i + |pat|] == pat
  }

  /** Python's `s.replace(pat, "")` for a non-empty `pat`: scanning from the
      left, each occurrence found is dropped and the scan resumes after it. */
  function RemoveAll(s: string, pat: string): (r: string)
    requires pat != []
    ensures |r| <= |s|
    ensures forall ch :: ch in r ==> ch in s
    decreases |s|
  {
    if |s| < |pat| then s
    else if s[..|pat|] == pat then RemoveAll(s[|pat|..], pat)
    else
      var rest := RemoveAll(s[1..], pat);
      assert forall ch :: ch in s[1..] ==> ch in s;
      [s[0]] + rest
  }

  /** Removing a pattern never adds a digit: a digit-free name stays digit-free. */
  lemma RemoveAllKeepsDigitFree(s: string, pat: string)
    requires pat != []
    requires !ContainsNumber(s)
    ensures !ContainsNumber(RemoveAll(s, pat))
  {
  }

  /** A text with no occurrence of `pat` is left unchanged. */
  lemma {:induction false} RemoveAllAbsent(s: string, pat: string)
    requires pat != []
    requires forall i :: 0 <= i < |s| ==> !OccursAt(s, pat, i)
    ensures RemoveAll(s, pat) == s
    decreases |s|
  {
    if |s| >= |pat| {
      assert !OccursAt(s, pat, 0);
      forall i | 0 <= i < |s[1..]|
        ensures !OccursAt(s[1..], pat, i)
      {
        assert !OccursAt(s, pat, i + 1);
        if i + |pat| <= |s[1..]| {
          assert s[1..][i..i + |pat|] == s[i + 1..i + 1 + |pat|];
        }
      }
      RemoveAllAbsent(s[1..], pat);
      assert s == [s[0]] + s[1..];
    }
  }

  /** When `pat` occurs in `t + pat` only as its suffix, removing it gives
      back `t`: the stem and the suffix put together are the original text. */
  lemma {:induction false} RemoveAllSuffixOnly(t: string, pat: string)
    requires pat != []
    requires forall i :: 0 <= i < |t| ==> !OccursAt(t + pat, pat, i)
    ensures RemoveAll(t + pat, pat) == t
    decreases |t|
  {
    var s := t + pat;
    if t == [] {
      assert s[..|pat|] == pat;
      assert s[|pat|..] == [];
    } else {
      assert !OccursAt(s, pat, 0);
      assert s[..|pat|] != pat;
      assert s[1..] == t[1..] + pat;
      forall i | 0 <= i < |t[1..]|
        ensures !OccursAt(t[1..] + pat, pat, i)
      {
        assert !OccursAt(s, pat, i + 1);
        if i + |pat| <= |t[1..] + pat| {
          assert (t[1..] + pat)[i..i + |pat|] == s[i + 1..i + 1 + |pat|];
        }
      }
      RemoveAllSuffixOnly(t[1..], pat);
      assert t == [t[0]] + t[1..];
    }
  }

  /** An occurrence of `pat` anywhere in `s` is removed: the result is
      shorter by at least the length of `pat`. */
  lemma {:induction false} RemoveAllShrinks(s: string, pat: string, p: nat)
    requires pat != []
    requires OccursAt(s, pat, p)
    ensures |RemoveAll(s, pat)| <= |s| - |pat|
    decreases |s|
  {
    if s[..|pat|] != pat {
      assert p > 0;
      assert s[1..][p - 1..p - 1 + |pat|] == s[p..p + |pat|];
      RemoveAllShrinks(s[1..], pat, p - 1);
    }
  }

  /** Two non-overlapping occurrences of `pat` are both removed. */
  lemma {:induction false} RemoveAllShrinksTwice(s: string, pat: string, p: nat, q: nat)
    requires pat != []
    requires OccursAt(s, pat, p) && OccursAt(s, pat, q) && p + |pat| <= q
    ensures |RemoveAll(s, pat)| <= |s| - 2 * |pat|
    decreases |s|
  {
    if s[..|pat|] == pat {
      assert s[|pat|..][q - |pat|..q] == s[q..q + |pat|];
      RemoveAllShrinks(s[|pat|..], pat, q - |pat|);
    } else {
      assert p > 0;
      assert s[1..][p - 1..p - 1 + |pat|] == s[p..p + |pat|];
      assert s[1..][q - 1..q - 1 + |pat|] == s[q..q + |pat|];
      RemoveAllShrinksTwice(s[1..], pat, p - 1, q - 1);
    }
  }

  /** The character of a decimal digit value. */
  function DigitChar(d: nat): (ch: char)
    requires d < 10
    ensures IsDigit(ch)
  {
    ('0' as int + d) as char
  }

  /** The value of a decimal digit character. */
  function DigitValue(ch: char): (d: nat)
    requires IsDigit(ch)
    ensures d < 10 && DigitChar(d) == ch
  {
    ch as int - '0' as int
  }

  /** All characters of `s` are digits. */
  predicate AllDigits(s: string)
  {
    forall i :: 0 <= i < |s| ==> IsDigit(s[i])
  }

  /** Python's `str(n)` for a natural number: its decimal digits, most
      significant first, without leading zeros. */
  function NatToString(n: nat): (s: string)
    ensures |s| >= 1 && AllDigits(s)
    decreases n
  {
    if n < 10 then [DigitChar(n)]
    else NatToString(n / 10) + [DigitChar(n % 10)]
  }

  /** The rendering of a positive number has no leading zero, so it is the
      canonical decimal text and not merely one with the right value. */
  lemma {:induction false} NatToStringNoLeadingZero(n: nat)
    requires n >= 1
    ensures NatToString(n)[0] != '0'
    decreases n
  {
    if n >= 10 {
      NatToStringNoLeadingZero(n / 10);
    }
  }

  /** The number a string of decimal digits denotes, read most significant first. */
  function ParseDecimal(s: string): nat
    requires AllDigits(s)
  {
    if s == [] then 0
    else ParseDecimal(s[..|s| - 1]) * 10 + DigitValue(s[|s| - 1])
  }

  /** Reading back the rendering of `n` yields `n`. */
  lemma {:induction false} ParseNatToString(n: nat)
    ensures ParseDecimal(NatToString(n)) == n
    decreases n
  {
    var s := NatToString(n);
    if n < 10 {
      assert s[..0] == [];
    } else {
      ParseNatToString(n / 10);
      assert s[..|s| - 1] == NatToString(n / 10);
    }
  }

  /** Distinct numbers have distinct renderings. */
  lemma NatToStringInjective(m: nat, n: nat)
    requires NatToString(m) == NatToString(n)
    ensures m == n
  {
    ParseNatToString(m);
    ParseNatToString(n);
  }
}
