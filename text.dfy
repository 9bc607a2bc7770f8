/** The few pieces of Rust string behaviour the tracker depends on:
    `char::is_whitespace`, `str::trim`, `str::contains` and `{}` formatting of integers. */
module Text {

  /** Rust's `char::is_whitespace`: the Unicode White_Space property. */
  predicate IsWhitespace(c: char)
  {
    c == ' ' || ('\t' <= c <= '\r') || c == '\U{85}' || c == '\U{A0}' || c == '\U{1680}'
    || ('\U{2000}' <= c <= '\U{200A}') || c == '\U{2028}' || c == '\U{2029}' || c == '\U{202F}'
    || c == '\U{205F}' || c == '\U{3000}'
  }

  /** Every character of `s` is whitespace (the empty string included). */
  predicate IsBlank(s: string)
  {
    forall i :: 0 <= i < |s| ==> IsWhitespace(s[i])
  }

  /** `str::trim_start`: the longest suffix of `s` that does not start with whitespace. */
  function TrimStart(s: string): (r: string)
    ensures |r| <= |s| && r == s[|s| - |r|..]
    ensures IsBlank(s[..|s| - |r|])
    ensures r == [] || !IsWhitespace(r[0])
  {
    if s == [] || !IsWhitespace(s[0]) then s
    else
      var r := TrimStart(s[1..]);
      assert s[1..][..|s[1..]| - |r|] == s[1..|s| - |r|];
      r
  }

  /** `str::trim_end`: the longest prefix of `s` that does not end with whitespace. */
  function TrimEnd(s: string): (r: string)
    ensures |r| <= |s| && r == s[..|r|]
    ensures IsBlank(s[|r|..])
    ensures r == [] || !IsWhitespace(r[|r| - 1])
  {
    if s == [] || !IsWhitespace(s[|s| - 1]) then s
    else
      var r := TrimEnd(s[..|s| - 1]);
      assert s[..|s| - 1][|r|..] == s[|r|..|s| - 1];
      assert forall i :: |r| <= i < |s| - 1 ==> s[..|s| - 1][i] == s[i];
      r
  }

  /** `str::trim`: whitespace removed at both ends. */
  function Trim(s: string): string
  {
    TrimEnd(TrimStart(s))
  }

  /** `s.trim() == ""` holds exactly for the blank strings. */
  lemma TrimEmptyIffBlank(s: string)
    ensures Trim(s) == [] <==> IsBlank(s)
  {
    var t := TrimStart(s);
    if Trim(s) == [] {
      assert IsBlank(t[0..]);
      assert |t| == 0;
      forall i | 0 <= i < |s| ensures IsWhitespace(s[i]) {
        assert s[..|s| - |t|][i] == s[i];
      }
    }
  }

  /** `s` has a character that is not whitespace, found by scanning from the left. */
  predicate HasVisibleChar(s: string)
    decreases |s|
  {
    |s| > 0 && (!IsWhitespace(s[0]) || HasVisibleChar(s[1..]))
  }

  /** `s.trim() != ""` holds exactly when `s` has a character that is not whitespace. */
  lemma {:induction false} VisibleIffTrimNonEmpty(s: string)
    ensures HasVisibleChar(s) <==> Trim(s) != []
    decreases |s|
  {
    TrimEmptyIffBlank(s);
    if |s| > 0 {
      VisibleIffTrimNonEmpty(s[1..]);
      TrimEmptyIffBlank(s[1..]);
      if IsBlank(s[1..]) && IsWhitespace(s[0]) {
        forall i | 0 <= i < |s| ensures IsWhitespace(s[i]) {
          if i > 0 {
            assert s[i] == s[1..][i - 1];
          }
        }
      }
      if IsBlank(s) {
        forall i | 0 <= i < |s| - 1 ensures IsWhitespace(s[1..][i]) {
          assert s[1..][i] == s[i + 1];
        }
      }
    }
  }

  /** `t` occurs in `s` starting at offset `k`. */
  predicate OccursAt(s: string, t: string, k: int)
  {
    0 <= k <= |s| - |t| && s[k..k + |t|] == t
  }

  /** `str::contains` with a string pattern: `t` occurs in `s` at some offset. */
  function Contains(s: string, t: string): (r: bool)
    ensures r <==> exists k :: OccursAt(s, t, k)
    decreases |s|
  {
    if |t| <= |s| && s[..|t|] == t then
      assert OccursAt(s, t, 0);
      true
    else if |s| <= |t| then
      false
    else
      var r := Contains(s[1..], t);
      assert forall k :: OccursAt(s[1..], t, k) <==> OccursAt(s, t, k + 1) by {
        forall k ensures OccursAt(s[1..], t, k) <==> OccursAt(s, t, k + 1) {
          if 0 <= k <= |s| - 1 - |t| {
            assert s[1..][k..k + |t|] == s[k + 1..k + 1 + |t|];
          }
        }
      }
      assert !OccursAt(s, t, 0);
      assert (exists k :: OccursAt(s, t, k)) ==> r by {
        if exists k :: OccursAt(s, t, k) {
          var k :| OccursAt(s, t, k);
          assert OccursAt(s[1..], t, k - 1);
        }
      }
      r
  }

  /** The character of the decimal digit `d`. */
  function DigitChar(d: nat): (c: char)
    requires d < 10
    ensures '0' <= c <= '9'
    ensures DigitValue(c) == d
  {
    (48 + d) as char
  }

  /** The value of a decimal digit character. */
  function DigitValue(c: char): nat
    requires '0' <= c <= '9'
  {
    c as int - 48
  }

  predicate AllDigits(s: string)
  {
    forall i :: 0 <= i < |s| ==> '0' <= s[i] <= '9'
  }

  /** The number a string of decimal digits stands for, most significant digit first. */
  ghost function DecimalValue(s: string): nat
    requires AllDigits(s)
  {
    if s == [] then 0 else DecimalValue(s[..|s| - 1]) * 10 + DigitValue(s[|s| - 1])
  }

  /** `s` reads as the integer `n`: an optional minus sign (present exactly for negative values)
      before at least one decimal digit whose value is the magnitude of `n`. */
  ghost predicate DenotesInt(s: string, n: int)
  {
    if n < 0 then |s| >= 2 && s[0] == '-' && AllDigits(s[1..]) && DecimalValue(s[1..]) == -n
    else |s| >= 1 && AllDigits(s) && DecimalValue(s) == n
  }

  /** `{}` formatting of a non-negative integer: decimal digits, no leading zeros. */
  function NatToDecimal(n: nat): (r: string)
    ensures |r| >= 1
    ensures AllDigits(r)
    ensures |r| > 1 ==> r[0] != '0'
    decreases n
  {
    if n < 10 then [DigitChar(n)] else NatToDecimal(n / 10) + [DigitChar(n % 10)]
  }

  /** The digits `NatToDecimal` writes stand for the number formatted. */
  lemma {:induction false} NatToDecimalValue(n: nat)
    ensures DecimalValue(NatToDecimal(n)) == n
    decreases n
  {
    var r := NatToDecimal(n);
    if n < 10 {
      assert r[..|r| - 1] == [];
    } else {
      NatToDecimalValue(n / 10);
      assert r[..|r| - 1] == NatToDecimal(n / 10);
    }
  }

  /** Formatting is one-to-one: distinct numbers never print alike. */
  lemma NatToDecimalInjective(a: nat, b: nat)
    requires NatToDecimal(a) == NatToDecimal(b)
    ensures a == b
  {
    NatToDecimalValue(a);
    NatToDecimalValue(b);
  }

  /** `{}` formatting of a signed integer: a minus sign before the digits of a negative value. */
  function IntToDecimal(n: int): (r: string)
    ensures DenotesInt(r, n)
    ensures r[0] == '-' <==> n < 0
    ensures var digits := if n < 0 then r[1..] else r; |digits| > 1 ==> digits[0] != '0'
  {
    if n < 0 then
      NatToDecimalValue(-n);
      var r := "-" + NatToDecimal(-n);
      assert r[1..] == NatToDecimal(-n);
      r
    else
      NatToDecimalValue(n);
      NatToDecimal(n)
  }
}
