/** Substring search and decimal digits over Python `str` values, modelled as `string`. */
module Strings {

  /** `pat` appears in `s` starting at index `i`. */
  predicate OccursAt(s: string, pat: string, i: nat) {
    i + |pat| <= |s| && s[i..i + |pat|] == pat
  }

  /** Python's `pat in s`: only a string no longer than `s` can occur in it. */
  predicate Contains(s: string, pat: string)
    ensures Contains(s, pat) ==> |pat| <= |s|
  {
    exists i: nat | i <= |s| :: OccursAt(s, pat, i)
  }

  /** Containment is transitive: whatever contains `mid` contains every part of `mid`. */
  lemma ContainsTransitive(s: string, mid: string, pat: string)
    requires Contains(s, mid) && Contains(mid, pat)
    ensures Contains(s, pat)
  {
    var i: nat :| i <= |s| && OccursAt(s, mid, i);
    var j: nat :| j <= |mid| && OccursAt(mid, pat, j);
    forall k | 0 <= k < |pat|
      ensures s[i + j..i + j + |pat|][k] == pat[k]
    {
      assert pat[k] == mid[j + k] == s[i + j + k];
    }
    assert OccursAt(s, pat, i + j);
  }

  /** Every string contains its own prefix. */
  lemma ContainsPrefix(s: string, n: nat)
    requires n <= |s|
    ensures Contains(s, s[..n])
  {
    assert OccursAt(s, s[..n], 0);
  }

  predicate IsDigit(c: char) {
    '0' <= c <= '9'
  }

  predicate AllDigits(s: string) {
    forall i | 0 <= i < |s| :: IsDigit(s[i])
  }

  function DigitValue(c: char): (d: nat)
    requires IsDigit(c)
    ensures d < 10
  {
    c as int - '0' as int
  }

  function DigitChar(d: nat): (c: char)
    requires d < 10
    ensures IsDigit(c) && DigitValue(c) == d
  {
    ('0' as int + d) as char
  }

  /** Ten to the power `k`. */
  function Pow10(k: nat): (p: nat)
    ensures p > 0
  {
    if k == 0 then 1 else 10 * Pow10(k - 1)
  }

  /**
   * Python's `int(s)` on a non-empty run of ASCII digits (leading zeros allowed): a number
   * written with `k` digits is below ten to the `k`.
   */
  function DigitsValue(s: string): (n: nat)
    requires AllDigits(s)
    ensures n < Pow10(|s|)
    decreases |s|
  {
    if s == [] then 0 else 10 * DigitsValue(s[..|s| - 1]) + DigitValue(s[|s| - 1])
  }

  /** Python's `str(n)`: the decimal digits of `n`, without leading zeros. */
  function Show(n: nat): (s: string)
    ensures |s| > 0 && AllDigits(s)
    ensures |s| > 1 ==> s[0] != '0'
    decreases n
  {
    if n < 10 then [DigitChar(n)] else Show(n / 10) + [DigitChar(n % 10)]
  }

  /** Reading back the decimal rendering of a number gives the number. */
  lemma {:induction false} ShowRoundTrip(n: nat)
    ensures DigitsValue(Show(n)) == n
    decreases n
  {
    if n >= 10 {
      var s := Show(n);
      assert s[..|s| - 1] == Show(n / 10);
      ShowRoundTrip(n / 10);
    }
  }

  /** Length of the longest run of digits in `s` starting at index `i`. */
  function DigitRun(s: string, i: nat): (n: nat)
    requires i <= |s|
    ensures i + n <= |s|
    decreases |s| - i
  {
    if i < |s| && IsDigit(s[i]) then 1 + DigitRun(s, i + 1) else 0
  }

  /** The run `DigitRun` measures is all digits and cannot be extended by another digit. */
  lemma {:induction false} DigitRunMaximal(s: string, i: nat)
    requires i <= |s|
    ensures var n := DigitRun(s, i);
      AllDigits(s[i..i + n]) && (i + n < |s| ==> !IsDigit(s[i + n]))
    decreases |s| - i
  {
    if i < |s| && IsDigit(s[i]) {
      DigitRunMaximal(s, i + 1);
      var rest := DigitRun(s, i + 1);
      assert s[i..i + 1 + rest] == [s[i]] + s[i + 1..i + 1 + rest];
    }
  }

  /** A run of digits that is followed by a non-digit (or the end) is the longest run there. */
  lemma {:induction false} DigitRunOf(s: string, i: nat, d: string)
    requires AllDigits(d) && OccursAt(s, d, i)
    requires i + |d| == |s| || !IsDigit(s[i + |d|])
    ensures DigitRun(s, i) == |d|
    decreases |d|
  {
    if d != [] {
      assert s[i] == d[0];
      assert OccursAt(s, d[1..], i + 1) by {
        assert s[i + 1..i + 1 + |d[1..]|] == s[i..i + |d|][1..];
      }
      DigitRunOf(s, i + 1, d[1..]);
    }
  }
}
