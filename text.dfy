/** Python's str(int) and str.replace, on strings as sequences of characters. */
module Text {

  predicate IsDigit(c: char) {
    '0' <= c <= '9'
  }

  function DigitChar(d: int): (c: char)
    requires 0 <= d < 10
    ensures IsDigit(c) && c as int - '0' as int == d
  {
    "0123456789"[d]
  }

  /** Decimal digits of a natural number, without leading zeros. */
  function NatToString(n: nat): (s: string)
    ensures |s| >= 1
    ensures forall i :: 0 <= i < |s| ==> IsDigit(s[i])
    decreases n
  {
    if n < 10 then [DigitChar(n)] else NatToString(n / 10) + [DigitChar(n % 10)]
  }

  /** str(n) */
  function IntToString(n: int): (s: string)
    ensures |s| >= 1
    ensures forall i :: 0 <= i < |s| ==> IsDigit(s[i]) || s[i] == '-'
  {
    if n < 0 then "-" + NatToString(-n) else NatToString(n)
  }

  /** The value of a string of decimal digits: the reference reading of NatToString. */
  function DecimalValue(s: string): int
    decreases |s|
  {
    if s == [] then 0 else DecimalValue(s[..|s| - 1]) * 10 + (s[|s| - 1] as int - '0' as int)
  }

  /** int(s) for the strings str produces. */
  function ParseInt(s: string): int {
    if |s| > 0 && s[0] == '-' then -DecimalValue(s[1..]) else DecimalValue(s)
  }

  lemma {:induction false} NatToStringValue(n: nat)
    ensures DecimalValue(NatToString(n)) == n
    decreases n
  {
    if n >= 10 {
      NatToStringValue(n / 10);
      var s := NatToString(n);
      assert s[..|s| - 1] == NatToString(n / 10);
    }
  }

  /** str is undone by int: every integer's decimal form reads back as that integer. */
  lemma IntToStringRoundTrip(n: int)
    ensures ParseInt(IntToString(n)) == n
  {
    if n < 0 {
      NatToStringValue(-n);
      assert IntToString(n)[1..] == NatToString(-n);
    } else {
      NatToStringValue(n);
    }
  }

  /** Different integers print differently. */
  lemma IntToStringInjective(m: int, n: int)
    requires IntToString(m) == IntToString(n)
    ensures m == n
  {
    IntToStringRoundTrip(m);
    IntToStringRoundTrip(n);
  }

  /** `pat` occurs in `s` starting at index `i`. */
  predicate OccursAt(s: string, pat: string, i: int) {
    0 <= i && i + |pat| <= |s| && s[i..i + |pat|] == pat
  }

  predicate Contains(s: string, pat: string) {
    exists i :: 0 <= i <= |s| && OccursAt(s, pat, i)
  }

  predicate Disjoint(a: string, b: string) {
    forall i, j :: 0 <= i < |a| && 0 <= j < |b| ==> a[i] != b[j]
  }

  /** s.replace(pat, rep): every non-overlapping occurrence, scanning from the left. */
  function ReplaceAll(s: string, pat: string, rep: string): string
    requires |pat| > 0
    decreases |s|
  {
    if |s| < |pat| then s
    else if s[..|pat|] == pat then rep + ReplaceAll(s[|pat|..], pat, rep)
    else [s[0]] + ReplaceAll(s[1..], pat, rep)
  }

  /** A string without the pattern is returned unchanged. */
  lemma {:induction false} ReplaceAbsent(s: string, pat: string, rep: string)
    requires |pat| > 0 && !Contains(s, pat)
    ensures ReplaceAll(s, pat, rep) == s
    decreases |s|
  {
    if |s| >= |pat| {
      assert !OccursAt(s, pat, 0);
      assert !Contains(s[1..], pat) by {
        forall i | OccursAt(s[1..], pat, i) ensures OccursAt(s, pat, i + 1) {
          assert s[1..][i..i + |pat|] == s[i + 1..i + 1 + |pat|];
        }
      }
      ReplaceAbsent(s[1..], pat, rep);
    }
  }

  /** A leading occurrence is replaced and the scan resumes after it. */
  lemma ReplaceLeading(pat: string, s: string, rep: string)
    requires |pat| > 0
    ensures ReplaceAll(pat + s, pat, rep) == rep + ReplaceAll(s, pat, rep)
  {
    assert (pat + s)[..|pat|] == pat;
    assert (pat + s)[|pat|..] == s;
  }

  lemma ReplaceStartsWithRep(s: string, pat: string, rep: string)
    requires |pat| > 0 && |rep| > 0 && |s| >= |pat| && s[..|pat|] == pat
    ensures |ReplaceAll(s, pat, rep)| > 0 && ReplaceAll(s, pat, rep)[0] == rep[0]
  {
  }

  /**
   * While the result shows no character of the replacement, it copies the input:
   * a prefix of the result free of `rep` characters is a prefix of `s`.
   */
  lemma {:induction false} ReplacePrefixKept(s: string, pat: string, rep: string, k: nat)
    requires |pat| > 0 && |rep| > 0
    requires k <= |ReplaceAll(s, pat, rep)|
    requires forall i, j :: 0 <= i < k && 0 <= j < |rep| ==> ReplaceAll(s, pat, rep)[i] != rep[j]
    ensures k <= |s| && ReplaceAll(s, pat, rep)[..k] == s[..k]
    decreases |s|
  {
    var x := ReplaceAll(s, pat, rep);
    if |s| < |pat| {
    } else if s[..|pat|] == pat {
      if k > 0 {
        ReplaceStartsWithRep(s, pat, rep);
      }
    } else if k > 0 {
      var y := ReplaceAll(s[1..], pat, rep);
      assert x == [s[0]] + y;
      forall i, j | 0 <= i < k - 1 && 0 <= j < |rep| ensures y[i] != rep[j] {
        assert y[i] == x[i + 1];
      }
      ReplacePrefixKept(s[1..], pat, rep, k - 1);
      assert x[..k] == [s[0]] + y[..k - 1];
    }
  }

  /** A replacement disjoint from the pattern, followed by text free of it, leaves it free. */
  lemma NoneAfterReplacement(rep: string, y: string, pat: string)
    requires |pat| > 0 && Disjoint(pat, rep) && !Contains(y, pat)
    ensures !Contains(rep + y, pat)
  {
    var x := rep + y;
    // Inside `rep` no occurrence can start, as rep[i] is not pat[0];
    // after it, an occurrence would be one in y.
    forall i | 0 <= i < |rep| && i + |pat| <= |x| ensures !OccursAt(x, pat, i) {
      assert x[i..i + |pat|][0] == rep[i] != pat[0];
    }
    forall i | |rep| <= i && i + |pat| <= |x| ensures !OccursAt(x, pat, i) {
      assert y[i - |rep|..i - |rep| + |pat|] == x[i..i + |pat|];
      assert !OccursAt(y, pat, i - |rep|);
    }
  }

  /** Copying a character that starts no occurrence keeps the result free of the pattern. */
  lemma NoneAfterCopy(s: string, pat: string, rep: string)
    requires |pat| > 0 && |rep| > 0 && Disjoint(pat, rep)
    requires |s| >= |pat| && s[..|pat|] != pat
    requires !Contains(ReplaceAll(s[1..], pat, rep), pat)
    ensures !Contains(ReplaceAll(s, pat, rep), pat)
  {
    var x, y := ReplaceAll(s, pat, rep), ReplaceAll(s[1..], pat, rep);
    assert x == [s[0]] + y;
    forall i | OccursAt(x, pat, i) ensures false {
      if i == 0 {
        forall a, b | 0 <= a < |pat| && 0 <= b < |rep| ensures x[a] != rep[b] {
          assert x[a] == pat[a];
        }
        ReplacePrefixKept(s, pat, rep, |pat|);
      } else {
        assert y[i - 1..i - 1 + |pat|] == x[i..i + |pat|];
        assert OccursAt(y, pat, i - 1);
      }
    }
  }

  /**
   * When the replacement shares no character with the pattern, no occurrence of
   * the pattern is left in the result: every occurrence was replaced.
   */
  lemma {:induction false} ReplaceAllLeavesNone(s: string, pat: string, rep: string)
    requires |pat| > 0 && |rep| > 0 && Disjoint(pat, rep)
    ensures !Contains(ReplaceAll(s, pat, rep), pat)
    decreases |s|
  {
    if |s| < |pat| {
    } else if s[..|pat|] == pat {
      ReplaceAllLeavesNone(s[|pat|..], pat, rep);
      NoneAfterReplacement(rep, ReplaceAll(s[|pat|..], pat, rep), pat);
    } else {
      ReplaceAllLeavesNone(s[1..], pat, rep);
      NoneAfterCopy(s, pat, rep);
    }
  }
}
