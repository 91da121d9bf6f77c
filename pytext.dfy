/**
 Python's string builtins that the version helpers rely on, restricted to what
 those helpers use: `s.split(sep)[-1]`, `s.rsplit(sep, 1)`, `int(s)` on a
 string of decimal digits and `str(n)` of a non-negative integer.
 */
module PyText {
  import opened Wrappers

  /** `s.split(sep)[-1]`: the text after the last `sep`, or all of `s` when
      `sep` does not occur. It is the longest suffix of `s` free of `sep`. */
  function LastSegment(s: string, sep: char): (r: string)
    ensures sep !in r
    ensures |r| <= |s| && r == s[|s| - |r|..]
    ensures |r| < |s| ==> s[|s| - |r| - 1] == sep
    ensures sep !in s <==> r == s
    decreases |s|
  {
    if s == [] then []
    else if s[|s| - 1] == sep then []
    else LastSegment(s[..|s| - 1], sep) + [s[|s| - 1]]
  }

  /** The segment after the last separator of `p + [sep] + q` is `q` when `q` has no separator. */
  lemma {:induction false} LastSegmentAfterSeparator(p: string, sep: char, q: string)
    requires sep !in q
    ensures LastSegment(p + [sep] + q, sep) == q
    decreases |q|
  {
    var s := p + [sep] + q;
    if q != [] {
      var init := q[..|q| - 1];
      assert s[..|s| - 1] == p + [sep] + init;
      LastSegmentAfterSeparator(p, sep, init);
      assert q == init + [q[|q| - 1]];
    }
  }

  /** `s.rsplit(sep, 1)` unpacked into two names: `None` when `sep` does not
      occur (the unpacking raises), otherwise the text before and after the
      last `sep`. */
  function RSplitLast(s: string, sep: char): (r: Option<(string, string)>)
    ensures r.None? <==> sep !in s
    ensures r.Some? ==> s == r.value.0 + [sep] + r.value.1 && sep !in r.value.1
  {
    if sep !in s then None
    else
      var tail := LastSegment(s, sep);
      assert s == s[..|s| - |tail| - 1] + [sep] + tail;
      Some((s[..|s| - |tail| - 1], tail))
  }

  /** Splitting a joined pair on its last separator gives the pair back, even
      when the first part itself contains separators. */
  lemma RSplitJoin(p: string, sep: char, q: string)
    requires sep !in q
    ensures RSplitLast(p + [sep] + q, sep) == Some((p, q))
  {
    var s := p + [sep] + q;
    assert s[|p|] == sep;
    LastSegmentAfterSeparator(p, sep, q);
    assert s[..|s| - |q| - 1] == p;
  }

  predicate IsDigit(c: char) {
    '0' <= c <= '9'
  }

  /** A non-empty run of ASCII decimal digits, the suffixes `int()` accepts here. */
  predicate IsDecimal(s: string) {
    |s| > 0 && forall i :: 0 <= i < |s| ==> IsDigit(s[i])
  }

  /** A decimal string as `str()` writes it: no leading zero unless it is "0". */
  predicate IsCanonicalDecimal(s: string) {
    IsDecimal(s) && (s[0] == '0' ==> |s| == 1)
  }

  function DigitValue(c: char): (d: nat)
    requires IsDigit(c)
    ensures d < 10
  {
    c as int - '0' as int
  }

  function DigitChar(d: nat): (c: char)
    requires d < 10
    ensures IsDigit(c) && DigitValue(c) == d
  {
    ('0' as int + d) as char
  }

  /** The value of a string of digits, most significant first. */
  function DecimalValue(s: string): nat
    requires forall i :: 0 <= i < |s| ==> IsDigit(s[i])
    decreases |s|
  {
    if s == [] then 0 else DecimalValue(s[..|s| - 1]) * 10 + DigitValue(s[|s| - 1])
  }

  /** `int(s)`: `None` where Python raises ValueError. */
  function ParseNat(s: string): (r: Option<nat>)
    ensures r.Some? <==> IsDecimal(s)
  {
    if IsDecimal(s) then Some(DecimalValue(s)) else None
  }

  /** `str(n)` for a non-negative integer. */
  function NatToString(n: nat): (r: string)
    ensures IsCanonicalDecimal(r)
    decreases n
  {
    if n < 10 then [DigitChar(n)]
    else
      var r := NatToString(n / 10) + [DigitChar(n % 10)];
      assert r[0] == NatToString(n / 10)[0];
      r
  }

  /** `int(str(n)) == n`. */
  lemma {:induction false} ParseNatToString(n: nat)
    ensures ParseNat(NatToString(n)) == Some(n)
    decreases n
  {
    if n >= 10 {
      var s := NatToString(n);
      ParseNatToString(n / 10);
      assert s[..|s| - 1] == NatToString(n / 10);
      assert s[|s| - 1] == DigitChar(n % 10);
      assert DecimalValue(s) == (n / 10) * 10 + n % 10;
    }
  }

  /** A digit string whose first digit is not zero has a positive value. */
  lemma {:induction false} LeadingDigitPositive(s: string)
    requires IsDecimal(s) && s[0] != '0'
    ensures DecimalValue(s) > 0
    decreases |s|
  {
    if |s| > 1 {
      LeadingDigitPositive(s[..|s| - 1]);
    }
  }

  /** `str(int(s)) == s` exactly when `s` has no leading zeros. */
  lemma {:induction false} NatToStringOfDecimal(s: string)
    requires IsDecimal(s)
    ensures NatToString(DecimalValue(s)) == s <==> IsCanonicalDecimal(s)
    decreases |s|
  {
    if |s| == 1 {
      assert DigitChar(DigitValue(s[0])) == s[0];
    } else if s[0] == '0' {
    } else {
      var init := s[..|s| - 1];
      assert init[0] == s[0];
      LeadingDigitPositive(init);
      NatToStringOfDecimal(init);
      var n := DecimalValue(s);
      assert n / 10 == DecimalValue(init) && n % 10 == DigitValue(s[|s| - 1]);
      assert DigitChar(DigitValue(s[|s| - 1])) == s[|s| - 1];
      assert s == init + [s[|s| - 1]];
    }
  }
}
