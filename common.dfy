/** Shared vocabulary: nullable values, identifiers, timestamps, and the few
    java.lang behaviours (Long.toString, String.isBlank) the services rely on. */
module Common {

  /** A Java reference that may be null. */
  datatype Option<+T> = None | Some(value: T)

  /** Database identifiers (java.lang.Long). */
  type Id = int

  /** Timestamps (java.time.Instant); the clock is an input of every operation that reads it. */
  type Instant = int

  function DigitChar(d: nat): (c: char)
    requires d < 10
    ensures '0' <= c <= '9'
    ensures c as int - '0' as int == d
  {
    ('0' as int + d) as char
  }

  /** Decimal rendering of a natural number, most significant digit first. */
  function NatToString(n: nat): (s: string)
    ensures |s| >= 1
    ensures n >= 10 ==> |s| >= 2
    ensures forall i :: 0 <= i < |s| ==> '0' <= s[i] <= '9'
  {
    if n < 10 then [DigitChar(n)] else NatToString(n / 10) + [DigitChar(n % 10)]
  }

  /** Distinct numbers print differently, so `base-1`, `base-2`, ... are distinct candidates. */
  lemma {:induction false} NatToStringInjective(a: nat, b: nat)
    requires NatToString(a) == NatToString(b)
    ensures a == b
  {
    var sa, sb := NatToString(a), NatToString(b);
    if a < 10 || b < 10 {
      // a one-digit rendering only equals another one-digit rendering
      assert a < 10 && b < 10;
      assert sa[0] == DigitChar(a) && sb[0] == DigitChar(b);
    } else {
      var pa, pb := NatToString(a / 10), NatToString(b / 10);
      assert sa == pa + [DigitChar(a % 10)] && sb == pb + [DigitChar(b % 10)];
      assert |pa| == |pb|;
      assert sa[|sa| - 1] == DigitChar(a % 10) && sb[|sb| - 1] == DigitChar(b % 10);
      assert pa == sa[..|pa|] == sb[..|pb|] == pb;
      NatToStringInjective(a / 10, b / 10);
    }
  }

  /** Long.toString: a leading '-' for negative values. */
  function IdToString(n: Id): (s: string)
    ensures forall i :: 0 <= i < |s| ==> s[i] == '-' || '0' <= s[i] <= '9'
  {
    if n < 0 then "-" + NatToString(-n) else NatToString(n)
  }

  /** Lower-casing of one character, restricted to ASCII letters. */
  function LowerAscii(c: char): char
  {
    if 'A' <= c <= 'Z' then (c as int + 32) as char else c
  }

  /** String.equalsIgnoreCase, with case folding restricted to ASCII letters. */
  predicate EqualsIgnoreCase(a: string, b: string)
  {
    |a| == |b| && forall i :: 0 <= i < |a| ==> LowerAscii(a[i]) == LowerAscii(b[i])
  }

  /** Character.isWhitespace: the ASCII separators, the information separators
      U+001C..U+001F and the Unicode space separators other than the non-breaking ones. */
  predicate IsJavaWhitespace(c: char)
  {
    var k := c as int;
    (9 <= k <= 13) || (28 <= k <= 32) || k == 0x1680
    || (0x2000 <= k <= 0x2006) || (0x2008 <= k <= 0x200A)
    || k == 0x2028 || k == 0x2029 || k == 0x205F || k == 0x3000
  }

  /** String.isBlank: empty, or whitespace only. */
  predicate IsBlank(s: string)
  {
    forall i :: 0 <= i < |s| ==> IsJavaWhitespace(s[i])
  }

  /** A nullable string that is null or blank (the `x == null || x.isBlank()` guard). */
  predicate IsNullOrBlank(s: Option<string>)
  {
    s.None? || IsBlank(s.value)
  }
}
