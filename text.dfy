/** ASCII character classes, case mapping, substring search and decimal
    rendering of integers, as the advisory mirror uses them. Only ASCII is
    modelled: Python's Unicode digits, letters and case mappings are not. */
module Text {

  predicate IsDigit(c: char) { '0' <= c <= '9' }

  predicate IsAsciiLetter(c: char) { 'a' <= c <= 'z' || 'A' <= c <= 'Z' }

  /** The class of `\w` in a regular expression, restricted to ASCII. */
  predicate IsWordChar(c: char) { IsAsciiLetter(c) || IsDigit(c) || c == '_' }

  predicate AllDigits(s: string) { forall k :: 0 <= k < |s| ==> IsDigit(s[k]) }

  function UpperChar(c: char): char
  {
    if 'a' <= c <= 'z' then (c as int - 32) as char else c
  }

  function LowerChar(c: char): char
  {
    if 'A' <= c <= 'Z' then (c as int + 32) as char else c
  }

  /** `str.upper()` on ASCII letters. */
  function Upper(s: string): (r: string)
    ensures |r| == |s|
    ensures forall k :: 0 <= k < |s| ==> r[k] == UpperChar(s[k])
  {
    if s == [] then [] else [UpperChar(s[0])] + Upper(s[1..])
  }

  /** `str.lower()` on ASCII letters. */
  function Lower(s: string): (r: string)
    ensures |r| == |s|
    ensures forall k :: 0 <= k < |s| ==> r[k] == LowerChar(s[k])
  {
    if s == [] then [] else [LowerChar(s[0])] + Lower(s[1..])
  }

  lemma UpperCharFacts(c: char)
    ensures UpperChar(UpperChar(c)) == UpperChar(c)
    ensures IsWordChar(UpperChar(c)) == IsWordChar(c)
    ensures IsDigit(UpperChar(c)) == IsDigit(c)
    ensures IsDigit(c) ==> UpperChar(c) == c
  {
  }

  /** `needle` occurs in `hay` starting at index `k`. */
  predicate OccursAt(hay: string, needle: string, k: nat)
  {
    k + |needle| <= |hay| && hay[k..k + |needle|] == needle
  }

  /** Python's `needle in hay` on strings: some window of `hay` equals `needle`. */
  function Contains(hay: string, needle: string): (r: bool)
    ensures r <==> exists k: nat :: OccursAt(hay, needle, k)
    decreases |hay|
  {
    if |needle| > |hay| then false
    else if hay[..|needle|] == needle then assert OccursAt(hay, needle, 0); true
    else
      var r := Contains(hay[1..], needle);
      assert forall k: nat :: OccursAt(hay, needle, k + 1) <==> OccursAt(hay[1..], needle, k) by {
        forall k: nat ensures OccursAt(hay, needle, k + 1) <==> OccursAt(hay[1..], needle, k) {
          if k + 1 + |needle| <= |hay| {
            var tail := hay[1..];
            var a, b := hay[k + 1..k + 1 + |needle|], tail[k..k + |needle|];
            assert |a| == |b|;
            forall j | 0 <= j < |a| ensures a[j] == b[j] {
              assert a[j] == hay[k + 1 + j];
              assert b[j] == tail[k + j];
            }
            assert hay[k + 1..k + 1 + |needle|] == tail[k..k + |needle|];
          }
        }
      }
      assert !OccursAt(hay, needle, 0);
      assert (exists k: nat :: OccursAt(hay, needle, k)) ==> exists k: nat :: OccursAt(hay[1..], needle, k) by {
        if k: nat :| OccursAt(hay, needle, k) {
          assert k != 0;
          assert OccursAt(hay[1..], needle, k - 1);
        }
      }
      r
  }

  // ---------------------------------------------------------------
  // Decimal rendering (`str(n)`, `f"{n:0{w}d}"`) and its inverse
  // ---------------------------------------------------------------

  function DigitChar(d: nat): (c: char)
    requires d < 10
    ensures IsDigit(c)
  {
    ('0' as int + d) as char
  }

  function DigitValue(c: char): nat
    requires IsDigit(c)
  {
    c as int - '0' as int
  }

  /** `str(n)` for a natural number: shortest decimal rendering. */
  function Decimal(n: nat): (r: string)
    ensures 1 <= |r| && AllDigits(r)
    ensures n >= 10 ==> r[0] != '0'
    decreases n
  {
    if n < 10 then [DigitChar(n)] else Decimal(n / 10) + [DigitChar(n % 10)]
  }

  /** The number a string of decimal digits denotes; the partner of `Decimal`. */
  function DecimalValue(s: string): nat
    requires AllDigits(s)
  {
    if s == [] then 0 else DecimalValue(s[..|s| - 1]) * 10 + DigitValue(s[|s| - 1])
  }

  lemma {:induction false} DecimalRoundTrip(n: nat)
    ensures DecimalValue(Decimal(n)) == n
    decreases n
  {
    if n >= 10 {
      DecimalRoundTrip(n / 10);
      var s := Decimal(n);
      assert s[..|s| - 1] == Decimal(n / 10);
    }
  }

  function Zeros(k: nat): (r: string)
    ensures |r| == k && AllDigits(r)
    ensures forall j :: 0 <= j < k ==> r[j] == '0'
  {
    if k == 0 then [] else Zeros(k - 1) + ['0']
  }

  lemma {:induction false} LeadingZerosValue(k: nat, s: string)
    requires AllDigits(s)
    ensures AllDigits(Zeros(k) + s)
    ensures DecimalValue(Zeros(k) + s) == DecimalValue(s)
    decreases |s| + k
  {
    var z := Zeros(k) + s;
    if s == [] {
      assert z == Zeros(k);
      if k > 0 {
        assert z[..|z| - 1] == Zeros(k - 1) + [];
        LeadingZerosValue(k - 1, []);
      }
    } else {
      assert z[..|z| - 1] == Zeros(k) + s[..|s| - 1];
      LeadingZerosValue(k, s[..|s| - 1]);
    }
  }

  /** `f"{n:0{width}d}"` for a natural number: `str(n)` left-padded with
      zeros to at least `width` characters; a wider number is not truncated. */
  function ZeroPad(n: nat, width: nat): (r: string)
    ensures |r| == if |Decimal(n)| >= width then |Decimal(n)| else width
    ensures AllDigits(r) && DecimalValue(r) == n
    ensures |Decimal(n)| >= width ==> r == Decimal(n)
  {
    var d := Decimal(n);
    var pad := if |d| >= width then 0 else width - |d|;
    DecimalRoundTrip(n);
    LeadingZerosValue(pad, d);
    assert pad == 0 ==> Zeros(pad) + d == d;
    Zeros(pad) + d
  }

  lemma ZeroPadInjective(m: nat, n: nat, width: nat)
    ensures ZeroPad(m, width) == ZeroPad(n, width) ==> m == n
  {
  }

  /** `str(y)` for any integer. */
  function IntText(y: int): (r: string)
    ensures |r| >= 1
    ensures y >= 0 ==> AllDigits(r) && DecimalValue(r) == y
    ensures y < 0 ==> r[0] == '-'
  {
    if y < 0 then "-" + Decimal(-y) else DecimalRoundTrip(y); Decimal(y)
  }

  lemma IntTextInjective(a: int, b: int)
    ensures IntText(a) == IntText(b) ==> a == b
  {
    if IntText(a) == IntText(b) {
      if a < 0 && b < 0 {
        NegativeText(a);
        NegativeText(b);
      } else if a < 0 || b < 0 {
        assert IntText(a)[0] == IntText(b)[0];
      }
    }
  }

  /** The digits after the sign of a negative number give its magnitude. */
  lemma NegativeText(y: int)
    requires y < 0
    ensures DecimalValue(IntText(y)[1..]) == -y
  {
    assert IntText(y)[1..] == Decimal(-y);
    DecimalRoundTrip(-y);
  }

}
