/** Text operations the catalog needs: lower-casing, substring search and the decimal
    rendering of integers. */
module Strings {
  import opened UnicodeTables

  /** `str.lower` on a whole string. */
  function LowerStr(s: string): (r: string)
    ensures |r| == |s|
    ensures forall i :: 0 <= i < |s| ==> r[i] == ToLower(s[i])
  {
    seq(|s|, i requires 0 <= i < |s| => ToLower(s[i]))
  }

  /** Lower-casing a slice is slicing the lower-cased text. */
  lemma LowerSlice(h: string, i: nat, j: nat)
    requires i <= j <= |h|
    ensures LowerStr(h)[i..j] == LowerStr(h[i..j])
  {
    var l, s := LowerStr(h), h[i..j];
    var x, y := l[i..j], LowerStr(s);
    assert |x| == |y| == j - i;
    forall k | 0 <= k < j - i ensures x[k] == y[k] {
      assert s[k] == h[i + k];
      assert x[k] == l[i + k] == ToLower(h[i + k]);
      assert y[k] == ToLower(s[k]);
    }
  }

  /** `needle` occurs in `hay` starting at position `i`. */
  ghost predicate OccursAt(hay: string, needle: string, i: int) {
    0 <= i <= |hay| - |needle| && hay[i..i + |needle|] == needle
  }

  /** Substring test (`needle in hay`), by scanning the start positions left to right. */
  function Contains(hay: string, needle: string): (b: bool)
    ensures b <==> exists i :: OccursAt(hay, needle, i)
    decreases |hay|
  {
    if |needle| > |hay| then
      false
    else if hay[..|needle|] == needle then
      assert OccursAt(hay, needle, 0);
      true
    else
      var rest := Contains(hay[1..], needle);
      OccursShift(hay, needle);
      assert !OccursAt(hay, needle, 0);
      assert (exists i :: OccursAt(hay, needle, i)) ==> exists i :: OccursAt(hay[1..], needle, i) by {
        if exists i :: OccursAt(hay, needle, i) {
          var i :| OccursAt(hay, needle, i);
          assert OccursAt(hay[1..], needle, i - 1);
        }
      }
      rest
  }

  /** An occurrence in the tail of `hay` is an occurrence in `hay`, one position later. */
  lemma OccursShift(hay: string, needle: string)
    requires |hay| > 0
    ensures forall i :: 0 <= i ==> (OccursAt(hay[1..], needle, i) <==> OccursAt(hay, needle, i + 1))
  {
    forall i | 0 <= i && OccursAt(hay, needle, i + 1)
      ensures OccursAt(hay[1..], needle, i)
    {
      assert hay[1..][i..i + |needle|] == hay[i + 1..i + 1 + |needle|];
    }
  }

  /** Case-insensitive substring test: both sides are lower-cased before comparing. */
  predicate ContainsIgnoringCase(hay: string, needle: string) {
    Contains(LowerStr(hay), LowerStr(needle))
  }

  predicate IsDigit(c: char) {
    '0' <= c <= '9'
  }

  /** The decimal digits of a natural number, most significant first, without leading zeros. */
  function NatToDecimal(n: nat): (s: string)
    ensures |s| >= 1 && (forall i :: 0 <= i < |s| ==> IsDigit(s[i]))
    ensures |s| > 1 ==> s[0] != '0'
  {
    var last := ['0' + (n % 10) as char];
    if n < 10 then last else NatToDecimal(n / 10) + last
  }

  /** `str(n)` for an integer: a minus sign, then the digits of the magnitude. */
  function IntToDecimal(n: int): (s: string)
    ensures |s| >= 1 && (s[0] == '-' <==> n < 0)
    ensures Denotes(s, n)
  {
    if n < 0 then
      DecimalRoundTrip(-n);
      var s := "-" + NatToDecimal(-n);
      assert s[1..] == NatToDecimal(-n);
      s
    else
      DecimalRoundTrip(n);
      NatToDecimal(n)
  }

  /** A non-empty string of decimal digits with no leading zero (other than `0` itself). */
  predicate IsDecimal(s: string) {
    && |s| >= 1
    && (forall i :: 0 <= i < |s| ==> IsDigit(s[i]))
    && (|s| > 1 ==> s[0] != '0')
  }

  function DigitValue(c: char): (v: nat)
    requires IsDigit(c)
    ensures v < 10
  {
    c as int - '0' as int
  }

  /** Reads a string of digits as a number, most significant digit first. */
  function DecimalValue(s: string): nat
    requires forall i :: 0 <= i < |s| ==> IsDigit(s[i])
  {
    if s == [] then 0 else DecimalValue(s[..|s| - 1]) * 10 + DigitValue(s[|s| - 1])
  }

  /** `s` is how Python writes the integer `n`: an optional `-`, then the decimal digits of
      its magnitude. */
  predicate Denotes(s: string, n: int) {
    if n < 0 then |s| >= 2 && s[0] == '-' && IsDecimal(s[1..]) && DecimalValue(s[1..]) == -n
    else IsDecimal(s) && DecimalValue(s) == n
  }

  /** Reading the digits back gives the number they were written from. */
  lemma {:induction false} DecimalRoundTrip(n: nat)
    ensures DecimalValue(NatToDecimal(n)) == n
  {
    var s := NatToDecimal(n);
    var last := ['0' + (n % 10) as char];
    if n < 10 {
      assert s == last && s[..0] == [];
    } else {
      DecimalRoundTrip(n / 10);
      assert s == NatToDecimal(n / 10) + last;
      assert s[..|s| - 1] == NatToDecimal(n / 10);
    }
  }
}
