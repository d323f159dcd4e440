/**
 * Recency of arXiv identifiers (`is_earlier`): an id such as `2401.01234v2`
 * is cut at its first `v`, its dots are removed, and what is left is read
 * as a decimal integer; `ts1` is earlier than `ts2` when its number is
 * smaller. Any id that does not read as an integer makes the answer false.
 */
module ArxivId {
  import opened Wrappers
  import opened Text

  predicate AllDigits(s: string) {
    forall k :: 0 <= k < |s| ==> IsDigit(s[k])
  }

  function Pow10(n: nat): (r: nat)
    ensures r >= 1
  {
    if n == 0 then 1 else 10 * Pow10(n - 1)
  }

  function DigitValue(c: char): (d: nat)
    requires IsDigit(c)
    ensures d < 10
  {
    c as int - '0' as int
  }

  /** The number a string of decimal digits denotes, most significant digit first. */
  function DecimalValue(s: string): nat
    requires AllDigits(s)
  {
    if s == [] then 0 else DigitValue(s[0]) * Pow10(|s| - 1) + DecimalValue(s[1..])
  }

  /**
   * Python's `int(s)` on the strings it is given here: a non-empty run of
   * ASCII digits denotes its value; anything else raises, modelled as `None`.
   */
  function ParseInt(s: string): Option<nat> {
    if s != [] && AllDigits(s) then Some(DecimalValue(s)) else None
  }

  /** `id.split('v')[0].replace('.', '')`. */
  function IdKey(id: string): string {
    Replace(Split(id, 'v')[0], '.', "")
  }

  function IdNumber(id: string): Option<nat> {
    ParseInt(IdKey(id))
  }

  /** `is_earlier(ts1, ts2)`; the `except` branch is every case where a number is missing. */
  predicate IsEarlier(ts1: string, ts2: string) {
    match (IdNumber(ts1), IdNumber(ts2))
    case (Some(n1), Some(n2)) => n1 < n2
    case _ => false
  }

  /** No id is earlier than itself; the relation is asymmetric and transitive. */
  lemma IsEarlierStrictOrder(a: string, b: string, c: string)
    ensures !IsEarlier(a, a)
    ensures IsEarlier(a, b) ==> !IsEarlier(b, a)
    ensures IsEarlier(a, b) && IsEarlier(b, c) ==> IsEarlier(a, c)
  {
  }

  /** An id that does not parse is neither earlier nor later than anything. */
  lemma IsEarlierFailsClosed(a: string, b: string)
    requires IdNumber(a) == None
    ensures !IsEarlier(a, b) && !IsEarlier(b, a)
  {
  }

  /** Everything from the first `v` on is ignored. */
  lemma IdKeyIgnoresVersion(p: string, version: string)
    requires 'v' !in p
    ensures IdKey(p + ['v'] + version) == IdKey(p)
  {
    SplitFirstPiece(p, version, 'v');
  }

  /** Hence recency does not depend on the version suffix, on either side. */
  lemma IsEarlierIgnoresVersion(p: string, version: string, other: string)
    requires 'v' !in p
    ensures IsEarlier(p + ['v'] + version, other) == IsEarlier(p, other)
    ensures IsEarlier(other, p + ['v'] + version) == IsEarlier(other, p)
  {
    IdKeyIgnoresVersion(p, version);
  }

  /** A digit string of length `n` denotes a number below `10^n`. */
  lemma {:induction false} DecimalValueBound(s: string)
    requires AllDigits(s)
    ensures DecimalValue(s) < Pow10(|s|)
  {
    if s != [] {
      DecimalValueBound(s[1..]);
      var d, p := DigitValue(s[0]), Pow10(|s| - 1);
      assert DecimalValue(s) == d * p + DecimalValue(s[1..]);
      NextMultiple(d, 9, p);
      assert Pow10(|s|) == 10 * p;
    }
  }

  /** Lexicographic order of two strings of the same length. */
  predicate LexLess(a: string, b: string)
    requires |a| == |b|
  {
    a != [] && (a[0] < b[0] || (a[0] == b[0] && LexLess(a[1..], b[1..])))
  }

  /** `x * p + (something below p)` stays below `y * p` once `x < y`. */
  lemma NextMultiple(x: nat, y: nat, p: nat)
    requires x <= y
    ensures x * p + p <= y * p + p
    ensures x < y ==> x * p + p <= y * p
  {
    if x < y {
      NextMultiple(x, y - 1, p);
      assert y * p == (y - 1) * p + p;
    }
  }

  /**
   * For digit strings of equal length, comparing them as integers is the
   * same as comparing them character by character.
   */
  lemma {:induction false} DecimalOrderIsLex(a: string, b: string)
    requires |a| == |b| && AllDigits(a) && AllDigits(b)
    ensures DecimalValue(a) < DecimalValue(b) <==> LexLess(a, b)
  {
    if a != [] {
      var p := Pow10(|a| - 1);
      var da, db := DigitValue(a[0]), DigitValue(b[0]);
      var ra, rb := DecimalValue(a[1..]), DecimalValue(b[1..]);
      DecimalValueBound(a[1..]);
      DecimalValueBound(b[1..]);
      assert DecimalValue(a) == da * p + ra;
      assert DecimalValue(b) == db * p + rb;
      if da < db {
        NextMultiple(da, db, p);
      } else if db < da {
        NextMultiple(db, da, p);
      } else {
        DecimalOrderIsLex(a[1..], b[1..]);
      }
    }
  }

  /**
   * Ids whose keys have the same number of digits (for instance two ids of
   * the `YYMM.NNNNN` scheme) are ordered as their keys are ordered as text.
   */
  lemma IsEarlierSameLength(a: string, b: string)
    requires IdNumber(a).Some? && IdNumber(b).Some?
    requires |IdKey(a)| == |IdKey(b)|
    ensures IsEarlier(a, b) <==> LexLess(IdKey(a), IdKey(b))
  {
    DecimalOrderIsLex(IdKey(a), IdKey(b));
  }
}
