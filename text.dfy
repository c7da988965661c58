/** The string operations the generator applies: decimal rendering of
    integers (`str`, `%04d`), the ISO date of a rule's selector
    (`date.isoformat()`), `str.lower()` on its titles, `str.replace(old, "")`
    and `"".join`. */
module Text {
  import opened Wrappers
  import opened Calendar

  /** `"".join(parts)`. */
  function Concat(parts: seq<string>): (s: string)
    ensures |parts| == 0 ==> s == ""
  {
    if |parts| == 0 then "" else Concat(parts[..|parts| - 1]) + parts[|parts| - 1]
  }

  // ---------------------------------------------------------------------------
  // Decimal numbers

  function DigitChar(k: int): char
    requires 0 <= k < 10
  {
    ('0' as int + k) as char
  }

  predicate IsDigit(c: char) {
    '0' <= c <= '9'
  }

  predicate AllDigits(s: string) {
    forall i :: 0 <= i < |s| ==> IsDigit(s[i])
  }

  function DigitValue(c: char): int
    requires IsDigit(c)
  {
    c as int - '0' as int
  }

  /** `str(n)` for a non-negative integer: decimal digits, no leading zero. */
  function NatToString(n: nat): (s: string)
    ensures 1 <= |s|
    ensures AllDigits(s)
    ensures |s| > 1 ==> s[0] != '0'
  {
    if n < 10 then [DigitChar(n)] else NatToString(n / 10) + [DigitChar(n % 10)]
  }

  /** `str(i)` for any integer: a minus sign before the digits of a negative. */
  function IntToString(i: int): string {
    if i < 0 then "-" + NatToString(-i) else NatToString(i)
  }

  /** `"%0*d" % (width, n)`: the digits of `n`, padded with zeros on the left. */
  function ZeroPad(n: nat, width: nat): string {
    var digits := NatToString(n);
    if |digits| >= width then digits else Zeros(width - |digits|) + digits
  }

  function Zeros(k: nat): (s: string)
    ensures |s| == k && forall i :: 0 <= i < k ==> s[i] == '0'
  {
    if k == 0 then "" else Zeros(k - 1) + "0"
  }

  /** The value of a string of decimal digits (0 for the empty string). */
  function DigitsValue(s: string): nat
    requires AllDigits(s)
  {
    if |s| == 0 then 0 else DigitsValue(s[..|s| - 1]) * 10 + DigitValue(s[|s| - 1])
  }

  /** Reads a non-empty string of decimal digits; anything else is `None`. */
  function ParseNat(s: string): Option<nat> {
    if |s| > 0 && AllDigits(s) then Some(DigitsValue(s)) else None
  }

  function Pow10(k: nat): nat {
    if k == 0 then 1 else 10 * Pow10(k - 1)
  }

  // ---------------------------------------------------------------------------
  // ISO dates

  /** `date.isoformat()`: the full-date form of section 5.6 of RFC 3339,
      `YYYY-MM-DD` with zero-padded fields. */
  function IsoDate(d: Date): string
    requires IsPythonDate(d)
  {
    ZeroPad(d.year, 4) + "-" + ZeroPad(d.month, 2) + "-" + ZeroPad(d.day, 2)
  }

  /** Reads a full-date `YYYY-MM-DD` back; `None` unless it names a date of
      Python's range. */
  function ParseIsoDate(s: string): Option<Date> {
    if |s| != 10 || s[4] != '-' || s[7] != '-' then None
    else
      match (ParseNat(s[..4]), ParseNat(s[5..7]), ParseNat(s[8..]))
      case (Some(y), Some(m), Some(d)) =>
        if IsPythonDate(Date(y, m, d)) then Some(Date(y, m, d)) else None
      case _ => None
  }

  // ---------------------------------------------------------------------------
  // Case mapping and replacement

  /** The lower-case form of a Latin or Russian capital letter; any other
      character is left as it is. */
  function LowerChar(c: char): char {
    if 'A' <= c <= 'Z' then (c as int + 0x20) as char
    else if 'А' <= c <= 'Я' then (c as int + 0x20) as char
    else if 'Ѐ' <= c <= 'Џ' then (c as int + 0x50) as char
    else c
  }

  /** `s.lower()` over Latin and Russian letters. */
  function Lower(s: string): (r: string)
    ensures |r| == |s|
    ensures forall i :: 0 <= i < |s| ==> r[i] == LowerChar(s[i])
  {
    if s == [] then [] else [LowerChar(s[0])] + Lower(s[1..])
  }

  /** `s.replace(pat, "")`: every occurrence of `pat`, found left to right
      without overlap, is removed. */
  function RemoveAll(s: string, pat: string): string
    requires |pat| > 0
    decreases |s|
  {
    if |s| < |pat| then s
    else if s[..|pat|] == pat then RemoveAll(s[|pat|..], pat)
    else [s[0]] + RemoveAll(s[1..], pat)
  }

  /** `pat` occurs in `s` starting at position `i`. */
  predicate OccursAt(pat: string, s: string, i: int) {
    0 <= i && i + |pat| <= |s| && s[i..i + |pat|] == pat
  }

  ghost predicate Occurs(pat: string, s: string) {
    exists i :: OccursAt(pat, s, i)
  }

  // ---------------------------------------------------------------------------
  // Lemmas

  /** The value of a decimal string followed by more digits. */
  lemma {:induction false} DigitsValueAppend(a: string, b: string)
    requires AllDigits(a) && AllDigits(b)
    ensures AllDigits(a + b)
    ensures DigitsValue(a + b) == DigitsValue(a) * Pow10(|b|) + DigitsValue(b)
    decreases |b|
  {
    if |b| > 0 {
      var b', c := b[..|b| - 1], b[|b| - 1];
      assert (a + b)[..|a + b| - 1] == a + b';
      assert (a + b)[|a + b| - 1] == c;
      DigitsValueAppend(a, b');
      var x, y, p := DigitsValue(a), DigitsValue(b'), Pow10(|b'|);
      assert DigitsValue(a + b) == (x * p + y) * 10 + DigitValue(c);
      assert DigitsValue(b) == y * 10 + DigitValue(c);
      assert Pow10(|b|) == p * 10;
      ShiftDigit(x, p, y, DigitValue(c));
    } else {
      assert a + b == a;
    }
  }

  /** Appending a digit to `x * p + y` multiplies the shift `p` by ten. */
  lemma ShiftDigit(x: int, p: int, y: int, v: int)
    ensures (x * p + y) * 10 + v == x * (p * 10) + (y * 10 + v)
  {
  }

  /** Leading zeros do not change the value of a decimal string. */
  lemma {:induction false} ZerosValue(k: nat)
    ensures DigitsValue(Zeros(k)) == 0
  {
    if k > 0 {
      assert Zeros(k)[..k - 1] == Zeros(k - 1);
      ZerosValue(k - 1);
    }
  }

  /** Reading back the decimal rendering gives the number. */
  lemma {:induction false} NatToStringValue(n: nat)
    ensures DigitsValue(NatToString(n)) == n
  {
    if n >= 10 {
      var s := NatToString(n);
      assert s[..|s| - 1] == NatToString(n / 10);
      NatToStringValue(n / 10);
    }
  }

  /** `str(n)` round-trips through `ParseNat`. */
  lemma NatToStringRoundTrip(n: nat)
    ensures ParseNat(NatToString(n)) == Some(n)
  {
    NatToStringValue(n);
  }

  /** A number below `10^w` needs at most `w` digits. */
  lemma {:induction false} NatToStringLength(n: nat, w: nat)
    requires 1 <= w && n < Pow10(w)
    ensures |NatToString(n)| <= w
  {
    if n >= 10 {
      assert w >= 2;
      NatToStringLength(n / 10, w - 1);
    }
  }

  /** Zero-padding to width `w` a number below `10^w` gives exactly `w`
      digits, and they read back as the number. */
  lemma ZeroPadRoundTrip(n: nat, w: nat)
    requires 1 <= w && n < Pow10(w)
    ensures |ZeroPad(n, w)| == w
    ensures ParseNat(ZeroPad(n, w)) == Some(n)
  {
    NatToStringLength(n, w);
    NatToStringValue(n);
    var digits := NatToString(n);
    if |digits| < w {
      var zeros := Zeros(w - |digits|);
      ZerosValue(w - |digits|);
      DigitsValueAppend(zeros, digits);
      assert DigitsValue(zeros) * Pow10(|digits|) == 0;
      assert ZeroPad(n, w) == zeros + digits;
    } else {
      assert ZeroPad(n, w) == digits;
    }
  }

  /** Reads `str(i)` back: an optional minus sign before decimal digits. */
  function ParseInt(s: string): Option<int> {
    if |s| > 0 && s[0] == '-' then
      match ParseNat(s[1..])
      case Some(n) => Some(0 - n as int)
      case None => None
    else
      match ParseNat(s)
      case Some(n) => Some(n)
      case None => None
  }

  /** `str(i)` round-trips through `ParseInt`. */
  lemma IntToStringRoundTrip(i: int)
    ensures ParseInt(IntToString(i)) == Some(i)
  {
    if i < 0 {
      NatToStringRoundTrip(-i);
      assert IntToString(i)[1..] == NatToString(-i);
    } else {
      NatToStringRoundTrip(i);
    }
  }

  /** `"".join` of two lists is the join of the first followed by the
      join of the second. */
  lemma {:induction false} ConcatAppend(a: seq<string>, b: seq<string>)
    ensures Concat(a + b) == Concat(a) + Concat(b)
    decreases |b|
  {
    if |b| == 0 {
      assert a + b == a;
    } else {
      assert (a + b)[..|a + b| - 1] == a + b[..|b| - 1];
      ConcatAppend(a, b[..|b| - 1]);
    }
  }

  /** Every Python date's ISO form is ten characters long and reads back as
      the same date, so distinct dates have distinct ISO forms. */
  lemma IsoDateRoundTrip(d: Date)
    requires IsPythonDate(d)
    ensures |IsoDate(d)| == 10
    ensures ParseIsoDate(IsoDate(d)) == Some(d)
  {
    assert Pow10(2) == 100 && Pow10(4) == 10000;
    ZeroPadRoundTrip(d.year, 4);
    ZeroPadRoundTrip(d.month, 2);
    ZeroPadRoundTrip(d.day, 2);
    var s := IsoDate(d);
    assert s[..4] == ZeroPad(d.year, 4);
    assert s[5..7] == ZeroPad(d.month, 2);
    assert s[8..] == ZeroPad(d.day, 2);
  }

  /** Distinct dates are keyed by distinct selectors. */
  lemma IsoDateInjective(a: Date, b: Date)
    requires IsPythonDate(a) && IsPythonDate(b)
    ensures IsoDate(a) == IsoDate(b) <==> a == b
  {
    IsoDateRoundTrip(a);
    IsoDateRoundTrip(b);
  }

  /** Lower-casing is idempotent: a lower-cased title stays as it is. */
  lemma LowerIdempotent(s: string)
    ensures Lower(Lower(s)) == Lower(s)
  {
  }

  /** Removing a pattern that does not occur leaves the string unchanged. */
  lemma {:induction false} RemoveAllAbsent(s: string, pat: string)
    requires |pat| > 0 && !Occurs(pat, s)
    ensures RemoveAll(s, pat) == s
    decreases |s|
  {
    if |s| >= |pat| {
      assert !OccursAt(pat, s, 0);
      assert s[0..|pat|] == s[..|pat|];
      assert !Occurs(pat, s[1..]) by {
        forall i | OccursAt(pat, s[1..], i)
          ensures OccursAt(pat, s, i + 1)
        {
          assert s[1..][i..i + |pat|] == s[i + 1..i + 1 + |pat|];
        }
      }
      RemoveAllAbsent(s[1..], pat);
      assert s == [s[0]] + s[1..];
    }
  }

  /** Removal never lengthens a string. */
  lemma {:induction false} RemoveAllShortens(s: string, pat: string)
    requires |pat| > 0
    ensures |RemoveAll(s, pat)| <= |s|
    decreases |s|
  {
    if |s| >= |pat| {
      if s[..|pat|] == pat {
        RemoveAllShortens(s[|pat|..], pat);
      } else {
        RemoveAllShortens(s[1..], pat);
      }
    }
  }
}
