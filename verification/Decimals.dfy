/** Decimal numerals: what they are worth, how they sort, and that each positive
    number has one. */
module Decimals {
  import opened Strings

  predicate IsDigit(c: char) {
    '0' <= c <= '9'
  }

  predicate AllDigits(s: string) {
    forall i | 0 <= i < |s| :: IsDigit(s[i])
  }

  /** No sign, no leading zero. */
  predicate Canonical(s: string) {
    s != "" && AllDigits(s) && s[0] != '0'
  }

  function Pow10(n: nat): nat {
    if n == 0 then 1 else 10 * Pow10(n - 1)
  }

  function Digit(c: char): nat
    requires IsDigit(c)
  {
    (c - '0') as nat
  }

  function Value(s: string): nat
    requires AllDigits(s)
  {
    if s == "" then 0 else Digit(s[0]) * Pow10(|s| - 1) + Value(s[1..])
  }

  /** `strconv.FormatInt` on numbers that are not negative. */
  function Decimal(n: nat): (s: string)
    ensures s != "" && AllDigits(s)
  {
    var last := ['0' + (n % 10) as char];
    if n < 10 then last else Decimal(n / 10) + last
  }

  // ----- sizes ------------------------------------------------------------------------------

  lemma {:induction false} DigitTimes(c: char, p: nat)
    requires IsDigit(c)
    ensures Digit(c) * p <= 9 * p
    ensures c != '0' ==> p <= Digit(c) * p
  {
    var d := Digit(c);
    assert d * p + (9 - d) * p == 9 * p;
    if d > 0 {
      assert d * p == p + (d - 1) * p;
    }
  }

  lemma {:induction false} ValueBelow(s: string)
    requires AllDigits(s)
    ensures Value(s) < Pow10(|s|)
  {
    if s != "" {
      ValueBelow(s[1..]);
      DigitTimes(s[0], Pow10(|s| - 1));
    }
  }

  lemma {:induction false} PowMonotone(m: nat, n: nat)
    requires m <= n
    ensures Pow10(m) <= Pow10(n)
  {
    if m < n {
      PowMonotone(m, n - 1);
    }
  }

  // ----- the order ----------------------------------------------------------------------------

  /** Shorter first, then as text. */
  predicate ShortlexLe(a: string, b: string) {
    if |a| != |b| then |a| < |b| else StringLe(a, b)
  }

  lemma {:induction false} DigitsOrder(a: char, b: char, p: nat, x: nat, y: nat)
    requires IsDigit(a) && IsDigit(b) && x < p && y < p
    ensures a < b ==> Digit(a) * p + x < Digit(b) * p + y
  {
    if a < b {
      var d := Digit(b) - Digit(a);
      assert Digit(b) * p == Digit(a) * p + d * p;
      assert d * p == p + (d - 1) * p;
    }
  }

  lemma {:induction false} SameLengthOrder(a: string, b: string)
    requires AllDigits(a) && AllDigits(b) && |a| == |b|
    ensures StringLe(a, b) <==> Value(a) <= Value(b)
  {
    if a != "" {
      var x, y, p := Value(a[1..]), Value(b[1..]), Pow10(|a| - 1);
      SameLengthOrder(a[1..], b[1..]);
      ValueBelow(a[1..]);
      ValueBelow(b[1..]);
      DigitsOrder(a[0], b[0], p, x, y);
      DigitsOrder(b[0], a[0], p, y, x);
    }
  }

  lemma {:induction false} ShorterIsLess(a: string, b: string)
    requires AllDigits(a) && Canonical(b) && |a| < |b|
    ensures Value(a) < Value(b)
  {
    ValueBelow(a);
    PowMonotone(|a|, |b| - 1);
    DigitTimes(b[0], Pow10(|b| - 1));
  }

  /** On canonical numerals the text order is the numeric order. */
  lemma {:induction false} ShortlexIsNumeric(a: string, b: string)
    requires Canonical(a) && Canonical(b)
    ensures ShortlexLe(a, b) <==> Value(a) <= Value(b)
  {
    if |a| < |b| {
      ShorterIsLess(a, b);
    } else if |b| < |a| {
      ShorterIsLess(b, a);
    } else {
      SameLengthOrder(a, b);
    }
  }

  lemma {:induction false} StringLeAntisymmetric(a: string, b: string)
    requires StringLe(a, b) && StringLe(b, a)
    ensures a == b
  {
    if a != "" {
      StringLeAntisymmetric(a[1..], b[1..]);
      assert a == [a[0]] + a[1..] && b == [b[0]] + b[1..];
    }
  }

  lemma CanonicalUnique(a: string, b: string)
    requires Canonical(a) && Canonical(b) && Value(a) == Value(b)
    ensures a == b
  {
    ShortlexIsNumeric(a, b);
    ShortlexIsNumeric(b, a);
    StringLeAntisymmetric(a, b);
  }

  // ----- round trip -----------------------------------------------------------------------------

  lemma {:induction false} ValueAppend(s: string, c: char)
    requires AllDigits(s) && IsDigit(c)
    ensures Value(s + [c]) == 10 * Value(s) + Digit(c)
  {
    if s != "" {
      assert (s + [c])[1..] == s[1..] + [c];
      ValueAppend(s[1..], c);
      assert Digit(s[0]) * (10 * Pow10(|s| - 1)) == 10 * (Digit(s[0]) * Pow10(|s| - 1));
    }
  }

  /** A printed number reads back as itself, and as no other canonical numeral. */
  lemma {:induction false} DecimalRoundTrip(n: nat)
    ensures Value(Decimal(n)) == n
    ensures n > 0 ==> Canonical(Decimal(n))
    ensures forall s | Canonical(s) && Value(s) == n :: s == Decimal(n)
  {
    if n >= 10 {
      DecimalRoundTrip(n / 10);
      ValueAppend(Decimal(n / 10), '0' + (n % 10) as char);
    } else {
      var c := '0' + n as char;
      assert Value([c]) == Digit(c) * Pow10(0) + Value("");
    }
    forall s | Canonical(s) && Value(s) == n ensures s == Decimal(n) {
      DigitTimes(s[0], Pow10(|s| - 1));
      PowMonotone(0, |s| - 1);
      CanonicalUnique(s, Decimal(n));
    }
  }
}
