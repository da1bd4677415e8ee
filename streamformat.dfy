/**
 * The two pieces of `std::ostream` formatting the library relies on: writing
 * an integer in decimal (`stream << n`), and `std::setw(w)` with
 * `std::setfill('0')`, which left-pads the whole rendering (sign included)
 * to at least `w` characters.
 */
module StreamFormat {
  import opened Common

  predicate IsDigit(c: char)
  {
    '0' <= c <= '9'
  }

  predicate AllDigits(s: string)
  {
    forall k :: 0 <= k < |s| ==> IsDigit(s[k])
  }

  function DigitChar(d: nat): (c: char)
    requires d < 10
    ensures IsDigit(c)
  {
    "0123456789"[d]
  }

  function DigitValue(c: char): nat
    requires IsDigit(c)
  {
    c as int - '0' as int
  }

  /** The decimal digits of `n`, most significant first, without leading zeros. */
  function Digits(n: nat): (r: string)
    ensures |r| >= 1
    decreases n
  {
    if n < 10 then [DigitChar(n)] else Digits(n / 10) + [DigitChar(n % 10)]
  }

  /** `stream << i` for a signed integer. */
  function Decimal(i: int): string
  {
    if i < 0 then "-" + Digits(-i) else Digits(i)
  }

  /** The value of a string of decimal digits. */
  function ValueOf(s: string): nat
    requires AllDigits(s)
  {
    if s == [] then 0 else ValueOf(s[..|s| - 1]) * 10 + DigitValue(s[|s| - 1])
  }

  function Pow10(w: nat): (r: nat)
    ensures r >= 1
  {
    if w == 0 then 1 else 10 * Pow10(w - 1)
  }

  function Repeat(c: char, n: nat): (r: string)
    ensures |r| == n && forall k :: 0 <= k < n ==> r[k] == c
  {
    if n == 0 then [] else [c] + Repeat(c, n - 1)
  }

  /** `std::setw(w) << std::setfill(fill) << s`: right-aligned, filled on the left to width `w`. */
  function PadLeft(s: string, w: nat, fill: char): string
  {
    if |s| >= w then s else Repeat(fill, w - |s|) + s
  }

  /** A zero-padded decimal field, as written with `setfill('0') << setw(w) << i`. */
  function Field(i: int, w: nat): string
  {
    PadLeft(Decimal(i), w, '0')
  }

  // ---------------------------------------------------------------------------
  // Lemmas

  lemma DigitRoundTrip(d: nat)
    requires d < 10
    ensures DigitValue(DigitChar(d)) == d
  {
  }

  /** The rendering of a number is made of decimal digits only. */
  lemma {:induction false} DigitsAreDigits(n: nat)
    ensures AllDigits(Digits(n))
    decreases n
  {
    if n >= 10 {
      DigitsAreDigits(n / 10);
      var front := Digits(n / 10);
      var s := front + [DigitChar(n % 10)];
      forall k | 0 <= k < |s| ensures IsDigit(s[k]) {
        if k < |front| {
          assert s[k] == front[k];
        }
      }
    }
  }

  /** Reading the digits of `n` back gives `n`. */
  lemma {:induction false} DigitsRoundTrip(n: nat)
    ensures AllDigits(Digits(n)) && ValueOf(Digits(n)) == n
    decreases n
  {
    DigitsAreDigits(n);
    DigitRoundTrip(n % 10);
    if n >= 10 {
      DigitsRoundTrip(n / 10);
      var s := Digits(n / 10) + [DigitChar(n % 10)];
      assert s[..|s| - 1] == Digits(n / 10);
    }
  }

  /** The rendering has no leading zero, except for zero itself. */
  lemma {:induction false} DigitsNoLeadingZero(n: nat)
    ensures Digits(n)[0] == '0' <==> n == 0
    decreases n
  {
    if n >= 10 {
      DigitsNoLeadingZero(n / 10);
    }
  }

  /** Leading zeros do not change the value. */
  lemma {:induction false} LeadingZeros(k: nat, s: string)
    requires AllDigits(s)
    ensures AllDigits(Repeat('0', k) + s) && ValueOf(Repeat('0', k) + s) == ValueOf(s)
    decreases |s|
  {
    var t := Repeat('0', k) + s;
    if s == [] {
      assert t == Repeat('0', k);
      ZerosValue(k);
    } else {
      var init := s[..|s| - 1];
      LeadingZeros(k, init);
      assert t[..|t| - 1] == Repeat('0', k) + init;
    }
  }

  lemma {:induction false} ZerosValue(k: nat)
    ensures ValueOf(Repeat('0', k)) == 0
  {
    if k > 0 {
      var z := Repeat('0', k);
      assert z[..|z| - 1] == Repeat('0', k - 1);
      ZerosValue(k - 1);
    }
  }

  /** A number below 10^w has at most `w` digits. */
  lemma {:induction false} DigitsFit(n: nat, w: nat)
    requires n < Pow10(w)
    ensures |Digits(n)| <= Max(w, 1)
    decreases n
  {
    assert Pow10(0) == 1 && Pow10(1) == 10;
    if n >= 10 {
      DigitsFit(n / 10, w - 1);
    }
  }

  /**
   * A zero-padded field of a non-negative number below 10^w is exactly `w`
   * digits wide and reads back as the number.
   */
  lemma FieldRoundTrip(n: nat, w: nat)
    requires 1 <= w && n < Pow10(w)
    ensures |Field(n, w)| == w && AllDigits(Field(n, w))
    ensures ValueOf(Field(n, w)) == n
  {
    var d := Digits(n);
    assert Field(n, w) == PadLeft(d, w, '0');
    DigitsFit(n, w);
    DigitsRoundTrip(n);
    if |d| < w {
      LeadingZeros(w - |d|, d);
    }
  }

  /** Any zero-padded field of a natural number reads back as the number, whatever the width. */
  lemma FieldReadsBack(n: nat, w: nat)
    ensures AllDigits(Field(n, w)) && ValueOf(Field(n, w)) == n
  {
    DigitsRoundTrip(n);
    var d := Digits(n);
    if |d| < w {
      LeadingZeros(w - |d|, d);
    }
  }

  /**
   * `setw(w)` with a zero fill pads a negative number before its sign: the
   * field is zeros, then '-', then the digits of the magnitude, in
   * max(w, 1 + digits) characters.
   */
  lemma NegativeFieldPadsBeforeSign(n: int, w: nat)
    requires n < 0
    ensures var f := Field(n, w);
      var d := Digits(-n);
      && |f| == Max(w, 1 + |d|)
      && f[|f| - |d| - 1] == '-' && f[|f| - |d|..] == d
      && forall i :: 0 <= i < |f| - |d| - 1 ==> f[i] == '0'
  {
    var d := Digits(-n);
    var s := "-" + d;
    if |s| < w {
      var f := Repeat('0', w - |s|) + s;
      assert f[|f| - |d| - 1..] == s;
    }
  }
}
