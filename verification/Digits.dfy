/**
 Positional notation as `utoa64` writes it, and its inverse: evaluating the digits.
 */
module Digits {
  import opened Bits

  const DIGITS_LOWER: string := "0123456789abcdef"
  const DIGITS_UPPER: string := "0123456789ABCDEF"

  /** The radix used: anything outside 2..16 is replaced by 10. */
  function Radix(radix: int): (r: nat)
    ensures 2 <= r <= 16
  {
    if radix < 2 || radix > 16 then 10 else radix
  }

  function DigitChar(d: nat, upper: bool): char
    requires d < 16
  {
    if upper then DIGITS_UPPER[d] else DIGITS_LOWER[d]
  }

  /** The value of a digit character in either case. */
  function DigitValue(ch: char): nat {
    if '0' <= ch <= '9' then ch as nat - '0' as nat
    else if 'a' <= ch <= 'f' then ch as nat - 'a' as nat + 10
    else if 'A' <= ch <= 'F' then ch as nat - 'A' as nat + 10
    else 16
  }

  lemma DigitRoundTrip(d: nat, upper: bool)
    requires d < 16
    ensures DigitValue(DigitChar(d, upper)) == d
    ensures DigitChar(d, upper) == '0' <==> d == 0
  {
  }

  /** Most significant digit first; 0 is written as one digit. */
  function Numeral(n: nat, radix: nat, upper: bool): (s: string)
    requires 2 <= radix <= 16
    ensures |s| >= 1
  {
    if n < radix then [DigitChar(n, upper)] else Numeral(n / radix, radix, upper) + [DigitChar(n % radix, upper)]
  }

  function Value(s: string, radix: nat): nat {
    if s == [] then 0 else Value(s[..|s| - 1], radix) * radix + DigitValue(s[|s| - 1])
  }

  lemma ValueAppend(s: string, ch: char, radix: nat)
    ensures Value(s + [ch], radix) == Value(s, radix) * radix + DigitValue(ch)
  {
    hide DigitValue;
    assert (s + [ch])[..|s|] == s;
  }

  /** Evaluating the written digits gives the number back. */
  lemma {:induction false} NumeralRoundTrip(n: nat, radix: nat, upper: bool)
    requires 2 <= radix <= 16
    ensures Value(Numeral(n, radix, upper), radix) == n
    decreases n
  {
    hide DigitChar, DigitValue, Value;
    if n < radix {
      DigitRoundTrip(n, upper);
      ValueAppend([], DigitChar(n, upper), radix);
      assert [] + [DigitChar(n, upper)] == [DigitChar(n, upper)];
      ValueOfNone(radix);
    } else {
      NumeralRoundTrip(n / radix, radix, upper);
      DigitRoundTrip(n % radix, upper);
      ValueAppend(Numeral(n / radix, radix, upper), DigitChar(n % radix, upper), radix);
      DivModWhole(n, radix);
    }
  }

  lemma ValueOfNone(radix: nat)
    ensures Value([], radix) == 0 && 0 * radix == 0
  {
  }

  /** Every character is a digit of the radix, and the first is '0' only for the number 0. */
  lemma {:induction false} NumeralDigits(n: nat, radix: nat, upper: bool)
    requires 2 <= radix <= 16
    ensures AllDigits(Numeral(n, radix, upper), radix)
    ensures Numeral(n, radix, upper)[0] == '0' <==> n == 0
    decreases n
  {
    hide DigitChar, DigitValue;
    if n < radix {
      DigitRoundTrip(n, upper);
    } else {
      NumeralDigits(n / radix, radix, upper);
      DigitRoundTrip(n % radix, upper);
    }
  }

  predicate AllDigits(s: string, radix: nat) {
    forall i :: 0 <= i < |s| ==> DigitValue(s[i]) < radix
  }

  /** A decimal digit, or a letter of the case asked for. */
  predicate Cased(ch: char, upper: bool) {
    '0' <= ch <= '9' || (if upper then 'A' <= ch <= 'F' else 'a' <= ch <= 'f')
  }

  /** The text of n in the radix: digits of that radix in one case, worth n, without a leading zero. */
  ghost predicate Writes(s: string, n: nat, radix: nat, upper: bool) {
    && s != [] && AllDigits(s, radix) && Value(s, radix) == n && (s == "0" || s[0] != '0')
    && forall i :: 0 <= i < |s| ==> Cased(s[i], upper)
  }

  lemma {:induction false} NumeralWrites(n: nat, radix: nat, upper: bool)
    requires 2 <= radix <= 16
    ensures Writes(Numeral(n, radix, upper), n, radix, upper)
  {
    hide Numeral, Value, Cased, DigitValue;
    NumeralDigits(n, radix, upper);
    NumeralRoundTrip(n, radix, upper);
    NumeralCased(n, radix, upper);
    if n == 0 {
      NumeralOfZero(radix, upper);
    }
  }

  lemma NumeralOfZero(radix: nat, upper: bool)
    requires 2 <= radix <= 16
    ensures Numeral(0, radix, upper) == "0"
  {
  }

  lemma NumeralParts(n: nat, radix: nat, upper: bool)
    requires 2 <= radix <= 16
    ensures n < radix ==> Numeral(n, radix, upper) == [DigitChar(n, upper)]
    ensures n >= radix ==>
              && n / radix < n && n % radix < 16
              && Numeral(n, radix, upper) == Numeral(n / radix, radix, upper) + [DigitChar(n % radix, upper)]
  {
    hide DigitChar;
    DivModWhole(n, radix);
    ProductAtLeast(n / radix, 2, radix);
  }

  lemma {:induction false} NumeralCased(n: nat, radix: nat, upper: bool)
    requires 2 <= radix <= 16
    ensures forall i :: 0 <= i < |Numeral(n, radix, upper)| ==> Cased(Numeral(n, radix, upper)[i], upper)
    decreases n
  {
    hide DigitChar, Cased, Numeral;
    NumeralParts(n, radix, upper);
    if n < radix {
      DigitCased(n, upper);
    } else {
      DigitCased(n % radix, upper);
      NumeralCased(n / radix, radix, upper);
    }
  }

  /** A digit character is the one of its value in its case. */
  lemma DigitCased(d: nat, upper: bool)
    requires d < 16
    ensures Cased(DigitChar(d, upper), upper)
    ensures forall ch :: Cased(ch, upper) && DigitValue(ch) == d ==> ch == DigitChar(d, upper)
  {
  }

  /** There is only one such text. */
  lemma {:induction false} NumeralUnique(s: string, n: nat, radix: nat, upper: bool)
    requires 2 <= radix <= 16 && Writes(s, n, radix, upper)
    ensures s == Numeral(n, radix, upper)
    decreases |s|
  {
    hide Value, Cased, DigitValue, DigitChar;
    var front, last := s[..|s| - 1], s[|s| - 1];
    assert s == front + [last];
    ValueAppend(front, last, radix);
    DigitCased(DigitValue(last), upper);
    if front == [] {
      ValueOfNone(radix);
    } else {
      Positive(front, radix);
      OneMoreDigit(Value(front, radix), radix, DigitValue(last));
      NumeralUnique(front, Value(front, radix), radix, upper);
    }
  }

  lemma {:induction false} Positive(s: string, radix: nat)
    requires s != [] && s[0] != '0' && AllDigits(s, radix) && 2 <= radix <= 16
    ensures Value(s, radix) > 0
  {
    hide Value;
    var front, last := s[..|s| - 1], s[|s| - 1];
    assert s == front + [last];
    ValueAppend(front, last, radix);
    if front == [] {
      ValueOfNone(radix);
    } else {
      Positive(front, radix);
      OneMoreDigit(Value(front, radix), radix, DigitValue(last));
    }
  }

  lemma OneMoreDigit(v: nat, radix: nat, d: nat)
    requires v > 0 && d < radix
    ensures var n := v * radix + d; n >= radix && n / radix == v && n % radix == d
  {
    DivModUnique(v * radix + d, radix, v, d);
    ProductAtLeast(radix, 1, v);
  }

  /** A number below 2^k has at most k digits in any radix. */
  lemma {:induction false} NumeralLength(n: nat, radix: nat, upper: bool, k: nat)
    requires 2 <= radix <= 16 && k > 0 && n < Pow2(k)
    ensures |Numeral(n, radix, upper)| <= k
    decreases k
  {
    if n >= radix {
      HalfOrLess(n, radix, k);
      NumeralLength(n / radix, radix, upper, k - 1);
    }
  }

  lemma HalfOrLess(n: nat, radix: nat, k: nat)
    requires radix >= 2 && k > 0 && radix <= n < Pow2(k)
    ensures k > 1 && n / radix < Pow2(k - 1)
  {
    var q := n / radix;
    assert Pow2(k) == 2 * Pow2(k - 1);
    DivModWhole(n, radix);
    ProductAtLeast(q, 2, radix);
  }

  // Reading in the documented radix

  /** Reading base-10 digits in a radix above 16 gives at least the number, and more once there are two digits. */
  lemma {:induction false} ReadHigher(n: nat, radix: nat, upper: bool)
    requires radix > 16
    ensures Value(Numeral(n, 10, upper), radix) >= n
    ensures Value(Numeral(n, 10, upper), radix) == n <==> n < 10
    decreases n
  {
    hide DigitChar, DigitValue, Value;
    if n < 10 {
      OneDigit(n, radix, upper);
    } else {
      var q, d := n / 10, n % 10;
      ReadHigher(q, radix, upper);
      DigitRoundTrip(d, upper);
      ValueAppend(Numeral(q, 10, upper), DigitChar(d, upper), radix);
      var v := Value(Numeral(q, 10, upper), radix);
      Larger(v, q, radix);
    }
  }

  lemma OneDigit(n: nat, radix: nat, upper: bool)
    requires n < 16
    ensures Value([DigitChar(n, upper)], radix) == n
  {
    hide DigitChar, DigitValue, Value;
    DigitRoundTrip(n, upper);
    ValueAppend([], DigitChar(n, upper), radix);
    assert [] + [DigitChar(n, upper)] == [DigitChar(n, upper)];
    ValueOfNone(radix);
  }

  lemma Larger(v: nat, q: nat, radix: nat)
    requires v >= q >= 1 && radix > 16
    ensures v * radix > 10 * q
  {
    ProductAtLeast(v, 17, radix);
  }

  /**
   The header documents radix 2 to 36. Reading the output in the radix asked for gives the number back
   exactly up to radix 16, or for one-digit numbers.
   */
  lemma DocumentedRadix(n: nat, radix: nat, upper: bool)
    requires 2 <= radix <= 36
    ensures Value(Numeral(n, Radix(radix), upper), radix) == n <==> radix <= 16 || n < 10
  {
    hide Numeral, Value;
    if radix <= 16 {
      NumeralRoundTrip(n, radix, upper);
    } else {
      ReadHigher(n, radix, upper);
    }
  }

  /** For instance 35 in radix 36 comes out as "35", which reads as 113. */
  lemma RadixThirtySix()
    ensures Numeral(35, Radix(36), false) == "35" && Value("35", 36) == 113
  {
    assert Numeral(35, 10, false) == Numeral(3, 10, false) + [DigitChar(5, false)];
    assert "35"[..1] == "3" && "3"[..0] == "";
    assert Value("3", 36) == 3;
  }

  function Repeat(ch: char, n: nat): (s: string)
    ensures |s| == n && forall i :: 0 <= i < n ==> s[i] == ch
  {
    seq(n, _ => ch)
  }

  /** Leading zeros do not change the value. */
  lemma {:induction false} LeadingZeros(k: nat, s: string, radix: nat)
    ensures Value(Repeat('0', k) + s, radix) == Value(s, radix)
    decreases k + |s|
  {
    var z := Repeat('0', k) + s;
    if s != [] {
      assert z[..|z| - 1] == Repeat('0', k) + s[..|s| - 1];
      LeadingZeros(k, s[..|s| - 1], radix);
    } else if k > 0 {
      assert z[..|z| - 1] == Repeat('0', k - 1) + s;
      LeadingZeros(k - 1, s, radix);
    }
  }
}
