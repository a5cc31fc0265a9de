/**
 The number formatter of `kernel/lib/src/str_utils.c`: conversion into a character buffer
 by filling and reversing in place, and the printf layout around it.
 */
module NumberFormat {
  import opened Bits
  import opened Digits

  const MAX_DIGIT_BUFFER_SIZE: nat := 255
  const INT64_LIMIT: int := 0x8000_0000_0000_0000

  function Reversed<T>(s: seq<T>): (r: seq<T>)
    ensures |r| == |s| && forall i :: 0 <= i < |s| ==> r[i] == s[|s| - 1 - i]
  {
    seq(|s|, i requires 0 <= i < |s| => s[|s| - 1 - i])
  }

  /** `reverse_str`. */
  method ReverseStr(str: array<char>, n: nat)
    requires n <= str.Length
    modifies str
    ensures str[..n] == Reversed(old(str[..n]))
    ensures forall k :: n <= k < str.Length ==> str[k] == old(str[k])
  {
    var i, j := 0, n - 1;
    while i < j
      invariant 0 <= i <= n && j == n - 1 - i && i <= j + 2
      invariant forall k :: 0 <= k < i || j < k < n ==> str[k] == old(str[n - 1 - k])
      invariant forall k :: i <= k <= j || n <= k < str.Length ==> str[k] == old(str[k])
    {
      str[i], str[j] := str[j], str[i];
      i, j := i + 1, j - 1;
    }
  }

  lemma ReversedAppend<T>(s: seq<T>, x: T)
    ensures Reversed(s + [x]) == [x] + Reversed(s)
  {
  }

  /** The digit loop of `utoa64` and `itoa64`: least significant digit first. */
  method DigitsBackwards(num: nat, str: array<char>, radix: nat, upper: bool) returns (i: nat)
    requires 2 <= radix <= 16 && |Numeral(num, radix, upper)| <= str.Length
    modifies str
    ensures 1 <= i <= str.Length && Reversed(str[..i]) == Numeral(num, radix, upper)
    ensures forall k :: i <= k < str.Length ==> str[k] == old(str[k])
  {
    hide DigitChar, Reversed, Numeral, Rest;
    RestOf(num, radix, upper);
    i := 0;
    if num == 0 {
      str[0] := '0';
      i := 1;
      assert str[..1] == ['0'];
      ZeroNumeral(radix, upper);
      return;
    }
    var n: nat := num;
    NothingYet(str[..0]);
    while n > 0
      invariant 0 <= i <= str.Length && (n == 0 ==> i > 0)
      invariant forall k :: i <= k < str.Length ==> str[k] == old(str[k])
      invariant Numeral(num, radix, upper) == Rest(n, radix, upper) + Reversed(str[..i])
    {
      var digit, rest := LastDigit(n, radix, upper);
      str[i] := digit;
      ghost var before := str[..i];
      i := i + 1;
      assert str[..i] == before + [digit];
      ReversedAppend(before, digit);
      Regroup(Rest(rest, radix, upper), [digit], Reversed(before));
      n := rest;
    }
    assert [] + Reversed(str[..i]) == Reversed(str[..i]);
  }

  /** One iteration: the character for `num % radix`, and `num / radix`. */
  method LastDigit(n: nat, radix: nat, upper: bool) returns (digit: char, rest: nat)
    requires 2 <= radix <= 16 && n > 0
    ensures rest < n && Rest(n, radix, upper) == Rest(rest, radix, upper) + [digit]
  {
    hide DigitChar, Rest;
    NumeralStep(n, radix, upper);
    DigitIs(n % radix, upper);
    var digits := if upper then DIGITS_UPPER else DIGITS_LOWER;
    digit := digits[n % radix];
    rest := n / radix;
  }

  /** The digits still to come. */
  ghost function Rest(n: nat, radix: nat, upper: bool): string
    requires 2 <= radix <= 16
  {
    if n == 0 then [] else Numeral(n, radix, upper)
  }

  lemma RestOf(num: nat, radix: nat, upper: bool)
    requires 2 <= radix <= 16
    ensures Rest(0, radix, upper) == [] && (num > 0 ==> Rest(num, radix, upper) == Numeral(num, radix, upper))
    ensures Numeral(num, radix, upper) + [] == Numeral(num, radix, upper)
  {
  }

  lemma Regroup<T>(a: seq<T>, b: seq<T>, c: seq<T>)
    ensures (a + b) + c == a + (b + c)
  {
  }

  lemma NumeralStep(n: nat, radix: nat, upper: bool)
    requires 2 <= radix <= 16 && n > 0
    ensures Rest(n, radix, upper) == Rest(n / radix, radix, upper) + [DigitChar(n % radix, upper)]
    ensures n / radix < n && 0 <= n % radix < 16
  {
    hide DigitChar;
    SmallQuotient(n, radix);
  }

  lemma SmallQuotient(n: nat, radix: nat)
    requires radix >= 2 && n > 0
    ensures n / radix < n && 0 <= n % radix < radix
    ensures if n < radix then n / radix == 0 && n % radix == n else n / radix > 0
  {
    DivModWhole(n, radix);
    if n < radix {
      DivModUnique(n, radix, 0, n);
    } else {
      Quotient(n / radix, n % radix, radix);
    }
  }

  lemma Quotient(q: nat, r: nat, radix: nat)
    requires radix >= 2 && r < radix && q * radix + r >= radix
    ensures 0 < q < q * radix + r
  {
    ProductAtLeast(q, 2, radix);
  }

  lemma DigitIs(d: nat, upper: bool)
    requires d < 16
    ensures DigitChar(d, upper) == (if upper then DIGITS_UPPER else DIGITS_LOWER)[d]
  {
  }

  lemma ZeroNumeral(radix: nat, upper: bool)
    requires 2 <= radix <= 16
    ensures Reversed(['0']) == ['0'] == Numeral(0, radix, upper)
  {
  }

  lemma NothingYet(s: string)
    requires |s| == 0
    ensures Reversed(s) == []
  {
  }

  /** `utoa64`: the digits and a terminating zero; the rest of the buffer keeps its contents. */
  method Utoa64(num: nat, str: array<char>, radix: int, upper: bool) returns (i: nat)
    requires num < Pow2(64) && |Numeral(num, Radix(radix), upper)| < str.Length
    modifies str
    ensures i < str.Length && str[..i] == Numeral(num, Radix(radix), upper) && str[i] == '\0'
    ensures forall k :: i < k < str.Length ==> str[k] == old(str[k])
  {
    hide Numeral, Reversed;
    var r := if radix < 2 || radix > 16 then 10 else radix;
    i := DigitsBackwards(num, str, r, upper);
    Finish(str, i);
  }

  /** The end of `utoa64` and `itoa64`. */
  method Finish(str: array<char>, i: nat)
    requires i < str.Length
    modifies str
    ensures str[..i] == Reversed(old(str[..i])) && str[i] == '\0'
    ensures forall k :: i < k < str.Length ==> str[k] == old(str[k])
  {
    hide Reversed;
    ReverseStr(str, i);
    str[i] := '\0';
  }

  /** The magnitude, computed so that the smallest 64-bit integer does not overflow. */
  function Magnitude(num: int): (n: nat)
    requires -INT64_LIMIT <= num < INT64_LIMIT
    ensures n == if num < 0 then -num else num
    ensures n < WORD_LIMIT
  {
    if num < 0 then -(num + 1) + 1 else num
  }

  /** The bits of a signed 64-bit integer read as an unsigned one. */
  function AsUnsigned(num: int): (n: nat)
    requires -INT64_LIMIT <= num < INT64_LIMIT
    ensures n < WORD_LIMIT
  {
    if num < 0 then num + WORD_LIMIT else num
  }

  /** What `itoa64` writes: a minus sign in radix 10 only, two's complement in the others. */
  function SignedNumeral(num: int, radix: int): string
    requires -INT64_LIMIT <= num < INT64_LIMIT
  {
    var r := Radix(radix);
    if num < 0 && r == 10 then "-" + Numeral(Magnitude(num), r, false) else Numeral(AsUnsigned(num), r, false)
  }

  method Itoa64(num: int, str: array<char>, radix: int) returns (i: nat)
    requires -INT64_LIMIT <= num < INT64_LIMIT && |SignedNumeral(num, radix)| < str.Length
    modifies str
    ensures i < str.Length && str[..i] == SignedNumeral(num, radix) && str[i] == '\0'
    ensures forall k :: i < k < str.Length ==> str[k] == old(str[k])
  {
    hide Numeral, Reversed;
    var r := if radix < 2 || radix > 16 then 10 else radix;
    var negative := num < 0 && r == 10;
    var n := if negative then -(num + 1) + 1 else AsUnsigned(num);
    i := DigitsBackwards(n, str, r, false);
    assert |Reversed(str[..i])| == i;
    if negative {
      ghost var digits := str[..i];
      str[i] := '-';
      i := i + 1;
      assert str[..i] == digits + ['-'];
      ReversedAppend(digits, '-');
    }
    Finish(str, i);
  }

  // The printf layout

  /** `struct fmt_spec`, the flags one by one; a negative width or precision means it was not given. */
  datatype Spec = Spec(left: bool, plus: bool, space: bool, hash: bool, zero: bool, upper: bool, width: int, precision: int)

  function Zeros(digits: nat, spec: Spec): nat {
    var precision := if spec.precision < 0 then 1 else spec.precision;
    if digits < precision then precision - digits else 0
  }

  /** How far the width exceeds what there is to print. */
  function Padding(lead: nat, digits: nat, spec: Spec): nat {
    var total := lead + digits + Zeros(digits, spec);
    if spec.width > total then spec.width - total else 0
  }

  predicate ZeroPadded(spec: Spec) {
    spec.zero && !spec.left && spec.precision < 0
  }

  /** Blanks, then sign or prefix, then zeros, then digits, then blanks. */
  function Layout(lead: string, digits: string, spec: Spec): string {
    var pad := Padding(|lead|, |digits|, spec);
    Repeat(' ', if spec.left || ZeroPadded(spec) then 0 else pad)
    + lead
    + Repeat('0', if ZeroPadded(spec) then pad else 0)
    + Repeat('0', Zeros(|digits|, spec))
    + digits
    + Repeat(' ', if spec.left then pad else 0)
  }

  /** The radix mark `format_unsigned` adds with the '#' flag. */
  function Prefix(num: nat, radix: int, spec: Spec): string {
    if !spec.hash || num == 0 then ""
    else if radix == 16 then (if spec.upper then "0X" else "0x")
    else if radix == 8 then "0"
    else if radix == 2 then (if spec.upper then "0B" else "0b")
    else ""
  }

  function Sign(num: int, spec: Spec): string {
    if num < 0 then "-" else if spec.plus then "+" else if spec.space then " " else ""
  }

  function Unsigned(num: nat, radix: int, spec: Spec): string {
    Layout(Prefix(num, radix, spec), Numeral(num, Radix(radix), spec.upper), spec)
  }

  function Signed(num: int, radix: int, spec: Spec): string
    requires -INT64_LIMIT <= num < INT64_LIMIT
  {
    Layout(Sign(num, spec), Numeral(Magnitude(num), Radix(radix), false), spec)
  }

  // The same, read off the output

  /**
   The output: blanks on one side, `lead`, zeros and digits. Zeros make up the precision, or the width if '0' is
   given without '-' and without a precision; blanks make up what the width still lacks.
   */
  ghost predicate Form(out: string, a: nat, lead: string, z: nat, digits: string, b: nat, spec: Spec) {
    && out == Repeat(' ', a) + (lead + Repeat('0', z) + digits) + Repeat(' ', b)
    && z == Max(0, if spec.zero && !spec.left && spec.precision < 0 then spec.width - |lead| - |digits|
                   else spec.precision - |digits|)
    && a + b == Max(0, spec.width - |lead| - z - |digits|)
    && (if spec.left then a == 0 else b == 0)
  }

  /** The mark of the radix: asked for by '#', never on 0, and only in radix 16, 2 and 8. */
  ghost predicate IsMark(mark: string, num: nat, radix: int, spec: Spec) {
    && (spec.hash && num != 0 && radix == 16 ==> mark == ['0', if spec.upper then 'X' else 'x'])
    && (spec.hash && num != 0 && radix == 2 ==> mark == ['0', if spec.upper then 'B' else 'b'])
    && (spec.hash && num != 0 && radix == 8 ==> mark == ['0'])
    && (!spec.hash || num == 0 || (radix != 16 && radix != 2 && radix != 8) ==> mark == [])
  }

  /** A minus before a negative number; before the others what the flags ask for, '+' before ' '. */
  ghost predicate IsSign(sign: string, num: int, spec: Spec) {
    && (num < 0 ==> sign == ['-'])
    && (num >= 0 && spec.plus ==> sign == ['+'])
    && (num >= 0 && !spec.plus && spec.space ==> sign == [' '])
    && (num >= 0 && !spec.plus && !spec.space ==> sign == [])
  }

  ghost predicate UnsignedForm(out: string, num: nat, radix: int, spec: Spec) {
    exists a: nat, mark: string, z: nat, digits: string, b: nat :: Form(out, a, mark, z, digits, b, spec) &&
      IsMark(mark, num, radix, spec) && Writes(digits, num, Radix(radix), spec.upper)
  }

  ghost predicate SignedForm(out: string, num: int, radix: int, spec: Spec) {
    exists a: nat, sign: string, z: nat, digits: string, b: nat :: Form(out, a, sign, z, digits, b, spec) &&
      IsSign(sign, num, spec) && Writes(digits, if num < 0 then -num else num, Radix(radix), false)
  }

  /** What the layout comes to. */
  lemma LayoutForm(lead: string, digits: string, spec: Spec) returns (a: nat, z: nat, b: nat)
    requires digits != []
    ensures Form(Layout(lead, digits, spec), a, lead, z, digits, b, spec)
  {
    a, z, b := LayoutCore(lead, digits, spec);
  }

  lemma UnsignedIs(num: nat, radix: int, spec: Spec)
    ensures UnsignedForm(Unsigned(num, radix, spec), num, radix, spec)
  {
    hide Form, Writes, Layout;
    var mark, digits := Prefix(num, radix, spec), Numeral(num, Radix(radix), spec.upper);
    NumeralWrites(num, Radix(radix), spec.upper);
    var a, z, b := LayoutForm(mark, digits, spec);
    assert Form(Unsigned(num, radix, spec), a, mark, z, digits, b, spec) && IsMark(mark, num, radix, spec);
  }

  lemma SignedIs(num: int, radix: int, spec: Spec)
    requires -INT64_LIMIT <= num < INT64_LIMIT
    ensures SignedForm(Signed(num, radix, spec), num, radix, spec)
  {
    hide Form, Writes, Layout;
    var sign, digits := Sign(num, spec), Numeral(Magnitude(num), Radix(radix), false);
    NumeralWrites(Magnitude(num), Radix(radix), false);
    var a, z, b := LayoutForm(sign, digits, spec);
    assert Form(Signed(num, radix, spec), a, sign, z, digits, b, spec) && IsSign(sign, num, spec);
  }

  /** A loop that writes n copies of a character. */
  method PutRun(buf: array<char>, pos: nat, ch: char, n: nat) returns (end: nat)
    requires pos + n <= buf.Length
    modifies buf
    ensures end == pos + n && buf[..end] == old(buf[..pos]) + Repeat(ch, n)
  {
    end := pos;
    for i := 0 to n
      invariant end == pos + i && buf[..pos] == old(buf[..pos])
      invariant forall k :: pos <= k < end ==> buf[k] == ch
    {
      buf[end] := ch;
      end := end + 1;
    }
  }

  /** A loop that copies characters. */
  method PutAll(buf: array<char>, pos: nat, s: string) returns (end: nat)
    requires pos + |s| <= buf.Length
    modifies buf
    ensures end == pos + |s| && buf[..end] == old(buf[..pos]) + s
  {
    end := pos;
    for i := 0 to |s|
      invariant end == pos + i && buf[..pos] == old(buf[..pos])
      invariant forall k :: 0 <= k < i ==> buf[pos + k] == s[k]
    {
      buf[end] := s[i];
      end := end + 1;
    }
  }

  /** The part that `format_unsigned` and `format_signed` share, from the padding computation on. */
  method Build(buf: array<char>, lead: string, digits: string, spec: Spec) returns (pos: nat)
    requires |Layout(lead, digits, spec)| < buf.Length
    modifies buf
    ensures pos < buf.Length && buf[..pos] == Layout(lead, digits, spec) && buf[pos] == '\0'
  {
    hide Layout, Front, Repeat;
    var precision := spec.precision;
    if precision < 0 {
      precision := 1;
    }
    var numZeros := 0;
    if |digits| < precision {
      numZeros := precision - |digits|;
    }
    var totalLen := |lead| + (|digits| + numZeros);
    var padding := 0;
    if spec.width > totalLen {
      padding := spec.width - totalLen;
    }
    var zeroPad := 0;
    if spec.zero && !spec.left && spec.precision < 0 {
      zeroPad := padding;
      padding := 0;
    }
    LayoutParts(lead, digits, spec);
    pos := Place(buf, if spec.left then 0 else padding, lead, zeroPad, numZeros, digits);
    if spec.left {
      pos := PutRun(buf, pos, ' ', padding);
    }
    buf[pos] := '\0';
  }

  /** The layout up to the last digit. */
  ghost function Front(blanks: nat, lead: string, zeroPad: nat, numZeros: nat, digits: string): string {
    Repeat(' ', blanks) + lead + Repeat('0', zeroPad) + Repeat('0', numZeros) + digits
  }

  lemma LayoutParts(lead: string, digits: string, spec: Spec)
    ensures var pad, z := Padding(|lead|, |digits|, spec), Zeros(|digits|, spec);
            var front := Front(if spec.left || ZeroPadded(spec) then 0 else pad, lead,
                               if ZeroPadded(spec) then pad else 0, z, digits);
            Layout(lead, digits, spec) == if spec.left then front + Repeat(' ', pad) else front
  {
    assert forall s: string {:trigger s + Repeat(' ', 0)} :: s + Repeat(' ', 0) == s;
  }

  method Place(buf: array<char>, blanks: nat, lead: string, zeroPad: nat, numZeros: nat, digits: string)
    returns (pos: nat)
    requires |Front(blanks, lead, zeroPad, numZeros, digits)| < buf.Length
    modifies buf
    ensures pos < buf.Length && buf[..pos] == Front(blanks, lead, zeroPad, numZeros, digits)
  {
    hide Repeat;
    pos := PutRun(buf, 0, ' ', blanks);
    assert buf[..pos] == Repeat(' ', blanks);
    pos := PutAll(buf, pos, lead);
    pos := PutRun(buf, pos, '0', zeroPad);
    pos := PutRun(buf, pos, '0', numZeros);
    pos := PutAll(buf, pos, digits);
  }

  /** `format_unsigned`. The local digit buffer is always large enough. */
  method FormatUnsigned(num: nat, buf: array<char>, radix: int, spec: Spec) returns (pos: nat)
    requires num < WORD_LIMIT && |Unsigned(num, radix, spec)| < buf.Length
    modifies buf
    ensures pos < buf.Length && buf[..pos] == Unsigned(num, radix, spec) && buf[pos] == '\0'
    ensures UnsignedForm(buf[..pos], num, radix, spec)
  {
    hide Numeral, Layout, UnsignedForm;
    UnsignedIs(num, radix, spec);
    var numbuf := new char[MAX_DIGIT_BUFFER_SIZE];
    PowersOfTwo();
    NumeralLength(num, Radix(radix), spec.upper, 64);
    NumeralDigits(num, Radix(radix), spec.upper);
    var numlen := Utoa64(num, numbuf, radix, spec.upper);
    var prefix := "";
    if spec.hash {
      if radix == 16 && num != 0 {
        prefix := if spec.upper then "0X" else "0x";
      } else if radix == 8 && num != 0 && numbuf[0] != '0' {
        prefix := "0";
      } else if radix == 2 && num != 0 {
        prefix := if spec.upper then "0B" else "0b";
      }
    }
    assert numbuf[0] == numbuf[..numlen][0];
    pos := Build(buf, prefix, numbuf[..numlen], spec);
  }

  /** `format_signed`. */
  method FormatSigned(num: int, buf: array<char>, radix: int, spec: Spec) returns (pos: nat)
    requires -INT64_LIMIT <= num < INT64_LIMIT && |Signed(num, radix, spec)| < buf.Length
    modifies buf
    ensures pos < buf.Length && buf[..pos] == Signed(num, radix, spec) && buf[pos] == '\0'
    ensures SignedForm(buf[..pos], num, radix, spec)
  {
    hide Numeral, Layout, SignedForm;
    SignedIs(num, radix, spec);
    var numbuf := new char[MAX_DIGIT_BUFFER_SIZE];
    var sign := "";
    var absNum: nat;
    if num < 0 {
      sign := "-";
      absNum := -(num + 1) + 1;
    } else {
      absNum := num;
      if spec.plus {
        sign := "+";
      } else if spec.space {
        sign := " ";
      }
    }
    PowersOfTwo();
    NumeralLength(absNum, Radix(radix), false, 64);
    var numlen := Utoa64(absNum, numbuf, radix, false);
    pos := Build(buf, sign, numbuf[..numlen], spec);
  }

  // What the output means

  function Max(a: int, b: int): int {
    if a > b then a else b
  }

  /** The exact length: the width, or sign and prefix plus the larger of digit count and precision. */
  lemma LayoutLength(lead: string, digits: string, spec: Spec)
    requires |digits| > 0
    ensures |Layout(lead, digits, spec)| == Max(spec.width, |lead| + Max(|digits|, spec.precision))
  {
    hide Repeat;
  }

  function TrimLeft(s: string): string {
    if s != [] && s[0] == ' ' then TrimLeft(s[1..]) else s
  }

  function TrimRight(s: string): string {
    if s != [] && s[|s| - 1] == ' ' then TrimRight(s[..|s| - 1]) else s
  }

  function Trim(s: string): string {
    TrimRight(TrimLeft(s))
  }

  lemma {:induction false} TrimLeftBlanks(k: nat, s: string)
    requires s != [] && s[0] != ' '
    ensures TrimLeft(Repeat(' ', k) + s) == s
    decreases k
  {
    if k > 0 {
      assert (Repeat(' ', k) + s)[1..] == Repeat(' ', k - 1) + s;
      TrimLeftBlanks(k - 1, s);
    } else {
      assert Repeat(' ', 0) + s == s;
    }
  }

  lemma {:induction false} TrimRightBlanks(k: nat, s: string)
    requires s != [] && s[|s| - 1] != ' '
    ensures TrimRight(s + Repeat(' ', k)) == s
    decreases k
  {
    if k > 0 {
      var t := s + Repeat(' ', k);
      assert t[..|t| - 1] == s + Repeat(' ', k - 1);
      TrimRightBlanks(k - 1, s);
    } else {
      assert s + Repeat(' ', 0) == s;
    }
  }

  /**
   The output is a core of sign or prefix, zeros and digits, with blanks on one side at most: on the right
   if left-justified, on the left otherwise, and none where zeros fill the width.
   */
  lemma LayoutCore(lead: string, digits: string, spec: Spec) returns (a: nat, z: nat, b: nat)
    ensures Layout(lead, digits, spec) == Repeat(' ', a) + (lead + Repeat('0', z) + digits) + Repeat(' ', b)
    ensures if spec.left then a == 0 else b == 0
    ensures spec.zero && !spec.left && spec.precision < 0 ==> a == 0
    ensures |digits| > 0 ==>
              && z == Max(0, if spec.zero && !spec.left && spec.precision < 0 then spec.width - |lead| - |digits|
                             else spec.precision - |digits|)
              && a + b == Max(0, spec.width - |lead| - z - |digits|)
  {
    hide Repeat, Padding, Zeros;
    var pad := Padding(|lead|, |digits|, spec);
    a := if spec.left || ZeroPadded(spec) then 0 else pad;
    b := if spec.left then pad else 0;
    var p, q := if ZeroPadded(spec) then pad else 0, Zeros(|digits|, spec);
    z := p + q;
    RepeatSum('0', p, q);
    assert Layout(lead, digits, spec) == Repeat(' ', a) + (lead + (Repeat('0', p) + Repeat('0', q)) + digits) + Repeat(' ', b);
    Filling(|lead|, |digits|, spec);
  }

  /** How many zeros and blanks there are. */
  lemma Filling(lead: nat, digits: nat, spec: Spec)
    ensures var pad, zeros := Padding(lead, digits, spec), Zeros(digits, spec);
            var fill := spec.zero && !spec.left && spec.precision < 0;
            digits > 0 ==>
              && zeros == Max(0, spec.precision - digits)
              && (fill ==> zeros == 0 && pad == Max(0, spec.width - lead - digits))
              && pad == Max(0, spec.width - lead - zeros - digits)
  {
  }

  lemma RepeatSum(ch: char, p: nat, q: nat)
    ensures Repeat(ch, p) + Repeat(ch, q) == Repeat(ch, p + q)
  {
  }

  /** The radix mark off. */
  function Unmarked(t: string, radix: int): string {
    if |t| >= 2 && ((radix == 16 && (t[1] == 'x' || t[1] == 'X')) || (radix == 2 && (t[1] == 'b' || t[1] == 'B')))
    then t[2..] else t
  }

  /** Reading a number back: blanks off both ends, then the radix mark. */
  function ParseUnsigned(s: string, radix: int): nat {
    Value(Unmarked(Trim(s), radix), Radix(radix))
  }

  function ParseSigned(s: string, radix: int): int {
    var t := Trim(s);
    if t != [] && t[0] == '-' then -(Value(t[1..], Radix(radix)) as int)
    else if t != [] && t[0] == '+' then Value(t[1..], Radix(radix))
    else Value(t, Radix(radix))
  }

  lemma TrimIs(a: nat, core: string, b: nat)
    requires core != [] && core[0] != ' ' && core[|core| - 1] != ' '
    ensures Trim(Repeat(' ', a) + core + Repeat(' ', b)) == core
  {
    hide TrimLeft, TrimRight, Repeat;
    Regroup(Repeat(' ', a), core, Repeat(' ', b));
    TrimLeftBlanks(a, core + Repeat(' ', b));
    TrimRightBlanks(b, core);
  }

  /** Zeros and digits: a string of digits whose value is the number. */
  lemma PaddedDigits(z: nat, n: nat, radix: nat, upper: bool)
    requires 2 <= radix <= 16
    ensures var s := Repeat('0', z) + Numeral(n, radix, upper);
            s != [] && AllDigits(s, radix) && Value(s, radix) == n
  {
    hide Value, Numeral;
    NumeralDigits(n, radix, upper);
    NumeralRoundTrip(n, radix, upper);
    LeadingZeros(z, Numeral(n, radix, upper), radix);
  }

  lemma UnmarkedIs(num: nat, radix: int, spec: Spec, body: string)
    requires body != [] && AllDigits(body, Radix(radix))
    ensures var lead := Prefix(num, radix, spec);
            Unmarked(lead + body, radix) == if lead == "0" then "0" + body else body
  {
    var lead := Prefix(num, radix, spec);
    assert lead == "" ==> lead + body == body;
    assert |lead| == 2 ==> (lead + body)[2..] == body;
  }

  lemma PrefixStarts(num: nat, radix: int, spec: Spec)
    ensures var lead := Prefix(num, radix, spec); lead == "" || lead[0] == '0'
  {
  }

  /** Prefix, zeros and digits read back as the number. */
  lemma ParseBody(num: nat, radix: int, spec: Spec, z: nat)
    ensures var body := Repeat('0', z) + Numeral(num, Radix(radix), spec.upper);
            body != [] && AllDigits(body, Radix(radix))
            && Value(Unmarked(Prefix(num, radix, spec) + body, radix), Radix(radix)) == num
  {
    hide Numeral, Value, Repeat, Prefix, Unmarked, AllDigits;
    var r := Radix(radix);
    var digits := Numeral(num, r, spec.upper);
    PaddedDigits(z, num, r, spec.upper);
    PaddedDigits(z + 1, num, r, spec.upper);
    UnmarkedIs(num, radix, spec, Repeat('0', z) + digits);
    OneMoreZero(z, digits);
  }

  lemma OneMoreZero(z: nat, digits: string)
    ensures "0" + (Repeat('0', z) + digits) == Repeat('0', z + 1) + digits
  {
  }

  /** The core starts and ends with no blank. */
  lemma CoreEnds(num: nat, radix: int, spec: Spec, body: string)
    requires body != [] && AllDigits(body, Radix(radix))
    ensures var core := Prefix(num, radix, spec) + body;
            core != [] && core[0] != ' ' && core[|core| - 1] != ' '
  {
    hide Prefix;
    PrefixStarts(num, radix, spec);
  }

  lemma ParseCore(num: nat, radix: int, spec: Spec, a: nat, z: nat, b: nat)
    ensures var lead, digits := Prefix(num, radix, spec), Numeral(num, Radix(radix), spec.upper);
            ParseUnsigned(Repeat(' ', a) + (lead + Repeat('0', z) + digits) + Repeat(' ', b), radix) == num
  {
    hide Numeral, Value, Trim, Repeat, Prefix, Unmarked, AllDigits;
    var lead, digits := Prefix(num, radix, spec), Numeral(num, Radix(radix), spec.upper);
    var body := Repeat('0', z) + digits;
    ParseBody(num, radix, spec, z);
    CoreEnds(num, radix, spec, body);
    Regroup(lead, Repeat('0', z), digits);
    TrimIs(a, lead + body, b);
  }

  /** The mark as one sees it: at the start of the output without its blanks; without a mark only digits are left. */
  lemma MarkShown(num: nat, radix: int, spec: Spec)
    ensures var t, marked := Trim(Unsigned(num, radix, spec)), spec.hash && num != 0;
            && (marked && radix == 16 ==> |t| > 2 && t[..2] == ['0', if spec.upper then 'X' else 'x'])
            && (marked && radix == 2 ==> |t| > 2 && t[..2] == ['0', if spec.upper then 'B' else 'b'])
            && (marked && radix == 8 ==> |t| > 1 && t[0] == '0')
            && (!marked || (radix != 16 && radix != 2) ==> AllDigits(t, Radix(radix)))
  {
    hide Trim, Unsigned, AllDigits;
    var body := TrimmedIs(num, radix, spec);
    MarkFirst(Prefix(num, radix, spec), body);
    ZeroFirst(body, Radix(radix));
  }

  lemma TrimmedIs(num: nat, radix: int, spec: Spec) returns (body: string)
    ensures body != [] && AllDigits(body, Radix(radix))
    ensures Trim(Unsigned(num, radix, spec)) == Prefix(num, radix, spec) + body
  {
    hide Numeral, Layout, Repeat, Max, ZeroPadded, Trim, Prefix, AllDigits;
    var mark, digits := Prefix(num, radix, spec), Numeral(num, Radix(radix), spec.upper);
    var a, z, b := LayoutCore(mark, digits, spec);
    body := Repeat('0', z) + digits;
    PaddedDigits(z, num, Radix(radix), spec.upper);
    CoreEnds(num, radix, spec, body);
    Regroup(mark, Repeat('0', z), digits);
    TrimIs(a, mark + body, b);
  }

  lemma ZeroFirst(body: string, radix: nat)
    requires AllDigits(body, radix) && radix > 0
    ensures AllDigits("0" + body, radix)
  {
  }

  lemma MarkFirst(mark: string, body: string)
    ensures (mark + body)[..|mark|] == mark && (mark == [] ==> mark + body == body)
  {
  }

  /**
   Reading back what `format_unsigned` wrote gives the number, for every number, radix, flags, width and
   precision.
   */
  lemma UnsignedRoundTrip(num: nat, radix: int, spec: Spec)
    ensures ParseUnsigned(Unsigned(num, radix, spec), radix) == num
  {
    hide Numeral, Layout, Repeat, Prefix, ParseUnsigned, Max, ZeroPadded;
    var a, z, b := LayoutCore(Prefix(num, radix, spec), Numeral(num, Radix(radix), spec.upper), spec);
    ParseCore(num, radix, spec, a, z, b);
  }

  /** The same for `format_signed` and every signed 64-bit number, the smallest included. */
  lemma SignedRoundTrip(num: int, radix: int, spec: Spec)
    requires -INT64_LIMIT <= num < INT64_LIMIT
    ensures ParseSigned(Signed(num, radix, spec), radix) == num
  {
    hide Numeral, Value, Trim, Layout, Repeat, Max, ZeroPadded;
    var lead, r := Sign(num, spec), Radix(radix);
    var digits := Numeral(Magnitude(num), r, false);
    var a, z, b := LayoutCore(lead, digits, spec);
    var body := Repeat('0', z) + digits;
    PaddedDigits(z, Magnitude(num), r, false);
    Regroup(lead, Repeat('0', z), digits);
    TrimSigned(lead, body, a, b, r);
    SignOff(lead, body);
  }

  lemma TrimSigned(lead: string, body: string, a: nat, b: nat, radix: nat)
    requires lead == "" || lead == "-" || lead == "+" || lead == " "
    requires body != [] && AllDigits(body, radix) && radix <= 16
    ensures Trim(Repeat(' ', a) + (lead + body) + Repeat(' ', b)) == if lead == " " then body else lead + body
  {
    hide Trim, Repeat;
    if lead == " " {
      assert Repeat(' ', a) + (lead + body) == Repeat(' ', a + 1) + body;
      TrimIs(a + 1, body, b);
    } else {
      TrimIs(a, lead + body, b);
    }
  }

  lemma SignOff(lead: string, body: string)
    ensures lead == "" ==> lead + body == body
    ensures |lead| == 1 ==> (lead + body)[0] == lead[0] && (lead + body)[1..] == body
  {
  }

  /** What `itoa64` writes: in radix 10 a minus and the magnitude, otherwise the 64-bit pattern, in lower case. */
  lemma ItoaIs(num: int, radix: int)
    requires -INT64_LIMIT <= num < INT64_LIMIT
    ensures var s, r := SignedNumeral(num, radix), Radix(radix);
            if num < 0 && r == 10 then s[0] == '-' && Writes(s[1..], -num, 10, false)
            else Writes(s, (num + WORD_LIMIT) % WORD_LIMIT, r, false)
  {
    hide Numeral, Writes;
    var r := Radix(radix);
    NumeralWrites(Magnitude(num), r, false);
    NumeralWrites(AsUnsigned(num), r, false);
    if num < 0 && r == 10 {
      assert SignedNumeral(num, radix)[1..] == Numeral(Magnitude(num), r, false);
    }
  }

  /** Reading back what `itoa64` wrote in radix 10, and what it wrote in another radix. */
  lemma ItoaRoundTrip(num: int, radix: int)
    requires -INT64_LIMIT <= num < INT64_LIMIT
    ensures var s := SignedNumeral(num, radix);
            if Radix(radix) == 10 then
              num == if num < 0 then -(Value(s[1..], 10) as int) else Value(s, 10)
            else Value(s, Radix(radix)) == (num + WORD_LIMIT) % WORD_LIMIT
  {
    hide Numeral, Value;
    var r := Radix(radix);
    NumeralRoundTrip(Magnitude(num), r, false);
    NumeralRoundTrip(AsUnsigned(num), r, false);
    if num < 0 && r == 10 {
      assert SignedNumeral(num, radix)[1..] == Numeral(Magnitude(num), r, false);
    }
  }
}
