/**
 * Encoder.Encode32 (src/FlakeGen/Encoder.cs): a 64-bit signed integer written
 * in base 32 over the digits 0-9A-V, most significant digit first, in at most
 * 13 characters, optionally left-padded with '0' to exactly 13.
 *
 * The C# loop takes the low five bits (`number & 0x1F`) and then shifts
 * arithmetically (`number >>= 5`). On a two's complement long these are
 * `number % 32` and `number / 32` with Dafny's Euclidean operators, which
 * floor for a positive divisor; the model uses them on unbounded integers.
 */
module Encoder {
  import opened Common
  import opened Ordering

  /** Encoder.EncodingChars: the 32 digits, in ascending character order. */
  const EncodingChars: string := "0123456789ABCDEFGHIJKLMNOPQRSTUV"

  /** The length of the output buffer: 13 digits, that is 65 bits. */
  const Width: nat := 13

  function Pow32(k: nat): (p: nat)
    ensures p >= 1
  {
    if k == 0 then 1 else 32 * Pow32(k - 1)
  }

  /**
   * The digits of `n` in the radix |alphabet|, most significant first,
   * without leading zeros; 0 is written as the single zero digit.
   */
  function Digits(n: nat, alphabet: string): (s: string)
    requires 2 <= |alphabet|
    ensures 1 <= |s|
    decreases n
  {
    if n < |alphabet| then [alphabet[n]]
    else Digits(n / |alphabet|, alphabet) + [alphabet[n % |alphabet|]]
  }

  function Digits32(n: nat): string
  {
    Digits(n, EncodingChars)
  }

  /** .NET String.PadLeft(totalWidth, paddingChar). */
  function PadLeft(s: string, width: nat, c: char): (r: string)
    ensures |r| == if |s| < width then width else |s|
    ensures r[|r| - |s|..] == s
    ensures forall i :: 0 <= i < |r| - |s| ==> r[i] == c
  {
    if |s| < width then seq(width - |s|, _ => c) + s else s
  }

  /**
   * What Encode32 returns, as an independent reference: the digits of the
   * number taken modulo 2^65 (the 13 five-bit groups of its two's complement
   * form, sign-extended), padded when asked.
   */
  function Encoded(number: int64, withLeadingZero: bool): string
  {
    var id := Digits32(number % Pow32(Width));
    if withLeadingZero then PadLeft(id, Width, '0') else id
  }

  /** The characters of the alphabet. */
  predicate IsDigit32(c: char)
  {
    '0' <= c <= '9' || 'A' <= c <= 'V'
  }

  /** The position of a character in the alphabet. */
  function DigitOf(c: char): int
  {
    if c <= '9' then c as int - '0' as int else c as int - 'A' as int + 10
  }

  /** Reads a string as base-32 digits, most significant first. */
  function Value(s: string): int
  {
    if s == [] then 0 else 32 * Value(s[..|s| - 1]) + DigitOf(s[|s| - 1])
  }

  predicate AllDigits(s: string)
  {
    forall i :: 0 <= i < |s| ==> IsDigit32(s[i])
  }

  // ---------------------------------------------------------------------------
  // The alphabet

  /** Digit d of the alphabet is a digit character whose position is d. */
  lemma AlphabetAt(d: nat)
    requires d < 32
    ensures IsDigit32(EncodingChars[d]) && DigitOf(EncodingChars[d]) == d
  {
    if d < 16 {
      LowDigits(d);
    } else {
      HighDigits(d - 16);
    }
  }

  lemma LowDigits(d: nat)
    requires d < 16
    ensures IsDigit32(EncodingChars[d]) && DigitOf(EncodingChars[d]) == d
  {
    assert EncodingChars[d] == "0123456789ABCDEF"[d];
  }

  lemma HighDigits(d: nat)
    requires d < 16
    ensures IsDigit32(EncodingChars[16 + d]) && DigitOf(EncodingChars[16 + d]) == 16 + d
  {
    assert EncodingChars[16 + d] == "GHIJKLMNOPQRSTUV"[d];
  }

  /** The alphabet is in ascending character order, and it holds exactly the digit characters. */
  lemma AlphabetAscending()
    ensures forall d1, d2 :: 0 <= d1 < d2 < 32 ==> EncodingChars[d1] < EncodingChars[d2]
    ensures forall c :: IsDigit32(c) ==> 0 <= DigitOf(c) < 32 && EncodingChars[DigitOf(c)] == c
  {
    forall d1, d2 | 0 <= d1 < d2 < 32
      ensures EncodingChars[d1] < EncodingChars[d2]
    {
      AlphabetAt(d1);
      AlphabetAt(d2);
    }
    forall c | IsDigit32(c)
      ensures 0 <= DigitOf(c) < 32 && EncodingChars[DigitOf(c)] == c
    {
      AlphabetAt(DigitOf(c));
    }
  }

  // ---------------------------------------------------------------------------
  // Arithmetic on the shifts

  /** Two successive shifts are one shift by the sum. */
  lemma DivDiv(m: int, p: int)
    requires p >= 1
    ensures m / 32 / p == m / (32 * p)
  {
    var q, r := m / 32 / p, m / 32 % p;
    assert m / 32 == p * q + r;
    assert m == (32 * p) * q + (32 * r + m % 32) by {
      assert 32 * (p * q) == (32 * p) * q;
    }
    assert 32 * r + m % 32 < 32 * p by {
      assert r <= p - 1;
      assert 32 * r <= 32 * (p - 1);
    }
    DivModUnique(m, 32 * p, q, 32 * r + m % 32);
  }

  /**
   * Dropping the low five bits and then keeping the low groups is the same
   * as keeping the low groups and then dropping the low five bits.
   */
  lemma ModDivStep(n: int, q: nat)
    requires q >= 1
    ensures (n % (32 * q)) / 32 == (n / 32) % q
    ensures (n % (32 * q)) % 32 == n % 32
  {
    var a, r := n / (32 * q), n % (32 * q);
    var r1, r0 := r / 32, r % 32;
    assert r1 < q;
    assert n == 32 * (q * a + r1) + r0 by {
      assert n == (32 * q) * a + r;
      assert (32 * q) * a == 32 * (q * a);
    }
    DivModUnique(n, 32, q * a + r1, r0);
    DivModUnique(n / 32, q, a, r1);
  }

  lemma SmallMod(n: int, p: int)
    requires p > 0 && -p < n < p
    ensures n % p == if n >= 0 then n else n + p
  {
    if n >= 0 {
      DivModUnique(n, p, 0, n);
    } else {
      DivModUnique(n, p, -1, n + p);
    }
  }

  lemma Pow32Values()
    ensures Pow32(12) == 0x1000_0000_0000_0000
    ensures Pow32(13) == 0x2_0000_0000_0000_0000
  {
  }

  // ---------------------------------------------------------------------------
  // Properties of the digits

  /** The digits of m are alphabet characters and read back as m. */
  lemma {:induction false} DigitsRoundTrip(m: nat)
    ensures AllDigits(Digits32(m)) && Value(Digits32(m)) == m
    decreases m
  {
    var s := Digits32(m);
    if m < 32 {
      AlphabetAt(m);
    } else {
      DigitsRoundTrip(m / 32);
      AlphabetAt(m % 32);
      assert s[..|s| - 1] == Digits32(m / 32);
    }
  }

  /** One more low digit after a non-zero prefix, in any radix. */
  lemma DigitsSnoc(m: nat, d: nat, alphabet: string)
    requires 2 <= |alphabet| && 1 <= m && d < |alphabet|
    ensures Digits(m * |alphabet| + d, alphabet) == Digits(m, alphabet) + [alphabet[d]]
  {
    var n := m * |alphabet| + d;
    MulAtLeast(|alphabet|, m);
    assert m * |alphabet| == |alphabet| * m;
    DivModUnique(n, |alphabet|, m, d);
  }

  /** Dropping the last digit leaves a smaller, non-zero number. */
  lemma QuotientShrinks(n: nat, b: nat)
    requires 2 <= b <= n
    ensures 1 <= n / b < n
  {
    var q, r := n / b, n % b;
    assert n == b * q + r;
    if q >= 1 {
      MulAtLeast(q, b - 1);
      assert b * q == q * (b - 1) + q;
    }
  }

  /** The digits of n, in any radix, are characters of the alphabet. */
  lemma {:induction false} DigitsInAlphabet(n: nat, alphabet: string)
    requires 2 <= |alphabet|
    ensures forall i :: 0 <= i < |Digits(n, alphabet)| ==> Digits(n, alphabet)[i] in alphabet
    decreases n
  {
    var b := |alphabet|;
    if n >= b {
      var q, d := n / b, n % b;
      QuotientShrinks(n, b);
      var t := Digits(q, alphabet);
      DigitsInAlphabet(q, alphabet);
      var s := t + [alphabet[d]];
      assert Digits(n, alphabet) == s;
      forall i | 0 <= i < |s| ensures s[i] in alphabet {
        if i < |t| { assert s[i] == t[i]; }
      }
    }
  }

  /** m has at most k base-32 digits exactly when it is below 32^k. */
  lemma {:induction false} DigitsLength(m: nat, k: nat)
    requires k >= 1
    ensures |Digits32(m)| <= k <==> m < Pow32(k)
    decreases m
  {
    if m >= 32 {
      if k == 1 {
        assert Pow32(1) == 32;
      } else {
        DigitsLength(m / 32, k - 1);
      }
    }
  }

  /** The first digit is '0' only for 0: there are no leading zeros. */
  lemma {:induction false} DigitsNoLeadingZero(m: nat)
    ensures Digits32(m)[0] == '0' ==> m == 0
    decreases m
  {
    if m < 32 {
      AlphabetAt(m);
    } else {
      DigitsNoLeadingZero(m / 32);
    }
  }

  /** Counting from the right, digit k is the low five bits of m shifted right 5k times. */
  lemma {:induction false} DigitsAt(m: nat, k: nat)
    requires k < |Digits32(m)|
    ensures Digits32(m)[|Digits32(m)| - 1 - k] == EncodingChars[(m / Pow32(k)) % 32]
    decreases m
  {
    var s := Digits32(m);
    if k == 0 {
      assert m / Pow32(0) == m;
      if m < 32 {
        assert m % 32 == m;
      }
    } else {
      var t := Digits32(m / 32);
      assert s == t + [EncodingChars[m % 32]];
      assert s[|s| - 1 - k] == t[|t| - 1 - (k - 1)];
      DigitsAt(m / 32, k - 1);
      DivDiv(m, Pow32(k - 1));
    }
  }

  // ---------------------------------------------------------------------------
  // Properties of digit strings

  lemma {:induction false} ValueBounds(s: string)
    requires AllDigits(s)
    ensures 0 <= Value(s) < Pow32(|s|)
  {
    if s != [] {
      ValueBounds(s[..|s| - 1]);
      AlphabetAscending();
    }
  }

  /** Leading '0' characters do not change the value. */
  lemma {:induction false} ValueZeroPrefix(z: string, s: string)
    requires forall i :: 0 <= i < |z| ==> z[i] == '0'
    ensures Value(z + s) == Value(s)
    decreases |s|, |z|
  {
    if s == [] {
      assert z + s == z;
      if z != [] {
        ValueZeroPrefix(z[..|z| - 1], []);
        assert z[..|z| - 1] + [] == z[..|z| - 1];
      }
    } else {
      assert (z + s)[..|z + s| - 1] == z + s[..|s| - 1];
      ValueZeroPrefix(z, s[..|s| - 1]);
    }
  }

  /**
   * For digit strings of one length, ordinal order follows numeric order,
   * and equal values mean equal strings.
   */
  lemma {:induction false} ValueCompare(s: string, t: string)
    requires |s| == |t| && AllDigits(s) && AllDigits(t)
    ensures Value(s) < Value(t) ==> OrdinalLess(s, t)
    ensures Value(s) == Value(t) ==> s == t
  {
    if s != [] {
      var s', t' := s[..|s| - 1], t[..|t| - 1];
      var x, y := s[|s| - 1], t[|t| - 1];
      ValueCompare(s', t');
      ValueBounds(s');
      ValueBounds(t');
      assert s == s' + [x] && t == t' + [y];
      DigitCompare(x, y);
      LexLessAppend(s', [x], t', [y], CharLess);
      HornerCompare(Value(s'), DigitOf(x), Value(t'), DigitOf(y));
    }
  }

  /** Digit characters compare as their positions, and one position is one character. */
  lemma DigitCompare(x: char, y: char)
    requires IsDigit32(x) && IsDigit32(y)
    ensures 0 <= DigitOf(x) < 32 && 0 <= DigitOf(y) < 32
    ensures DigitOf(x) < DigitOf(y) ==> CharLess(x, y)
    ensures DigitOf(x) == DigitOf(y) ==> x == y
    ensures !CharLess(x, x)
  {
  }

  /** One more low digit: the order of the numbers is the order of their high parts, then of the digits. */
  lemma HornerCompare(a: int, x: int, b: int, y: int)
    requires 0 <= x < 32 && 0 <= y < 32
    ensures 32 * a + x < 32 * b + y ==> a < b || (a == b && x < y)
    ensures 32 * a + x == 32 * b + y ==> a == b && x == y
  {
  }

  // ---------------------------------------------------------------------------
  // Properties of Encode32

  /** The digits of a long taken modulo 2^65, and how the padded form extends them. */
  lemma EncodedDigits(number: int64, withLeadingZero: bool)
    ensures var m := number % Pow32(Width);
      var s := Encoded(number, withLeadingZero);
      && 0 <= m < Pow32(Width)
      && (number >= 0 ==> m == number)
      && (number < 0 ==> m >= Pow32(Width - 1))
      && s[|s| - |Digits32(m)|..] == Digits32(m)
      && forall i :: 0 <= i < |s| - |Digits32(m)| ==> s[i] == '0'
  {
    Pow32Values();
    SmallMod(number, Pow32(Width));
  }

  /**
   * Without padding the result has 1 to 13 characters, exactly 13 for a
   * negative number (the arithmetic shift never reaches 0); with padding it
   * has exactly 13.
   */
  lemma EncodedLength(number: int64, withLeadingZero: bool)
    ensures var s := Encoded(number, withLeadingZero);
      && (withLeadingZero ==> |s| == Width)
      && 1 <= |s| <= Width
      && (number < 0 ==> |s| == Width)
  {
    var m := number % Pow32(Width);
    EncodedDigits(number, withLeadingZero);
    DigitsLength(m, Width);
    DigitsLength(m, Width - 1);
  }

  lemma EncodedAllDigits(number: int64, withLeadingZero: bool)
    ensures AllDigits(Encoded(number, withLeadingZero))
  {
    var m := number % Pow32(Width);
    var s := Encoded(number, withLeadingZero);
    var d := Digits32(m);
    EncodedDigits(number, withLeadingZero);
    DigitsRoundTrip(m);
    forall i | 0 <= i < |s| ensures IsDigit32(s[i]) {
      if i >= |s| - |d| {
        assert s[i] == d[i - (|s| - |d|)];
      }
    }
  }

  /** Every output character is one of the 32 digits of the alphabet. */
  lemma EncodedAlphabet(number: int64, withLeadingZero: bool)
    ensures var s := Encoded(number, withLeadingZero);
      forall i :: 0 <= i < |s| ==> s[i] in EncodingChars
  {
    var s := Encoded(number, withLeadingZero);
    EncodedAllDigits(number, withLeadingZero);
    AlphabetAscending();
    forall i | 0 <= i < |s| ensures s[i] in EncodingChars {
      assert EncodingChars[DigitOf(s[i])] == s[i];
    }
  }

  /** Read as base-32 digits, the output is the number taken modulo 2^65. */
  lemma EncodedValue(number: int64, withLeadingZero: bool)
    ensures Value(Encoded(number, withLeadingZero)) == number % Pow32(Width)
  {
    var m := number % Pow32(Width);
    var id := Digits32(m);
    DigitsRoundTrip(m);
    if withLeadingZero {
      var s := Encoded(number, true);
      EncodedDigits(number, true);
      assert s == s[..|s| - |id|] + id;
      ValueZeroPrefix(s[..|s| - |id|], id);
    }
  }

  /** A non-negative number is recovered by reading the output as base-32 digits. */
  lemma EncodedRoundTrip(number: int64, withLeadingZero: bool)
    requires 0 <= number
    ensures Value(Encoded(number, withLeadingZero)) == number
  {
    EncodedValue(number, withLeadingZero);
    Pow32Values();
    SmallMod(number, Pow32(Width));
  }

  /** The unpadded output has no leading '0', except that 0 encodes as "0". */
  lemma EncodedNoLeadingZero(number: int64)
    ensures Encoded(number, false)[0] == '0' <==> number == 0
    ensures Encoded(0, false) == "0"
  {
    Pow32Values();
    var m := number % Pow32(Width);
    DigitsNoLeadingZero(m);
    if number != 0 {
      SmallMod(number, Pow32(Width));
    }
  }

  /** Distinct longs give distinct strings, padded or not. */
  lemma EncodedInjective(n1: int64, n2: int64, withLeadingZero: bool)
    requires Encoded(n1, withLeadingZero) == Encoded(n2, withLeadingZero)
    ensures n1 == n2
  {
    EncodedValue(n1, withLeadingZero);
    EncodedValue(n2, withLeadingZero);
    Pow32Values();
    SmallMod(n1, Pow32(Width));
    SmallMod(n2, Pow32(Width));
  }

  /**
   * For non-negative a < b the padded encoding of a comes first in ordinal
   * order; unpadded encodings of equal length compare the same way.
   */
  lemma EncodedOrder(a: int64, b: int64)
    requires 0 <= a < b
    ensures OrdinalLess(Encoded(a, true), Encoded(b, true))
    ensures |Encoded(a, false)| == |Encoded(b, false)| ==> OrdinalLess(Encoded(a, false), Encoded(b, false))
  {
    var pa, pb := Encoded(a, true), Encoded(b, true);
    EncodedLength(a, true);
    EncodedLength(b, true);
    EncodedAllDigits(a, true);
    EncodedAllDigits(b, true);
    EncodedRoundTrip(a, true);
    EncodedRoundTrip(b, true);
    ValueCompare(pa, pb);
    var ua, ub := Encoded(a, false), Encoded(b, false);
    if |ua| == |ub| {
      EncodedAllDigits(a, false);
      EncodedAllDigits(b, false);
      EncodedRoundTrip(a, false);
      EncodedRoundTrip(b, false);
      ValueCompare(ua, ub);
    }
  }

  /** Read from the right, output digit k is the low five bits of the number shifted right 5k times. */
  lemma EncodedDigitAt(number: int64, k: nat)
    requires k < |Encoded(number, false)|
    ensures var s := Encoded(number, false);
      s[|s| - 1 - k] == EncodingChars[(number / Pow32(k)) % 32]
  {
    var m := number % Pow32(Width);
    EncodedLength(number, false);
    DigitsAt(m, k);
    LowGroups(number, k);
  }

  /** Powers of 32 add their exponents. */
  lemma {:induction false} Pow32Split(a: nat, b: nat)
    ensures Pow32(a + b) == Pow32(a) * Pow32(b)
  {
    if a > 0 {
      Pow32Split(a - 1, b);
      assert Pow32(a + b) == 32 * (Pow32(a - 1) * Pow32(b));
    }
  }

  /**
   * Below the 13th group, keeping the number modulo 2^65 does not change a
   * five-bit group: the arithmetic shift of a negative long sees the same bits.
   */
  lemma LowGroups(x: int, k: nat)
    requires k < Width
    ensures ((x % Pow32(Width)) / Pow32(k)) % 32 == (x / Pow32(k)) % 32
  {
    var p, q := Pow32(k), Pow32(Width - 1 - k);
    Pow32Split(k, Width - k);
    assert Pow32(Width) == p * (32 * q);
    ModMul(x, p, 32 * q);
    var y := (x / p) % (32 * q);
    DivModUnique(x % Pow32(Width), p, y, x % p);
    ModDivStep(x / p, q);
  }

  /** For a non-negative long the reference is the plain digits, padded when asked. */
  lemma EncodedNonNegative(number: int64)
    requires 0 <= number
    ensures Encoded(number, false) == Digits32(number)
    ensures Encoded(number, true) == PadLeft(Digits32(number), Width, '0')
  {
    Pow32Values();
    assert number % Pow32(Width) == number;
  }

  // One lemma per worked example keeps each unfolding small.
  lemma Example0(n: int64) requires n == 0 ensures Encoded(n, false) == "0" && Encoded(n, true) == "0000000000000" { Pow32Values(); }
  lemma Example1(n: int64) requires n == 1 ensures Encoded(n, false) == "1" && Encoded(n, true) == "0000000000001" { Pow32Values(); }
  lemma Example10(n: int64) requires n == 10 ensures Encoded(n, false) == "A" && Encoded(n, true) == "000000000000A" { Pow32Values(); }
  lemma Example63(n: int64) requires n == 63 ensures Encoded(n, false) == "1V" && Encoded(n, true) == "000000000001V" { Pow32Values(); }
  lemma Example64(n: int64) requires n == 64 ensures Encoded(n, false) == "20" && Encoded(n, true) == "0000000000020" { Pow32Values(); }

  /** 8 * 32^i - 1 is a 7 followed by i digits V. */
  lemma AppendV(v: nat)
    requires 1 <= v
    ensures Digits32(32 * v + 31) == Digits32(v) + "V"
  {
    var n := 32 * v + 31;
    DivModUnique(n, 32, v, 31);
    assert Digits32(n) == Digits32(v) + [EncodingChars[31]];
  }

  lemma {:induction false} SevenThenVs(i: nat)
    ensures Digits32(8 * Pow32(i) - 1) == "7" + seq(i, _ => 'V')
  {
    if i == 0 {
      assert Digits32(7) == "7";
    } else {
      SevenThenVs(i - 1);
      var v := 8 * Pow32(i - 1) - 1;
      assert 8 * Pow32(i) - 1 == 32 * v + 31;
      AppendV(v);
      var vs, vs' := seq(i, _ => 'V'), seq(i - 1, _ => 'V');
      assert vs == vs' + ['V'];
      assert "7" + vs == ("7" + vs') + ['V'];
    }
  }


  /** The largest long: a 3-bit top group and twelve full groups. */
  lemma ExampleMax(n: int64)
    requires n == 0x7FFF_FFFF_FFFF_FFFF
    ensures Encoded(n, false) == "7VVVVVVVVVVVV" && Encoded(n, true) == "7VVVVVVVVVVVV"
  {
    SevenThenVs(12);
    Pow32Values();
    EncodedNonNegative(n);
  }

  /** The worked examples of the wrapper tests, unpadded and padded. */
  lemma EncodedExamples(values: seq<int64>)
    requires values == [0, 1, 10, 63, 64, 0x7FFF_FFFF_FFFF_FFFF]
    ensures Encoded(values[0], false) == "0" && Encoded(values[0], true) == "0000000000000"
    ensures Encoded(values[1], false) == "1" && Encoded(values[1], true) == "0000000000001"
    ensures Encoded(values[2], false) == "A" && Encoded(values[2], true) == "000000000000A"
    ensures Encoded(values[3], false) == "1V" && Encoded(values[3], true) == "000000000001V"
    ensures Encoded(values[4], false) == "20" && Encoded(values[4], true) == "0000000000020"
    ensures Encoded(values[5], false) == "7VVVVVVVVVVVV" && Encoded(values[5], true) == "7VVVVVVVVVVVV"
  {
    Example0(values[0]);
    Example1(values[1]);
    Example10(values[2]);
    Example63(values[3]);
    Example64(values[4]);
    ExampleMax(values[5]);
  }

  // ---------------------------------------------------------------------------
  // The method

  /** The digits still to be written for a remaining value x after at least one pass. */
  ghost function Rest(x: nat): string
  {
    if x == 0 then [] else Digits32(x)
  }

  /** One pass of the loop peels the last digit off the digits of x. */
  lemma StepDigit(n: int, j: nat)
    ensures var x := n % Pow32(j + 1);
      Digits32(x) == Rest((n / 32) % Pow32(j)) + [EncodingChars[n % 32]]
  {
    var x := n % Pow32(j + 1);
    ModDivStep(n, Pow32(j));
    if x < 32 {
      assert x / 32 == 0;
    }
  }

  /**
   * The loop invariant after at least one pass, `index` being the next free
   * slot of the buffer: the digits still owed, followed by the digits already
   * written, are the digits of m; and the remaining number stays inside the
   * bounds that make it non-zero exactly when digits are still owed.
   */
  ghost predicate Owed(m: nat, n: int, index: int, written: string)
  {
    && -1 <= index < 12
    && n < Pow32(index + 1)
    && (0 <= index ==> -8 * Pow32(index) <= n)
    && Digits32(m) == Rest(n % Pow32(index + 1)) + written
  }

  /** One pass of the loop establishes or keeps the invariant. */
  lemma LoopStep(m: nat, n: int, index: int, written: string)
    requires 0 <= index <= 12
    requires index == 12 ==> written == [] && m == n % Pow32(13) && -8 * Pow32(12) <= n < Pow32(13)
    requires index < 12 ==> n != 0 && Owed(m, n, index, written)
    ensures Owed(m, n / 32, index - 1, [EncodingChars[n % 32]] + written)
  {
    StepDigit(n, index);
    var x := n % Pow32(index + 1);
    var rest, c := Rest((n / 32) % Pow32(index)), [EncodingChars[n % 32]];
    assert Digits32(x) == rest + c;
    if index < 12 {
      SmallMod(n, Pow32(index + 1));
      assert Rest(x) == Digits32(x);
      assert Digits32(m) == (rest + c) + written;
      assert (rest + c) + written == rest + (c + written);
    } else {
      assert m == x && c + written == c;
    }
    ShiftBounds(n, index);
  }

  /** The arithmetic shift keeps the remaining number inside the next, smaller, range. */
  lemma ShiftBounds(n: int, index: nat)
    requires n < Pow32(index + 1) && -8 * Pow32(index) <= n
    ensures n / 32 < Pow32(index)
    ensures index >= 1 ==> -8 * Pow32(index - 1) <= n / 32
  {
  }

  /** Writing slot i puts one character in front of the slots after it. */
  lemma WriteSlot(buffer: seq<char>, i: nat, c: char)
    requires i < |buffer|
    ensures buffer[i := c][i..] == [c] + buffer[i + 1..]
  {
  }

  /** Once the buffer is full or the number is used up, nothing is owed. */
  lemma LoopExit(m: nat, n: int, index: int, written: string)
    requires Owed(m, n, index, written) && (index == -1 || n == 0)
    ensures written == Digits32(m)
  {
    if index == -1 {
      DivModUnique(n, Pow32(0), n, 0);
    } else {
      DivModUnique(n, Pow32(index + 1), 0, 0);
    }
  }

  /**
   * Encoder.Encode32: fills a 13-character buffer from the right, one digit
   * per pass of a do-while loop, then optionally pads to 13 characters.
   */
  method Encode32(number: int64, withLeadingZero: bool) returns (s: string)
    ensures s == Encoded(number, withLeadingZero)
  {
    var output := new char[Width];
    var index: int := 12;
    var n: int := number;
    ghost var m := number % Pow32(Width);
    Pow32Values();
    // the do-while loop: the body runs once before the condition is tested
    var looping := true;
    while looping
      invariant -1 <= index <= 12
      invariant looping ==> 0 <= index && (index == 12 || n != 0)
      invariant !looping ==> index < 12 && (index == -1 || n == 0)
      invariant index == 12 ==> looping && n == number
      invariant index < 12 ==> Owed(m, n, index, output[index + 1..])
      decreases index + 1
    {
      ghost var written := output[index + 1..];
      ghost var before := output[..];
      LoopStep(m, n, index, written);
      output[index] := EncodingChars[n % 32];
      assert output[..] == before[index := EncodingChars[n % 32]];
      WriteSlot(before, index, EncodingChars[n % 32]);
      assert output[index..] == output[..][index..];
      index := index - 1;
      n := n / 32;
      looping := index >= 0 && n != 0;
    }
    var id := output[index + 1..];
    LoopExit(m, n, index, id);
    s := if withLeadingZero then PadLeft(id, Width, '0') else id;
  }
}
