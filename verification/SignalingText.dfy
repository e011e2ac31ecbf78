/**
 * The text of the SRPP signalling payloads: what the HELLO and HELLOACK senders print and what the
 * receiver reads back from it.
 */
module SignalingText {

  predicate IsDigit(c: char) {
    '0' <= c <= '9'
  }

  function DigitChar(d: nat): (c: char)
    requires d < 10
    ensures IsDigit(c)
  {
    '0' + (d as char)
  }

  function DigitValue(c: char): (d: nat)
    requires IsDigit(c)
    ensures d < 10
  {
    (c - '0') as int
  }

  /** The %d rendering of a non-negative number. */
  function Decimal(n: nat): (s: string)
    ensures |s| > 0 && forall i :: 0 <= i < |s| ==> IsDigit(s[i])
  {
    if n < 10 then [DigitChar(n)] else Decimal(n / 10) + [DigitChar(n % 10)]
  }

  /** The number read from the digits at the front of `s`, continuing from `acc`. */
  function Digits(s: string, acc: nat): nat
    decreases |s|
  {
    if s == [] || !IsDigit(s[0]) then acc else Digits(s[1..], 10 * acc + DigitValue(s[0]))
  }

  /** The C library's atoi, without overflow. */
  function Atoi(s: string): int
    decreases |s|
  {
    if s == [] then 0
    else if s[0] == ' ' then Atoi(s[1..])
    else if s[0] == '-' then 0 - Digits(s[1..], 0)
    else if s[0] == '+' then Digits(s[1..], 0)
    else Digits(s, 0)
  }

  lemma {:induction false} DigitsAppend(a: string, b: string, acc: nat)
    requires forall i :: 0 <= i < |a| ==> IsDigit(a[i])
    ensures Digits(a + b, acc) == Digits(b, Digits(a, acc))
    decreases |a|
  {
    if a == [] {
      assert a + b == b;
    } else {
      assert (a + b)[1..] == a[1..] + b;
      DigitsAppend(a[1..], b, 10 * acc + DigitValue(a[0]));
    }
  }

  lemma {:induction false} DigitsOfDecimal(n: nat)
    ensures Digits(Decimal(n), 0) == n
  {
    if n < 10 {
      assert Decimal(n)[1..] == [];
    } else {
      DigitsOfDecimal(n / 10);
      DigitsAppend(Decimal(n / 10), [DigitChar(n % 10)], 0);
      assert [DigitChar(n % 10)][1..] == [];
    }
  }

  function Pow10(k: nat): nat {
    if k == 0 then 1 else 10 * Pow10(k - 1)
  }

  lemma {:induction false} DecimalLength(n: nat, k: nat)
    requires k > 0
    ensures |Decimal(n)| <= k <==> n < Pow10(k)
  {
    if n < 10 {
      assert Pow10(k) >= 10 by { Pow10Grows(k); }
    } else if k == 1 {
      assert Pow10(0) == 1;
    } else {
      DecimalLength(n / 10, k - 1);
    }
  }

  lemma {:induction false} Pow10Grows(k: nat)
    requires k > 0
    ensures Pow10(k) >= 10
  {
    if k > 1 {
      Pow10Grows(k - 1);
    }
  }

  lemma {:induction false} Pow10Rises(j: nat, k: nat)
    requires j <= k
    ensures Pow10(j) <= Pow10(k)
  {
    if j < k {
      Pow10Rises(j, k - 1);
    }
  }

  // ---------------------------------------------------------------- the payloads

  /** What snprintf leaves of `s` in a buffer of `size` characters, without the final zero. */
  function Printed(s: string, size: nat): string
    requires size > 0
  {
    if |s| < size then s else s[..size - 1]
  }

  const HELLO_OPTIONS := " YES, YES, YES, YES, DEFAULT, DEFAULT, DEFAULT"
  const ACK_OPTIONS := " YES, YES, DEFAULT, DEFAULT, DEFAULT"

  function HelloText(key: nat, size: nat): string {
    Printed(Decimal(key) + "," + Decimal(size), 15) + "," + HELLO_OPTIONS
  }

  function AckText(size: nat): string {
    Printed(Decimal(size), 6) + "YES" + "," + ACK_OPTIONS
  }

  /** Position of the first comma, or the length of the text. */
  function Comma(s: string): (i: nat)
    ensures i <= |s| && (i < |s| ==> s[i] == ',') && forall j :: 0 <= j < i ==> s[j] != ','
  {
    if s == [] then 0 else if s[0] == ',' then 0 else 1 + Comma(s[1..])
  }

  /** The text before the first comma, as a number: the key of a HELLO and the size of a HELLOACK. */
  function FirstField(text: string): int {
    Atoi(text[..Comma(text)])
  }

  /** The text between the first and the second comma, as a number: the size of a HELLO. */
  function SecondField(text: string): int {
    var i := Comma(text);
    if i == |text| then Atoi(text[..Comma(text)])
    else var rest := text[i + 1..]; Atoi(rest[..Comma(rest)])
  }

  lemma CommaIs(s: string, i: nat)
    requires i < |s| && s[i] == ',' && forall j :: 0 <= j < i ==> s[j] != ','
    ensures Comma(s) == i
  {
  }

  lemma AtoiOfDigits(s: string)
    requires s != [] && IsDigit(s[0])
    ensures Atoi(s) == Digits(s, 0)
  {
  }

  /** The number at the front of a text, when only non-digits stand between it and the first comma. */
  lemma FieldOfDigits(z: string, between: string, rest: string)
    requires z != [] && forall j :: 0 <= j < |z| ==> IsDigit(z[j])
    requires between == [] || !IsDigit(between[0])
    requires forall j :: 0 <= j < |between| ==> between[j] != ','
    ensures FirstField(z + between + "," + rest) == Digits(z, 0)
    ensures Comma(z + between + "," + rest) == |z| + |between|
  {
    hide Digits, Atoi;
    var field := z + between;
    var text := field + "," + rest;
    forall j | 0 <= j < |field|
      ensures text[j] != ','
    {
      assert text[j] == field[j];
    }
    CommaIs(text, |field|);
    assert text[..|field|] == field;
    AtoiOfDigits(field);
    DigitsAppend(z, between, 0);
    DigitsStop(between, Digits(z, 0));
  }

  lemma DigitsStop(s: string, acc: nat)
    requires s == [] || !IsDigit(s[0])
    ensures Digits(s, acc) == acc
  {
  }

  /** A number up to the first comma. */
  lemma FieldOfDecimal(n: nat, rest: string)
    ensures FirstField(Decimal(n) + "," + rest) == n
    ensures Comma(Decimal(n) + "," + rest) == |Decimal(n)|
  {
    hide FirstField, Comma;
    FieldOfDigits(Decimal(n), [], rest);
    assert Decimal(n) + [] == Decimal(n);
    DigitsOfDecimal(n);
  }

  lemma Regroup(k: string, z: string, options: string, tail: string)
    ensures k + "," + z + "," + options + tail == k + "," + (z + "," + (options + tail))
  {
  }

  /** The number the first `w` digits of `n` spell. */
  function Spelled(n: nat, w: nat): nat
    requires w > 0
  {
    Digits(Printed(Decimal(n), w + 1), 0)
  }

  /** Cutting the last digit of a number that is too long does not change its first `w`. */
  lemma SpelledStep(n: nat, w: nat)
    requires w > 0
    ensures Spelled(n, w) == if n < Pow10(w) then n else Spelled(n / 10, w)
  {
    hide Digits;
    DecimalLength(n, w);
    if n < Pow10(w) {
      DigitsOfDecimal(n);
    } else {
      Pow10Grows(w);
      assert Decimal(n) == Decimal(n / 10) + [DigitChar(n % 10)];
      assert Decimal(n)[..w] == Decimal(n / 10)[..w];
      assert Decimal(n / 10)[..|Decimal(n / 10)|] == Decimal(n / 10);
    }
  }

  /** A number comes back whole exactly when it has at most `w` digits; otherwise its first `w` digits do. */
  lemma {:induction false} SpelledRange(n: nat, w: nat)
    requires w > 0
    ensures Spelled(n, w) <= n && Spelled(n, w) < Pow10(w)
    ensures Spelled(n, w) == n <==> n < Pow10(w)
    ensures n >= Pow10(w) ==> Spelled(n, w) >= Pow10(w - 1)
    decreases n
  {
    hide Spelled;
    SpelledStep(n, w);
    if n >= Pow10(w) {
      Pow10Grows(w);
      SpelledRange(n / 10, w);
    }
  }

  /** What the size in a HELLO reads as: the digits that the key leaves room for. */
  function HelloSize(key: nat, size: nat): nat
    requires |Decimal(key)| <= 12
  {
    Spelled(size, 13 - |Decimal(key)|)
  }

  lemma CutBehindComma(k: string, z: string)
    requires |k| <= 12
    ensures Printed(k + "," + z, 15) == k + "," + Printed(z, 14 - |k|)
  {
  }

  /** A receiver reads the key of a HELLO back, and the digits of the size that fitted, whatever octets follow. */
  lemma HelloReads(key: nat, size: nat, tail: string)
    requires |Decimal(key)| <= 12
    ensures FirstField(HelloText(key, size) + tail) == key
    ensures SecondField(HelloText(key, size) + tail) == HelloSize(key, size)
  {
    hide Decimal, Atoi, Comma, Digits;
    var k, z, options := Decimal(key), Printed(Decimal(size), 14 - |Decimal(key)|), HELLO_OPTIONS;
    CutBehindComma(k, Decimal(size));
    Regroup(k, z, options, tail);
    var second := z + "," + (options + tail);
    var text := k + "," + second;
    FieldOfDecimal(key, second);
    assert text[|k| + 1..] == second;
    FieldOfDigits(z, [], options + tail);
    assert z + [] == z;
  }

  /**
   * A receiver reads the key and the size of a HELLO back, whatever octets follow the text, exactly when
   * both numbers fit the sender's 15-character buffer.
   */
  lemma HelloReadsBackIff(key: nat, size: nat, tail: string)
    requires |Decimal(key)| <= 12
    ensures FirstField(HelloText(key, size) + tail) == key
    ensures SecondField(HelloText(key, size) + tail) == size <==> |Decimal(key)| + |Decimal(size)| <= 13
  {
    hide Decimal, FirstField, SecondField, HelloText, Spelled;
    var w := 13 - |Decimal(key)|;
    HelloReads(key, size, tail);
    SpelledRange(size, w);
    DecimalLength(size, w);
  }

  /** What comes back of a HELLOACK is the number its first five digits spell. */
  lemma AckReads(size: nat, tail: string)
    ensures FirstField(AckText(size) + tail) == Spelled(size, 5)
  {
    hide FirstField;
    var z, options := Printed(Decimal(size), 6), ACK_OPTIONS;
    assert z + "YES" + "," + options + tail == z + "YES" + "," + (options + tail);
    FieldOfDigits(z, "YES", options + tail);
  }

  /** The size of a HELLOACK comes back exactly when it has at most five digits. */
  lemma AckReadsBackIffShort(size: nat, tail: string)
    ensures FirstField(AckText(size) + tail) == size <==> size < 100000
  {
    hide FirstField, AckText, Spelled;
    AckReads(size, tail);
    SpelledRange(size, 5);
    Powers();
  }

  lemma Powers()
    ensures Pow10(4) == 10000 && Pow10(5) == 100000 && Pow10(7) == 10000000 && Pow10(8) == 100000000
  {
    assert Pow10(2) == 100;
    assert Pow10(6) == 1000000;
  }
}
