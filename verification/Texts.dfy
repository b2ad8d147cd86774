/** The library functions on texts that the handlers call, and which texts name a positive number. */
module Texts {

  predicate HasSuffix(text: string, suffix: string) {
    |suffix| <= |text| && text[|text| - |suffix|..] == suffix
  }

  function TrimPrefix(text: string, prefix: string): string {
    if prefix <= text then text[|prefix|..] else text
  }

  function TrimSuffix(text: string, suffix: string): string {
    if HasSuffix(text, suffix) then text[..|text| - |suffix|] else text
  }

  /** Removes the character from both ends. */
  function Trim(text: string, c: char): string {
    if text == [] then []
    else if text[0] == c then Trim(text[1..], c)
    else if text[|text| - 1] == c then Trim(text[..|text| - 1], c)
    else text
  }

  function Repeated(c: char, n: nat): string {
    seq(n, _ => c)
  }

  ghost predicate Between(text: string, c: char, inner: string) {
    exists a: nat, b: nat :: text == Repeated(c, a) + inner + Repeated(c, b)
  }

  lemma TrimmedBetween(text: string, c: char)
    ensures Between(text, c, Trim(text, c))
  {
    if text == [] {
      assert text == Repeated(c, 0) + [] + Repeated(c, 0);
    } else if text[0] == c {
      TrimmedBetween(text[1..], c);
      var a: nat, b: nat :| text[1..] == Repeated(c, a) + Trim(text, c) + Repeated(c, b);
      assert text == Repeated(c, a + 1) + Trim(text, c) + Repeated(c, b);
    } else if text[|text| - 1] == c {
      TrimmedBetween(text[..|text| - 1], c);
      var a: nat, b: nat :| text[..|text| - 1] == Repeated(c, a) + Trim(text, c) + Repeated(c, b);
      assert text == Repeated(c, a) + Trim(text, c) + Repeated(c, b + 1);
    } else {
      assert text == Repeated(c, 0) + text + Repeated(c, 0);
    }
  }

  lemma {:induction false} TrimOfPadded(c: char, a: nat, inner: string, b: nat)
    requires inner != [] && inner[0] != c && inner[|inner| - 1] != c
    ensures Trim(Repeated(c, a) + inner + Repeated(c, b), c) == inner
    decreases a + b
  {
    var text := Repeated(c, a) + inner + Repeated(c, b);
    if a != 0 {
      assert text[1..] == Repeated(c, a - 1) + inner + Repeated(c, b);
      TrimOfPadded(c, a - 1, inner, b);
    } else if b != 0 {
      assert text[..|text| - 1] == Repeated(c, a) + inner + Repeated(c, b - 1);
      TrimOfPadded(c, a, inner, b - 1);
    } else {
      assert text == inner;
    }
  }

  // ---- numbers ----

  const INT64_MAX: int := 0x7FFF_FFFF_FFFF_FFFF

  datatype Parsed = NotANumber | Number(value: int)

  predicate IsDigit(c: char) {
    '0' <= c <= '9'
  }

  predicate AllDigits(text: string) {
    forall i :: 0 <= i < |text| ==> IsDigit(text[i])
  }

  function DigitsValue(text: string): nat
    requires AllDigits(text)
  {
    if text == [] then 0
    else DigitsValue(text[..|text| - 1]) * 10 + (text[|text| - 1] - '0') as nat
  }

  /** A decimal 64-bit integer: an optional sign and at least one digit, refused when it is out of range. */
  function ParseInt(text: string): Parsed {
    var signed := text != [] && (text[0] == '+' || text[0] == '-');
    var digits := if signed then text[1..] else text;
    if digits == [] || !AllDigits(digits) then NotANumber
    else
      var size: int := DigitsValue(digits);
      var value := if signed && text[0] == '-' then -size else size;
      if -INT64_MAX - 1 <= value <= INT64_MAX then Number(value) else NotANumber
  }

  /** The digits of n without leading zeros; none for 0. */
  function Decimal(n: nat): (text: string)
    ensures AllDigits(text)
    ensures text != [] <==> 0 < n
  {
    if n == 0 then [] else Decimal(n / 10) + ['0' + (n % 10) as char]
  }

  lemma {:induction false} LeadingZeros(text: string) returns (zeros: nat)
    requires AllDigits(text)
    ensures text == Repeated('0', zeros) + Decimal(DigitsValue(text))
  {
    if text == [] {
      zeros := 0;
    } else {
      var m := |text| - 1;
      zeros := LeadingZeros(text[..m]);
      assert text == text[..m] + [text[m]];
      if DigitsValue(text) == 0 {
        zeros := zeros + 1;
      }
    }
  }

  lemma {:induction false} ZerosAddNothing(zeros: nat, n: nat)
    ensures AllDigits(Repeated('0', zeros) + Decimal(n))
    ensures DigitsValue(Repeated('0', zeros) + Decimal(n)) == n
    decreases n, zeros
  {
    var text := Repeated('0', zeros) + Decimal(n);
    if n != 0 {
      assert text[..|text| - 1] == Repeated('0', zeros) + Decimal(n / 10);
      ZerosAddNothing(zeros, n / 10);
    } else if zeros != 0 {
      assert text[..|text| - 1] == Repeated('0', zeros - 1) + Decimal(0);
      ZerosAddNothing(zeros - 1, 0);
    }
  }

  /** Digits have the value n exactly when they are its decimal digits after any number of zeros. */
  lemma DigitsNameIff(text: string, n: nat)
    requires AllDigits(text)
    ensures DigitsValue(text) == n <==> exists zeros: nat :: text == Repeated('0', zeros) + Decimal(n)
  {
    if DigitsValue(text) == n {
      var zeros := LeadingZeros(text);
    }
    forall zeros: nat | text == Repeated('0', zeros) + Decimal(n) ensures DigitsValue(text) == n {
      ZerosAddNothing(zeros, n);
    }
  }

  /** The digits of n, at least one, with leading zeros allowed. */
  ghost predicate Written(digits: string, n: nat) {
    digits != [] && exists zeros: nat :: digits == Repeated('0', zeros) + Decimal(n)
  }

  /** The texts that are read as n: its digits after at most one sign, which fits n. */
  ghost predicate Names(text: string, n: int) {
    && -0x8000_0000_0000_0000 <= n < 0x8000_0000_0000_0000
    && text != []
    && match text[0]
       case '-' => n <= 0 && Written(text[1..], -n)
       case '+' => 0 <= n && Written(text[1..], n)
       case _ => 0 <= n && Written(text, n)
  }

  lemma WrittenIff(digits: string, n: nat)
    ensures Written(digits, n) <==> digits != [] && AllDigits(digits) && DigitsValue(digits) == n
  {
    if AllDigits(digits) {
      DigitsNameIff(digits, n);
    }
    forall zeros: nat | digits == Repeated('0', zeros) + Decimal(n) ensures AllDigits(digits) {
      ZerosAddNothing(zeros, n);
    }
  }

  /** Exactly the texts that name a number in the range of 64 bits are read, as that number. */
  lemma ParsedIff(text: string, n: int)
    ensures ParseInt(text) == Number(n) <==> Names(text, n)
  {
    if text != [] {
      var digits := if text[0] == '+' || text[0] == '-' then text[1..] else text;
      WrittenIff(digits, if n < 0 then -n else n);
      hide Written, DigitsValue;
    }
  }

  /** The first digit weighs most. */
  lemma ReadsFromLeft()
    ensures ParseInt("120") == Number(120)
  {
    assert "120"[..2] == "12" && "12"[..1] == "1" && "1"[..0] == "";
    assert DigitsValue("1") == 1;
    assert DigitsValue("12") == 12;
    assert DigitsValue("120") == 120;
  }
}
