/** Hexadecimal digits, the numbers they denote, and the fixed-width printers of the trace export. */
module Hex {
  import opened Common

  predicate IsDecDigit(c: char) {
    '0' <= c <= '9'
  }

  predicate IsHexDigit(c: char) {
    IsDecDigit(c) || 'a' <= c <= 'f' || 'A' <= c <= 'F'
  }

  predicate IsX(c: char) {
    c == 'x' || c == 'X'
  }

  predicate AllHex(s: string) {
    forall c :: c in s ==> IsHexDigit(c)
  }

  function DigitValue(c: char): (v: nat)
    requires IsHexDigit(c)
    ensures v < 16
  {
    if IsDecDigit(c) then (c - '0') as nat
    else if 'a' <= c <= 'f' then (c - 'a') as nat + 10
    else (c - 'A') as nat + 10
  }

  lemma LowerInOrder(v: nat)
    requires v < 16
    ensures var c := "0123456789abcdef"[v]; c == if v < 10 then '0' + v as char else 'a' + (v - 10) as char
  {
  }

  lemma UpperInOrder(v: nat)
    requires v < 16
    ensures var c := "0123456789ABCDEF"[v]; c == if v < 10 then '0' + v as char else 'A' + (v - 10) as char
  {
  }

  /** The sixteen digits, in order, in either case. */
  lemma DigitsInOrder(v: nat)
    requires v < 16
    ensures IsHexDigit("0123456789abcdef"[v]) && DigitValue("0123456789abcdef"[v]) == v
    ensures IsHexDigit("0123456789ABCDEF"[v]) && DigitValue("0123456789ABCDEF"[v]) == v
    ensures HexDigit(v) == "0123456789ABCDEF"[v]
  {
    LowerInOrder(v);
    UpperInOrder(v);
  }

  /** There are no other digits. */
  lemma OnlyDigits(c: char)
    ensures IsHexDigit(c) <==> c in "0123456789abcdefABCDEF"
  {
    if IsHexDigit(c) {
      var v := DigitValue(c);
      DigitsInOrder(v);
      assert c == "0123456789abcdefABCDEF"[if 'A' <= c <= 'F' then v + 6 else v];
    }
  }

  /** The upper-case digit of the low four bits. */
  function HexDigit(v: nat): (c: char)
    ensures IsHexDigit(c) && DigitValue(c) == v % 16
    ensures IsDecDigit(c) || 'A' <= c <= 'F'
  {
    var low := v % 16;
    if low < 10 then '0' + low as char else 'A' + (low - 10) as char
  }

  /** The number that a digit string denotes, most significant digit first. */
  function HexValue(s: string): nat
    requires AllHex(s)
  {
    if s == "" then 0
    else
      assert s[|s| - 1] in s;
      HexValue(s[..|s| - 1]) * 16 + DigitValue(s[|s| - 1])
  }

  function Pow16(n: nat): (p: nat)
    ensures p > 0
  {
    if n == 0 then 1 else 16 * Pow16(n - 1)
  }

  /**
   * A bounded unsigned conversion that must use up the whole text, as the program demands of std::from_chars with base 16:
   * at least one digit, digits only, and a value that fits.
   */
  function FromChars(s: string, limit: nat): (r: Option<nat>)
    ensures r.Some? ==> r.value < limit
  {
    if s != "" && AllHex(s) && HexValue(s) < limit then Some(HexValue(s)) else None
  }

  lemma {:induction false} HexValueAppend(a: string, b: string)
    requires AllHex(a) && AllHex(b)
    ensures AllHex(a + b) && HexValue(a + b) == HexValue(a) * Pow16(|b|) + HexValue(b)
  {
    if b == "" {
      assert a + b == a;
    } else {
      var front, last := b[..|b| - 1], b[|b| - 1];
      assert last in b;
      HexValueAppend(a, front);
      assert (a + b)[..|a + b| - 1] == a + front;
      assert (a + b)[|a + b| - 1] == last;
      ShiftDigit(HexValue(a), Pow16(|front|), HexValue(front), DigitValue(last));
    }
  }

  lemma ShiftDigit(v: int, p: int, f: int, d: int)
    ensures (v * p + f) * 16 + d == v * (16 * p) + (f * 16 + d)
  {
    assert v * (16 * p) == 16 * (v * p);
  }

  lemma {:induction false} HexValueBound(s: string)
    requires AllHex(s)
    ensures HexValue(s) < Pow16(|s|)
  {
    if s != "" {
      assert s[|s| - 1] in s;
      HexValueBound(s[..|s| - 1]);
    }
  }

  lemma Pow16Values()
    ensures Pow16(1) == 16 && Pow16(2) == 0x100 && Pow16(8) == 0x1_0000_0000 && Pow16(16) == TWO_64
  {
    Pow16Add(8, 8);
    Pow16Add(4, 4);
    Pow16Add(2, 2);
    assert Pow16(1) == 16 * Pow16(0);
    assert Pow16(2) == 16 * Pow16(1);
  }

  lemma {:induction false} Pow16Add(m: nat, n: nat)
    ensures Pow16(m + n) == Pow16(m) * Pow16(n)
  {
    if m > 0 {
      Pow16Add(m - 1, n);
      assert Pow16(m + n) == 16 * Pow16(m - 1 + n);
      Regroup(Pow16(m - 1), Pow16(n));
    }
  }

  lemma Regroup(a: int, b: int)
    ensures 16 * (a * b) == (16 * a) * b
  {
  }

  // ---------------------------------------------------------------- padding

  function Zeros(n: nat): (s: string)
    ensures |s| == n && AllHex(s)
  {
    if n == 0 then "" else Zeros(n - 1) + ['0']
  }

  lemma {:induction false} ZerosValue(n: nat)
    ensures HexValue(Zeros(n)) == 0
  {
    if n > 0 {
      assert Zeros(n)[..n - 1] == Zeros(n - 1);
      ZerosValue(n - 1);
    }
  }

  // ---------------------------------------------------------------- printers

  /** The low `digits` hexadecimal digits of a value. */
  function Digits(value: nat, digits: nat): (s: string)
    ensures |s| == digits && AllHex(s)
  {
    if digits == 0 then "" else Digits(value / 16, digits - 1) + [HexDigit(value)]
  }

  /** One more digit on the right. */
  lemma HexValueSnoc(s: string, c: char)
    requires AllHex(s) && IsHexDigit(c)
    ensures AllHex(s + [c]) && HexValue(s + [c]) == HexValue(s) * 16 + DigitValue(c)
  {
    assert (s + [c])[..|s|] == s;
  }

  function Quotient(value: nat, unit: nat): nat
    requires unit > 0
  {
    value / unit
  }

  /** Digit `i` from the right is the value's, in upper case. */
  lemma {:induction false} DigitAt(value: nat, digits: nat, i: nat)
    requires i < digits
    ensures Digits(value, digits)[digits - 1 - i] == HexDigit(Quotient(value, Pow16(i)))
  {
    hide HexDigit;
    if i > 0 {
      DigitAt(value / 16, digits - 1, i - 1);
      DivTwice(value, Pow16(i - 1));
    }
  }

  lemma DivTwice(value: nat, p: nat)
    requires p > 0
    ensures value / 16 / p == value / (16 * p)
  {
    var q, r := value / 16, value % 16;
    var a, b := q / p, q % p;
    assert value == 16 * q + r && q == p * a + b;
    assert value == (16 * p) * a + (16 * b + r) by {
      assert 16 * (p * a) == (16 * p) * a;
    }
    ModUnique(value, 16 * p, a, 16 * b + r);
  }

  lemma {:induction false} DigitsValue(value: nat, digits: nat)
    ensures HexValue(Digits(value, digits)) == value % Pow16(digits)
  {
    hide HexValue, HexDigit, DigitValue, AllHex;
    if digits > 0 {
      DigitsValue(value / 16, digits - 1);
      HexValueSnoc(Digits(value / 16, digits - 1), HexDigit(value));
      ModSplit(value, Pow16(digits - 1));
    } else {
      EmptyValue();
    }
  }

  lemma EmptyValue()
    ensures AllHex("") && HexValue("") == 0
  {
  }

  /** The low digits of a number are those of its quotient by sixteen, then its last digit. */
  lemma ModSplit(value: nat, p: nat)
    requires p > 0
    ensures value / 16 % p * 16 + value % 16 == value % (16 * p)
  {
    var q, r := value / 16, value % 16;
    var a, b := q / p, q % p;
    assert value == 16 * q + r && q == p * a + b;
    assert value == (16 * p) * a + (16 * b + r) by {
      assert 16 * (p * a) == (16 * p) * a;
    }
    assert 0 <= 16 * b + r < 16 * p;
    ModUnique(value, 16 * p, a, 16 * b + r);
  }

  lemma ModUnique(value: nat, m: nat, a: nat, r: nat)
    requires m > 0 && value == m * a + r && r < m
    ensures value % m == r && value / m == a
  {
    var q, s := value / m, value % m;
    assert m * (q - a) == r - s by {
      assert value == m * q + s;
    }
    Scale(m, q - a);
  }

  lemma Scale(m: int, x: int)
    requires m > 0
    ensures x >= 1 ==> m * x >= m
    ensures x <= -1 ==> m * x <= -m
  {
  }
}
