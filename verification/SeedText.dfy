/** Seed texts and the values they denote, with the printers of the trace export that they invert. */
module SeedText {
  import opened Common
  import opened MachineState
  import opened Hex

  const MXCSR_DEFINED_MASK := 0xFFFF
  const CONTROL_WORD_MAX := 0xFFFF

  predicate HasPrefix(s: string) {
    |s| >= 2 && s[0] == '0' && IsX(s[1])
  }

  /** The digits of a hexadecimal text, without an optional prefix. */
  function DigitsOf(s: string): string {
    if HasPrefix(s) then s[2..] else s
  }

  function ParseSeed(s: string): Option<u64> {
    if s == "" then Some(0) else FromChars(DigitsOf(s), TWO_64)
  }

  function ParseBounded(s: string, max: nat): Option<u64> {
    var value := ParseSeed(s);
    if value.Some? && value.value <= max then value else None
  }

  function ParseMxcsr(s: string): (r: Option<u64>)
    ensures r.Some? ==> r.value <= MXCSR_DEFINED_MASK
  {
    ParseBounded(s, MXCSR_DEFINED_MASK)
  }

  function ParseControlWord(s: string): (r: Option<u64>)
    ensures r.Some? ==> r.value <= CONTROL_WORD_MAX
  {
    ParseBounded(s, CONTROL_WORD_MAX)
  }

  /** A decimal value as the bits of a double, and whether it had the single-precision suffix. */
  datatype DecimalSeed = DecimalSeed(value: u64, isSingle: bool)

  /** Floating-point text and conversions: any functions of these types. */
  datatype Floats = Floats(parse: string -> Option<DecimalSeed>, toSingle: u64 -> u32, toSt80: u64 -> St80)

  predicate IsDecimal(s: string) {
    '.' in s || 'i' in s || 'I' in s || 'n' in s || 'N' in s
  }

  /** Up to 32 hexadecimal digits, split into a low half of 16 digits and a high half. */
  function ComposeXmm(f: Floats, s: string): Option<Xmm> {
    if s == "" then Some(ZERO_XMM)
    else if IsDecimal(s) then
      match f.parse(s)
      case None => None
      case Some(decimal) => Some(Xmm(if decimal.isSingle then f.toSingle(decimal.value) else decimal.value, 0))
    else
      var digits := DigitsOf(s);
      if digits == "" || |digits| > 32 then None
      else
        var lowBegin := if |digits| > 16 then |digits| - 16 else 0;
        var low := FromChars(digits[lowBegin..], TWO_64);
        if low == None then None
        else if lowBegin == 0 then Some(Xmm(low.value, 0))
        else
          var high := FromChars(digits[..lowBegin], TWO_64);
          if high == None then None else Some(Xmm(low.value, high.value))
  }

  /** The bytes of big-endian digit pairs, last pair first. */
  function PairsReversed(s: string): (r: Option<seq<u8>>)
    requires |s| % 2 == 0
    ensures r.Some? ==> |r.value| == |s| / 2
  {
    if s == "" then Some([])
    else
      var rest := PairsReversed(s[2..]);
      var pair := FromChars(s[..2], 0x100);
      if rest == None || pair == None then None else Some(rest.value + [pair.value])
  }

  /** Up to 20 hexadecimal digits, padded on the left and read as a little-endian byte array. */
  function ComposeSt(f: Floats, s: string): Option<St80> {
    if s == "" then Some(ZERO_ST80)
    else if IsDecimal(s) then
      match f.parse(s)
      case None => None
      case Some(decimal) => Some(f.toSt80(decimal.value))
    else
      var digits := DigitsOf(s);
      if digits == "" || |digits| > 20 then None
      else
        var bytes := PairsReversed(Zeros(20 - |digits|) + digits);
        if bytes == None then None else Some(bytes.value)
  }

  // ---------------------------------------------------------------- what the texts denote

  lemma FitsInWord(digits: string)
    requires AllHex(digits) && |digits| <= 16
    ensures HexValue(digits) < TWO_64
  {
    HexValueBound(digits);
    Pow16Values();
    Pow16Monotone(|digits|, 16);
  }

  lemma {:induction false} Pow16Monotone(m: nat, n: nat)
    requires m <= n
    ensures Pow16(m) <= Pow16(n)
    decreases n
  {
    if m < n { Pow16Monotone(m, n - 1); }
  }

  // ---------------------------------------------------------------- prefixes and decimals

  /** A prefix in either case, or none, leaves the same digits. */
  lemma PrefixIsOptional(f: Floats, digits: string)
    requires digits != "" && AllHex(digits)
    ensures DigitsOf(digits) == DigitsOf("0x" + digits) == DigitsOf("0X" + digits) == digits
    ensures ParseSeed(digits) == ParseSeed("0x" + digits) == ParseSeed("0X" + digits)
  {
    assert |digits| >= 2 ==> digits[1] in digits;
    assert ("0x" + digits)[2..] == digits && ("0X" + digits)[2..] == digits;
  }

  /** The characters that make a text decimal: a point, or a letter of "inf" and "nan" that is no hexadecimal digit. */
  predicate HasDecimalMark(s: string) {
    exists c :: c in s && c in ".iInN"
  }

  /**
   * A decimal XMM text is what its number says: a single in the low 32 bits, a double in the low 64, and zeros above. A
   * decimal ST text is its number in 80 bits.
   */
  lemma DecimalTexts(f: Floats, s: string)
    requires HasDecimalMark(s)
    ensures (ComposeXmm(f, s).Some? <==> f.parse(s).Some?) && (ComposeSt(f, s).Some? <==> f.parse(s).Some?)
    ensures f.parse(s).Some? ==>
      && ComposeXmm(f, s).value.high == 0
      && (f.parse(s).value.isSingle ==> ComposeXmm(f, s).value.low == f.toSingle(f.parse(s).value.value) < 0x1_0000_0000)
      && (!f.parse(s).value.isSingle ==> ComposeXmm(f, s).value.low == f.parse(s).value.value)
      && ComposeSt(f, s).value == f.toSt80(f.parse(s).value.value)
  {
    var c :| c in s && c in ".iInN";
    assert c == '.' || c == 'i' || c == 'I' || c == 'n' || c == 'N';
  }

  /** Any other text that is not empty is hexadecimal. */
  lemma DecimalMarks(s: string)
    ensures IsDecimal(s) <==> HasDecimalMark(s)
  {
    assert '.' in ".iInN" && 'i' in ".iInN" && 'I' in ".iInN" && 'n' in ".iInN" && 'N' in ".iInN";
    if HasDecimalMark(s) {
      var c :| c in s && c in ".iInN";
      assert c == '.' || c == 'i' || c == 'I' || c == 'n' || c == 'N';
    }
  }

  /** A text that is empty, or has at least one digit behind its optional prefix and nothing else. */
  predicate IsNumber(s: string) {
    s == "" || (DigitsOf(s) != "" && AllHex(DigitsOf(s)))
  }

  /**
   * A MXCSR or control word text is accepted if and only if it is a number of at most 16 bits, and then with the
   * positional value of its digits.
   */
  lemma EnvironmentDenotes(s: string)
    ensures ParseMxcsr(s).Some? <==> IsNumber(s) && HexValue(DigitsOf(s)) <= 0xFFFF
    ensures ParseControlWord(s).Some? <==> IsNumber(s) && HexValue(DigitsOf(s)) <= 0xFFFF
    ensures ParseMxcsr(s).Some? ==> ParseMxcsr(s).value == HexValue(DigitsOf(s))
    ensures ParseControlWord(s).Some? ==> ParseControlWord(s).value == HexValue(DigitsOf(s))
  {
  }

  /** Leading zeros, however many, leave the verdict and the value as they are. */
  lemma LeadingZeros(digits: string, n: nat)
    requires digits != "" && AllHex(digits)
    ensures ParseMxcsr("0x" + (Zeros(n) + digits)) == ParseMxcsr("0x" + digits)
    ensures ParseControlWord("0x" + (Zeros(n) + digits)) == ParseControlWord("0x" + digits)
  {
    hide ParseMxcsr, ParseControlWord, DigitsOf, HexValue, Zeros, Pow16;
    PrefixedDigits(digits);
    PrefixedDigits(Zeros(n) + digits);
    HexValueAppend(Zeros(n), digits);
    ZerosValue(n);
    EnvironmentDenotes("0x" + digits);
    EnvironmentDenotes("0x" + (Zeros(n) + digits));
  }

  /**
   * A hexadecimal XMM text is accepted exactly with 1 to 32 digits, and its halves denote the number that the digits
   * denote.
   */
  lemma XmmDenotes(f: Floats, s: string)
    requires s != "" && !IsDecimal(s)
    ensures ComposeXmm(f, s).Some? <==> 1 <= |DigitsOf(s)| <= 32 && AllHex(DigitsOf(s))
    ensures ComposeXmm(f, s).Some? ==>
      ComposeXmm(f, s).value.low + TWO_64 * ComposeXmm(f, s).value.high == HexValue(DigitsOf(s))
  {
    hide HexValue, Pow16, IsDecimal;
    var digits := DigitsOf(s);
    if 1 <= |digits| <= 32 {
      var n := if |digits| > 16 then |digits| - 16 else 0;
      var high, low := digits[..n], digits[n..];
      assert digits == high + low;
      if AllHex(digits) {
        assert AllHex(high) && AllHex(low);
        FitsInWord(low);
        FitsInWord(high);
        HexValueAppend(high, low);
        Pow16Values();
      } else {
        var c :| c in digits && !IsHexDigit(c);
        assert c in high || c in low;
      }
    }
  }

  /** The number that a little-endian byte array denotes. */
  function LittleEndian(bytes: seq<u8>): nat {
    if bytes == [] then 0 else bytes[0] + 0x100 * LittleEndian(bytes[1..])
  }

  function Pow256(n: nat): nat {
    Pow16(2 * n)
  }

  lemma {:induction false} LittleEndianAppend(bytes: seq<u8>, last: u8)
    ensures LittleEndian(bytes + [last]) == LittleEndian(bytes) + Pow256(|bytes|) * last
  {
    if bytes == [] {
      assert [] + [last] == [last];
      assert LittleEndian([last][1..]) == 0;
    } else {
      assert (bytes + [last])[1..] == bytes[1..] + [last];
      LittleEndianAppend(bytes[1..], last);
      var p := Pow256(|bytes| - 1);
      assert Pow256(|bytes|) == 0x100 * p by {
        assert Pow16(2 * |bytes|) == 16 * Pow16(2 * |bytes| - 1);
        assert Pow16(2 * |bytes| - 1) == 16 * Pow16(2 * |bytes| - 2);
      }
      assert 0x100 * (p * last) == (0x100 * p) * last;
    }
  }

  /** The text in front of its rest, and digits only exactly if both are. */
  lemma FirstPair(s: string)
    requires |s| >= 2
    ensures s == s[..2] + s[2..] && (AllHex(s) <==> AllHex(s[..2]) && AllHex(s[2..]))
  {
    assert forall c :: c in s <==> c in s[..2] || c in s[2..];
  }

  lemma PairsStep(s: string)
    requires |s| % 2 == 0 && s != ""
    ensures var rest, pair := PairsReversed(s[2..]), FromChars(s[..2], 0x100);
      PairsReversed(s) == if rest == None || pair == None then None else Some(rest.value + [pair.value])
  {
  }

  lemma PairFits(pair: string)
    requires |pair| == 2
    ensures FromChars(pair, 0x100) == if AllHex(pair) then Some(HexValue(pair)) else None
  {
    if AllHex(pair) {
      HexValueBound(pair);
      Pow16Values();
    }
  }

  /** Digit pairs are accepted exactly if they are digits. */
  lemma {:induction false} PairsAccepted(s: string)
    requires |s| % 2 == 0
    ensures PairsReversed(s).Some? <==> AllHex(s)
  {
    hide AllHex, FromChars, HexValue;
    if s != "" {
      FirstPair(s);
      PairsStep(s);
      PairFits(s[..2]);
      PairsAccepted(s[2..]);
    } else {
      NoDigits();
    }
  }

  lemma NoDigits()
    ensures AllHex("") && HexValue("") == 0 && PairsReversed("") == Some([]) && LittleEndian([]) == 0
  {
  }

  /** Accepted pairs denote the positional value of the digits. */
  lemma {:induction false} PairsDenote(s: string)
    requires |s| % 2 == 0 && PairsReversed(s).Some?
    ensures AllHex(s) && LittleEndian(PairsReversed(s).value) == HexValue(s)
  {
    hide AllHex, FromChars, HexValue, LittleEndian, PairsReversed, Pow16;
    PairsAccepted(s);
    if s != "" {
      var first, rest := s[..2], s[2..];
      FirstPair(s);
      PairsStep(s);
      PairFits(first);
      PairsDenote(rest);
      HexValueBound(first);
      Pow16Values();
      HexValueAppend(first, rest);
      LittleEndianAppend(PairsReversed(rest).value, HexValue(first));
      assert Pow256(|PairsReversed(rest).value|) == Pow16(|rest|);
    } else {
      NoDigits();
    }
  }

  /**
   * A hexadecimal ST text is accepted exactly with 1 to 20 digits, and its bytes denote the number that the digits
   * denote.
   */
  lemma StDenotes(f: Floats, s: string)
    requires s != "" && !IsDecimal(s)
    ensures ComposeSt(f, s).Some? <==> 1 <= |DigitsOf(s)| <= 20 && AllHex(DigitsOf(s))
    ensures ComposeSt(f, s).Some? ==> LittleEndian(ComposeSt(f, s).value) == HexValue(DigitsOf(s))
  {
    hide HexValue, LittleEndian, IsDecimal, PairsReversed, Zeros, HasPrefix;
    var digits := DigitsOf(s);
    if 1 <= |digits| <= 20 {
      var zeros := Zeros(20 - |digits|);
      PairsAccepted(zeros + digits);
      if AllHex(digits) {
        PairsDenote(zeros + digits);
        HexValueAppend(zeros, digits);
        ZerosValue(20 - |digits|);
      } else {
        var c :| c in digits && !IsHexDigit(c);
        assert c in zeros + digits;
      }
    }
  }

  lemma {:induction false} LittleEndianInjective(a: seq<u8>, b: seq<u8>)
    requires |a| == |b| && LittleEndian(a) == LittleEndian(b)
    ensures a == b
  {
    if a != [] {
      assert a[0] == LittleEndian(a) % 0x100 && b[0] == LittleEndian(b) % 0x100;
      LittleEndianInjective(a[1..], b[1..]);
      assert a == [a[0]] + a[1..] && b == [b[0]] + b[1..];
    }
  }

  // ---------------------------------------------------------------- the printers and their inverses

  function HexText(value: nat, digits: nat): string {
    "0x" + Digits(value, digits)
  }

  function XmmText(value: Xmm): string {
    "0x" + Digits(value.high, 16) + Digits(value.low, 16)
  }

  function StText(value: St80): string {
    "0x" + Digits(LittleEndian(value), 20)
  }

  lemma PrefixedDigits(digits: string)
    requires AllHex(digits) && |digits| > 0
    ensures DigitsOf("0x" + digits) == digits
    ensures (forall c :: c in digits ==> IsDecDigit(c) || 'A' <= c <= 'F') ==> !IsDecimal("0x" + digits)
  {
    assert ("0x" + digits)[2..] == digits;
  }

  lemma {:induction false} DigitsUpper(value: nat, digits: nat)
    ensures forall c :: c in Digits(value, digits) ==> IsDecDigit(c) || 'A' <= c <= 'F'
  {
    if digits > 0 { DigitsUpper(value / 16, digits - 1); }
  }

  /** The printed registers have a fixed width, a lower-case prefix and upper-case digits. */
  lemma RegisterTexts(value: nat, digits: nat, xmm: Xmm, st: St80)
    ensures |HexText(value, digits)| == 2 + digits && HexText(value, digits)[..2] == "0x"
    ensures |XmmText(xmm)| == 34 && XmmText(xmm)[..2] == "0x" && |StText(st)| == 22 && StText(st)[..2] == "0x"
    ensures forall c :: c in HexText(value, digits)[2..] || c in XmmText(xmm)[2..] || c in StText(st)[2..] ==>
      IsDecDigit(c) || 'A' <= c <= 'F'
  {
    DigitsUpper(value, digits);
    DigitsUpper(xmm.high, 16);
    DigitsUpper(xmm.low, 16);
    DigitsUpper(LittleEndian(st), 20);
    assert HexText(value, digits)[2..] == Digits(value, digits);
    assert XmmText(xmm)[2..] == Digits(xmm.high, 16) + Digits(xmm.low, 16);
    assert StText(st)[2..] == Digits(LittleEndian(st), 20);
  }

  lemma SmallMod(v: nat, m: nat)
    requires v < m
    ensures v % m == v
  {
  }

  /** Reading back a printed register gives the register, for every width that the exporter uses. */
  lemma SeedRoundTrip(value: u64, digits: nat)
    requires 1 <= digits <= 16 && value < Pow16(digits)
    ensures ParseSeed(HexText(value, digits)) == Some(value)
  {
    PrefixedDigits(Digits(value, digits));
    DigitsValue(value, digits);
    SmallMod(value, Pow16(digits));
  }

  lemma XmmRoundTrip(f: Floats, value: Xmm)
    ensures ComposeXmm(f, XmmText(value)) == Some(value)
  {
    var high, low := Digits(value.high, 16), Digits(value.low, 16);
    var s := XmmText(value);
    assert s == "0x" + (high + low);
    DigitsUpper(value.high, 16);
    DigitsUpper(value.low, 16);
    PrefixedDigits(high + low);
    DigitsValue(value.high, 16);
    DigitsValue(value.low, 16);
    Pow16Values();
    SmallMod(value.high, TWO_64);
    SmallMod(value.low, TWO_64);
    assert (high + low)[16..] == low && (high + low)[..16] == high;
  }

  lemma {:induction false} LittleEndianBound(bytes: seq<u8>)
    ensures LittleEndian(bytes) < Pow256(|bytes|)
  {
    if bytes != [] {
      LittleEndianBound(bytes[1..]);
      assert Pow16(2 * |bytes|) == 16 * Pow16(2 * |bytes| - 1);
      assert Pow16(2 * |bytes| - 1) == 16 * Pow16(2 * |bytes| - 2);
    }
  }

  lemma StRoundTrip(f: Floats, value: St80)
    ensures ComposeSt(f, StText(value)) == Some(value)
  {
    var n := LittleEndian(value);
    var digits := Digits(n, 20);
    DigitsUpper(n, 20);
    PrefixedDigits(digits);
    DigitsValue(n, 20);
    LittleEndianBound(value);
    SmallMod(n, Pow16(20));
    StDenotes(f, StText(value));
    LittleEndianInjective(ComposeSt(f, StText(value)).value, value);
  }

  // ---------------------------------------------------------------- the printing loops

  /** The value shifted right by `n` hexadecimal digits. */
  function Shifted(value: nat, n: nat): nat {
    if n == 0 then value else Shifted(value, n - 1) / 16
  }

  /** One more digit on the right. */
  lemma DigitsStep(value: nat, n: nat, i: nat)
    ensures Digits(Shifted(value, n), i + 1) == Digits(Shifted(value, n + 1), i) + [HexDigit(Shifted(value, n))]
  {
  }

  lemma ShiftNothing(value: nat)
    ensures Shifted(value, 0) == value
  {
  }

  lemma DigitsStart(value: nat)
    ensures Digits(value, 0) == ""
  {
  }

  /** Two more digits on the right, for a byte. */
  lemma ByteDigits(n: nat, byte: u8, i: nat)
    requires n % 0x100 == byte
    ensures Digits(n, i + 2) == Digits(n / 0x100, i) + [HexDigit(byte / 16)] + [HexDigit(byte)]
  {
    assert n / 16 / 16 == n / 0x100;
    assert Digits(n, i + 2) == Digits(n / 16, i + 1) + [HexDigit(n)];
    assert n / 16 % 16 == byte / 16 % 16 && n % 16 == byte % 16;
  }

  method FormatHex(value: nat, digits: nat) returns (text: string)
    ensures text == HexText(value, digits)
  {
    hide Digits, Shifted, HexDigit;
    var result := new char[2 + digits](_ => '0');
    result[0], result[1] := '0', 'x';
    var i := 0;
    DigitsStart(Shifted(value, digits));
    ShiftNothing(value);
    while i < digits
      invariant 0 <= i <= digits && result[..2] == "0x"
      invariant result[2..2 + i] == Digits(Shifted(value, digits - i), i)
    {
      var shifted := Shifted(value, digits - i - 1);
      result[i + 2] := HexDigit(shifted);
      DigitsStep(value, digits - i - 1, i);
      assert result[2..2 + (i + 1)] == result[2..2 + i] + [HexDigit(shifted)];
      i := i + 1;
    }
    assert result[..] == result[..2] + result[2..2 + digits];
    text := result[..];
  }

  method FormatXmm(value: Xmm) returns (text: string)
    ensures text == XmmText(value)
  {
    hide Digits, Shifted, HexDigit;
    var result := new char[34](_ => '0');
    result[0], result[1] := '0', 'x';
    var i := 0;
    DigitsStart(Shifted(value.high, 16));
    DigitsStart(Shifted(value.low, 16));
    ShiftNothing(value.high);
    ShiftNothing(value.low);
    while i < 16
      invariant 0 <= i <= 16 && result[..2] == "0x"
      invariant result[2..2 + i] == Digits(Shifted(value.high, 16 - i), i)
      invariant result[18..18 + i] == Digits(Shifted(value.low, 16 - i), i)
    {
      var high, low := Shifted(value.high, 15 - i), Shifted(value.low, 15 - i);
      result[i + 2], result[i + 18] := HexDigit(high), HexDigit(low);
      DigitsStep(value.high, 15 - i, i);
      DigitsStep(value.low, 15 - i, i);
      assert result[2..2 + (i + 1)] == result[2..2 + i] + [HexDigit(high)];
      assert result[18..18 + (i + 1)] == result[18..18 + i] + [HexDigit(low)];
      i := i + 1;
    }
    assert result[..] == result[..2] + result[2..18] + result[18..34];
    text := result[..];
  }

  lemma {:induction false} LittleEndianDrop(bytes: seq<u8>, i: nat)
    requires i < |bytes|
    ensures LittleEndian(bytes[i..]) % 0x100 == bytes[i] && LittleEndian(bytes[i..]) / 0x100 == LittleEndian(bytes[i + 1..])
  {
    assert bytes[i..][1..] == bytes[i + 1..];
  }

  method FormatSt(value: St80) returns (text: string)
    ensures text == StText(value)
  {
    hide Digits, HexDigit, LittleEndian;
    var result := new char[22](_ => '0');
    result[0], result[1] := '0', 'x';
    var i := 0;
    DigitsStart(LittleEndian(value[10..]));
    while i < 10
      invariant 0 <= i <= 10 && result[..2] == "0x"
      invariant result[2..2 + 2 * i] == Digits(LittleEndian(value[10 - i..]), 2 * i)
    {
      var byte := value[10 - i - 1];
      result[2 + i * 2], result[2 + i * 2 + 1] := HexDigit(byte / 16), HexDigit(byte);
      LittleEndianDrop(value, 9 - i);
      ByteDigits(LittleEndian(value[9 - i..]), byte, 2 * i);
      assert 2 * (i + 1) == 2 * i + 2;
      assert result[2..2 + 2 * (i + 1)] == result[2..2 + 2 * i] + [HexDigit(byte / 16)] + [HexDigit(byte)];
      i := i + 1;
    }
    assert value[0..] == value;
    assert result[..] == result[..2] + result[2..22];
    text := result[..];
  }
}
