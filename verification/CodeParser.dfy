/** The parsing loops over a position, and the printers that the parser inverts. */
module CodeParser {
  import opened Common
  import opened Hex
  import opened CodeGrammar
  import opened CodeText
  import opened CodeTextProofs

  method SkipWhitespace(text: string, start: nat) returns (position: nat)
    requires start <= |text|
    ensures position == start + CountSpace(text[start..]) <= |text|
  {
    position := start;
    while position < |text| && IsSpace(text[position])
      invariant start <= position <= |text|
      invariant start + CountSpace(text[start..]) == position + CountSpace(text[position..])
    {
      assert text[position..][1..] == text[position + 1..];
      position := position + 1;
    }
  }

  method ParseByte(text: string, position: nat) returns (byte: Result<u8, CodeError>)
    requires position <= |text|
    ensures byte ==
      if |text| - position < 2 then Err(DanglingNibble(position))
      else if IsPair(text[position..]) then Ok(DigitValue(text[position]) * 16 + DigitValue(text[position + 1]))
      else Err(InvalidByte(position))
  {
    if |text| - position < 2 {
      return Err(DanglingNibble(position));
    }
    var pair := text[position..position + 2];
    var value := FromChars(pair, 0x100);
    PairValue(pair);
    if value == None {
      return Err(InvalidByte(position));
    }
    return Ok(value.value);
  }

  lemma PairValue(pair: string)
    requires |pair| == 2
    ensures FromChars(pair, 0x100) == if IsPair(pair) then Some(DigitValue(pair[0]) * 16 + DigitValue(pair[1])) else None
  {
    if IsPair(pair) {
      assert pair[..1] == [pair[0]] && pair[..1][..0] == "";
      assert HexValue(pair[..1]) == DigitValue(pair[0]);
    } else {
      assert pair[0] in pair && pair[1] in pair;
    }
  }

  lemma PrependMore(result: seq<u8>, byte: u8, rest: Parsed)
    ensures Prepend(result, Prepend([byte], rest)) == Prepend(result + [byte], rest)
  {
    if rest.Ok? {
      assert result + ([byte] + rest.value) == result + [byte] + rest.value;
    }
  }

  lemma PrependError(result: seq<u8>, e: CodeError)
    ensures Prepend(result, Err(e)) == Err(e)
  {
  }

  lemma PrependEmpty(result: seq<u8>, rest: Parsed)
    ensures Prepend([], rest) == rest && Prepend(result, Ok([])) == Ok(result)
  {
    assert result + [] == result;
    if rest.Ok? {
      assert [] + rest.value == rest.value;
    }
  }

  method SkipDigits(text: string, start: nat) returns (position: nat)
    requires start <= |text|
    ensures position == start + CountHex(text[start..]) <= |text|
  {
    position := start;
    while position < |text| && IsHexDigit(text[position])
      invariant start <= position <= |text|
      invariant start + CountHex(text[start..]) == position + CountHex(text[position..])
    {
      assert text[position..][1..] == text[position + 1..];
      position := position + 1;
    }
  }

  /** One element of a braced list that starts at `start`: its byte, and the position after it and its comma. */
  method ParseElement(text: string, start: nat) returns (element: Result<Lexed, CodeError>)
    requires start <= |text|
    ensures element == LexItem(text[start..], start)
  {
    hide CountHex, CountSpace, ByteOf;
    var position := start;
    ghost var s := text[start..];
    if |text| - position < 3 || text[position] != '0' || !IsX(text[position + 1]) {
      return Err(ExpectedPrefix(position));
    }
    position := position + 2;
    var digitStart := position;
    assert s[2..] == text[digitStart..];
    position := SkipDigits(text, digitStart);
    var digits := text[digitStart..position];
    assert digits == s[2..][..CountHex(s[2..])];
    if |digits| == 0 {
      return Err(ExpectedDigit(digitStart));
    }
    if |digits| > 2 {
      return Err(TooLarge(digitStart - 2));
    }
    assert s[2..][CountHex(s[2..])..] == text[position..];
    position := SkipWhitespace(text, position);
    ghost var tail := s[2..][CountHex(s[2..])..];
    assert tail[CountSpace(tail)..] == text[position..];
    if position < |text| && text[position] == '}' {
      return Ok(Lexed(ByteOf(digits), position - start));
    }
    if position == |text| || text[position] != ',' {
      return Err(ExpectedComma(position));
    }
    return Ok(Lexed(ByteOf(digits), position + 1 - start));
  }

  method ParseBracedLoop(text: string, start: nat) returns (parsed: Parsed)
    requires start <= |text|
    ensures parsed == ParseBraced(text[start..], start, false)
  {
    hide ParseBraced, LexItem, CountSpace;
    var position := start;
    var result: seq<u8> := [];
    PrependEmpty([], ParseBraced(text[start..], start, false));
    while true
      invariant start <= position <= |text|
      invariant ParseBraced(text[start..], start, false)
        == Prepend(result, ParseBraced(text[position..], position, result != []))
      decreases |text| - position
    {
      BracedUnfold(text[position..], position, result != []);
      var here := SkipWhitespace(text, position);
      assert text[position..][CountSpace(text[position..])..] == text[here..];
      if here == |text| {
        return Err(MissingBrace);
      }
      if text[here] == '}' {
        assert text[here..][1..] == text[here + 1..];
        var end := SkipWhitespace(text, here + 1);
        if end != |text| {
          return Err(UnexpectedText(end));
        }
        PrependEmpty(result, Ok([]));
        return if result == [] then Err(NoCode) else Ok(result);
      }
      var element := ParseElement(text, here);
      if element.Err? {
        return Err(element.error);
      }
      BracedStep(text[here..], here, result != [], element.value);
      position := here + element.value.used;
      assert text[here..][element.value.used..] == text[position..];
      PrependMore(result, element.value.byte, ParseBraced(text[position..], position, true));
      result := result + [element.value.byte];
    }
  }

  method ParseEscapedLoop(text: string, start: nat) returns (parsed: Parsed)
    requires start <= |text|
    ensures parsed == ParseEscaped(text[start..], start)
  {
    hide ParseEscaped, ParseEscapedAt, CountSpace, Prepend;
    var position := start;
    var result: seq<u8> := [];
    PrependEmpty([], ParseEscaped(text[start..], start));
    while position < |text|
      invariant start <= position <= |text|
      invariant ParseEscaped(text[start..], start) == Prepend(result, ParseEscaped(text[position..], position))
      decreases |text| - position
    {
      EscapedUnfold(text[position..], position);
      var here := SkipWhitespace(text, position);
      assert text[position..][CountSpace(text[position..])..] == text[here..];
      position := here;
      if position == |text| {
        EscapedEnd(position);
        PrependEmpty(result, Ok([]));
        return Ok(result);
      }
      EscapedRead(text[here..], here);
      if |text| - position < 4 || text[position] != '\\' || !IsX(text[position + 1]) {
        PrependError(result, ExpectedEscape(position));
        return Err(ExpectedEscape(position));
      }
      assert text[here..][2..] == text[here + 2..] && text[here..][4..] == text[here + 4..];
      var byte := ParseByte(text, position + 2);
      if byte.Err? {
        PrependError(result, byte.error);
        return Err(byte.error);
      }
      PrependMore(result, byte.value, ParseEscaped(text[here + 4..], here + 4));
      result := result + [byte.value];
      position := position + 4;
    }
    EscapedUnfold(text[position..], position);
    EscapedEnd(position);
    PrependEmpty(result, Ok([]));
    return Ok(result);
  }

  method ParsePlainLoop(text: string, start: nat) returns (parsed: Parsed)
    requires start <= |text|
    ensures parsed == ParsePlain(text[start..], start)
  {
    var position := start;
    var result: seq<u8> := [];
    PrependEmpty([], ParsePlain(text[start..], start));
    while position < |text|
      invariant start <= position <= |text|
      invariant ParsePlain(text[start..], start) == Prepend(result, ParsePlain(text[position..], position))
      decreases |text| - position
    {
      ghost var s := text[position..];
      if IsSpace(text[position]) {
        assert s[1..] == text[position + 1..];
        position := position + 1;
      } else {
        if |text| - position < 2 || IsSpace(text[position + 1]) {
          return Err(DanglingNibble(position));
        }
        var byte := ParseByte(text, position);
        if byte.Err? {
          return Err(byte.error);
        }
        assert s[2..] == text[position + 2..];
        PrependMore(result, byte.value, ParsePlain(text[position + 2..], position + 2));
        result := result + [byte.value];
        position := position + 2;
      }
    }
    PrependEmpty(result, Ok([]));
    return Ok(result);
  }

  /** The parser of the program, on positions, agrees with the specification, errors and their positions included. */
  method ParseCodeText(text: string) returns (parsed: Parsed)
    ensures parsed == Parse(text)
  {
    hide CountSpace, ParseBraced, ParseEscaped, ParsePlain;
    var position := SkipWhitespace(text, 0);
    assert text[0..] == text;
    if position == |text| {
      return Err(NoCode);
    }
    if text[position] == '{' {
      parsed := ParseBracedLoop(text, position + 1);
    } else if text[position] == '\\' {
      parsed := ParseEscapedLoop(text, position);
    } else {
      parsed := ParsePlainLoop(text, position);
    }
  }

  // ---------------------------------------------------------------- printers

  function ByteText(byte: u8): (s: string)
    ensures |s| == 2 && IsPair(s) && DigitValue(s[0]) * 16 + DigitValue(s[1]) == byte
  {
    [HexDigit(byte / 16), HexDigit(byte)]
  }

  /** The bytes with a separator between them. */
  function Join(bytes: seq<u8>, separator: string): string {
    if bytes == [] then ""
    else if |bytes| == 1 then ByteText(bytes[0])
    else ByteText(bytes[0]) + separator + Join(bytes[1..], separator)
  }

  /** The editor's text: two digits a byte, separated by single spaces. */
  function FormatCodeText(bytes: seq<u8>): string {
    Join(bytes, " ")
  }

  /** The exporter's text: two digits a byte, without a separator. */
  method FormatBytes(bytes: seq<u8>) returns (text: string)
    ensures text == Join(bytes, "")
  {
    var result := new char[|bytes| * 2](_ => '0');
    var i := 0;
    while i < |bytes|
      invariant 0 <= i <= |bytes|
      invariant result[..2 * i] == Join(bytes[..i], "")
    {
      result[i * 2] := HexDigit(bytes[i] / 16);
      result[i * 2 + 1] := HexDigit(bytes[i]);
      JoinAppend(bytes[..i], bytes[i]);
      assert bytes[..i + 1] == bytes[..i] + [bytes[i]];
      assert result[..2 * (i + 1)] == result[..2 * i] + ByteText(bytes[i]);
      i := i + 1;
    }
    assert bytes[..i] == bytes;
    text := result[..];
  }

  lemma {:induction false} JoinAppend(bytes: seq<u8>, byte: u8)
    ensures Join(bytes + [byte], "") == Join(bytes, "") + ByteText(byte)
  {
    if bytes != [] {
      assert (bytes + [byte])[1..] == bytes[1..] + [byte];
      JoinAppend(bytes[1..], byte);
      if |bytes| == 1 {
        assert bytes[1..] == [];
      }
    }
  }

  /** Where byte `k` starts, with or without a character between bytes. */
  function Place(k: int, spaced: bool): int {
    if spaced then 3 * k else 2 * k
  }

  lemma {:induction false} JoinAt(bytes: seq<u8>, separator: string, k: nat)
    requires k < |bytes| && |separator| <= 1
    ensures var at, text := Place(k, |separator| == 1), Join(bytes, separator);
      && |text| == Place(|bytes|, |separator| == 1) - |separator| && 0 <= at && at + 2 <= |text|
      && text[at] == ByteText(bytes[k])[0] && text[at + 1] == ByteText(bytes[k])[1]
      && (k + 1 < |bytes| && |separator| == 1 ==> at + 2 < |text| && text[at + 2] == separator[0])
    decreases |bytes|
  {
    hide ByteText;
    var text := Join(bytes, separator);
    if |bytes| > 1 {
      var n := 2 + |separator|;
      var rest := Join(bytes[1..], separator);
      JoinAt(bytes[1..], separator, if k > 0 then k - 1 else 0);
      assert text == (ByteText(bytes[0]) + separator) + rest;
      assert forall i :: n <= i < |text| ==> text[i] == rest[i - n];
    }
  }

  lemma PrintedByte(byte: u8)
    ensures ByteText(byte)[0] == "0123456789ABCDEF"[byte / 16] && ByteText(byte)[1] == "0123456789ABCDEF"[byte % 16]
  {
    hide DigitValue, IsHexDigit;
    DigitsInOrder(byte / 16);
    DigitsInOrder(byte % 16);
  }

  /** The editor prints two upper-case digits a byte with single spaces between them, the exporter without. */
  lemma PrintedBytes(bytes: seq<u8>, k: nat)
    requires k < |bytes|
    ensures var text := FormatCodeText(bytes);
      && |text| == 3 * |bytes| - 1
      && text[3 * k] == "0123456789ABCDEF"[bytes[k] / 16] && text[3 * k + 1] == "0123456789ABCDEF"[bytes[k] % 16]
      && (k + 1 < |bytes| ==> text[3 * k + 2] == ' ')
    ensures var text := Join(bytes, "");
      && |text| == 2 * |bytes|
      && text[2 * k] == "0123456789ABCDEF"[bytes[k] / 16] && text[2 * k + 1] == "0123456789ABCDEF"[bytes[k] % 16]
  {
    hide Join, ByteText;
    JoinAt(bytes, " ", k);
    JoinAt(bytes, "", k);
    PrintedByte(bytes[k]);
  }

  function JoinPairs(bytes: seq<u8>, separator: string): seq<Pair> {
    if bytes == [] then []
    else [Pair(ByteText(bytes[0])[0], ByteText(bytes[0])[1], if |bytes| == 1 then "" else separator)]
         + JoinPairs(bytes[1..], separator)
  }

  lemma {:induction false} JoinDerivation(bytes: seq<u8>, separator: string)
    requires AllSpace(separator)
    ensures var pairs := JoinPairs(bytes, separator);
      ValidPairs(pairs) && RenderPairs(pairs) == Join(bytes, separator) && PairBytes(pairs) == bytes
  {
    if bytes != [] {
      JoinDerivation(bytes[1..], separator);
      var pairs := JoinPairs(bytes, separator);
      assert pairs[1..] == JoinPairs(bytes[1..], separator);
      assert pairs[0].Valid() && pairs[0].Value() == bytes[0];
      assert ByteText(bytes[0]) == [pairs[0].high, pairs[0].low];
      if |bytes| == 1 { assert bytes[1..] == []; }
    }
  }

  /** Parsing inverts the editor's and the exporter's printer exactly on the non-empty byte strings. */
  lemma ParseInvertsPrinters(bytes: seq<u8>)
    ensures Parse(FormatCodeText(bytes)) == Ok(bytes) <==> bytes != []
    ensures Parse(Join(bytes, "")) == Ok(bytes) <==> bytes != []
  {
    ParseInvertsJoin(bytes, " ");
    ParseInvertsJoin(bytes, "");
  }

  /** The printed empty string is the empty text, which is refused as no code. */
  lemma NoCodeInstance()
    ensures Parse(FormatCodeText([])) == Err(NoCode) && Parse(Join([], "")) == Err(NoCode)
  {
  }

  /** Any space may separate the bytes. */
  lemma ParseInvertsJoin(bytes: seq<u8>, separator: string)
    requires AllSpace(separator)
    ensures Parse(Join(bytes, separator)) == Ok(bytes) <==> bytes != []
  {
    if bytes == [] {
    } else {
      var pairs := JoinPairs(bytes, separator);
      JoinDerivation(bytes, separator);
      Complete(Plain("", pairs));
      assert Render(Plain("", pairs)) == Join(bytes, separator);
    }
  }
}
