/** The three notations for machine code, as a grammar: a source is a derivation, and it renders to one text. */
module CodeGrammar {
  import opened Common
  import opened Hex

  predicate IsSpace(c: char) {
    c == ' ' || '\t' <= c <= '\r'
  }

  /** The six space characters. */
  lemma SpaceCharacters(c: char)
    ensures IsSpace(c) <==> c == ' ' || c == '\t' || c == '\n' || c as int == 11 || c as int == 12 || c == '\r'
  {
  }

  predicate AllSpace(s: string) {
    forall c :: c in s ==> IsSpace(c)
  }

  /** A byte as two digits, followed by space. */
  datatype Pair = Pair(high: char, low: char, gap: string) {
    predicate Valid() {
      IsHexDigit(high) && IsHexDigit(low) && AllSpace(gap)
    }

    function Value(): u8
      requires Valid()
    {
      DigitValue(high) * 16 + DigitValue(low)
    }
  }

  datatype Escape = Escape(x: char, pair: Pair) {
    predicate Valid() {
      IsX(x) && pair.Valid()
    }
  }

  /** A braced byte: one or two digits, space, and a comma followed by space. */
  datatype Item = Item(x: char, digits: string, gap: string, comma: Option<string>) {
    predicate Valid() {
      && IsX(x) && 1 <= |digits| <= 2 && AllHex(digits) && AllSpace(gap)
      && (comma.Some? ==> AllSpace(comma.value))
    }

    function Text(): string {
      ['0', x] + digits + gap + match comma case None => "" case Some(space) => "," + space
    }
  }

  /** Plain pairs, `\x` escapes, or a braced list with an optional trailing comma. Every form may start with space. */
  datatype Source =
    | Plain(lead: string, pairs: seq<Pair>)
    | Escaped(lead: string, escapes: seq<Escape>)
    | Braced(lead: string, open: string, items: seq<Item>, close: string)

  function RenderPairs(pairs: seq<Pair>): string {
    if pairs == [] then "" else [pairs[0].high, pairs[0].low] + pairs[0].gap + RenderPairs(pairs[1..])
  }

  function RenderEscapes(escapes: seq<Escape>): string {
    if escapes == [] then ""
    else ['\\', escapes[0].x, escapes[0].pair.high, escapes[0].pair.low] + escapes[0].pair.gap + RenderEscapes(escapes[1..])
  }

  function RenderItems(items: seq<Item>, close: string): string {
    if items == [] then "}" + close else items[0].Text() + RenderItems(items[1..], close)
  }

  predicate ValidPairs(pairs: seq<Pair>) {
    forall i :: 0 <= i < |pairs| ==> pairs[i].Valid()
  }

  predicate ValidEscapes(escapes: seq<Escape>) {
    forall i :: 0 <= i < |escapes| ==> escapes[i].Valid()
  }

  /** Commas stand between items, and may follow the last one. */
  predicate ValidItems(items: seq<Item>) {
    && (forall i :: 0 <= i < |items| ==> items[i].Valid())
    && (forall i :: 0 <= i < |items| - 1 ==> items[i].comma.Some?)
  }

  predicate ValidSource(source: Source) {
    AllSpace(source.lead) &&
    match source
    case Plain(_, pairs) => pairs != [] && ValidPairs(pairs)
    case Escaped(_, escapes) => escapes != [] && ValidEscapes(escapes)
    case Braced(_, open, items, close) => items != [] && ValidItems(items) && AllSpace(open) && AllSpace(close)
  }

  function Render(source: Source): string {
    source.lead +
    match source
    case Plain(_, pairs) => RenderPairs(pairs)
    case Escaped(_, escapes) => RenderEscapes(escapes)
    case Braced(_, open, items, close) => "{" + open + RenderItems(items, close)
  }

  function PairBytes(pairs: seq<Pair>): seq<u8>
    requires ValidPairs(pairs)
  {
    if pairs == [] then [] else [pairs[0].Value()] + PairBytes(pairs[1..])
  }

  function EscapeBytes(escapes: seq<Escape>): seq<u8>
    requires ValidEscapes(escapes)
  {
    if escapes == [] then [] else [escapes[0].pair.Value()] + EscapeBytes(escapes[1..])
  }

  function ByteOf(digits: string): u8
    requires 1 <= |digits| <= 2 && AllHex(digits)
  {
    HexValueBound(digits);
    Pow16Values();
    HexValue(digits)
  }

  function ItemByte(item: Item): u8
    requires item.Valid()
  {
    ByteOf(item.digits)
  }

  function ItemBytes(items: seq<Item>): seq<u8>
    requires ValidItems(items)
  {
    if items == [] then [] else [ItemByte(items[0])] + ItemBytes(items[1..])
  }

  function Bytes(source: Source): seq<u8>
    requires ValidSource(source)
  {
    match source
    case Plain(_, pairs) => PairBytes(pairs)
    case Escaped(_, escapes) => EscapeBytes(escapes)
    case Braced(_, _, items, _) => ItemBytes(items)
  }
}

/** The parser, with the error and the position that each rejected text is reported at. */
module CodeText {
  import opened Common
  import opened Hex
  import opened CodeGrammar

  datatype CodeError =
    | NoCode
    | DanglingNibble(at: nat)
    | InvalidByte(at: nat)
    | MissingBrace
    | UnexpectedText(at: nat)
    | ExpectedPrefix(at: nat)
    | ExpectedDigit(at: nat)
    | TooLarge(at: nat)
    | ExpectedComma(at: nat)
    | ExpectedEscape(at: nat)

  type Parsed = Result<seq<u8>, CodeError>

  function Prepend(bytes: seq<u8>, rest: Parsed): Parsed {
    match rest
    case Ok(more) => Ok(bytes + more)
    case Err(e) => Err(e)
  }

  /** How many characters at the front satisfy the test. */
  function CountSpace(s: string): (n: nat)
    ensures n <= |s| && AllSpace(s[..n]) && (n < |s| ==> !IsSpace(s[n]))
  {
    if s == "" || !IsSpace(s[0]) then 0
    else
      var n := CountSpace(s[1..]);
      assert s[..n + 1] == [s[0]] + s[1..][..n];
      n + 1
  }

  function CountHex(s: string): (n: nat)
    ensures n <= |s| && AllHex(s[..n]) && (n < |s| ==> !IsHexDigit(s[n]))
  {
    if s == "" || !IsHexDigit(s[0]) then 0
    else
      var n := CountHex(s[1..]);
      assert s[..n + 1] == [s[0]] + s[1..][..n];
      n + 1
  }

  predicate IsPair(s: string) {
    |s| >= 2 && IsHexDigit(s[0]) && IsHexDigit(s[1])
  }

  // Each function below parses the rest `s` of the text, which starts at position `p`.

  function ParsePlain(s: string, p: nat): Parsed {
    if s == "" then Ok([])
    else if IsSpace(s[0]) then ParsePlain(s[1..], p + 1)
    else if |s| < 2 || IsSpace(s[1]) then Err(DanglingNibble(p))
    else if !IsPair(s) then Err(InvalidByte(p))
    else Prepend([DigitValue(s[0]) * 16 + DigitValue(s[1])], ParsePlain(s[2..], p + 2))
  }

  function ParseEscaped(s: string, p: nat): Parsed
    decreases |s|, 1
  {
    ParseEscapedAt(s[CountSpace(s)..], p + CountSpace(s))
  }

  function ParseEscapedAt(s: string, p: nat): Parsed
    decreases |s|, 0
  {
    if s == "" then Ok([])
    else if |s| < 4 || s[0] != '\\' || !IsX(s[1]) then Err(ExpectedEscape(p))
    else if !IsPair(s[2..]) then Err(InvalidByte(p + 2))
    else Prepend([DigitValue(s[2]) * 16 + DigitValue(s[3])], ParseEscaped(s[4..], p + 4))
  }

  /** A braced byte that starts at `p`, and how many characters it takes with its comma. */
  datatype Lexed = Lexed(byte: u8, used: nat)

  /** What follows the digits of a braced byte of a rest of `size` characters: space, then a comma or the closing brace. */
  function LexEnd(digits: string, tail: string, size: nat, p: nat): (r: Result<Lexed, CodeError>)
    requires 1 <= |digits| <= 2 && AllHex(digits) && |tail| < size
    ensures r.Ok? ==> 0 < r.value.used <= size
  {
    var after := tail[CountSpace(tail)..];
    if after != "" && after[0] == '}' then Ok(Lexed(ByteOf(digits), size - |after|))
    else if after == "" || after[0] != ',' then Err(ExpectedComma(p + size - |after|))
    else Ok(Lexed(ByteOf(digits), size - |after| + 1))
  }

  function LexItem(s: string, p: nat): (r: Result<Lexed, CodeError>)
    ensures r.Ok? ==> 0 < r.value.used <= |s|
  {
    if |s| < 3 || s[0] != '0' || !IsX(s[1]) then Err(ExpectedPrefix(p))
    else
      var digits := s[2..][..CountHex(s[2..])];
      if digits == "" then Err(ExpectedDigit(p + 2))
      else if |digits| > 2 then Err(TooLarge(p))
      else LexEnd(digits, s[2..][CountHex(s[2..])..], |s|, p)
  }

  /** `some` tells whether a byte was read before. */
  function ParseBraced(s: string, p: nat, some: bool): Parsed
    decreases |s|, 1
  {
    ParseBracedAt(s[CountSpace(s)..], p + CountSpace(s), some)
  }

  function ParseBracedAt(s: string, p: nat, some: bool): Parsed
    decreases |s|, 0
  {
    if s == "" then Err(MissingBrace)
    else if s[0] == '}' then
      var m := 1 + CountSpace(s[1..]);
      if m < |s| then Err(UnexpectedText(p + m)) else if some then Ok([]) else Err(NoCode)
    else
      match LexItem(s, p)
      case Err(e) => Err(e)
      case Ok(item) => Prepend([item.byte], ParseBraced(s[item.used..], p + item.used, true))
  }

  function Parse(text: string): Parsed {
    var p := CountSpace(text);
    if p == |text| then Err(NoCode)
    else if text[p] == '{' then ParseBraced(text[p + 1..], p + 1, false)
    else if text[p] == '\\' then ParseEscaped(text[p..], p)
    else ParsePlain(text[p..], p)
  }
}
