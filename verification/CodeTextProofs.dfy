/** The parser accepts exactly the texts that the grammar derives, with the bytes of the derivation. */
module CodeTextProofs {
  import opened Common
  import opened Hex
  import opened CodeGrammar
  import opened CodeText

  // ---------------------------------------------------------------- space and digits

  lemma {:induction false} CountSpaceExact(space: string, rest: string)
    requires AllSpace(space) && (rest == "" || !IsSpace(rest[0]))
    ensures CountSpace(space + rest) == |space|
  {
    if space != "" {
      assert space[0] in space;
      assert (space + rest)[1..] == space[1..] + rest;
      CountSpaceExact(space[1..], rest);
    } else {
      assert space + rest == rest;
    }
  }

  lemma {:induction false} CountHexExact(digits: string, rest: string)
    requires AllHex(digits) && (rest == "" || !IsHexDigit(rest[0]))
    ensures CountHex(digits + rest) == |digits|
  {
    if digits != "" {
      assert digits[0] in digits;
      assert (digits + rest)[1..] == digits[1..] + rest;
      CountHexExact(digits[1..], rest);
    } else {
      assert digits + rest == rest;
    }
  }

  lemma LeadIsSpace(space: string, tail: string)
    requires AllSpace(space) && space != ""
    ensures IsSpace((space + tail)[0])
  {
    assert space[0] in space;
  }

  lemma DropPrefix(a: string, b: string)
    ensures (a + b)[|a|..] == b && (a + b)[..|a|] == a
  {
  }

  // ---------------------------------------------------------------- plain pairs

  lemma {:induction false} PlainSpace(space: string, rest: string, p: nat)
    requires AllSpace(space)
    ensures ParsePlain(space + rest, p) == ParsePlain(rest, p + |space|)
  {
    if space == "" {
      assert space + rest == rest;
    } else {
      assert space[0] in space;
      assert (space + rest)[1..] == space[1..] + rest;
      PlainSpace(space[1..], rest, p + 1);
    }
  }

  lemma {:induction false} PlainComplete(pairs: seq<Pair>, p: nat)
    requires ValidPairs(pairs)
    ensures ParsePlain(RenderPairs(pairs), p) == Ok(PairBytes(pairs))
  {
    if pairs != [] {
      var pair, rest := pairs[0], RenderPairs(pairs[1..]);
      var s := RenderPairs(pairs);
      assert pair.Valid();
      assert s[2..] == pair.gap + rest;
      PlainSpace(pair.gap, rest, p + 2);
      PlainComplete(pairs[1..], p + 2 + |pair.gap|);
    }
  }

  lemma NoPairs()
    ensures ValidPairs([]) && RenderPairs([]) == "" && PairBytes([]) == []
  {
  }

  lemma PrependPair(pair: Pair, rest: seq<Pair>)
    requires pair.Valid() && ValidPairs(rest)
    ensures ValidPairs([pair] + rest) && PairBytes([pair] + rest) == [pair.Value()] + PairBytes(rest)
    ensures RenderPairs([pair] + rest) == [pair.high, pair.low] + (pair.gap + RenderPairs(rest))
  {
    assert ([pair] + rest)[1..] == rest;
  }

  lemma {:induction false} PlainSound(s: string, p: nat) returns (lead: string, pairs: seq<Pair>)
    requires ParsePlain(s, p).Ok?
    ensures AllSpace(lead) && ValidPairs(pairs) && s == lead + RenderPairs(pairs)
      && ParsePlain(s, p).value == PairBytes(pairs)
  {
    hide RenderPairs, PairBytes, ValidPairs;
    lead, pairs := "", [];
    NoPairs();
    if s != "" {
      if IsSpace(s[0]) {
        lead, pairs := PlainSound(s[1..], p + 1);
        lead := [s[0]] + lead;
      } else {
        var gap, rest := PlainSound(s[2..], p + 2);
        pairs := [Pair(s[0], s[1], gap)] + rest;
        PrependPair(Pair(s[0], s[1], gap), rest);
        assert s == [s[0], s[1]] + s[2..];
      }
    }
  }

  // ---------------------------------------------------------------- escapes

  lemma SkipSpace(space: string, rest: string)
    requires AllSpace(space) && (rest == "" || !IsSpace(rest[0]))
    ensures CountSpace(space + rest) == |space| && (space + rest)[CountSpace(space + rest)..] == rest
  {
    CountSpaceExact(space, rest);
  }

  lemma RenderEscapesStart(escapes: seq<Escape>)
    ensures RenderEscapes(escapes) == "" || RenderEscapes(escapes)[0] == '\\'
  {
  }

  lemma {:induction false} EscapedComplete(gap: string, escapes: seq<Escape>, p: nat)
    requires AllSpace(gap) && ValidEscapes(escapes)
    ensures ParseEscaped(gap + RenderEscapes(escapes), p) == Ok(EscapeBytes(escapes))
    decreases |escapes|
  {
    hide CountSpace, RenderEscapes, ParseEscaped, ParseEscapedAt;
    var s := RenderEscapes(escapes);
    RenderEscapesStart(escapes);
    SkipSpace(gap, s);
    if escapes == [] {
      EscapedEnd(p + |gap|);
    } else {
      var escape, rest := escapes[0], escapes[1..];
      assert escape.Valid();
      EscapedStep(escape, RenderEscapes(rest), p + |gap|);
      assert s == ['\\', escape.x, escape.pair.high, escape.pair.low] + escape.pair.gap + RenderEscapes(rest)
        by { RenderEscapesHead(escapes); }
      EscapedComplete(escape.pair.gap, rest, p + |gap| + 4);
    }
    EscapedUnfold(gap + s, p);
  }

  lemma RenderEscapesHead(escapes: seq<Escape>)
    requires escapes != []
    ensures RenderEscapes(escapes) ==
      ['\\', escapes[0].x, escapes[0].pair.high, escapes[0].pair.low] + escapes[0].pair.gap + RenderEscapes(escapes[1..])
  {
  }

  lemma EscapedUnfold(s: string, p: nat)
    ensures ParseEscaped(s, p) == ParseEscapedAt(s[CountSpace(s)..], p + CountSpace(s))
  {
    hide ParseEscapedAt, CountSpace;
  }

  lemma EscapedEnd(p: nat)
    ensures ParseEscapedAt("", p) == Ok([]) && RenderEscapes([]) == ""
  {
  }

  /** One escape at the front of the rest, by its shape. */
  lemma EscapedRead(s: string, p: nat)
    requires s != ""
    ensures |s| < 4 || s[0] != '\\' || !IsX(s[1]) ==> ParseEscapedAt(s, p) == Err(ExpectedEscape(p))
    ensures |s| >= 4 && s[0] == '\\' && IsX(s[1]) ==>
      ParseEscapedAt(s, p) ==
        if IsPair(s[2..]) then Prepend([DigitValue(s[2]) * 16 + DigitValue(s[3])], ParseEscaped(s[4..], p + 4))
        else Err(InvalidByte(p + 2))
  {
    hide ParseEscaped;
  }

  lemma EscapedStep(escape: Escape, rest: string, p: nat)
    requires escape.Valid()
    ensures ParseEscapedAt(['\\', escape.x, escape.pair.high, escape.pair.low] + escape.pair.gap + rest, p)
      == Prepend([escape.pair.Value()], ParseEscaped(escape.pair.gap + rest, p + 4))
  {
    hide ParseEscaped;
    var s := ['\\', escape.x, escape.pair.high, escape.pair.low] + escape.pair.gap + rest;
    assert s[4..] == escape.pair.gap + rest;
  }

  lemma {:induction false} EscapedSound(s: string, p: nat) returns (lead: string, escapes: seq<Escape>)
    requires ParseEscaped(s, p).Ok?
    ensures AllSpace(lead) && ValidEscapes(escapes)
    ensures s == lead + RenderEscapes(escapes) && ParseEscaped(s, p).value == EscapeBytes(escapes)
    decreases |s|
  {
    EscapedUnfold(s, p);
    hide ParseEscaped;
    var n := CountSpace(s);
    var rest := s[n..];
    lead, escapes := s[..n], [];
    assert s == lead + rest;
    if rest != "" {
      var gap, more := EscapedSound(rest[4..], p + n + 4);
      escapes := [Escape(rest[1], Pair(rest[2], rest[3], gap))] + more;
      assert escapes[1..] == more;
      assert rest == ['\\', rest[1], rest[2], rest[3]] + gap + RenderEscapes(more);
      RenderEscapesHead(escapes);
    }
  }

  // ---------------------------------------------------------------- braced lists

  function AfterItem(item: Item): string {
    match item.comma case None => "" case Some(space) => space
  }

  lemma LexEndParts(digits: string, gap: string, after: string, size: nat, p: nat)
    requires 1 <= |digits| <= 2 && AllHex(digits) && AllSpace(gap) && |gap| + |after| < size
    requires after != "" && (after[0] == '}' || after[0] == ',')
    ensures LexEnd(digits, gap + after, size, p) == Ok(Lexed(ByteOf(digits), size - |after| + if after[0] == '}'
      then 0 else 1))
  {
    hide CountSpace, ByteOf;
    CountSpaceExact(gap, after);
    DropPrefix(gap, after);
  }

  lemma LexStart(x: char, digits: string, tail: string, p: nat)
    requires IsX(x) && 1 <= |digits| <= 2 && AllHex(digits) && (tail == "" || !IsHexDigit(tail[0]))
    ensures LexItem(['0', x] + (digits + tail), p) == LexEnd(digits, tail, 2 + |digits| + |tail|, p)
  {
    hide CountHex, LexEnd;
    CountHexExact(digits, tail);
    DropPrefix(['0', x], digits + tail);
    DropPrefix(digits, tail);
  }

  lemma LexParts(x: char, digits: string, gap: string, after: string, p: nat)
    requires IsX(x) && 1 <= |digits| <= 2 && AllHex(digits) && AllSpace(gap) && after != ""
      && (after[0] == '}' || after[0] == ',')
    ensures var m := 2 + |digits| + |gap|;
      LexItem(['0', x] + (digits + (gap + after)), p) == Ok(Lexed(ByteOf(digits), if after[0] == '}' then m else m + 1))
  {
    hide LexItem, LexEnd, ByteOf;
    if gap != "" { LeadIsSpace(gap, after); }
    LexStart(x, digits, gap + after, p);
    LexEndParts(digits, gap, after, 2 + |digits| + |gap + after|, p);
  }

  lemma AfterIsSpace(item: Item)
    requires item.Valid()
    ensures AllSpace(AfterItem(item))
  {
  }

  /** The lexer takes an item with its comma, and leaves the space after the comma. */
  lemma LexComplete(item: Item, rest: string, p: nat)
    requires item.Valid() && (item.comma == None ==> rest != "" && rest[0] == '}')
    ensures LexItem(item.Text() + rest, p) == Ok(Lexed(ItemByte(item), |item.Text()| - |AfterItem(item)|))
    ensures (item.Text() + rest)[|item.Text()| - |AfterItem(item)|..] == AfterItem(item) + rest
    ensures AllSpace(AfterItem(item))
  {
    hide LexItem, CountHex, CountSpace, ByteOf, AllSpace;
    AfterIsSpace(item);
    var before := ['0', item.x] + item.digits + item.gap + if item.comma == None then "" else ",";
    var after := (if item.comma == None then "" else ",") + AfterItem(item) + rest;
    LexParts(item.x, item.digits, item.gap, after, p);
    assert item.Text() == before + AfterItem(item);
    assert item.Text() + rest == before + (AfterItem(item) + rest);
    DropPrefix(before, AfterItem(item) + rest);
    assert item.Text() + rest == ['0', item.x] + (item.digits + (item.gap + after));
  }

  lemma BracedUnfold(s: string, p: nat, some: bool)
    ensures ParseBraced(s, p, some) == ParseBracedAt(s[CountSpace(s)..], p + CountSpace(s), some)
  {
    hide ParseBracedAt, CountSpace;
  }

  lemma BracedClose(close: string, p: nat, some: bool)
    requires AllSpace(close)
    ensures ParseBracedAt("}" + close, p, some) == if some then Ok([]) else Err(NoCode)
  {
    var s := "}" + close;
    CountSpaceExact(close, "");
    assert s[1..] == close == close + "";
  }

  lemma BracedStep(s: string, p: nat, some: bool, item: Lexed)
    requires s != "" && s[0] != '}' && LexItem(s, p) == Ok(item)
    ensures ParseBracedAt(s, p, some) == Prepend([item.byte], ParseBraced(s[item.used..], p + item.used, true))
  {
    hide ParseBraced, LexItem;
  }

  lemma RenderItemsHead(items: seq<Item>, close: string)
    requires items != []
    ensures RenderItems(items, close) == items[0].Text() + RenderItems(items[1..], close)
    ensures RenderItems(items, close) != "" && RenderItems(items, close)[0] == '0'
  {
    assert items[0].Text()[0] == '0';
  }

  lemma {:induction false} BracedComplete(gap: string, items: seq<Item>, close: string, p: nat, some: bool)
    requires AllSpace(gap) && ValidItems(items) && AllSpace(close) && (items != [] || some)
    ensures ParseBraced(gap + RenderItems(items, close), p, some) == Ok(ItemBytes(items))
    decreases |items|
  {
    var s := RenderItems(items, close);
    hide CountSpace, ParseBraced, ParseBracedAt, LexItem, Item.Text, ItemByte, AfterItem;
    if items == [] {
      BracedClose(close, p + |gap|, some);
    } else {
      RenderItemsHead(items, close);
      var item, rest := items[0], items[1..];
      var used := |item.Text()| - |AfterItem(item)|;
      if item.comma == None {
        assert rest == [];
      }
      LexComplete(item, RenderItems(rest, close), p + |gap|);
      BracedStep(s, p + |gap|, some, Lexed(ItemByte(item), used));
      BracedComplete(AfterItem(item), rest, close, p + |gap| + used, true);
    }
    SkipSpace(gap, s);
    BracedUnfold(gap + s, p, some);
  }

  /** The space after the digits, and whether a comma follows it. */
  lemma LexEndSound(digits: string, tail: string, size: nat, p: nat) returns (gap: string, comma: bool)
    requires 1 <= |digits| <= 2 && AllHex(digits) && |tail| < size && LexEnd(digits, tail, size, p).Ok?
    ensures AllSpace(gap) && |gap| < |tail| && gap == tail[..|gap|] && tail[|gap|] == if comma then ',' else '}'
    ensures LexEnd(digits, tail, size, p) == Ok(Lexed(ByteOf(digits), size - |tail| + |gap| + if comma then 1 else 0))
  {
    hide ByteOf, CountSpace;
    gap := tail[..CountSpace(tail)];
    comma := tail[|gap|] == ',';
  }

  /** What the lexer accepts is an item, up to the space after its comma. */
  lemma LexSound(s: string, p: nat) returns (item: Item)
    requires LexItem(s, p).Ok?
    ensures item.Valid() && ItemByte(item) == LexItem(s, p).value.byte
    ensures item.comma == None || item.comma == Some("")
    ensures item.Text() == s[..LexItem(s, p).value.used]
    ensures item.comma == None ==> LexItem(s, p).value.used < |s| && s[LexItem(s, p).value.used] == '}'
  {
    hide CountHex, ByteOf, LexEnd;
    var digits := s[2..][..CountHex(s[2..])];
    var tail := s[2..][CountHex(s[2..])..];
    var gap, comma := LexEndSound(digits, tail, |s|, p);
    item := Item(s[1], digits, gap, if comma then Some("") else None);
    var m := 2 + |digits| + |gap|;
    assert s[..m] == ['0', s[1]] + digits + gap;
    assert s[m] == tail[|gap|];
    assert s[..m + 1] == s[..m] + [s[m]];
  }

  lemma CloseSound(rest: string, p: nat, some: bool)
    requires rest != "" && rest[0] == '}' && ParseBracedAt(rest, p, some).Ok?
    ensures some && AllSpace(rest[1..]) && rest == "}" + rest[1..] && ParseBracedAt(rest, p, some) == Ok([])
  {
    assert rest[1..][..CountSpace(rest[1..])] == rest[1..];
  }

  lemma BracedAtSound(rest: string, p: nat, some: bool)
    requires ParseBracedAt(rest, p, some).Ok?
    ensures rest != "" && (rest[0] != '}' ==> LexItem(rest, p).Ok?)
  {
    hide LexItem, ParseBraced;
  }

  /** An item that the lexer accepts, in front of a rest that is already derived. */
  lemma BracedJoin(s: string, p: nat, some: bool, space: string, more: seq<Item>, close: string) returns (items: seq<Item>)
    requires s != "" && s[0] != '}' && LexItem(s, p).Ok?
    requires AllSpace(space) && ValidItems(more)
    requires var used := LexItem(s, p).value.used;
      s[used..] == space + RenderItems(more, close) && ParseBraced(s[used..], p + used, true) == Ok(ItemBytes(more))
    ensures ValidItems(items) && items != []
    ensures s == RenderItems(items, close) && ParseBracedAt(s, p, some) == Ok(ItemBytes(items))
  {
    hide ParseBraced, ParseBracedAt, LexItem, CountSpace, Item.Text, Item.Valid, ItemByte, RenderItems, ItemBytes,
      ValidItems;
    var lexed := LexItem(s, p).value;
    BracedStep(s, p, some, lexed);
    var item := LexSound(s, p);
    if item.comma == None {
      if space != "" { LeadIsSpace(space, RenderItems(more, close)); }
      if more != [] { RenderItemsHead(more, close); }
    }
    items := PrependItem(item, more, close, s, lexed.used, space);
  }

  lemma {:induction false} BracedAtDerivation(s: string, p: nat, some: bool) returns (items: seq<Item>, close: string)
    requires ParseBracedAt(s, p, some).Ok?
    ensures AllSpace(close) && ValidItems(items) && (items != [] || some)
    ensures s == RenderItems(items, close) && ParseBracedAt(s, p, some) == Ok(ItemBytes(items))
    decreases |s|, 0
  {
    hide ParseBraced, ParseBracedAt, LexItem, CountSpace, ValidItems, RenderItems, ItemBytes;
    BracedAtSound(s, p, some);
    if s[0] == '}' {
      CloseSound(s, p, some);
      items, close := [], s[1..];
      NoItems(close);
    } else {
      var used := LexItem(s, p).value.used;
      BracedStep(s, p, some, LexItem(s, p).value);
      var space, more;
      space, more, close := BracedSound(s[used..], p + used, true);
      items := BracedJoin(s, p, some, space, more, close);
    }
  }

  lemma {:induction false} BracedSound(s: string, p: nat, some: bool) returns (open: string, items: seq<Item>, close: string)
    requires ParseBraced(s, p, some).Ok?
    ensures AllSpace(open) && AllSpace(close) && ValidItems(items) && (items != [] || some)
    ensures s == open + RenderItems(items, close) && ParseBraced(s, p, some) == Ok(ItemBytes(items))
    decreases |s|, 1
  {
    hide CountSpace, ParseBraced, ParseBracedAt, RenderItems, ItemBytes, ValidItems;
    BracedUnfold(s, p, some);
    var n := CountSpace(s);
    open := s[..n];
    items, close := BracedAtDerivation(s[n..], p + n, some);
    assert s == open + s[n..];
  }

  lemma NoItems(close: string)
    ensures ValidItems([]) && RenderItems([], close) == "}" + close && ItemBytes([]) == []
  {
  }

  /** An item in front of the items that follow it, with the space after its comma. */
  lemma PrependItem(item: Item, more: seq<Item>, close: string, rest: string, used: nat, space: string)
    returns (items: seq<Item>)
    requires item.Valid() && ValidItems(more) && AllSpace(space) && used <= |rest|
    requires if item.comma == None then more == [] && space == "" else item.comma == Some("")
    requires rest[..used] == item.Text() && rest[used..] == space + RenderItems(more, close)
    ensures ValidItems(items) && items != []
    ensures rest == RenderItems(items, close) && ItemBytes(items) == [ItemByte(item)] + ItemBytes(more)
  {
    var whole := if item.comma == None then item else item.(comma := Some(space));
    items := [whole] + more;
    assert items[1..] == more;
    assert whole.Text() == rest[..used] + space;
    assert rest == rest[..used] + rest[used..];
  }

  // ---------------------------------------------------------------- the whole grammar

  /** The first character after the leading space picks the notation. */
  lemma ParseAt(lead: string, rest: string)
    requires AllSpace(lead) && rest != "" && !IsSpace(rest[0])
    ensures Parse(lead + rest) ==
      if rest[0] == '{' then ParseBraced(rest[1..], |lead| + 1, false)
      else if rest[0] == '\\' then ParseEscaped(rest, |lead|)
      else ParsePlain(rest, |lead|)
  {
    SkipSpace(lead, rest);
    hide ParseBraced, ParseEscaped, ParsePlain, CountSpace;
    assert (lead + rest)[|lead| + 1..] == rest[1..];
  }

  lemma Complete(source: Source)
    requires ValidSource(source)
    ensures Parse(Render(source)) == Ok(Bytes(source))
  {
    hide Parse, ParseBraced, ParseEscaped, ParsePlain;
    match source
    case Plain(lead, pairs) =>
      assert pairs[0].Valid();
      ParseAt(lead, RenderPairs(pairs));
      PlainComplete(pairs, |lead|);
    case Escaped(lead, escapes) =>
      ParseAt(lead, RenderEscapes(escapes));
      EscapedComplete("", escapes, |lead|);
      assert "" + RenderEscapes(escapes) == RenderEscapes(escapes);
    case Braced(lead, open, items, close) =>
      var rest := "{" + open + RenderItems(items, close);
      ParseAt(lead, rest);
      BracedComplete(open, items, close, |lead| + 1, false);
      assert rest[1..] == open + RenderItems(items, close);
  }

  lemma Sound(text: string) returns (source: Source)
    requires Parse(text).Ok?
    ensures ValidSource(source) && Render(source) == text && Bytes(source) == Parse(text).value
  {
    var n := CountSpace(text);
    var lead, rest := text[..n], text[n..];
    assert text == lead + rest && rest != "" && !IsSpace(rest[0]);
    ParseAt(lead, rest);
    hide Parse, ParseBraced, ParseEscaped, ParsePlain, CountSpace;
    if rest[0] == '{' {
      source := SoundBraced(lead, rest);
    } else if rest[0] == '\\' {
      source := SoundEscaped(lead, rest);
    } else {
      source := SoundPlain(lead, rest);
    }
  }

  lemma SoundBraced(lead: string, rest: string) returns (source: Source)
    requires AllSpace(lead) && rest != "" && rest[0] == '{' && ParseBraced(rest[1..], |lead| + 1, false).Ok?
    ensures ValidSource(source) && Render(source) == lead + rest
    ensures Ok(Bytes(source)) == ParseBraced(rest[1..], |lead| + 1, false)
  {
    hide ParseBraced, RenderItems, ItemBytes, ValidItems;
    var open, items, close := BracedSound(rest[1..], |lead| + 1, false);
    source := Braced(lead, open, items, close);
    assert rest == "{" + rest[1..] == "{" + open + RenderItems(items, close);
  }

  lemma SoundEscaped(lead: string, rest: string) returns (source: Source)
    requires AllSpace(lead) && rest != "" && rest[0] == '\\' && ParseEscaped(rest, |lead|).Ok?
    ensures ValidSource(source) && Render(source) == lead + rest && Ok(Bytes(source)) == ParseEscaped(rest, |lead|)
  {
    hide ParseEscaped;
    var space, escapes := EscapedSound(rest, |lead|);
    if space != "" { LeadIsSpace(space, RenderEscapes(escapes)); }
    EmptyRenders();
    source := Escaped(lead, escapes);
  }

  lemma SoundPlain(lead: string, rest: string) returns (source: Source)
    requires AllSpace(lead) && rest != "" && !IsSpace(rest[0]) && ParsePlain(rest, |lead|).Ok?
    ensures ValidSource(source) && Render(source) == lead + rest && Ok(Bytes(source)) == ParsePlain(rest, |lead|)
  {
    hide ParsePlain;
    var space, pairs := PlainSound(rest, |lead|);
    if space != "" { LeadIsSpace(space, RenderPairs(pairs)); }
    EmptyRenders();
    source := Plain(lead, pairs);
  }

  lemma EmptyRenders()
    ensures RenderPairs([]) == "" && RenderEscapes([]) == ""
  {
  }

  /** The parser accepts exactly the texts of the grammar, and with their bytes. */
  lemma ParseIff(text: string, bytes: seq<u8>)
    ensures Parse(text) == Ok(bytes) <==>
      exists source :: ValidSource(source) && Render(source) == text && Bytes(source) == bytes
  {
    if Parse(text) == Ok(bytes) {
      var source := Sound(text);
      assert ValidSource(source) && Render(source) == text && Bytes(source) == bytes;
    } else if source :| ValidSource(source) && Render(source) == text && Bytes(source) == bytes {
      Complete(source);
    }
  }

  // ---------------------------------------------------------------- size

  lemma {:induction false} PairsLength(pairs: seq<Pair>)
    requires ValidPairs(pairs)
    ensures 2 * |PairBytes(pairs)| <= |RenderPairs(pairs)| && |PairBytes(pairs)| == |pairs|
  {
    if pairs != [] { PairsLength(pairs[1..]); }
  }

  lemma {:induction false} EscapesLength(escapes: seq<Escape>)
    requires ValidEscapes(escapes)
    ensures 2 * |EscapeBytes(escapes)| <= |RenderEscapes(escapes)| && |EscapeBytes(escapes)| == |escapes|
  {
    if escapes != [] { EscapesLength(escapes[1..]); }
  }

  lemma {:induction false} ItemsLength(items: seq<Item>, close: string)
    requires ValidItems(items)
    ensures 2 * |ItemBytes(items)| <= |RenderItems(items, close)| && |ItemBytes(items)| == |items|
  {
    if items != [] {
      assert items[0].Valid();
      ItemsLength(items[1..], close);
    }
  }

  /** An accepted text has at least one byte, and at most half as many as the characters after its leading space. */
  lemma ResultSize(text: string)
    requires Parse(text).Ok?
    ensures 1 <= |Parse(text).value| && 2 * |Parse(text).value| <= |text| - CountSpace(text)
  {
    var source := Sound(text);
    var rest := text[|source.lead|..];
    Complete(source);
    match source
    case Plain(lead, pairs) =>
      PairsLength(pairs);
      assert pairs[0].Valid();
      assert text == lead + RenderPairs(pairs);
      CountSpaceExact(lead, RenderPairs(pairs));
    case Escaped(lead, escapes) =>
      EscapesLength(escapes);
      assert text == lead + RenderEscapes(escapes);
      CountSpaceExact(lead, RenderEscapes(escapes));
    case Braced(lead, open, items, close) =>
      ItemsLength(items, close);
      assert text == lead + ("{" + open + RenderItems(items, close));
      CountSpaceExact(lead, "{" + open + RenderItems(items, close));
  }
}
