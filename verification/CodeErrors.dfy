/** Which mistake each rejected text is reported for, and at which position. */
module CodeErrors {
  import opened Common
  import opened Hex
  import opened CodeGrammar
  import opened CodeText
  import opened CodeTextProofs

  // In each notation the well-formed front of the text is read off, and `tail` starts at the mistake at position `at`.

  /** A digit alone, or two characters that are not both digits. */
  predicate PlainMistake(tail: string, at: nat, error: CodeError) {
    && tail != "" && !IsSpace(tail[0])
    && (error == DanglingNibble(at) <==> |tail| == 1 || IsSpace(tail[1]))
    && (error == InvalidByte(at) <==> |tail| >= 2 && !IsSpace(tail[1]) && !(IsHexDigit(tail[0]) && IsHexDigit(tail[1])))
    && (error == DanglingNibble(at) || error == InvalidByte(at))
  }

  /** No `\x` with two more characters, or a `\x` that no two digits follow. */
  predicate EscapedMistake(tail: string, at: nat, error: CodeError) {
    && tail != "" && !IsSpace(tail[0])
    && var escape := |tail| >= 4 && tail[0] == '\\' && (tail[1] == 'x' || tail[1] == 'X');
      if escape then error == InvalidByte(at + 2) && !(IsHexDigit(tail[2]) && IsHexDigit(tail[3]))
      else error == ExpectedEscape(at)
  }

  predicate Prefixed(tail: string) {
    |tail| >= 3 && tail[0] == '0' && (tail[1] == 'x' || tail[1] == 'X')
  }

  /** A braced byte and the space after it, at the front of the tail, where no third digit follows. */
  predicate ByteOfDigits(tail: string, digits: nat, used: nat) {
    && Prefixed(tail) && 2 + digits <= used <= |tail|
    && AllHex(tail[2..2 + digits]) && AllSpace(tail[2 + digits..used])
    && (used < |tail| ==> !IsSpace(tail[used]) && (used == 2 + digits ==> !IsHexDigit(tail[used])))
  }

  predicate LastByte(tail: string, used: nat) {
    ByteOfDigits(tail, 1, used) || ByteOfDigits(tail, 2, used)
  }

  /** Where the closing brace stands: at once, or after a last byte without a comma. */
  predicate Closes(tail: string, brace: nat) {
    && brace < |tail| && tail[brace] == '}'
    && (brace == 0 || LastByte(tail, brace))
  }

  ghost predicate BracedMistake(tail: string, at: nat, some: bool, error: CodeError) {
    match error
    case MissingBrace => tail == ""
    case NoCode => !some && tail != "" && tail[0] == '}' && AllSpace(tail[1..])
    case UnexpectedText(where) =>
      exists brace: nat :: Closes(tail, brace) && at + brace < where < at + |tail|
        && AllSpace(tail[brace + 1..where - at]) && !IsSpace(tail[where - at])
    case ExpectedPrefix(where) => where == at && tail != "" && !IsSpace(tail[0]) && tail[0] != '}' && !Prefixed(tail)
    case ExpectedDigit(where) => where == at + 2 && Prefixed(tail) && !IsHexDigit(tail[2])
    case TooLarge(where) => where == at && Prefixed(tail) && |tail| >= 5 && AllHex(tail[2..5])
    case ExpectedComma(where) =>
      && at <= where && LastByte(tail, where - at)
      && (where - at < |tail| ==> tail[where - at] != ',' && tail[where - at] != '}')
    case _ => false
  }

  function Texts(items: seq<Item>): string {
    if items == [] then "" else items[0].Text() + Texts(items[1..])
  }

  predicate AllCommas(items: seq<Item>) {
    forall i :: 0 <= i < |items| ==> items[i].Valid() && items[i].comma.Some?
  }

  predicate PlainFront(text: string, lead: string, pairs: seq<Pair>, tail: string) {
    && AllSpace(lead) && ValidPairs(pairs) && text == lead + RenderPairs(pairs) + tail
    && (pairs == [] && tail != "" ==> tail[0] != '{' && tail[0] != '\\')
  }

  predicate EscapedFront(text: string, lead: string, escapes: seq<Escape>, tail: string) {
    && AllSpace(lead) && ValidEscapes(escapes) && text == lead + RenderEscapes(escapes) + tail
    && (escapes == [] ==> tail != "" && tail[0] == '\\')
  }

  predicate BracedFront(text: string, lead: string, open: string, items: seq<Item>, tail: string) {
    && AllSpace(lead) && AllSpace(open) && AllCommas(items)
    && text == lead + "{" + open + Texts(items) + tail
  }

  /** The mistake that a text is reported for: there is one only when the text is rejected. */
  ghost predicate Mistake(text: string, error: CodeError) {
    || (AllSpace(text) && error == NoCode)
    || (exists lead, pairs, tail ::
          PlainFront(text, lead, pairs, tail) && PlainMistake(tail, |text| - |tail|, error))
    || (exists lead, escapes, tail ::
          EscapedFront(text, lead, escapes, tail) && EscapedMistake(tail, |text| - |tail|, error))
    || (exists lead, open, items, tail ::
          BracedFront(text, lead, open, items, tail) && BracedMistake(tail, |text| - |tail|, items != [], error))
  }

  // ---------------------------------------------------------------- plain pairs

  /** At a character that is no space, the parser goes on exactly with two digits. */
  lemma PlainAt(tail: string, p: nat, e: CodeError)
    requires tail == "" || (!IsSpace(tail[0]) && !IsPair(tail))
    ensures ParsePlain(tail, p) == Err(e) <==> PlainMistake(tail, p, e)
  {
  }

  lemma {:induction false} PlainFrontRead(pairs: seq<Pair>, tail: string, p: nat)
    requires ValidPairs(pairs) && ParsePlain(tail, p + |RenderPairs(pairs)|).Err?
    ensures ParsePlain(RenderPairs(pairs) + tail, p) == ParsePlain(tail, p + |RenderPairs(pairs)|)
  {
    if pairs == [] {
      assert RenderPairs(pairs) + tail == tail;
    } else {
      var pair, rest := pairs[0], RenderPairs(pairs[1..]) + tail;
      var s := RenderPairs(pairs) + tail;
      assert pair.Valid();
      assert s == [pair.high, pair.low] + (pair.gap + rest);
      assert s[2..] == pair.gap + rest;
      PlainSpace(pair.gap, rest, p + 2);
      PlainFrontRead(pairs[1..], tail, p + 2 + |pair.gap|);
    }
  }

  lemma {:induction false} PlainStuck(s: string, p: nat) returns (lead: string, pairs: seq<Pair>, tail: string)
    requires ParsePlain(s, p).Err?
    ensures AllSpace(lead) && ValidPairs(pairs) && s == lead + RenderPairs(pairs) + tail
    ensures tail != "" && PlainMistake(tail, p + |s| - |tail|, ParsePlain(s, p).error)
  {
    hide RenderPairs, PairBytes, ValidPairs;
    lead, pairs, tail := "", [], s;
    NoPairs();
    if IsSpace(s[0]) {
      lead, pairs, tail := PlainStuck(s[1..], p + 1);
      lead := [s[0]] + lead;
    } else if IsPair(s) && !IsSpace(s[1]) {
      var gap, rest;
      gap, rest, tail := PlainStuck(s[2..], p + 2);
      pairs := [Pair(s[0], s[1], gap)] + rest;
      PrependPair(Pair(s[0], s[1], gap), rest);
      assert s == [s[0], s[1]] + s[2..];
    }
  }

  // ---------------------------------------------------------------- escapes

  /** At a character that is no space, the parser goes on exactly with an escape. */
  lemma EscapedAt(tail: string, p: nat, e: CodeError)
    requires tail == "" || (!IsSpace(tail[0]) && !(|tail| >= 4 && tail[0] == '\\' && IsX(tail[1]) && IsPair(tail[2..])))
    ensures ParseEscapedAt(tail, p) == Err(e) <==> EscapedMistake(tail, p, e)
  {
    hide ParseEscaped;
    if tail != "" { EscapedRead(tail, p); }
  }

  lemma EscapedSkip(gap: string, s: string, p: nat)
    requires AllSpace(gap) && (s == "" || !IsSpace(s[0]))
    ensures ParseEscaped(gap + s, p) == ParseEscapedAt(s, p + |gap|)
  {
    hide ParseEscaped, ParseEscapedAt, CountSpace;
    SkipSpace(gap, s);
    EscapedUnfold(gap + s, p);
  }

  lemma {:induction false} EscapedFrontRead(gap: string, escapes: seq<Escape>, tail: string, p: nat)
    requires AllSpace(gap) && ValidEscapes(escapes) && (tail == "" || !IsSpace(tail[0]))
    requires ParseEscapedAt(tail, p + |gap + RenderEscapes(escapes)|).Err?
    ensures ParseEscaped(gap + RenderEscapes(escapes) + tail, p)
      == ParseEscapedAt(tail, p + |gap + RenderEscapes(escapes)|)
    decreases |escapes|
  {
    hide CountSpace, RenderEscapes, ParseEscaped, ParseEscapedAt;
    var s := RenderEscapes(escapes) + tail;
    assert gap + RenderEscapes(escapes) + tail == gap + s;
    if escapes == [] {
      EscapedEnd(0);
      assert s == tail;
      EscapedSkip(gap, s, p);
    } else {
      var escape, rest := escapes[0], escapes[1..];
      assert escape.Valid();
      RenderEscapesHead(escapes);
      EscapedSkip(gap, s, p);
      var more := RenderEscapes(rest) + tail;
      assert s == ['\\', escape.x, escape.pair.high, escape.pair.low] + escape.pair.gap + more;
      EscapedStep(escape, more, p + |gap|);
      EscapedFrontRead(escape.pair.gap, rest, tail, p + |gap| + 4);
      assert escape.pair.gap + RenderEscapes(rest) + tail == escape.pair.gap + more;
    }
  }

  lemma Regroup(a: string, b: string, c: string)
    ensures a + (b + c) == a + b + c && |a + (b + c)| == |a| + |b + c| && "" + c == c
  {
  }

  lemma PrependEscape(s: string, gap: string, more: seq<Escape>, tail: string) returns (escapes: seq<Escape>)
    requires |s| >= 4 && s[0] == '\\' && IsX(s[1]) && IsPair(s[2..]) && AllSpace(gap) && ValidEscapes(more)
    requires s[4..] == gap + RenderEscapes(more) + tail
    ensures ValidEscapes(escapes) && s == RenderEscapes(escapes) + tail
  {
    hide RenderEscapes, AllSpace;
    escapes := [Escape(s[1], Pair(s[2], s[3], gap))] + more;
    assert escapes[1..] == more;
    RenderEscapesHead(escapes);
    assert s == ['\\', s[1], s[2], s[3]] + s[4..];
  }

  lemma {:induction false} EscapedStuck(s: string, p: nat) returns (lead: string, escapes: seq<Escape>, tail: string)
    requires ParseEscaped(s, p).Err?
    ensures AllSpace(lead) && ValidEscapes(escapes) && s == lead + RenderEscapes(escapes) + tail
    ensures EscapedMistake(tail, p + |s| - |tail|, ParseEscaped(s, p).error)
    decreases |s|
  {
    EscapedUnfold(s, p);
    hide ParseEscaped, ParseEscapedAt, EscapedMistake, RenderEscapes;
    var n := CountSpace(s);
    var rest := s[n..];
    var e := ParseEscaped(s, p).error;
    lead, escapes, tail := s[..n], [], rest;
    assert s == lead + rest;
    EscapedEnd(0);
    if |rest| >= 4 && rest[0] == '\\' && IsX(rest[1]) && IsPair(rest[2..]) {
      EscapedRead(rest, p + n);
      var gap, more;
      gap, more, tail := EscapedStuck(rest[4..], p + n + 4);
      escapes := PrependEscape(rest, gap, more, tail);
      Regroup(lead, RenderEscapes(escapes), tail);
    } else {
      EscapedAt(rest, p + n, e);
      Regroup(lead, "", tail);
    }
  }

  // ---------------------------------------------------------------- braced lists

  lemma CountsOf(tail: string, digits: nat, used: nat)
    requires 1 <= digits <= 2 && ByteOfDigits(tail, digits, used)
    ensures CountHex(tail[2..]) == digits && CountSpace(tail[2 + digits..]) == used - 2 - digits
  {
    hide CountHex, CountSpace, IsSpace;
    var here, after := tail[2..2 + digits], tail[2 + digits..];
    if used > 2 + digits {
      assert tail[2 + digits..used][0] == tail[2 + digits];
      SpaceNoDigit(tail[2 + digits]);
    }
    CountHexExact(here, after);
    assert tail[2..] == here + after;
    CountSpaceExact(tail[2 + digits..used], tail[used..]);
    assert after == tail[2 + digits..used] + tail[used..];
  }

  lemma SpaceNoDigit(c: char)
    requires IsSpace(c)
    ensures !IsHexDigit(c)
  {
  }

  /** The digits and the space after them end the byte. */
  lemma ByteOfCounts(tail: string) returns (used: nat)
    requires Prefixed(tail) && 1 <= CountHex(tail[2..]) <= 2
    ensures ByteOfDigits(tail, CountHex(tail[2..]), used)
  {
    hide CountHex, CountSpace, IsSpace;
    var digits := CountHex(tail[2..]);
    used := 2 + digits + CountSpace(tail[2 + digits..]);
    assert tail[2..][..digits] == tail[2..2 + digits];
    assert tail[2 + digits..][..used - 2 - digits] == tail[2 + digits..used];
  }

  lemma {:induction false} FewDigits(tail: string)
    requires Prefixed(tail)
    ensures CountHex(tail[2..]) == 0 <==> !IsHexDigit(tail[2])
    ensures CountHex(tail[2..]) > 2 <==> |tail| >= 5 && AllHex(tail[2..5])
  {
    hide CountHex;
    var n := CountHex(tail[2..]);
    assert tail[2..][..n] == tail[2..2 + n];
    if |tail| >= 5 {
      assert tail[2..5] == [tail[2], tail[3], tail[4]];
      if n > 2 { assert tail[2..2 + n][..3] == tail[2..5]; }
    }
  }

  function ByteAt(tail: string): u8
    requires Prefixed(tail) && 1 <= CountHex(tail[2..]) <= 2
  {
    ByteOf(tail[2..][..CountHex(tail[2..])])
  }

  lemma LexEndAt(digits: string, rest: string, size: nat, p: nat)
    requires 1 <= |digits| <= 2 && AllHex(digits) && |rest| < size
    ensures var m := CountSpace(rest);
      LexEnd(digits, rest, size, p) ==
        if m < |rest| && rest[m] == '}' then Ok(Lexed(ByteOf(digits), size - |rest| + m))
        else if m < |rest| && rest[m] == ',' then Ok(Lexed(ByteOf(digits), size - |rest| + m + 1))
        else Err(ExpectedComma(p + size - |rest| + m))
  {
    hide CountSpace, ByteOf;
    var m := CountSpace(rest);
    var after := rest[m..];
    assert |after| == |rest| - m && (m < |rest| ==> after[0] == rest[m]);
  }

  /** The lexer takes a byte up to its comma, or up to the closing brace. */
  lemma LexByte(tail: string, digits: nat, used: nat, p: nat)
    requires 1 <= digits <= 2 && ByteOfDigits(tail, digits, used)
    ensures CountHex(tail[2..]) == digits
    ensures LexItem(tail, p) ==
      if used < |tail| && tail[used] == '}' then Ok(Lexed(ByteAt(tail), used))
      else if used < |tail| && tail[used] == ',' then Ok(Lexed(ByteAt(tail), used + 1))
      else Err(ExpectedComma(p + used))
  {
    CountsOf(tail, digits, used);
    hide CountSpace, CountHex, ByteOf, LexEnd, IsSpace;
    var rest := tail[2 + digits..];
    assert tail[2..][digits..] == rest;
    LexEndAt(tail[2..][..digits], rest, |tail|, p);
    assert used < |tail| ==> rest[used - 2 - digits] == tail[used];
  }

  lemma LexShort(tail: string, p: nat)
    requires !(Prefixed(tail) && 1 <= CountHex(tail[2..]) <= 2)
    ensures LexItem(tail, p) ==
      if !Prefixed(tail) then Err(ExpectedPrefix(p))
      else if CountHex(tail[2..]) == 0 then Err(ExpectedDigit(p + 2))
      else Err(TooLarge(p))
  {
    hide CountHex, LexEnd;
  }

  /** The lexer rejects a byte exactly for the mistakes of a byte. */
  lemma LexAt(tail: string, p: nat, some: bool, e: CodeError)
    requires tail != "" && !IsSpace(tail[0]) && tail[0] != '}'
    ensures LexItem(tail, p) == Err(e) <==>
      (e.ExpectedPrefix? || e.ExpectedDigit? || e.TooLarge? || e.ExpectedComma?) && BracedMistake(tail, p, some, e)
  {
    hide LexItem, CountSpace, CountHex, ByteOf, ByteOfDigits;
    if Prefixed(tail) {
      FewDigits(tail);
      if 1 <= CountHex(tail[2..]) <= 2 {
        var used := ByteOfCounts(tail);
        LexByte(tail, CountHex(tail[2..]), used, p);
        OneLastByte(tail, used);
      } else {
        LexShort(tail, p);
        NoLastByte(tail);
      }
    } else {
      LexShort(tail, p);
      NoLastByte(tail);
    }
  }

  lemma OneLastByte(tail: string, used: nat)
    requires LastByte(tail, used)
    ensures Prefixed(tail) && 1 <= CountHex(tail[2..]) <= 2 && ByteOfDigits(tail, CountHex(tail[2..]), used)
    ensures forall other: nat :: LastByte(tail, other) ==> other == used
  {
    hide CountHex, CountSpace, ByteOfDigits;
    var digits := if ByteOfDigits(tail, 1, used) then 1 else 2;
    LastStart(tail, used);
    CountsOf(tail, digits, used);
    forall other: nat | LastByte(tail, other) ensures other == used {
      CountsOf(tail, if ByteOfDigits(tail, 1, other) then 1 else 2, other);
    }
  }

  lemma LastStart(tail: string, used: nat)
    requires LastByte(tail, used)
    ensures Prefixed(tail) && used >= 3
  {
  }

  lemma NoLastByte(tail: string)
    requires !(Prefixed(tail) && 1 <= CountHex(tail[2..]) <= 2)
    ensures forall other: nat :: !LastByte(tail, other)
  {
    forall other: nat | LastByte(tail, other) ensures false {
      OneLastByte(tail, other);
    }
  }

  /** A byte with its comma, after which the parser goes on. */
  predicate GoesOn(tail: string) {
    && tail != "" && tail[0] != '}'
    && Prefixed(tail) && 1 <= CountHex(tail[2..]) <= 2
    && var rest := tail[2..][CountHex(tail[2..])..];
      CountSpace(rest) < |rest| && rest[CountSpace(rest)] == ','
  }

  lemma CloseAt(s: string, p: nat, some: bool)
    requires s != "" && s[0] == '}'
    ensures var m := 1 + CountSpace(s[1..]);
      && m <= |s| && s[1..][..m - 1] == s[1..m] && AllSpace(s[1..m]) && (m < |s| ==> !IsSpace(s[m]))
      && ParseBracedAt(s, p, some)
        == if m < |s| then Err(UnexpectedText(p + m)) else if some then Ok([]) else Err(NoCode)
  {
    hide CountSpace, LexItem, ParseBraced;
    assert s[1..][..CountSpace(s[1..])] == s[1..1 + CountSpace(s[1..])];
  }

  lemma SpaceInside(tail: string, from: nat, to: nat, k: nat)
    requires from <= k < to <= |tail| && AllSpace(tail[from..to])
    ensures IsSpace(tail[k])
  {
    assert tail[from..to][k - from] == tail[k];
  }

  /** Where the space after a closing brace ends is settled. */
  lemma SpaceEnd(tail: string, from: nat, a: nat, b: nat)
    requires from <= a < |tail| && from <= b <= |tail| && AllSpace(tail[from..a]) && AllSpace(tail[from..b])
    requires !IsSpace(tail[a]) && (b < |tail| ==> !IsSpace(tail[b]))
    ensures a == b
  {
    hide IsSpace, AllSpace;
    if a < b {
      SpaceInside(tail, from, b, a);
    } else if b < a {
      SpaceInside(tail, from, a, b);
    }
  }

  /** Text after the closing brace at `brace` is reported where the space after the brace ends. */
  lemma AfterBrace(tail: string, brace: nat, p: nat, some: bool, e: CodeError)
    requires Closes(tail, brace) && forall other: nat :: Closes(tail, other) ==> other == brace
    ensures ParseBracedAt(tail[brace..], p + brace, some) == Err(e) && e != NoCode ==> BracedMistake(tail, p, some, e)
    ensures e.UnexpectedText? && BracedMistake(tail, p, some, e) ==>
      ParseBracedAt(tail[brace..], p + brace, some) == Err(e)
  {
    hide CountSpace, ParseBracedAt, Closes, IsSpace, AllSpace;
    CloseStarts(tail, brace);
    var s := tail[brace..];
    CloseAt(s, p + brace, some);
    var end := brace + 1 + CountSpace(s[1..]);
    assert s[1..end - brace] == tail[brace + 1..end];
    if e.UnexpectedText? && BracedMistake(tail, p, some, e) {
      SpaceEnd(tail, brace + 1, e.at - p, end);
    }
  }

  lemma CloseStarts(tail: string, brace: nat)
    requires Closes(tail, brace)
    ensures brace < |tail| && tail[brace] == '}'
  {
  }

  /** What a tail that starts with the brace can be reported for. */
  lemma BraceTail(tail: string, p: nat, some: bool, e: CodeError)
    requires tail != "" && tail[0] == '}'
    ensures ParseBracedAt(tail, p, some) == Err(e) <==> BracedMistake(tail, p, some, e)
  {
    hide CountSpace, CountHex, LexItem, ParseBraced, ParseBracedAt;
    CloseAt(tail, p, some);
    NoLastByte(tail);
    assert tail[0..] == tail;
    AfterBrace(tail, 0, p, some, e);
    var m := 1 + CountSpace(tail[1..]);
    assert m == |tail| ==> tail[1..m] == tail[1..];
    assert m < |tail| ==> tail[1..][m - 1] == tail[m];
  }

  /** After a byte without a comma the parser stands at the brace. */
  lemma LastReads(tail: string, used: nat, p: nat, some: bool)
    requires LastByte(tail, used) && used < |tail| && tail[used] == '}'
    ensures ParseBracedAt(tail, p, some).Err? || ParseBracedAt(tail[used..], p + used, true).Err? ==>
      ParseBracedAt(tail, p, some) == ParseBracedAt(tail[used..], p + used, true)
  {
    hide CountSpace, CountHex, LexItem, ParseBraced, ParseBracedAt, ByteOfDigits;
    OneLastByte(tail, used);
    LastStart(tail, used);
    LexByte(tail, CountHex(tail[2..]), used, p);
    BracedStep(tail, p, some, LexItem(tail, p).value);
    BracedSkip("", tail[used..], p + used, true);
    assert "" + tail[used..] == tail[used..];
  }

  /** The only mistake such a tail can have is text after the brace. */
  lemma LastMistakes(tail: string, used: nat, p: nat, some: bool, e: CodeError)
    requires LastByte(tail, used) && used < |tail| && tail[used] == '}' && BracedMistake(tail, p, some, e)
    ensures e.UnexpectedText?
  {
    hide CountSpace, CountHex, ByteOfDigits, IsSpace;
    OneLastByte(tail, used);
    LastStart(tail, used);
    FewDigits(tail);
  }

  lemma LastTail(tail: string, used: nat, p: nat, some: bool, e: CodeError)
    requires LastByte(tail, used) && used < |tail| && tail[used] == '}'
    ensures ParseBracedAt(tail, p, some) == Err(e) <==> BracedMistake(tail, p, some, e)
  {
    hide CountSpace, CountHex, ParseBracedAt, ByteOfDigits, BracedMistake, IsSpace;
    LastReads(tail, used, p, some);
    CloseAt(tail[used..], p + used, true);
    OneLastByte(tail, used);
    LastStart(tail, used);
    assert Closes(tail, used);
    AfterBrace(tail, used, p, true, e);
    if BracedMistake(tail, p, some, e) { LastMistakes(tail, used, p, some, e); }
    if e != NoCode { SomeIgnored(tail, p, some, e); }
  }

  lemma SomeIgnored(tail: string, p: nat, some: bool, e: CodeError)
    requires e != NoCode
    ensures BracedMistake(tail, p, some, e) == BracedMistake(tail, p, true, e)
  {
  }

  lemma BracedSkip(gap: string, s: string, p: nat, some: bool)
    requires AllSpace(gap) && (s == "" || !IsSpace(s[0]))
    ensures ParseBraced(gap + s, p, some) == ParseBracedAt(s, p + |gap|, some)
  {
    hide ParseBraced, ParseBracedAt, CountSpace;
    SkipSpace(gap, s);
    BracedUnfold(gap + s, p, some);
  }

  /** A tail is reported for its mistake, unless the parser goes on after it. */
  lemma BracedTail(tail: string, p: nat, some: bool, e: CodeError)
    requires tail == "" || !IsSpace(tail[0])
    ensures if GoesOn(tail) then !BracedMistake(tail, p, some, e)
      else ParseBracedAt(tail, p, some) == Err(e) <==> BracedMistake(tail, p, some, e)
  {
    hide CountSpace, CountHex, LexItem, ParseBraced, ParseBracedAt, ByteOfDigits, GoesOn;
    if tail == "" {
      EmptyTail(p, some, e);
    } else if tail[0] == '}' {
      BraceTail(tail, p, some, e);
      GoesOnByte(tail);
    } else {
      ByteTail(tail, p, some, e);
    }
  }

  lemma EmptyTail(p: nat, some: bool, e: CodeError)
    ensures !GoesOn("") && (ParseBracedAt("", p, some) == Err(e) <==> BracedMistake("", p, some, e))
  {
  }

  /** The parser goes on exactly after a byte that a comma follows. */
  lemma GoesOnByte(tail: string)
    ensures GoesOn(tail) ==> tail[0] != '}'
    ensures GoesOn(tail) <==> exists used: nat :: LastByte(tail, used) && used < |tail| && tail[used] == ','
  {
    hide CountSpace, CountHex, IsSpace, ByteOfDigits;
    if GoesOn(tail) {
      var used := ByteOfCounts(tail);
      var digits := CountHex(tail[2..]);
      CountsOf(tail, digits, used);
      assert LastByte(tail, used);
      assert tail[2..][digits..][used - 2 - digits] == tail[used];
    } else if used: nat :| LastByte(tail, used) && used < |tail| && tail[used] == ',' {
      CommaGoesOn(tail, used);
    }
  }

  lemma CommaGoesOn(tail: string, used: nat)
    requires LastByte(tail, used) && used < |tail| && tail[used] == ','
    ensures GoesOn(tail)
  {
    hide CountSpace, CountHex, IsSpace, ByteOfDigits;
    OneLastByte(tail, used);
    LastStart(tail, used);
    var digits := CountHex(tail[2..]);
    CountsOf(tail, digits, used);
    SizesOf(tail, digits, used);
    assert tail[2..][digits..][used - 2 - digits] == tail[used];
  }

  lemma SizesOf(tail: string, digits: nat, used: nat)
    requires ByteOfDigits(tail, digits, used)
    ensures 2 + digits <= used <= |tail| && tail[2..][digits..] == tail[2 + digits..]
  {
  }

  /** A tail that starts neither with space nor with the brace. */
  lemma ByteTail(tail: string, p: nat, some: bool, e: CodeError)
    requires tail != "" && !IsSpace(tail[0]) && tail[0] != '}'
    ensures if GoesOn(tail) then !BracedMistake(tail, p, some, e)
      else ParseBracedAt(tail, p, some) == Err(e) <==> BracedMistake(tail, p, some, e)
  {
    hide CountSpace, CountHex, LexItem, ParseBraced, ByteOfDigits, GoesOn, IsSpace;
    GoesOnByte(tail);
    LexAt(tail, p, some, e);
    if Prefixed(tail) && 1 <= CountHex(tail[2..]) <= 2 {
      var used := ByteOfCounts(tail);
      LexByte(tail, CountHex(tail[2..]), used, p);
      OneLastByte(tail, used);
      FewDigits(tail);
      if used < |tail| && tail[used] == '}' {
        LastTail(tail, used, p, some, e);
      }
    } else {
      LexShort(tail, p);
      NoLastByte(tail);
    }
  }

  lemma {:induction false} BracedFrontRead(open: string, items: seq<Item>, tail: string, p: nat, some: bool)
    requires AllSpace(open) && AllCommas(items) && (tail == "" || !IsSpace(tail[0]))
    requires ParseBracedAt(tail, p + |open + Texts(items)|, some || items != []).Err?
    ensures ParseBraced(open + Texts(items) + tail, p, some)
      == ParseBracedAt(tail, p + |open + Texts(items)|, some || items != [])
    decreases |items|
  {
    hide CountSpace, ParseBraced, ParseBracedAt, LexItem, Item.Text, ItemByte, AfterItem;
    var s := Texts(items) + tail;
    assert open + Texts(items) + tail == open + s;
    if items == [] {
      assert s == tail;
    } else {
      var item, rest := items[0], items[1..];
      var used := |item.Text()| - |AfterItem(item)|;
      var more := Texts(rest) + tail;
      assert s == item.Text() + more;
      LexComplete(item, more, p + |open|);
      TextStart(item);
      BracedStep(s, p + |open|, some, Lexed(ItemByte(item), used));
      BracedFrontRead(AfterItem(item), rest, tail, p + |open| + used, true);
      assert AfterItem(item) + Texts(rest) + tail == AfterItem(item) + more;
    }
    BracedSkip(open, s, p, some);
  }

  lemma TextStart(item: Item)
    ensures |item.Text()| >= 2 && item.Text()[0] == '0'
  {
  }

  /** A byte with its comma and the space after it, in front of a rest that is already read. */
  lemma PrependText(s: string, used: nat, item: Item, space: string, more: seq<Item>, tail: string)
    returns (items: seq<Item>)
    requires item.Valid() && item.comma == Some("") && AllSpace(space) && AllCommas(more) && used <= |s|
    requires s[..used] == item.Text() && s[used..] == space + Texts(more) + tail
    ensures AllCommas(items) && items != [] && s == Texts(items) + tail
  {
    var whole := item.(comma := Some(space));
    items := [whole] + more;
    assert items[1..] == more;
    assert whole.Text() == s[..used] + space;
    assert s == s[..used] + s[used..];
  }

  lemma NoCommaEnd(item: Item)
    requires item.Valid()
    ensures |item.Text()| >= 3 && (item.comma == None ==> item.Text()[|item.Text()| - 1] != ',')
  {
    var text := item.digits + item.gap;
    if item.gap == "" {
      assert text[|text| - 1] == item.digits[|item.digits| - 1];
      assert IsHexDigit(item.digits[|item.digits| - 1]);
    } else {
      assert text[|text| - 1] == item.gap[|item.gap| - 1];
      assert IsSpace(item.gap[|item.gap| - 1]);
    }
    assert item.comma == None ==> item.Text() == ['0', item.x] + text;
  }

  /** The parser reads an item when it goes on. */
  lemma GoesOnItem(s: string, p: nat) returns (item: Item)
    requires GoesOn(s)
    ensures LexItem(s, p).Ok? && item.Valid() && item.comma == Some("") && item.Text() == s[..LexItem(s, p).value.used]
  {
    hide CountSpace, CountHex, LexItem, ByteOfDigits, GoesOn, Item.Text, Item.Valid, IsSpace;
    GoesOnByte(s);
    var used: nat :| LastByte(s, used) && used < |s| && s[used] == ',';
    OneLastByte(s, used);
    LexByte(s, CountHex(s[2..]), used, p);
    item := LexSound(s, p);
    NoCommaEnd(item);
    assert item.Text()[used] == s[used];
  }

  lemma {:induction false} BracedStuck(s: string, p: nat, some: bool) returns (open: string, items: seq<Item>, tail: string)
    requires ParseBraced(s, p, some).Err?
    ensures AllSpace(open) && AllCommas(items) && s == open + Texts(items) + tail
    ensures BracedMistake(tail, p + |s| - |tail|, some || items != [], ParseBraced(s, p, some).error)
    decreases |s|
  {
    hide CountSpace, ParseBraced, ParseBracedAt, LexItem, GoesOn, BracedMistake, Item.Text, Item.Valid;
    var n := CountSpace(s);
    var rest := s[n..];
    var e := ParseBraced(s, p, some).error;
    BracedUnfold(s, p, some);
    open, items, tail := s[..n], [], rest;
    assert s == open + rest;
    BracedTail(rest, p + n, some, e);
    if GoesOn(rest) {
      var item := GoesOnItem(rest, p + n);
      var used := LexItem(rest, p + n).value.used;
      GoesOnByte(rest);
      BracedStep(rest, p + n, some, LexItem(rest, p + n).value);
      var space, more;
      space, more, tail := BracedStuck(rest[used..], p + n + used, true);
      items := PrependText(rest, used, item, space, more, tail);
    }
  }

  // ---------------------------------------------------------------- the whole text

  lemma TailStarts(tail: string, at: nat, some: bool, e: CodeError)
    requires PlainMistake(tail, at, e) || EscapedMistake(tail, at, e) || BracedMistake(tail, at, some, e)
    ensures tail == "" || !IsSpace(tail[0])
    ensures BracedMistake(tail, at, some, e) ==> !GoesOn(tail)
  {
    hide CountSpace, CountHex, GoesOn, ByteOfDigits;
    if BracedMistake(tail, at, some, e) {
      if e.UnexpectedText? || e.ExpectedComma? { LastStarts(tail); }
      if tail == "" || !IsSpace(tail[0]) { BracedTail(tail, at, some, e); }
    }
  }

  lemma LastStarts(tail: string)
    ensures forall used: nat :: LastByte(tail, used) ==> tail != "" && tail[0] == '0'
  {
  }

  lemma PlainReported(text: string, lead: string, pairs: seq<Pair>, tail: string, e: CodeError)
    requires PlainFront(text, lead, pairs, tail) && PlainMistake(tail, |text| - |tail|, e)
    ensures Parse(text) == Err(e)
  {
    var rest := RenderPairs(pairs) + tail;
    assert text == lead + rest;
    PlainAt(tail, |text| - |tail|, e);
    PlainFrontRead(pairs, tail, |lead|);
    if pairs != [] { PairsStart(pairs); }
    ParseAt(lead, rest);
  }

  lemma PairsStart(pairs: seq<Pair>)
    requires ValidPairs(pairs) && pairs != []
    ensures |RenderPairs(pairs)| >= 2 && IsHexDigit(RenderPairs(pairs)[0])
  {
    assert pairs[0].Valid();
  }

  lemma EscapedReported(text: string, lead: string, escapes: seq<Escape>, tail: string, e: CodeError)
    requires EscapedFront(text, lead, escapes, tail) && EscapedMistake(tail, |text| - |tail|, e)
    ensures Parse(text) == Err(e)
  {
    hide ParseEscapedAt, ParseEscaped, Parse;
    var rest := RenderEscapes(escapes) + tail;
    assert text == lead + rest;
    EscapedAt(tail, |text| - |tail|, e);
    EscapedFrontRead("", escapes, tail, |lead|);
    RenderEscapesStart(escapes);
    assert "" + RenderEscapes(escapes) == RenderEscapes(escapes);
    ParseAt(lead, rest);
  }

  lemma BracedReported(text: string, lead: string, open: string, items: seq<Item>, tail: string, e: CodeError)
    requires BracedFront(text, lead, open, items, tail) && BracedMistake(tail, |text| - |tail|, items != [], e)
    ensures Parse(text) == Err(e)
  {
    hide BracedMistake, ParseBraced, ParseBracedAt, Parse, GoesOn, Texts, AllSpace, AllCommas;
    var rest := SplitBraced(lead, open, Texts(items), tail);
    TailStarts(tail, |text| - |tail|, items != [], e);
    BracedTail(tail, |text| - |tail|, items != [], e);
    BracedFrontRead(open, items, tail, |lead| + 1, false);
    ParseAt(lead, rest);
  }

  lemma SplitBraced(lead: string, open: string, texts: string, tail: string) returns (rest: string)
    ensures lead + "{" + open + texts + tail == lead + rest && rest != "" && rest[0] == '{'
    ensures rest[1..] == open + texts + tail && |lead + rest| - |tail| == |lead| + 1 + |open + texts|
  {
    rest := "{" + open + texts + tail;
  }

  lemma NothingReported(text: string)
    requires AllSpace(text)
    ensures Parse(text) == Err(NoCode)
  {
    hide ParseBraced, ParseEscaped, ParsePlain;
    CountSpaceExact(text, "");
    assert text == text + "";
  }

  lemma PlainWitness(text: string, lead: string, pairs: seq<Pair>, tail: string, e: CodeError)
    requires PlainFront(text, lead, pairs, tail) && PlainMistake(tail, |text| - |tail|, e)
    ensures Mistake(text, e)
  {
    hide AllSpace, PlainMistake, EscapedMistake, BracedMistake, ValidPairs, ValidEscapes, AllCommas, RenderPairs,
      RenderEscapes, Texts;
  }

  lemma EscapedWitness(text: string, lead: string, escapes: seq<Escape>, tail: string, e: CodeError)
    requires EscapedFront(text, lead, escapes, tail) && EscapedMistake(tail, |text| - |tail|, e)
    ensures Mistake(text, e)
  {
    hide AllSpace, PlainMistake, EscapedMistake, BracedMistake, ValidPairs, ValidEscapes, AllCommas, RenderPairs,
      RenderEscapes, Texts;
  }

  lemma BracedWitness(text: string, lead: string, open: string, items: seq<Item>, tail: string, e: CodeError)
    requires BracedFront(text, lead, open, items, tail) && BracedMistake(tail, |text| - |tail|, items != [], e)
    ensures Mistake(text, e)
  {
    hide AllSpace, PlainMistake, EscapedMistake, BracedMistake, ValidPairs, ValidEscapes, AllCommas, RenderPairs,
      RenderEscapes, Texts;
  }

  /** A front without its leading space, behind the leading space that was skipped before. */
  lemma DropSpace(lead: string, rest: string, space: string, front: string, tail: string)
    requires AllSpace(space) && rest == space + front + tail && rest != "" && !IsSpace(rest[0])
    ensures lead + rest == lead + front + tail && rest == front + tail
  {
    Regroup(space, front, tail);
    if space != "" { LeadIsSpace(space, front + tail); }
    Regroup("", front, tail);
    Regroup("", "", front);
    Regroup(lead, front, tail);
  }

  lemma JoinBraced(lead: string, rest: string, open: string, texts: string, tail: string)
    requires rest != "" && rest[0] == '{' && rest[1..] == open + texts + tail
    ensures lead + rest == lead + "{" + open + texts + tail
    ensures |lead + rest| == |lead| + 1 + |rest[1..]|
  {
    assert rest == "{" + rest[1..];
  }

  lemma BracedFrontOf(lead: string, rest: string, open: string, items: seq<Item>, tail: string)
    requires rest != "" && rest[0] == '{' && rest[1..] == open + Texts(items) + tail
    requires AllSpace(lead) && AllSpace(open) && AllCommas(items)
    ensures BracedFront(lead + rest, lead, open, items, tail) && |lead + rest| == |lead| + 1 + |rest[1..]|
    ensures |tail| <= |lead + rest|
  {
    hide AllSpace, AllCommas, Texts;
    JoinBraced(lead, rest, open, Texts(items), tail);
  }

  lemma StuckBraced(text: string, lead: string, rest: string)
    requires text == lead + rest && AllSpace(lead) && rest != "" && rest[0] == '{'
    requires ParseBraced(rest[1..], |lead| + 1, false).Err?
    ensures Mistake(text, ParseBraced(rest[1..], |lead| + 1, false).error)
  {
    hide ParseBraced, BracedMistake, Mistake, Texts, AllSpace, AllCommas, BracedFront;
    var open, items, tail := BracedStuck(rest[1..], |lead| + 1, false);
    BracedFrontOf(lead, rest, open, items, tail);
    BracedWitness(text, lead, open, items, tail, ParseBraced(rest[1..], |lead| + 1, false).error);
  }

  lemma StuckEscaped(text: string, lead: string, rest: string)
    requires text == lead + rest && AllSpace(lead) && rest != "" && rest[0] == '\\' && ParseEscaped(rest, |lead|).Err?
    ensures Mistake(text, ParseEscaped(rest, |lead|).error)
  {
    hide ParseEscaped, EscapedMistake, Mistake, RenderEscapes, AllSpace;
    var space, escapes, tail := EscapedStuck(rest, |lead|);
    DropSpace(lead, rest, space, RenderEscapes(escapes), tail);
    EmptyRenders();
    Regroup("", "", tail);
    EscapedWitness(text, lead, escapes, tail, ParseEscaped(rest, |lead|).error);
  }

  lemma StuckPlain(text: string, lead: string, rest: string)
    requires text == lead + rest && AllSpace(lead) && rest != "" && !IsSpace(rest[0])
    requires rest[0] != '{' && rest[0] != '\\' && ParsePlain(rest, |lead|).Err?
    ensures Mistake(text, ParsePlain(rest, |lead|).error)
  {
    hide ParsePlain, PlainMistake, Mistake, RenderPairs, AllSpace;
    var space, pairs, tail := PlainStuck(rest, |lead|);
    DropSpace(lead, rest, space, RenderPairs(pairs), tail);
    EmptyRenders();
    Regroup("", "", tail);
    PlainWitness(text, lead, pairs, tail, ParsePlain(rest, |lead|).error);
  }

  lemma Stuck(text: string)
    requires Parse(text).Err?
    ensures Mistake(text, Parse(text).error)
  {
    var n := CountSpace(text);
    var lead, rest := text[..n], text[n..];
    assert text == lead + rest;
    if rest == "" {
      assert text == lead;
      NothingReported(text);
    } else {
      ParseAt(lead, rest);
      hide Parse, ParseBraced, ParseEscaped, ParsePlain, CountSpace, Mistake;
      if rest[0] == '{' {
        StuckBraced(text, lead, rest);
      } else if rest[0] == '\\' {
        StuckEscaped(text, lead, rest);
      } else {
        StuckPlain(text, lead, rest);
      }
    }
  }

  /** A text is rejected for its mistake, and at the position of the mistake. */
  lemma RejectedIff(text: string, error: CodeError)
    ensures Parse(text) == Err(error) <==> Mistake(text, error)
  {
    hide PlainMistake, EscapedMistake, BracedMistake, Parse, PlainFront, EscapedFront, BracedFront;
    if Parse(text) == Err(error) {
      Stuck(text);
    } else if Mistake(text, error) {
      Reported(text, error);
    }
  }

  lemma Reported(text: string, error: CodeError)
    requires Mistake(text, error)
    ensures Parse(text) == Err(error)
  {
    hide PlainMistake, EscapedMistake, BracedMistake, Parse, ValidPairs, ValidEscapes, AllCommas, AllSpace;
    if AllSpace(text) && error == NoCode {
      NothingReported(text);
    } else if lead, pairs, tail :| PlainFront(text, lead, pairs, tail) && PlainMistake(tail, |text| - |tail|, error) {
      PlainReported(text, lead, pairs, tail, error);
    } else if lead, escapes, tail :|
      EscapedFront(text, lead, escapes, tail) && EscapedMistake(tail, |text| - |tail|, error) {
      EscapedReported(text, lead, escapes, tail, error);
    } else {
      var lead, open, items, tail :|
        BracedFront(text, lead, open, items, tail) && BracedMistake(tail, |text| - |tail|, items != [], error);
      BracedReported(text, lead, open, items, tail, error);
    }
  }
}
