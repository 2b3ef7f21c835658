/**
 * The clipboard encoder of the Linux platform layer. Text is sent to the terminal as an OSC 52 control sequence whose
 * payload is written four characters at a time. The decoder is written from section 4 of RFC 4648 and shares no code with
 * the encoder: it joins four 6-bit groups to a 24-bit word, cuts the word into three bytes, and refuses padding bits that
 * are not zero (section 3.5), misplaced padding and foreign characters.
 */
module Base64 {
  import opened Common

  type Bytes = seq<u8>

  // ---------------------------------------------------------------- encoder

  function Character(value: nat): (c: char)
    requires value < 64
    ensures c != '='
  {
    if value < 26 then 'A' + value as char
    else if value < 52 then 'a' + (value - 26) as char
    else if value < 62 then '0' + (value - 52) as char
    else if value == 62 then '+'
    else '/'
  }

  function ByteAt(text: Bytes, k: nat): u8 {
    if k < |text| then text[k] else 0
  }

  /** The four characters of the group that starts the text; its missing bytes count as zero. */
  function Quad(text: Bytes): (quad: string)
    requires text != []
    ensures |quad| == 4
  {
    var first, second, third := text[0], ByteAt(text, 1), ByteAt(text, 2);
    [Character(first / 4),
     Character(first % 4 * 16 + second / 16),
     if |text| > 1 then Character(second % 16 * 4 + third / 64) else '=',
     if |text| > 2 then Character(third % 64) else '=']
  }

  function Encode(text: Bytes): (encoded: string)
    ensures |encoded| == (|text| + 2) / 3 * 4
  {
    if text == [] then "" else Quad(text) + Encode(text[Min(3, |text|)..])
  }

  // ---------------------------------------------------------------- decoder

  /** The number that the alphabet gives to a character. */
  function Sextet(c: char): (value: Option<nat>)
    ensures value.Some? ==> value.value < 64
  {
    if 'A' <= c <= 'Z' then Some((c - 'A') as nat)
    else if 'a' <= c <= 'z' then Some((c - 'a') as nat + 26)
    else if '0' <= c <= '9' then Some((c - '0') as nat + 52)
    else if c == '+' then Some(62)
    else if c == '/' then Some(63)
    else None
  }

  /** The 24-bit word of four 6-bit groups, or of fewer groups followed by zeros. */
  function Word(a: nat, b: nat, c: nat, d: nat): nat {
    a * 0x4_0000 + b * 0x1000 + c * 0x40 + d
  }

  function High(word: nat): nat { word / 0x1_0000 % 0x100 }
  function Middle(word: nat): nat { word / 0x100 % 0x100 }
  function Low(word: nat): nat { word % 0x100 }

  function DecodeFull(quad: string): Option<Bytes>
    requires |quad| == 4
  {
    match (Sextet(quad[0]), Sextet(quad[1]), Sextet(quad[2]), Sextet(quad[3]))
    case (Some(a), Some(b), Some(c), Some(d)) =>
      var word := Word(a, b, c, d);
      Some([High(word), Middle(word), Low(word)])
    case _ => None
  }

  function DecodeOnePad(quad: string): Option<Bytes>
    requires |quad| == 4
  {
    match (Sextet(quad[0]), Sextet(quad[1]), Sextet(quad[2]))
    case (Some(a), Some(b), Some(c)) =>
      var word := Word(a, b, c, 0);
      if Low(word) == 0 then Some([High(word), Middle(word)]) else None
    case _ => None
  }

  function DecodeTwoPads(quad: string): Option<Bytes>
    requires |quad| == 4
  {
    match (Sextet(quad[0]), Sextet(quad[1]))
    case (Some(a), Some(b)) =>
      var word := Word(a, b, 0, 0);
      if Middle(word) == 0 then Some([High(word)]) else None
    case _ => None
  }

  function DecodeLast(quad: string): Option<Bytes>
    requires |quad| == 4
  {
    if quad[3] != '=' then DecodeFull(quad)
    else if quad[2] != '=' then DecodeOnePad(quad)
    else DecodeTwoPads(quad)
  }

  function Decode(s: string): Option<Bytes> {
    if s == "" then Some([])
    else if |s| < 4 then None
    else if |s| == 4 then DecodeLast(s)
    else
      match (DecodeFull(s[..4]), Decode(s[4..]))
      case (Some(bytes), Some(rest)) => Some(bytes + rest)
      case _ => None
  }

  // ---------------------------------------------------------------- encoder and decoder agree

  lemma SextetOfCharacter(value: nat)
    requires value < 64
    ensures Sextet(Character(value)) == Some(value)
  {
  }

  lemma CharacterOfSextet(c: char)
    requires Sextet(c).Some?
    ensures Character(Sextet(c).value) == c
  {
  }

  /** Three bytes fill the 24-bit word exactly. */
  lemma WordOfBytes(x: u8, y: u8, z: u8)
    ensures var word := Word(x / 4, x % 4 * 16 + y / 16, y % 16 * 4 + z / 64, z % 64);
            word == x * 0x1_0000 + y * 0x100 + z
            && High(word) == x && Middle(word) == y && Low(word) == z
  {
    var word := Word(x / 4, x % 4 * 16 + y / 16, y % 16 * 4 + z / 64, z % 64);
    assert word == x * 0x1_0000 + y * 0x100 + z;
    assert word / 0x100 == x * 0x100 + y;
  }

  /** Four 6-bit groups are recovered from the bytes of their word. */
  lemma BytesOfWord(a: nat, b: nat, c: nat, d: nat)
    requires a < 64 && b < 64 && c < 64 && d < 64
    ensures var word := Word(a, b, c, d);
            var x, y, z := High(word), Middle(word), Low(word);
            a == x / 4 && b == x % 4 * 16 + y / 16 && c == y % 16 * 4 + z / 64 && d == z % 64
  {
    CutWord(a, b / 16, b % 16, c / 4, c % 4, d);
    assert b == b / 16 * 16 + b % 16 && c == c / 4 * 4 + c % 4;
    JoinBytes(a, b / 16, b % 16, c / 4, c % 4, d);
  }

  lemma CutWord(a: nat, b1: nat, b0: nat, c1: nat, c0: nat, d: nat)
    requires a < 64 && b1 < 4 && b0 < 16 && c1 < 16 && c0 < 4 && d < 64
    ensures var word := Word(a, b1 * 16 + b0, c1 * 4 + c0, d);
            High(word) == a * 4 + b1 && Middle(word) == b0 * 16 + c1 && Low(word) == c0 * 64 + d
  {
    CutBytes(a * 4 + b1, b0 * 16 + c1, c0 * 64 + d);
  }

  /** Three bytes can be cut from the word that they make up. */
  lemma CutBytes(x: nat, y: nat, z: nat)
    requires x < 0x100 && y < 0x100 && z < 0x100
    ensures var word := x * 0x1_0000 + y * 0x100 + z; High(word) == x && Middle(word) == y && Low(word) == z
  {
    var word := x * 0x1_0000 + y * 0x100 + z;
    assert word / 0x100 == x * 0x100 + y && word / 0x1_0000 == x;
  }

  lemma JoinBytes(a: nat, b1: nat, b0: nat, c1: nat, c0: nat, d: nat)
    requires a < 64 && b1 < 4 && b0 < 16 && c1 < 16 && c0 < 4 && d < 64
    ensures var x, y, z := a * 4 + b1, b0 * 16 + c1, c0 * 64 + d;
            a == x / 4 && b1 * 16 + b0 == x % 4 * 16 + y / 16 && c1 * 4 + c0 == y % 16 * 4 + z / 64 && d == z % 64
  {
  }

  /** One group of the encoder decodes to its bytes, however many there are. */
  lemma QuadDecodes(text: Bytes)
    requires 0 < |text| <= 3
    ensures DecodeLast(Quad(text)) == Some(text)
    ensures |text| == 3 ==> DecodeFull(Quad(text)) == Some(text)
  {
    hide Character, Sextet, Word, High, Middle, Low;
    var x, y, z := text[0], ByteAt(text, 1), ByteAt(text, 2);
    SextetOfCharacter(x / 4);
    SextetOfCharacter(x % 4 * 16 + y / 16);
    SextetOfCharacter(y % 16 * 4 + z / 64);
    SextetOfCharacter(z % 64);
    WordOfBytes(x, y, z);
    var quad := Quad(text);
    if |text| == 1 {
      assert text == [x];
      assert DecodeLast(quad) == DecodeTwoPads(quad);
    } else if |text| == 2 {
      assert text == [x, y];
      assert DecodeLast(quad) == DecodeOnePad(quad);
    } else {
      assert text == [x, y, z];
      assert DecodeLast(quad) == DecodeFull(quad);
    }
  }

  /** A group that decodes is the group the encoder writes. */
  lemma DecodedQuad(quad: string)
    requires |quad| == 4
    ensures DecodeLast(quad).Some? ==> 0 < |DecodeLast(quad).value| <= 3 && Quad(DecodeLast(quad).value) == quad
    ensures DecodeFull(quad).Some? ==> |DecodeFull(quad).value| == 3 && Quad(DecodeFull(quad).value) == quad
  {
    hide Character, Sextet, Word, High, Middle, Low;
    forall i | 0 <= i < 4 && Sextet(quad[i]).Some? ensures Character(Sextet(quad[i]).value) == quad[i] {
      CharacterOfSextet(quad[i]);
    }
    if Sextet(quad[0]).Some? && Sextet(quad[1]).Some? {
      var a, b := Sextet(quad[0]).value, Sextet(quad[1]).value;
      var c := if Sextet(quad[2]).Some? then Sextet(quad[2]).value else 0;
      var d := if Sextet(quad[3]).Some? then Sextet(quad[3]).value else 0;
      BytesOfWord(a, b, c, d);
      BytesOfWord(a, b, c, 0);
      BytesOfWord(a, b, 0, 0);
    }
  }

  /** Decoding per section 4 of RFC 4648 returns the text, for every length and padding case. */
  lemma {:induction false} RoundTrip(text: Bytes)
    ensures Decode(Encode(text)) == Some(text)
  {
    hide DecodeFull, DecodeLast, Quad;
    if text != [] {
      var size := Min(3, |text|);
      var head, rest := text[..size], text[size..];
      assert Quad(text) == Quad(head) by { QuadOfPrefix(text); }
      QuadDecodes(head);
      RoundTrip(rest);
      var s := Encode(text);
      assert s[..4] == Quad(head) && s[4..] == Encode(rest);
      if rest == [] {
        assert s == s[..4] && head == text;
        assert Decode(s) == DecodeLast(s);
      } else {
        assert Decode(s[4..]) == Some(rest);
        assert DecodeFull(s[..4]) == Some(head);
      }
      assert text == head + rest;
    }
  }

  lemma QuadOfPrefix(text: Bytes)
    requires text != []
    ensures Quad(text) == Quad(text[..Min(3, |text|)])
  {
  }

  /** Whatever decodes is an output of the encoder. */
  lemma {:induction false} DecodedIsEncoded(s: string)
    requires Decode(s).Some?
    ensures Encode(Decode(s).value) == s
  {
    hide DecodeFull, DecodeLast, Quad;
    if |s| == 4 {
      DecodedQuad(s);
      var text := Decode(s).value;
      assert text[Min(3, |text|)..] == [];
    } else if |s| > 4 {
      DecodedQuad(s[..4]);
      DecodedIsEncoded(s[4..]);
      var bytes, rest := DecodeFull(s[..4]).value, Decode(s[4..]).value;
      var text := bytes + rest;
      QuadOfPrefix(text);
      assert text[..3] == bytes && text[3..] == rest;
    }
  }

  /** The encoder's outputs are exactly the canonical texts of the standard: no other text stands for the same bytes. */
  lemma DecodeIff(s: string, text: Bytes)
    ensures Decode(s) == Some(text) <==> s == Encode(text)
  {
    RoundTrip(text);
    if Decode(s) == Some(text) {
      DecodedIsEncoded(s);
    }
  }

  // ---------------------------------------------------------------- control sequence

  const BELL: char := 7 as char
  const ESCAPE: char := 27 as char
  const OPENING: string := [ESCAPE] + "]52;c;"

  /** Everything a terminal should receive for the text. */
  function ControlSequence(text: Bytes): string {
    OPENING + Encode(text) + [BELL]
  }

  /** The sequence, character by character around the payload: ESC ] 5 2 ; c ; and BEL. */
  lemma SequenceCharacters(text: Bytes)
    ensures var s := ControlSequence(text);
      && |s| == 8 + (|text| + 2) / 3 * 4
      && s[0] as int == 27 && s[1] == ']' && s[2] == '5' && s[3] == '2' && s[4] == ';' && s[5] == 'c' && s[6] == ';'
      && s[7..|s| - 1] == Encode(text) && s[|s| - 1] as int == 7
  {
    hide Encode;
  }

  /** How many groups of three bytes the text has. */
  function Groups(text: Bytes): nat {
    (|text| + 2) / 3
  }

  /**
   * Sends the text to the terminal. `calls` is the number of stream calls that succeed before one fails, and `part` how
   * many characters the failing call still writes, if it has as many.
   */
  method CopyToClipboard(text: Bytes, isTerminal: bool, calls: nat, part: nat) returns (ok: bool, written: string)
    ensures ok <==> text != [] && isTerminal && calls >= Groups(text) + 3
    ensures ok ==> written == ControlSequence(text)
    ensures written <= ControlSequence(text)
    ensures text == [] || !isTerminal ==> written == ""
  {
    hide Encode, QuadAt;
    written := "";
    if text == [] || !isTerminal {
      return false, written;
    }
    if calls == 0 {
      PartIsPrefix("", OPENING, Encode(text), Min(part, |OPENING|), text);
      return false, OPENING[..Min(part, |OPENING|)];
    }
    written := OPENING;
    var offset, left := 0, calls - 1;
    while offset < |text|
      invariant offset % 3 == 0 && offset < |text| + 3
      invariant left == calls - 1 - offset / 3
      invariant written + Encode(text[Min(offset, |text|)..]) == OPENING + Encode(text)
    {
      NextGroup(text, offset);
      var quad := EncodeGroup(text, offset);
      ghost var rest := Encode(text[Min(offset + 3, |text|)..]);
      assert (written + quad) + rest == written + (quad + rest);
      if left == 0 {
        PartIsPrefix(written, quad, rest, Min(part, |quad|), text);
        return false, written + quad[..Min(part, |quad|)];
      }
      written := written + quad;
      left := left - 1;
      offset := offset + 3;
    }
    EncodeEmpty(text, offset);
    assert offset / 3 == Groups(text);
    if left > 0 || part > 0 {
      written := written + [BELL];
    }
    ok := left > 1;
  }

  /** What was written, with a part of the next piece, is a prefix of the whole. */
  lemma PartIsPrefix(written: string, piece: string, rest: string, n: nat, text: Bytes)
    requires written + piece + rest == OPENING + Encode(text) && n <= |piece|
    ensures written + piece[..n] <= ControlSequence(text)
  {
    hide Encode;
    assert piece == piece[..n] + piece[n..];
    assert ControlSequence(text) == (written + piece[..n]) + (piece[n..] + rest + [BELL]);
  }

  lemma EncodeEmpty(text: Bytes, offset: nat)
    requires offset >= |text|
    ensures Encode(text[Min(offset, |text|)..]) == ""
  {
  }

  /** The four characters written for one group, from indices into the whole text. */
  function QuadAt(text: Bytes, offset: nat): string
    requires offset < |text|
  {
    Quad(text[offset..])
  }

  lemma NextGroup(text: Bytes, offset: nat)
    requires offset < |text|
    ensures Encode(text[offset..]) == QuadAt(text, offset) + Encode(text[Min(offset + 3, |text|)..])
  {
    var rest := text[offset..];
    assert rest[Min(3, |rest|)..] == text[Min(offset + 3, |text|)..];
  }

  /** The loop's own four characters: the bytes are taken from the whole text. */
  method EncodeGroup(text: Bytes, offset: nat) returns (quad: string)
    requires offset < |text|
    ensures quad == QuadAt(text, offset)
  {
    var first := text[offset];
    var second := if offset + 1 < |text| then text[offset + 1] else 0;
    var third := if offset + 2 < |text| then text[offset + 2] else 0;
    quad :=
      [Character(first / 4),
       Character(first % 4 * 16 + second / 16),
       if offset + 1 < |text| then Character(second % 16 * 4 + third / 64) else '=',
       if offset + 2 < |text| then Character(third % 64) else '='];
  }

  lemma {:induction false} NoBell(text: Bytes)
    ensures BELL !in Encode(text)
  {
    if text != [] {
      NoBell(text[Min(3, |text|)..]);
      assert BELL !in Quad(text);
    }
  }

  /** A reader that takes everything between the opening and the first bell, and decodes it, has the text. */
  lemma ReceiverRecovers(text: Bytes, end: nat)
    ensures var s := ControlSequence(text);
            |OPENING| <= end < |s| && s[end] == BELL && BELL !in s[|OPENING|..end]
            ==> Decode(s[|OPENING|..end]) == Some(text)
    ensures exists last: nat :: |OPENING| <= last < |ControlSequence(text)| && ControlSequence(text)[last] == BELL
  {
    hide Encode, Decode;
    NoBell(text);
    RoundTrip(text);
    var s := ControlSequence(text);
    var last: nat := |OPENING| + |Encode(text)|;
    assert s[last] == BELL;
    assert s[|OPENING|..last] == Encode(text);
    if |OPENING| <= end < last {
      assert s[end] == Encode(text)[end - |OPENING|];
    }
  }
}
