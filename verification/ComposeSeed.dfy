/** Register seeds composed from the per-field texts of the editor and of the command line. */
module ComposeSeed {
  import opened Common
  import opened MachineState
  import opened Bits
  import opened SeedText

  /** The slices of one general register, widest first. */
  datatype GprSeed = GprSeed(full: string, dword: string, word: string, byteHigh: string, byteLow: string)

  const NO_GPR := GprSeed("", "", "", "", "")

  type GprSeeds = s: seq<GprSeed> | |s| == GPR_COUNT witness seq<GprSeed>(GPR_COUNT, _ => NO_GPR)
  type XmmTexts = s: seq<string> | |s| == 16 witness seq<string>(16, _ => "")
  type StTexts = s: seq<string> | |s| == 8 witness seq<string>(8, _ => "")

  datatype SeedFields = SeedFields(gpr: GprSeeds, flags: bv64, xmm: XmmTexts, st: StTexts, mxcsr: string,
    controlWord: string)

  datatype SeedError =
    | BadMxcsr(text: string)
    | BadControlWord(text: string)
    | BadGpr(reg: nat, text: string)
    | BadXmm(reg: nat, text: string)
    | BadSt(reg: nat, text: string)

  // ---------------------------------------------------------------- one general register

  predicate Malformed(text: string) {
    text != "" && ParseSeed(text) == None
  }

  function WordBits(value: u64): bv64 {
    value as bv64
  }

  /** The bits of a well-formed, non-empty text. */
  function TextBits(text: string): Option<bv64> {
    if text == "" || ParseSeed(text) == None then None else Some(WordBits(ParseSeed(text).value))
  }

  /** A value moved to the lowest bit of its mask. */
  function Placed(value: bv64, mask: bv64): bv64 {
    if mask == 0xFF00 then value << 8 else value
  }

  lemma ShiftPlaces(value: bv64, mask: bv64, shift: bv64)
    requires shift == if mask == 0xFF00 then 8 else 0
    ensures (if shift == 8 then value << 8 else value) == Placed(value, mask)
  {
  }

  /** Overlays a text on the bits of the mask. A high byte is shifted into place first. */
  function Overlay(result: bv64, text: string, mask: bv64): bv64 {
    match TextBits(text)
    case None => result
    case Some(value) => Blend(result, Placed(value, mask), mask)
  }

  function ComposeGpr(seed: GprSeed): bv64 {
    var full := Overlay(0, seed.full, 0xFFFF_FFFF_FFFF_FFFF);
    var dword := Overlay(full, seed.dword, 0xFFFF_FFFF);
    var word := Overlay(dword, seed.word, 0xFFFF);
    Overlay(Overlay(word, seed.byteHigh, 0xFF00), seed.byteLow, 0xFF)
  }

  function SliceError(text: string, reg: nat): seq<SeedError> {
    if Malformed(text) then [BadGpr(reg, text)] else []
  }

  /** The malformed slices, widest first, as they are reported. */
  function GprErrors(seed: GprSeed, reg: nat): seq<SeedError> {
    SliceError(seed.full, reg) + SliceError(seed.dword, reg) + SliceError(seed.word, reg)
    + SliceError(seed.byteHigh, reg) + SliceError(seed.byteLow, reg)
  }

  method OverlaySlice(result: bv64, errors: seq<SeedError>, text: string, reg: nat, mask: bv64, shift: bv64)
    returns (value: bv64, reported: seq<SeedError>)
    requires shift == if mask == 0xFF00 then 8 else 0
    ensures value == Overlay(result, text, mask)
    ensures reported == errors + SliceError(text, reg)
  {
    hide Blend, ParseSeed, WordBits, Placed;
    value, reported := result, errors;
    if text == "" {
      return;
    }
    var parsed := ParseSeed(text);
    if parsed.Some? {
      var bits := WordBits(parsed.value);
      ShiftPlaces(bits, mask, shift);
      value := Blend(result, if shift == 8 then bits << 8 else bits, mask);
    } else {
      reported := errors + [BadGpr(reg, text)];
    }
  }

  method ComposeGprSeed(seed: GprSeed, reg: nat, errors: seq<SeedError>) returns (result: bv64, reported: seq<SeedError>)
    ensures result == ComposeGpr(seed)
    ensures reported == errors + GprErrors(seed, reg)
  {
    hide Overlay, SliceError;
    result, reported := 0, errors;
    result, reported := OverlaySlice(result, reported, seed.full, reg, 0xFFFF_FFFF_FFFF_FFFF, 0);
    result, reported := OverlaySlice(result, reported, seed.dword, reg, 0xFFFF_FFFF, 0);
    result, reported := OverlaySlice(result, reported, seed.word, reg, 0xFFFF, 0);
    result, reported := OverlaySlice(result, reported, seed.byteHigh, reg, 0xFF00, 8);
    result, reported := OverlaySlice(result, reported, seed.byteLow, reg, 0xFF, 0);
  }

  // ---------------------------------------------------------------- which slice each bit comes from

  /** The bit that the narrowest well-formed, non-empty slice over bit `k` gives, else zero. */
  function NarrowestBit(seed: GprSeed, k: bv64): bv64
    requires k < 64
  {
    if k < 8 && TextBits(seed.byteLow).Some? then Bit(TextBits(seed.byteLow).value, k)
    else if 8 <= k < 16 && TextBits(seed.byteHigh).Some? then Bit(TextBits(seed.byteHigh).value, k - 8)
    else if k < 16 && TextBits(seed.word).Some? then Bit(TextBits(seed.word).value, k)
    else if k < 32 && TextBits(seed.dword).Some? then Bit(TextBits(seed.dword).value, k)
    else if TextBits(seed.full).Some? then Bit(TextBits(seed.full).value, k)
    else 0
  }

  // One overlay, bit by bit.

  lemma FullOverlay(result: bv64, text: string, k: bv64)
    requires k < 64
    ensures Bit(Overlay(result, text, 0xFFFF_FFFF_FFFF_FFFF), k)
      == if TextBits(text).Some? then Bit(TextBits(text).value, k) else Bit(result, k)
  {
    hide Blend, Bit, IsBlend, TextBits;
    if TextBits(text).Some? {
      var value := TextBits(text).value;
      Blended(result, value, 0xFFFF_FFFF_FFFF_FFFF);
      FullBit(Blend(result, value, 0xFFFF_FFFF_FFFF_FFFF), result, value, k);
    }
  }

  lemma DwordOverlay(result: bv64, text: string, k: bv64)
    requires k < 64
    ensures Bit(Overlay(result, text, 0xFFFF_FFFF), k)
      == if TextBits(text).Some? && k < 32 then Bit(TextBits(text).value, k) else Bit(result, k)
  {
    hide Blend, Bit, IsBlend, TextBits;
    if TextBits(text).Some? {
      var value := TextBits(text).value;
      Blended(result, value, 0xFFFF_FFFF);
      DwordBit(Blend(result, value, 0xFFFF_FFFF), result, value, k);
    }
  }

  lemma WordOverlay(result: bv64, text: string, k: bv64)
    requires k < 64
    ensures Bit(Overlay(result, text, 0xFFFF), k)
      == if TextBits(text).Some? && k < 16 then Bit(TextBits(text).value, k) else Bit(result, k)
  {
    hide Blend, Bit, IsBlend, TextBits;
    if TextBits(text).Some? {
      var value := TextBits(text).value;
      Blended(result, value, 0xFFFF);
      WordBit(Blend(result, value, 0xFFFF), result, value, k);
    }
  }

  lemma HighByteOverlay(result: bv64, text: string, k: bv64)
    requires k < 64
    ensures Bit(Overlay(result, text, 0xFF00), k)
      == if TextBits(text).Some? && 8 <= k < 16 then Bit(TextBits(text).value, k - 8) else Bit(result, k)
  {
    hide Blend, Bit, IsBlend, TextBits;
    if TextBits(text).Some? {
      var value := TextBits(text).value;
      Blended(result, value << 8, 0xFF00);
      HighByteBit(Blend(result, value << 8, 0xFF00), result, value, k);
    }
  }

  lemma ByteOverlay(result: bv64, text: string, k: bv64)
    requires k < 64
    ensures Bit(Overlay(result, text, 0xFF), k)
      == if TextBits(text).Some? && k < 8 then Bit(TextBits(text).value, k) else Bit(result, k)
  {
    hide Blend, Bit, IsBlend, TextBits;
    if TextBits(text).Some? {
      var value := TextBits(text).value;
      Blended(result, value, 0xFF);
      ByteBit(Blend(result, value, 0xFF), result, value, k);
    }
  }

  /** Every bit comes from the narrowest well-formed, non-empty slice that covers it. */
  lemma NarrowestSliceWins(seed: GprSeed, k: bv64)
    requires k < 64
    ensures Bit(ComposeGpr(seed), k) == NarrowestBit(seed, k)
  {
    hide Overlay, Bit, TextBits;
    var full := Overlay(0, seed.full, 0xFFFF_FFFF_FFFF_FFFF);
    var dword := Overlay(full, seed.dword, 0xFFFF_FFFF);
    var word := Overlay(dword, seed.word, 0xFFFF);
    var high := Overlay(word, seed.byteHigh, 0xFF00);
    FullOverlay(0, seed.full, k);
    DwordOverlay(full, seed.dword, k);
    WordOverlay(dword, seed.word, k);
    HighByteOverlay(word, seed.byteHigh, k);
    ByteOverlay(high, seed.byteLow, k);
    ZeroBit(k);
  }

  /** The two byte overlays commute: neither sees the other's bits. */
  lemma ByteOverlaysCommute(result: bv64, high: string, low: string)
    ensures Overlay(Overlay(result, high, 0xFF00), low, 0xFF) == Overlay(Overlay(result, low, 0xFF), high, 0xFF00)
  {
    hide Blend, TextBits;
    if TextBits(high).Some? && TextBits(low).Some? {
      BlendsCommute(result, TextBits(high).value << 8, TextBits(low).value);
    }
  }

  predicate WellFormedGpr(seed: GprSeed) {
    && !Malformed(seed.full) && !Malformed(seed.dword) && !Malformed(seed.word)
    && !Malformed(seed.byteHigh) && !Malformed(seed.byteLow)
  }

  function One(b: bool): nat {
    if b then 1 else 0
  }

  /** There is one error for each malformed slice. */
  lemma ErrorsCountMalformed(seed: GprSeed, reg: nat)
    ensures |GprErrors(seed, reg)|
      == One(Malformed(seed.full)) + One(Malformed(seed.dword)) + One(Malformed(seed.word))
         + One(Malformed(seed.byteHigh)) + One(Malformed(seed.byteLow))
    ensures GprErrors(seed, reg) == [] <==> WellFormedGpr(seed)
  {
    hide Malformed;
  }

  // ---------------------------------------------------------------- all registers

  function BadMxcsrOf(text: string): seq<SeedError> {
    if text != "" && ParseMxcsr(text) == None then [BadMxcsr(text)] else []
  }

  function BadControlWordOf(text: string): seq<SeedError> {
    if text != "" && ParseControlWord(text) == None then [BadControlWord(text)] else []
  }

  function GprErrorsTo(gpr: GprSeeds, n: nat): seq<SeedError>
    requires n <= GPR_COUNT
  {
    if n == 0 then [] else GprErrorsTo(gpr, n - 1) + GprErrors(gpr[n - 1], n - 1)
  }

  function XmmErrorsTo(f: Floats, xmm: XmmTexts, n: nat): seq<SeedError>
    requires n <= 16
  {
    if n == 0 then []
    else XmmErrorsTo(f, xmm, n - 1) + if ComposeXmm(f, xmm[n - 1]) == None then [BadXmm(n - 1, xmm[n - 1])] else []
  }

  predicate BadStText(f: Floats, text: string) {
    text != "" && ComposeSt(f, text) == None
  }

  function StErrorsTo(f: Floats, st: StTexts, n: nat): seq<SeedError>
    requires n <= 8
  {
    if n == 0 then []
    else StErrorsTo(f, st, n - 1) + if BadStText(f, st[n - 1]) then [BadSt(n - 1, st[n - 1])] else []
  }

  /** Everything that is wrong with the fields, in the order in which it is reported. */
  function ErrorsOf(f: Floats, fields: SeedFields): seq<SeedError> {
    BadMxcsrOf(fields.mxcsr) + BadControlWordOf(fields.controlWord)
    + GprErrorsTo(fields.gpr, GPR_COUNT) + XmmErrorsTo(f, fields.xmm, 16) + StErrorsTo(f, fields.st, 8)
  }

  /** The abridged tag word marks the registers with a well-formed, non-empty text. */
  function TagsTo(f: Floats, st: StTexts, n: nat): bv8
    requires n <= 8
  {
    if n == 0 then 0
    else if st[n - 1] != "" && ComposeSt(f, st[n - 1]).Some? then Tag(TagsTo(f, st, n - 1), n - 1)
    else TagsTo(f, st, n - 1)
  }

  /** Sets the bit with the number of the register. */
  function Tag(tags: bv8, i: nat): bv8
    requires i < 8
  {
    tags | TagBit(i)
  }

  function TagBit(i: nat): bv8
    requires i < 8
  {
    [1, 2, 4, 8, 16, 32, 64, 128][i]
  }

  predicate Tagged(tags: bv8, i: nat)
    requires i < 8
  {
    tags & TagBit(i) != 0
  }

  lemma TagOne(tags: bv8, i: nat, j: nat)
    requires i < 8 && j < 8
    ensures Tagged(Tag(tags, i), j) <==> i == j || Tagged(tags, j)
  {
    hide TagBit, IsTagBit;
    TagBits(i, j);
    OneBit(tags, TagBit(i), TagBit(j));
  }

  lemma TagBits(i: nat, j: nat)
    requires i < 8 && j < 8
    ensures IsTagBit(TagBit(i)) && IsTagBit(TagBit(j)) && (TagBit(i) == TagBit(j) <==> i == j)
  {
  }

  predicate IsTagBit(bit: bv8) {
    bit == 1 || bit == 2 || bit == 4 || bit == 8 || bit == 16 || bit == 32 || bit == 64 || bit == 128
  }

  lemma OneBit(tags: bv8, a: bv8, b: bv8)
    requires IsTagBit(a) && IsTagBit(b)
    ensures (tags | a) & b != 0 <==> a == b || tags & b != 0
  {
  }

  /** A register is tagged exactly if its text is well-formed and not blank. */
  lemma {:induction false} TagsMark(f: Floats, st: StTexts, n: nat, i: nat)
    requires n <= 8 && i < 8
    ensures Tagged(TagsTo(f, st, n), i) <==> i < n && st[i] != "" && ComposeSt(f, st[i]).Some?
  {
    hide SeedText.ComposeSt, Tagged, Tag;
    if n > 0 {
      TagsMark(f, st, n - 1, i);
      TagOne(TagsTo(f, st, n - 1), n - 1, i);
    } else {
      Untagged(i);
    }
  }

  lemma Untagged(i: nat)
    requires i < 8
    ensures !Tagged(0, i)
  {
  }

  function XmmOr(f: Floats, text: string): Xmm {
    match ComposeXmm(f, text) case Some(value) => value case None => ZERO_XMM
  }

  function StOr(f: Floats, text: string): St80 {
    match ComposeSt(f, text) case Some(value) => value case None => ZERO_ST80
  }

  function GprValue(seed: GprSeed): u64 {
    Unsigned(ComposeGpr(seed))
  }

  function MxcsrBits(value: u64): bv32
    requires value <= MXCSR_DEFINED_MASK
  {
    value as bv32
  }

  function ControlWordBits(value: u64): bv16
    requires value <= CONTROL_WORD_MAX
  {
    value as bv16
  }

  function MxcsrOf(text: string): bv32 {
    if text != "" && ParseMxcsr(text).Some? then MxcsrBits(ParseMxcsr(text).value) else DEFAULT_MXCSR
  }

  function ControlWordOf(text: string): bv16 {
    if text != "" && ParseControlWord(text).Some? then ControlWordBits(ParseControlWord(text).value)
    else DEFAULT_FPU_CONTROL_WORD
  }

  /** The registers of the fields: a malformed field keeps its default. */
  function RegistersOf(f: Floats, fields: SeedFields): Registers {
    Registers(
      seq<u64>(GPR_COUNT, i requires 0 <= i < GPR_COUNT => GprValue(fields.gpr[i])),
      0, fields.flags,
      seq<Xmm>(16, i requires 0 <= i < 16 => XmmOr(f, fields.xmm[i])),
      MxcsrOf(fields.mxcsr),
      seq<St80>(8, i requires 0 <= i < 8 => StOr(f, fields.st[i])),
      ControlWordOf(fields.controlWord), 0, TagsTo(f, fields.st, 8))
  }

  method ComposeGprs(gpr: GprSeeds, errors: seq<SeedError>) returns (values: Gprs, reported: seq<SeedError>)
    ensures forall i :: 0 <= i < GPR_COUNT ==> values[i] == GprValue(gpr[i])
    ensures reported == errors + GprErrorsTo(gpr, GPR_COUNT)
  {
    hide ComposeGpr, GprErrors, Unsigned;
    values, reported := ZERO_REGISTERS.gpr, errors;
    for i := 0 to GPR_COUNT
      invariant forall k :: 0 <= k < i ==> values[k] == GprValue(gpr[k])
      invariant reported == errors + GprErrorsTo(gpr, i)
    {
      var value;
      value, reported := ComposeGprSeed(gpr[i], i, reported);
      values := values[i := Unsigned(value)];
      assert values[i] == GprValue(gpr[i]);
    }
  }

  method ComposeXmms(f: Floats, xmm: XmmTexts, errors: seq<SeedError>) returns (values: Xmms, reported: seq<SeedError>)
    ensures forall i :: 0 <= i < 16 ==> values[i] == XmmOr(f, xmm[i])
    ensures reported == errors + XmmErrorsTo(f, xmm, 16)
  {
    hide ComposeXmm;
    values, reported := ZERO_REGISTERS.xmm, errors;
    for i := 0 to 16
      invariant forall k :: 0 <= k < i ==> values[k] == XmmOr(f, xmm[k])
      invariant forall k :: i <= k < 16 ==> values[k] == ZERO_XMM
      invariant reported == errors + XmmErrorsTo(f, xmm, i)
    {
      var value := ComposeXmm(f, xmm[i]);
      if value.Some? {
        values := values[i := value.value];
      } else {
        reported := reported + [BadXmm(i, xmm[i])];
      }
    }
  }

  /** A blank slot text composes to the blank register. */
  lemma EmptySt(f: Floats)
    ensures StOr(f, "") == ZERO_ST80
  {
  }

  method ComposeSts(f: Floats, st: StTexts, errors: seq<SeedError>)
    returns (values: Sts, tags: bv8, reported: seq<SeedError>)
    ensures forall i :: 0 <= i < 8 ==> values[i] == StOr(f, st[i])
    ensures tags == TagsTo(f, st, 8) && reported == errors + StErrorsTo(f, st, 8)
  {
    hide Tag, SeedText.ComposeSt;
    values, tags, reported := ZERO_REGISTERS.st, 0, errors;
    for i := 0 to 8
      invariant forall k :: 0 <= k < i ==> values[k] == StOr(f, st[k])
      invariant forall k :: i <= k < 8 ==> values[k] == ZERO_ST80
      invariant tags == TagsTo(f, st, i) && reported == errors + StErrorsTo(f, st, i)
    {
      if st[i] != "" {
        var value := ComposeSt(f, st[i]);
        if value.Some? {
          values := values[i := value.value];
          tags := Tag(tags, i);
        } else {
          reported := reported + [BadSt(i, st[i])];
        }
      } else {
        EmptySt(f);
      }
    }
  }

  method ComposeEnvironment(fields: SeedFields) returns (mxcsr: bv32, controlWord: bv16, errors: seq<SeedError>)
    ensures mxcsr == MxcsrOf(fields.mxcsr) && controlWord == ControlWordOf(fields.controlWord)
    ensures errors == BadMxcsrOf(fields.mxcsr) + BadControlWordOf(fields.controlWord)
  {
    hide ParseMxcsr, ParseControlWord, MxcsrBits, ControlWordBits;
    mxcsr, controlWord, errors := DEFAULT_MXCSR, DEFAULT_FPU_CONTROL_WORD, [];
    if fields.mxcsr != "" {
      var value := ParseMxcsr(fields.mxcsr);
      if value.Some? {
        mxcsr := MxcsrBits(value.value);
      } else {
        errors := errors + [BadMxcsr(fields.mxcsr)];
      }
    }
    if fields.controlWord != "" {
      var value := ParseControlWord(fields.controlWord);
      if value.Some? {
        controlWord := ControlWordBits(value.value);
      } else {
        errors := errors + [BadControlWord(fields.controlWord)];
      }
    }
  }

  /** The program's composition agrees with the specification, values and errors. */
  method Compose(f: Floats, fields: SeedFields) returns (seed: Registers, errors: seq<SeedError>)
    ensures seed == RegistersOf(f, fields) && errors == ErrorsOf(f, fields)
  {
    hide GprValue, MxcsrOf, ControlWordOf, BadMxcsrOf, BadControlWordOf, TagsTo, GprErrorsTo, XmmErrorsTo,
      StErrorsTo, XmmOr, StOr;
    var mxcsr, controlWord;
    mxcsr, controlWord, errors := ComposeEnvironment(fields);
    var gpr, xmm, st, tags;
    gpr, errors := ComposeGprs(fields.gpr, errors);
    xmm, errors := ComposeXmms(f, fields.xmm, errors);
    st, tags, errors := ComposeSts(f, fields.st, errors);
    seed := Registers(gpr, 0, fields.flags, xmm, mxcsr, st, controlWord, 0, tags);
    assert seed.gpr == RegistersOf(f, fields).gpr;
    assert seed.xmm == RegistersOf(f, fields).xmm;
    assert seed.st == RegistersOf(f, fields).st;
  }

  /**
   * The composed registers, field by field: each from its own text, with the defaults of a reset unit where a text is
   * missing or malformed.
   */
  lemma ComposedFields(f: Floats, fields: SeedFields)
    ensures var seed := RegistersOf(f, fields);
      && seed.rip == 0 && seed.rflags == fields.flags && seed.fpuStatusWord == 0
      && (forall i :: 0 <= i < 16 ==> seed.gpr[i] == Unsigned(ComposeGpr(fields.gpr[i])))
      && (forall i :: 0 <= i < 16 ==>
            seed.xmm[i] == if ComposeXmm(f, fields.xmm[i]).Some? then ComposeXmm(f, fields.xmm[i]).value else Xmm(0, 0))
      && (forall i :: 0 <= i < 8 ==>
            seed.st[i] == if ComposeSt(f, fields.st[i]).Some? then ComposeSt(f, fields.st[i]).value
                          else [0, 0, 0, 0, 0, 0, 0, 0, 0, 0])
      && (fields.mxcsr == "" || ParseMxcsr(fields.mxcsr) == None ==> seed.mxcsr == 0x1F80)
      && (fields.controlWord == "" || ParseControlWord(fields.controlWord) == None ==> seed.fpuControlWord == 0x037F)
  {
    hide ComposeGpr, ComposeXmm, ComposeSt, ParseMxcsr, ParseControlWord, TagsTo, MxcsrBits, ControlWordBits, Unsigned;
  }

  /** A well-formed environment text gives its own value. */
  lemma ComposedEnvironment(f: Floats, fields: SeedFields)
    ensures fields.mxcsr != "" && ParseMxcsr(fields.mxcsr).Some? ==>
      RegistersOf(f, fields).mxcsr == ParseMxcsr(fields.mxcsr).value as bv32
    ensures fields.controlWord != "" && ParseControlWord(fields.controlWord).Some? ==>
      RegistersOf(f, fields).fpuControlWord == ParseControlWord(fields.controlWord).value as bv16
  {
    hide ParseMxcsr, ParseControlWord, TagsTo, GprValue, XmmOr, StOr;
  }

  // ---------------------------------------------------------------- what is reported, and in which order

  /** The order of the report: environment, then general, vector and x87 registers, each by number. */
  function ReportRank(e: SeedError): int {
    match e
    case BadMxcsr(_) => 0
    case BadControlWord(_) => 1
    case BadGpr(reg, _) => 2 + reg
    case BadXmm(reg, _) => 18 + reg
    case BadSt(reg, _) => 34 + reg
  }

  ghost predicate InReportOrder(errors: seq<SeedError>) {
    forall i, j :: 0 <= i < j < |errors| ==> ReportRank(errors[i]) <= ReportRank(errors[j])
  }

  /** The error names a text that is there and cannot be read. */
  predicate IsMistake(f: Floats, fields: SeedFields, e: SeedError) {
    match e
    case BadMxcsr(text) => text == fields.mxcsr != "" && ParseMxcsr(text) == None
    case BadControlWord(text) => text == fields.controlWord != "" && ParseControlWord(text) == None
    case BadGpr(reg, text) =>
      reg < 16 && text != "" && ParseSeed(text) == None
      && (text == fields.gpr[reg].full || text == fields.gpr[reg].dword || text == fields.gpr[reg].word
          || text == fields.gpr[reg].byteHigh || text == fields.gpr[reg].byteLow)
    case BadXmm(reg, text) => reg < 16 && text == fields.xmm[reg] && ComposeXmm(f, text) == None
    case BadSt(reg, text) => reg < 8 && text == fields.st[reg] && text != "" && ComposeSt(f, text) == None
  }

  lemma InOrderAppend(a: seq<SeedError>, b: seq<SeedError>, middle: int)
    requires InReportOrder(a) && InReportOrder(b)
    requires forall e :: e in a ==> ReportRank(e) <= middle
    requires forall e :: e in b ==> middle <= ReportRank(e)
    ensures InReportOrder(a + b)
  {
    forall i, j | 0 <= i < j < |a + b| ensures ReportRank((a + b)[i]) <= ReportRank((a + b)[j]) {
      if i < |a| <= j { assert (a + b)[i] in a && (a + b)[j] in b; }
    }
  }

  lemma SliceErrorOf(text: string, reg: nat, e: SeedError)
    ensures e in SliceError(text, reg) <==> e == BadGpr(reg, text) && text != "" && ParseSeed(text) == None
  {
    hide ParseSeed;
  }

  lemma SliceErrorsOf(seed: GprSeed, reg: nat, e: SeedError)
    ensures e in GprErrors(seed, reg) <==>
      e.BadGpr? && e.reg == reg && e.text != "" && ParseSeed(e.text) == None
      && (e.text == seed.full || e.text == seed.dword || e.text == seed.word || e.text == seed.byteHigh
          || e.text == seed.byteLow)
  {
    hide ParseSeed, SliceError;
    SliceErrorOf(seed.full, reg, e);
    SliceErrorOf(seed.dword, reg, e);
    SliceErrorOf(seed.word, reg, e);
    SliceErrorOf(seed.byteHigh, reg, e);
    SliceErrorOf(seed.byteLow, reg, e);
  }

  lemma OneRegisterInOrder(seed: GprSeed, reg: nat)
    ensures InReportOrder(GprErrors(seed, reg)) && forall x :: x in GprErrors(seed, reg) ==> ReportRank(x) == 2 + reg
  {
    hide GprErrors, ParseSeed;
    forall x | x in GprErrors(seed, reg) ensures ReportRank(x) == 2 + reg {
      SliceErrorsOf(seed, reg, x);
    }
  }

  lemma {:induction false} GprReport(f: Floats, fields: SeedFields, n: nat, e: SeedError)
    requires n <= GPR_COUNT
    ensures InReportOrder(GprErrorsTo(fields.gpr, n))
    ensures forall x :: x in GprErrorsTo(fields.gpr, n) ==> 2 <= ReportRank(x) < 2 + n
    ensures e in GprErrorsTo(fields.gpr, n) <==> e.BadGpr? && e.reg < n && IsMistake(f, fields, e)
  {
    hide GprErrors, ParseSeed;
    if n > 0 {
      GprReport(f, fields, n - 1, e);
      SliceErrorsOf(fields.gpr[n - 1], n - 1, e);
      OneRegisterInOrder(fields.gpr[n - 1], n - 1);
      InOrderAppend(GprErrorsTo(fields.gpr, n - 1), GprErrors(fields.gpr[n - 1], n - 1), 2 + (n - 1));
    }
  }

  lemma {:induction false} XmmReport(f: Floats, fields: SeedFields, n: nat, e: SeedError)
    requires n <= 16
    ensures InReportOrder(XmmErrorsTo(f, fields.xmm, n))
    ensures forall x :: x in XmmErrorsTo(f, fields.xmm, n) ==> 18 <= ReportRank(x) < 18 + n
    ensures e in XmmErrorsTo(f, fields.xmm, n) <==> e.BadXmm? && e.reg < n && IsMistake(f, fields, e)
  {
    hide ComposeXmm;
    if n > 0 {
      XmmReport(f, fields, n - 1, e);
      var text := fields.xmm[n - 1];
      InOrderAppend(XmmErrorsTo(f, fields.xmm, n - 1), if ComposeXmm(f, text) == None then [BadXmm(n - 1, text)] else [],
        18 + (n - 1));
    }
  }

  lemma {:induction false} StReport(f: Floats, fields: SeedFields, n: nat, e: SeedError)
    requires n <= 8
    ensures InReportOrder(StErrorsTo(f, fields.st, n))
    ensures forall x :: x in StErrorsTo(f, fields.st, n) ==> 34 <= ReportRank(x) < 34 + n
    ensures e in StErrorsTo(f, fields.st, n) <==> e.BadSt? && e.reg < n && IsMistake(f, fields, e)
  {
    hide SeedText.ComposeSt;
    if n > 0 {
      StReport(f, fields, n - 1, e);
      var text := fields.st[n - 1];
      InOrderAppend(StErrorsTo(f, fields.st, n - 1), if BadStText(f, text) then [BadSt(n - 1, text)] else [], 34 + (n - 1));
    }
  }

  /** Exactly the texts that are there and cannot be read are reported, by register, in the order of the fields. */
  lemma ErrorsAreMistakes(f: Floats, fields: SeedFields, e: SeedError)
    ensures e in ErrorsOf(f, fields) <==> IsMistake(f, fields, e)
    ensures InReportOrder(ErrorsOf(f, fields))
  {
    hide GprErrorsTo, XmmErrorsTo, StErrorsTo, ParseMxcsr, ParseControlWord, ParseSeed, ComposeXmm, SeedText.ComposeSt,
      InReportOrder;
    GprReport(f, fields, GPR_COUNT, e);
    XmmReport(f, fields, 16, e);
    StReport(f, fields, 8, e);
    EnvironmentReport(fields);
    var environment := BadMxcsrOf(fields.mxcsr) + BadControlWordOf(fields.controlWord);
    var gprs := environment + GprErrorsTo(fields.gpr, GPR_COUNT);
    var xmms := gprs + XmmErrorsTo(f, fields.xmm, 16);
    InOrderAppend(environment, GprErrorsTo(fields.gpr, GPR_COUNT), 2);
    InOrderAppend(gprs, XmmErrorsTo(f, fields.xmm, 16), 18);
    InOrderAppend(xmms, StErrorsTo(f, fields.st, 8), 34);
  }

  lemma EnvironmentReport(fields: SeedFields)
    ensures var environment := BadMxcsrOf(fields.mxcsr) + BadControlWordOf(fields.controlWord);
      InReportOrder(environment) && forall x :: x in environment ==> ReportRank(x) <= 1
  {
    hide ParseMxcsr, ParseControlWord;
  }

  /** Within one register the malformed slices are reported widest first. */
  lemma SlicesWidestFirst(seed: GprSeed, reg: nat)
    requires Malformed(seed.full) && Malformed(seed.dword) && Malformed(seed.word) && Malformed(seed.byteHigh)
    requires Malformed(seed.byteLow)
    ensures GprErrors(seed, reg) == [BadGpr(reg, seed.full), BadGpr(reg, seed.dword), BadGpr(reg, seed.word),
                                     BadGpr(reg, seed.byteHigh), BadGpr(reg, seed.byteLow)]
  {
    hide Malformed;
  }

  // ---------------------------------------------------------------- fields without errors

  predicate GoodGprs(gpr: GprSeeds) {
    forall i :: 0 <= i < GPR_COUNT ==> WellFormedGpr(gpr[i])
  }

  predicate GoodXmms(f: Floats, xmm: XmmTexts) {
    forall i :: 0 <= i < 16 ==> ComposeXmm(f, xmm[i]).Some?
  }

  predicate GoodSts(f: Floats, st: StTexts) {
    forall i :: 0 <= i < 8 ==> !BadStText(f, st[i])
  }

  /** Every field is empty or well-formed. */
  predicate GoodFields(f: Floats, fields: SeedFields) {
    && (fields.mxcsr == "" || ParseMxcsr(fields.mxcsr).Some?)
    && (fields.controlWord == "" || ParseControlWord(fields.controlWord).Some?)
    && GoodGprs(fields.gpr) && GoodXmms(f, fields.xmm) && GoodSts(f, fields.st)
  }

  lemma {:induction false} NoGprErrors(gpr: GprSeeds, n: nat)
    requires n <= GPR_COUNT
    ensures GprErrorsTo(gpr, n) == [] <==> forall i :: 0 <= i < n ==> WellFormedGpr(gpr[i])
  {
    hide GprErrors, WellFormedGpr;
    if n > 0 {
      NoGprErrors(gpr, n - 1);
      ErrorsCountMalformed(gpr[n - 1], n - 1);
    }
  }

  lemma {:induction false} NoXmmErrors(f: Floats, xmm: XmmTexts, n: nat)
    requires n <= 16
    ensures XmmErrorsTo(f, xmm, n) == [] <==> forall i :: 0 <= i < n ==> ComposeXmm(f, xmm[i]).Some?
  {
    hide ComposeXmm;
    if n > 0 { NoXmmErrors(f, xmm, n - 1); }
  }

  lemma {:induction false} NoStErrors(f: Floats, st: StTexts, n: nat)
    requires n <= 8
    ensures StErrorsTo(f, st, n) == [] <==> forall i :: 0 <= i < n ==> !BadStText(f, st[i])
  {
    hide BadStText;
    if n > 0 { NoStErrors(f, st, n - 1); }
  }

  /** Composition reports no error exactly when every field is empty or well-formed. */
  lemma NoErrorsIffGood(f: Floats, fields: SeedFields)
    ensures ErrorsOf(f, fields) == [] <==> GoodFields(f, fields)
  {
    hide GprErrorsTo, XmmErrorsTo, StErrorsTo, WellFormedGpr, ComposeXmm, BadStText, ParseMxcsr, ParseControlWord;
    NoGprErrors(fields.gpr, GPR_COUNT);
    NoXmmErrors(f, fields.xmm, 16);
    NoStErrors(f, fields.st, 8);
  }
}
