/** The `--seed` argument: comma-separated assignments to register slices, vector and x87 registers, and flags. */
module CliSeed {
  import opened Common
  import opened MachineState
  import opened Hex
  import opened SeedText
  import opened ComposeSeed

  const REG_NAMES: seq<string> :=
    ["RAX", "RBX", "RCX", "RDX", "RSI", "RDI", "RBP", "RSP", "R8", "R9", "R10", "R11", "R12", "R13", "R14", "R15"]
  const GPR_NAMES_32: seq<string> :=
    ["EAX", "EBX", "ECX", "EDX", "ESI", "EDI", "EBP", "ESP", "R8D", "R9D", "R10D", "R11D", "R12D", "R13D", "R14D", "R15D"]
  const GPR_NAMES_16: seq<string> :=
    ["AX", "BX", "CX", "DX", "SI", "DI", "BP", "SP", "R8W", "R9W", "R10W", "R11W", "R12W", "R13W", "R14W", "R15W"]
  const GPR_NAMES_8L: seq<string> :=
    ["AL", "BL", "CL", "DL", "SIL", "DIL", "BPL", "SPL", "R8B", "R9B", "R10B", "R11B", "R12B", "R13B", "R14B", "R15B"]
  const GPR_NAMES_8H: seq<string> := ["AH", "BH", "CH", "DH"]
  const FLAG_NAMES: seq<string> := ["OF", "DF", "SF", "ZF", "AF", "PF", "CF"]
  const FLAG_BITS: seq<bv64> := [0x800, 0x400, 0x80, 0x40, 0x10, 0x4, 0x1]

  function Lower(c: char): char {
    if 'A' <= c <= 'Z' then c - 'A' + 'a' else c
  }

  predicate SameName(a: string, b: string) {
    |a| == |b| && forall i :: 0 <= i < |a| ==> Lower(a[i]) == Lower(b[i])
  }

  datatype Width = Full | Dword | Word | ByteLow | ByteHigh

  datatype Slot =
    | Mxcsr
    | ControlWord
    | XmmSlot(index: nat)
    | StSlot(index: nat)
    | GprSlot(reg: nat, width: Width)
    | FlagSlot(index: nat)
    | Unknown

  predicate AllDecimal(s: string) {
    forall c :: c in s ==> IsDecDigit(c)
  }

  function DecimalValue(s: string): nat
    requires AllDecimal(s)
  {
    if s == "" then 0
    else
      assert s[|s| - 1] in s;
      DecimalValue(s[..|s| - 1]) * 10 + (s[|s| - 1] - '0') as nat
  }

  function DecimalIndex(s: string, limit: nat): (r: Option<nat>)
    ensures r.Some? ==> r.value < limit
  {
    if s != "" && AllDecimal(s) && DecimalValue(s) < limit then Some(DecimalValue(s)) else None
  }

  function XmmIndex(name: string): (r: Option<nat>)
    ensures r.Some? ==> r.value < 16
  {
    if |name| < 4 || !SameName(name[..3], "xmm") then None else DecimalIndex(name[3..], 16)
  }

  function StIndex(name: string): (r: Option<nat>)
    ensures r.Some? ==> r.value < 8
  {
    if |name| != 3 || !SameName(name[..2], "st") then None else DecimalIndex(name[2..], 8)
  }

  /** Which slice of register `reg` a name stands for. Only the first four registers have a high byte. */
  function WidthOf(name: string, reg: nat): Option<Width>
    requires reg < GPR_COUNT
  {
    if SameName(name, REG_NAMES[reg]) then Some(Full)
    else if SameName(name, GPR_NAMES_32[reg]) then Some(Dword)
    else if SameName(name, GPR_NAMES_16[reg]) then Some(Word)
    else if SameName(name, GPR_NAMES_8L[reg]) then Some(ByteLow)
    else if reg < |GPR_NAMES_8H| && SameName(name, GPR_NAMES_8H[reg]) then Some(ByteHigh)
    else None
  }

  function FindGpr(name: string, reg: nat): (slot: Option<Slot>)
    requires reg <= GPR_COUNT
    ensures slot.Some? ==> slot.value.GprSlot? && slot.value.reg < GPR_COUNT
    decreases GPR_COUNT - reg
  {
    if reg == GPR_COUNT then None
    else if WidthOf(name, reg).Some? then Some(GprSlot(reg, WidthOf(name, reg).value))
    else FindGpr(name, reg + 1)
  }

  function FindFlag(name: string, index: nat): (slot: Option<Slot>)
    requires index <= |FLAG_NAMES|
    ensures slot.Some? ==> slot.value.FlagSlot? && slot.value.index < |FLAG_BITS|
    decreases |FLAG_NAMES| - index
  {
    if index == |FLAG_NAMES| then None
    else if SameName(name, FLAG_NAMES[index]) then Some(FlagSlot(index))
    else FindFlag(name, index + 1)
  }

  predicate ValidSlot(slot: Slot) {
    match slot
    case XmmSlot(i) => i < 16
    case StSlot(i) => i < 8
    case GprSlot(reg, _) => reg < GPR_COUNT
    case FlagSlot(i) => i < |FLAG_BITS|
    case _ => true
  }

  /** What a name assigns to. */
  function SlotOf(name: string): (slot: Slot)
    ensures ValidSlot(slot)
  {
    if SameName(name, "mxcsr") then Mxcsr
    else if SameName(name, "control_word") then ControlWord
    else if XmmIndex(name).Some? then XmmSlot(XmmIndex(name).value)
    else if StIndex(name).Some? then StSlot(StIndex(name).value)
    else if FindGpr(name, 0).Some? then FindGpr(name, 0).value
    else if FindFlag(name, 0).Some? then FindFlag(name, 0).value
    else Unknown
  }

  /** Whether a non-empty value is acceptable for what it is assigned to. */
  predicate GoodValue(f: Floats, slot: Slot, value: string) {
    match slot
    case Mxcsr => ParseMxcsr(value).Some?
    case ControlWord => ParseControlWord(value).Some?
    case XmmSlot(_) => ComposeXmm(f, value).Some?
    case StSlot(_) => ComposeSt(f, value).Some?
    case GprSlot(reg, _) => reg != RSP && ParseSeed(value).Some?
    case FlagSlot(_) => ParseSeed(value).Some?
    case Unknown => false
  }

  function SetSlice(seed: GprSeed, width: Width, value: string): GprSeed {
    match width
    case Full => seed.(full := value)
    case Dword => seed.(dword := value)
    case Word => seed.(word := value)
    case ByteHigh => seed.(byteHigh := value)
    case ByteLow => seed.(byteLow := value)
  }

  function GetSlice(seed: GprSeed, width: Width): string {
    match width
    case Full => seed.full
    case Dword => seed.dword
    case Word => seed.word
    case ByteHigh => seed.byteHigh
    case ByteLow => seed.byteLow
  }

  function SetFlag(flags: bv64, bit: bv64, value: u64): bv64 {
    if value != 0 then flags | bit else flags & !bit
  }

  /** The fields after an acceptable assignment. */
  function Store(fields: SeedFields, slot: Slot, value: string): SeedFields
    requires ValidSlot(slot)
  {
    match slot
    case Mxcsr => fields.(mxcsr := value)
    case ControlWord => fields.(controlWord := value)
    case XmmSlot(i) => fields.(xmm := fields.xmm[i := value])
    case StSlot(i) => fields.(st := fields.st[i := value])
    case GprSlot(reg, width) => fields.(gpr := fields.gpr[reg := SetSlice(fields.gpr[reg], width, value)])
    case FlagSlot(i) =>
      if ParseSeed(value).Some? then fields.(flags := SetFlag(fields.flags, FLAG_BITS[i],
        ParseSeed(value).value)) else fields
    case Unknown => fields
  }

  /** The first position of a character, or the length of the text. */
  function Find(s: string, c: char): (n: nat)
    ensures n <= |s| && (n < |s| ==> s[n] == c) && forall i :: 0 <= i < n ==> s[i] != c
  {
    if s == "" || s[0] == c then 0 else 1 + Find(s[1..], c)
  }

  datatype CliError =
    | MissingEquals(entry: string)
    | EmptyValue(entry: string)
    | BadValue(slot: Slot, value: string)
    | EngineControlled
    | UnknownName(name: string)

  function NameOf(entry: string): string {
    entry[..Find(entry, '=')]
  }

  function ValueOf(entry: string): string {
    if Find(entry, '=') < |entry| then entry[Find(entry, '=') + 1..] else ""
  }

  /** One entry. Empty entries are skipped. */
  function Assign(f: Floats, fields: SeedFields, entry: string): Result<SeedFields, CliError> {
    if entry == "" then Ok(fields)
    else if Find(entry, '=') == |entry| then Err(MissingEquals(entry))
    else if ValueOf(entry) == "" then Err(EmptyValue(entry))
    else
      var slot, value := SlotOf(NameOf(entry)), ValueOf(entry);
      if GoodValue(f, slot, value) then Ok(Store(fields, slot, value))
      else if slot == Unknown then Err(UnknownName(NameOf(entry)))
      else if slot.GprSlot? && slot.reg == RSP then Err(EngineControlled)
      else Err(BadValue(slot, value))
  }

  function AssignAll(f: Floats, fields: SeedFields, entries: seq<string>): Result<SeedFields, CliError>
    decreases |entries|
  {
    if entries == [] then Ok(fields)
    else
      match Assign(f, fields, entries[0])
      case Err(e) => Err(e)
      case Ok(next) => AssignAll(f, next, entries[1..])
  }

  /** The parts between commas. */
  function Split(text: string): (parts: seq<string>)
    ensures |parts| > 0
    decreases |text|
  {
    var n := Find(text, ',');
    if n == |text| then [text] else [text[..n]] + Split(text[n + 1..])
  }

  const NO_FIELDS: SeedFields :=
    SeedFields(
      [NO_GPR, NO_GPR, NO_GPR, NO_GPR, NO_GPR, NO_GPR, NO_GPR, NO_GPR, NO_GPR, NO_GPR, NO_GPR, NO_GPR, NO_GPR,
        NO_GPR, NO_GPR, NO_GPR],
      0,
      ["", "", "", "", "", "", "", "", "", "", "", "", "", "", "", ""],
      ["", "", "", "", "", "", "", ""], "", "")

  function ParseArgument(f: Floats, text: string): Result<SeedFields, CliError> {
    AssignAll(f, NO_FIELDS, Split(text))
  }

  // ---------------------------------------------------------------- the names of the register slices

  /** Every register has a full name and three narrower ones; only the first four have a name for the high byte. */
  predicate HasName(reg: nat, width: Width) {
    reg < GPR_COUNT && (width == ByteHigh ==> reg < |GPR_NAMES_8H|)
  }

  function NameFor(reg: nat, width: Width): string
    requires HasName(reg, width)
  {
    match width
    case Full => REG_NAMES[reg]
    case Dword => GPR_NAMES_32[reg]
    case Word => GPR_NAMES_16[reg]
    case ByteLow => GPR_NAMES_8L[reg]
    case ByteHigh => GPR_NAMES_8H[reg]
  }

  /** The lower-case character at a position, or a blank behind the end. */
  function At(s: string, k: int): char {
    if 0 <= k < |s| then Lower(s[k]) else ' '
  }

  /** The width that a slice name stands for, read off its first and last character. */
  function WidthIn(name: string): Width {
    var last := At(name, |name| - 1);
    if last == 'h' then ByteHigh
    else if last == 'l' || last == 'b' then ByteLow
    else if last == 'w' then Word
    else if last == 'd' || At(name, 0) == 'e' then Dword
    else if At(name, 0) == 'r' then Full
    else Word
  }

  /** The register that a slice name stands for, read off its digits or its pair of letters. */
  function RegisterIn(name: string): int {
    if IsDecDigit(At(name, 1)) then
      if IsDecDigit(At(name, 2)) then 10 * (At(name, 1) as int - '0' as int) + At(name, 2) as int - '0' as int
      else At(name, 1) as int - '0' as int
    else
      var i := if WidthIn(name) == Full || WidthIn(name) == Dword then 1 else 0;
      var p, q := At(name, i), At(name, i + 1);
      if q == 'p' then if p == 'b' then RBP else RSP
      else if q == 'i' then if p == 's' then RSI else RDI
      else if p == 'a' then RAX else if p == 'b' then RBX else if p == 'c' then RCX else RDX
  }

  lemma FullWidths(reg: nat)
    requires reg < GPR_COUNT
    ensures WidthIn(REG_NAMES[reg]) == Full
  {
  }

  lemma FullRegisters(reg: nat)
    requires reg < GPR_COUNT
    ensures RegisterIn(REG_NAMES[reg]) == reg
  {
    hide WidthIn;
    FullWidths(reg);
  }

  lemma DwordWidths(reg: nat)
    requires reg < GPR_COUNT
    ensures WidthIn(GPR_NAMES_32[reg]) == Dword
  {
  }

  lemma DwordRegisters(reg: nat)
    requires reg < GPR_COUNT
    ensures RegisterIn(GPR_NAMES_32[reg]) == reg
  {
    hide WidthIn;
    DwordWidths(reg);
  }

  lemma WordWidths(reg: nat)
    requires reg < GPR_COUNT
    ensures WidthIn(GPR_NAMES_16[reg]) == Word
  {
  }

  lemma WordRegisters(reg: nat)
    requires reg < GPR_COUNT
    ensures RegisterIn(GPR_NAMES_16[reg]) == reg
  {
    hide WidthIn;
    WordWidths(reg);
  }

  lemma ByteLowWidths(reg: nat)
    requires reg < GPR_COUNT
    ensures WidthIn(GPR_NAMES_8L[reg]) == ByteLow
  {
  }

  lemma ByteLowRegisters(reg: nat)
    requires reg < GPR_COUNT
    ensures RegisterIn(GPR_NAMES_8L[reg]) == reg
  {
    hide WidthIn;
    ByteLowWidths(reg);
  }

  lemma ByteHighWidths(reg: nat)
    requires reg < |GPR_NAMES_8H|
    ensures WidthIn(GPR_NAMES_8H[reg]) == ByteHigh
  {
  }

  lemma ByteHighRegisters(reg: nat)
    requires reg < |GPR_NAMES_8H|
    ensures RegisterIn(GPR_NAMES_8H[reg]) == reg
  {
    hide WidthIn;
    ByteHighWidths(reg);
  }

  /** Names that differ only in case read alike. */
  lemma ReadAlike(a: string, b: string)
    requires SameName(a, b)
    ensures WidthIn(a) == WidthIn(b) && RegisterIn(a) == RegisterIn(b)
  {
    assert forall k: int :: At(a, k) == At(b, k);
  }

  /** A name determines its register and its width: no name stands for two slices. */
  lemma NameDetermines(name: string, reg: nat, width: Width)
    requires HasName(reg, width) && SameName(name, NameFor(reg, width))
    ensures WidthIn(name) == width && RegisterIn(name) == reg
  {
    hide WidthIn, RegisterIn, SameName;
    ReadAlike(name, NameFor(reg, width));
    match width
    case Full => FullWidths(reg); FullRegisters(reg);
    case Dword => DwordWidths(reg); DwordRegisters(reg);
    case Word => WordWidths(reg); WordRegisters(reg);
    case ByteLow => ByteLowWidths(reg); ByteLowRegisters(reg);
    case ByteHigh => ByteHighWidths(reg); ByteHighRegisters(reg);
  }

  lemma WidthOfIff(name: string, reg: nat, width: Width)
    requires reg < GPR_COUNT
    ensures WidthOf(name, reg) == Some(width) <==> HasName(reg, width) && SameName(name, NameFor(reg, width))
  {
    hide WidthIn, RegisterIn, SameName;
    if SameName(name, REG_NAMES[reg]) { NameDetermines(name, reg, Full); }
    if SameName(name, GPR_NAMES_32[reg]) { NameDetermines(name, reg, Dword); }
    if SameName(name, GPR_NAMES_16[reg]) { NameDetermines(name, reg, Word); }
    if SameName(name, GPR_NAMES_8L[reg]) { NameDetermines(name, reg, ByteLow); }
    if HasName(reg, width) && SameName(name, NameFor(reg, width)) { NameDetermines(name, reg, width); }
  }

  /** The lookup finds a slice if and only if the name is that slice's name, in any case. */
  lemma {:induction false} FindGprIff(name: string, from: nat, reg: nat, width: Width)
    requires from <= reg < GPR_COUNT
    ensures FindGpr(name, from) == Some(GprSlot(reg, width)) <==> HasName(reg, width) && SameName(name, NameFor(reg, width))
    decreases reg - from
  {
    hide WidthOf, SameName, NameFor, WidthIn, RegisterIn;
    WidthOfIff(name, from, width);
    if from < reg {
      FindGprIff(name, from + 1, reg, width);
    } else {
      FindsLater(name, from + 1);
    }
    if WidthOf(name, from).Some? {
      WidthOfIff(name, from, WidthOf(name, from).value);
      NameDetermines(name, from, WidthOf(name, from).value);
      if HasName(reg, width) && SameName(name, NameFor(reg, width)) {
        NameDetermines(name, reg, width);
      }
    }
  }

  lemma {:induction false} FindsLater(name: string, from: nat)
    requires from <= GPR_COUNT
    ensures FindGpr(name, from).Some? ==> FindGpr(name, from).value.reg >= from
    decreases GPR_COUNT - from
  {
    hide WidthOf;
    if from < GPR_COUNT { FindsLater(name, from + 1); }
  }

  /** The four names of the stack pointer. */
  predicate NamesStackPointer(name: string) {
    SameName(name, "RSP") || SameName(name, "ESP") || SameName(name, "SP") || SameName(name, "SPL")
  }

  lemma StackPointerNames(name: string)
    ensures NamesStackPointer(name) <==> exists width :: HasName(RSP, width) && SameName(name, NameFor(RSP, width))
  {
    hide SameName;
    assert NameFor(RSP, Full) == "RSP" && NameFor(RSP, Dword) == "ESP";
    assert NameFor(RSP, Word) == "SP" && NameFor(RSP, ByteLow) == "SPL";
  }

  /** The lookup stops at the stack pointer if and only if the name is one of its four. */
  lemma StackPointerIff(name: string)
    ensures FindGpr(name, 0).Some? && FindGpr(name, 0).value.reg == RSP <==> NamesStackPointer(name)
  {
    hide SameName, NameFor, FindGpr, NamesStackPointer;
    StackPointerNames(name);
    forall width: Width
      ensures FindGpr(name, 0) == Some(GprSlot(RSP, width)) <==> HasName(RSP, width) && SameName(name, NameFor(RSP, width))
    {
      FindGprIff(name, 0, RSP, width);
    }
    if FindGpr(name, 0).Some? && FindGpr(name, 0).value.reg == RSP {
      assert FindGpr(name, 0) == Some(GprSlot(RSP, FindGpr(name, 0).value.width));
    }
  }

  // ---------------------------------------------------------------- the loops

  /** What the lookup finds, in terms of the tables of names. */
  lemma LookUpMeaning(name: string)
    ensures FindGpr(name, 0).Some? && FindGpr(name, 0).value.reg == RSP <==> NamesStackPointer(name)
    ensures forall reg: nat, width ::
      FindGpr(name, 0) == Some(GprSlot(reg, width)) <==> HasName(reg, width) && SameName(name, NameFor(reg, width))
  {
    hide SameName, NameFor, FindGpr, NamesStackPointer;
    StackPointerIff(name);
    forall reg: nat, width
      ensures FindGpr(name, 0) == Some(GprSlot(reg, width)) <==> HasName(reg, width) && SameName(name, NameFor(reg, width))
    {
      if reg < GPR_COUNT { FindGprIff(name, 0, reg, width); }
    }
  }

  /** Looks a name up register by register, slice by slice. The lookup stops at the stack pointer with an error. */
  method LookUpGpr(name: string) returns (slot: Option<Slot>, forbidden: bool)
    ensures slot == FindGpr(name, 0)
    ensures forbidden == NamesStackPointer(name) == (slot.Some? && slot.value.reg == RSP)
    ensures forall reg: nat, width ::
      slot == Some(GprSlot(reg, width)) <==> HasName(reg, width) && SameName(name, NameFor(reg, width))
  {
    hide SameName, NameFor, HasName, NamesStackPointer;
    LookUpMeaning(name);
    slot, forbidden := None, false;
    var reg := 0;
    while reg < GPR_COUNT && slot == None
      invariant 0 <= reg <= GPR_COUNT
      invariant slot == None ==> FindGpr(name, 0) == FindGpr(name, reg)
      invariant slot.Some? ==> slot == FindGpr(name, 0)
      invariant forbidden == (slot.Some? && slot.value.GprSlot? && slot.value.reg == RSP)
    {
      if SameName(name, REG_NAMES[reg]) {
        slot := Some(GprSlot(reg, Full));
      } else if SameName(name, GPR_NAMES_32[reg]) {
        slot := Some(GprSlot(reg, Dword));
      } else if SameName(name, GPR_NAMES_16[reg]) {
        slot := Some(GprSlot(reg, Word));
      } else if SameName(name, GPR_NAMES_8L[reg]) {
        slot := Some(GprSlot(reg, ByteLow));
      } else if reg < |GPR_NAMES_8H| && SameName(name, GPR_NAMES_8H[reg]) {
        slot := Some(GprSlot(reg, ByteHigh));
      }
      if slot.Some? && reg == RSP {
        forbidden := true;
        return;
      }
      reg := reg + 1;
    }
  }

  method LookUpFlag(name: string) returns (slot: Option<Slot>)
    ensures slot == FindFlag(name, 0)
  {
    hide SameName;
    slot := None;
    var index := 0;
    while index < |FLAG_NAMES|
      invariant 0 <= index <= |FLAG_NAMES| && slot == None
      invariant FindFlag(name, 0) == FindFlag(name, index)
    {
      if SameName(name, FLAG_NAMES[index]) {
        return Some(FlagSlot(index));
      }
      index := index + 1;
    }
  }

  method AssignEntry(f: Floats, fields: SeedFields, entry: string) returns (result: Result<SeedFields, CliError>)
    ensures result == Assign(f, fields, entry)
  {
    hide SameName, FindGpr, FindFlag, XmmIndex, StIndex, ComposeXmm, ComposeSt, ParseSeed, ParseMxcsr, ParseControlWord;
    if entry == "" {
      return Ok(fields);
    }
    var equals := Find(entry, '=');
    if equals == |entry| {
      return Err(MissingEquals(entry));
    }
    var name, value := entry[..equals], entry[equals + 1..];
    if value == "" {
      return Err(EmptyValue(entry));
    }
    if SameName(name, "mxcsr") {
      return if ParseMxcsr(value).Some? then Ok(fields.(mxcsr := value)) else Err(BadValue(Mxcsr, value));
    }
    if SameName(name, "control_word") {
      return if ParseControlWord(value).Some? then Ok(fields.(controlWord := value)) else Err(BadValue(ControlWord, value));
    }
    var xmm := XmmIndex(name);
    if xmm.Some? {
      return if ComposeXmm(f, value).Some? then Ok(fields.(xmm := fields.xmm[xmm.value := value]))
        else Err(BadValue(XmmSlot(xmm.value), value));
    }
    var st := StIndex(name);
    if st.Some? {
      return if ComposeSt(f, value).Some? then Ok(fields.(st := fields.st[st.value := value]))
        else Err(BadValue(StSlot(st.value), value));
    }
    var slot, forbidden := LookUpGpr(name);
    if forbidden {
      return Err(EngineControlled);
    }
    if slot.Some? {
      return if ParseSeed(value).Some? then Ok(Store(fields, slot.value, value)) else Err(BadValue(slot.value, value));
    }
    slot := LookUpFlag(name);
    if slot == None {
      return Err(UnknownName(name));
    }
    var bits := ParseSeed(value);
    if bits == None {
      return Err(BadValue(slot.value, value));
    }
    return Ok(fields.(flags := SetFlag(fields.flags, FLAG_BITS[slot.value.index], bits.value)));
  }

  /** The argument parser agrees with the specification, its errors included. */
  method ParseSeedArgument(f: Floats, text: string) returns (result: Result<SeedFields, CliError>)
    ensures result == ParseArgument(f, text)
  {
    hide Assign;
    var fields := NO_FIELDS;
    var rest := text;
    var more := true;
    while more
      invariant more ==> ParseArgument(f, text) == AssignAll(f, fields, Split(rest))
      invariant !more ==> ParseArgument(f, text) == Ok(fields)
      decreases if more then 1 + |rest| else 0
    {
      var comma := Find(rest, ',');
      var next := AssignEntry(f, fields, rest[..comma]);
      assert Split(rest)[0] == rest[..comma];
      if next.Err? {
        return Err(next.error);
      }
      fields := next.value;
      if comma == |rest| {
        assert Split(rest)[1..] == [];
        more := false;
      } else {
        assert Split(rest)[1..] == Split(rest[comma + 1..]);
        rest := rest[comma + 1..];
      }
    }
    return Ok(fields);
  }
}

/** Strict parsing makes composition infallible, and the last assignment to a field wins. */
module CliSeedProofs {
  import opened Common
  import opened MachineState
  import opened SeedText
  import opened ComposeSeed
  import opened CliSeed

  predicate EmptyGpr(seed: GprSeed) {
    seed == NO_GPR
  }

  /** Every field would compose, the stack pointer is left alone, and only status flags are set. */
  predicate Strict(f: Floats, fields: SeedFields) {
    GoodFields(f, fields) && EmptyGpr(fields.gpr[RSP]) && fields.flags & !RFLAGS_STATUS_MASK == 0
  }

  lemma FlagsStayInMask(flags: bv64, i: nat, value: u64)
    requires flags & !RFLAGS_STATUS_MASK == 0 && i < |FLAG_BITS|
    ensures SetFlag(flags, FLAG_BITS[i], value) & !RFLAGS_STATUS_MASK == 0
  {
    BitsInMask(flags, FLAG_BITS[i]);
  }

  lemma BitsInMask(flags: bv64, bit: bv64)
    requires flags & !0x0CD5 == 0
    requires bit == 0x800 || bit == 0x400 || bit == 0x80 || bit == 0x40 || bit == 0x10 || bit == 0x4 || bit == 0x1
    ensures (flags | bit) & !0x0CD5 == 0 && (flags & !bit) & !0x0CD5 == 0
  {
  }

  lemma StoreKeepsStrict(f: Floats, fields: SeedFields, slot: Slot, value: string)
    requires Strict(f, fields) && ValidSlot(slot) && value != "" && GoodValue(f, slot, value)
    ensures Strict(f, Store(fields, slot, value))
  {
    hide ComposeXmm, ComposeSt, ParseSeed, ParseMxcsr, ParseControlWord, SetFlag;
    if slot.FlagSlot? {
      FlagsStayInMask(fields.flags, slot.index, ParseSeed(value).value);
    }
  }

  lemma {:induction false} AssignAllKeepsStrict(f: Floats, fields: SeedFields, entries: seq<string>)
    requires Strict(f, fields) && AssignAll(f, fields, entries).Ok?
    ensures Strict(f, AssignAll(f, fields, entries).value)
    decreases |entries|
  {
    hide Strict, SlotOf, GoodValue, Store;
    if entries != [] {
      var entry := entries[0];
      if entry != "" {
        StoreKeepsStrict(f, fields, SlotOf(NameOf(entry)), ValueOf(entry));
      }
      AssignAllKeepsStrict(f, Assign(f, fields, entry).value, entries[1..]);
    }
  }

  lemma NoFieldsStrict(f: Floats)
    ensures Strict(f, NO_FIELDS)
  {
    assert forall i :: 0 <= i < GPR_COUNT ==> NO_FIELDS.gpr[i] == NO_GPR;
    assert forall i :: 0 <= i < 16 ==> NO_FIELDS.xmm[i] == "";
    assert forall i :: 0 <= i < 8 ==> NO_FIELDS.st[i] == "";
  }

  /**
   * When the argument parses, composing the seed reports no error, the stack pointer stays zero,
   * and only the seven status flags can be set.
   */
  lemma StrictParsingComposes(f: Floats, text: string)
    requires ParseArgument(f, text).Ok?
    ensures var fields := ParseArgument(f, text).value;
      && ErrorsOf(f, fields) == []
      && fields.gpr[RSP] == NO_GPR && RegistersOf(f, fields).gpr[RSP] == 0
      && RegistersOf(f, fields).rflags & !RFLAGS_STATUS_MASK == 0
  {
    hide AssignAll, ErrorsOf, GoodFields, ComposeGpr;
    NoFieldsStrict(f);
    AssignAllKeepsStrict(f, NO_FIELDS, Split(text));
    NoErrorsIffGood(f, ParseArgument(f, text).value);
    EmptyGprIsZero();
  }

  lemma EmptyGprIsZero()
    ensures GprValue(NO_GPR) == 0
  {
    assert ComposeGpr(NO_GPR) == 0;
  }

  // ---------------------------------------------------------------- which texts are accepted

  /** An entry is acceptable on its own, whatever came before it. */
  predicate Acceptable(f: Floats, entry: string) {
    entry == "" || (Find(entry, '=') < |entry| && ValueOf(entry) != ""
      && GoodValue(f, SlotOf(NameOf(entry)), ValueOf(entry)))
  }

  /** The argument is accepted exactly when each of its entries is. */
  lemma {:induction false} AcceptedIffEntriesAre(f: Floats, fields: SeedFields, entries: seq<string>)
    ensures AssignAll(f, fields, entries).Ok? <==> forall e :: e in entries ==> Acceptable(f, e)
    decreases |entries|
  {
    hide SlotOf, GoodValue, Store;
    if entries != [] {
      assert entries == [entries[0]] + entries[1..];
      if Acceptable(f, entries[0]) {
        AcceptedIffEntriesAre(f, Assign(f, fields, entries[0]).value, entries[1..]);
      }
    }
  }

  /** The parts with commas between them. */
  function JoinParts(parts: seq<string>): string
    requires |parts| > 0
  {
    if |parts| == 1 then parts[0] else parts[0] + "," + JoinParts(parts[1..])
  }

  ghost predicate WithoutCommas(parts: seq<string>) {
    forall i :: 0 <= i < |parts| ==> ',' !in parts[i]
  }

  lemma {:induction false} SplitParts(text: string)
    ensures WithoutCommas(Split(text)) && JoinParts(Split(text)) == text
    decreases |text|
  {
    var n := Find(text, ',');
    if n < |text| {
      SplitParts(text[n + 1..]);
      assert Split(text)[1..] == Split(text[n + 1..]);
      assert text == text[..n] + "," + text[n + 1..];
    }
  }

  lemma {:induction false} FindAfter(part: string, rest: string, c: char)
    requires c !in part
    ensures Find(part, c) == |part| && Find(part + [c] + rest, c) == |part|
  {
    var text := part + [c] + rest;
    assert text[|part|] == c;
    assert forall i :: 0 <= i < |part| ==> text[i] == part[i];
  }

  lemma {:induction false} JoinedParts(parts: seq<string>)
    requires |parts| > 0 && WithoutCommas(parts)
    ensures Split(JoinParts(parts)) == parts
    decreases |parts|
  {
    hide Find;
    var text := JoinParts(parts);
    if |parts| == 1 {
      FindAfter(parts[0], "", ',');
    } else {
      var rest := JoinParts(parts[1..]);
      JoinedParts(parts[1..]);
      FindAfter(parts[0], rest, ',');
      assert text[..|parts[0]|] == parts[0] && text[|parts[0]| + 1..] == rest;
    }
  }

  /** Splitting gives the only list of parts without commas that joins to the text. */
  lemma SplitIff(text: string, parts: seq<string>)
    ensures parts == Split(text) <==> |parts| > 0 && WithoutCommas(parts) && JoinParts(parts) == text
  {
    SplitParts(text);
    if |parts| > 0 && WithoutCommas(parts) {
      JoinedParts(parts);
    }
  }

  /** The argument is accepted exactly when each of the parts between its commas is acceptable on its own. */
  lemma ArgumentAcceptedIff(f: Floats, text: string, parts: seq<string>)
    requires |parts| > 0 && WithoutCommas(parts) && JoinParts(parts) == text
    ensures ParseArgument(f, text).Ok? <==> forall e :: e in parts ==> Acceptable(f, e)
  {
    hide Acceptable, AssignAll, Split, JoinParts, WithoutCommas;
    SplitIff(text, parts);
    AcceptedIffEntriesAre(f, NO_FIELDS, Split(text));
  }

  /** The engine keeps the stack pointer: an otherwise complete entry is refused as such exactly under its four names. */
  lemma EngineControlledIff(f: Floats, fields: SeedFields, entry: string)
    ensures Assign(f, fields, entry) == Err(EngineControlled) <==>
      entry != "" && Find(entry, '=') < |entry| && ValueOf(entry) != "" && NamesStackPointer(NameOf(entry))
  {
    hide NamesStackPointer, SlotOf, NameOf, ValueOf, Find, Store, ParseSeed, ParseMxcsr, ParseControlWord, ComposeXmm,
      ComposeSt;
    SlotOfStackPointer(NameOf(entry));
  }

  lemma SlotOfStackPointer(name: string)
    ensures SlotOf(name).GprSlot? && SlotOf(name).reg == RSP <==> NamesStackPointer(name)
  {
    hide NamesStackPointer, FindGpr, FindFlag, XmmIndex, StIndex, SameName;
    StackPointerIff(name);
    if NamesStackPointer(name) { StackPointerOnly(name); }
  }

  lemma StackPointerOnly(name: string)
    requires NamesStackPointer(name)
    ensures !SameName(name, "mxcsr") && !SameName(name, "control_word") && XmmIndex(name) == None && StIndex(name) == None
  {
  }

  // ---------------------------------------------------------------- the last assignment wins

  predicate IsTextSlot(slot: Slot) {
    ValidSlot(slot) && !slot.FlagSlot? && slot != Unknown
  }

  function Read(fields: SeedFields, slot: Slot): string
    requires IsTextSlot(slot)
  {
    match slot
    case Mxcsr => fields.mxcsr
    case ControlWord => fields.controlWord
    case XmmSlot(i) => fields.xmm[i]
    case StSlot(i) => fields.st[i]
    case GprSlot(reg, width) => GetSlice(fields.gpr[reg], width)
  }

  lemma ReadStore(fields: SeedFields, stored: Slot, value: string, slot: Slot)
    requires ValidSlot(stored) && IsTextSlot(slot)
    ensures Read(Store(fields, stored, value), slot) == if stored == slot then value else Read(fields, slot)
  {
    hide ParseSeed, SetFlag;
  }

  /** The value of the last entry that names the slot, else the old text. */
  function LastValue(entries: seq<string>, slot: Slot, initial: string): string {
    if entries == [] then initial
    else
      var last := entries[|entries| - 1];
      if last != "" && SlotOf(NameOf(last)) == slot
        then ValueOf(last) else LastValue(entries[..|entries| - 1], slot, initial)
  }

  lemma {:induction false} AssignAllSnoc(f: Floats, fields: SeedFields, entries: seq<string>, last: string)
    requires AssignAll(f, fields, entries + [last]).Ok?
    ensures AssignAll(f, fields, entries).Ok?
    ensures Assign(f, AssignAll(f, fields, entries).value, last) == AssignAll(f, fields, entries + [last])
    decreases |entries|
  {
    hide Assign;
    if entries == [] {
      assert ([] + [last])[1..] == [];
    } else {
      assert (entries + [last])[1..] == entries[1..] + [last];
      AssignAllSnoc(f, Assign(f, fields, entries[0]).value, entries[1..], last);
    }
  }

  /** After a successful parse every text field holds the value of the last entry that named it. */
  lemma {:induction false} LastAssignmentWins(f: Floats, fields: SeedFields, entries: seq<string>, slot: Slot)
    requires IsTextSlot(slot) && AssignAll(f, fields, entries).Ok?
    ensures Read(AssignAll(f, fields, entries).value, slot) == LastValue(entries, slot, Read(fields, slot))
    decreases |entries|
  {
    hide SlotOf, GoodValue, Store, Read;
    if entries != [] {
      var front, last := entries[..|entries| - 1], entries[|entries| - 1];
      assert entries == front + [last];
      AssignAllSnoc(f, fields, front, last);
      LastAssignmentWins(f, fields, front, slot);
      if last != "" {
        ReadStore(AssignAll(f, fields, front).value, SlotOf(NameOf(last)), ValueOf(last), slot);
      }
    }
  }

  /** Whether the last entry that names the flag has a nonzero value, else the old state of the flag. */
  function LastFlag(entries: seq<string>, i: nat, initial: bool): bool {
    if entries == [] then initial
    else
      var last := entries[|entries| - 1];
      if last != "" && SlotOf(NameOf(last)) == FlagSlot(i) then ParseSeed(ValueOf(last)) != Some(0)
      else LastFlag(entries[..|entries| - 1], i, initial)
  }

  predicate FlagSet(flags: bv64, i: nat)
    requires i < |FLAG_BITS|
  {
    HasBit(flags, FLAG_BITS[i])
  }

  predicate HasBit(flags: bv64, bit: bv64) {
    flags & bit != 0
  }

  lemma FlagUpdate(flags: bv64, i: nat, j: nat, value: u64)
    requires i < |FLAG_BITS| && j < |FLAG_BITS|
    ensures FlagSet(SetFlag(flags, FLAG_BITS[j], value), i) == if i == j then value != 0 else FlagSet(flags, i)
  {
    hide SetFlag, HasBit;
    UpdatedBit(flags, FLAG_BITS[i], FLAG_BITS[j], value);
    assert i != j ==> FLAG_BITS[i] != FLAG_BITS[j];
  }

  predicate IsFlagBit(bit: bv64) {
    bit == 0x800 || bit == 0x400 || bit == 0x80 || bit == 0x40 || bit == 0x10 || bit == 0x4 || bit == 0x1
  }

  lemma UpdatedBit(flags: bv64, a: bv64, b: bv64, value: u64)
    requires IsFlagBit(a) && IsFlagBit(b)
    ensures HasBit(SetFlag(flags, b, value), a) <==> if a == b then value != 0 else HasBit(flags, a)
  {
    DistinctBits(flags, a, b);
  }

  lemma DistinctBits(flags: bv64, a: bv64, b: bv64)
    requires IsFlagBit(a) && IsFlagBit(b)
    ensures (flags | b) & a != 0 <==> a == b || flags & a != 0
    ensures (flags & !b) & a != 0 <==> a != b && flags & a != 0
  {
  }

  /** After a successful parse every flag is what the last entry that named it says. */
  lemma {:induction false} LastFlagWins(f: Floats, fields: SeedFields, entries: seq<string>, i: nat)
    requires i < |FLAG_BITS| && AssignAll(f, fields, entries).Ok?
    ensures FlagSet(AssignAll(f, fields, entries).value.flags, i) == LastFlag(entries, i, FlagSet(fields.flags, i))
    decreases |entries|
  {
    hide SlotOf, FlagSet, SetFlag, ParseSeed;
    if entries != [] {
      var front, last := entries[..|entries| - 1], entries[|entries| - 1];
      assert entries == front + [last];
      AssignAllSnoc(f, fields, front, last);
      LastFlagWins(f, fields, front, i);
      if last != "" && SlotOf(NameOf(last)).FlagSlot? {
        FlagUpdate(AssignAll(f, fields, front).value.flags, i, SlotOf(NameOf(last)).index, ParseSeed(ValueOf(last)).value);
      }
    }
  }
}
