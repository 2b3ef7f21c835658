/**
 * What a `--seed` argument of a single entry does, name by name. Names, bit positions and fields are written out here, so
 * that the meaning of an argument does not rest on the tables that the parser searches.
 */
module CliEntries {
  import opened Common
  import opened MachineState
  import opened Bits
  import opened Hex
  import opened SeedText
  import opened ComposeSeed
  import opened CliSeed
  import opened CliSeedProofs

  /** A name and a non-empty value that the separators leave whole. */
  predicate Whole(name: string, value: string) {
    ',' !in name && '=' !in name && ',' !in value && value != ""
  }

  function Entry(name: string, value: string): string {
    name + "=" + value
  }

  lemma SingleEntry(f: Floats, name: string, value: string)
    requires Whole(name, value)
    ensures ParseArgument(f, Entry(name, value)) == Assign(f, NO_FIELDS, Entry(name, value))
    ensures Entry(name, value) != "" && Find(Entry(name, value), '=') < |Entry(name, value)|
    ensures NameOf(Entry(name, value)) == name && ValueOf(Entry(name, value)) == value
  {
    hide Find, Assign;
    var entry := Entry(name, value);
    FindAfter(name, value, '=');
    FindAfter(entry, "", ',');
    assert entry == name + ['='] + value;
    assert entry[..|name|] == name && entry[|name| + 1..] == value;
    assert Split(entry) == [entry];
    OneEntry(f, entry);
  }

  lemma OneEntry(f: Floats, entry: string)
    ensures AssignAll(f, NO_FIELDS, [entry]) == Assign(f, NO_FIELDS, entry)
  {
    hide Assign;
    assert [entry][1..] == [];
  }

  /** The result of an entry, by what its name stands for. */
  lemma EntryBySlot(f: Floats, name: string, value: string)
    requires Whole(name, value)
    ensures var result := ParseArgument(f, Entry(name, value));
      && (result.Ok? <==> GoodValue(f, SlotOf(name), value))
      && (result.Ok? ==> result.value == Store(NO_FIELDS, SlotOf(name), value))
  {
    hide SlotOf, GoodValue, Store, NameOf, ValueOf, ParseArgument, Find;
    SingleEntry(f, name, value);
  }

  // ---------------------------------------------------------------- shapes of the register names

  /** No register name is as long as the names of the environment, starts like a vector or x87 name, or ends like a flag. */
  predicate RegisterShape(name: string) {
    2 <= |name| <= 4 && At(name, 0) != 'x' && At(name, 1) != 't' && At(name, |name| - 1) != 'f'
  }

  lemma FullShapes(reg: nat)
    requires reg < GPR_COUNT
    ensures RegisterShape(REG_NAMES[reg])
  {
  }

  lemma DwordShapes(reg: nat)
    requires reg < GPR_COUNT
    ensures RegisterShape(GPR_NAMES_32[reg])
  {
  }

  lemma WordShapes(reg: nat)
    requires reg < GPR_COUNT
    ensures RegisterShape(GPR_NAMES_16[reg])
  {
  }

  lemma ByteLowShapes(reg: nat)
    requires reg < GPR_COUNT
    ensures RegisterShape(GPR_NAMES_8L[reg])
  {
  }

  lemma ByteHighShapes(reg: nat)
    requires reg < |GPR_NAMES_8H|
    ensures RegisterShape(GPR_NAMES_8H[reg])
  {
  }

  lemma NamesAreShaped(name: string, reg: nat, width: Width)
    requires HasName(reg, width) && SameName(name, NameFor(reg, width))
    ensures RegisterShape(name)
  {
    hide RegisterShape, SameName;
    match width {
      case Full => FullShapes(reg);
      case Dword => DwordShapes(reg);
      case Word => WordShapes(reg);
      case ByteLow => ByteLowShapes(reg);
      case ByteHigh => ByteHighShapes(reg);
    }
    ShapeAlike(name, NameFor(reg, width));
  }

  lemma ShapeAlike(a: string, b: string)
    requires SameName(a, b)
    ensures RegisterShape(a) <==> RegisterShape(b)
  {
    assert forall k: int :: At(a, k) == At(b, k);
  }

  lemma FoundIsShaped(name: string)
    ensures FindGpr(name, 0).Some? ==> RegisterShape(name)
  {
    hide RegisterShape, FindGpr, NameFor, SameName;
    if FindGpr(name, 0).Some? {
      var slot := FindGpr(name, 0).value;
      FindGprIff(name, 0, slot.reg, slot.width);
      NamesAreShaped(name, slot.reg, slot.width);
    }
  }

  // ---------------------------------------------------------------- flags

  /** The flag names in any case, with the position of their bit in the flags register. */
  predicate NamesFlag(name: string, position: bv64) {
    || (SameName(name, "CF") && position == 0)
    || (SameName(name, "PF") && position == 2)
    || (SameName(name, "AF") && position == 4)
    || (SameName(name, "ZF") && position == 6)
    || (SameName(name, "SF") && position == 7)
    || (SameName(name, "DF") && position == 10)
    || (SameName(name, "OF") && position == 11)
  }

  lemma {:induction false} FindFlagAt(name: string, from: nat, i: nat)
    requires from <= i < |FLAG_NAMES| && SameName(name, FLAG_NAMES[i])
    requires forall j :: from <= j < i ==> !SameName(name, FLAG_NAMES[j])
    ensures FindFlag(name, from) == Some(FlagSlot(i))
    decreases i - from
  {
    hide SameName;
    if from < i { FindFlagAt(name, from + 1, i); }
  }

  /** Where a flag name stands in the table, and the bit that stands beside it. */
  lemma FlagIndex(name: string, position: bv64) returns (i: nat)
    requires NamesFlag(name, position)
    ensures i < |FLAG_BITS| && FindFlag(name, 0) == Some(FlagSlot(i)) && IsOnlyBit(FLAG_BITS[i], position)
  {
    i := if position == 11 then 0 else if position == 10 then 1 else if position == 7 then 2
      else if position == 6 then 3 else if position == 4 then 4 else if position == 2 then 5 else 6;
    assert SameName(name, FLAG_NAMES[i]);
    forall j | 0 <= j < i ensures !SameName(name, FLAG_NAMES[j]) {
      assert Lower(name[0]) == Lower(FLAG_NAMES[i][0]) != Lower(FLAG_NAMES[j][0]);
    }
    FindFlagAt(name, 0, i);
    OnlyBits();
  }

  /** Bit `position`, and no other, is set. */
  ghost predicate IsOnlyBit(x: bv64, position: bv64) {
    forall k: bv64 :: k < 64 ==> (Bit(x, k) == if k == position then 1 else 0)
  }

  lemma OnlyBits()
    ensures IsOnlyBit(0x1, 0) && IsOnlyBit(0x4, 2) && IsOnlyBit(0x10, 4) && IsOnlyBit(0x40, 6)
    ensures IsOnlyBit(0x80, 7) && IsOnlyBit(0x400, 10) && IsOnlyBit(0x800, 11)
  {
  }

  lemma FlagIsNoOther(name: string, position: bv64)
    requires NamesFlag(name, position)
    ensures !SameName(name, "mxcsr") && !SameName(name, "control_word") && XmmIndex(name) == None && StIndex(name) == None
    ensures FindGpr(name, 0) == None
  {
    FoundIsShaped(name);
    assert Lower(name[1]) == 'f';
  }

  /**
   * A flag set on its own: the value must be a number, and the flags then hold the named bit and no other, or nothing when
   * the number is zero. No other field changes.
   */
  lemma FlagEntry(f: Floats, name: string, value: string, position: bv64)
    requires Whole(name, value) && NamesFlag(name, position)
    ensures var result := ParseArgument(f, Entry(name, value));
      && (result.Ok? <==> ParseSeed(value).Some?)
      && (result.Ok? ==> result.value == NO_FIELDS.(flags := result.value.flags))
      && (result.Ok? && ParseSeed(value).value != 0 ==> IsOnlyBit(result.value.flags, position))
      && (result.Ok? && ParseSeed(value).value == 0 ==> result.value.flags == 0)
  {
    hide NamesFlag, SameName, FindGpr, FindFlag, XmmIndex, StIndex, ParseSeed, ParseArgument, IsOnlyBit, SetFlag;
    EntryBySlot(f, name, value);
    FlagIsNoOther(name, position);
    var i := FlagIndex(name, position);
    SetOnce(FLAG_BITS[i], if ParseSeed(value).Some? then ParseSeed(value).value else 0);
  }

  lemma SetOnce(bit: bv64, value: u64)
    ensures SetFlag(0, bit, value) == if value != 0 then bit else 0
  {
  }

  // ---------------------------------------------------------------- environment, vector and x87 registers

  /** `mxcsr` and `control_word`, in any case, write their own field. */
  lemma EnvironmentEntry(f: Floats, name: string, value: string)
    requires Whole(name, value)
    ensures var result := ParseArgument(f, Entry(name, value));
      && (SameName(name, "mxcsr") ==>
            (result.Ok? <==> ParseMxcsr(value).Some?) && (result.Ok? ==> result.value == NO_FIELDS.(mxcsr := value)))
      && (SameName(name, "control_word") ==>
            (result.Ok? <==> ParseControlWord(value).Some?)
            && (result.Ok? ==> result.value == NO_FIELDS.(controlWord := value)))
  {
    hide FindGpr, FindFlag, XmmIndex, StIndex, ParseMxcsr, ParseControlWord, ParseArgument;
    EntryBySlot(f, name, value);
  }

  /** One or two decimal digits have their usual value. */
  lemma DecimalDigits(a: char, b: char)
    requires IsDecDigit(a) && IsDecDigit(b)
    ensures AllDecimal([a]) && DecimalValue([a]) == (a - '0') as nat
    ensures AllDecimal([a, b]) && DecimalValue([a, b]) == 10 * (a - '0') as nat + (b - '0') as nat
  {
    assert [a][..0] == "" && [a, b][..1] == [a];
  }

  /** `xmm` in any case with a decimal number below 16 writes that vector register. */
  lemma XmmEntry(f: Floats, name: string, value: string, n: nat)
    requires Whole(name, value) && n < 16
    requires |name| >= 4 && SameName(name[..3], "xmm") && AllDecimal(name[3..]) && DecimalValue(name[3..]) == n
    ensures var result := ParseArgument(f, Entry(name, value));
      && (result.Ok? <==> ComposeXmm(f, value).Some?)
      && (result.Ok? ==> result.value == NO_FIELDS.(xmm := NO_FIELDS.xmm[n := value]))
  {
    EntryBySlot(f, name, value);
    XmmSlotOf(name, n);
    hide SlotOf, ComposeXmm, ParseArgument;
  }

  lemma XmmSlotOf(name: string, n: nat)
    requires n < 16 && |name| >= 4 && SameName(name[..3], "xmm") && AllDecimal(name[3..]) && DecimalValue(name[3..]) == n
    ensures SlotOf(name) == XmmSlot(n)
  {
    hide FindGpr, FindFlag, StIndex, DecimalValue;
    assert Lower(name[..3][0]) == 'x';
    assert name[0] == name[..3][0];
  }

  /** `st` in any case with one decimal digit below 8 writes that x87 register. */
  lemma StEntry(f: Floats, name: string, value: string, n: nat)
    requires Whole(name, value) && n < 8
    requires |name| == 3 && SameName(name[..2], "st") && AllDecimal(name[2..]) && DecimalValue(name[2..]) == n
    ensures var result := ParseArgument(f, Entry(name, value));
      && (result.Ok? <==> ComposeSt(f, value).Some?)
      && (result.Ok? ==> result.value == NO_FIELDS.(st := NO_FIELDS.st[n := value]))
  {
    EntryBySlot(f, name, value);
    StSlotOf(name, n);
    hide SlotOf, ComposeSt, ParseArgument;
  }

  lemma StSlotOf(name: string, n: nat)
    requires n < 8 && |name| == 3 && SameName(name[..2], "st") && AllDecimal(name[2..]) && DecimalValue(name[2..]) == n
    ensures SlotOf(name) == StSlot(n)
  {
    hide FindGpr, FindFlag, DecimalValue;
  }

  // ---------------------------------------------------------------- general registers

  /** The slices of a register with one of them given. */
  predicate OnlySlice(seed: GprSeed, width: Width, value: string) {
    match width
    case Full => seed == GprSeed(value, "", "", "", "")
    case Dword => seed == GprSeed("", value, "", "", "")
    case Word => seed == GprSeed("", "", value, "", "")
    case ByteHigh => seed == GprSeed("", "", "", value, "")
    case ByteLow => seed == GprSeed("", "", "", "", value)
  }

  /** A register name writes the slice of its width in its register. The stack pointer is refused. */
  lemma GprEntry(f: Floats, name: string, value: string, reg: nat, width: Width)
    requires Whole(name, value) && HasName(reg, width) && SameName(name, NameFor(reg, width))
    ensures WidthIn(name) == width && RegisterIn(name) == reg
    ensures var result := ParseArgument(f, Entry(name, value));
      && (result.Ok? <==> reg != 7 && ParseSeed(value).Some?)
      && (result.Ok? ==>
            && OnlySlice(result.value.gpr[reg], width, value)
            && result.value == NO_FIELDS.(gpr := NO_FIELDS.gpr[reg := result.value.gpr[reg]]))
  {
    hide SameName, NameFor, SlotOf, WidthIn, RegisterIn, ParseSeed, ParseArgument;
    NameDetermines(name, reg, width);
    EntryBySlot(f, name, value);
    GprSlotOf(name, reg, width);
  }

  lemma GprSlotOf(name: string, reg: nat, width: Width)
    requires HasName(reg, width) && SameName(name, NameFor(reg, width))
    ensures SlotOf(name) == GprSlot(reg, width)
  {
    hide SameName, NameFor, FindGpr, FindFlag, XmmIndex, StIndex, RegisterShape;
    FindGprIff(name, 0, reg, width);
    NamesAreShaped(name, reg, width);
    ShapeIsNoOther(name);
  }

  lemma ShapeIsNoOther(name: string)
    requires RegisterShape(name)
    ensures !SameName(name, "mxcsr") && !SameName(name, "control_word") && XmmIndex(name) == None && StIndex(name) == None
  {
    if |name| == 4 { assert name[..3][0] == name[0]; }
    if |name| == 3 { assert name[..2][1] == name[1]; }
  }

  /** Names are the same exactly if their characters are, but for the case of the 26 letters. */
  lemma CaseIsIgnored(a: string, b: string)
    ensures SameName(a, b) <==> |a| == |b| && forall i :: 0 <= i < |a| ==>
      || a[i] == b[i]
      || ('A' <= a[i] <= 'Z' && b[i] as int == a[i] as int + 32)
      || ('A' <= b[i] <= 'Z' && a[i] as int == b[i] as int + 32)
  {
    if |a| == |b| {
      forall i | 0 <= i < |a|
        ensures Lower(a[i]) == Lower(b[i]) <==>
          a[i] == b[i] || ('A' <= a[i] <= 'Z' && b[i] as int == a[i] as int + 32)
          || ('A' <= b[i] <= 'Z' && a[i] as int == b[i] as int + 32)
      {
        LowerSame(a[i], b[i]);
      }
    }
  }

  lemma LowerSame(c: char, d: char)
    ensures Lower(c) == Lower(d) <==>
      c == d || ('A' <= c <= 'Z' && d as int == c as int + 32) || ('A' <= d <= 'Z' && c as int == d as int + 32)
  {
  }

  /** The numbers of the registers, in the order in which the seed stores them. */
  lemma RegisterNumbers()
    ensures RegisterIn("rax") == 0 && RegisterIn("rbx") == 1 && RegisterIn("rcx") == 2 && RegisterIn("rdx") == 3
    ensures RegisterIn("rsi") == 4 && RegisterIn("rdi") == 5 && RegisterIn("rbp") == 6 && RegisterIn("rsp") == 7
    ensures RegisterIn("r8") == 8 && RegisterIn("r9") == 9 && RegisterIn("r10") == 10 && RegisterIn("r11") == 11
    ensures RegisterIn("r12") == 12 && RegisterIn("r13") == 13 && RegisterIn("r14") == 14 && RegisterIn("r15") == 15
  {
  }
}
