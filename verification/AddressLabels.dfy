/** Normalized address labels, and the memory layout that they describe. */
module AddressLabels {
  import opened Common
  import opened Hex
  import opened CodeText
  import opened CodeTextProofs

  const SCRATCH_STACK_BYTES := 0x10000
  const SCRATCH_STACK_HEADROOM := 0x100
  const SCRATCH_DATA_BYTES := 0x10000

  /** What a label depends on besides the address: the recorded seed, the code size, and the platform. */
  datatype Context = Context(codeBase: u64, codeSize: nat, stackPointer: u64, dataBase: u64, pageSize: nat)

  datatype Place = CodeUp | StackUp | StackDown | DataUp | DataDown

  datatype Note = NoNote | EndGuard | Guard

  datatype Label = Relative(place: Place, offset: nat, note: Note) | Absolute(address: u64)

  /** The label of an address at or above the base of a region of `size` bytes with a guard page after it. */
  function Above(place: Place, offset: nat, size: nat, pageSize: nat): Option<Label> {
    if offset < size then Some(Relative(place, offset, NoNote))
    else if offset == size then Some(Relative(place, offset, EndGuard))
    else if offset < size + pageSize then Some(Relative(place, offset, Guard))
    else None
  }

  function CodeLabel(c: Context, address: u64): Option<Label> {
    if c.codeBase != 0 && c.codeSize > 0 && address >= c.codeBase
      then Above(CodeUp, address - c.codeBase, c.codeSize, c.pageSize)
    else None
  }

  function StackLabel(c: Context, address: u64): Option<Label> {
    if c.stackPointer == 0 then None
    else if address >= c.stackPointer then Above(StackUp, address - c.stackPointer, SCRATCH_STACK_HEADROOM, c.pageSize)
    else
      var offset := c.stackPointer - address;
      if offset <= SCRATCH_STACK_BYTES - SCRATCH_STACK_HEADROOM then Some(Relative(StackDown, offset, NoNote))
      else if offset <= SCRATCH_STACK_BYTES - SCRATCH_STACK_HEADROOM + c.pageSize
        then Some(Relative(StackDown, offset, Guard))
      else None
  }

  function DataLabel(c: Context, address: u64): Option<Label> {
    if address >= c.dataBase then Above(DataUp, address - c.dataBase, SCRATCH_DATA_BYTES, c.pageSize)
    else if c.dataBase - address <= c.pageSize then Some(Relative(DataDown, c.dataBase - address, Guard))
    else None
  }

  function LabelOf(c: Context, address: u64): Label {
    match CodeLabel(c, address)
    case Some(shown) => shown
    case None =>
      match StackLabel(c, address)
      case Some(shown) => shown
      case None =>
        match DataLabel(c, address)
        case Some(shown) => shown
        case None => Absolute(address)
  }

  predicate IsGuard(shown: Label) {
    shown.Relative? && shown.note != NoNote
  }

  // ---------------------------------------------------------------- label texts

  function MinHex(n: nat): (s: string)
    ensures |s| > 0 && AllHex(s)
  {
    if n < 16 then [HexDigit(n)] else MinHex(n / 16) + [HexDigit(n)]
  }

  /** Upper-case digits, at least four. */
  function Hex4(n: nat): (s: string)
    ensures AllHex(s)
  {
    Zeros(if |MinHex(n)| < 4 then 4 - |MinHex(n)| else 0) + MinHex(n)
  }

  function PlaceText(place: Place): string {
    match place
    case CodeUp => "code+"
    case StackUp => "stack+"
    case StackDown => "stack-"
    case DataUp => "data+"
    case DataDown => "data-"
  }

  function NoteText(note: Note): string {
    match note
    case NoNote => ""
    case EndGuard => " (end, guard)"
    case Guard => " (guard)"
  }

  function Text(shown: Label): string {
    match shown
    case Relative(place, offset, note) => PlaceText(place) + Hex4(offset) + NoteText(note)
    case Absolute(address) => "0x" + Digits(address, 16)
  }

  lemma {:induction false} MinHexValue(n: nat)
    ensures HexValue(MinHex(n)) == n
  {
    if n >= 16 {
      MinHexValue(n / 16);
      assert MinHex(n)[..|MinHex(n)| - 1] == MinHex(n / 16);
    } else {
      assert MinHex(n)[..0] == "";
    }
  }

  lemma Hex4Value(n: nat)
    ensures HexValue(Hex4(n)) == n
  {
    var zeros := Zeros(if |MinHex(n)| < 4 then 4 - |MinHex(n)| else 0);
    HexValueAppend(zeros, MinHex(n));
    ZerosValue(|zeros|);
    MinHexValue(n);
  }

  /** The digits and the note can be read off the rest of a label. */
  lemma RestInjective(m: nat, a: Note, n: nat, b: Note)
    requires Hex4(m) + NoteText(a) == Hex4(n) + NoteText(b)
    ensures m == n && a == b
  {
    hide Hex4, CountHex;
    CountHexExact(Hex4(m), NoteText(a));
    CountHexExact(Hex4(n), NoteText(b));
    DropPrefix(Hex4(m), NoteText(a));
    DropPrefix(Hex4(n), NoteText(b));
    Hex4Value(m);
    Hex4Value(n);
    NotesDiffer(a, b);
  }

  lemma NotesDiffer(a: Note, b: Note)
    ensures NoteText(a) == NoteText(b) ==> a == b
  {
    assert |NoteText(NoNote)| == 0 && |NoteText(EndGuard)| == 13 && |NoteText(Guard)| == 8;
  }

  lemma PlacesDiffer(a: Place, s: string, b: Place, r: string)
    requires PlaceText(a) + s == PlaceText(b) + r
    ensures a == b && s == r
  {
    var x, y := PlaceText(a) + s, PlaceText(b) + r;
    assert x[0] == PlaceText(a)[0] && y[0] == PlaceText(b)[0];
    assert x[4] == PlaceText(a)[4] && y[4] == PlaceText(b)[4];
    assert |PlaceText(a)| == 6 ==> x[5] == PlaceText(a)[5];
    assert |PlaceText(b)| == 6 ==> y[5] == PlaceText(b)[5];
    DropPrefix(PlaceText(a), s);
    DropPrefix(PlaceText(b), r);
  }

  /** Different labels have different texts. */
  lemma TextInjective(a: Label, b: Label)
    requires Text(a) == Text(b)
    ensures a == b
  {
    hide Hex4, NoteText, Digits, HexValue, Pow16;
    assert a.Relative? ==> Text(a)[0] == PlaceText(a.place)[0];
    assert b.Relative? ==> Text(b)[0] == PlaceText(b.place)[0];
    if a.Relative? && b.Relative? {
      assert Text(a) == PlaceText(a.place) + (Hex4(a.offset) + NoteText(a.note));
      assert Text(b) == PlaceText(b.place) + (Hex4(b.offset) + NoteText(b.note));
      PlacesDiffer(a.place, Hex4(a.offset) + NoteText(a.note), b.place, Hex4(b.offset) + NoteText(b.note));
      RestInjective(a.offset, a.note, b.offset, b.note);
    } else if a.Absolute? && b.Absolute? {
      DropPrefix("0x", Digits(a.address, 16));
      DropPrefix("0x", Digits(b.address, 16));
      DigitsValue(a.address, 16);
      DigitsValue(b.address, 16);
      Pow16Values();
    }
  }

  /** The address that a label stands for. */
  function AddressOf(c: Context, shown: Label): int {
    match shown
    case Relative(CodeUp, offset, _) => c.codeBase + offset
    case Relative(StackUp, offset, _) => c.stackPointer + offset
    case Relative(StackDown, offset, _) => c.stackPointer - offset
    case Relative(DataUp, offset, _) => c.dataBase + offset
    case Relative(DataDown, offset, _) => c.dataBase - offset
    case Absolute(address) => address
  }

  /** For a fixed trace no two addresses share a label text, overlapping regions included. */
  lemma LabelsInjective(c: Context, a: u64, b: u64)
    ensures Text(LabelOf(c, a)) == Text(LabelOf(c, b)) <==> a == b
  {
    hide Text;
    assert AddressOf(c, LabelOf(c, a)) == a;
    assert AddressOf(c, LabelOf(c, b)) == b;
    if Text(LabelOf(c, a)) == Text(LabelOf(c, b)) {
      TextInjective(LabelOf(c, a), LabelOf(c, b));
    }
  }

  // ---------------------------------------------------------------- the regions that are allocated

  /** Clearing the low bits, for an alignment that is a power of two. */
  function AlignDown(x: nat, alignment: nat): (y: nat)
    requires alignment > 0
    ensures x - alignment < y <= x
  {
    x - x % alignment
  }

  /** The reserved regions of one run: code buffer, stack and data, with their first addresses. */
  datatype Layout = Layout(page: nat, codeSize: nat, buffer: nat, stack: nat, data: nat) {
    /** The code size rounded up to whole pages. */
    function CodeRegion(): (n: nat)
      requires page > 0
      ensures codeSize <= n < codeSize + page
    {
      AlignDown(codeSize + page - 1, page)
    }

    predicate Valid() {
      && page > 0 && page % 16 == 0 && codeSize > 0
      && buffer > 0 && stack > 0 && stack % page == 0
      && buffer + CodeRegion() + page < TWO_64
      && stack + SCRATCH_STACK_BYTES + 2 * page < TWO_64
      && data + SCRATCH_DATA_BYTES + 2 * page < TWO_64
      && Disjoint()
    }

    predicate InStack(a: int) {
      stack <= a < stack + SCRATCH_STACK_BYTES + 2 * page
    }

    predicate InData(a: int) {
      data <= a < data + SCRATCH_DATA_BYTES + 2 * page
    }

    /** Separate reservations do not overlap. */
    predicate Disjoint()
      requires page > 0
    {
      && Apart(buffer, CodeRegion() + page, stack, SCRATCH_STACK_BYTES + 2 * page)
      && Apart(buffer, CodeRegion() + page, data, SCRATCH_DATA_BYTES + 2 * page)
      && Apart(stack, SCRATCH_STACK_BYTES + 2 * page, data, SCRATCH_DATA_BYTES + 2 * page)
    }

    function CodeBase(): nat
      requires page > 0
    {
      buffer + CodeRegion() - codeSize
    }

    function InitialRsp(): nat {
      AlignDown(stack + page + SCRATCH_STACK_BYTES - SCRATCH_STACK_HEADROOM, 16)
    }

    /** The code bytes, which end where the guard page begins. */
    predicate IsCode(a: int)
      requires page > 0
    {
      CodeBase() <= a < buffer + CodeRegion()
    }

    predicate IsUsableStack(a: int) {
      stack + page <= a < stack + page + SCRATCH_STACK_BYTES
    }

    predicate IsUsableData(a: int) {
      data + page <= a < data + page + SCRATCH_DATA_BYTES
    }

    /** The pages that are reserved but never committed. */
    predicate IsNoAccess(a: int)
      requires page > 0
    {
      || buffer + CodeRegion() <= a < buffer + CodeRegion() + page
      || (InStack(a) && !IsUsableStack(a))
      || (InData(a) && !IsUsableData(a))
    }

    function LabelContext(): Context
      requires Valid()
    {
      AlignedRsp(this);
      Context(CodeBase(), codeSize, InitialRsp(), data + page, page)
    }
  }

  predicate Apart(a: nat, m: nat, b: nat, n: nat) {
    a + m <= b || b + n <= a
  }

  /** Aligning the initial stack pointer to 16 bytes changes nothing, because pages are aligned at least as strictly. */
  lemma AlignedRsp(l: Layout)
    requires l.page > 0 && l.page % 16 == 0 && l.stack % l.page == 0
    ensures l.InitialRsp() == l.stack + l.page + SCRATCH_STACK_BYTES - SCRATCH_STACK_HEADROOM
  {
    var k, q := l.page / 16, l.stack / l.page;
    assert l.stack == 16 * (k * q) by {
      assert l.page == 16 * k;
      assert l.stack == l.page * q;
      Regroup16(k, q);
    }
  }

  lemma Regroup16(k: int, q: int)
    ensures (16 * k) * q == 16 * (k * q)
  {
  }

  /**
   * Over disjoint regions, a label says guard exactly on the no-access pages of the regions,
   * and names code, stack or data exactly on the bytes that the run may use.
   */
  lemma LabelsMatchLayout(l: Layout, a: u64)
    requires l.Valid()
    ensures var shown := LabelOf(l.LabelContext(), a);
      && (IsGuard(shown) <==> l.IsNoAccess(a))
      && (shown.Relative? && shown.note == NoNote && shown.place == CodeUp <==> l.IsCode(a))
      && (shown.Relative? && shown.note == NoNote && (shown.place == StackUp || shown.place == StackDown) <==>
        l.IsUsableStack(a))
      && (shown.Relative? && shown.note == NoNote && shown.place == DataUp <==> l.IsUsableData(a))
  {
    AlignedRsp(l);
  }

  /** The end of a region, and only that, is marked as the end. */
  lemma EndLabels(l: Layout, a: u64)
    requires l.Valid()
    ensures var shown := LabelOf(l.LabelContext(), a);
      shown.Relative? && shown.note == EndGuard <==>
        a == l.buffer + l.CodeRegion() || a == l.stack + l.page + SCRATCH_STACK_BYTES || a
          == l.data + l.page + SCRATCH_DATA_BYTES
  {
    AlignedRsp(l);
  }

  /**
   * On Linux the child has a fourth region, the signal stack, whose two guard pages are not labelled. So the label says
   * guard exactly on the no-access pages outside the signal stack, and shows the signal stack as plain addresses.
   */
  lemma SignalStackUnlabelled(l: Layout, signal: nat, size: nat, a: u64)
    requires l.Valid()
    requires Apart(signal, size + 2 * l.page, l.buffer, l.CodeRegion() + l.page)
    requires Apart(signal, size + 2 * l.page, l.stack, SCRATCH_STACK_BYTES + 2 * l.page)
    requires Apart(signal, size + 2 * l.page, l.data, SCRATCH_DATA_BYTES + 2 * l.page)
    ensures var inSignal := signal <= a < signal + size + 2 * l.page;
      var usable := signal + l.page <= a < signal + l.page + size;
      var noAccess := l.IsNoAccess(a) || (inSignal && !usable);
      && (IsGuard(LabelOf(l.LabelContext(), a)) <==> noAccess && !inSignal)
      && (inSignal ==> LabelOf(l.LabelContext(), a) == Absolute(a))
  {
    AlignedRsp(l);
  }

  // ---------------------------------------------------------------- what a label says

  /** Upper-case digits, at least four and no more than needed, that denote the number. */
  ghost predicate Denotes(digits: string, n: nat) {
    && AllHex(digits) && HexValue(digits) == n && |digits| >= 4 && (|digits| > 4 ==> digits[0] != '0')
    && forall c :: c in digits ==> IsDecDigit(c) || 'A' <= c <= 'F'
  }

  lemma {:induction false} MinHexShape(n: nat)
    ensures forall c :: c in MinHex(n) ==> IsDecDigit(c) || 'A' <= c <= 'F'
    ensures n > 0 ==> MinHex(n)[0] != '0'
  {
    if n >= 16 { MinHexShape(n / 16); }
  }

  lemma {:induction false} ZerosShape(n: nat)
    ensures forall c :: c in Zeros(n) ==> c == '0'
  {
    if n > 0 { ZerosShape(n - 1); }
  }

  lemma Hex4Denotes(n: nat)
    ensures Denotes(Hex4(n), n)
  {
    hide MinHex, Zeros, HexValue;
    Hex4Value(n);
    MinHexShape(n);
    var k := if |MinHex(n)| < 4 then 4 - |MinHex(n)| else 0;
    ZerosShape(k);
    if |MinHex(n)| > 4 {
      assert Hex4(n) == MinHex(n);
      LongIsPositive(n);
    }
  }

  lemma LongIsPositive(n: nat)
    ensures |MinHex(n)| > 1 ==> n > 0
  {
  }

  /** The text names the region, a direction, and the distance, and ends with this note. */
  ghost predicate Says(text: string, region: string, distance: nat, note: string) {
    exists digits :: Denotes(digits, distance) && text == region + digits + note
  }

  lemma TextSays(place: Place, offset: nat, note: Note)
    ensures Says(Text(Relative(place, offset, note)), PlaceText(place), offset, NoteText(note))
  {
    hide Hex4, Denotes;
    Hex4Denotes(offset);
  }

  /**
   * The texts that are shown for the bytes of a run. Code is counted from its base, the stack up and down from the initial
   * stack pointer, which lies 0x100 bytes below its end, and data from its base.
   */
  lemma UsableTexts(l: Layout, a: u64)
    requires l.Valid()
    ensures var text := Text(LabelOf(l.LabelContext(), a));
      var base, top, data := l.buffer + l.CodeRegion() - l.codeSize, l.stack + l.page + 0x10000 - 0x100, l.data + l.page;
      && (base <= a < base + l.codeSize ==> Says(text, "code+", a - base, ""))
      && (top <= a < top + 0x100 ==> Says(text, "stack+", a - top, ""))
      && (l.stack + l.page <= a < top ==> Says(text, "stack-", top - a, ""))
      && (data <= a < data + 0x10000 ==> Says(text, "data+", a - data, ""))
  {
    hide Says, Text;
    AlignedRsp(l);
    var shown := LabelOf(l.LabelContext(), a);
    if shown.Relative? { TextSays(shown.place, shown.offset, shown.note); }
  }

  /** The texts that are shown for the guard pages, with the first byte behind a region marked as its end. */
  lemma GuardTexts(l: Layout, a: u64)
    requires l.Valid()
    ensures var text := Text(LabelOf(l.LabelContext(), a));
      var base, top, data := l.buffer + l.CodeRegion() - l.codeSize, l.stack + l.page + 0x10000 - 0x100, l.data + l.page;
      && (a == base + l.codeSize ==> Says(text, "code+", l.codeSize, " (end, guard)"))
      && (base + l.codeSize < a < base + l.codeSize + l.page ==> Says(text, "code+", a - base, " (guard)"))
      && (a == top + 0x100 ==> Says(text, "stack+", 0x100, " (end, guard)"))
      && (top + 0x100 < a < top + 0x100 + l.page ==> Says(text, "stack+", a - top, " (guard)"))
      && (l.stack <= a < l.stack + l.page ==> Says(text, "stack-", top - a, " (guard)"))
      && (a == data + 0x10000 ==> Says(text, "data+", 0x10000, " (end, guard)"))
      && (data + 0x10000 < a < data + 0x10000 + l.page ==> Says(text, "data+", a - data, " (guard)"))
      && (l.data <= a < data ==> Says(text, "data-", data - a, " (guard)"))
  {
    hide Says, Text;
    AlignedRsp(l);
    var shown := LabelOf(l.LabelContext(), a);
    if shown.Relative? { TextSays(shown.place, shown.offset, shown.note); }
  }

  /** Any other address is shown as sixteen digits. */
  lemma AbsoluteTexts(c: Context, a: u64)
    requires LabelOf(c, a).Absolute?
    ensures var text := Text(LabelOf(c, a));
      |text| == 18 && text[..2] == "0x" && AllHex(text[2..]) && HexValue(text[2..]) == a
  {
    hide HexValue, LabelOf, Digits, Pow16, Hex4;
    AddressIsShown(c, a);
    DigitsValue(a, 16);
    Pow16Values();
    DropPrefix("0x", Digits(a, 16));
  }

  lemma AddressIsShown(c: Context, a: u64)
    ensures LabelOf(c, a).Absolute? ==> LabelOf(c, a) == Absolute(a)
  {
  }

  // ---------------------------------------------------------------- instances

  /** A two-byte input in ordinary places: the layout is valid, and the code ends where its guard page begins. */
  lemma LayoutInstance() returns (l: Layout)
    ensures l == Layout(4096, 2, 0x10_0000, 0x20_0000, 0x1000_0000) && l.Valid()
    ensures l.CodeRegion() == 4096 && l.CodeBase() == 0x10_0FFE && l.IsNoAccess(0x10_1000)
  {
    l := Layout(4096, 2, 0x10_0000, 0x20_0000, 0x1000_0000);
  }

  lemma PlacedLayout() returns (l: Layout)
    ensures l.Valid() && l.CodeRegion() == 4096
    ensures l.page == 4096 && l.buffer == 0x10_0000 && l.stack == 0x20_0000 && l.data == 0x1000_0000
  {
    l := LayoutInstance();
  }

  /** The first guard page of a signal stack elsewhere: no access, and yet a plain address instead of a guard label. */
  lemma SignalStackInstance() returns (l: Layout, signal: nat, guard: u64)
    ensures l.Valid() && signal <= guard < signal + l.page
    ensures LabelOf(l.LabelContext(), guard) == Absolute(guard) && !IsGuard(LabelOf(l.LabelContext(), guard))
  {
    l := PlacedLayout();
    signal, guard := 0x3000_0000, 0x3000_0010;
    SignalStackUnlabelled(l, signal, 0x4000, guard);
  }
}
