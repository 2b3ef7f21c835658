/** The register blocks that are written to the sandbox before a run, and what reading them back shows. */
module SeedReadback {
  import opened Common
  import opened MachineState
  import opened SeedText
  import opened ComposeSeed
  import Hex

  const MXCSR_FALLBACK_MASK: bv32 := 0xFFBF

  /** The general register block of the kernel interface. */
  datatype UserRegs = UserRegs(
    rax: u64, rbx: u64, rcx: u64, rdx: u64, rsi: u64, rdi: u64, rbp: u64, rsp: u64,
    r8: u64, r9: u64, r10: u64, r11: u64, r12: u64, r13: u64, r14: u64, r15: u64, rip: u64, eflags: bv64)

  type XmmSpace = s: seq<u8> | |s| == 256 witness seq<u8>(256, _ => 0)
  type StSpace = s: seq<u8> | |s| == 128 witness seq<u8>(128, _ => 0)

  /** The floating-point block: every register has a 16-byte slot, of which an x87 register uses ten bytes. */
  datatype FpuRegs = FpuRegs(
    cwd: bv16, swd: bv16, ftw: bv16, mxcsr: bv32, mxcsrMask: bv32, xmmSpace: XmmSpace, stSpace: StSpace)

  /** What the child reports before the run. */
  datatype ChildReady = ChildReady(codeBase: u64, initialRsp: u64, dataBase: u64)

  /** The bytes of a number, least significant first. */
  function LittleBytes(v: nat, n: nat): (bytes: seq<u8>)
    ensures |bytes| == n
  {
    if n == 0 then [] else [v % 0x100] + LittleBytes(v / 0x100, n - 1)
  }

  function XmmBytes(x: Xmm): (bytes: seq<u8>)
    ensures |bytes| == 16
  {
    LittleBytes(x.low, 8) + LittleBytes(x.high, 8)
  }

  function Word(bytes: seq<u8>): u64
    requires |bytes| == 8
  {
    LittleEndianBound(bytes);
    Hex.Pow16Values();
    LittleEndian(bytes)
  }

  function XmmAt(space: XmmSpace, i: nat): Xmm
    requires i < 16
  {
    Xmm(Word(space[16 * i..16 * i + 8]), Word(space[16 * i + 8..16 * i + 16]))
  }

  function StAt(space: StSpace, i: nat): St80
    requires i < 8
  {
    space[16 * i..16 * i + 10]
  }

  function CopyInto(space: seq<u8>, offset: nat, bytes: seq<u8>): (result: seq<u8>)
    requires offset + |bytes| <= |space|
    ensures |result| == |space|
  {
    space[..offset] + bytes + space[offset + |bytes|..]
  }

  // ---------------------------------------------------------------- reading

  method SnapshotFpu(source: FpuRegs, target: Registers) returns (snapshot: Registers)
    ensures snapshot == FpuView(source, target)
  {
    hide XmmAt, StAt;
    snapshot := target;
    for i := 0 to 16
      invariant snapshot == target.(xmm := snapshot.xmm)
      invariant forall k :: 0 <= k < i ==> snapshot.xmm[k] == XmmAt(source.xmmSpace, k)
    {
      snapshot := snapshot.(xmm := snapshot.xmm[i := XmmAt(source.xmmSpace, i)]);
    }
    assert snapshot.xmm == FpuView(source, target).xmm;
    for i := 0 to 8
      invariant snapshot == target.(xmm := snapshot.xmm, st := snapshot.st) && snapshot.xmm == FpuView(source, target).xmm
      invariant forall k :: 0 <= k < i ==> snapshot.st[k] == StAt(source.stSpace, k)
    {
      snapshot := snapshot.(st := snapshot.st[i := StAt(source.stSpace, i)]);
    }
    assert snapshot.st == FpuView(source, target).st;
    snapshot := snapshot.(mxcsr := source.mxcsr, fpuControlWord := source.cwd,
      fpuStatusWord := source.swd, fpuTagWord := Low8(source.ftw));
  }

  function Low8(x: bv16): bv8 {
    (x & 0xFF) as bv8
  }

  /** The registers with their floating-point part taken from the block. */
  function FpuView(source: FpuRegs, target: Registers): Registers {
    target.(
      xmm := seq<Xmm>(16, i requires 0 <= i < 16 => XmmAt(source.xmmSpace, i)),
      st := seq<St80>(8, i requires 0 <= i < 8 => StAt(source.stSpace, i)),
      mxcsr := source.mxcsr, fpuControlWord := source.cwd, fpuStatusWord := source.swd, fpuTagWord := Low8(source.ftw))
  }

  function GprView(r: UserRegs): Gprs {
    [r.rax, r.rbx, r.rcx, r.rdx, r.rsi, r.rdi, r.rbp, r.rsp, r.r8, r.r9, r.r10, r.r11, r.r12, r.r13, r.r14, r.r15]
  }

  /** What a snapshot of the blocks shows. */
  function ReadSnapshot(registers: UserRegs, fpu: FpuRegs): Registers {
    FpuView(fpu, ZERO_REGISTERS.(gpr := GprView(registers), rip := registers.rip,
      rflags := registers.eflags & !RFLAGS_TRAP_FLAG))
  }

  // ---------------------------------------------------------------- writing

  function EffectivePointer(requested: u64, dataPointers: bool, dataBase: u64): u64 {
    if dataPointers && requested == 0 then dataBase else requested
  }

  function SeedFlags(requested: bv64): bv64 {
    (requested & RFLAGS_STATUS_MASK) | RFLAGS_RESERVED_BIT1 | RFLAGS_INTERRUPT_FLAG
  }

  function TagUpTo(initial: bv16, tags: bv8, n: nat): bv16
    requires n <= 8
  {
    if n == 0 then initial
    else if Tagged(tags, n - 1) then WithTag(TagUpTo(initial, tags, n - 1), n - 1)
    else TagUpTo(initial, tags, n - 1)
  }

  function WithTag(ftw: bv16, i: nat): bv16
    requires i < 8
  {
    ftw | TagBit(i) as bv16
  }

  /** The seed that the result records: the request, with the engine's registers, default pointers and masked flags. */
  ghost predicate IsRecordedSeed(request: Registers, dataPointers: bool, ready: ChildReady, fpu: FpuRegs, seed: Registers) {
    && seed.gpr == request.gpr[RSP := ready.initialRsp]
                              [RDI := EffectivePointer(request.gpr[RDI], dataPointers, ready.dataBase)]
                              [RSI := EffectivePointer(request.gpr[RSI], dataPointers, ready.dataBase)]
    && seed.rip == ready.codeBase && seed.rflags == SeedFlags(request.rflags)
    && seed.xmm == request.xmm && seed.mxcsr == request.mxcsr && seed.fpuControlWord == request.fpuControlWord
    && seed.fpuStatusWord == fpu.swd && seed.fpuTagWord == Low8(TagUpTo(fpu.ftw, request.fpuTagWord, 8))
    && (forall i :: 0 <= i < 8 ==>
          seed.st[i] == if Tagged(request.fpuTagWord, i) then request.st[i] else StAt(fpu.stSpace, i))
  }

  /** The MXCSR bits that this processor supports. */
  function SupportedMxcsr(fpu: FpuRegs): bv32 {
    if fpu.mxcsrMask != 0 then fpu.mxcsrMask else MXCSR_FALLBACK_MASK
  }

  // ---------------------------------------------------------------- slots

  lemma {:induction false} LittleBytesValue(v: nat, n: nat)
    requires v < Pow256(n)
    ensures LittleEndian(LittleBytes(v, n)) == v
  {
    if n > 0 {
      assert Pow256(n) == 0x100 * Pow256(n - 1) by {
        assert Hex.Pow16(2 * n) == 16 * Hex.Pow16(2 * n - 1);
        assert Hex.Pow16(2 * n - 1) == 16 * Hex.Pow16(2 * n - 2);
      }
      LittleBytesValue(v / 0x100, n - 1);
      assert LittleBytes(v, n)[1..] == LittleBytes(v / 0x100, n - 1);
    }
  }

  /** Copying changes nothing outside the place that is written. */
  lemma SliceOutside(space: seq<u8>, offset: nat, bytes: seq<u8>, a: nat, b: nat)
    requires offset + |bytes| <= |space| && a <= b <= |space| && (b <= offset || offset + |bytes| <= a)
    ensures CopyInto(space, offset, bytes)[a..b] == space[a..b]
  {
  }

  /** The place that is written holds what was copied. */
  lemma SliceInside(space: seq<u8>, offset: nat, bytes: seq<u8>, a: nat, b: nat)
    requires offset + |bytes| <= |space| && a <= b <= |bytes|
    ensures CopyInto(space, offset, bytes)[offset + a..offset + b] == bytes[a..b]
  {
  }

  lemma CopyXmm(space: XmmSpace, i: nat, x: Xmm, k: nat)
    requires i < 16 && k < 16
    ensures XmmAt(CopyInto(space, 16 * i, XmmBytes(x)), k) == if k == i then x else XmmAt(space, k)
  {
    hide LittleBytes, LittleEndian, CopyInto;
    if k == i {
      assert XmmBytes(x)[0..8] == LittleBytes(x.low, 8) && XmmBytes(x)[8..16] == LittleBytes(x.high, 8);
      SliceInside(space, 16 * i, XmmBytes(x), 0, 8);
      SliceInside(space, 16 * i, XmmBytes(x), 8, 16);
      Hex.Pow16Values();
      LittleBytesValue(x.low, 8);
      LittleBytesValue(x.high, 8);
    } else {
      SliceOutside(space, 16 * i, XmmBytes(x), 16 * k, 16 * k + 8);
      SliceOutside(space, 16 * i, XmmBytes(x), 16 * k + 8, 16 * k + 16);
    }
  }

  lemma CopySt(space: StSpace, i: nat, x: St80, k: nat)
    requires i < 8 && k < 8
    ensures StAt(CopyInto(space, 16 * i, x), k) == if k == i then x else StAt(space, k)
  {
    hide CopyInto;
    if k == i {
      SliceInside(space, 16 * i, x, 0, 10);
      assert x[0..10] == x;
    } else {
      SliceOutside(space, 16 * i, x, 16 * k, 16 * k + 10);
    }
  }

  method WriteXmms(xmm: Xmms, space: XmmSpace) returns (written: XmmSpace)
    ensures forall k :: 0 <= k < 16 ==> XmmAt(written, k) == xmm[k]
  {
    hide XmmAt, CopyInto;
    written := space;
    for i := 0 to 16
      invariant forall k :: 0 <= k < i ==> XmmAt(written, k) == xmm[k]
    {
      ghost var before := written;
      written := CopyInto(written, 16 * i, XmmBytes(xmm[i]));
      forall k | 0 <= k <= i ensures XmmAt(written, k) == xmm[k] {
        CopyXmm(before, i, xmm[i], k);
      }
    }
  }

  /** A register that is written into both the seed and the block is the same in both. */
  lemma StepSts(st: Sts, space: StSpace, i: nat, x: St80)
    requires i < 8 && forall k :: 0 <= k < 8 ==> st[k] == StAt(space, k)
    ensures forall k :: 0 <= k < 8 ==> st[i := x][k] == StAt(CopyInto(space, 16 * i, x), k)
  {
    hide StAt, CopyInto;
    forall k | 0 <= k < 8 ensures st[i := x][k] == StAt(CopyInto(space, 16 * i, x), k) {
      CopySt(space, i, x, k);
    }
  }

  /** Only the tagged registers are written, into the recorded seed and into the block alike. */
  method WriteSts(request: Registers, initial: FpuRegs, recorded: Sts)
    returns (st: Sts, stSpace: StSpace, ftw: bv16)
    requires forall k :: 0 <= k < 8 ==> recorded[k] == StAt(initial.stSpace, k)
    ensures forall k :: 0 <= k < 8 ==> st[k] == StAt(stSpace, k)
    ensures forall k :: 0 <= k < 8 ==> st[k] == if Tagged(request.fpuTagWord, k)
      then request.st[k] else StAt(initial.stSpace, k)
    ensures ftw == TagUpTo(initial.ftw, request.fpuTagWord, 8)
  {
    hide StAt, CopyInto, Tagged, WithTag;
    st, stSpace, ftw := recorded, initial.stSpace, initial.ftw;
    for i := 0 to 8
      invariant forall k :: 0 <= k < 8 ==> st[k] == StAt(stSpace, k)
      invariant forall k :: 0 <= k < i ==>
        st[k] == if Tagged(request.fpuTagWord, k) then request.st[k] else StAt(initial.stSpace, k)
      invariant forall k :: i <= k < 8 ==> st[k] == StAt(initial.stSpace, k)
      invariant ftw == TagUpTo(initial.ftw, request.fpuTagWord, i)
    {
      if Tagged(request.fpuTagWord, i) {
        StepSts(st, stSpace, i, request.st[i]);
        st := st[i := request.st[i]];
        stSpace := CopyInto(stSpace, 16 * i, request.st[i]);
        ftw := WithTag(ftw, i);
      }
    }
  }

  const TOP_MASK: bv16 := 0x3800

  /**
   * What the general block holds, register by register: the requested values under their numbers, the engine's stack
   * pointer and code base, the data region in an index register that was left at zero, and the flags.
   */
  predicate WritesGprs(request: Registers, dataPointers: bool, ready: ChildReady, r: UserRegs) {
    var g := request.gpr;
    && r.rax == g[0] && r.rbx == g[1] && r.rcx == g[2] && r.rdx == g[3]
    && r.rsi == (if dataPointers && g[4] == 0 then ready.dataBase else g[4])
    && r.rdi == (if dataPointers && g[5] == 0 then ready.dataBase else g[5])
    && r.rbp == g[6] && r.rsp == ready.initialRsp
    && r.r8 == g[8] && r.r9 == g[9] && r.r10 == g[10] && r.r11 == g[11]
    && r.r12 == g[12] && r.r13 == g[13] && r.r14 == g[14] && r.r15 == g[15]
    && r.rip == ready.codeBase && r.eflags == (request.rflags & 0x0CD5) | 0x202
  }

  /**
   * What the floating-point block holds: the requested control words, a status word with a cleared stack top, and every
   * register in its slot of 16 bytes, least significant byte first. An x87 slot that was not asked for keeps its bytes.
   */
  ghost predicate WritesFpu(request: Registers, initial: FpuRegs, fpu: FpuRegs) {
    && fpu.cwd == request.fpuControlWord && fpu.mxcsr == request.mxcsr && fpu.swd == initial.swd & 0xC7FF
    && (forall i :: 0 <= i < 16 ==>
          LittleEndian(fpu.xmmSpace[16 * i..16 * i + 8]) == request.xmm[i].low
          && LittleEndian(fpu.xmmSpace[16 * i + 8..16 * i + 16]) == request.xmm[i].high)
    && (forall i :: 0 <= i < 8 ==>
          fpu.stSpace[16 * i..16 * i + 10] ==
            if Tagged(request.fpuTagWord, i) then request.st[i] else initial.stSpace[16 * i..16 * i + 10])
  }

  lemma SlotsHold(request: Registers, initial: FpuRegs, fpu: FpuRegs)
    requires fpu.cwd == request.fpuControlWord && fpu.mxcsr == request.mxcsr && fpu.swd == initial.swd & !TOP_MASK
    requires forall i :: 0 <= i < 16 ==> XmmAt(fpu.xmmSpace, i) == request.xmm[i]
    requires forall i :: 0 <= i < 8 ==>
      StAt(fpu.stSpace, i) == if Tagged(request.fpuTagWord, i) then request.st[i] else StAt(initial.stSpace, i)
    ensures WritesFpu(request, initial, fpu)
  {
    hide LittleEndian, Tagged;
    forall i | 0 <= i < 16
      ensures LittleEndian(fpu.xmmSpace[16 * i..16 * i + 8]) == request.xmm[i].low
      ensures LittleEndian(fpu.xmmSpace[16 * i + 8..16 * i + 16]) == request.xmm[i].high
    {
      assert XmmAt(fpu.xmmSpace, i) == request.xmm[i];
    }
    forall i | 0 <= i < 8
      ensures fpu.stSpace[16 * i..16 * i + 10] ==
        if Tagged(request.fpuTagWord, i) then request.st[i] else initial.stSpace[16 * i..16 * i + 10]
    {
      assert StAt(fpu.stSpace, i) == if Tagged(request.fpuTagWord, i) then request.st[i] else StAt(initial.stSpace, i);
    }
  }

  /** The abridged tag word has one bit a register, the lowest for ST0. */
  lemma TagBitsInOrder(tags: bv8)
    ensures (Tagged(tags, 0) <==> tags & 0x01 != 0) && (Tagged(tags, 1) <==> tags & 0x02 != 0)
    ensures (Tagged(tags, 2) <==> tags & 0x04 != 0) && (Tagged(tags, 3) <==> tags & 0x08 != 0)
    ensures (Tagged(tags, 4) <==> tags & 0x10 != 0) && (Tagged(tags, 5) <==> tags & 0x20 != 0)
    ensures (Tagged(tags, 6) <==> tags & 0x40 != 0) && (Tagged(tags, 7) <==> tags & 0x80 != 0)
  {
  }

  /** Bits of MXCSR that the processor reports as supported, or those of the first SSE processors if it reports none. */
  lemma SupportedBits(fpu: FpuRegs)
    ensures fpu.mxcsrMask == 0 ==> SupportedMxcsr(fpu) == 0xFFBF
    ensures fpu.mxcsrMask != 0 ==> SupportedMxcsr(fpu) == fpu.mxcsrMask
  {
  }

  /**
   * Prepares the blocks that are written to the stopped child, and the seed that the result records.
   * Reading the blocks back gives the recorded seed, but for the stack-top field, which is written as zero. So what is
   * recorded is what runs exactly when that field of the initial status word is zero, as it is after fninit.
   */
  method Prepare(request: Registers, dataPointers: bool, ready: ChildReady, initial: FpuRegs)
    returns (seed: Option<Registers>, registers: UserRegs, fpu: FpuRegs)
    ensures seed == None <==> request.mxcsr & !SupportedMxcsr(initial) != 0
    ensures seed.Some? ==> IsRecordedSeed(request, dataPointers, ready, initial, seed.value)
    ensures seed.Some? ==>
      ReadSnapshot(registers, fpu) == seed.value.(fpuStatusWord := seed.value.fpuStatusWord & !TOP_MASK)
    ensures seed.Some? ==> (ReadSnapshot(registers, fpu) == seed.value <==> initial.swd & TOP_MASK == 0)
    ensures seed.Some? ==> WritesGprs(request, dataPointers, ready, registers) && WritesFpu(request, initial, fpu)
  {
    hide WritesGprs, WritesFpu, StAt, XmmAt, TagUpTo, SeedFlags, Low8, Tagged, EffectivePointer, FpuView, ReadSnapshot,
      GprView, SupportedMxcsr;
    registers := UserRegs(0, 0, 0, 0, 0, 0, 0, 0, 0, 0, 0, 0, 0, 0, 0, 0, 0, 0);
    fpu := initial;
    if request.mxcsr & !SupportedMxcsr(initial) != 0 {
      return None, registers, fpu;
    }
    var recorded;
    recorded, fpu := PrepareFpu(request, initial);
    BlockHolds(request, initial, recorded, fpu);
    var gpr;
    registers, gpr := PrepareGprs(request, dataPointers, ready);
    SnapshotOfBlocks(registers, fpu, recorded);
    seed := Some(recorded.(gpr := gpr, rip := ready.codeBase, rflags := SeedFlags(request.rflags)));
    RecordedSeedRuns(seed.value, registers, fpu);
  }

  /** The general part of the blocks and of the recorded seed. */
  method PrepareGprs(request: Registers, dataPointers: bool, ready: ChildReady) returns (registers: UserRegs, gpr: Gprs)
    ensures gpr == request.gpr[RSP := ready.initialRsp]
                              [RDI := EffectivePointer(request.gpr[RDI], dataPointers, ready.dataBase)]
                              [RSI := EffectivePointer(request.gpr[RSI], dataPointers, ready.dataBase)]
    ensures GprView(registers) == gpr && registers.rip == ready.codeBase
    ensures registers.eflags == SeedFlags(request.rflags) && registers.eflags & !RFLAGS_TRAP_FLAG == registers.eflags
    ensures WritesGprs(request, dataPointers, ready, registers)
  {
    hide SeedFlags;
    SeedFlagsLiteral(request.rflags);
    var rdi := EffectivePointer(request.gpr[RDI], dataPointers, ready.dataBase);
    var rsi := EffectivePointer(request.gpr[RSI], dataPointers, ready.dataBase);
    var g := request.gpr;
    registers := UserRegs(g[RAX], g[RBX], g[RCX], g[RDX], rsi, rdi, g[RBP], ready.initialRsp,
      g[8], g[9], g[10], g[11], g[12], g[13], g[14], g[15], ready.codeBase, SeedFlags(request.rflags));
    gpr := g[RSP := ready.initialRsp][RDI := rdi][RSI := rsi];
    assert GprView(registers) == gpr;
    SeedFlagsKeepTrapClear(request.rflags);
  }

  lemma SeedFlagsLiteral(requested: bv64)
    ensures SeedFlags(requested) == (requested & 0x0CD5) | 0x202
  {
  }

  /** The floating-point view does not look at the general registers. */
  lemma ViewKeepsFpu(fpu: FpuRegs, recorded: Registers, gpr: Gprs, rip: u64, rflags: bv64)
    requires FpuView(fpu, recorded) == recorded.(fpuStatusWord := recorded.fpuStatusWord & !TOP_MASK)
    ensures FpuView(fpu, ZERO_REGISTERS.(gpr := gpr, rip := rip, rflags := rflags))
      == recorded.(gpr := gpr, rip := rip, rflags := rflags, fpuStatusWord := recorded.fpuStatusWord & !TOP_MASK)
  {
    hide XmmAt, StAt, Low8;
    var view := FpuView(fpu, recorded);
    var other := FpuView(fpu, ZERO_REGISTERS.(gpr := gpr, rip := rip, rflags := rflags));
    assert view.xmm == other.xmm;
    assert view.st == other.st;
  }

  lemma SnapshotOfBlocks(registers: UserRegs, fpu: FpuRegs, recorded: Registers)
    requires FpuView(fpu, recorded) == recorded.(fpuStatusWord := recorded.fpuStatusWord & !TOP_MASK)
    requires registers.eflags & !RFLAGS_TRAP_FLAG == registers.eflags
    ensures ReadSnapshot(registers, fpu) ==
      recorded.(gpr := GprView(registers), rip := registers.rip, rflags := registers.eflags,
                fpuStatusWord := recorded.fpuStatusWord & !TOP_MASK)
  {
    hide FpuView, GprView;
    ViewKeepsFpu(fpu, recorded, GprView(registers), registers.rip, registers.eflags);
  }

  /** The floating-point part of the blocks and of the recorded seed. */
  method PrepareFpu(request: Registers, initial: FpuRegs) returns (recorded: Registers, fpu: FpuRegs)
    ensures recorded == request.(st := recorded.st, fpuStatusWord := initial.swd,
      fpuTagWord := Low8(TagUpTo(initial.ftw, request.fpuTagWord, 8)))
    ensures forall k :: 0 <= k < 8 ==>
      recorded.st[k] == if Tagged(request.fpuTagWord, k) then request.st[k] else StAt(initial.stSpace, k)
    ensures FpuView(fpu, recorded) == recorded.(fpuStatusWord := recorded.fpuStatusWord & !TOP_MASK)
  {
    hide StAt, XmmAt, TagUpTo, Low8, Tagged;
    fpu := initial.(cwd := request.fpuControlWord, mxcsr := request.mxcsr);
    recorded := SnapshotFpu(fpu, request);
    var xmmSpace := WriteXmms(request.xmm, fpu.xmmSpace);
    recorded := recorded.(xmm := request.xmm);
    var st, stSpace, ftw := WriteSts(request, fpu, recorded.st);
    recorded := recorded.(st := st, fpuTagWord := Low8(ftw));
    fpu := fpu.(xmmSpace := xmmSpace, stSpace := stSpace, ftw := ftw, swd := fpu.swd & !TOP_MASK);
    assert FpuView(fpu, recorded).xmm == recorded.xmm;
    assert FpuView(fpu, recorded).st == recorded.st;
  }

  /** A block whose view is the recorded seed holds what was requested. */
  lemma BlockHolds(request: Registers, initial: FpuRegs, recorded: Registers, fpu: FpuRegs)
    requires recorded == request.(st := recorded.st, fpuStatusWord := initial.swd, fpuTagWord := recorded.fpuTagWord)
    requires forall k :: 0 <= k < 8 ==>
      recorded.st[k] == if Tagged(request.fpuTagWord, k) then request.st[k] else StAt(initial.stSpace, k)
    requires FpuView(fpu, recorded) == recorded.(fpuStatusWord := recorded.fpuStatusWord & !TOP_MASK)
    ensures WritesFpu(request, initial, fpu)
  {
    hide StAt, XmmAt, Low8, Tagged, WritesFpu;
    var view := FpuView(fpu, recorded);
    assert forall i :: 0 <= i < 16 ==> view.xmm[i] == XmmAt(fpu.xmmSpace, i);
    assert forall i :: 0 <= i < 8 ==> view.st[i] == StAt(fpu.stSpace, i);
    SlotsHold(request, initial, fpu);
  }

  /** The run starts with the requested status flags, the reserved bit and the interrupt flag, and no other flag. */
  lemma SeedFlagsMeaning(requested: bv64)
    ensures SeedFlags(requested) & RFLAGS_STATUS_MASK == requested & RFLAGS_STATUS_MASK
    ensures SeedFlags(requested) & !RFLAGS_STATUS_MASK == RFLAGS_RESERVED_BIT1 | RFLAGS_INTERRUPT_FLAG
  {
  }

  lemma SeedFlagsKeepTrapClear(flags: bv64)
    ensures SeedFlags(flags) & !RFLAGS_TRAP_FLAG == SeedFlags(flags)
  {
  }

  /** Clearing the stack-top field changes nothing exactly when it is zero. */
  lemma RecordedSeedRuns(seed: Registers, registers: UserRegs, fpu: FpuRegs)
    requires ReadSnapshot(registers, fpu) == seed.(fpuStatusWord := seed.fpuStatusWord & !TOP_MASK)
    ensures ReadSnapshot(registers, fpu) == seed <==> seed.fpuStatusWord & TOP_MASK == 0
  {
    hide ReadSnapshot;
    ClearedBits(seed.fpuStatusWord);
  }

  lemma ClearedBits(x: bv16)
    ensures x & !0x3800 == x <==> x & 0x3800 == 0
  {
  }

  /** With a stack-top field of seven, the recorded seed keeps the field and what runs has it cleared. */
  method StackTopInstance() returns (recorded: Registers, shown: Registers)
    ensures recorded.fpuStatusWord == 0x3800 && shown == recorded.(fpuStatusWord := 0) && shown != recorded
  {
    hide ReadSnapshot, StAt, TagUpTo, Low8, SeedFlags, Tagged;
    var initial := FpuRegs(DEFAULT_FPU_CONTROL_WORD, 0x3800, 0, DEFAULT_MXCSR, 0xFFFF,
      seq<u8>(256, _ => 0), seq<u8>(128, _ => 0));
    var seed, registers, fpu := Prepare(ZERO_REGISTERS, true, ChildReady(0x1000, 0x2000, 0x3000), initial);
    recorded, shown := seed.value, ReadSnapshot(registers, fpu);
  }

  /** What is recorded of the general registers: a pointer that was typed is kept, and only a zero one is replaced. */
  lemma RecordedGprs(request: Registers, dataPointers: bool, ready: ChildReady, fpu: FpuRegs, seed: Registers)
    requires IsRecordedSeed(request, dataPointers, ready, fpu, seed)
    ensures forall i :: 0 <= i < 16 && i != 4 && i != 5 && i != 7 ==> seed.gpr[i] == request.gpr[i]
    ensures seed.gpr[7] == ready.initialRsp && seed.rip == ready.codeBase && seed.rflags == (request.rflags & 0x0CD5) | 0x202
    ensures seed.gpr[4] == if dataPointers && request.gpr[4] == 0 then ready.dataBase else request.gpr[4]
    ensures seed.gpr[5] == if dataPointers && request.gpr[5] == 0 then ready.dataBase else request.gpr[5]
  {
    hide StAt, Low8, TagUpTo, Tagged, SeedFlags;
    SeedFlagsLiteral(request.rflags);
  }

  /** A snapshot shows each general register under its number, and the flags without the trap flag. */
  lemma SnapshotGprs(r: UserRegs, fpu: FpuRegs)
    ensures var gpr := ReadSnapshot(r, fpu).gpr;
      && gpr[0] == r.rax && gpr[1] == r.rbx && gpr[2] == r.rcx && gpr[3] == r.rdx
      && gpr[4] == r.rsi && gpr[5] == r.rdi && gpr[6] == r.rbp && gpr[7] == r.rsp
      && gpr[8] == r.r8 && gpr[9] == r.r9 && gpr[10] == r.r10 && gpr[11] == r.r11
      && gpr[12] == r.r12 && gpr[13] == r.r13 && gpr[14] == r.r14 && gpr[15] == r.r15
    ensures ReadSnapshot(r, fpu).rip == r.rip
  {
    hide StAt, XmmAt, Low8, GprView;
    GprNumbers(r);
    assert ReadSnapshot(r, fpu).gpr == GprView(r);
  }

  lemma GprNumbers(r: UserRegs)
    ensures var gpr := GprView(r);
      && gpr[0] == r.rax && gpr[1] == r.rbx && gpr[2] == r.rcx && gpr[3] == r.rdx
      && gpr[4] == r.rsi && gpr[5] == r.rdi && gpr[6] == r.rbp && gpr[7] == r.rsp
      && gpr[8] == r.r8 && gpr[9] == r.r9 && gpr[10] == r.r10 && gpr[11] == r.r11
      && gpr[12] == r.r12 && gpr[13] == r.r13 && gpr[14] == r.r14 && gpr[15] == r.r15
  {
  }

  lemma SnapshotFlags(r: UserRegs, fpu: FpuRegs)
    ensures ReadSnapshot(r, fpu).rflags == r.eflags & 0xFFFF_FFFF_FFFF_FEFF
  {
    hide StAt, XmmAt, Low8, GprView;
  }

  // ---------------------------------------------------------------- from the typed fields to the first instruction

  lemma LowTag(ftw: bv16, i: nat, j: nat)
    requires i < 8 && j < 8
    ensures Tagged(Low8(WithTag(ftw, i)), j) <==> i == j || Tagged(Low8(ftw), j)
  {
    TagOne(Low8(ftw), i, j);
    LowOr(ftw, TagBit(i));
  }

  lemma LowOr(ftw: bv16, bit: bv8)
    ensures Low8(ftw | bit as bv16) == Low8(ftw) | bit
  {
  }

  lemma {:induction false} RecordedTags(initial: bv16, tags: bv8, n: nat, i: nat)
    requires n <= 8 && i < 8
    ensures Tagged(Low8(TagUpTo(initial, tags, n)), i) <==> Tagged(Low8(initial), i) || (i < n && Tagged(tags, i))
  {
    hide Tagged, Low8, WithTag;
    if n > 0 {
      RecordedTags(initial, tags, n - 1, i);
      LowTag(TagUpTo(initial, tags, n - 1), n - 1, i);
    }
  }

  /**
   * The x87 registers that the run starts with, in terms of what was typed: a well-formed, non-blank text gives the value
   * and the tag of its register; any other register keeps what the child's own initialization left, tag included.
   */
  lemma TypedRegistersRun(f: Floats, fields: SeedFields, dataPointers: bool, ready: ChildReady, initial: FpuRegs,
    seed: Registers, i: nat)
    requires IsRecordedSeed(RegistersOf(f, fields), dataPointers, ready, initial, seed) && i < 8
    ensures var text := fields.st[i];
      var typed := text != "" && ComposeSt(f, text).Some?;
      && seed.st[i] == (if typed then ComposeSt(f, text).value else StAt(initial.stSpace, i))
      && (Tagged(seed.fpuTagWord, i) <==> typed || Tagged(Low8(initial.ftw), i))
  {
    hide Tagged, Low8, TagsTo, TagUpTo, SeedText.ComposeSt, StAt;
    TagsMark(f, fields.st, 8, i);
    RecordedTags(initial.ftw, RegistersOf(f, fields).fpuTagWord, 8, i);
  }
}
