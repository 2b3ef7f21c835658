/** Fixed-width integers, result types and the machine state shared by every part of the model. */
module Common {
  const TWO_64: int := 0x1_0000_0000_0000_0000

  type u8 = x: int | 0 <= x < 0x100
  type u32 = x: int | 0 <= x < 0x1_0000_0000
  type u64 = x: int | 0 <= x < TWO_64

  datatype Option<+T> = None | Some(value: T)

  datatype Result<+T, +E> = Ok(value: T) | Err(error: E)

  function Min(a: int, b: int): (m: int)
    ensures m <= a && m <= b && (m == a || m == b)
  {
    if a <= b then a else b
  }

  function Max(a: int, b: int): (m: int)
    ensures a <= m && b <= m && (m == a || m == b)
  {
    if a <= b then b else a
  }
}

/** The register file that a single step records. */
module MachineState {
  import opened Common

  const GPR_COUNT := 16
  const RAX := 0
  const RBX := 1
  const RCX := 2
  const RDX := 3
  const RSI := 4
  const RDI := 5
  const RBP := 6
  const RSP := 7

  const DEFAULT_MXCSR: bv32 := 0x1F80
  const DEFAULT_FPU_CONTROL_WORD: bv16 := 0x037F

  // The seven status flags a seed may carry: CF, PF, AF, ZF, SF, DF and OF.
  const RFLAGS_STATUS_MASK: bv64 := 0x0CD5
  const RFLAGS_TRAP_FLAG: bv64 := 0x100
  const RFLAGS_INTERRUPT_FLAG: bv64 := 0x200
  const RFLAGS_RESERVED_BIT1: bv64 := 0x2

  type Gprs = s: seq<u64> | |s| == GPR_COUNT witness seq(GPR_COUNT, _ => 0)
  /** One XMM register as its low and high halves. */
  datatype Xmm = Xmm(low: u64, high: u64)

  const ZERO_XMM := Xmm(0, 0)
  type Xmms = s: seq<Xmm> | |s| == 16 witness seq<Xmm>(16, _ => ZERO_XMM)
  type St80 = s: seq<u8> | |s| == 10 witness [0, 0, 0, 0, 0, 0, 0, 0, 0, 0]
  const ZERO_ST80: St80 := [0, 0, 0, 0, 0, 0, 0, 0, 0, 0]
  type Sts = s: seq<St80> | |s| == 8 witness seq<St80>(8, _ => ZERO_ST80)

  datatype Registers = Registers(
    gpr: Gprs, rip: u64, rflags: bv64,
    xmm: Xmms, mxcsr: bv32,
    st: Sts, fpuControlWord: bv16, fpuStatusWord: bv16, fpuTagWord: bv8)

  const ZERO_REGISTERS: Registers := Registers(
    [0, 0, 0, 0, 0, 0, 0, 0, 0, 0, 0, 0, 0, 0, 0, 0], 0, 0,
    [ZERO_XMM, ZERO_XMM, ZERO_XMM, ZERO_XMM, ZERO_XMM, ZERO_XMM, ZERO_XMM, ZERO_XMM,
     ZERO_XMM, ZERO_XMM, ZERO_XMM, ZERO_XMM, ZERO_XMM, ZERO_XMM, ZERO_XMM, ZERO_XMM], DEFAULT_MXCSR,
    [ZERO_ST80, ZERO_ST80, ZERO_ST80, ZERO_ST80, ZERO_ST80, ZERO_ST80, ZERO_ST80, ZERO_ST80],
    DEFAULT_FPU_CONTROL_WORD, 0, 0)
}
