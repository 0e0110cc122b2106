/** A thread's registers, their layout in a Win32 CONTEXT record, and the handful of x86
    instructions that the kernel injects into a process. */
module Cpu {
  import opened Words
  import opened ByteMemory

  /** The thread state that GetThreadContext and SetThreadContext move with all context flags on.
      `fpu` holds the debug and floating-point areas, `ext` the extended registers. */
  datatype Regs = Regs(
    fpu: seq<byte>,
    gs: u32, fs: u32, es: u32, ds: u32,
    edi: u32, esi: u32, ebx: u32, edx: u32, ecx: u32, eax: u32,
    ebp: u32, eip: u32, cs: u32, eflags: u32, esp: u32, ss: u32,
    ext: seq<byte>)

  const FPU_BYTES := 136
  const EXT_BYTES := 512
  const CONTEXT_BYTES := 716

  predicate RegsOk(r: Regs)
  {
    |r.fpu| == FPU_BYTES && |r.ext| == EXT_BYTES
  }

  /** FULL | FLOATING_POINT | DEBUG_REGISTERS | EXTENDED_REGISTERS. */
  const CONTEXT_FLAGS: u32 := 0x1003F

  function RegWords(r: Regs): (ws: seq<u32>)
    ensures |ws| == 16
  {
    [r.gs, r.fs, r.es, r.ds, r.edi, r.esi, r.ebx, r.edx, r.ecx, r.eax, r.ebp, r.eip, r.cs, r.eflags, r.esp, r.ss]
  }

  /** The bytes of the CONTEXT record. */
  function EncodeContext(r: Regs): (bs: seq<byte>)
    requires RegsOk(r)
    ensures |bs| == CONTEXT_BYTES
  {
    Le32(CONTEXT_FLAGS) + r.fpu + EncodeWords(RegWords(r)) + r.ext
  }

  function DecodeContext(bs: seq<byte>): (r: Regs)
    requires |bs| == CONTEXT_BYTES
    ensures RegsOk(r)
  {
    var w := DecodeWords(bs[140..204]);
    Regs(bs[4..140], w[0], w[1], w[2], w[3], w[4], w[5], w[6], w[7], w[8], w[9], w[10], w[11], w[12], w[13],
         w[14], w[15], bs[204..])
  }

  /** A register's word at a byte offset of the record. */
  predicate WordAt(bs: seq<byte>, at: nat, w: u32) { at + 4 <= |bs| && bs[at..at + 4] == Le32(w) }

  /** The record is the Win32 CONTEXT: where each register lies in it. */
  lemma ContextLayout(r: Regs)
    requires RegsOk(r)
    ensures var bs := EncodeContext(r); SegmentsAt(bs, r) && IntegersAt(bs, r) && ControlAt(bs, r)
  {
    SegmentLayout(r);
    IntegerLayout(r);
    ControlLayout(r);
  }

  predicate SegmentsAt(bs: seq<byte>, r: Regs)
  {
    WordAt(bs, 0x8C, r.gs) && WordAt(bs, 0x90, r.fs) && WordAt(bs, 0x94, r.es) && WordAt(bs, 0x98, r.ds)
  }

  predicate IntegersAt(bs: seq<byte>, r: Regs)
  {
    && WordAt(bs, 0x9C, r.edi) && WordAt(bs, 0xA0, r.esi) && WordAt(bs, 0xA4, r.ebx)
    && WordAt(bs, 0xA8, r.edx) && WordAt(bs, 0xAC, r.ecx) && WordAt(bs, 0xB0, r.eax)
  }

  predicate ControlAt(bs: seq<byte>, r: Regs)
  {
    && WordAt(bs, 0xB4, r.ebp) && WordAt(bs, 0xB8, r.eip) && WordAt(bs, 0xBC, r.cs)
    && WordAt(bs, 0xC0, r.eflags) && WordAt(bs, 0xC4, r.esp) && WordAt(bs, 0xC8, r.ss)
  }

  lemma SegmentLayout(r: Regs)
    requires RegsOk(r)
    ensures SegmentsAt(EncodeContext(r), r)
  {
    RegisterAt(r, 0, 0x8C, r.gs);
    RegisterAt(r, 1, 0x90, r.fs);
    RegisterAt(r, 2, 0x94, r.es);
    RegisterAt(r, 3, 0x98, r.ds);
  }

  lemma IntegerLayout(r: Regs)
    requires RegsOk(r)
    ensures IntegersAt(EncodeContext(r), r)
  {
    RegisterAt(r, 4, 0x9C, r.edi);
    RegisterAt(r, 5, 0xA0, r.esi);
    RegisterAt(r, 6, 0xA4, r.ebx);
    RegisterAt(r, 7, 0xA8, r.edx);
    RegisterAt(r, 8, 0xAC, r.ecx);
    RegisterAt(r, 9, 0xB0, r.eax);
  }

  lemma ControlLayout(r: Regs)
    requires RegsOk(r)
    ensures ControlAt(EncodeContext(r), r)
  {
    RegisterAt(r, 10, 0xB4, r.ebp);
    RegisterAt(r, 11, 0xB8, r.eip);
    RegisterAt(r, 12, 0xBC, r.cs);
    RegisterAt(r, 13, 0xC0, r.eflags);
    RegisterAt(r, 14, 0xC4, r.esp);
    RegisterAt(r, 15, 0xC8, r.ss);
  }

  lemma RegisterAt(r: Regs, j: nat, at: nat, w: u32)
    requires RegsOk(r) && j < 16 && at == 140 + 4 * j && w == RegWords(r)[j]
    ensures WordAt(EncodeContext(r), at, w)
  {
    var bs, ws := EncodeContext(r), EncodeWords(RegWords(r));
    assert bs[140..204] == ws;
    EncodeAt(RegWords(r), j);
    assert bs[at..at + 4] == bs[140..204][4 * j..4 * j + 4];
  }

  lemma ContextRoundTrip(r: Regs)
    requires RegsOk(r)
    ensures DecodeContext(EncodeContext(r)) == r
  {
    var bs := EncodeContext(r);
    assert bs[4..140] == r.fpu;
    assert bs[140..204] == EncodeWords(RegWords(r));
    assert bs[204..] == r.ext;
    WordsRoundTrip(RegWords(r));
  }

  /** Equal in every register but GS. */
  predicate SameButGs(r: Regs, q: Regs)
  {
    r == q.(gs := r.gs)
  }

  datatype Instr =
    | PopGs
    | RetN(n: u32)
    | Ret
    | MovEbx(imm: u32)
    | MovEax(imm: u32)
    | Int80
    | Other

  /** Decodes the instruction at `eip`. */
  function Fetch(m: Memory, eip: u32): Instr
  {
    var b0, b1 := m[eip], m[Add(eip, 1)];
    if b0 == 0x0F && b1 == 0xA9 then PopGs
    else if b0 == 0xC2 then RetN(FromLe32([b1, m[Add(eip, 2)], 0, 0]))
    else if b0 == 0xC3 then Ret
    else if b0 == 0xBB then MovEbx(Word(m, Add(eip, 1)))
    else if b0 == 0xB8 then MovEax(Word(m, Add(eip, 1)))
    else if b0 == 0xCD && b1 == 0x80 then Int80
    else Other
  }

  predicate Executable(i: Instr)
  {
    i.PopGs? || i.RetN? || i.Ret? || i.MovEbx? || i.MovEax?
  }

  /** Executes one instruction. A 32-bit `pop gs` pops four bytes and keeps the low sixteen bits. */
  function Exec(r: Regs, m: Memory): Regs
    requires Executable(Fetch(m, r.eip))
  {
    match Fetch(m, r.eip)
    case PopGs => r.(gs := Word(m, r.esp) % 0x1_0000, esp := Add(r.esp, 4), eip := Add(r.eip, 2))
    case RetN(n) => r.(eip := Word(m, r.esp), esp := Add(Add(r.esp, 4), n))
    case Ret => r.(eip := Word(m, r.esp), esp := Add(r.esp, 4))
    case MovEbx(v) => r.(ebx := v, eip := Add(r.eip, 5))
    case MovEax(v) => r.(eax := v, eip := Add(r.eip, 5))
  }
}
