/** What the kernel does to a thread when it resumes it or delivers a signal to it:
    the frames it writes on the user stack, and sigreturn, which reads one back. */
module SignalFrames {
  import opened Words
  import opened ByteMemory
  import opened Cpu

  /** A sigset_t: signal `s` is bit `s - 1` of its 64 bits. */
  datatype SigSet = SigSet(lo: u32, hi: u32)

  datatype Action = Action(handler: u32, flags: u32, mask: SigSet)

  /** One thread of a process and the process's signal state. */
  datatype State = State(
    regs: Regs, mem: Memory, mask: SigSet,
    segGs: u32,
    pending: seq<bool>,
    actions: seq<Action>)

  const NSIG := 64
  const SIG_DFL: u32 := 0
  const SIG_IGN: u32 := 1
  const NR_SIGRETURN: u32 := 119

  predicate StateOk(s: State)
  {
    RegsOk(s.regs) && |s.pending| == NSIG && |s.actions| == NSIG && !s.pending[0]
  }

  predicate HasSig(m: SigSet, sig: nat)
    requires 1 <= sig < NSIG
  {
    if sig <= 32 then Bit(m.lo, sig - 1) else Bit(m.hi, sig - 33)
  }

  function AddSig(m: SigSet, sig: nat): (r: SigSet)
    requires 1 <= sig < NSIG
  {
    Pow2Of32();
    if sig <= 32 then
      SetBitFits(m.lo, sig - 1, 32);
      m.(lo := SetBit(m.lo, sig - 1))
    else
      SetBitFits(m.hi, sig - 33, 32);
      m.(hi := SetBit(m.hi, sig - 33))
  }

  /** Signal `s` is the bit of the set's first or second word that counts 2^((s - 1) % 32). */
  lemma HasSigIs(m: SigSet, sig: nat) returns (q: nat, lo: nat)
    requires 1 <= sig < NSIG
    ensures var bit := Pow2(if sig <= 32 then sig - 1 else sig - 33);
            && lo < bit && (if sig <= 32 then m.lo else m.hi) == bit * q + lo
            && (HasSig(m, sig) <==> q % 2 == 1)
  {
    if sig <= 32 {
      q, lo := BitIs(m.lo, sig - 1);
    } else {
      q, lo := BitIs(m.hi, sig - 33);
    }
  }

  lemma AddSigAddsOne(m: SigSet, sig: nat, other: nat)
    requires 1 <= sig < NSIG && 1 <= other < NSIG
    ensures HasSig(AddSig(m, sig), other) <==> other == sig || HasSig(m, other)
  {
    if sig <= 32 && other <= 32 {
      SetBitSetsOneBit(m.lo, sig - 1, other - 1);
    } else if sig > 32 && other > 32 {
      SetBitSetsOneBit(m.hi, sig - 33, other - 33);
    }
  }

  // ---- The GS-restoring stub -------------------------------------------------------------

  const STUB_BYTES: u32 := 14

  /** segGs, return address, `pop gs`, `ret 6` and one spare byte, packed without padding. */
  function StubBytes(gs: u32, eip: u32): (bs: seq<byte>)
    ensures |bs| == STUB_BYTES
  {
    Le32(gs) + Le32(eip) + [0x0F, 0xA9] + [0xC2, 0x06, 0x00, 0x00]
  }

  /** ResumeKeowProcess with GS restoration: push the stub and point Eip into it. */
  function Resume(s: State): State
  {
    var base := Sub(s.regs.esp, STUB_BYTES);
    s.(mem := Write(s.mem, base, StubBytes(s.segGs, s.regs.eip)),
       regs := s.regs.(esp := base, eip := Add(base, 8)))
  }

  /** The memory at `base` holds a stub that has not run yet. */
  ghost predicate StubAt(m: Memory, base: u32, gs: u32, eip: u32)
  {
    Read(m, base, STUB_BYTES) == StubBytes(gs, eip)
  }

  lemma StubPop(m: Memory, base: u32, gs: u32, eip: u32, r: Regs)
    requires StubAt(m, base, gs, eip) && r.eip == Add(base, 8) && r.esp == base
    ensures Fetch(m, r.eip) == PopGs
    ensures Exec(r, m) == r.(gs := gs % 0x1_0000, esp := Add(base, 4), eip := Add(base, 10))
  {
    var bs := StubBytes(gs, eip);
    assert m[Add(base, 8)] == Read(m, base, STUB_BYTES)[8] == 0x0F;
    assert m[Add(base, 9)] == Read(m, base, STUB_BYTES)[9] == 0xA9;
    ReadPart(m, base, STUB_BYTES, 0, 4);
    assert bs[0..4] == Le32(gs);
    Le32RoundTrip(gs);
  }

  lemma StubRet(m: Memory, base: u32, gs: u32, eip: u32, r: Regs)
    requires Read(m, Add(base, 4), 10) == StubBytes(gs, eip)[4..]
    requires r.eip == Add(base, 10) && r.esp == Add(base, 4)
    ensures Fetch(m, r.eip) == RetN(6)
    ensures Exec(r, m) == r.(esp := Add(base, 14), eip := eip)
  {
    var bs := StubBytes(gs, eip);
    var t := Read(m, Add(base, 4), 10);
    assert m[Add(base, 10)] == t[6] == 0xC2;
    assert m[Add(base, 11)] == t[7] == 0x06;
    assert m[Add(base, 12)] == t[8] == 0x00;
    ReadPart(m, Add(base, 4), 10, 0, 4);
    assert t[0..4] == Le32(eip);
    Le32RoundTrip(eip);
  }

  /** The injected bytes, executed from the modified context, bring every register back to its
      prior value and GS to the saved one, whatever the context (wrap-around included), and only
      the fourteen bytes below the original Esp were written. */
  lemma StubRestoresThread(s: State)
    ensures var t := Resume(s);
            && Fetch(t.mem, t.regs.eip) == PopGs
            && var r1 := Exec(t.regs, t.mem);
            && Fetch(t.mem, r1.eip) == RetN(6)
            && Exec(r1, t.mem) == s.regs.(gs := s.segGs % 0x1_0000)
    ensures forall x :: 0 <= x < TWO32 && !(1 <= Sub(s.regs.esp, x) <= 14)
              ==> Resume(s).mem[x] == s.mem[x]
  {
    var t := Resume(s);
    var base := t.regs.esp;
    ReadOfWrite(s.mem, base, StubBytes(s.segGs, s.regs.eip), 0, STUB_BYTES);
    StubPop(t.mem, base, s.segGs, s.regs.eip, t.regs);
    ReadPart(t.mem, base, STUB_BYTES, 4, 10);
    StubRet(t.mem, base, s.segGs, s.regs.eip, Exec(t.regs, t.mem));
  }

  // ---- The signal frame ------------------------------------------------------------------

  const FRAME_BYTES: u32 := 888
  const OFF_SIGINFO: u32 := 16
  const OFF_SAVED: u32 := 144
  const OFF_RESTORER: u32 := 868
  const SAVED_BYTES := 724
  const RESTORER_BYTES := 20

  /** `mov ebx, saved; mov eax, sigreturn; int 80`, then the bytes a debugger looks for. */
  function RestorerCode(saved: u32): (bs: seq<byte>)
    ensures |bs| == RESTORER_BYTES
  {
    [0xBB] + Le32(saved) + [0xB8] + Le32(NR_SIGRETURN) + [0xCD, 0x80, 0x58, 0xB8] + Le32(NR_SIGRETURN) + [0xCD, 0x80]
  }

  /** The SignalSaveState record: a CONTEXT and the signal mask. */
  function SavedBytes(r: Regs, mask: SigSet): (bs: seq<byte>)
    requires RegsOk(r)
    ensures |bs| == SAVED_BYTES
  {
    EncodeContext(r) + EncodeWords([mask.lo, mask.hi])
  }

  function SavedRegs(bs: seq<byte>): (r: Regs)
    requires |bs| == SAVED_BYTES
    ensures RegsOk(r)
  {
    DecodeContext(bs[..CONTEXT_BYTES])
  }

  function SavedMask(bs: seq<byte>): SigSet
    requires |bs| == SAVED_BYTES
  {
    var w := DecodeWords(bs[CONTEXT_BYTES..]);
    SigSet(w[0], w[1])
  }

  lemma SavedRoundTrip(r: Regs, mask: SigSet)
    requires RegsOk(r)
    ensures SavedRegs(SavedBytes(r, mask)) == r && SavedMask(SavedBytes(r, mask)) == mask
  {
    var bs := SavedBytes(r, mask);
    assert bs[..CONTEXT_BYTES] == EncodeContext(r);
    assert bs[CONTEXT_BYTES..] == EncodeWords([mask.lo, mask.hi]);
    ContextRoundTrip(r);
    WordsRoundTrip([mask.lo, mask.hi]);
  }

  predicate WantsSigInfo(a: Action) { Bit(a.flags, 2) }
  predicate OneShot(a: Action) { Bit(a.flags, 31) }
  predicate NoDefer(a: Action) { Bit(a.flags, 30) }

  /** SA_SIGINFO, SA_RESETHAND and SA_NODEFER. */
  lemma FlagsAre(a: Action)
    ensures WantsSigInfo(a) <==> a.flags / 0x4 % 2 == 1
    ensures OneShot(a) <==> a.flags / 0x8000_0000 % 2 == 1
    ensures NoDefer(a) <==> a.flags / 0x4000_0000 % 2 == 1
  {
    Pow2Values();
    var q2, lo2 := BitIs(a.flags, 2);
    assert a.flags / 0x4 == q2;
    var q31, lo31 := BitIs(a.flags, 31);
    assert a.flags / 0x8000_0000 == q31;
    var q30, lo30 := BitIs(a.flags, 30);
    assert a.flags / 0x4000_0000 == q30;
  }

  lemma Pow2Values()
    ensures Pow2(2) == 0x4 && Pow2(30) == 0x4000_0000 && Pow2(31) == 0x8000_0000
  {
    Pow2Of32();
    assert Pow2(32) == 2 * Pow2(31) && Pow2(31) == 2 * Pow2(30);
    assert Pow2(2) == 2 * Pow2(1) && Pow2(1) == 2 * Pow2(0);
  }

  function SigInfoBytes(a: Action, sig: u32): (bs: seq<byte>)
    ensures |bs| == 128
  {
    (if WantsSigInfo(a) then Le32(sig) else Le32(0)) + seq(124, (i: int) => 0 as byte)
  }

  function InfoPointer(a: Action, base: u32): u32
  {
    if WantsSigInfo(a) then Add(base, OFF_SIGINFO) else 0
  }

  function FrameBytes(base: u32, sig: u32, a: Action, r: Regs, mask: SigSet): (bs: seq<byte>)
    requires RegsOk(r)
    ensures |bs| == FRAME_BYTES
  {
    Le32(Add(base, OFF_RESTORER)) + Le32(sig) + Le32(InfoPointer(a, base)) + Le32(0)
    + SigInfoBytes(a, sig) + SavedBytes(r, mask) + RestorerCode(Add(base, OFF_SAVED))
  }

  /** The five words a handler looks at: return address, signal number, siginfo pointer, nothing, and the
      first word of the siginfo. */
  function ArgumentBytes(base: u32, sig: u32, a: Action): (bs: seq<byte>)
    ensures |bs| == 20
  {
    var info := if WantsSigInfo(a) then Add(base, 16) else 0;
    Le32(Add(base, 868)) + Le32(sig) + Le32(info) + Le32(0) + Le32(if WantsSigInfo(a) then sig else 0)
  }

  /** What lies where: the handler's view first, then the rest of the siginfo, the saved record and the restorer. */
  lemma FrameLayout(base: u32, sig: u32, a: Action, r: Regs, mask: SigSet)
    requires RegsOk(r)
    ensures var bs := FrameBytes(base, sig, a, r, mask);
            && bs[0..20] == ArgumentBytes(base, sig, a) && (forall i :: 20 <= i < 144 ==> bs[i] == 0)
            && bs[144..868] == SavedBytes(r, mask) && bs[868..888] == RestorerCode(Add(base, 144))
  {
  }

  /** What HandleSignal does with a signal, ptrace aside. */
  datatype Fate = Ends | Passes | Handled

  function FateOf(s: State, sig: nat): Fate
    requires StateOk(s) && 1 <= sig < NSIG
  {
    var h := s.actions[sig].handler;
    if sig == 9 then Ends
    else if sig == 19 then Passes
    else if HasSig(s.mask, sig) then Passes
    else if h == SIG_DFL then (if 17 <= sig <= 23 then Passes else Ends)
    else if h == SIG_IGN then Passes
    else Handled
  }

  /** The mask in force while the handler runs. */
  function HandlerMask(a: Action, sig: nat): SigSet
    requires 1 <= sig < NSIG
  {
    if NoDefer(a) then a.mask else AddSig(a.mask, sig)
  }

  /** HandleSignal for a signal with a user handler. */
  function Deliver(s: State, sig: nat): (t: State)
    requires StateOk(s) && 1 <= sig < NSIG
    ensures StateOk(t)
  {
    var a := s.actions[sig];
    var base := Sub(s.regs.esp, FRAME_BYTES);
    s.(mem := Write(s.mem, base, FrameBytes(base, sig, a, s.regs, s.mask)),
       mask := HandlerMask(a, sig),
       actions := s.actions[sig := a.(handler := if OneShot(a) then SIG_DFL else a.handler)],
       regs := s.regs.(eax := sig, edx := InfoPointer(a, base), ecx := 0, esp := base, eip := a.handler))
  }

  /** HandleSignal, whenever the process survives it. */
  function HandleSignal(s: State, sig: nat): (t: State)
    requires StateOk(s) && 1 <= sig < NSIG
    ensures StateOk(t)
  {
    if FateOf(s, sig) == Handled then Deliver(s, sig) else s
  }

  /** The lowest pending signal, or NSIG. */
  function LowestPending(p: seq<bool>): (sig: nat)
    ensures sig <= |p|
    ensures sig < |p| ==> p[sig]
    ensures forall i :: 0 <= i < sig ==> !p[i]
  {
    if p == [] then 0 else if p[0] then 0
    else
      var r := LowestPending(p[1..]);
      assert forall i :: 1 <= i < r + 1 ==> p[i] == p[1..][i - 1];
      r + 1
  }

  function ClearPending(s: State, sig: nat): (t: State)
    requires StateOk(s) && sig < NSIG
    ensures StateOk(t)
  {
    s.(pending := s.pending[sig := false])
  }

  /** One turn of the debugger loop when a signal is pending. */
  function Dispatch(s: State): State
    requires StateOk(s) && LowestPending(s.pending) < NSIG
  {
    var sig := LowestPending(s.pending);
    Resume(HandleSignal(ClearPending(s, sig), sig))
  }

  const SIGKILL := 9
  const SIGCHLD := 17
  const SIGCONT := 18
  const SIGSTOP := 19
  const SIGTSTP := 20
  const SIGTTIN := 21
  const SIGTTOU := 22
  const SIGURG := 23

  /** The handler of `sig` will run: it can be caught, is not masked and is the program's own. */
  predicate Catches(s: State, sig: nat)
    requires StateOk(s) && 1 <= sig < NSIG
  {
    sig != SIGKILL && sig != SIGSTOP && !HasSig(s.mask, sig)
    && s.actions[sig].handler != 0 && s.actions[sig].handler != 1
  }

  /** `sig` ends the process: it cannot be caught, or it is not masked, left to its default action, and that
      is neither to stop, to go on nor to do nothing. */
  predicate Fatal(s: State, sig: nat)
    requires StateOk(s) && 1 <= sig < NSIG
  {
    || sig == SIGKILL
    || (!HasSig(s.mask, sig) && s.actions[sig].handler == 0
        && sig !in [SIGCHLD, SIGCONT, SIGSTOP, SIGTSTP, SIGTTIN, SIGTTOU, SIGURG])
  }

  /** Which signals end the process and which reach a handler. */
  lemma FateExactly(s: State, sig: nat)
    requires StateOk(s) && 1 <= sig < NSIG
    ensures FateOf(s, sig) == Ends <==> Fatal(s, sig)
    ensures FateOf(s, sig) == Handled <==> Catches(s, sig)
  {
  }

  /** SIGTERM ends a process that has set nothing up, SIGCHLD does not. */
  lemma DefaultActions(s: State)
    requires StateOk(s) && s.actions[15].handler == 0 && s.actions[17].handler == 0
    requires !HasSig(s.mask, 15) && !HasSig(s.mask, 17)
    ensures FateOf(s, 15) == Ends && FateOf(s, 17) == Passes
  {
  }

  /** The lowest pending signal, if not fatal, is never pending afterwards, and the others still are. Its frame
      is pushed exactly if the program catches it; otherwise the thread goes on as if it had not been sent. */
  lemma DispatchExactly(s: State)
    requires StateOk(s) && LowestPending(s.pending) < NSIG && !Fatal(s, LowestPending(s.pending))
    ensures var sig := LowestPending(s.pending);
            && Dispatch(s).pending == s.pending[sig := false]
            && (Dispatch(s).regs.esp == Sub(s.regs.esp, 902) <==> Catches(s, sig))
            && (Catches(s, sig) ==> Dispatch(s) == Resume(Deliver(ClearPending(s, sig), sig)))
            && (!Catches(s, sig) ==> Dispatch(s) == Resume(s.(pending := s.pending[sig := false])))
  {
  }

  /** Signal 10 is pending, masked, and has a handler. */
  function MaskedTen(r: Regs, m: Memory): State
  {
    var none := SigSet(0, 0);
    State(r, m, AddSig(none, 10), 0, seq(NSIG, i => i == 10), seq(NSIG, i => Action(0x8048000, 0, none)))
  }

  /** A masked signal with a handler is forgotten, not kept for later. */
  lemma MaskedSignalIsDropped(r: Regs, m: Memory)
    requires RegsOk(r)
    ensures var s := MaskedTen(r, m);
            && StateOk(s) && LowestPending(s.pending) == 10 && s.actions[10].handler == 0x8048000
            && Dispatch(s) == Resume(s.(pending := seq(NSIG, i => false)))
  {
    var s := MaskedTen(r, m);
    AddSigAddsOne(SigSet(0, 0), 10, 10);
    assert s.pending[10];
    DispatchExactly(s);
    assert s.pending[10 := false] == seq(NSIG, i => false);
  }

  /** sigreturn: context and mask come from the record that Ebx points at; GS is resumed with the
      value it had on entry to the kernel. */
  function SigReturn(s: State): State
  {
    var bs := Read(s.mem, s.regs.ebx, SAVED_BYTES);
    Resume(s.(segGs := s.regs.gs, regs := SavedRegs(bs), mask := SavedMask(bs)))
  }

  /** Any other debug event: the context the kernel leaves behind is resumed with its GS. */
  function OtherEvent(s: State): State
  {
    Resume(s.(segGs := s.regs.gs))
  }

  /** The two instructions of the stub after a sigreturn leave the thread with the recorded registers, GS as on
      entry to the kernel, and the recorded mask. */
  lemma SigReturnGives(s: State)
    ensures var t, bs := SigReturn(s), Read(s.mem, s.regs.ebx, SAVED_BYTES);
            && t.mask == SavedMask(bs) && Fetch(t.mem, t.regs.eip) == PopGs
            && var r1 := Exec(t.regs, t.mem);
            && Fetch(t.mem, r1.eip) == RetN(6)
            && Exec(r1, t.mem) == SavedRegs(bs).(gs := s.regs.gs % 0x1_0000)
  {
    var bs := Read(s.mem, s.regs.ebx, SAVED_BYTES);
    StubRestoresThread(s.(segGs := s.regs.gs, regs := SavedRegs(bs), mask := SavedMask(bs)));
  }

  /** Any other debug event changes nothing the thread can see but the upper half of GS. */
  lemma OtherEventGives(s: State)
    ensures var t := OtherEvent(s);
            && t.mask == s.mask && t.pending == s.pending && t.actions == s.actions && Fetch(t.mem, t.regs.eip) == PopGs
            && var r1 := Exec(t.regs, t.mem);
            && Fetch(t.mem, r1.eip) == RetN(6) && Exec(r1, t.mem) == s.regs.(gs := s.regs.gs % 0x1_0000)
  {
    StubRestoresThread(s.(segGs := s.regs.gs));
  }
}
