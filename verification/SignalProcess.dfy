/** The kernel's per-process signal code, updating the process record, the thread context and the
    user stack in place. */
module SignalProcess {
  import opened Words
  import opened ByteMemory
  import opened Cpu
  import opened SignalFrames

  class Process {
    var mem: Memory
    var ctx: Regs
    var segGs: u32
    var mask: SigSet
    const pending: array<bool>
    const actions: array<Action>

    ghost predicate Valid()
      reads this, pending
    {
      pending.Length == NSIG && actions.Length == NSIG && RegsOk(ctx) && !pending[0]
    }

    ghost function View(): State
      reads this, pending, actions
    {
      State(ctx, mem, mask, segGs, pending[..], actions[..])
    }

    constructor (mem: Memory, ctx: Regs)
      requires RegsOk(ctx)
      ensures Valid() && fresh(pending) && fresh(actions)
      ensures this.mem == mem && this.ctx == ctx && mask == SigSet(0, 0)
      ensures forall i :: 0 <= i < NSIG ==> !pending[i] && actions[i] == Action(SIG_DFL, 0, SigSet(0, 0))
    {
      this.mem, this.ctx, this.segGs, this.mask := mem, ctx, 0, SigSet(0, 0);
      pending := new bool[NSIG](_ => false);
      actions := new Action[NSIG](_ => Action(SIG_DFL, 0, SigSet(0, 0)));
    }

    /** Resume after a debug event. */
    method ResumeKeowProcess(needToRestoreGs: bool)
      requires Valid()
      modifies this
      ensures Valid()
      ensures View() == if needToRestoreGs then Resume(old(View())) else old(View())
    {
      if needToRestoreGs {
        var stackFrame := Le32(segGs) + Le32(ctx.eip) + [0x0F, 0xA9] + [0xC2, 0x06, 0x00, 0x00];
        ctx := ctx.(esp := Sub(ctx.esp, |stackFrame|));
        ctx := ctx.(eip := Add(ctx.esp, 8));
        mem := Write(mem, ctx.esp, stackFrame);
      }
    }

    /** The bytes to go on the user stack, from the current context and mask. */
    method BuildFrame(sig: u32, a: Action, newEsp: u32) returns (stack: seq<byte>, pSigInfo: u32)
      requires RegsOk(ctx)
      ensures stack == FrameBytes(newEsp, sig, a, ctx, mask) && pSigInfo == InfoPointer(a, newEsp)
    {
      var sigInfo := seq(128, (i: int) => 0 as byte);
      pSigInfo := 0;
      if WantsSigInfo(a) {
        sigInfo := Le32(sig) + sigInfo[4..];
        pSigInfo := Add(newEsp, OFF_SIGINFO);
      }
      assert sigInfo == SigInfoBytes(a, sig);
      stack := Le32(Add(newEsp, OFF_RESTORER)) + Le32(sig) + Le32(pSigInfo) + Le32(0)
               + sigInfo + SavedBytes(ctx, mask) + RestorerCode(Add(newEsp, OFF_SAVED));
    }

    method HandleSignal(sig: nat) returns (fate: Fate)
      requires Valid() && 1 <= sig < NSIG
      modifies this, actions
      ensures Valid() && fate == FateOf(old(View()), sig) && (fate == Ends <==> Fatal(old(View()), sig))
      ensures View() == SignalFrames.HandleSignal(old(View()), sig)
    {
      FateExactly(View(), sig);
      if sig == 9 {
        return Ends;
      }
      if sig == 19 || HasSig(mask, sig) {
        return Passes;
      }
      var handler := actions[sig].handler;
      if handler == SIG_DFL {
        return if 17 <= sig <= 23 then Passes else Ends;
      }
      if handler == SIG_IGN {
        return Passes;
      }
      if OneShot(actions[sig]) {
        actions[sig] := actions[sig].(handler := SIG_DFL);
      }
      var newEsp := Sub(ctx.esp, FRAME_BYTES);
      var stack, pSigInfo := BuildFrame(sig, actions[sig], newEsp);
      mask := actions[sig].mask;
      if !NoDefer(actions[sig]) {
        mask := AddSig(mask, sig);
      }
      ctx := ctx.(eax := sig, edx := pSigInfo, ecx := 0);
      ctx := ctx.(esp := newEsp);
      mem := Write(mem, newEsp, stack);
      ctx := ctx.(eip := handler);
      fate := Handled;

      assert actions[..] == old(actions[..])[sig := actions[sig]];
    }

    /** The head of the debugger loop: take the lowest pending signal, if any, and act on it. */
    method DispatchPending() returns (found: bool, fate: Fate)
      requires Valid()
      modifies this, pending, actions
      ensures Valid() && found == (LowestPending(old(pending[..])) < NSIG)
      ensures !found ==> View() == old(View())
      ensures found ==>
        fate == FateOf(ClearPending(old(View()), LowestPending(old(pending[..]))), LowestPending(old(pending[..])))
      ensures found && fate != Ends ==> View() == Dispatch(old(View()))
      ensures found ==> (fate == Ends <==> Fatal(old(View()), LowestPending(old(pending[..]))))
    {
      var sig := 0;
      while sig < NSIG && !pending[sig]
        invariant 0 <= sig <= NSIG
        invariant forall i :: 0 <= i < sig ==> !pending[i]
      {
        sig := sig + 1;
      }
      found, fate := sig < NSIG, Passes;
      assert sig == LowestPending(old(pending[..]));
      if found {
        pending[sig] := false;
        assert pending[..] == old(pending[..])[sig := false];
        fate := HandleSignal(sig);
        if fate != Ends {
          ResumeKeowProcess(true);
        }
      }
    }

    /** sigreturn and rt_sigreturn, from the exception that traps `int 80` to the resumption. */
    method SysSigreturn()
      requires Valid()
      modifies this
      ensures Valid() && View() == SigReturn(old(View()))
    {
      segGs := ctx.gs;
      ctx := ctx.(eip := Add(ctx.eip, 2));
      var state := Read(mem, ctx.ebx, SAVED_BYTES);
      ctx := SavedRegs(state);
      mask := SavedMask(state);
      ResumeKeowProcess(true);
    }
  }
}
