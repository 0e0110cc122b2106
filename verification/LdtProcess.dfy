/** The kernel's LDT code, updating m_LdtEntries in place. The user_desc that the system calls read
    from and write back to the caller is a parameter and a result; whether Windows accepts an entry
    is the parameter `ntOk`. */
module LdtProcess {
  import opened Kernel
  import opened Words
  import opened Cpu
  import opened Descriptors
  import opened Ldt

  class Process {
    const entries: array<LdtData>
    const hardware: array<LdtEntry>

    ghost predicate Valid()
    {
      entries.Length == MAX_LDT_ENTRIES && hardware.Length == MAX_LDT_ENTRIES && entries as object != hardware
    }

    ghost function View(): Tables
      reads entries, hardware
    {
      Tables(entries[..], hardware[..])
    }

    /** A new process: no slot allocated, all descriptors zero. */
    constructor ()
      ensures Valid() && fresh(entries) && fresh(hardware)
      ensures exists blank: UserDesc :: blank.entryNumber == 0 &&
                entries[..] == seq(MAX_LDT_ENTRIES, (i: int) => LdtData(0, false, blank))
    {
      var blank := UserDesc(0, 0, 0, false, 0, false, false, false, false);
      entries := new LdtData[MAX_LDT_ENTRIES](_ => LdtData(0, false, blank));
      hardware := new LdtEntry[MAX_LDT_ENTRIES](_ => LdtEntry(0, 0, 0, 0, 0, false, false, 0, false, 0, false));
      new;
      assert entries[..] == seq(MAX_LDT_ENTRIES, (i: int) => LdtData(0, false, blank));
    }

    method AllocateLDTSelector(tid: u32, forLdt: bool) returns (r: int)
      requires Valid()
      modifies entries
      ensures (View(), r) == Allocate(old(View()), tid, forLdt)
    {
      var i := FIRST_USABLE_LDT_ENTRY;
      while i < MAX_LDT_ENTRIES
        invariant FIRST_USABLE_LDT_ENTRY <= i <= MAX_LDT_ENTRIES
        invariant View() == old(View())
        invariant FirstFree(View(), i) == FirstFree(View(), FIRST_USABLE_LDT_ENTRY)
      {
        if entries[i].owner == 0 {
          entries[i] := entries[i].(reallyLdt := forLdt, owner := if forLdt then ANY_ENTRY else tid);
          assert entries[..] == old(entries[..])[i := entries[i]];
          return i;
        }
        i := i + 1;
      }
      return -1;
    }

    method CalculateLDTEntryForThread(tid: u32, requested: int) returns (r: int)
      requires Valid()
      modifies entries
      ensures (View(), r) == Calculate(old(View()), tid, requested)
    {
      if requested >= MAX_LDT_ENTRIES || requested <= 0 {
        return 0;
      }
      if entries[requested].owner == tid {
        return requested;
      }
      if entries[requested].owner == 0 {
        return 0;
      }
      var i := FIRST_USABLE_LDT_ENTRY;
      while i < MAX_LDT_ENTRIES
        invariant FIRST_USABLE_LDT_ENTRY <= i <= MAX_LDT_ENTRIES
        invariant FirstHolding(View(), tid, requested, i)
               == FirstHolding(View(), tid, requested, FIRST_USABLE_LDT_ENTRY)
      {
        if Holds(entries[i], tid, requested) {
          return i;
        }
        i := i + 1;
      }
      r := AllocateLDTSelector(tid, entries[requested].reallyLdt);
      if r == -1 {
        r := 0;
      }
    }

    method GetLDTSelector(tid: u32, d: UserDesc) returns (ok: bool, d': UserDesc)
      requires Valid()
      modifies entries
      ensures (View(), Reply(if ok then 0 else -EINVAL, d')) == GetThreadArea(old(View()), tid, d)
    {
      var index := CalculateLDTEntryForThread(tid, AsInt(d.entryNumber));
      if index == 0 {
        return false, d;
      }
      return true, entries[index].desc;
    }

    method SetLDTSelector(tid: u32, d: UserDesc, reallyLdt: bool, ntOk: bool) returns (ok: bool)
      requires Valid()
      modifies entries, hardware
      ensures (View(), ok) == SetSelector(old(View()), tid, d, reallyLdt, ntOk)
    {
      var index := CalculateLDTEntryForThread(tid, AsInt(d.entryNumber));
      if index == 0 {
        return false;
      }
      var limit, maxLimit := d.limit, 0;
      if d.limitInPages {
        var base4k := Add(d.baseAddr, 0xFFF) / 0x1000 * 0x1000;
        maxLimit := Sub(LAST_USER_BYTE, base4k) / 0x1000;
      } else {
        maxLimit := Sub(LAST_USER_BYTE, d.baseAddr);
      }
      if limit > maxLimit {
        limit := maxLimit;
      }
      assert limit == ClampedLimit(d);
      var ldt := LdtEntry(
        d.baseAddr % 0x1_0000, d.baseAddr / 0x1_0000 % 0x100, d.baseAddr / 0x100_0000 % 0x100,
        limit % 0x1_0000, limit / 0x1_0000 % 0x10,
        d.limitInPages, d.seg32bit, if d.readExecOnly then 0x1b else 0x13, !d.segNotPresent, 3, true);
      if !ntOk {
        return false;
      }
      label L:
      hardware[index] := ldt;
      entries[index] := entries[index].(desc := d, reallyLdt := reallyLdt);
      assert hardware[..] == old@L(hardware[..])[index := Pack(d)];
      assert entries[..] == old@L(entries[..])[index := entries[index]];
      return true;
    }

    /** The access violation raised by `mov gs, eax`: the thread goes on behind it with another selector
        in Eax, in GS and as the GS to be restored when it is resumed. */
    method HandlePossibleLDTException(instruction: nat, tid: u32, ctx: Regs, segGs: u32)
      returns (handled: bool, ctx': Regs, segGs': u32)
      requires Valid()
      modifies entries
      ensures handled == (instruction == 0xe88e)
      ensures handled ==> && (View(), segGs') == TrapGsLoad(old(View()), tid, ctx.eax)
                          && ctx' == ctx.(eax := segGs', gs := segGs', eip := Add(ctx.eip, 2))
      ensures !handled ==> View() == old(View()) && ctx' == ctx && segGs' == segGs
    {
      if instruction == 0xe88e {
        var index := CalculateLDTEntryForThread(tid, ctx.eax / 8);
        ctx' := ctx.(eax := 8 * index + 7);
        ctx' := ctx'.(gs := ctx'.eax);
        segGs' := ctx'.eax;
        ctx' := ctx'.(eip := Add(ctx'.eip, 2));
        return true, ctx', segGs';
      }
      return false, ctx, segGs;
    }

    method SysSetThreadArea(tid: u32, d: UserDesc, ntOk: bool) returns (reply: Reply)
      requires Valid()
      modifies entries, hardware
      ensures (View(), reply) == SetThreadArea(old(View()), tid, d, ntOk)
    {
      var d1 := d;
      reply := Reply(-EINVAL, d);
      if d.entryNumber == ANY_ENTRY {
        var n := AllocateLDTSelector(tid, false);
        if n == -1 {
          return Reply(-ESRCH, d);
        }
        d1 := d.(entryNumber := n);
      }
      var ok := SetLDTSelector(tid, d1, false, ntOk);
      if ok {
        reply := Reply(0, d1);
      }
    }

    method SysGetThreadArea(tid: u32, d: UserDesc) returns (reply: Reply)
      requires Valid()
      modifies entries
      ensures (View(), reply) == GetThreadArea(old(View()), tid, d)
    {
      var ok, d' := GetLDTSelector(tid, d);
      reply := Reply(if ok then 0 else -EINVAL, d');
    }
  }
}
