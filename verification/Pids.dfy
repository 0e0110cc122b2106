/** Process ids: the cyclic search of fork, and the process table it searches. */
module Pids {
  import opened Kernel

  /** The pids in the kernel's process list, and the last pid tried. */
  datatype Table = Table(pids: seq<nat>, last: nat)

  /** Past 0xFFFF the search goes on at 2: 1 is for init. */
  function Succ(last: nat): nat
  {
    if last + 1 > 0xFFFF then 2 else last + 1
  }

  /** The search from its cnt-th probe on: the pid found, and the last pid it leaves behind. */
  function Search(pids: seq<nat>, last: nat, cnt: nat): (Option<nat>, nat)
    requires cnt <= 10000
    decreases 10000 - cnt
  {
    if cnt == 10000 then (None, last + 1)
    else if Succ(last) in pids then Search(pids, Succ(last), cnt + 1)
    else (Some(Succ(last)), Succ(last))
  }

  function Fork(t: Table): (Table, Option<nat>)
  {
    var (pid, last) := Search(t.pids, t.last, 0);
    (Table(if pid == None then t.pids else t.pids + [pid.value], last), pid)
  }

  function Remove(pids: seq<nat>, pid: nat): (r: seq<nat>)
  {
    if pids == [] then []
    else if pids[0] == pid then pids[1..]
    else [pids[0]] + Remove(pids[1..], pid)
  }

  // ---- The probes --------------------------------------------------------------------------

  /** The k-th pid after `last`, in one step. */
  function Probe(last: nat, k: nat): nat
  {
    var v := (if last > 0xFFFF then 0xFFFF else last) + k;
    if v > 0xFFFF then v - 0xFFFE else v
  }

  lemma ProbeNext(last: nat, k: nat)
    requires last <= 0x1_0000 && 0 < k <= 10000
    ensures Probe(last, k) == if k == 1 then Succ(last) else Succ(Probe(last, k - 1))
    ensures k > 1 ==> Probe(last, k) == if Probe(last, k - 1) == 0xFFFF then 2 else Probe(last, k - 1) + 1
    ensures 1 <= Probe(last, k) <= 0xFFFF && (Probe(last, k) == 1 <==> last == 0 && k == 1)
  {
  }

  /** Going on long enough, the probes come to every pid but init's. */
  lemma ProbesReachAll(last: nat, pid: nat) returns (k: nat)
    requires 1 <= last <= 0xFFFF && 2 <= pid <= 0xFFFF
    ensures 0 < k <= 0xFFFE && Probe(last, k) == pid
  {
    k := if pid > last then pid - last else pid + 0xFFFE - last;
  }

  /** The search finds the first of 10000 probes that is not taken, and fails if all are. */
  lemma {:induction false} SearchIsFirstFree(pids: seq<nat>, last: nat, cnt: nat)
    requires last <= 0x1_0000 && cnt <= 10000
    requires forall j :: 0 < j <= cnt ==> Probe(last, j) in pids
    ensures var (pid, last') := Search(pids, if cnt == 0 then last else Probe(last, cnt), cnt);
      match pid
      case None => last' == Probe(last, 10000) + 1 && forall j :: 0 < j <= 10000 ==> Probe(last, j) in pids
      case Some(v) =>
        last' == v && v !in pids
        && exists k :: 0 < k <= 10000 && v == Probe(last, k) && forall j :: 0 < j < k ==> Probe(last, j) in pids
    decreases 10000 - cnt
  {
    if cnt < 10000 {
      ProbeNext(last, cnt + 1);
      if Probe(last, cnt + 1) in pids {
        SearchIsFirstFree(pids, last, cnt + 1);
      }
    }
  }

  ghost function Probes(last: nat, n: nat): set<nat>
  {
    if n == 0 then {} else Probes(last, n - 1) + {Probe(last, n)}
  }

  lemma {:induction false} ProbesAreDistinct(pids: seq<nat>, last: nat, n: nat)
    requires last <= 0x1_0000 && n <= 10000 && forall j :: 0 < j <= n ==> Probe(last, j) in pids
    ensures |Probes(last, n)| == n
    ensures forall v :: v in Probes(last, n) ==> v in pids && exists j :: 0 < j <= n && v == Probe(last, j)
  {
    if n > 0 {
      ProbesAreDistinct(pids, last, n - 1);
      assert forall j :: 0 < j < n ==> Probe(last, j) != Probe(last, n);
    }
  }

  lemma {:induction false} CoverNeedsLength(s: set<nat>, pids: seq<nat>)
    requires forall v :: v in s ==> v in pids
    ensures |s| <= |pids|
    decreases |pids|
  {
    if pids == [] {
      assert s == {};
    } else {
      CoverNeedsLength(s - {pids[0]}, pids[1..]);
      assert |s| <= |s - {pids[0]}| + 1;
    }
  }

  /** With fewer than 10000 processes there is always a pid to be had. */
  lemma ForkFailsOnlyWhenFull(t: Table)
    requires t.last <= 0x1_0000 && Fork(t).1 == None
    ensures |t.pids| >= 10000
  {
    SearchIsFirstFree(t.pids, t.last, 0);
    ProbesAreDistinct(t.pids, t.last, 10000);
    CoverNeedsLength(Probes(t.last, 10000), t.pids);
  }

  // ---- Runs --------------------------------------------------------------------------------

  datatype Event = Forking(parent: nat) | Reaping(pid: nat)

  function Step(t: Table, e: Event): Table
  {
    match e
    case Forking(_) => Fork(t).0
    case Reaping(pid) => t.(pids := Remove(t.pids, pid))
  }

  function Run(t: Table, es: seq<Event>): Table
  {
    if es == [] then t else Step(Run(t, es[..|es| - 1]), es[|es| - 1])
  }

  ghost predicate Inv(t: Table)
  {
    && t.last <= 0x1_0000
    && (forall i :: 0 <= i < |t.pids| ==> 1 <= t.pids[i] <= 0xFFFF)
    && (forall i, j :: 0 <= i < j < |t.pids| ==> t.pids[i] != t.pids[j])
  }

  /** StartInit: one process, and no pid given out yet. */
  const BOOT := Table([1], 0)

  lemma {:induction false} RemoveKeeps(pids: seq<nat>, pid: nat)
    requires forall i, j :: 0 <= i < j < |pids| ==> pids[i] != pids[j]
    ensures var r := Remove(pids, pid);
      (forall v :: v in r <==> v in pids && v != pid) && forall i, j :: 0 <= i < j < |r| ==> r[i] != r[j]
  {
    if pids != [] {
      var rest := pids[1..];
      assert pids == [pids[0]] + rest;
      assert pids[0] !in rest;
      RemoveKeeps(rest, pid);
      var r := Remove(rest, pid);
      assert forall k :: 0 <= k < |r| ==> r[k] in r && r[k] != pids[0];
    }
  }

  /** It takes out the first process with that pid and keeps the order of the others. */
  lemma {:induction false} RemoveIs(pids: seq<nat>, pid: nat) returns (i: nat)
    ensures if pid !in pids then Remove(pids, pid) == pids
            else i < |pids| && pids[i] == pid && pid !in pids[..i] && Remove(pids, pid) == pids[..i] + pids[i + 1..]
  {
    i := 0;
    if pids != [] && pids[0] != pid {
      i := RemoveIs(pids[1..], pid);
      assert pids == [pids[0]] + pids[1..];
      if pid in pids {
        SplitBehind(pids, i);
        i := i + 1;
      }
    }
  }

  lemma SplitBehind<T>(s: seq<T>, i: nat)
    requires i + 1 < |s|
    ensures s[1..][i] == s[i + 1] && s[..i + 1] == [s[0]] + s[1..][..i]
    ensures [s[0]] + (s[1..][..i] + s[1..][i + 1..]) == s[..i + 1] + s[i + 2..]
  {
  }

  lemma ForkKeepsInv(t: Table)
    requires Inv(t)
    ensures Inv(Fork(t).0)
    ensures var (t', pid) := Fork(t);
      t'.last >= 1 && match pid
      case None => t'.pids == t.pids && t'.last >= 2
      case Some(v) =>
        v !in t.pids && t'.pids == t.pids + [v] && t'.last == v && (v == 1 <==> t.last == 0 && 1 !in t.pids)
  {
    SearchIsFirstFree(t.pids, t.last, 0);
    var (t', pid) := Fork(t);
    if pid.Some? {
      var k :| 0 < k <= 10000 && pid.value == Probe(t.last, k) && forall j :: 0 < j < k ==> Probe(t.last, j) in t.pids;
      ProbeNext(t.last, k);
      if k > 1 && t.last == 0 {
        assert Probe(t.last, 1) in t.pids;
      }
    }
  }

  lemma {:induction false} RunKeepsInv(es: seq<Event>)
    ensures Inv(Run(BOOT, es))
  {
    if es != [] {
      var t, e := Run(BOOT, es[..|es| - 1]), es[|es| - 1];
      RunKeepsInv(es[..|es| - 1]);
      StepKeepsInv(t, e);
    }
  }

  lemma StepKeepsInv(t: Table, e: Event)
    requires Inv(t)
    ensures Inv(Step(t, e))
  {
    if e.Forking? {
      ForkKeepsInv(t);
    } else {
      RemoveKeeps(t.pids, e.pid);
      var r := Remove(t.pids, e.pid);
      assert forall i :: 0 <= i < |r| ==> r[i] in r && r[i] in t.pids;
    }
  }

  /** fork is a system call: somebody in the table makes it. */
  ghost predicate Legal(es: seq<Event>)
  {
    forall i :: 0 <= i < |es| && es[i].Forking? ==> es[i].parent in Run(BOOT, es[..i]).pids
  }

  /** As long as no pid has been tried, init is the only process there can be. */
  lemma {:induction false} OnlyInitAtFirst(es: seq<Event>)
    ensures Run(BOOT, es).last == 0 ==> forall p :: p in Run(BOOT, es).pids ==> p == 1
  {
    if es != [] {
      var t, e := Run(BOOT, es[..|es| - 1]), es[|es| - 1];
      OnlyInitAtFirst(es[..|es| - 1]);
      RunKeepsInv(es[..|es| - 1]);
      StepKeepsOnlyInit(t, e);
    }
  }

  lemma StepKeepsOnlyInit(t: Table, e: Event)
    requires Inv(t) && (t.last == 0 ==> forall p :: p in t.pids ==> p == 1)
    ensures Step(t, e).last == 0 ==> forall p :: p in Step(t, e).pids ==> p == 1
  {
    if e.Forking? {
      ForkKeepsInv(t);
    } else {
      RemoveKeeps(t.pids, e.pid);
      assert forall p :: p in Remove(t.pids, e.pid) ==> p in t.pids;
    }
  }

  /** No fork is ever given pid 1, whether init is still there or not. */
  lemma PidOneIsInit(es: seq<Event>, i: nat)
    requires Legal(es) && i < |es| && es[i].Forking?
    ensures Fork(Run(BOOT, es[..i])).1 != Some(1)
  {
    RunKeepsInv(es[..i]);
    OnlyInitAtFirst(es[..i]);
    ForkKeepsInv(Run(BOOT, es[..i]));
  }

  // ---- The table in place ------------------------------------------------------------------

  class KernelTable {
    var processes: seq<nat>
    var lastPid: nat

    ghost function Contents(): Table reads this { Table(processes, lastPid) }

    constructor StartInit()
      ensures Contents() == BOOT
    {
      processes, lastPid := [1], 0;
    }

    method FindProcess(pid: nat) returns (found: bool)
      ensures found <==> pid in processes
    {
      var i := 0;
      while i < |processes|
        invariant 0 <= i <= |processes| && pid !in processes[..i]
      {
        if processes[i] == pid {
          return true;
        }
        i := i + 1;
      }
      return false;
    }

    method StartFork() returns (pid: Option<nat>)
      modifies this
      ensures (Contents(), pid) == Fork(old(Contents()))
    {
      var cnt := 0;
      while true
        invariant cnt <= 10000 && processes == old(processes)
        invariant Search(processes, lastPid, cnt) == Search(processes, old(lastPid), 0)
        decreases 10000 - cnt
      {
        lastPid := lastPid + 1;
        cnt := cnt + 1;
        if cnt > 10000 {
          return None;
        }
        if lastPid > 0xFFFF {
          lastPid := 2;
        }
        var taken := FindProcess(lastPid);
        if !taken {
          break;
        }
      }
      processes := processes + [lastPid];
      return Some(lastPid);
    }

    method Reap(pid: nat)
      modifies this`processes
      ensures Contents() == Step(old(Contents()), Reaping(pid))
    {
      var i := 0;
      while i < |processes| && processes[i] != pid
        invariant 0 <= i <= |processes|
        invariant Remove(processes, pid) == processes[..i] + Remove(processes[i..], pid)
      {
        assert processes[i..][1..] == processes[i + 1..];
        i := i + 1;
      }
      if i < |processes| {
        assert processes[i..][1..] == processes[i + 1..];
        processes := processes[..i] + processes[i + 1..];
      }
    }
  }
}
