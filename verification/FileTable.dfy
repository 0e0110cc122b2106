/** A process's descriptor table: who owns an I/O handler, and when it is deleted. */
module FileTable {
  import opened Kernel

  /** Slots hold handlers, numbered in the order the kernel made them; 0 is the null pointer. The log lists
      every delete. */
  datatype Table = Table(slots: seq<nat>, created: set<nat>, deleted: seq<nat>)

  datatype Outcome = Return(value: int) | OutOfBounds | NullCall

  /** FindFreeFD. */
  function FindFree(slots: seq<nat>, fd: nat): (r: int)
    requires fd <= |slots|
    ensures r == -1 || fd <= r < |slots|
    ensures if r == -1 then 0 !in slots[fd..] else slots[r] == 0 && 0 !in slots[fd..r]
    decreases |slots| - fd
  {
    if fd == |slots| then -1 else if slots[fd] == 0 then fd else FindFree(slots, fd + 1)
  }

  predicate IsLowestFree(slots: seq<nat>, fd: int)
  {
    0 <= fd < |slots| && slots[fd] == 0 && forall i :: 0 <= i < fd ==> slots[i] != 0
  }

  lemma FindFreeIsLowest(slots: seq<nat>)
    ensures var fd := FindFree(slots, 0); if fd == -1 then 0 !in slots else IsLowestFree(slots, fd)
  {
    var fd := FindFree(slots, 0);
    assert slots[0..] == slots;
    assert fd != -1 ==> forall i :: 0 <= i < fd ==> slots[i] in slots[0..fd];
  }

  function Put(t: Table, fd: nat, h: nat): Table
    requires fd < |t.slots|
  {
    t.(slots := t.slots[fd := h], created := t.created + {h})
  }

  function Clear(t: Table, fd: nat): Table
    requires fd < |t.slots|
  {
    if t.slots[fd] == 0 then t else t.(slots := t.slots[fd := 0], deleted := t.deleted + [t.slots[fd]])
  }

  /** The calls, each with what the rest of the kernel answers: the handler made (0 if none), whether its
      Open succeeded, and the error to report otherwise. */
  datatype Call =
    | Open(made: nat, ok: bool, err: int)
    | Close(fd: int)
    | Dup(fd: int, copy: nat, err: int)
    | Dup2(fd: int, fdnew: int, copy: nat, err: int)
    | DupFd(fd: int, maxfd: int, copy: nat, err: int)
    | Pipe(ends: bool, reader: nat, writer: nat, err: int)
    | Exec(inheritable: set<nat>)

  predicate IsNew(t: Table, h: nat) { h == 0 || h !in t.created }

  /** new and Duplicate give an object that was never there before. */
  predicate Answers(t: Table, c: Call)
  {
    match c
    case Open(made, _, _) => IsNew(t, made)
    case Close(_) => true
    case Dup(_, copy, _) => IsNew(t, copy)
    case Dup2(_, _, copy, _) => IsNew(t, copy)
    case DupFd(_, _, copy, _) => IsNew(t, copy)
    case Pipe(_, reader, writer, _) =>
      reader != writer && 0 < reader && 0 < writer && IsNew(t, reader) && IsNew(t, writer)
    case Exec(_) => true
  }

  function DoOpen(t: Table, made: nat, ok: bool, err: int): (Table, Outcome)
  {
    var fd := FindFree(t.slots, 0);
    if fd == -1 then (t, Return(-EMFILE))
    else if made == 0 then (t, Return(-ENXIO))
    else if !ok then (t.(created := t.created + {made}, deleted := t.deleted + [made]), Return(-err))
    else (Put(t, fd, made), Return(fd))
  }

  /** The bounds check of every call lets the index 1024 through. */
  function DoClose(t: Table, fd: int): (Table, Outcome)
    requires |t.slots| == 1024
  {
    if fd < 0 || fd > 1024 then (t, Return(-EBADF))
    else if fd == 1024 then (t, OutOfBounds)
    else if t.slots[fd] == 0 then (t, Return(-EBADF))
    else (Clear(t, fd), Return(0))
  }

  function DoDup2(t: Table, fd: int, fdnew: int, copy: nat, err: int): (Table, Outcome)
    requires |t.slots| == 1024
  {
    if fd < 0 || fd > 1024 then (t, Return(-EBADF))
    else if fd == 1024 then (t, OutOfBounds)
    else if t.slots[fd] == 0 then (t, Return(-EBADF))
    else if fdnew < 0 || fdnew > 1024 || fdnew == fd then (t, Return(-EBADF))
    else if fdnew == 1024 then (t, OutOfBounds)
    else
      var t' := Clear(t, fdnew);
      if copy == 0 then (t', Return(-err)) else (Put(t', fdnew, copy), Return(fdnew))
  }

  function DoDup(t: Table, fd: int, copy: nat, err: int): (Table, Outcome)
    requires |t.slots| == 1024
  {
    var fdnew := FindFree(t.slots, 0);
    if fdnew == -1 then (t, Return(-EMFILE)) else DoDup2(t, fd, fdnew, copy, err)
  }

  /** The refusal of a descriptor above the limit is not negated, so it reads as descriptor 22. */
  function DoDupFd(t: Table, fd: int, maxfd: int, copy: nat, err: int): (Table, Outcome)
    requires |t.slots| == 1024
  {
    if fd < 0 || fd > 1024 then (t, Return(-EBADF))
    else if fd == 1024 then (t, OutOfBounds)
    else if t.slots[fd] == 0 then (t, Return(-EBADF))
    else
      var fdnew := FindFree(t.slots, 0);
      if fdnew == -1 then (t, Return(-EMFILE))
      else if fdnew > maxfd then (t, Return(EINVAL))
      else
        var (t', r) := DoDup2(t, fd, fdnew, copy, err);
        (t', if copy == 0 then NullCall else r)
  }

  /** A full table is not checked for: the slot written is then -1. */
  function DoPipe(t: Table, ends: bool, reader: nat, writer: nat, err: int): (Table, Outcome)
  {
    if !ends then (t, Return(-err))
    else
      var fd0 := FindFree(t.slots, 0);
      if fd0 == -1 then (t, OutOfBounds)
      else
        var t' := Put(t, fd0, reader);
        var fd1 := FindFree(t'.slots, 0);
        if fd1 == -1 then (t', OutOfBounds) else (Put(t', fd1, writer), Return(0))
  }

  /** FreeResourcesBeforeExec, for the first n descriptors. */
  function DoExec(t: Table, inheritable: set<nat>, n: nat): (r: Table)
    requires n <= |t.slots|
    ensures |r.slots| == |t.slots|
  {
    if n == 0 then t
    else
      var t' := DoExec(t, inheritable, n - 1);
      if t'.slots[n - 1] in inheritable then t' else Clear(t', n - 1)
  }

  function Do(t: Table, c: Call): (Table, Outcome)
    requires |t.slots| == 1024
  {
    match c
    case Open(made, ok, err) => DoOpen(t, made, ok, err)
    case Close(fd) => DoClose(t, fd)
    case Dup(fd, copy, err) => DoDup(t, fd, copy, err)
    case Dup2(fd, fdnew, copy, err) => DoDup2(t, fd, fdnew, copy, err)
    case DupFd(fd, maxfd, copy, err) => DoDupFd(t, fd, maxfd, copy, err)
    case Pipe(ends, reader, writer, err) => DoPipe(t, ends, reader, writer, err)
    case Exec(inheritable) => (DoExec(t, inheritable, 1024), Return(0))
  }

  // ---- Ownership ---------------------------------------------------------------------------

  /** Occupied slots hold distinct handlers, no handler is deleted twice, and every handler ever made is
      either in its slot or deleted, never both: nothing leaks and nothing dangles. */
  ghost predicate Owned(t: Table)
  {
    && |t.slots| == 1024 && 0 !in t.created
    && (forall i, j :: 0 <= i < j < |t.slots| && t.slots[i] == t.slots[j] ==> t.slots[i] == 0)
    && (forall i, j :: 0 <= i < j < |t.deleted| ==> t.deleted[i] != t.deleted[j])
    && (forall h :: h in t.created <==> (h != 0 && h in t.slots) || h in t.deleted)
    && (forall h :: h in t.deleted ==> h !in t.slots)
  }

  lemma PutOwned(t: Table, fd: nat, h: nat)
    requires Owned(t) && fd < 1024 && t.slots[fd] == 0 && h != 0 && h !in t.created
    ensures Owned(Put(t, fd, h))
  {
    var s := Put(t, fd, h).slots;
    assert s[fd] == h;
    forall x ensures x in s && x != 0 <==> x == h || (x != 0 && x in t.slots) {
      if x != 0 && x in t.slots {
        var k :| 0 <= k < 1024 && t.slots[k] == x;
        assert s[k] == x;
      }
    }
  }

  lemma ClearOwned(t: Table, fd: nat)
    requires Owned(t) && fd < 1024
    ensures Owned(Clear(t, fd))
  {
    var h := t.slots[fd];
    if h != 0 {
      var s := Clear(t, fd).slots;
      forall x ensures x in s && x != 0 <==> x != h && x != 0 && x in t.slots {
        if x != h && x in t.slots {
          var k :| 0 <= k < 1024 && t.slots[k] == x;
          assert s[k] == x;
        }
      }
      assert h in t.slots;
    }
  }

  lemma {:induction false} ExecOwned(t: Table, inheritable: set<nat>, n: nat)
    requires Owned(t) && n <= 1024
    ensures Owned(DoExec(t, inheritable, n))
  {
    if n > 0 {
      ExecOwned(t, inheritable, n - 1);
      ClearOwned(DoExec(t, inheritable, n - 1), n - 1);
    }
  }

  /** Exec closes exactly the descriptors whose handler is not inheritable. */
  lemma {:induction false} ExecKeepsInheritable(t: Table, inheritable: set<nat>, n: nat, i: nat)
    requires n <= |t.slots| && i < |t.slots|
    ensures DoExec(t, inheritable, n).slots[i] == if i < n && t.slots[i] !in inheritable then 0 else t.slots[i]
  {
    if n > 0 {
      ExecKeepsInheritable(t, inheritable, n - 1, i);
      ExecKeepsInheritable(t, inheritable, n - 1, n - 1);
    }
  }

  lemma CallKeepsOwned(t: Table, c: Call)
    requires Owned(t) && Answers(t, c)
    ensures Owned(Do(t, c).0)
  {
    match c
    case Open(made, ok, err) => OpenOwned(t, made, ok, err);
    case Close(fd) => if 0 <= fd < 1024 { ClearOwned(t, fd); }
    case Dup(fd, copy, err) => Dup2Owned(t, fd, FindFree(t.slots, 0), copy, err);
    case Dup2(fd, fdnew, copy, err) => Dup2Owned(t, fd, fdnew, copy, err);
    case DupFd(fd, maxfd, copy, err) => Dup2Owned(t, fd, FindFree(t.slots, 0), copy, err);
    case Pipe(ends, reader, writer, err) => PipeOwned(t, ends, reader, writer, err);
    case Exec(inheritable) => ExecOwned(t, inheritable, 1024);
  }

  lemma OpenOwned(t: Table, made: nat, ok: bool, err: int)
    requires Owned(t) && IsNew(t, made)
    ensures Owned(DoOpen(t, made, ok, err).0)
  {
    var fd := FindFree(t.slots, 0);
    if fd != -1 && made != 0 && ok {
      PutOwned(t, fd, made);
    }
  }

  lemma Dup2Owned(t: Table, fd: int, fdnew: int, copy: nat, err: int)
    requires Owned(t) && IsNew(t, copy)
    ensures Owned(DoDup2(t, fd, fdnew, copy, err).0)
  {
    if 0 <= fdnew < 1024 {
      ClearOwned(t, fdnew);
      if copy != 0 {
        PutOwned(Clear(t, fdnew), fdnew, copy);
      }
    }
  }

  lemma PipeOwned(t: Table, ends: bool, reader: nat, writer: nat, err: int)
    requires Owned(t) && Answers(t, Pipe(ends, reader, writer, err))
    ensures Owned(DoPipe(t, ends, reader, writer, err).0)
  {
    var fd0 := FindFree(t.slots, 0);
    if ends && fd0 != -1 {
      PutOwned(t, fd0, reader);
      var t' := Put(t, fd0, reader);
      var fd1 := FindFree(t'.slots, 0);
      if fd1 != -1 {
        PutOwned(t', fd1, writer);
      }
    }
  }

  // ---- When a call is safe, and what it does to a descriptor -------------------------------

  predicate Free2(t: Table)
  {
    exists i, j :: 0 <= i < j < |t.slots| && t.slots[i] == 0 && t.slots[j] == 0
  }

  predicate IsOpen(t: Table, fd: int)
  {
    0 <= fd < |t.slots| && t.slots[fd] != 0
  }

  /** What keeps a call in bounds: no descriptor 1024, and two free slots for a pipe. F_DUPFD is also at
      the mercy of Duplicate, unless the limit refuses it first. */
  ghost predicate Safe(t: Table, c: Call)
  {
    match c
    case Open(_, _, _) => true
    case Close(fd) => fd != 1024
    case Dup(fd, _, _) => fd != 1024 || 0 !in t.slots
    case Dup2(fd, fdnew, _, _) => fd != 1024 && !(IsOpen(t, fd) && fdnew == 1024)
    case DupFd(fd, maxfd, copy, _) =>
      fd != 1024 && !(copy == 0 && IsOpen(t, fd) && exists i :: 0 <= i < |t.slots| && i <= maxfd && t.slots[i] == 0)
    case Pipe(ends, _, _, _) => ends ==> Free2(t)
    case Exec(_) => true
  }

  lemma SafeExactly(t: Table, c: Call)
    requires |t.slots| == 1024 && Answers(t, c)
    ensures Do(t, c).1.Return? <==> Safe(t, c)
  {
    FindFreeIsLowest(t.slots);
    var fd := FindFree(t.slots, 0);
    if c.Pipe? && fd != -1 {
      var slots := t.slots[fd := c.reader];
      FindFreeIsLowest(slots);
      var fd1 := FindFree(slots, 0);
      assert fd1 != -1 ==> t.slots[fd1] == 0;
      assert Free2(t) ==> exists j :: 0 <= j < 1024 && j != fd && t.slots[j] == 0 && slots[j] == 0;
    }
  }

  /** The descriptors a call may change; the calls that take a new one choose among the free. */
  predicate Touches(t: Table, c: Call, i: nat)
  {
    match c
    case Close(fd) => i == fd
    case Dup2(_, fdnew, _, _) => i == fdnew
    case Exec(inheritable) => i < |t.slots| && t.slots[i] !in inheritable
    case Open(_, _, _) => i < |t.slots| && t.slots[i] == 0
    case Dup(_, _, _) => i < |t.slots| && t.slots[i] == 0
    case DupFd(_, _, _, _) => i < |t.slots| && t.slots[i] == 0
    case Pipe(_, _, _, _) => i < |t.slots| && t.slots[i] == 0
  }

  lemma OthersUnchanged(t: Table, c: Call, i: nat)
    requires |t.slots| == 1024 && i < 1024 && !Touches(t, c, i)
    ensures Do(t, c).0.slots[i] == t.slots[i]
  {
    if c.Exec? {
      ExecKeepsInheritable(t, c.inheritable, 1024, i);
    }
  }

  /** A successful open, dup or F_DUPFD returns the lowest free descriptor, which then holds the handler. */
  lemma LowestIsTaken(t: Table, c: Call)
    requires Owned(t) && Answers(t, c)
    requires (c.Open? && c.made != 0 && c.ok) || (c.Dup? && c.copy != 0 && IsOpen(t, c.fd))
             || (c.DupFd? && c.copy != 0 && IsOpen(t, c.fd))
    ensures var (t', r) := Do(t, c);
      || (0 !in t.slots && t' == t && r == Return(-EMFILE))
      || (exists fd :: IsLowestFree(t.slots, fd) &&
           if c.DupFd? && fd > c.maxfd then t' == t && r == Return(EINVAL)
           else
             && r == Return(fd) && t'.deleted == t.deleted
             && t'.slots == t.slots[fd := if c.Open? then c.made else c.copy])
  {
    FindFreeIsLowest(t.slots);
  }

  /** F_DUPFD refuses an open descriptor exactly if the lowest free one is above the limit. */
  lemma DupFdRefusesExactly(t: Table, fd: int, maxfd: int, copy: nat, err: int)
    requires |t.slots| == 1024 && IsOpen(t, fd)
    ensures Do(t, DupFd(fd, maxfd, copy, err)) == (t, Return(EINVAL)) <==>
      exists low :: IsLowestFree(t.slots, low) && low > maxfd
  {
    FindFreeIsLowest(t.slots);
    var low := FindFree(t.slots, 0);
    assert low != -1 && copy != 0 ==> t.slots[low := copy][low] != t.slots[low];
  }

  /** The refusal of F_DUPFD looks like success with a descriptor the call did not make. */
  lemma DupFdRefusalMisreads()
    ensures exists t, c :: Owned(t) && Answers(t, c) && c.DupFd? && Do(t, c) == (t, Return(22))
                           && IsOpen(t, 0) && !IsOpen(t, 22)
  {
    var slots := seq(1024, i => if i == 0 then 1 else 0);
    var t := Table(slots, {1}, []);
    assert slots[0] == 1 && slots[1] == 0;
    assert FindFree(slots, 0) == 1;
    var c := DupFd(0, 0, 2, 1);
    assert Do(t, c) == (t, Return(22));
  }

  /** When dup2 comes to Duplicate, its source is still in its slot and not deleted. */
  lemma Dup2KeepsSource(t: Table, fd: int, fdnew: int, copy: nat, err: int)
    requires Owned(t) && IsNew(t, copy) && IsOpen(t, fd) && 0 <= fdnew < 1024 && fd != fdnew
    ensures var cleared := Clear(t, fdnew);
      cleared.slots[fd] == t.slots[fd] && t.slots[fd] !in cleared.deleted && cleared.slots[fdnew] == 0
    ensures var t' := DoDup2(t, fd, fdnew, copy, err).0;
      t'.slots == t.slots[fdnew := copy] && t.slots[fd] !in t'.deleted
  {
  }

  // ---- Each call, exactly -------------------------------------------------------------------

  /** close frees an open descriptor and deletes its handler; any other descriptor is a bad one. */
  lemma CloseExactly(t: Table, fd: int)
    requires |t.slots| == 1024
    ensures IsOpen(t, fd) ==>
      Do(t, Close(fd)) == (Table(t.slots[fd := 0], t.created, t.deleted + [t.slots[fd]]), Return(0))
    ensures !IsOpen(t, fd) && fd != 1024 ==> Do(t, Close(fd)) == (t, Return(-9))
  {
  }

  /** open looks for a descriptor first, and deletes a handler that cannot be opened. */
  lemma OpenExactly(t: Table, made: nat, ok: bool, err: int)
    requires |t.slots| == 1024
    ensures var r := Do(t, Open(made, ok, err));
      if 0 !in t.slots then r == (t, Return(-24))
      else if made == 0 then r == (t, Return(-6))
      else if !ok then r == (Table(t.slots, t.created + {made}, t.deleted + [made]), Return(-err))
      else exists low :: IsLowestFree(t.slots, low)
             && r == (Table(t.slots[low := made], t.created + {made}, t.deleted), Return(low))
  {
    FindFreeIsLowest(t.slots);
  }

  /** What dup2 makes of a table when both descriptors are good. */
  function Duplicated(t: Table, fdnew: nat, copy: nat): Table
    requires fdnew < |t.slots|
  {
    Table(t.slots[fdnew := copy],
          if copy == 0 then t.created else t.created + {copy},
          if t.slots[fdnew] == 0 then t.deleted else t.deleted + [t.slots[fdnew]])
  }

  /** dup2 closes its target, even if the duplicate then fails, and replies with it. */
  lemma Dup2Exactly(t: Table, fd: int, fdnew: int, copy: nat, err: int)
    requires |t.slots| == 1024
    ensures var r, good := Do(t, Dup2(fd, fdnew, copy, err)), IsOpen(t, fd) && 0 <= fdnew < 1024 && fdnew != fd;
      if good then r == (Duplicated(t, fdnew, copy), Return(if copy == 0 then -err else fdnew))
      else if fd == 1024 || (IsOpen(t, fd) && fdnew == 1024) then r == (t, OutOfBounds)
      else r == (t, Return(-9))
  {
    if 0 <= fdnew < 1024 {
      assert t.slots[fdnew := 0][fdnew := copy] == t.slots[fdnew := copy];
      assert t.slots[fdnew] == 0 ==> t.slots[fdnew := 0] == t.slots;
    }
  }

  /** dup is dup2 to the lowest free descriptor. */
  lemma DupExactly(t: Table, fd: int, copy: nat, err: int)
    requires |t.slots| == 1024
    ensures if 0 !in t.slots then Do(t, Dup(fd, copy, err)) == (t, Return(-24))
            else exists low :: IsLowestFree(t.slots, low)
                   && Do(t, Dup(fd, copy, err)) == Do(t, Dup2(fd, low, copy, err))
  {
    FindFreeIsLowest(t.slots);
  }

  /** F_DUPFD of an open descriptor, when `low` is the lowest free one. */
  function BelowLimit(t: Table, low: nat, maxfd: int, copy: nat): (Table, Outcome)
    requires low < |t.slots|
  {
    if low > maxfd then (t, Return(22))
    else if copy == 0 then (t, NullCall)
    else (Duplicated(t, low, copy), Return(low))
  }

  /** F_DUPFD likewise, below its limit. */
  lemma DupFdExactly(t: Table, fd: int, maxfd: int, copy: nat, err: int)
    requires |t.slots| == 1024 && fd != 1024
    ensures var r := Do(t, DupFd(fd, maxfd, copy, err));
      if !IsOpen(t, fd) then r == (t, Return(-9))
      else if 0 !in t.slots then r == (t, Return(-24))
      else exists low :: IsLowestFree(t.slots, low) && r == BelowLimit(t, low, maxfd, copy)
  {
    FindFreeIsLowest(t.slots);
    var low := FindFree(t.slots, 0);
    if low != -1 {
      Dup2Exactly(t, fd, low, copy, err);
      assert t.slots[low := 0] == t.slots;
    }
  }

  /** pipe: the reading end takes the lowest free descriptor, the writing end the next. */
  lemma PipeExactly(t: Table, ends: bool, reader: nat, writer: nat, err: int) returns (a: nat, b: nat)
    requires |t.slots| == 1024 && 0 < reader
    ensures !ends ==> Do(t, Pipe(ends, reader, writer, err)) == (t, Return(-err))
    ensures ends && Free2(t) ==>
      && IsLowestFree(t.slots, a) && a < b && IsLowestFree(t.slots[a := reader], b)
      && Do(t, Pipe(ends, reader, writer, err))
           == (Table(t.slots[a := reader][b := writer], t.created + {reader} + {writer}, t.deleted), Return(0))
  {
    a, b := 0, 0;
    FindFreeIsLowest(t.slots);
    if ends && Free2(t) {
      a := FindFree(t.slots, 0);
      var i, j :| 0 <= i < j < |t.slots| && t.slots[i] == 0 && t.slots[j] == 0;
      var slots := t.slots[a := reader];
      FindFreeIsLowest(slots);
      assert slots[j] == 0;
      b := FindFree(slots, 0);
    }
  }

  // ---- Runs --------------------------------------------------------------------------------

  function Run(t: Table, cs: seq<Call>): (r: Table)
    requires |t.slots| == 1024
    ensures |r.slots| == 1024
  {
    if cs == [] then t else Do(Run(t, cs[..|cs| - 1]), cs[|cs| - 1]).0
  }

  /** Every call along the run is safe and every answer a new handler. */
  ghost predicate RunSafe(t: Table, cs: seq<Call>)
    requires |t.slots| == 1024
  {
    cs == [] || (RunSafe(t, cs[..|cs| - 1])
      && Answers(Run(t, cs[..|cs| - 1]), cs[|cs| - 1]) && Safe(Run(t, cs[..|cs| - 1]), cs[|cs| - 1]))
  }

  /** Over a whole run handlers stay owned, a handler never changes its descriptor, and it is gone from it
      exactly when it has been deleted. */
  lemma {:induction false} RunKeepsOwned(t: Table, cs: seq<Call>)
    requires Owned(t) && RunSafe(t, cs)
    ensures Owned(Run(t, cs)) && t.deleted <= Run(t, cs).deleted && t.created <= Run(t, cs).created
    ensures forall i :: 0 <= i < 1024 && t.slots[i] != 0 ==>
      (Run(t, cs).slots[i] == t.slots[i] <==> t.slots[i] !in Run(t, cs).deleted)
  {
    if cs != [] {
      var front, last := cs[..|cs| - 1], cs[|cs| - 1];
      RunKeepsOwned(t, front);
      var mid := Run(t, front);
      CallKeepsOwned(mid, last);
      CallFollows(mid, last);
    }
  }

  /** The call gives out `fd`: it is the reply, or one end of a pipe. */
  predicate Gives(t: Table, c: Call, fd: nat)
    requires |t.slots| == 1024 && fd < 1024
  {
    match c
    case Close(_) => false
    case Exec(_) => false
    case Pipe(_, _, _, _) => Do(t, c).0.slots[fd] != t.slots[fd]
    case _ => Do(t, c).1 == Return(fd)
  }

  lemma ClosedUnlessGiven(t: Table, c: Call, fd: nat)
    requires |t.slots| == 1024 && fd < 1024 && t.slots[fd] == 0 && !Gives(t, c, fd)
    ensures Do(t, c).0.slots[fd] == 0
  {
    match c
    case Open(made, ok, err) => OpenExactly(t, made, ok, err);
    case Close(f) =>
    case Dup(f, copy, err) =>
      DupExactly(t, f, copy, err);
      if 0 in t.slots {
        var low :| IsLowestFree(t.slots, low) && Do(t, Dup(f, copy, err)) == Do(t, Dup2(f, low, copy, err));
        Dup2Exactly(t, f, low, copy, err);
      }
    case Dup2(f, fdnew, copy, err) => Dup2Exactly(t, f, fdnew, copy, err);
    case DupFd(f, maxfd, copy, err) => if f != 1024 { DupFdExactly(t, f, maxfd, copy, err); }
    case Pipe(_, _, _, _) =>
    case Exec(inheritable) => ExecKeepsInheritable(t, inheritable, 1024, fd);
  }

  ghost predicate NeverGiven(t: Table, cs: seq<Call>, fd: nat)
    requires |t.slots| == 1024 && fd < 1024
  {
    cs == [] || (NeverGiven(t, cs[..|cs| - 1], fd) && !Gives(Run(t, cs[..|cs| - 1]), cs[|cs| - 1], fd))
  }

  lemma {:induction false} StaysClosed(t: Table, cs: seq<Call>, fd: nat)
    requires |t.slots| == 1024 && fd < 1024 && t.slots[fd] == 0 && NeverGiven(t, cs, fd)
    ensures Run(t, cs).slots[fd] == 0
  {
    if cs != [] {
      StaysClosed(t, cs[..|cs| - 1], fd);
      ClosedUnlessGiven(Run(t, cs[..|cs| - 1]), cs[|cs| - 1], fd);
    }
  }

  /** After a close that replied 0 the descriptor is not open until some call gives it out again. */
  lemma ClosedUntilGiven(t: Table, fd: nat, cs: seq<Call>)
    requires |t.slots| == 1024 && fd < 1024 && Do(t, Close(fd)).1 == Return(0)
    requires NeverGiven(Do(t, Close(fd)).0, cs, fd)
    ensures !IsOpen(Run(Do(t, Close(fd)).0, cs), fd)
  {
    CloseExactly(t, fd);
    StaysClosed(Do(t, Close(fd)).0, cs, fd);
  }

  lemma {:induction false} ExecFollows(t: Table, inheritable: set<nat>, n: nat)
    requires n <= |t.slots|
    ensures var t' := DoExec(t, inheritable, n);
      t.deleted <= t'.deleted && t'.created == t.created
      && forall i :: 0 <= i < |t.slots| && t.slots[i] != 0 ==> t'.slots[i] == t.slots[i] || t.slots[i] in t'.deleted
  {
    if n > 0 {
      ExecFollows(t, inheritable, n - 1);
    }
  }

  lemma CallFollows(t: Table, c: Call)
    requires Owned(t) && Answers(t, c)
    ensures var t' := Do(t, c).0;
      t.deleted <= t'.deleted && t.created <= t'.created
      && forall i :: 0 <= i < 1024 && t.slots[i] != 0 ==> t'.slots[i] == t.slots[i] || t.slots[i] in t'.deleted
  {
    if c.Exec? {
      ExecFollows(t, c.inheritable, 1024);
    }
  }

  // ---- The table in place ------------------------------------------------------------------

  class Process {
    const files: array<nat>
    ghost var created: set<nat>
    ghost var deleted: seq<nat>

    ghost predicate Valid() reads this { files.Length == 1024 }

    ghost function Contents(): Table reads this, files { Table(files[..], created, deleted) }

    constructor ()
      ensures Valid() && fresh(files) && Owned(Contents()) && created == {} && deleted == []
    {
      files := new nat[1024](_ => 0);
      created, deleted := {}, [];
    }

    method FindFreeFD() returns (fd: int)
      requires Valid()
      ensures fd == FindFree(files[..], 0)
    {
      fd := 0;
      while fd < 1024
        invariant 0 <= fd <= 1024
        invariant FindFree(files[..], 0) == FindFree(files[..], fd)
      {
        if files[fd] == 0 {
          return;
        }
        fd := fd + 1;
      }
      return -1;
    }

    method Delete(fd: nat)
      requires Valid() && fd < 1024 && files[fd] != 0
      modifies files, this`deleted
      ensures Contents() == Clear(old(Contents()), fd)
    {
      deleted := deleted + [files[fd]];
      files[fd] := 0;
    }

    method Store(fd: nat, h: nat)
      requires Valid() && fd < 1024
      modifies files, this`created
      ensures Contents() == Put(old(Contents()), fd, h)
    {
      files[fd] := h;
      created := created + {h};
    }

    method SysOpen(made: nat, ok: bool, err: int) returns (r: Outcome)
      requires Valid()
      modifies this`created, this`deleted, files
      ensures (Contents(), r) == Do(old(Contents()), Open(made, ok, err))
    {
      var fd := FindFreeFD();
      if fd == -1 {
        return Return(-EMFILE);
      }
      if made == 0 {
        return Return(-ENXIO);
      }
      if !ok {
        created, deleted := created + {made}, deleted + [made];
        return Return(-err);
      }
      Store(fd, made);
      return Return(fd);
    }

    method SysClose(fd: int) returns (r: Outcome)
      requires Valid()
      modifies this`deleted, files
      ensures (Contents(), r) == Do(old(Contents()), Close(fd))
    {
      if fd < 0 || fd > 1024 {
        return Return(-EBADF);
      }
      if fd == 1024 {
        return OutOfBounds;
      }
      if files[fd] == 0 {
        return Return(-EBADF);
      }
      Delete(fd);
      return Return(0);
    }

    method SysDup2(fd: int, fdnew: int, copy: nat, err: int) returns (r: Outcome)
      requires Valid()
      modifies this`created, this`deleted, files
      ensures (Contents(), r) == Do(old(Contents()), Dup2(fd, fdnew, copy, err))
    {
      if fd < 0 || fd > 1024 {
        return Return(-EBADF);
      }
      if fd == 1024 {
        return OutOfBounds;
      }
      if files[fd] == 0 {
        return Return(-EBADF);
      }
      if fdnew < 0 || fdnew > 1024 || fdnew == fd {
        return Return(-EBADF);
      }
      if fdnew == 1024 {
        return OutOfBounds;
      }
      if files[fdnew] != 0 {
        Delete(fdnew);
      }
      if copy == 0 {
        return Return(-err);
      }
      Store(fdnew, copy);
      return Return(fdnew);
    }

    method SysDup(fd: int, copy: nat, err: int) returns (r: Outcome)
      requires Valid()
      modifies this`created, this`deleted, files
      ensures (Contents(), r) == Do(old(Contents()), Dup(fd, copy, err))
    {
      var fdnew := FindFreeFD();
      if fdnew == -1 {
        return Return(-EMFILE);
      }
      r := SysDup2(fd, fdnew, copy, err);
    }

    method SysFcntlDupFd(fd: int, maxfd: int, copy: nat, err: int) returns (r: Outcome)
      requires Valid()
      modifies this`created, this`deleted, files
      ensures (Contents(), r) == Do(old(Contents()), DupFd(fd, maxfd, copy, err))
    {
      if fd < 0 || fd > 1024 {
        return Return(-EBADF);
      }
      if fd == 1024 {
        return OutOfBounds;
      }
      if files[fd] == 0 {
        return Return(-EBADF);
      }
      var fdnew := FindFreeFD();
      if fdnew == -1 {
        return Return(-EMFILE);
      }
      if fdnew > maxfd {
        return Return(EINVAL);
      }
      r := SysDup2(fd, fdnew, copy, err);
      if files[fdnew] == 0 {
        return NullCall;
      }
    }

    method SysPipe(ends: bool, reader: nat, writer: nat, err: int) returns (r: Outcome)
      requires Valid()
      modifies this`created, files
      ensures (Contents(), r) == Do(old(Contents()), Pipe(ends, reader, writer, err))
    {
      if !ends {
        return Return(-err);
      }
      var fd0 := FindFreeFD();
      if fd0 == -1 {
        return OutOfBounds;
      }
      Store(fd0, reader);
      var fd1 := FindFreeFD();
      if fd1 == -1 {
        return OutOfBounds;
      }
      Store(fd1, writer);
      return Return(0);
    }

    method CloseBeforeExec(inheritable: set<nat>)
      requires Valid()
      modifies this`deleted, files
      ensures Contents() == Do(old(Contents()), Exec(inheritable)).0
    {
      var i := 0;
      while i < 1024
        invariant 0 <= i <= 1024 && Contents() == DoExec(old(Contents()), inheritable, i)
      {
        if files[i] != 0 && files[i] !in inheritable {
          Delete(i);
        }
        i := i + 1;
      }
    }
  }
}
