/** Runs of one thread under signal delivery. The kernel keeps no record of what it has pushed on
    the user stack, so the history of injected activations is carried beside the state: `acts` is
    only ever read by the proofs, never by a kernel step. */
module SignalRuns {
  import opened Words
  import opened ByteMemory
  import opened Cpu
  import opened SignalFrames

  /** Injected code that has not finished: a signal handler with its frame, or a GS stub.
      `resume` is what the thread had when it was interrupted, `mask` what the process had. */
  datatype Act =
    | Frame(base: u32, resume: Regs, mask: SigSet, returned: bool)
    | Stub(base: u32, resume: Regs, gs: u32, popped: bool)

  datatype Config = Config(s: State, acts: seq<Act>)

  /** The lowest stack address the activation still needs. */
  function Lo(a: Act): int
  {
    if a.Frame? then (if a.returned then a.base + 4 else a.base)
    else if a.popped then a.base + 4 else a.base
  }

  function Size(a: Act): int
  {
    if a.Frame? then FRAME_BYTES else STUB_BYTES
  }

  /** The activation lies directly below the stack pointer it interrupted. */
  predicate Anchored(a: Act)
  {
    RegsOk(a.resume) && a.base + Size(a) == a.resume.esp
  }

  /** The bytes the activation needs in order to resume are in memory. */
  ghost predicate Intact(m: Memory, a: Act)
  {
    && Anchored(a)
    && match a
    case Frame(base, r, mask, returned) =>
      && Read(m, base + OFF_SAVED, SAVED_BYTES) == SavedBytes(r, mask)
      && Read(m, base + OFF_RESTORER, RESTORER_BYTES) == RestorerCode(base + OFF_SAVED)
      && (!returned ==> Word(m, base) == base + OFF_RESTORER)
    case Stub(base, r, gs, popped) =>
      && (!popped ==> StubAt(m, base, gs, r.eip))
      && Read(m, base + 4, 10) == StubBytes(gs, r.eip)[4..]
  }

  /** How far the restorer has run. */
  predicate InRestorer(base: u32, r: Regs)
    requires base + FRAME_BYTES < TWO32
  {
    var code := base + OFF_RESTORER;
    && r.esp == base + 4
    && (r.eip == code || r.eip == code + 5 || r.eip == code + 10)
    && (r.eip != code ==> r.ebx == base + OFF_SAVED)
    && (r.eip == code + 10 ==> r.eax == NR_SIGRETURN)
  }

  /** The thread, running with `r` directly above activation `a`, is where it should be. */
  predicate Placed(a: Act, r: Regs)
  {
    && Anchored(a)
    && match a
    case Frame(base, _, _, returned) => if returned then InRestorer(base, r) else r.esp <= base
    case Stub(base, q, _, popped) =>
      SameButGs(r, if popped then q.(esp := base + 4, eip := base + 10) else q.(esp := base, eip := base + 8))
  }

  function RegsAbove(c: Config, i: nat): Regs
    requires i < |c.acts|
  {
    if i + 1 == |c.acts| then c.s.regs else c.acts[i + 1].resume
  }

  /** The activations are stacked one below the other and the thread is in the lowest one. */
  predicate Stacked(c: Config)
  {
    forall i {:trigger RegsAbove(c, i)} ::
      0 <= i < |c.acts| ==> Placed(c.acts[i], RegsAbove(c, i))
  }

  ghost predicate AllIntact(m: Memory, acts: seq<Act>)
  {
    forall i {:trigger Intact(m, acts[i])} :: 0 <= i < |acts| ==> Intact(m, acts[i])
  }

  /** Every activation can still resume exactly what it interrupted. */
  ghost predicate Inv(c: Config)
  {
    StateOk(c.s) && Stacked(c) && AllIntact(c.s.mem, c.acts)
  }

  // ---- Steps -----------------------------------------------------------------------------

  function Top(c: Config): Act
    requires c.acts != []
  {
    c.acts[|c.acts| - 1]
  }

  function Below(c: Config): seq<Act>
    requires c.acts != []
  {
    c.acts[..|c.acts| - 1]
  }

  /** The program's own code is running: no activation, or a handler that has not returned. */
  predicate UserRuns(c: Config)
  {
    c.acts == [] || (Top(c).Frame? && !Top(c).returned)
  }

  /** The discipline asked of the program: the parts of live frames that resuming needs are left
      alone. (Arguments and siginfo of a frame belong to the handler.) */
  ghost predicate Spares(m: Memory, m': Memory, a: Act)
  {
    && a.base + Size(a) < TWO32
    && match a
    case Frame(base, _, _, returned) =>
      && Read(m', base + OFF_SAVED, SAVED_BYTES + RESTORER_BYTES)
           == Read(m, base + OFF_SAVED, SAVED_BYTES + RESTORER_BYTES)
      && (!returned ==> Read(m', base, 4) == Read(m, base, 4))
    case Stub(base, _, _, popped) =>
      && (!popped ==> Read(m', base, STUB_BYTES) == Read(m, base, STUB_BYTES))
      && Read(m', base + 4, 10) == Read(m, base + 4, 10)
  }

  ghost predicate SparesAll(m: Memory, m': Memory, acts: seq<Act>)
  {
    forall i {:trigger Spares(m, m', acts[i])} :: 0 <= i < |acts| ==> Spares(m, m', acts[i])
  }

  datatype Step =
    | User(after: State)                              // program code, system calls included
    | Interfere(mem: Memory, pending: seq<bool>, mask: SigSet, actions: seq<Action>)   // other threads and processes
    | Injected                                        // one instruction of a stub or restorer
    | HandlerReturn                                   // the handler's own `ret`
    | Event                                           // a debug event without a pending signal
    | Signal                                          // a debug event with one
    | Return                                          // int 80 from the restorer

  /** Room below Esp for what the kernel is about to push. */
  predicate Room(c: Config, n: int)
  {
    c.s.regs.esp >= n
  }

  /** The step can be taken in `c`. */
  ghost predicate Enabled(c: Config, step: Step)
    requires Inv(c)
  {
    match step
    case User(t) => UserRuns(c) && StateOk(t) && SparesAll(c.s.mem, t.mem, c.acts)
                    && (c.acts != [] ==> t.regs.esp <= Top(c).base)
    case Interfere(m, p, _, actions) => SparesAll(c.s.mem, m, c.acts) && |p| == NSIG && !p[0] && |actions| == NSIG
    case Injected => !UserRuns(c) && Executable(Fetch(c.s.mem, c.s.regs.eip))
    case HandlerReturn => c.acts != [] && Top(c).Frame? && !Top(c).returned && c.s.regs.esp == Top(c).base
                          && Fetch(c.s.mem, c.s.regs.eip) == Ret
    case Event => LowestPending(c.s.pending) == NSIG && Room(c, STUB_BYTES)
    case Signal => LowestPending(c.s.pending) < NSIG && Room(c, FRAME_BYTES + STUB_BYTES)
                   && var sig := LowestPending(c.s.pending); FateOf(ClearPending(c.s, sig), sig) != Ends
    case Return => LowestPending(c.s.pending) == NSIG && c.acts != [] && Top(c).Frame? && Top(c).returned
                   && Fetch(c.s.mem, c.s.regs.eip) == Int80
                   && SavedRegs(Read(c.s.mem, c.s.regs.ebx, SAVED_BYTES)).esp >= STUB_BYTES
  }

  /** A stub pushed on top of a thread in state `s`. */
  function StubFor(s: State): Act
  {
    Stub(Sub(s.regs.esp, STUB_BYTES), s.regs, s.segGs, false)
  }

  function FrameFor(s: State): Act
  {
    Frame(Sub(s.regs.esp, FRAME_BYTES), s.regs, s.mask, false)
  }

  function After(c: Config, step: Step): Config
    requires Inv(c) && Enabled(c, step)
  {
    match step
    case User(t) => Config(t, c.acts)
    case Interfere(m, p, mask, actions) =>
      Config(c.s.(mem := m, pending := p, mask := mask, actions := actions), c.acts)
    case Injected =>
      var a := Top(c);
      Config(c.s.(regs := Exec(c.s.regs, c.s.mem)),
             if a.Frame? then c.acts else if a.popped then Below(c) else Below(c) + [a.(popped := true)])
    case HandlerReturn =>
      Config(c.s.(regs := Exec(c.s.regs, c.s.mem)), Below(c) + [Top(c).(returned := true)])
    case Event => Config(OtherEvent(c.s), c.acts + [StubFor(c.s.(segGs := c.s.regs.gs))])
    case Signal =>
      var sig := LowestPending(c.s.pending);
      var s1 := ClearPending(c.s, sig);
      var s2 := HandleSignal(s1, sig);
      Config(Dispatch(c.s), c.acts + (if FateOf(s1, sig) == Handled then [FrameFor(s1)] else []) + [StubFor(s2)])
    case Return =>
      var bs := Read(c.s.mem, c.s.regs.ebx, SAVED_BYTES);
      var s1 := c.s.(segGs := c.s.regs.gs, regs := SavedRegs(bs), mask := SavedMask(bs));
      Config(SigReturn(c.s), Below(c) + [StubFor(s1)])
  }

  // ---- The invariant ---------------------------------------------------------------------

  /** Everything the kernel writes below Esp misses every live activation. */
  lemma {:induction false} EspBelowAll(c: Config, i: nat)
    requires Stacked(c) && i < |c.acts|
    ensures c.s.regs.esp <= RegsAbove(c, i).esp <= Lo(c.acts[i])
    decreases |c.acts| - i
  {
    if i + 1 < |c.acts| {
      EspBelowAll(c, i + 1);
      assert Placed(c.acts[i + 1], RegsAbove(c, i + 1));
    }
  }

  lemma WriteBelowSpares(m: Memory, base: u32, bs: seq<byte>, a: Act)
    requires a.base + Size(a) < TWO32
    requires base + |bs| <= Lo(a)
    ensures Spares(m, Write(m, base, bs), a)
  {
    match a
    case Frame(b, _, _, returned) =>
      ReadOutsideWrite(m, base, bs, b + OFF_SAVED, SAVED_BYTES + RESTORER_BYTES);
      if !returned { ReadOutsideWrite(m, base, bs, b, 4); }
    case Stub(b, _, _, popped) =>
      ReadOutsideWrite(m, base, bs, b + 4, 10);
      if !popped { ReadOutsideWrite(m, base, bs, b, STUB_BYTES); }
  }

  lemma SparedIsIntact(m: Memory, m': Memory, a: Act)
    requires Intact(m, a) && Spares(m, m', a)
    ensures Intact(m', a)
  {
    if a.Frame? {
      var at, n := a.base + OFF_SAVED, SAVED_BYTES + RESTORER_BYTES;
      assert Add(at, 0) == at && Add(at, SAVED_BYTES) == a.base + OFF_RESTORER;
      ReadPart(m, at, n, 0, SAVED_BYTES);
      ReadPart(m', at, n, 0, SAVED_BYTES);
      ReadPart(m, at, n, SAVED_BYTES, RESTORER_BYTES);
      ReadPart(m', at, n, SAVED_BYTES, RESTORER_BYTES);
    }
  }

  lemma SparedAllIntact(m: Memory, m': Memory, acts: seq<Act>)
    requires AllIntact(m, acts)
    requires SparesAll(m, m', acts)
    ensures AllIntact(m', acts)
  {
    forall i | 0 <= i < |acts|
      ensures Intact(m', acts[i])
    {
      assert Intact(m, acts[i]) && Spares(m, m', acts[i]);
      SparedIsIntact(m, m', acts[i]);
    }
  }

  lemma PushSpares(c: Config, base: u32, bs: seq<byte>)
    requires Inv(c) && base + |bs| <= c.s.regs.esp
    ensures AllIntact(Write(c.s.mem, base, bs), c.acts)
  {
    var m' := Write(c.s.mem, base, bs);
    forall i | 0 <= i < |c.acts|
      ensures Spares(c.s.mem, m', c.acts[i])
    {
      EspBelowAll(c, i);
      assert Anchored(c.acts[i]) by { assert Placed(c.acts[i], RegsAbove(c, i)); }
      WriteBelowSpares(c.s.mem, base, bs, c.acts[i]);
    }
    SparedAllIntact(c.s.mem, m', c.acts);
  }

  /** Pushing one more activation that is itself in order. */
  lemma PushStacks(c: Config, s: State, a: Act)
    requires Stacked(c) && Placed(a, s.regs) && a.resume == c.s.regs
    ensures Stacked(Config(s, c.acts + [a]))
  {
    var c' := Config(s, c.acts + [a]);
    forall i | 0 <= i < |c'.acts|
      ensures Placed(c'.acts[i], RegsAbove(c', i))
    {
      if i < |c.acts| {
        assert RegsAbove(c', i) == RegsAbove(c, i);
      }
    }
  }

  lemma AppendIntact(m: Memory, acts: seq<Act>, a: Act)
    requires AllIntact(m, acts) && Intact(m, a)
    ensures AllIntact(m, acts + [a])
  {
    forall i | 0 <= i < |acts + [a]|
      ensures Intact(m, (acts + [a])[i])
    {
      if i < |acts| {
        assert Intact(m, acts[i]);
      }
    }
  }

  lemma StubIsIntact(s: State)
    requires RegsOk(s.regs) && s.regs.esp >= STUB_BYTES
    ensures Intact(Resume(s).mem, StubFor(s))
  {
    var base, bs := StubFor(s).base, StubBytes(s.segGs, s.regs.eip);
    assert Add(base, 0) == base && Add(base, 4) == base + 4;
    ReadOfWrite(s.mem, base, bs, 0, STUB_BYTES);
    ReadOfWrite(s.mem, base, bs, 4, 10);
  }

  lemma PushStub(c: Config)
    requires Inv(c) && c.s.regs.esp >= STUB_BYTES
    ensures Inv(Config(Resume(c.s), c.acts + [StubFor(c.s)]))
  {
    var a := StubFor(c.s);
    StubIsIntact(c.s);
    PushSpares(c, a.base, StubBytes(c.s.segGs, c.s.regs.eip));
    AppendIntact(Resume(c.s).mem, c.acts, a);
    PushStacks(c, Resume(c.s), a);
  }

  /** The parts of a frame just written that resuming needs, and those the handler sees. */
  lemma FrameReads(m: Memory, base: u32, sig: u32, a: Action, r: Regs, mask: SigSet)
    requires RegsOk(r) && base + FRAME_BYTES < TWO32
    ensures var m' := Write(m, base, FrameBytes(base, sig, a, r, mask));
            && Read(m', base, 20) == ArgumentBytes(base, sig, a) && Read(m', base, 4) == Le32(base + OFF_RESTORER)
            && Read(m', base + OFF_SAVED, SAVED_BYTES) == SavedBytes(r, mask)
            && Read(m', base + OFF_RESTORER, RESTORER_BYTES) == RestorerCode(base + OFF_SAVED)
  {
    var bs := FrameBytes(base, sig, a, r, mask);
    FrameLayout(base, sig, a, r, mask);
    ReadBack(m, base, bs, 0, 4);
    ReadBack(m, base, bs, 0, 20);
    ReadBack(m, base, bs, OFF_SAVED, SAVED_BYTES);
    ReadBack(m, base, bs, OFF_RESTORER, RESTORER_BYTES);
  }

  lemma FrameIsIntact(s: State, sig: nat)
    requires StateOk(s) && 1 <= sig < NSIG && s.regs.esp >= FRAME_BYTES
    ensures Intact(Deliver(s, sig).mem, FrameFor(s))
  {
    var base := FrameFor(s).base;
    FrameReads(s.mem, base, sig, s.actions[sig], s.regs, s.mask);
    WordIs(Deliver(s, sig).mem, base, base + OFF_RESTORER);
  }

  lemma PushFrame(c: Config, sig: nat)
    requires Inv(c) && 1 <= sig < NSIG && c.s.regs.esp >= FRAME_BYTES
    ensures Inv(Config(Deliver(c.s, sig), c.acts + [FrameFor(c.s)]))
  {
    var s, a := c.s, FrameFor(c.s);
    FrameIsIntact(s, sig);
    PushSpares(c, a.base, FrameBytes(a.base, sig, s.actions[sig], s.regs, s.mask));
    AppendIntact(Deliver(s, sig).mem, c.acts, a);
    PushStacks(c, Deliver(s, sig), a);
  }

  lemma RestorerLayout(saved: u32)
    ensures var bs := RestorerCode(saved);
            && bs[0] == 0xBB && bs[5] == 0xB8 && bs[10] == 0xCD && bs[11] == 0x80
            && bs[1..5] == Le32(saved) && bs[6..10] == Le32(119)
            && bs[12] == 0x58 && bs[13] == 0xB8 && bs[14..18] == Le32(119) && bs[18] == 0xCD && bs[19] == 0x80
  {
  }

  /** The restorer's three instructions, decoded from the frame's bytes. */
  lemma RestorerFetch(m: Memory, code: u32, saved: u32)
    requires code + RESTORER_BYTES < TWO32
    requires Read(m, code, RESTORER_BYTES) == RestorerCode(saved)
    ensures Fetch(m, code) == MovEbx(saved)
    ensures Fetch(m, code + 5) == MovEax(NR_SIGRETURN)
    ensures Fetch(m, code + 10) == Int80
  {
    var bs := RestorerCode(saved);
    RestorerLayout(saved);
    assert forall k :: 0 <= k < RESTORER_BYTES ==> Read(m, code, RESTORER_BYTES)[k] == m[Add(code, k)];
    assert m[Add(code, 0)] == bs[0] && m[Add(code, 5)] == bs[5];
    assert m[Add(code, 10)] == bs[10] && m[Add(code, 11)] == bs[11];
    ReadPart(m, code, RESTORER_BYTES, 1, 4);
    ReadPart(m, code, RESTORER_BYTES, 6, 4);
    Le32RoundTrip(saved);
    Le32RoundTrip(NR_SIGRETURN);
  }

  /** Replacing the registers, the mask and the top activation keeps the rest of the invariant. */
  lemma RetopKeepsInv(c: Config, s: State, a: Act)
    requires Inv(c) && c.acts != [] && StateOk(s) && s.mem == c.s.mem
    requires Intact(s.mem, a) && Placed(a, s.regs) && a.resume == Top(c).resume
    ensures Inv(Config(s, Below(c) + [a]))
  {
    var c' := Config(s, Below(c) + [a]);
    forall i | 0 <= i < |c'.acts|
      ensures Placed(c'.acts[i], RegsAbove(c', i)) && Intact(s.mem, c'.acts[i])
    {
      if i + 1 < |c'.acts| {
        assert c'.acts[i] == c.acts[i] && Intact(c.s.mem, c.acts[i]);
        assert RegsAbove(c', i) == RegsAbove(c, i);
      }
    }
  }

  lemma PopKeepsInv(c: Config, s: State)
    requires Inv(c) && c.acts != [] && StateOk(s) && s.mem == c.s.mem
    requires SameButGs(s.regs, Top(c).resume)
    ensures Inv(Config(s, Below(c)))
  {
    var c' := Config(s, Below(c));
    forall i | 0 <= i < |c'.acts|
      ensures Placed(c'.acts[i], RegsAbove(c', i)) && Intact(s.mem, c'.acts[i])
    {
      assert c'.acts[i] == c.acts[i] && Intact(c.s.mem, c.acts[i]);
      assert Placed(c.acts[i], RegsAbove(c, i));
    }
  }

  // ---- Every step keeps the invariant ------------------------------------------------------

  /** The top activation is in order and the thread is in it. */
  lemma TopFacts(c: Config)
    requires Inv(c) && c.acts != []
    ensures Intact(c.s.mem, Top(c)) && Placed(Top(c), c.s.regs)
  {
    var n := |c.acts| - 1;
    assert Placed(c.acts[n], RegsAbove(c, n)) && Intact(c.s.mem, c.acts[n]);
  }

  lemma RestorerStep(m: Memory, a: Act, r: Regs)
    requires a.Frame? && a.returned && Intact(m, a) && Placed(a, r) && Executable(Fetch(m, r.eip))
    ensures Placed(a, Exec(r, m))
  {
    RestorerFetch(m, a.base + OFF_RESTORER, a.base + OFF_SAVED);
  }

  lemma StubPopStep(m: Memory, a: Act, r: Regs)
    requires a.Stub? && !a.popped && Intact(m, a) && Placed(a, r)
    ensures Executable(Fetch(m, r.eip))
    ensures Intact(m, a.(popped := true)) && Placed(a.(popped := true), Exec(r, m))
  {
    StubPop(m, a.base, a.gs, a.resume.eip, r);
  }

  lemma StubRetStep(m: Memory, a: Act, r: Regs)
    requires a.Stub? && a.popped && Intact(m, a) && Placed(a, r)
    ensures Executable(Fetch(m, r.eip))
    ensures SameButGs(Exec(r, m), a.resume)
  {
    StubRet(m, a.base, a.gs, a.resume.eip, r);
  }

  /** An instruction of injected code: a stub half done, a stub finished, or the restorer. */
  lemma InjectedStep(c: Config)
    requires Inv(c) && Enabled(c, Injected)
    ensures Inv(After(c, Injected))
    ensures Top(c).Stub? && Top(c).popped ==>
              SameButGs(After(c, Injected).s.regs, Top(c).resume)
  {
    var a, s' := Top(c), After(c, Injected).s;
    TopFacts(c);
    if a.Frame? {
      RestorerStep(c.s.mem, a, c.s.regs);
      assert c.acts == Below(c) + [a];
      RetopKeepsInv(c, s', a);
    } else if !a.popped {
      StubPopStep(c.s.mem, a, c.s.regs);
      RetopKeepsInv(c, s', a.(popped := true));
    } else {
      StubRetStep(c.s.mem, a, c.s.regs);
      PopKeepsInv(c, s');
    }
  }

  lemma HandlerReturnStep(c: Config)
    requires Inv(c) && Enabled(c, HandlerReturn)
    ensures Inv(After(c, HandlerReturn))
    ensures After(c, HandlerReturn).s.regs.eip == Top(c).base + OFF_RESTORER
  {
    TopFacts(c);
    RetopKeepsInv(c, After(c, HandlerReturn).s, Top(c).(returned := true));
  }

  /** sigreturn is entered with Ebx at the saved record and restores what the frame interrupted. */
  lemma ReturnRestores(c: Config)
    requires Inv(c) && c.acts != [] && Top(c).Frame? && Top(c).returned
    requires Fetch(c.s.mem, c.s.regs.eip) == Int80
    ensures c.s.regs.eax == 119 && c.s.regs.ebx == Top(c).base + 144
    ensures var bs := Read(c.s.mem, c.s.regs.ebx, SAVED_BYTES);
            SavedRegs(bs) == Top(c).resume && SavedMask(bs) == Top(c).mask
  {
    var a := Top(c);
    TopFacts(c);
    RestorerFetch(c.s.mem, a.base + OFF_RESTORER, a.base + OFF_SAVED);
    SavedRoundTrip(a.resume, a.mask);
  }

  lemma ReturnStep(c: Config)
    requires Inv(c) && Enabled(c, Return)
    ensures Inv(After(c, Return)) && After(c, Return).s.mask == Top(c).mask
    ensures After(c, Return).acts == Below(c) + [StubFor(c.s.(segGs := c.s.regs.gs, regs := Top(c).resume))]
  {
    ReturnRestores(c);
    var bs := Read(c.s.mem, c.s.regs.ebx, SAVED_BYTES);
    var s1 := c.s.(segGs := c.s.regs.gs, regs := SavedRegs(bs), mask := SavedMask(bs));
    PopKeepsInv(c, s1);
    PushStub(Config(s1, Below(c)));
  }

  lemma SignalStep(c: Config)
    requires Inv(c) && Enabled(c, Signal)
    ensures Inv(After(c, Signal))
  {
    var sig := LowestPending(c.s.pending);
    var c1 := c.(s := ClearPending(c.s, sig));
    SameThreadKeepsInv(c, c1.s);
    if FateOf(c1.s, sig) == Handled {
      PushFrame(c1, sig);
      PushStub(Config(Deliver(c1.s, sig), c.acts + [FrameFor(c1.s)]));
    } else {
      PushStub(c1);
      assert c.acts + [] == c.acts;
    }
  }

  /** Only registers and memory matter. */
  lemma SameThreadKeepsInv(c: Config, s: State)
    requires Inv(c) && StateOk(s) && s.regs == c.s.regs
    requires AllIntact(s.mem, c.acts)
    ensures Inv(Config(s, c.acts))
  {
    var c' := Config(s, c.acts);
    forall i | 0 <= i < |c.acts|
      ensures Placed(c.acts[i], RegsAbove(c', i))
    {
      assert Placed(c.acts[i], RegsAbove(c, i));
    }
  }

  lemma UserStep(c: Config, t: State)
    requires Inv(c) && Enabled(c, User(t))
    ensures Inv(Config(t, c.acts))
  {
    var c' := Config(t, c.acts);
    SparedAllIntact(c.s.mem, t.mem, c.acts);
    forall i | 0 <= i < |c.acts|
      ensures Placed(c.acts[i], RegsAbove(c', i))
    {
      assert Placed(c.acts[i], RegsAbove(c, i));
    }
  }

  /** No step, by the kernel, the program or anyone else, costs an interrupted thread its state. */
  lemma StepKeepsInv(c: Config, step: Step)
    requires Inv(c) && Enabled(c, step)
    ensures Inv(After(c, step))
  {
    match step
    case User(t) => UserStep(c, t);
    case Interfere(m, _, _, _) =>
      SparedAllIntact(c.s.mem, m, c.acts);
      SameThreadKeepsInv(c, After(c, step).s);
    case Injected => InjectedStep(c);
    case HandlerReturn => HandlerReturnStep(c);
    case Event =>
      var s1 := c.s.(segGs := c.s.regs.gs);
      SameThreadKeepsInv(c, s1);
      PushStub(Config(s1, c.acts));
    case Signal => SignalStep(c);
    case Return => ReturnStep(c);
  }

  // ---- Whole runs --------------------------------------------------------------------------

  ghost predicate Runnable(c: Config, steps: seq<Step>)
    requires Inv(c)
    decreases |steps|
  {
    steps == [] || (Enabled(c, steps[0]) && (StepKeepsInv(c, steps[0]); Runnable(After(c, steps[0]), steps[1..])))
  }

  ghost function Final(c: Config, steps: seq<Step>): Config
    requires Inv(c) && Runnable(c, steps)
    decreases |steps|
  {
    if steps == [] then c else StepKeepsInv(c, steps[0]); Final(After(c, steps[0]), steps[1..])
  }

  /** From a thread with nothing injected, every run keeps every interrupted state recoverable. */
  lemma {:induction false} RunKeepsInv(c: Config, steps: seq<Step>)
    requires Inv(c) && Runnable(c, steps)
    ensures Inv(Final(c, steps))
    decreases |steps|
  {
    if steps != [] {
      StepKeepsInv(c, steps[0]);
      RunKeepsInv(After(c, steps[0]), steps[1..]);
    }
  }

  /** A thread with nothing injected is in order, and stays so over every run. */
  lemma FreshThread(s: State, steps: seq<Step>)
    requires StateOk(s)
    ensures Inv(Config(s, []))
    ensures Runnable(Config(s, []), steps) ==> Inv(Final(Config(s, []), steps))
  {
    if Runnable(Config(s, []), steps) {
      RunKeepsInv(Config(s, []), steps);
    }
  }

  /** The run's only configuration with `d` or fewer activations is its last. */
  ghost predicate Unwinds(c: Config, steps: seq<Step>, d: nat)
    requires Inv(c) && Runnable(c, steps)
    decreases |steps|
  {
    && |c.acts| > d && steps != []
    && var c' := After(c, steps[0]);
    && (StepKeepsInv(c, steps[0]);
        if |steps| == 1 then |c'.acts| == d else Unwinds(c', steps[1..], d))
  }

  /** While more than `d` activations remain, the first `d` and what the next one resumes stay fixed. */
  lemma StepKeepsLower(c: Config, step: Step, d: nat)
    requires Inv(c) && Enabled(c, step) && |c.acts| > d
    ensures var c' := After(c, step);
            if |c'.acts| > d
            then && c'.acts[..d] == c.acts[..d] && c'.acts[d].resume == c.acts[d].resume
                 && (c'.acts[d].Frame? ==> c.acts[d].Frame? && c'.acts[d].mask == c.acts[d].mask)
            else c'.acts == c.acts[..d] && SameButGs(c'.s.regs, c.acts[d].resume)
  {
    if step.Injected? {
      InjectedStep(c);
    } else if step.Return? {
      ReturnRestores(c);
    }
  }

  // ---- The signal mask ---------------------------------------------------------------------

  /** The mask belongs to the process. This is the one it will have when all activations above the first
      `d` are undone: each frame on the way brings back the mask saved in it. */
  function Due(acts: seq<Act>, mask: SigSet, d: nat): SigSet
    decreases |acts|
  {
    if |acts| <= d then mask
    else
      var top := acts[|acts| - 1];
      Due(acts[..|acts| - 1], if top.Frame? then top.mask else mask, d)
  }

  /** No handler's frame lies above the first `d` activations: a mask set now is there to stay. */
  predicate Exposed(acts: seq<Act>, d: nat)
  {
    forall i :: d <= i < |acts| ==> acts[i].Stub?
  }

  lemma {:induction false} DueMask(acts: seq<Act>, m: SigSet, m': SigSet, d: nat)
    ensures if Exposed(acts, d) then Due(acts, m, d) == m else Due(acts, m, d) == Due(acts, m', d)
    decreases |acts|
  {
    if |acts| > d {
      var below, top := acts[..|acts| - 1], acts[|acts| - 1];
      assert top.Stub? ==> (Exposed(acts, d) <==> Exposed(below, d));
      DueMask(below, m, m', d);
    }
  }

  lemma DuePush(acts: seq<Act>, a: Act, mask: SigSet, d: nat)
    requires |acts| >= d
    ensures Due(acts + [a], mask, d) == Due(acts, if a.Frame? then a.mask else mask, d)
  {
    assert (acts + [a])[..|acts|] == acts;
  }

  /** Only interference with the mask outside every handler changes what it will be. */
  lemma StepKeepsDue(c: Config, step: Step, d: nat)
    requires Inv(c) && Enabled(c, step) && |c.acts| > d
    ensures var c' := After(c, step);
            var others := step.Interfere? && Exposed(c.acts, d);
            Due(c'.acts, c'.s.mask, d) == if others then step.mask else Due(c.acts, c.s.mask, d)
  {
    var c' := After(c, step);
    match step
    case User(t) => DueMask(c.acts, c.s.mask, t.mask, d);
    case Interfere(_, _, mask, _) =>
      DueMask(c.acts, c.s.mask, mask, d);
      DueMask(c.acts, mask, mask, d);
    case Injected =>
      if Top(c).Stub? && !Top(c).popped {
        DuePush(Below(c), Top(c).(popped := true), c.s.mask, d);
      }
    case HandlerReturn => DuePush(Below(c), Top(c).(returned := true), c.s.mask, d);
    case Event => DuePush(c.acts, c'.acts[|c.acts|], c.s.mask, d);
    case Signal => SignalKeepsDue(c, d);
    case Return =>
      ReturnStep(c);
      DuePush(Below(c), Top(c'), c'.s.mask, d);
  }

  lemma SignalKeepsDue(c: Config, d: nat)
    requires Inv(c) && Enabled(c, Signal) && |c.acts| >= d
    ensures var c' := After(c, Signal); Due(c'.acts, c'.s.mask, d) == Due(c.acts, c.s.mask, d)
  {
    var sig := LowestPending(c.s.pending);
    var s1 := ClearPending(c.s, sig);
    var s2 := HandleSignal(s1, sig);
    if FateOf(s1, sig) == Handled {
      DuePush(c.acts + [FrameFor(s1)], StubFor(s2), s2.mask, d);
      DuePush(c.acts, FrameFor(s1), s2.mask, d);
    } else {
      assert c.acts + [] == c.acts;
      DuePush(c.acts, StubFor(s2), s2.mask, d);
    }
  }

  /** What others last made of mask `m` while no handler above the first `d` activations was live. */
  ghost function Disturbed(c: Config, steps: seq<Step>, d: nat, m: SigSet): SigSet
    requires Inv(c) && Runnable(c, steps)
    decreases |steps|
  {
    if steps == [] then m
    else
      StepKeepsInv(c, steps[0]);
      var m' := if steps[0].Interfere? && Exposed(c.acts, d) then steps[0].mask else m;
      Disturbed(After(c, steps[0]), steps[1..], d, m')
  }

  /** Nobody changes the mask while no handler above the first `d` activations is live. */
  ghost predicate Undisturbed(c: Config, steps: seq<Step>, d: nat)
    requires Inv(c) && Runnable(c, steps)
    decreases |steps|
  {
    steps == [] || ((steps[0].Interfere? && Exposed(c.acts, d) ==> steps[0].mask == c.s.mask)
      && (StepKeepsInv(c, steps[0]); Undisturbed(After(c, steps[0]), steps[1..], d)))
  }

  lemma {:induction false} UnwoundState(c: Config, steps: seq<Step>, d: nat)
    requires Inv(c) && Runnable(c, steps) && Unwinds(c, steps, d)
    ensures var e := Final(c, steps);
            && e.acts == c.acts[..d] && SameButGs(e.s.regs, c.acts[d].resume)
            && e.s.mask == Disturbed(c, steps, d, Due(c.acts, c.s.mask, d))
    decreases |steps|
  {
    var c' := After(c, steps[0]);
    StepKeepsInv(c, steps[0]);
    StepKeepsLower(c, steps[0], d);
    StepKeepsDue(c, steps[0], d);
    if |steps| > 1 {
      UnwoundState(c', steps[1..], d);
    } else {
      assert steps[1..] == [];
    }
  }

  lemma {:induction false} UndisturbedMask(c: Config, steps: seq<Step>, d: nat)
    requires Inv(c) && Runnable(c, steps) && Unwinds(c, steps, d) && Undisturbed(c, steps, d)
    ensures Final(c, steps).s.mask == Due(c.acts, c.s.mask, d)
    decreases |steps|
  {
    var c' := After(c, steps[0]);
    StepKeepsInv(c, steps[0]);
    StepKeepsDue(c, steps[0], d);
    DueMask(c.acts, c.s.mask, c.s.mask, d);
    if |steps| > 1 {
      UndisturbedMask(c', steps[1..], d);
    } else {
      assert steps[1..] == [];
    }
  }

  /** Interrupting a thread is transparent. However deliveries, handlers, system calls and other
      threads are interleaved in between, when the activations pushed by a signal (or by any other
      debug event) are gone again, the thread has the registers it was interrupted with, GS aside, and
      the same outer activations. The signal mask, which all threads share, is the one it was
      interrupted with unless others set another after the last handler gave it back. */
  lemma InterruptionIsTransparent(c: Config, step: Step, steps: seq<Step>)
    requires Inv(c) && (step.Signal? || step.Event?) && Enabled(c, step)
    requires Inv(After(c, step)) && Runnable(After(c, step), steps) && Unwinds(After(c, step), steps, |c.acts|)
    ensures var e := Final(After(c, step), steps);
            && e.acts == c.acts && SameButGs(e.s.regs, c.s.regs)
            && e.s.mask == Disturbed(After(c, step), steps, |c.acts|, c.s.mask)
            && (Undisturbed(After(c, step), steps, |c.acts|) ==> e.s.mask == c.s.mask)
  {
    var c' := After(c, step);
    var d := |c.acts|;
    UnwoundState(c', steps, d);
    assert c'.acts[..d] == c.acts;
    if step.Signal? {
      SignalKeepsDue(c, d);
    } else {
      DuePush(c.acts, c'.acts[d], c.s.mask, d);
    }
    if Undisturbed(c', steps, d) {
      UndisturbedMask(c', steps, d);
    }
  }

  // ---- Putting runs together ---------------------------------------------------------------

  /** The run is possible from `c` and ends in `e`. */
  ghost predicate Leads(c: Config, steps: seq<Step>, e: Config)
  {
    Inv(c) && Runnable(c, steps) && Final(c, steps) == e
  }

  /** Every step of the run starts with more than `d` activations. */
  ghost predicate Stays(c: Config, steps: seq<Step>, d: nat)
    requires Inv(c) && Runnable(c, steps)
    decreases |steps|
  {
    steps == [] || (|c.acts| > d && (StepKeepsInv(c, steps[0]); Stays(After(c, steps[0]), steps[1..], d)))
  }

  lemma OneStep(c: Config, step: Step, d: nat)
    requires Inv(c) && Enabled(c, step) && |c.acts| > d
    ensures Leads(c, [step], After(c, step)) && Stays(c, [step], d)
    ensures |After(c, step).acts| == d ==> Unwinds(c, [step], d)
  {
    StepKeepsInv(c, step);
    assert [step][1..] == [];
  }

  lemma {:induction false} LeadsOn(c: Config, a: seq<Step>, mid: Config, b: seq<Step>, e: Config, d: nat)
    requires Leads(c, a, mid) && Leads(mid, b, e) && Stays(c, a, d)
    ensures Leads(c, a + b, e)
    ensures Stays(mid, b, d) ==> Stays(c, a + b, d)
    ensures Unwinds(mid, b, d) ==> Unwinds(c, a + b, d)
    decreases |a|
  {
    if a == [] {
      assert a + b == b;
    } else {
      StepKeepsInv(c, a[0]);
      assert (a + b)[0] == a[0] && (a + b)[1..] == a[1..] + b;
      LeadsOn(After(c, a[0]), a[1..], mid, b, e, d);
    }
  }

  // ---- Handlers are entered and left -------------------------------------------------------

  /** Two instructions run a fresh stub to its end. */
  lemma StubRuns(c: Config) returns (e: Config)
    requires Inv(c) && c.acts != [] && Top(c).Stub? && !Top(c).popped
    ensures Leads(c, [Injected, Injected], e) && Unwinds(c, [Injected, Injected], |c.acts| - 1)
    ensures e == Config(c.s.(regs := e.s.regs), Below(c)) && SameButGs(e.s.regs, Top(c).resume)
  {
    TopFacts(c);
    StubPopStep(c.s.mem, Top(c), c.s.regs);
    InjectedStep(c);
    var c2 := After(c, Injected);
    TopFacts(c2);
    StubRetStep(c2.s.mem, Top(c2), c2.s.regs);
    e := After(c2, Injected);
    TwoSteps(c, c2, e);
  }

  lemma TwoSteps(c: Config, mid: Config, e: Config)
    requires Inv(c) && Enabled(c, Injected) && mid == After(c, Injected) && Inv(mid) && Enabled(mid, Injected)
    requires e == After(mid, Injected)
    ensures Leads(c, [Injected, Injected], e)
    ensures forall d: nat :: d < |c.acts| && d < |mid.acts| ==>
      Stays(c, [Injected, Injected], d) && (|e.acts| == d ==> Unwinds(c, [Injected, Injected], d))
  {
    assert [Injected, Injected][1..] == [Injected] && [Injected][1..] == [];
    StepKeepsInv(mid, Injected);
  }

  /** From the restorer's first byte, two instructions lead to `int 80` as call 119 with Ebx at the record. */
  lemma RestorerRuns(c: Config) returns (e: Config)
    requires Inv(c) && c.acts != [] && Top(c).Frame? && Top(c).returned
    requires c.s.regs.eip == Top(c).base + OFF_RESTORER
    ensures Leads(c, [Injected, Injected], e) && Stays(c, [Injected, Injected], |c.acts| - 1)
    ensures e == Config(c.s.(regs := e.s.regs), c.acts) && Fetch(e.s.mem, e.s.regs.eip) == Int80
    ensures e.s.regs.eax == 119 && e.s.regs.ebx == Top(c).base + 144
  {
    TopFacts(c);
    RestorerFetch(c.s.mem, Top(c).base + OFF_RESTORER, Top(c).base + OFF_SAVED);
    InjectedStep(c);
    var c2 := After(c, Injected);
    InjectedStep(c2);
    e := After(c2, Injected);
    TwoSteps(c, c2, e);
  }

  /** sigreturn from the restorer, and the stub it leaves, give back what the frame interrupted. */
  lemma SigreturnRuns(c: Config) returns (e: Config)
    requires Inv(c) && c.acts != [] && Top(c).Frame? && Top(c).returned && LowestPending(c.s.pending) == NSIG
    requires Fetch(c.s.mem, c.s.regs.eip) == Int80
    ensures Leads(c, [Return] + [Injected, Injected], e) && Unwinds(c, [Return] + [Injected, Injected], |c.acts| - 1)
    ensures e.acts == Below(c) && SameButGs(e.s.regs, Top(c).resume) && e.s.mask == Top(c).mask
  {
    TopFacts(c);
    ReturnRestores(c);
    ReturnStep(c);
    OneStep(c, Return, |c.acts| - 1);
    e := StubRuns(After(c, Return));
    LeadsOn(c, [Return], After(c, Return), [Injected, Injected], e, |c.acts| - 1);
  }

  const RETURN_PATH: seq<Step> := [HandlerReturn] + ([Injected, Injected] + ([Return] + [Injected, Injected]))

  /** A handler that returns, with no other signal pending, is left: its ret, the restorer, sigreturn and
      the stub give back what its frame interrupted and nothing of it remains. */
  lemma HandlerReturns(c: Config) returns (e: Config)
    requires Inv(c) && Enabled(c, HandlerReturn) && LowestPending(c.s.pending) == NSIG
    ensures Leads(c, RETURN_PATH, e) && Unwinds(c, RETURN_PATH, |c.acts| - 1)
    ensures e.acts == Below(c) && SameButGs(e.s.regs, Top(c).resume) && e.s.mask == Top(c).mask
  {
    var d := |c.acts| - 1;
    HandlerReturnStep(c);
    OneStep(c, HandlerReturn, d);
    var c1 := After(c, HandlerReturn);
    var c3 := RestorerRuns(c1);
    RunKeepsInv(c1, [Injected, Injected]);
    e := SigreturnRuns(c3);
    LeadsOn(c1, [Injected, Injected], c3, [Return] + [Injected, Injected], e, d);
    LeadsOn(c, [HandlerReturn], c1, [Injected, Injected] + ([Return] + [Injected, Injected]), e, d);
  }

  lemma {:induction false} StaysKeepsFrame(c: Config, steps: seq<Step>, e: Config, d: nat)
    requires Leads(c, steps, e) && Stays(c, steps, d) && |c.acts| > d && |e.acts| > d && e.acts[d].Frame?
    ensures c.acts[d].Frame? && e.acts[d].mask == c.acts[d].mask
    decreases |steps|
  {
    if steps != [] {
      StepKeepsInv(c, steps[0]);
      StepKeepsLower(c, steps[0], d);
      StaysKeepsFrame(After(c, steps[0]), steps[1..], e, d);
    }
  }

  /** So a delivered signal is undone whenever its handler comes to its ret: whatever `body` the handler
      and everybody else ran, the run from the delivery unwinds and gives back registers and mask. */
  lemma DeliveryUnwinds(c: Config, body: seq<Step>, mid: Config) returns (e: Config)
    requires Inv(c) && Enabled(c, Signal) && Inv(After(c, Signal))
    requires Leads(After(c, Signal), body, mid) && Stays(After(c, Signal), body, |c.acts|)
    requires Inv(mid) && |mid.acts| == |c.acts| + 1 && Enabled(mid, HandlerReturn)
    requires LowestPending(mid.s.pending) == NSIG
    ensures Leads(After(c, Signal), body + RETURN_PATH, e) && Unwinds(After(c, Signal), body + RETURN_PATH, |c.acts|)
    ensures e.acts == c.acts && SameButGs(e.s.regs, c.s.regs) && e.s.mask == c.s.mask
  {
    e := HandlerReturns(mid);
    StaysKeepsFrame(After(c, Signal), body, mid, |c.acts|);
    LeadsOn(After(c, Signal), body, mid, RETURN_PATH, e, |c.acts|);
    InterruptionIsTransparent(c, Signal, body + RETURN_PATH);
  }

  /** The thread is at the first instruction of `sig`'s handler. Eax and the first argument hold the signal
      number, Edx and the second the siginfo pointer if the action asked for one, Ecx and the third nothing;
      the return address is the restorer's, and all other registers are the interrupted ones. */
  ghost predicate AtHandler(e: State, before: State, sig: nat)
    requires StateOk(before) && 1 <= sig < NSIG && before.regs.esp >= 888
  {
    var a, base := before.actions[sig], before.regs.esp - 888;
    var info := if WantsSigInfo(a) then base + 16 else 0;
    && SameButGs(e.regs, before.regs.(eax := sig, edx := info, ecx := 0, esp := base, eip := a.handler))
    && Word(e.mem, base) == base + 868 && Word(e.mem, base + 4) == sig
    && Word(e.mem, base + 8) == info && Word(e.mem, base + 12) == 0
    && (WantsSigInfo(a) ==> Word(e.mem, info) == sig)
  }

  /** The signal is masked while its handler runs unless the action asked otherwise, besides what the action
      masks; a one-shot handler is the default one from now on; no other signal is affected. */
  ghost predicate HandlerSetUp(e: State, before: State, sig: nat)
    requires StateOk(before) && 1 <= sig < NSIG
  {
    var a := before.actions[sig];
    && (forall o :: 1 <= o < NSIG ==> (HasSig(e.mask, o) <==> HasSig(a.mask, o) || (o == sig && !NoDefer(a))))
    && e.actions == before.actions[sig := a.(handler := if OneShot(a) then 0 else a.handler)]
    && e.pending == before.pending[sig := false]
  }

  /** The signal about to be taken has a handler that will run. */
  ghost predicate WillHandle(c: Config)
    requires Inv(c) && Enabled(c, Signal)
  {
    var sig := LowestPending(c.s.pending); FateOf(ClearPending(c.s, sig), sig) == Handled
  }

  /** What the process is in once the stub pushed with a handled signal has run. */
  ghost predicate Delivered(s: State, e: State, sig: nat)
    requires StateOk(s) && 1 <= sig < NSIG
  {
    var s2 := Deliver(s, sig);
    && e.mem == Resume(s2).mem && e.mask == s2.mask && SameButGs(e.regs, s2.regs)
    && e.actions == s2.actions && e.pending == s2.pending[sig := false]
  }

  /** A handled signal and the two instructions of the GS stub bring the thread to the handler. */
  lemma HandlerEntered(c: Config) returns (e: Config)
    requires Inv(c) && Enabled(c, Signal) && WillHandle(c)
    ensures Inv(After(c, Signal)) && Leads(After(c, Signal), [Injected, Injected], e)
    ensures e.acts == c.acts + [FrameFor(c.s)] && AtHandler(e.s, c.s, LowestPending(c.s.pending))
    ensures HandlerSetUp(e.s, c.s, LowestPending(c.s.pending))
  {
    e := DeliveryRuns(c);
    DeliveredState(c.s, e.s, LowestPending(c.s.pending));
  }

  lemma DeliveryRuns(c: Config) returns (e: Config)
    requires Inv(c) && Enabled(c, Signal) && WillHandle(c)
    ensures Inv(After(c, Signal)) && Leads(After(c, Signal), [Injected, Injected], e)
    ensures e.acts == c.acts + [FrameFor(c.s)] && Delivered(c.s, e.s, LowestPending(c.s.pending))
  {
    SignalStep(c);
    HandledTop(c);
    e := StubRuns(After(c, Signal));
  }

  /** What a handled signal leaves on top: the frame, and the stub that resumes at the handler. */
  lemma HandledTop(c: Config)
    requires Inv(c) && Enabled(c, Signal) && WillHandle(c)
    ensures var s2 := Deliver(c.s, LowestPending(c.s.pending));
            var c1 := After(c, Signal);
            && c1.acts != [] && Top(c1) == StubFor(s2) && Below(c1) == c.acts + [FrameFor(c.s)]
            && c1.s.mem == Resume(s2).mem && c1.s.mask == s2.mask
            && c1.s.actions == s2.actions && c1.s.pending == s2.pending[LowestPending(c.s.pending) := false]
  {
  }

  lemma DeliveredState(s: State, e: State, sig: nat)
    requires StateOk(s) && 1 <= sig < NSIG && s.regs.esp >= FRAME_BYTES + STUB_BYTES && Delivered(s, e, sig)
    ensures AtHandler(e, s, sig) && HandlerSetUp(e, s, sig)
  {
    ArgumentsReadable(s, sig);
    DeliveredAt(s, e, sig);
    HandlerMaskIs(s.actions[sig], sig);
  }

  lemma DeliveredAt(s: State, e: State, sig: nat)
    requires StateOk(s) && 1 <= sig < NSIG && s.regs.esp >= FRAME_BYTES + STUB_BYTES
    requires SameButGs(e.regs, Deliver(s, sig).regs)
    requires var base := s.regs.esp - FRAME_BYTES; Read(e.mem, base, 20) == ArgumentBytes(base, sig, s.actions[sig])
    ensures AtHandler(e, s, sig)
  {
    ArgumentWords(e.mem, s.regs.esp - FRAME_BYTES, sig, s.actions[sig]);
  }

  lemma HandlerMaskIs(a: Action, sig: nat)
    requires 1 <= sig < NSIG
    ensures forall o :: 1 <= o < NSIG ==>
      (HasSig(HandlerMask(a, sig), o) <==> HasSig(a.mask, o) || (o == sig && !NoDefer(a)))
  {
    forall o | 1 <= o < NSIG
      ensures HasSig(HandlerMask(a, sig), o) <==> HasSig(a.mask, o) || (o == sig && !NoDefer(a))
    {
      AddSigAddsOne(a.mask, sig, o);
    }
  }

  lemma FiveWords(m: Memory, p0: u32, p1: u32, p2: u32, p3: u32, p4: u32, w0: u32, w1: u32, w2: u32, w3: u32, w4: u32)
    requires p0 + 20 < TWO32 && p1 == p0 + 4 && p2 == p1 + 4 && p3 == p2 + 4 && p4 == p3 + 4
    requires Read(m, p0, 20) == Le32(w0) + (Le32(w1) + (Le32(w2) + (Le32(w3) + Le32(w4))))
    ensures Word(m, p0) == w0 && Word(m, p1) == w1 && Word(m, p2) == w2 && Word(m, p3) == w3 && Word(m, p4) == w4
  {
    var s3 := Le32(w3) + Le32(w4);
    var s2 := Le32(w2) + s3;
    var s1 := Le32(w1) + s2;
    ReadConcat(m, p0, Le32(w0), s1);
    ReadConcat(m, p1, Le32(w1), s2);
    ReadConcat(m, p2, Le32(w2), s3);
    ReadConcat(m, p3, Le32(w3), Le32(w4));
    WordIs(m, p0, w0);
    WordIs(m, p1, w1);
    WordIs(m, p2, w2);
    WordIs(m, p3, w3);
    WordIs(m, p4, w4);
  }

  /** They are what the words at `base` are. */
  lemma ArgumentWords(m: Memory, base: u32, sig: u32, a: Action)
    requires base + 888 < TWO32 && Read(m, base, 20) == ArgumentBytes(base, sig, a)
    ensures Word(m, base) == base + 868 && Word(m, base + 4) == sig
    ensures Word(m, base + 8) == (if WantsSigInfo(a) then base + 16 else 0) && Word(m, base + 12) == 0
    ensures Word(m, base + 16) == if WantsSigInfo(a) then sig else 0
  {
    var info, first := if WantsSigInfo(a) then base + 16 else 0, if WantsSigInfo(a) then sig else 0;
    Grouped(Le32(base + 868), Le32(sig), Le32(info), Le32(0), Le32(first));
    FiveWords(m, base, base + 4, base + 8, base + 12, base + 16, base + 868, sig, info, 0, first);
  }

  lemma Grouped(a: seq<byte>, b: seq<byte>, c: seq<byte>, d: seq<byte>, e: seq<byte>)
    ensures a + b + c + d + e == a + (b + (c + (d + e)))
  {
  }

  /** The frame's arguments survive the stub pushed below it. */
  lemma ArgumentsReadable(s: State, sig: nat)
    requires StateOk(s) && 1 <= sig < NSIG && s.regs.esp >= FRAME_BYTES + STUB_BYTES
    ensures var base := s.regs.esp - FRAME_BYTES;
            Read(Resume(Deliver(s, sig)).mem, base, 20) == ArgumentBytes(base, sig, s.actions[sig])
  {
    var base, m, a := s.regs.esp - FRAME_BYTES, Deliver(s, sig).mem, s.actions[sig];
    FrameReads(s.mem, base, sig, a, s.regs, s.mask);
    ReadOutsideWrite(m, base - STUB_BYTES, StubBytes(s.segGs, a.handler), base, 20);
  }

  /** When a debug event with a signal pending can be taken: whenever the stack has room and the signal is not
      one that ends the process. */
  lemma SignalEnabledExactly(c: Config)
    requires Inv(c)
    ensures Enabled(c, Signal) <==>
      var sig := LowestPending(c.s.pending); sig < 64 && c.s.regs.esp >= 902 && !Fatal(c.s, sig)
  {
  }

  // ---- Signals that are not handled --------------------------------------------------------

  /** Nobody sends `sig` during the run. */
  ghost predicate NotSent(steps: seq<Step>, sig: nat)
  {
    forall i :: 0 <= i < |steps| ==>
      && (steps[i].User? ==> sig < |steps[i].after.pending| && !steps[i].after.pending[sig])
      && (steps[i].Interfere? ==> sig < |steps[i].pending| && !steps[i].pending[sig])
  }

  /** Some step of the run acts on `sig`. */
  ghost predicate ActsOn(c: Config, steps: seq<Step>, sig: nat)
    requires Inv(c) && Runnable(c, steps)
    decreases |steps|
  {
    steps != [] && ((steps[0].Signal? && LowestPending(c.s.pending) == sig)
      || (StepKeepsInv(c, steps[0]); ActsOn(After(c, steps[0]), steps[1..], sig)))
  }

  lemma {:induction false} NotPendingNotActedOn(c: Config, steps: seq<Step>, sig: nat)
    requires Inv(c) && Runnable(c, steps) && sig < NSIG && !c.s.pending[sig] && NotSent(steps, sig)
    ensures !ActsOn(c, steps, sig) && Inv(Final(c, steps)) && !Final(c, steps).s.pending[sig]
    decreases |steps|
  {
    if steps != [] {
      StepKeepsInv(c, steps[0]);
      assert !After(c, steps[0]).s.pending[sig];
      NotPendingNotActedOn(After(c, steps[0]), steps[1..], sig);
    }
  }

  /** A signal that is masked when its turn comes is lost: no frame is pushed, and however masks change
      afterwards nothing ever acts on it, unless it is sent once more. */
  lemma MaskedSignalIsLost(c: Config, steps: seq<Step>)
    requires Inv(c) && Enabled(c, Signal) && HasSig(c.s.mask, LowestPending(c.s.pending))
    requires Inv(After(c, Signal)) && Runnable(After(c, Signal), steps) && NotSent(steps, LowestPending(c.s.pending))
    ensures After(c, Signal).acts == c.acts + [StubFor(ClearPending(c.s, LowestPending(c.s.pending)))]
    ensures !ActsOn(After(c, Signal), steps, LowestPending(c.s.pending))
  {
    var sig := LowestPending(c.s.pending);
    DispatchExactly(c.s);
    assert c.acts + [] == c.acts;
    NotPendingNotActedOn(After(c, Signal), steps, sig);
  }
}
