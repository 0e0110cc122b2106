/** exec: carrying argv and envp through the kernel and building the new program's initial stack. */
module InitialStack {
  import opened Words
  import opened ByteMemory
  import opened AddressSpace
  import opened Transfer
  import opened BulkMemory
  import opened StringLists
  import opened Allocator

  /** Values for the auxiliary vector. */
  datatype Aux = Aux(gid: u32, uid: u32, entry: u32, interpBase: u32, phnum: u32, phent: u32, phdr: u32)

  /** Type and value of each entry, ending with AT_NULL. */
  function AuxWords(a: Aux): (ws: seq<u32>)
    ensures |ws| == 18
  {
    [13, a.gid, 11, a.uid, 9, a.entry, 7, a.interpBase, 5, a.phnum, 4, a.phent, 3, a.phdr, 6, 0x1000, 0, 0]
  }

  const AUX_RESERVE := 160

  function StackNeeded(argc: nat, envc: nat): nat { 4 * (envc + 1 + argc + 1) + AUX_RESERVE + 4 }

  /** Behind argc come argv and its null pointer, envp and its, and the auxiliary vector. */
  function EnvAt(sp: nat, argc: nat): (at: nat)
    ensures at == sp + 4 * argc + 8
  {
    sp + 4 + ArrayBytes(argc)
  }

  function AuxAt(sp: nat, argc: nat, envc: nat): (at: nat)
    ensures at == sp + 4 * argc + 4 * envc + 12
  {
    EnvAt(sp, argc) + ArrayBytes(envc)
  }

  /** The initial process stack of the i386 System V ABI, as the new program reads it from `sp`. */
  ghost predicate StackAt(m: Memory, pages: PageTable, sp: u32, argv: seq<seq<byte>>, envp: seq<seq<byte>>, aux: Aux)
  {
    var n, k := |argv|, |envp|;
    && sp + StackNeeded(n, k) < TWO32
    && Word(m, sp) == n
    && ListAt(m, pages, sp + 4, argv)
    && ListAt(m, pages, EnvAt(sp, n), envp)
    && AuxVectorAt(m, AuxAt(sp, n, k), aux)
  }

  /** Entry `j` of the auxiliary vector: its type and its value. */
  ghost predicate AuxEntry(m: Memory, at: u32, j: nat, typ: u32, value: u32)
    requires j < 10
  {
    Word(m, Add(at, 8 * j)) == typ && Word(m, Add(at, 8 * j + 4)) == value
  }

  /** The auxiliary vector up to AT_NULL, and the end marker. */
  ghost predicate AuxVectorAt(m: Memory, at: u32, aux: Aux)
  {
    && at + 76 <= TWO32
    && (forall j :: 0 <= j < 18 ==> Word(m, Add(at, 4 * j)) == AuxWords(aux)[j])
    && Word(m, Add(at, 72)) == 0
  }

  /** What the new program finds in it: AT_GID, AT_UID, AT_ENTRY, AT_BASE, AT_PHNUM, AT_PHENT, AT_PHDR, AT_PAGESZ
      and AT_NULL, each with its value. */
  lemma AuxValues(m: Memory, at: u32, aux: Aux)
    requires AuxVectorAt(m, at, aux)
    ensures AuxEntry(m, at, 0, 13, aux.gid) && AuxEntry(m, at, 1, 11, aux.uid) && AuxEntry(m, at, 2, 9, aux.entry)
    ensures AuxEntry(m, at, 3, 7, aux.interpBase) && AuxEntry(m, at, 4, 5, aux.phnum)
    ensures AuxEntry(m, at, 5, 4, aux.phent) && AuxEntry(m, at, 6, 3, aux.phdr)
    ensures AuxEntry(m, at, 7, 6, 0x1000) && AuxEntry(m, at, 8, 0, 0)
  {
    AuxEntryAt(m, at, aux, 0, 0, 13, aux.gid);
    AuxEntryAt(m, at, aux, 1, 2, 11, aux.uid);
    AuxEntryAt(m, at, aux, 2, 4, 9, aux.entry);
    AuxEntryAt(m, at, aux, 3, 6, 7, aux.interpBase);
    AuxHeaders(m, at, aux);
  }

  lemma AuxHeaders(m: Memory, at: u32, aux: Aux)
    requires AuxVectorAt(m, at, aux)
    ensures AuxEntry(m, at, 4, 5, aux.phnum) && AuxEntry(m, at, 5, 4, aux.phent) && AuxEntry(m, at, 6, 3, aux.phdr)
    ensures AuxEntry(m, at, 7, 6, 0x1000) && AuxEntry(m, at, 8, 0, 0)
  {
    AuxEntryAt(m, at, aux, 4, 8, 5, aux.phnum);
    AuxEntryAt(m, at, aux, 5, 10, 4, aux.phent);
    AuxEntryAt(m, at, aux, 6, 12, 3, aux.phdr);
    AuxEntryAt(m, at, aux, 7, 14, 6, 0x1000);
    AuxEntryAt(m, at, aux, 8, 16, 0, 0);
  }

  lemma AuxEntryAt(m: Memory, at: u32, aux: Aux, j: nat, i: nat, typ: u32, value: u32)
    requires AuxVectorAt(m, at, aux) && j < 9 && i == 2 * j
    requires typ == AuxWords(aux)[i] && value == AuxWords(aux)[i + 1]
    ensures AuxEntry(m, at, j, typ, value)
  {
    assert 4 * i == 8 * j && 4 * (i + 1) == 8 * j + 4;
    assert Word(m, Add(at, 4 * i)) == AuxWords(aux)[i] && Word(m, Add(at, 4 * (i + 1))) == AuxWords(aux)[i + 1];
  }

  /** Everything written to the stack, lowest address first. */
  function StackBytes(argc: u32, args: seq<byte>, env: seq<byte>, ws: seq<u32>): seq<byte>
  {
    Le32(argc) + (args + (env + (EncodeWords(ws) + Le32(0))))
  }

  /** A pointer array that equals a packed list's array is a list of the same strings. */
  lemma ClonedArray(m: Memory, pages: PageTable, p: u32, strs: seq<seq<byte>>, q: u32)
    requires Clean(strs) && Packed(m, pages, p, strs) && 0 < q && q + ArrayBytes(|strs|) < TWO32
    requires AllUsable(pages, q, ArrayBytes(|strs|)) && Read(m, q, ArrayBytes(|strs|)) == Read(m, p, ArrayBytes(|strs|))
    ensures ListAt(m, pages, q, strs)
  {
    PackedIsList(m, pages, p, strs);
    forall i | 0 <= i <= |strs|
      ensures Word(m, Add(q, 4 * i)) == Word(m, Add(p, 4 * i))
    {
      ReadPart(m, q, ArrayBytes(|strs|), 4 * i, 4);
      ReadPart(m, p, ArrayBytes(|strs|), 4 * i, 4);
    }
    forall i | 0 <= i < |strs|
      ensures EntryAt(m, pages, q, i, strs[i])
    {
      assert EntryAt(m, pages, p, i, strs[i]);
    }
  }

  /** The parts of the stack, read back from where each begins. */
  lemma StackParts(m: Memory, sp: u32, argc: u32, args: seq<byte>, env: seq<byte>, ws: seq<u32>, a: u32, e: u32,
                   x: u32, z: u32)
    requires z + 4 < TWO32 && a == sp + 4 && e == a + |args| && x == e + |env| && z == x + 4 * |ws|
    requires Read(m, sp, |StackBytes(argc, args, env, ws)|) == StackBytes(argc, args, env, ws)
    ensures Word(m, sp) == argc && Read(m, a, |args|) == args && Read(m, e, |env|) == env
    ensures Read(m, x, 4 * |ws|) == EncodeWords(ws) && Word(m, z) == 0
  {
    var aux := EncodeWords(ws);
    ReadConcat(m, sp, Le32(argc), args + (env + (aux + Le32(0))));
    assert sp + |Le32(argc)| == a;
    ReadConcat(m, a, args, env + (aux + Le32(0)));
    assert a + |args| == e;
    ReadConcat(m, e, env, aux + Le32(0));
    assert e + |env| == x;
    ReadConcat(m, x, aux, Le32(0));
    assert x + |aux| == z;
    Le32RoundTrip(argc);
    Le32RoundTrip(0);
  }

  lemma AuxReadable(m: Memory, at: u32, ws: seq<u32>, j: nat)
    requires at + 4 * |ws| < TWO32 && Read(m, at, 4 * |ws|) == EncodeWords(ws) && j < |ws|
    ensures Word(m, Add(at, 4 * j)) == ws[j]
  {
    assert Read(m, Add(at, 4 * j), 4) == Le32(ws[j]) by {
      ReadPart(m, at, 4 * |ws|, 4 * j, 4);
      EncodeAt(ws, j);
    }
    WordIs(m, Add(at, 4 * j), ws[j]);
  }

  lemma UsablePart(pages: PageTable, sp: u32, n: nat, off: nat, k: nat)
    requires sp + n < TWO32 && off + k <= n && AllUsable(pages, sp, n)
    ensures AllUsable(pages, sp + off, k)
  {
    AddAddUsable(pages, sp, n, off, k);
  }

  lemma AuxPart(m: Memory, at: u32, z: u32, aux: Aux)
    requires at + 76 < TWO32 && z == at + 4 * |AuxWords(aux)| && Word(m, z) == 0
    requires Read(m, at, 4 * |AuxWords(aux)|) == EncodeWords(AuxWords(aux))
    ensures AuxVectorAt(m, at, aux)
  {
    forall j | 0 <= j < 18
      ensures Word(m, Add(at, 4 * j)) == AuxWords(aux)[j]
    {
      AuxReadable(m, at, AuxWords(aux), j);
    }
  }

  lemma ListOnStack(m: Memory, pages: PageTable, p: u32, strs: seq<seq<byte>>, sp: u32, n: nat, off: nat, at: u32)
    requires Clean(strs) && Packed(m, pages, p, strs) && sp + n < TWO32 && AllUsable(pages, sp, n)
    requires 0 < at == sp + off && off + ArrayBytes(|strs|) <= n
    requires Read(m, at, ArrayBytes(|strs|)) == Read(m, p, ArrayBytes(|strs|))
    ensures ListAt(m, pages, at, strs)
  {
    UsablePart(pages, sp, n, off, ArrayBytes(|strs|));
    ClonedArray(m, pages, p, strs, at);
  }

  /** What the bytes of the finished stack amount to. */
  lemma StackIsRight(m: Memory, pages: PageTable, sp: u32, pArgs: u32, argv: seq<seq<byte>>, pEnv: u32,
                     envp: seq<seq<byte>>, aux: Aux)
    requires Clean(argv) && Clean(envp) && Packed(m, pages, pArgs, argv) && Packed(m, pages, pEnv, envp)
    requires 0 < sp && sp + StackNeeded(|argv|, |envp|) < TWO32 && AllUsable(pages, sp, StackNeeded(|argv|, |envp|))
    requires var bs := StackBytes(|argv|, Read(m, pArgs, ArrayBytes(|argv|)), Read(m, pEnv, ArrayBytes(|envp|)),
                                  AuxWords(aux));
             Read(m, sp, |bs|) == bs
    ensures StackAt(m, pages, sp, argv, envp, aux)
  {
    var n, k := |argv|, |envp|;
    var a, e, x, z := sp + 4, EnvAt(sp, n), AuxAt(sp, n, k), AuxAt(sp, n, k) + 4 * |AuxWords(aux)|;
    StackParts(m, sp, n, Read(m, pArgs, ArrayBytes(n)), Read(m, pEnv, ArrayBytes(k)), AuxWords(aux), a, e, x, z);
    ListOnStack(m, pages, pArgs, argv, sp, StackNeeded(n, k), 4, a);
    ListOnStack(m, pages, pEnv, envp, sp, StackNeeded(n, k), 4 + ArrayBytes(n), e);
    AuxPart(m, x, z, aux);
  }

  // ---- Building it -------------------------------------------------------------------------

  /** The next bytes of a contiguous run that began at `sp`. */
  method PushBytes(user: Space, sp: u32, bs: seq<byte>, ghost m0: Memory, ghost done: seq<byte>, addr: u32)
    returns (next: u32)
    requires sp + |done| + |bs| < TWO32 && addr == sp + |done| && user.mem == Store(m0, user.pages, sp, done)
    modifies user`mem
    ensures user.mem == Store(m0, user.pages, sp, done + bs) && next == sp + |done + bs|
  {
    StoreAppend(m0, user.pages, sp, done, bs);
    WriteMemory(user, addr, bs);
    next := addr + |bs|;
  }

  /** The same, for bytes cloned from elsewhere in the process. */
  method PushClone(user: Space, sp: u32, p: u32, len: nat, ghost m0: Memory, ghost done: seq<byte>, addr: u32)
    returns (next: u32)
    requires sp + |done| + len < TWO32 && len <= 0x7FFF_F000 && addr == sp + |done|
    requires user.mem == Store(m0, user.pages, sp, done)
    requires AllUsable(user.pages, p, len) && Apart(sp, |done| + len, p, len)
    modifies user`mem
    ensures user.mem == Store(m0, user.pages, sp, done + Read(m0, p, len)) && next == sp + |done| + len
  {
    ApartPrefix(sp, |done| + len, p, len, |done|);
    ReadOutsideStore(m0, user.pages, sp, done, p, len);
    ApartPart(sp, |done| + len, p, len, |done|, len);
    assert Add(sp, |done|) == addr;
    StoreAppend(m0, user.pages, sp, done, Read(m0, p, len));
    TransferMemory(user, p, user, addr, len);
    next := addr + len;
  }

  /** The auxiliary vector, pair by pair. */
  method PushAux(user: Space, sp: u32, aux: Aux, ghost m0: Memory, ghost done: seq<byte>, start: u32)
    returns (next: u32)
    requires sp + |done| + 72 < TWO32 && start == sp + |done| && user.mem == Store(m0, user.pages, sp, done)
    modifies user`mem
    ensures user.mem == Store(m0, user.pages, sp, done + EncodeWords(AuxWords(aux))) && next == start + 72
  {
    var ws := AuxWords(aux);
    next := start;
    var k := 0;
    assert done + EncodeWords(ws[..0]) == done;
    while k < 9
      invariant 0 <= k <= 9 && next == sp + |done| + 8 * k
      invariant user.mem == Store(m0, user.pages, sp, done + EncodeWords(ws[..2 * k]))
    {
      var pair := Le32(ws[2 * k]) + Le32(ws[2 * k + 1]);
      EncodePair(ws, k);
      next := PushBytes(user, sp, pair, m0, done + EncodeWords(ws[..2 * k]), next);
      assert done + EncodeWords(ws[..2 * k]) + pair == done + EncodeWords(ws[..2 * k + 2]);
      k := k + 1;
    }
    assert ws[..18] == ws;
  }

  lemma EncodePair(ws: seq<u32>, k: nat)
    requires 2 * k + 1 < |ws|
    ensures EncodeWords(ws[..2 * k + 2]) == EncodeWords(ws[..2 * k]) + (Le32(ws[2 * k]) + Le32(ws[2 * k + 1]))
  {
    TakeNext(ws, 2 * k);
    TakeNext(ws, 2 * k + 1);
    EncodeAppend(ws[..2 * k], ws[2 * k]);
    EncodeAppend(ws[..2 * k + 1], ws[2 * k + 1]);
  }

  /** argc, argv, envp, auxv and the end marker in one contiguous run inside the reserved bytes. */
  method BuildStack(user: Space, sp: u32, pArgs: u32, argc: nat, pEnv: u32, envc: nat, aux: Aux)
    requires argc < 0x1000_0000 && envc < 0x1000_0000 && sp + StackNeeded(argc, envc) < TWO32
    requires AllUsable(user.pages, pArgs, ArrayBytes(argc)) && AllUsable(user.pages, pEnv, ArrayBytes(envc))
    requires Apart(sp, StackNeeded(argc, envc), pArgs, ArrayBytes(argc))
    requires Apart(sp, StackNeeded(argc, envc), pEnv, ArrayBytes(envc))
    modifies user`mem
    ensures var m0 := old(user.mem);
            var args, env := Read(m0, pArgs, ArrayBytes(argc)), Read(m0, pEnv, ArrayBytes(envc));
            user.mem == Store(m0, user.pages, sp, StackBytes(argc, args, env, AuxWords(aux)))
  {
    ghost var m0, n := user.mem, StackNeeded(argc, envc);
    ghost var args, env := Read(m0, pArgs, ArrayBytes(argc)), Read(m0, pEnv, ArrayBytes(envc));
    StoreNothing(m0, user.pages, sp);
    var addr := PushBytes(user, sp, Le32(argc), m0, [], sp);
    ghost var done := [] + Le32(argc);
    ApartPrefix(sp, n, pArgs, ArrayBytes(argc), |done| + ArrayBytes(argc));
    addr := PushClone(user, sp, pArgs, ArrayBytes(argc), m0, done, addr);
    done := done + args;
    ApartPrefix(sp, n, pEnv, ArrayBytes(envc), |done| + ArrayBytes(envc));
    addr := PushClone(user, sp, pEnv, ArrayBytes(envc), m0, done, addr);
    done := done + env;
    addr := PushAux(user, sp, aux, m0, done, addr);
    done := done + EncodeWords(AuxWords(aux));
    addr := PushBytes(user, sp, Le32(0), m0, done, addr);
    Regrouped(Le32(argc), args, env, EncodeWords(AuxWords(aux)), Le32(0));
  }

  lemma Regrouped(a: seq<byte>, b: seq<byte>, c: seq<byte>, d: seq<byte>, e: seq<byte>)
    ensures [] + a + b + c + d + e == a + (b + (c + (d + e)))
  {
  }

  /** Room on the new stack for the program's arguments. */
  ghost predicate StackRoom(pages: PageTable, esp: u32, argv: seq<seq<byte>>, envp: seq<seq<byte>>)
  {
    var n := StackNeeded(|argv|, |envp|);
    n < esp && AllUsable(pages, esp - n, n)
  }

  /** A program can read its arguments only from a stack that has memory for both pointer arrays. */
  lemma StackNeedsPages(m: Memory, pages: PageTable, sp: u32, argv: seq<seq<byte>>, envp: seq<seq<byte>>, aux: Aux)
    requires StackAt(m, pages, sp, argv, envp, aux)
    ensures AllUsable(pages, sp + 4, ArrayBytes(|argv|) + ArrayBytes(|envp|))
  {
    var a, n, k := sp + 4, ArrayBytes(|argv|), ArrayBytes(|envp|);
    forall i | 0 <= i < n + k
      ensures Usable(pages, Add(a, i))
    {
      assert i >= n ==> Add(a, i) == Add(EnvAt(sp, |argv|), i - n);
    }
  }

  ghost predicate ArgumentsOk(strs: seq<seq<byte>>)
  {
    Clean(strs) && TotalBytes(strs) < 0x8000_0000
  }

  /** Both lists packed in the process, away from the stack. */
  ghost predicate Staged(m: Memory, pages: PageTable, p: u32, strs: seq<seq<byte>>, sp: u32, n: nat)
  {
    Packed(m, pages, p, strs) && n <= TWO32 && Apart(p, TotalBytes(strs), sp, n)
  }

  /** Building the stack leaves a staged list packed. */
  lemma StagedSurvives(m: Memory, pages: PageTable, p: u32, strs: seq<seq<byte>>, sp: u32, n: nat, bs: seq<byte>)
    requires Staged(m, pages, p, strs, sp, n) && |bs| <= n
    ensures Packed(Store(m, pages, sp, bs), pages, p, strs)
    ensures Read(Store(m, pages, sp, bs), p, ArrayBytes(|strs|)) == Read(m, p, ArrayBytes(|strs|))
    ensures Apart(sp, n, p, ArrayBytes(|strs|))
  {
    ApartPrefix(sp, n, p, TotalBytes(strs), |bs|);
    ReadOutsideStore(m, pages, sp, bs, p, TotalBytes(strs));
    ApartPrefix(p, TotalBytes(strs), sp, n, ArrayBytes(|strs|));
    ApartPrefix(sp, n, p, ArrayBytes(|strs|), |bs|);
    ReadOutsideStore(m, pages, sp, bs, p, ArrayBytes(|strs|));
  }

  /** A list copied into pages that were free stays clear of the stack, which was not. */
  lemma FreshIsStaged(p0: PageTable, m: Memory, pages: PageTable, p: u32, strs: seq<seq<byte>>, sp: u32, n: nat)
    requires Packed(m, pages, p, strs) && Fresh(p0, p, TotalBytes(strs)) && n <= TWO32 && AllUsable(p0, sp, n)
    ensures Staged(m, pages, p, strs, sp, n)
  {
    FreshIsApart(p0, p, TotalBytes(strs), sp, n);
  }

  /** From both lists staged to the finished stack. */
  method FinishStack(user: Space, sp: u32, pArgs: u32, pEnv: u32, argc: nat, envc: nat, aux: Aux,
                     ghost argv: seq<seq<byte>>, ghost envp: seq<seq<byte>>,
                     ghost n: nat, ghost before: Memory, ghost p0: PageTable)
    requires Clean(argv) && Clean(envp) && argc == |argv| && envc == |envp| && Keeps(before, p0, user.mem, user.pages)
    requires n == StackNeeded(argc, envc) && 0 < sp && sp + n < TWO32 && AllUsable(user.pages, sp, n)
    requires Staged(user.mem, user.pages, pArgs, argv, sp, n) && Staged(user.mem, user.pages, pEnv, envp, sp, n)
    modifies user`mem
    ensures StackAt(user.mem, user.pages, sp, argv, envp, aux)
    ensures KeepsOutside(before, p0, user.mem, user.pages, sp, n)
  {
    ghost var m0, pages := user.mem, user.pages;
    ghost var args, env := Read(m0, pArgs, ArrayBytes(argc)), Read(m0, pEnv, ArrayBytes(envc));
    ghost var bs := StackBytes(argc, args, env, AuxWords(aux));
    StagedSurvives(m0, pages, pArgs, argv, sp, n, bs);
    StagedSurvives(m0, pages, pEnv, envp, sp, n, bs);
    ArraysUsable(pages, pArgs, argv, m0);
    ArraysUsable(pages, pEnv, envp, m0);
    BuildStack(user, sp, pArgs, argc, pEnv, envc, aux);
    WrittenStack(m0, pages, sp, n, bs);
    KeepsThenBut(before, p0, m0, pages, user.mem, pages, sp, n);
    StackIsRight(user.mem, pages, sp, pArgs, argv, pEnv, envp, aux);
  }

  lemma ArraysUsable(pages: PageTable, p: u32, strs: seq<seq<byte>>, m: Memory)
    requires Packed(m, pages, p, strs)
    ensures AllUsable(pages, p, ArrayBytes(|strs|))
  {
  }

  lemma WrittenStack(m: Memory, pages: PageTable, sp: u32, n: nat, bs: seq<byte>)
    requires sp + n < TWO32 && |bs| <= n && AllUsable(pages, sp, n)
    ensures Read(Store(m, pages, sp, bs), sp, |bs|) == bs
    ensures KeepsOutside(m, pages, Store(m, pages, sp, bs), pages, sp, n)
  {
    StoreIsWrite(m, pages, sp, bs);
    ReadOfWrite(m, sp, bs, 0, |bs|);
    assert Add(sp, 0) == sp;
  }

  lemma KeepsThenBut(m0: Memory, p0: PageTable, m1: Memory, p1: PageTable, m2: Memory, p2: PageTable, a: int, n: int)
    requires Keeps(m0, p0, m1, p1) && KeepsOutside(m1, p1, m2, p2, a, n)
    ensures KeepsOutside(m0, p0, m2, p2, a, n)
  {
    forall x | 0 <= x < TWO32 && !(a <= x < a + n) && Usable(p0, x)
      ensures Usable(p2, x) && m2[x] == m0[x]
    {
      assert Usable(p1, x);
    }
  }

  /** StartNewImageRunning: the lists move from the kernel to the process, and its stack is built
      below `esp`. Whenever Windows has room, the new program finds on its stack exactly the
      arguments and environment the kernel held. */
  method StartNewImageRunning(kernel: Space, user: Space, kArgs: u32, kEnv: u32, esp: u32, aux: Aux,
                              ghost argv: seq<seq<byte>>, ghost envp: seq<seq<byte>>) returns (ok: bool, sp: u32)
    requires kernel != user && SpaceOk(user.pages) && ArgumentsOk(argv) && ArgumentsOk(envp)
    requires StackRoom(user.pages, esp, argv, envp)
    requires Packed(kernel.mem, kernel.pages, kArgs, argv) && Packed(kernel.mem, kernel.pages, kEnv, envp)
    modifies kernel`mem, user`mem, user`pages, user`refusals
    ensures kernel.mem == old(kernel.mem) && SpaceOk(user.pages)
    ensures user.refusals >= old(user.refusals) && (!ok ==> user.refusals > old(user.refusals))
    ensures ok ==> sp == esp - StackNeeded(|argv|, |envp|) && StackAt(user.mem, user.pages, sp, argv, envp, aux)
    ensures var n := StackNeeded(|argv|, |envp|);
            KeepsOutside(old(user.mem), old(user.pages), user.mem, user.pages, esp - n, n)
  {
    ghost var n := StackNeeded(|argv|, |envp|);
    ghost var stack := esp - n;
    ghost var m0, p0 := user.mem, user.pages;
    sp := esp;
    var pArgs, argc, pEnv, envc;
    ok, pArgs, argc, pEnv, envc := StageLists(kernel, user, kArgs, kEnv, stack, n, argv, envp);
    if !ok {
      KeepsMore(m0, p0, user.mem, user.pages, stack, n);
      return;
    }
    sp := esp - StackNeeded(argc, envc);
    assert sp == stack;
    FinishStack(user, sp, pArgs, pEnv, argc, envc, aux, argv, envp, n, m0, p0);
  }

  lemma KeepsMore(m0: Memory, p0: PageTable, m1: Memory, p1: PageTable, a: int, n: int)
    requires Keeps(m0, p0, m1, p1)
    ensures KeepsOutside(m0, p0, m1, p1, a, n)
  {
  }

  /** Both lists copied into the process, environment first, clear of the stack's `n` bytes. */
  method StageLists(kernel: Space, user: Space, kArgs: u32, kEnv: u32, ghost stack: u32, ghost n: nat,
                    ghost argv: seq<seq<byte>>, ghost envp: seq<seq<byte>>)
    returns (ok: bool, pArgs: u32, argc: nat, pEnv: u32, envc: nat)
    requires kernel != user && SpaceOk(user.pages) && ArgumentsOk(argv) && ArgumentsOk(envp)
    requires Packed(kernel.mem, kernel.pages, kArgs, argv) && Packed(kernel.mem, kernel.pages, kEnv, envp)
    requires n <= TWO32 && AllUsable(user.pages, stack, n)
    modifies kernel`mem, user`mem, user`pages, user`refusals
    ensures kernel.mem == old(kernel.mem) && SpaceOk(user.pages)
    ensures user.refusals >= old(user.refusals) && (!ok ==> user.refusals > old(user.refusals))
    ensures Keeps(old(user.mem), old(user.pages), user.mem, user.pages) && AllUsable(user.pages, stack, n)
    ensures ok ==> && argc == |argv| && envc == |envp|
                   && Staged(user.mem, user.pages, pArgs, argv, stack, n)
                   && Staged(user.mem, user.pages, pEnv, envp, stack, n)
  {
    ghost var m0, p0 := user.mem, user.pages;
    PackedIsList(kernel.mem, kernel.pages, kEnv, envp);
    PackedIsList(kernel.mem, kernel.pages, kArgs, argv);
    pArgs, argc := 0, 0;
    ok, pEnv, envc := CopyStringListBetweenProcesses(kernel, kEnv, user, envp);
    ghost var m1, p1 := user.mem, user.pages;
    ReadKept(m0, p0, m1, p1, stack, n);
    if !ok {
      return;
    }
    FreshIsStaged(p0, m1, p1, pEnv, envp, stack, n);
    ok, pArgs, argc := CopyStringListBetweenProcesses(kernel, kArgs, user, argv);
    ghost var m2, p2 := user.mem, user.pages;
    KeepsOn(m0, p0, m1, p1, m2, p2);
    ReadKept(m1, p1, m2, p2, stack, n);
    if !ok {
      return;
    }
    FreshIsStaged(p1, m2, p2, pArgs, argv, stack, n);
    PackedKept(m1, p1, m2, p2, pEnv, envp);
  }

  lemma KeepsOn(m0: Memory, p0: PageTable, m1: Memory, p1: PageTable, m2: Memory, p2: PageTable)
    requires Keeps(m0, p0, m1, p1) && Keeps(m1, p1, m2, p2)
    ensures Keeps(m0, p0, m2, p2)
  {
    forall x | 0 <= x < TWO32 && Usable(p0, x)
      ensures Usable(p2, x) && m2[x] == m0[x]
    {
      assert Usable(p1, x);
    }
  }

  /** execve of a non-script image, end to end. `user` is the caller's memory when it calls, `image`
      the same process's memory once the new image has replaced it. Whatever argv and envp the
      caller passed, the new program reads them from its stack pointer. */
  method SysExecve(user: Space, argvAddr: u32, envpAddr: u32, kernel: Space, image: Space, esp: u32, aux: Aux,
                   ghost argv: seq<seq<byte>>, ghost envp: seq<seq<byte>>) returns (ok: bool, sp: u32)
    requires user != kernel && image != kernel && SpaceOk(kernel.pages) && SpaceOk(image.pages)
    requires ListAt(user.mem, user.pages, argvAddr, argv) && ListAt(user.mem, user.pages, envpAddr, envp)
    requires ArgumentsOk(argv) && ArgumentsOk(envp) && StackRoom(image.pages, esp, argv, envp)
    modifies user`mem, kernel`mem, kernel`pages, kernel`refusals, image`mem, image`pages, image`refusals
    ensures user != image ==> user.mem == old(user.mem)
    ensures Keeps(old(kernel.mem), old(kernel.pages), kernel.mem, kernel.pages)
    ensures var n := StackNeeded(|argv|, |envp|);
            KeepsOutside(old(image.mem), old(image.pages), image.mem, image.pages, esp - n, n)
    ensures !ok ==> kernel.refusals + image.refusals > old(kernel.refusals + image.refusals)
    ensures ok ==> sp == esp - (4 * |argv| + 4 * |envp| + 172) && StackAt(image.mem, image.pages, sp, argv, envp, aux)
  {
    sp := esp;
    var kArgs, argc, kEnv, envc;
    ok, kArgs, argc := CopyStringListBetweenProcesses(user, argvAddr, kernel, argv);
    if !ok {
      return;
    }
    ghost var m1, p1 := kernel.mem, kernel.pages;
    ok, kEnv, envc := CopyStringListBetweenProcesses(user, envpAddr, kernel, envp);
    KeepsOn(old(kernel.mem), old(kernel.pages), m1, p1, kernel.mem, kernel.pages);
    if !ok {
      return;
    }
    PackedKept(m1, p1, kernel.mem, kernel.pages, kArgs, argv);
    ok, sp := StartNewImageRunning(kernel, image, kArgs, kEnv, esp, aux, argv, envp);
  }
}
