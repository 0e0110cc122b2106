/** Per-thread segment descriptors in one flat per-process table. Entry numbers are shared between
    threads, slots are not: a thread's first set of a number that another thread was given
    takes a slot of its own. */
module Ldt {
  import opened Kernel
  import opened Words
  import opened Descriptors

  const MAX_LDT_ENTRIES := 8192
  const FIRST_USABLE_LDT_ENTRY := 16
  const ANY_ENTRY: u32 := 0xFFFF_FFFF

  /** One element of m_LdtEntries. */
  datatype LdtData = LdtData(owner: u32, reallyLdt: bool, desc: UserDesc)

  /** m_LdtEntries and, slot by slot, what the processor has. */
  datatype Tables = Tables(entries: seq<LdtData>, hardware: seq<LdtEntry>)

  predicate TablesOk(t: Tables)
  {
    |t.entries| == MAX_LDT_ENTRIES && |t.hardware| == MAX_LDT_ENTRIES
  }

  /** The lowest unallocated slot at or above `i`, or -1. */
  function FirstFree(t: Tables, i: nat): (r: int)
    requires TablesOk(t) && i <= MAX_LDT_ENTRIES
    ensures r == -1 || (i <= r < MAX_LDT_ENTRIES && t.entries[r].owner == 0)
    ensures forall j :: i <= j < (if r == -1 then MAX_LDT_ENTRIES else r) ==> t.entries[j].owner != 0
    decreases MAX_LDT_ENTRIES - i
  {
    if i == MAX_LDT_ENTRIES then -1 else if t.entries[i].owner == 0 then i else FirstFree(t, i + 1)
  }

  predicate Holds(d: LdtData, tid: u32, e: int)
  {
    d.desc.entryNumber == e && d.owner == tid
  }

  /** The lowest slot at or above `i` in which `tid` recorded entry number `e`, or -1. */
  function FirstHolding(t: Tables, tid: u32, e: int, i: nat): (r: int)
    requires TablesOk(t) && i <= MAX_LDT_ENTRIES
    ensures r == -1 || (i <= r < MAX_LDT_ENTRIES && Holds(t.entries[r], tid, e))
    ensures forall j :: i <= j < (if r == -1 then MAX_LDT_ENTRIES else r) ==> !Holds(t.entries[j], tid, e)
    decreases MAX_LDT_ENTRIES - i
  {
    if i == MAX_LDT_ENTRIES then -1 else if Holds(t.entries[i], tid, e) then i else FirstHolding(t, tid, e, i + 1)
  }

  /** AllocateLDTSelector. A slot allocated for a real LDT is a marker owned by nobody. */
  function Allocate(t: Tables, tid: u32, forLdt: bool): (r: (Tables, int))
    requires TablesOk(t)
    ensures TablesOk(r.0)
  {
    var i := FirstFree(t, FIRST_USABLE_LDT_ENTRY);
    if i == -1 then (t, -1)
    else
      var d := t.entries[i].(reallyLdt := forLdt, owner := if forLdt then ANY_ENTRY else tid);
      (t.(entries := t.entries[i := d]), i)
  }

  /** CalculateLDTEntryForThread: the slot that entry `e` means for `tid`, allocated if need be; 0 if bad. */
  function Calculate(t: Tables, tid: u32, e: int): (r: (Tables, int))
    requires TablesOk(t)
    ensures TablesOk(r.0) && 0 <= r.1 < MAX_LDT_ENTRIES
  {
    if e >= MAX_LDT_ENTRIES || e <= 0 then (t, 0)
    else if t.entries[e].owner == tid then (t, e)
    else if t.entries[e].owner == 0 then (t, 0)
    else
      var i := FirstHolding(t, tid, e, FIRST_USABLE_LDT_ENTRY);
      if i != -1 then (t, i)
      else
        var (t', n) := Allocate(t, tid, t.entries[e].reallyLdt);
        if n == -1 then (t', 0) else (t', n)
  }

  /** SetLDTSelector; `ntOk` is whether NtSetInformationProcess accepted the entry. */
  function SetSelector(t: Tables, tid: u32, d: UserDesc, reallyLdt: bool, ntOk: bool): (r: (Tables, bool))
    requires TablesOk(t)
    ensures TablesOk(r.0)
  {
    var (t1, i) := Calculate(t, tid, AsInt(d.entryNumber));
    if i == 0 || !ntOk then (t1, false)
    else
      (Tables(t1.entries[i := t1.entries[i].(desc := d, reallyLdt := reallyLdt)], t1.hardware[i := Pack(d)]), true)
  }

  datatype Reply = Reply(eax: int, desc: UserDesc)

  /** sys_set_thread_area. */
  function SetThreadArea(t: Tables, tid: u32, d: UserDesc, ntOk: bool): (r: (Tables, Reply))
    requires TablesOk(t)
    ensures TablesOk(r.0)
  {
    if d.entryNumber == ANY_ENTRY then
      var (t1, n) := Allocate(t, tid, false);
      if n == -1 then (t1, Reply(-ESRCH, d))
      else
        var d1 := d.(entryNumber := n);
        var (t2, ok) := SetSelector(t1, tid, d1, false, ntOk);
        if ok then (t2, Reply(0, d1)) else (t2, Reply(-EINVAL, d))
    else
      var (t2, ok) := SetSelector(t, tid, d, false, ntOk);
      (t2, Reply(if ok then 0 else -EINVAL, d))
  }

  /** sys_get_thread_area: only the entry number of the request is looked at. */
  function GetThreadArea(t: Tables, tid: u32, d: UserDesc): (r: (Tables, Reply))
    requires TablesOk(t)
    ensures TablesOk(r.0)
  {
    var (t1, i) := Calculate(t, tid, AsInt(d.entryNumber));
    if i == 0 then (t1, Reply(-EINVAL, d)) else (t1, Reply(0, t1.entries[i].desc))
  }

  /** The trapped `mov gs, eax`: the selector loaded instead of the invalid one. */
  function TrapGsLoad(t: Tables, tid: u32, eax: u32): (r: (Tables, u32))
    requires TablesOk(t)
    ensures TablesOk(r.0)
  {
    var (t1, i) := Calculate(t, tid, eax / 8);
    (t1, 8 * i + 7)
  }

  // ---- The table as a map from (thread, entry number) to descriptor ------------------------

  type Pair = (u32, int)

  /** The tables with their history: the entry numbers given out for -1 requests, what each thread
      last set, and in which slot. */
  datatype History = History(t: Tables, handed: set<int>, areas: map<Pair, UserDesc>, slots: map<Pair, int>)

  predicate Thread(tid: u32) { 0 < tid < ANY_ENTRY }

  function Recorded(d: LdtData): Pair { (d.owner, d.desc.entryNumber) }

  ghost predicate Inv(h: History)
  {
    && TablesOk(h.t) && h.areas.Keys == h.slots.Keys
    && EntriesOk(h.t.entries) && RecordedOnce(h) && SlotsOk(h) && HandedOk(h)
  }

  ghost predicate EntriesOk(es: seq<LdtData>)
    requires |es| == MAX_LDT_ENTRIES
  {
    && (forall i :: 0 <= i < FIRST_USABLE_LDT_ENTRY ==> es[i].owner == 0)
    && (forall i :: 0 <= i < MAX_LDT_ENTRIES ==> !es[i].reallyLdt)
    && (forall i :: 0 <= i < MAX_LDT_ENTRIES && es[i].owner == 0 ==> es[i].desc.entryNumber == 0)
  }

  ghost predicate SlotsOk(h: History)
    requires TablesOk(h.t) && h.areas.Keys == h.slots.Keys
  {
    && (forall p :: p in h.slots ==> p.1 in h.handed)
    && (forall p {:trigger SlotOk(h, p)} :: p in h.slots ==> SlotOk(h, p))
  }

  /** A slot with a recorded entry number is the slot of the pair it records. */
  ghost predicate RecordedOnce(h: History)
    requires TablesOk(h.t)
  {
    var es := h.t.entries;
    forall i {:trigger Recorded(es[i])} :: 0 <= i < MAX_LDT_ENTRIES && es[i].desc.entryNumber != 0 ==>
      Recorded(es[i]) in h.slots && h.slots[Recorded(es[i])] == i
  }

  /** The slot whose index is an entry number given out belongs to the thread it was given to. */
  ghost predicate HandedOk(h: History)
    requires TablesOk(h.t)
  {
    var es := h.t.entries;
    forall e :: e in h.handed ==>
      FIRST_USABLE_LDT_ENTRY <= e < MAX_LDT_ENTRIES && es[e].owner != 0 && es[e].desc.entryNumber == e
  }

  /** The pair's slot belongs to its thread and holds, in table and hardware, what the thread last set. */
  ghost predicate SlotOk(h: History, p: Pair)
    requires TablesOk(h.t) && h.areas.Keys == h.slots.Keys && p in h.slots
  {
    var i := h.slots[p];
    && FIRST_USABLE_LDT_ENTRY <= i < MAX_LDT_ENTRIES
    && h.t.entries[i].owner == p.0 && p.0 != 0
    && h.t.entries[i].desc == h.areas[p] && h.areas[p].entryNumber == p.1
    && h.t.hardware[i] == Pack(h.areas[p])
  }

  ghost function Initial(entries: seq<LdtData>, hardware: seq<LdtEntry>): History
  {
    History(Tables(entries, hardware), {}, map[], map[])
  }

  /** Distinct (thread, entry) pairs use distinct slots, all in 16..8191. */
  lemma SlotsAreDistinct(h: History, p: Pair, q: Pair)
    requires Inv(h) && p in h.areas && q in h.areas
    ensures 16 <= h.slots[p] < 8192
    ensures h.slots[p] == h.slots[q] <==> p == q
  {
    assert SlotOk(h, p) && SlotOk(h, q);
  }

  datatype Op =
    | Set(tid: u32, desc: UserDesc, ntOk: bool)
    | Get(tid: u32, desc: UserDesc)
    | Trap(tid: u32, eax: u32)

  /** Programs use -1 or numbers they were given. */
  predicate Legal(h: History, op: Op)
  {
    match op
    case Set(tid, d, _) => Thread(tid) && (d.entryNumber == ANY_ENTRY || d.entryNumber in h.handed)
    case Get(tid, d) => Thread(tid) && d.entryNumber in h.handed
    case Trap(tid, eax) => Thread(tid) && eax / 8 in h.handed
  }

  function Apply(h: History, op: Op): History
    requires TablesOk(h.t)
  {
    match op
    case Set(tid, d, ntOk) =>
      var (t, reply) := SetThreadArea(h.t, tid, d, ntOk);
      if reply.eax != 0 then h.(t := t)
      else
        var e := reply.desc.entryNumber;
        var p: Pair := (tid, e);
        History(t, h.handed + {e}, h.areas[p := reply.desc], h.slots[p := Calculate(t, tid, e).1])
    case Get(tid, d) => h.(t := GetThreadArea(h.t, tid, d).0)
    case Trap(tid, eax) => h.(t := TrapGsLoad(h.t, tid, eax).0)
  }

  /** A pair that was set is found, in its slot, without touching the tables. */
  lemma CalculateSetPair(h: History, p: Pair)
    requires Inv(h) && p in h.areas
    ensures Calculate(h.t, p.0, p.1) == (h.t, h.slots[p])
  {
    assert SlotOk(h, p);
    var i := FirstHolding(h.t, p.0, p.1, FIRST_USABLE_LDT_ENTRY);
    assert Holds(h.t.entries[h.slots[p]], p.0, p.1);
    if h.t.entries[p.1].owner == p.0 {
      assert Recorded(h.t.entries[p.1]) == p;
    } else if i != -1 {
      assert Recorded(h.t.entries[i]) == p;
    }
  }

  /** A pair that was not set takes the lowest free slot, or none. */
  lemma CalculateNewPair(h: History, p: Pair)
    requires Inv(h) && Thread(p.0) && p.1 in h.handed && p !in h.areas
    ensures var n := FirstFree(h.t, FIRST_USABLE_LDT_ENTRY);
            Calculate(h.t, p.0, p.1) == if n == -1 then (h.t, 0) else (Allocate(h.t, p.0, false).0, n)
  {
    NobodyHolds(h, p);
    assert !Holds(h.t.entries[p.1], p.0, p.1);
  }

  lemma NobodyHolds(h: History, p: Pair)
    requires Inv(h) && p.1 != 0 && p !in h.slots
    ensures forall j :: 0 <= j < MAX_LDT_ENTRIES ==> !Holds(h.t.entries[j], p.0, p.1)
  {
    forall j | 0 <= j < MAX_LDT_ENTRIES
      ensures !Holds(h.t.entries[j], p.0, p.1)
    {
      assert h.t.entries[j].desc.entryNumber != 0 ==> Recorded(h.t.entries[j]) in h.slots;
    }
  }

  /** Taking a free slot without recording anything in it. */
  lemma AllocateKeepsInv(h: History, tid: u32)
    requires Inv(h) && Thread(tid)
    ensures Inv(h.(t := Allocate(h.t, tid, false).0))
  {
    var h' := h.(t := Allocate(h.t, tid, false).0);
    forall p | p in h'.slots
      ensures p.1 in h'.handed && SlotOk(h', p)
    {
      assert SlotOk(h, p);
    }
  }

  /** Recording a descriptor in slot `i`. */
  function Record(h: History, tid: u32, d: UserDesc, i: int): History
    requires TablesOk(h.t) && 0 <= i < MAX_LDT_ENTRIES
  {
    var p: Pair := (tid, d.entryNumber);
    History(Tables(h.t.entries[i := h.t.entries[i].(desc := d, reallyLdt := false)], h.t.hardware[i := Pack(d)]),
            h.handed + {d.entryNumber as int}, h.areas[p := d], h.slots[p := i])
  }

  /** Slot `i` is the slot of the pair, or the pair has none and `i` is its thread's blank slot. */
  ghost predicate Recordable(h: History, tid: u32, d: UserDesc, i: int)
  {
    var p: Pair := (tid, d.entryNumber);
    && Inv(h) && Thread(tid) && FIRST_USABLE_LDT_ENTRY <= d.entryNumber < MAX_LDT_ENTRIES
    && FIRST_USABLE_LDT_ENTRY <= i < MAX_LDT_ENTRIES && h.t.entries[i].owner == tid
    && (if p in h.slots then h.slots[p] == i else h.t.entries[i].desc.entryNumber == 0)
    && (d.entryNumber in h.handed || d.entryNumber == i)
  }

  lemma RecordSlotOk(h: History, tid: u32, d: UserDesc, i: int, q: Pair)
    requires Recordable(h, tid, d, i) && q in Record(h, tid, d, i).slots
    ensures q.1 in Record(h, tid, d, i).handed && SlotOk(Record(h, tid, d, i), q)
  {
    var p: Pair := (tid, d.entryNumber);
    if q != p {
      assert SlotOk(h, q);
      assert p in h.slots ==> SlotOk(h, p);
      assert h.slots[q] != i;
    }
  }

  lemma RecordRecordedOnce(h: History, tid: u32, d: UserDesc, i: int)
    requires Recordable(h, tid, d, i)
    ensures RecordedOnce(Record(h, tid, d, i))
  {
    var h' := Record(h, tid, d, i);
    forall j | 0 <= j < MAX_LDT_ENTRIES && h'.t.entries[j].desc.entryNumber != 0
      ensures Recorded(h'.t.entries[j]) in h'.slots && h'.slots[Recorded(h'.t.entries[j])] == j
    {
      if j != i {
        assert Recorded(h.t.entries[j]) in h.slots && h.slots[Recorded(h.t.entries[j])] == j;
      }
    }
  }

  lemma RecordHandedOk(h: History, tid: u32, d: UserDesc, i: int)
    requires Recordable(h, tid, d, i)
    ensures HandedOk(Record(h, tid, d, i))
  {
    var h' := Record(h, tid, d, i);
    forall e | e in h'.handed
      ensures FIRST_USABLE_LDT_ENTRY <= e < MAX_LDT_ENTRIES
      ensures h'.t.entries[e].owner != 0 && h'.t.entries[e].desc.entryNumber == e
    {
      if e == i && e in h.handed {
        assert SlotOk(h, (tid, d.entryNumber as int));
      }
    }
  }

  lemma RecordSlotsOk(h: History, tid: u32, d: UserDesc, i: int)
    requires Recordable(h, tid, d, i)
    ensures SlotsOk(Record(h, tid, d, i))
  {
    var h' := Record(h, tid, d, i);
    forall q | q in h'.slots
      ensures q.1 in h'.handed && SlotOk(h', q)
    {
      RecordSlotOk(h, tid, d, i, q);
    }
  }

  lemma RecordKeepsInv(h: History, tid: u32, d: UserDesc, i: int)
    requires Recordable(h, tid, d, i)
    ensures Inv(Record(h, tid, d, i))
  {
    RecordSlotsOk(h, tid, d, i);
    RecordRecordedOnce(h, tid, d, i);
    RecordHandedOk(h, tid, d, i);
  }

  // ---- Every step keeps the refinement -----------------------------------------------------

  predicate HasRoom(t: Tables)
    requires TablesOk(t)
  {
    FirstFree(t, FIRST_USABLE_LDT_ENTRY) != -1
  }

  /** When a set of a numbered entry succeeds: Windows agrees and the pair has, or can get, a slot. */
  predicate Settable(h: History, p: Pair, ntOk: bool)
    requires TablesOk(h.t)
  {
    ntOk && (p in h.areas || HasRoom(h.t))
  }

  /** A set of a numbered entry: the reply, the new map, and the slots, which never move. */
  ghost predicate SetEffect(h: History, tid: u32, d: UserDesc, ntOk: bool)
    requires TablesOk(h.t)
  {
    var p: Pair := (tid, d.entryNumber);
    var h' := Apply(h, Set(tid, d, ntOk));
    && Inv(h') && h'.handed == h.handed
    && SetThreadArea(h.t, tid, d, ntOk).1 == Reply(if Settable(h, p, ntOk) then 0 else -EINVAL, d)
    && h'.areas == (if Settable(h, p, ntOk) then h.areas[p := d] else h.areas)
    && (forall q :: q in h.slots ==> h'.slots[q] == h.slots[q])
    && (Settable(h, p, ntOk) && p !in h.areas ==> h'.slots[p] == FirstFree(h.t, FIRST_USABLE_LDT_ENTRY))
  }

  lemma SetOldPair(h: History, tid: u32, d: UserDesc, ntOk: bool)
    requires Inv(h) && Thread(tid) && d.entryNumber in h.handed && (tid, d.entryNumber as int) in h.areas
    ensures SetEffect(h, tid, d, ntOk)
  {
    var p: Pair := (tid, d.entryNumber);
    CalculateSetPair(h, p);
    var i := h.slots[p];
    assert SlotOk(h, p);
    if ntOk {
      RecordEffect(h, h, tid, d, i);
    }
  }

  lemma NewPairTables(h: History, tid: u32, d: UserDesc)
    requires Inv(h) && Thread(tid) && d.entryNumber in h.handed && (tid, d.entryNumber as int) !in h.areas
    requires HasRoom(h.t)
    ensures var n := FirstFree(h.t, FIRST_USABLE_LDT_ENTRY);
            var h1 := h.(t := Allocate(h.t, tid, false).0);
            SetThreadArea(h.t, tid, d, true) == (Record(h1, tid, d, n).t, Reply(0, d))
  {
    CalculateNewPair(h, (tid, d.entryNumber as int));
  }

  /** A history after which `p` was recorded in slot `i`. */
  lemma RecordEffect(h: History, h1: History, tid: u32, d: UserDesc, i: int)
    requires Recordable(h1, tid, d, i) && h1.slots == h.slots && h1.areas == h.areas && h1.handed == h.handed
    requires TablesOk(h.t) && d.entryNumber in h.handed
    requires SetThreadArea(h.t, tid, d, true) == (Record(h1, tid, d, i).t, Reply(0, d))
    ensures Inv(Record(h1, tid, d, i)) && Apply(h, Set(tid, d, true)) == Record(h1, tid, d, i)
  {
    RecordKeepsInv(h1, tid, d, i);
    CalculateSetPair(Record(h1, tid, d, i), (tid, d.entryNumber as int));
  }

  /** The slot just allocated is blank and belongs to the thread. */
  lemma AllocatedIsRecordable(h: History, tid: u32, d: UserDesc)
    requires Inv(h) && Thread(tid) && d.entryNumber in h.handed && (tid, d.entryNumber as int) !in h.areas
    requires HasRoom(h.t)
    ensures Recordable(h.(t := Allocate(h.t, tid, false).0), tid, d, FirstFree(h.t, FIRST_USABLE_LDT_ENTRY))
  {
    AllocateKeepsInv(h, tid);
  }

  lemma SetNewPairFails(h: History, tid: u32, d: UserDesc, ntOk: bool)
    requires Inv(h) && Thread(tid) && d.entryNumber in h.handed && (tid, d.entryNumber as int) !in h.areas
    requires !(HasRoom(h.t) && ntOk)
    ensures SetEffect(h, tid, d, ntOk)
  {
    CalculateNewPair(h, (tid, d.entryNumber as int));
    AllocateKeepsInv(h, tid);
  }

  lemma SetNewPair(h: History, tid: u32, d: UserDesc, ntOk: bool)
    requires Inv(h) && Thread(tid) && d.entryNumber in h.handed && (tid, d.entryNumber as int) !in h.areas
    ensures SetEffect(h, tid, d, ntOk)
  {
    if HasRoom(h.t) && ntOk {
      AllocatedIsRecordable(h, tid, d);
      NewPairTables(h, tid, d);
      RecordEffect(h, h.(t := Allocate(h.t, tid, false).0), tid, d, FirstFree(h.t, FIRST_USABLE_LDT_ENTRY));
    } else {
      SetNewPairFails(h, tid, d, ntOk);
    }
  }

  lemma SetNumbered(h: History, tid: u32, d: UserDesc, ntOk: bool)
    requires Inv(h) && Thread(tid) && d.entryNumber in h.handed
    ensures SetEffect(h, tid, d, ntOk)
  {
    if (tid, d.entryNumber as int) in h.areas { SetOldPair(h, tid, d, ntOk); } else { SetNewPair(h, tid, d, ntOk); }
  }

  lemma SetAny(h: History, tid: u32, d: UserDesc, ntOk: bool)
    requires Inv(h) && Thread(tid) && d.entryNumber == ANY_ENTRY
    ensures var n := FirstFree(h.t, FIRST_USABLE_LDT_ENTRY);
            var h' := Apply(h, Set(tid, d, ntOk));
            var reply := SetThreadArea(h.t, tid, d, ntOk).1;
            && Inv(h')
            && reply.eax == (if n == -1 then -3 else if ntOk then 0 else -22)
            && (reply.eax == 0 ==>
                  && reply.desc == d.(entryNumber := n) && n !in h.handed
                  && h'.handed == h.handed + {n}
                  && h'.areas == h.areas[(tid, n) := reply.desc] && h'.slots == h.slots[(tid, n) := n]
                  && (tid, n) !in h.slots)
            && (reply.eax != 0 ==> h'.handed == h.handed && h'.areas == h.areas && h'.slots == h.slots)
  {
    var n := FirstFree(h.t, FIRST_USABLE_LDT_ENTRY);
    AllocateKeepsInv(h, tid);
    if n != -1 {
      var h1 := h.(t := Allocate(h.t, tid, false).0);
      var d1 := d.(entryNumber := n);
      var p: Pair := (tid, n);
      if ntOk {
        RecordKeepsInv(h1, tid, d1, n);
        CalculateSetPair(Record(h1, tid, d1, n), p);
      }
    }
  }

  /** A get of a pair that was set returns exactly what that thread last set and changes nothing; a
      get of a pair never set takes a slot and returns a blank descriptor, or fails when the table is full. */
  lemma GetReturnsLastSet(h: History, tid: u32, d: UserDesc)
    requires Inv(h) && Legal(h, Get(tid, d))
    ensures var p: Pair := (tid, d.entryNumber);
            var (t', reply) := GetThreadArea(h.t, tid, d);
            && Inv(Apply(h, Get(tid, d)))
            && (if p in h.areas then t' == h.t && reply == Reply(0, h.areas[p])
                else if HasRoom(h.t) then
                  reply.eax == 0 && reply.desc.entryNumber == 0 && t' == Allocate(h.t, tid, false).0
                else t' == h.t && reply == Reply(-EINVAL, d))
  {
    var p: Pair := (tid, d.entryNumber);
    if p in h.areas {
      CalculateSetPair(h, p);
      assert SlotOk(h, p);
    } else {
      CalculateNewPair(h, p);
      AllocateKeepsInv(h, tid);
    }
  }

  /** A trapped GS load of a pair that was set loads a selector for its slot, where the processor
      finds the descriptor that same thread last set. */
  lemma TrapSelectsSlot(h: History, tid: u32, eax: u32)
    requires Inv(h) && Legal(h, Trap(tid, eax))
    ensures Inv(Apply(h, Trap(tid, eax)))
    ensures var p: Pair := (tid, eax / 8);
            var (t', selector) := TrapGsLoad(h.t, tid, eax);
            p in h.areas ==>
              && t' == h.t && selector / 8 == h.slots[p] && selector % 8 == 7
              && t'.hardware[selector / 8] == Pack(h.areas[p])
  {
    var p: Pair := (tid, eax / 8);
    if p in h.areas {
      CalculateSetPair(h, p);
      assert SlotOk(h, p);
    } else {
      CalculateNewPair(h, p);
      AllocateKeepsInv(h, tid);
    }
  }

  lemma StepKeepsInv(h: History, op: Op)
    requires Inv(h) && Legal(h, op)
    ensures Inv(Apply(h, op))
    ensures forall q :: q in h.slots ==> q in Apply(h, op).slots && Apply(h, op).slots[q] == h.slots[q]
    ensures h.handed <= Apply(h, op).handed
  {
    match op
    case Set(tid, d, ntOk) =>
      if d.entryNumber == ANY_ENTRY { SetAny(h, tid, d, ntOk); } else { SetNumbered(h, tid, d, ntOk); }
    case Get(tid, d) => GetReturnsLastSet(h, tid, d);
    case Trap(tid, eax) => TrapSelectsSlot(h, tid, eax);
  }

  // ---- Whole runs --------------------------------------------------------------------------

  ghost predicate LegalRun(h: History, ops: seq<Op>)
    requires Inv(h)
    decreases |ops|
  {
    ops == [] || (Legal(h, ops[0]) && (StepKeepsInv(h, ops[0]); LegalRun(Apply(h, ops[0]), ops[1..])))
  }

  ghost function Run(h: History, ops: seq<Op>): History
    requires Inv(h) && LegalRun(h, ops)
    decreases |ops|
  {
    if ops == [] then h else StepKeepsInv(h, ops[0]); Run(Apply(h, ops[0]), ops[1..])
  }

  /** In a new process, with all descriptors blank, every run of the threads keeps the table a map from pairs to
      descriptors with a slot each. */
  lemma NewProcessRuns(blank: UserDesc, hardware: seq<LdtEntry>, ops: seq<Op>)
    requires blank.entryNumber == 0 && |hardware| == MAX_LDT_ENTRIES
    ensures var h := Initial(seq(MAX_LDT_ENTRIES, (i: int) => LdtData(0, false, blank)), hardware);
            Inv(h) && (LegalRun(h, ops) ==> Inv(Run(h, ops)))
  {
    var h := Initial(seq(MAX_LDT_ENTRIES, (i: int) => LdtData(0, false, blank)), hardware);
    if LegalRun(h, ops) {
      RunKeepsInv(h, ops);
    }
  }

  lemma {:induction false} RunKeepsInv(h: History, ops: seq<Op>)
    requires Inv(h) && LegalRun(h, ops)
    ensures Inv(Run(h, ops))
    decreases |ops|
  {
    if ops != [] {
      StepKeepsInv(h, ops[0]);
      RunKeepsInv(Apply(h, ops[0]), ops[1..]);
    }
  }

  predicate Sets(op: Op, p: Pair)
  {
    op.Set? && op.tid == p.0 && op.desc.entryNumber == p.1
  }

  /** Whatever all threads do in the meantime, as long as the thread itself does not set the entry
      again, its descriptor and its slot stay, a get returns the one, a GS load finds the other. */
  lemma {:induction false} RunKeepsPair(h: History, ops: seq<Op>, p: Pair)
    requires Inv(h) && LegalRun(h, ops) && p in h.areas && Thread(p.0)
    requires forall i :: 0 <= i < |ops| ==> !Sets(ops[i], p)
    ensures var e := Run(h, ops);
            && Inv(e) && p in e.areas && p.1 in e.handed
            && e.areas[p] == h.areas[p] && e.slots[p] == h.slots[p]
            && (forall d: UserDesc :: d.entryNumber == p.1 ==> GetThreadArea(e.t, p.0, d).1 == Reply(0, h.areas[p]))
            && (forall eax: u32 :: eax / 8 == p.1 ==> TrapGsLoad(e.t, p.0, eax).1 == 8 * h.slots[p] + 7)
    decreases |ops|
  {
    assert SlotOk(h, p);
    if ops == [] {
      CalculateSetPair(h, p);
    } else {
      var op := ops[0];
      assert !Sets(op, p);
      StepKeepsInv(h, op);
      StepKeepsArea(h, op, p);
      RunKeepsPair(Apply(h, op), ops[1..], p);
    }
  }

  lemma StepKeepsArea(h: History, op: Op, p: Pair)
    requires Inv(h) && Legal(h, op) && p in h.areas && !Sets(op, p)
    ensures p in Apply(h, op).areas && Apply(h, op).areas[p] == h.areas[p]
  {
    if op.Set? {
      if op.desc.entryNumber == ANY_ENTRY {
        SetAny(h, op.tid, op.desc, op.ntOk);
      } else {
        SetNumbered(h, op.tid, op.desc, op.ntOk);
      }
    }
  }

  // ---- Slots that are lost -----------------------------------------------------------------

  /** A slot with an owner and no recorded entry number. */
  predicate Leaked(t: Tables, i: int)
    requires TablesOk(t)
  {
    FIRST_USABLE_LDT_ENTRY <= i < MAX_LDT_ENTRIES && t.entries[i].owner != 0 && t.entries[i].desc.entryNumber == 0
  }

  function PairOf(op: Op): Pair
  {
    match op
    case Set(tid, d, _) => (tid, d.entryNumber)
    case Get(tid, d) => (tid, d.entryNumber)
    case Trap(tid, eax) => (tid, eax / 8)
  }

  /** The operation takes a slot and records nothing in it: a get or GS load of a pair not set, or a set
      of a new pair that Windows refuses. */
  predicate Leaks(h: History, op: Op)
    requires TablesOk(h.t)
  {
    HasRoom(h.t) && PairOf(op) !in h.areas && (op.Set? ==> !op.ntOk)
  }

  /** The slot the operation works on. */
  function Selected(h: History, op: Op): int
    requires TablesOk(h.t)
  {
    if op.Set? && op.desc.entryNumber == ANY_ENTRY then FirstFree(h.t, FIRST_USABLE_LDT_ENTRY)
    else Calculate(h.t, op.tid, PairOf(op).1).1
  }

  lemma AnyIsNew(h: History, tid: u32)
    requires Inv(h)
    ensures (tid, ANY_ENTRY as int) !in h.areas
  {
    assert ANY_ENTRY as int !in h.handed;
  }

  lemma LookupLeaks(h: History, p: Pair, i: int)
    requires Inv(h) && Thread(p.0) && p.1 in h.handed
    ensures var (t, n) := Calculate(h.t, p.0, p.1);
            && (Leaked(t, i) <==> Leaked(h.t, i) || (p !in h.areas && HasRoom(h.t) && i == n))
            && (n != 0 ==> t.entries[n].owner != 0) && !Leaked(h.t, n)
            && (n == if p in h.areas then h.slots[p]
                     else if HasRoom(h.t) then FirstFree(h.t, FIRST_USABLE_LDT_ENTRY) else 0)
  {
    if p in h.areas {
      CalculateSetPair(h, p);
      assert SlotOk(h, p);
    } else {
      CalculateNewPair(h, p);
    }
  }

  /** Which slots an operation loses, exactly: the lowest free one, if it leaks at all. */
  lemma LeaksExactly(h: History, op: Op, i: int)
    requires Inv(h) && Legal(h, op)
    ensures Leaked(Apply(h, op).t, i) <==>
      Leaked(h.t, i) || (Leaks(h, op) && i == FirstFree(h.t, FIRST_USABLE_LDT_ENTRY))
  {
    if PairOf(op).1 == ANY_ENTRY {
      AnyIsNew(h, op.tid);
    } else {
      LookupLeaks(h, PairOf(op), i);
    }
  }

  lemma LeakedIsNobodys(h: History, i: int)
    requires Inv(h) && Leaked(h.t, i)
    ensures forall p :: p in h.slots ==> h.slots[p] != i
  {
    forall p | p in h.slots
      ensures h.slots[p] != i
    {
      assert SlotOk(h, p);
    }
  }

  lemma LeakedNotSelected(h: History, op: Op, i: int)
    requires Inv(h) && Legal(h, op) && Leaked(h.t, i)
    ensures Selected(h, op) != i
  {
    if PairOf(op).1 != ANY_ENTRY {
      LookupLeaks(h, PairOf(op), i);
    }
  }

  ghost predicate NeverSelected(h: History, ops: seq<Op>, i: int)
    requires Inv(h) && LegalRun(h, ops)
    decreases |ops|
  {
    ops == [] || (Selected(h, ops[0]) != i && (StepKeepsInv(h, ops[0]); NeverSelected(Apply(h, ops[0]), ops[1..], i)))
  }

  /** A lost slot stays lost: over every run it is no pair's slot, and no set, get or GS load ever uses it. */
  lemma {:induction false} RunKeepsLeaked(h: History, ops: seq<Op>, i: int)
    requires Inv(h) && LegalRun(h, ops) && Leaked(h.t, i)
    ensures var e := Run(h, ops); Inv(e) && Leaked(e.t, i) && (forall p :: p in e.slots ==> e.slots[p] != i)
    ensures NeverSelected(h, ops, i)
    decreases |ops|
  {
    LeakedIsNobodys(h, i);
    if ops != [] {
      StepKeepsInv(h, ops[0]);
      LeaksExactly(h, ops[0], i);
      LeakedNotSelected(h, ops[0], i);
      RunKeepsLeaked(Apply(h, ops[0]), ops[1..], i);
    }
  }

  /** A GS load before the thread's first set of the entry is lost on it: nothing that happens later, not
      even setting the entry, uses the slot that was loaded. */
  lemma TrapBeforeSetMisses(h: History, tid: u32, eax: u32, ops: seq<Op>)
    requires Inv(h) && Legal(h, Trap(tid, eax)) && (tid, eax / 8) !in h.areas && HasRoom(h.t)
    requires Inv(Apply(h, Trap(tid, eax))) && LegalRun(Apply(h, Trap(tid, eax)), ops)
    ensures var i := TrapGsLoad(h.t, tid, eax).1 / 8;
            FIRST_USABLE_LDT_ENTRY <= i < MAX_LDT_ENTRIES && NeverSelected(Apply(h, Trap(tid, eax)), ops, i)
  {
    var i := TrapGsLoad(h.t, tid, eax).1 / 8;
    CalculateNewPair(h, (tid, eax / 8));
    LeaksExactly(h, Trap(tid, eax), i);
    RunKeepsLeaked(Apply(h, Trap(tid, eax)), ops, i);
  }

  /** A number outside 1..8191, or whose slot nobody owns, is refused and changes nothing. */
  lemma BadNumberRefused(t: Tables, tid: u32, d: UserDesc, ntOk: bool)
    requires TablesOk(t) && Thread(tid) && d.entryNumber != 0xFFFF_FFFF
    requires d.entryNumber == 0 || d.entryNumber >= 8192 || t.entries[d.entryNumber].owner == 0
    ensures SetThreadArea(t, tid, d, ntOk) == (t, Reply(-22, d)) && GetThreadArea(t, tid, d) == (t, Reply(-22, d))
  {
  }

  /** Any other number whose slot the thread owns is that slot's. */
  lemma OwnNumberAccepted(t: Tables, tid: u32, d: UserDesc)
    requires TablesOk(t) && Thread(tid) && 1 <= d.entryNumber < 8192 && t.entries[d.entryNumber].owner == tid
    ensures var (t', reply) := SetThreadArea(t, tid, d, true);
            && reply == Reply(0, d) && t'.entries[d.entryNumber].desc == d && t'.hardware[d.entryNumber] == Pack(d)
    ensures GetThreadArea(t, tid, d) == (t, Reply(0, t.entries[d.entryNumber].desc))
  {
  }

  /** Entry numbers that were never given out are not all refused: the number of another pair's slot lets the
      slot's owner overwrite that pair, and the pair's own descriptor is gone. */
  lemma UnhandedNumberOverwrites(h: History, p: Pair, d: UserDesc, want: UserDesc)
    requires Inv(h) && p in h.areas && Thread(p.0) && h.slots[p] !in h.handed
    requires d.entryNumber == h.slots[p] && want.entryNumber == p.1
    ensures var (t, reply) := SetThreadArea(h.t, p.0, d, true);
            reply.eax == 0 && GetThreadArea(t, p.0, want).1 != Reply(0, h.areas[p])
  {
    assert SlotOk(h, p);
    var i, es := h.slots[p], h.t.entries;
    var t := SetThreadArea(h.t, p.0, d, true).0;
    assert Recorded(es[p.1]) == (es[p.1].owner, p.1);
    forall j | 0 <= j < MAX_LDT_ENTRIES
      ensures !Holds(t.entries[j], p.0, p.1)
    {
      assert es[j].desc.entryNumber != 0 ==> Recorded(es[j]) in h.slots && h.slots[Recorded(es[j])] == j;
    }
  }
}
