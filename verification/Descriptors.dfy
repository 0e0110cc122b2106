/** Segment descriptors as set_thread_area receives them and as the processor stores them. */
module Descriptors {
  import opened Words

  /** linux::user_desc. */
  datatype UserDesc = UserDesc(
    entryNumber: u32, baseAddr: u32, limit: u32,
    seg32bit: bool, contents: nat, readExecOnly: bool, limitInPages: bool, segNotPresent: bool, useable: bool)

  /** The fields of an LDT_ENTRY. */
  datatype LdtEntry = LdtEntry(
    baseLow: nat, baseMid: nat, baseHi: nat, limitLow: nat, limitHi: nat,
    granularity: bool, big: bool, typ: nat, present: bool, dpl: nat, sys: bool)

  /** The highest address a process may use. */
  const LAST_USER_BYTE := 0x7FFE_FFFF

  /** The largest limit SetLDTSelector lets through for this base; DWORD subtraction wraps. */
  function MaxLimit(d: UserDesc): u32
  {
    if d.limitInPages then
      var base4k := Add(d.baseAddr, 0xFFF) / 0x1000 * 0x1000;
      Sub(LAST_USER_BYTE, base4k) / 0x1000
    else
      Sub(LAST_USER_BYTE, d.baseAddr)
  }

  function ClampedLimit(d: UserDesc): u32
  {
    if d.limit > MaxLimit(d) then MaxLimit(d) else d.limit
  }

  /** The entry SetLDTSelector hands to Windows. Each field keeps the bits it has room for. */
  function Pack(d: UserDesc): LdtEntry
  {
    var limit := ClampedLimit(d);
    LdtEntry(
      d.baseAddr % 0x1_0000, d.baseAddr / 0x1_0000 % 0x100, d.baseAddr / 0x100_0000 % 0x100,
      limit % 0x1_0000, limit / 0x1_0000 % 0x10,
      d.limitInPages, d.seg32bit, if d.readExecOnly then 0x1b else 0x13, !d.segNotPresent, 3, true)
  }

  /** How the processor reads an entry (section 5.1.1 of the Intel 80386 Programmer's Reference Manual). */
  function Base(e: LdtEntry): nat { e.baseLow + 0x1_0000 * e.baseMid + 0x100_0000 * e.baseHi }
  function Limit(e: LdtEntry): nat { e.limitLow + 0x1_0000 * e.limitHi }

  /** The last byte the segment reaches. */
  function Reach(e: LdtEntry): nat
  {
    Base(e) + if e.granularity then Limit(e) * 0x1000 + 0xFFF else Limit(e)
  }

  function Min(a: nat, b: nat): nat { if a < b then a else b }

  /** The processor sees the requested base; it sees the clamped limit exactly when that fits in the
      descriptor's twenty bits. */
  lemma PackDecodes(d: UserDesc)
    ensures Base(Pack(d)) == d.baseAddr
    ensures Limit(Pack(d)) == Min(d.limit, MaxLimit(d)) <==> Min(d.limit, MaxLimit(d)) < 0x10_0000
    ensures var e := Pack(d);
            && (e.granularity <==> d.limitInPages) && (e.big <==> d.seg32bit) && (e.present <==> !d.segNotPresent)
            && e.typ == (if d.readExecOnly then 0x1B else 0x13) && e.dpl == 3 && e.sys
  {
    var b, l := d.baseAddr, Min(d.limit, MaxLimit(d));
    assert b / 0x100_0000 == b / 0x1_0000 / 0x100;
    assert b / 0x100_0000 % 0x100 == b / 0x100_0000;
  }

  /** The bound is tight: in bytes, the last one that user memory has above the base; in pages, as many whole
      pages as it has above the base rounded up to one. */
  lemma MaxLimitIsTight(d: UserDesc)
    requires d.baseAddr <= if d.limitInPages then 0x7FFE_F000 else 0x7FFE_FFFF
    ensures !d.limitInPages ==> d.baseAddr + MaxLimit(d) == 0x7FFE_FFFF
    ensures d.limitInPages ==>
      var up := (d.baseAddr + 0xFFF) / 0x1000 * 0x1000; up + MaxLimit(d) * 0x1000 + 0xFFF == 0x7FFE_FFFF
  {
  }

  /** Page-granular segments stay inside user memory for every limit exactly when the base is no
      higher than the last whole page; byte-granular ones exactly when the base is itself inside. */
  lemma ReachIsBounded(base: u32, pages: bool)
    ensures (forall d: UserDesc :: d.baseAddr == base && d.limitInPages == pages && d.limit < 0x10_0000
              ==> Reach(Pack(d)) <= LAST_USER_BYTE)
            <==> base <= if pages then 0x7FFE_F000 else LAST_USER_BYTE
  {
    if base <= if pages then 0x7FFE_F000 else LAST_USER_BYTE {
      forall d: UserDesc | d.baseAddr == base && d.limitInPages == pages && d.limit < 0x10_0000
        ensures Reach(Pack(d)) <= LAST_USER_BYTE
      {
        PackDecodes(d);
        WithinReach(d);
      }
    } else {
      var d := UserDesc(0, base, 0xF_FFFF, true, 0, false, pages, false, true);
      PackDecodes(d);
      assert Reach(Pack(d)) > LAST_USER_BYTE;
    }
  }

  lemma WithinReach(d: UserDesc)
    requires d.limit < 0x10_0000
    requires d.baseAddr <= if d.limitInPages then 0x7FFE_F000 else LAST_USER_BYTE
    ensures var limit := ClampedLimit(d);
            d.baseAddr + (if d.limitInPages then limit * 0x1000 + 0xFFF else limit) <= LAST_USER_BYTE
  {
    if d.limitInPages {
      var base4k := (d.baseAddr + 0xFFF) / 0x1000 * 0x1000;
      assert d.baseAddr <= base4k <= 0x7FFE_F000;
      assert MaxLimit(d) == (LAST_USER_BYTE - base4k) / 0x1000;
    }
  }
}
