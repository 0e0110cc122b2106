/** A process's image: loading ELF segments and moving the program break. */
module ProcessImage {
  import opened Words
  import opened ByteMemory
  import opened AddressSpace
  import opened Transfer
  import opened BulkMemory
  import opened Allocator

  const PT_LOAD := 1

  /** Elf32_Phdr. */
  datatype Phdr = Phdr(typ: u32, offset: u32, vaddr: u32, filesz: u32, memsz: u32, align: u32)

  /** Where a segment goes, and the aligned range around it, in the kernel's DWORD arithmetic. */
  function Want(ph: Phdr, base: u32): u32 { Add(ph.vaddr, base) }

  /** The address a segment is linked for, moved by the load base, in 32 bits. */
  function LoadAddress(ph: Phdr, base: u32): u32 { (ph.vaddr + base) % 0x1_0000_0000 }

  lemma WantIs(ph: Phdr, base: u32)
    ensures Want(ph, base) == LoadAddress(ph, base)
  {
  }

  /** `x & ~(align - 1)`. */
  function MaskDown(x: u32, align: u32): u32
    requires align > 0
  {
    And(x, TWO32 - align)
  }

  function AlignedStart(ph: Phdr, base: u32): u32
  {
    if ph.align > 1 then MaskDown(Want(ph, base), ph.align) else Want(ph, base)
  }

  function AlignedSize(ph: Phdr, base: u32): u32
  {
    if ph.align > 1 then
      MaskDown(Add(Add(ph.memsz, Sub(Want(ph, base), AlignedStart(ph, base))), ph.align - 1), ph.align)
    else ph.memsz
  }

  ghost predicate IsPow2(x: nat)
  {
    exists k: nat :: x == Pow2(k)
  }

  /** The aligned range contains the segment. */
  predicate Covered(ph: Phdr, base: u32)
  {
    && AlignedStart(ph, base) <= Want(ph, base)
    && Want(ph, base) + ph.memsz <= AlignedStart(ph, base) + AlignedSize(ph, base)
  }

  /** The aligned range contains the segment, and is one that an allocation can really have. The code checks
      none of this. */
  predicate Sound(ph: Phdr, base: u32)
  {
    Covered(ph, base) && (AlignedSize(ph, base) == 0 || Holds(AlignedStart(ph, base), AlignedSize(ph, base)))
  }

  /** The file holds the segment's bytes; a segment without any does not look at the file. */
  predicate InFile(file: seq<byte>, ph: Phdr)
  {
    ph.filesz == 0 || ph.offset + ph.filesz <= |file|
  }

  /** The segment's bytes in the file. */
  function FileBytes(file: seq<byte>, ph: Phdr): (bs: seq<byte>)
    requires InFile(file, ph)
    ensures |bs| == ph.filesz
  {
    if ph.filesz == 0 then [] else file[ph.offset..ph.offset + ph.filesz]
  }

  /** The file holds the segment's bytes and user memory has addresses for its range. */
  predicate Loadable(file: seq<byte>, ph: Phdr, base: u32)
  {
    && (ph.filesz == 0 || ph.offset + ph.filesz <= |file|)
    && 0x1_0000 <= AlignedStart(ph, base) && AlignedStart(ph, base) + AlignedSize(ph, base) <= 0x7FFF_0000
  }

  predicate Disjoint(p: Phdr, q: Phdr, base: u32)
  {
    || AlignedStart(p, base) + AlignedSize(p, base) <= AlignedStart(q, base)
    || AlignedStart(q, base) + AlignedSize(q, base) <= AlignedStart(p, base)
  }

  /** What the ELF specification asks of loadable segments: no more bytes in the file than in memory, and
      disjoint ranges. */
  predicate TableOk(phs: seq<Phdr>, base: u32)
  {
    && (forall i :: 0 <= i < |phs| && phs[i].typ == PT_LOAD ==> phs[i].filesz <= phs[i].memsz)
    && (forall i, j :: 0 <= i < j < |phs| && phs[i].typ == PT_LOAD && phs[j].typ == PT_LOAD ==>
          Disjoint(phs[i], phs[j], base))
  }

  predicate AllSound(phs: seq<Phdr>, base: u32, n: nat)
    requires n <= |phs|
  {
    forall i :: 0 <= i < n && phs[i].typ == PT_LOAD ==> Sound(phs[i], base)
  }

  /** The largest multiple of the alignment that is not above `x`. */
  lemma MaskBounds(x: u32, align: u32) returns (q: nat)
    requires IsPow2(align)
    ensures MaskDown(x, align) <= x < MaskDown(x, align) + align && MaskDown(x, align) == align * q
  {
    var k: nat :| align == Pow2(k);
    Pow2Of32();
    if k > 32 {
      Pow2Grows(32, k);
    }
    MaskRoundsDown(x, k, 32);
    MaskItself(k, 32);
    MaskIsMultiple(x, TWO32 - align, k);
    q := MultipleIs(MaskDown(x, align), k);
  }

  lemma AlignFits(align: u32)
    requires IsPow2(align)
    ensures 2 * align <= TWO32
  {
    var k: nat :| align == Pow2(k);
    Pow2Of32();
    if k < 32 {
      Pow2Grows(k + 1, 32);
    } else {
      Pow2Grows(32, k);
    }
  }

  /** Without an alignment the range is the segment's own. For every alignment that is a power of two it starts
      at the multiple just below the segment and is a multiple long; it contains the segment exactly if rounding
      up its size does not overflow, and then ends at the multiple just above. */
  lemma AlignedRangeCovers(ph: Phdr, base: u32) returns (start: nat, size: nat)
    requires ph.align > 1 ==> IsPow2(ph.align)
    ensures var w, a, n := LoadAddress(ph, base), AlignedStart(ph, base), AlignedSize(ph, base);
            && (ph.align <= 1 ==> a == w && n == ph.memsz)
            && (ph.align > 1 ==> a <= w < a + ph.align && a == ph.align * start && n == ph.align * size)
            && (Covered(ph, base) <==> w + ph.memsz <= a + n)
            && (Covered(ph, base) <==> ph.align <= 1 || ph.memsz + (w - a) + ph.align - 1 < TWO32)
            && (Covered(ph, base) && ph.align > 1 ==> a + n < w + ph.memsz + ph.align)
  {
    start, size := 0, 0;
    WantIs(ph, base);
    if ph.align > 1 {
      AlignFits(ph.align);
      start := MaskBounds(Want(ph, base), ph.align);
      size := AlignedSizeIs(ph, base);
    }
  }

  lemma AlignedSizeIs(ph: Phdr, base: u32) returns (size: nat)
    requires ph.align > 1 && IsPow2(ph.align) && 2 * ph.align <= TWO32
    requires AlignedStart(ph, base) <= Want(ph, base) < AlignedStart(ph, base) + ph.align
    ensures var v, n := ph.memsz + (Want(ph, base) - AlignedStart(ph, base)), AlignedSize(ph, base);
            && n == ph.align * size
            && (if v + ph.align - 1 < TWO32 then v <= n < v + ph.align else n < v)
  {
    var v := ph.memsz + (Want(ph, base) - AlignedStart(ph, base)) + ph.align - 1;
    var x := if v < TWO32 then v else v - TWO32;
    assert AlignedSize(ph, base) == MaskDown(x, ph.align);
    size := MaskBounds(x, ph.align);
  }

  /** The segment's bytes from the file are at vaddr + base, and zeros behind them up to its size in memory. */
  ghost predicate InPlace(m: Memory, file: seq<byte>, ph: Phdr, base: u32)
  {
    var w := LoadAddress(ph, base);
    && w + ph.memsz <= TWO32 && (ph.filesz == 0 || ph.offset + ph.filesz <= |file|)
    && forall x :: w <= x < w + ph.memsz ==> m[x] == if x - w < ph.filesz then file[ph.offset + (x - w)] else 0
  }

  lemma LoadedInPlace(m: Memory, pages: PageTable, file: seq<byte>, ph: Phdr, base: u32)
    requires Loaded(m, pages, file, ph, base)
    ensures InPlace(m, file, ph, base)
  {
    var w := Want(ph, base);
    WantIs(ph, base);
    forall x | w <= x < w + ph.memsz
      ensures m[x] == if x - w < ph.filesz then file[ph.offset + (x - w)] else 0
    {
      assert m[x] == SegmentByte(file, ph, base, x);
    }
  }

  /** The byte a loaded segment has at address `x` of its aligned range. */
  function SegmentByte(file: seq<byte>, ph: Phdr, base: u32, x: int): byte
    requires InFile(file, ph)
  {
    var k := x - Want(ph, base);
    if 0 <= k < ph.filesz then file[ph.offset + k] else 0
  }

  /** The segment is in memory: its file bytes at its address, zeros in the rest of its range. */
  ghost predicate Loaded(m: Memory, pages: PageTable, file: seq<byte>, ph: Phdr, base: u32)
  {
    && InFile(file, ph) && Covered(ph, base)
    && var a, n := AlignedStart(ph, base), AlignedSize(ph, base);
    && a + n < TWO32
    && (forall x :: a <= x < a + n ==> Usable(pages, x))
    && (forall x :: a <= x < a + n ==> m[x] == SegmentByte(file, ph, base, x))
  }

  lemma GrowthKeeps(m0: Memory, p0: PageTable, m1: Memory, p1: PageTable, lo: int, hi: int, a: int, n: int)
    requires KeepsContents(m0, p0, m1, p1) && OnlyGrows(p0, p1, lo, hi)
    ensures KeepsOutside(m0, p0, m1, p1, a, n)
  {
    forall x | 0 <= x < TWO32 && !(a <= x < a + n) && Usable(p0, x)
      ensures Usable(p1, x) && m1[x] == m0[x]
    {
      assert p1[x / 0x1000] == p0[x / 0x1000];
    }
  }

  lemma CommittedUsable(pages: PageTable, a: u32, n: nat)
    requires 0 < n && a + n < TWO32 && RangeCommitted(pages, a, a + n)
    ensures a + n <= USER_END && forall x :: a <= x < a + n ==> Usable(pages, x)
  {
    forall x | a <= x < a + n
      ensures Usable(pages, x) && x < USER_END
    {
      assert Touches(x / 0x1000, a, a + n);
    }
    assert Touches((a + n - 1) / 0x1000, a, a + n);
    assert a + n - 1 < USER_END;
  }

  lemma LoadedIsSound(m: Memory, pages: PageTable, file: seq<byte>, ph: Phdr, base: u32)
    requires SpaceOk(pages) && Loaded(m, pages, file, ph, base)
    ensures Sound(ph, base)
  {
    if AlignedSize(ph, base) > 0 {
      assert Usable(pages, AlignedStart(ph, base));
    }
  }

  /** Loading the segment may write to `x`. */
  predicate Touched(ph: Phdr, base: u32, x: u32)
  {
    Sub(x, AlignedStart(ph, base)) < AlignedSize(ph, base) || Sub(x, Want(ph, base)) < ph.filesz
  }

  /** A sound segment is written to inside its aligned range only. */
  lemma TouchedInside(ph: Phdr, base: u32, x: u32)
    requires Sound(ph, base) && ph.filesz <= ph.memsz && Touched(ph, base, x)
    ensures AlignedStart(ph, base) <= x < AlignedStart(ph, base) + AlignedSize(ph, base)
  {
  }

  /** Bytes with memory that the segment does not touch keep it and their values. */
  ghost predicate KeepsApart(m0: Memory, p0: PageTable, m1: Memory, p1: PageTable, ph: Phdr, base: u32)
  {
    forall x {:trigger m1[x]} {:trigger Usable(p1, x)} ::
      0 <= x < TWO32 && !Touched(ph, base, x) && Usable(p0, x) ==> Usable(p1, x) && m1[x] == m0[x]
  }

  /** What is written: zeros over the aligned range, as far as an int counts, and the file's bytes. */
  function Placed(m: Memory, pages: PageTable, file: seq<byte>, ph: Phdr, base: u32): Memory
    requires InFile(file, ph)
  {
    Store(Filled(m, pages, ph, base), pages, Want(ph, base), FileBytes(file, ph))
  }

  function Filled(m: Memory, pages: PageTable, ph: Phdr, base: u32): Memory
  {
    Store(m, pages, AlignedStart(ph, base), Repeat(0, Count(AsInt(AlignedSize(ph, base)))))
  }

  lemma FilledKeeps(m: Memory, pages: PageTable, ph: Phdr, base: u32)
    ensures KeepsApart(m, pages, Filled(m, pages, ph, base), pages, ph, base)
  {
  }

  lemma PlacedKeeps(m: Memory, pages: PageTable, file: seq<byte>, ph: Phdr, base: u32)
    requires InFile(file, ph)
    ensures KeepsApart(m, pages, Placed(m, pages, file, ph, base), pages, ph, base)
  {
  }

  lemma PlacedIsLoaded(m: Memory, pages: PageTable, file: seq<byte>, ph: Phdr, base: u32)
    requires InFile(file, ph) && ph.filesz <= ph.memsz && Sound(ph, base) && AlignedSize(ph, base) < 0x8000_0000
    requires var a, n := AlignedStart(ph, base), AlignedSize(ph, base); forall x :: a <= x < a + n ==> Usable(pages, x)
    ensures Loaded(Placed(m, pages, file, ph, base), pages, file, ph, base)
  {
    var a, n, w := AlignedStart(ph, base), AlignedSize(ph, base), Want(ph, base);
    var m1, m2 := Filled(m, pages, ph, base), Placed(m, pages, file, ph, base);
    forall x | a <= x < a + n
      ensures m2[x] == SegmentByte(file, ph, base, x)
    {
      assert m1[x] == 0;
      assert Sub(x, w) == if x >= w then x - w else x - w + TWO32;
    }
  }

  lemma KeepsApartOn(m0: Memory, p0: PageTable, m1: Memory, p1: PageTable, m2: Memory, p2: PageTable, ph: Phdr,
                     base: u32)
    requires KeepsOutside(m0, p0, m1, p1, 0, 0) && KeepsApart(m1, p1, m2, p2, ph, base)
    ensures KeepsApart(m0, p0, m2, p2, ph, base)
  {
    forall x | 0 <= x < TWO32 && !Touched(ph, base, x) && Usable(p0, x)
      ensures Usable(p2, x) && m2[x] == m0[x]
    {
      assert Usable(p1, x);
    }
  }

  lemma KeepsOutsideOn(m0: Memory, p0: PageTable, m1: Memory, p1: PageTable, m2: Memory, p2: PageTable, a: int, n: int)
    requires KeepsOutside(m0, p0, m1, p1, a, n) && KeepsOutside(m1, p1, m2, p2, a, n)
    ensures KeepsOutside(m0, p0, m2, p2, a, n)
  {
    forall x | 0 <= x < TWO32 && !(a <= x < a + n) && Usable(p0, x)
      ensures Usable(p2, x) && m2[x] == m0[x]
    {
      assert Usable(p1, x);
    }
  }

  lemma StillLoaded(m0: Memory, p0: PageTable, m1: Memory, p1: PageTable, file: seq<byte>, p: Phdr, q: Phdr, base: u32)
    requires Loaded(m0, p0, file, p, base) && Disjoint(p, q, base) && Sound(q, base) && q.filesz <= q.memsz
    requires KeepsApart(m0, p0, m1, p1, q, base)
    ensures Loaded(m1, p1, file, p, base)
  {
    var a, n := AlignedStart(p, base), AlignedSize(p, base);
    forall x | a <= x < a + n
      ensures Usable(p1, x) && m1[x] == SegmentByte(file, p, base, x)
    {
      if Touched(q, base, x) {
        TouchedInside(q, base, x);
      }
      assert Usable(p0, x);
    }
  }

  /** Bytes with memory that no segment touches keep it and their values. */
  ghost predicate KeepsOthers(m0: Memory, p0: PageTable, m1: Memory, p1: PageTable, phs: seq<Phdr>, base: u32)
  {
    forall x {:trigger m1[x]} {:trigger Usable(p1, x)} ::
      0 <= x < TWO32 && !TouchedByAny(phs, base, x) && Usable(p0, x) ==> Usable(p1, x) && m1[x] == m0[x]
  }

  predicate TouchedByAny(phs: seq<Phdr>, base: u32, x: u32)
  {
    exists j :: 0 <= j < |phs| && phs[j].typ == PT_LOAD && Touched(phs[j], base, x)
  }

  lemma KeepsOthersOn(m0: Memory, p0: PageTable, m1: Memory, p1: PageTable, m2: Memory, p2: PageTable,
                      phs: seq<Phdr>, base: u32, j: nat)
    requires KeepsOthers(m0, p0, m1, p1, phs, base) && j < |phs| && phs[j].typ == PT_LOAD
    requires KeepsApart(m1, p1, m2, p2, phs[j], base)
    ensures KeepsOthers(m0, p0, m2, p2, phs, base)
  {
    forall x | 0 <= x < TWO32 && !TouchedByAny(phs, base, x) && Usable(p0, x)
      ensures Usable(p2, x) && m2[x] == m0[x]
    {
      assert Usable(p1, x) && m1[x] == m0[x];
      assert !Touched(phs[j], base, x);
    }
  }

  /** The segments among the first `n` headers are in memory. */
  ghost predicate AllLoaded(m: Memory, pages: PageTable, file: seq<byte>, phs: seq<Phdr>, base: u32, n: nat)
    requires n <= |phs|
  {
    forall j :: 0 <= j < n && phs[j].typ == PT_LOAD ==> Loaded(m, pages, file, phs[j], base)
  }

  lemma LoadedNext(m0: Memory, p0: PageTable, m1: Memory, p1: PageTable,
                   file: seq<byte>, phs: seq<Phdr>, base: u32, i: nat)
    requires i < |phs| && TableOk(phs, base) && phs[i].typ == PT_LOAD && Sound(phs[i], base)
    requires AllLoaded(m0, p0, file, phs, base, i)
    requires Loaded(m1, p1, file, phs[i], base) && KeepsApart(m0, p0, m1, p1, phs[i], base)
    ensures AllLoaded(m1, p1, file, phs, base, i + 1)
  {
    forall j | 0 <= j < i && phs[j].typ == PT_LOAD
      ensures Loaded(m1, p1, file, phs[j], base)
    {
      StillLoaded(m0, p0, m1, p1, file, phs[j], phs[i], base);
    }
  }

  /** What has been achieved after the first `n` headers. */
  ghost predicate Progress(m0: Memory, p0: PageTable, m: Memory, p: PageTable,
                           file: seq<byte>, phs: seq<Phdr>, base: u32, n: nat)
    requires n <= |phs|
  {
    && KeepsOthers(m0, p0, m, p, phs, base)
    && (TableOk(phs, base) && AllSound(phs, base, n) ==> AllLoaded(m, p, file, phs, base, n))
  }

  lemma ProgressNext(m0: Memory, p0: PageTable, m: Memory, p: PageTable, m': Memory, p': PageTable,
                     file: seq<byte>, phs: seq<Phdr>, base: u32, i: nat)
    requires i < |phs| && phs[i].typ == PT_LOAD && Progress(m0, p0, m, p, file, phs, base, i)
    requires KeepsApart(m, p, m', p', phs[i], base)
    requires phs[i].filesz <= phs[i].memsz ==> (Loaded(m', p', file, phs[i], base) <==> Sound(phs[i], base))
    ensures Progress(m0, p0, m', p', file, phs, base, i + 1)
  {
    KeepsOthersOn(m0, p0, m, p, m', p', phs, base, i);
    if TableOk(phs, base) && AllSound(phs, base, i + 1) {
      LoadedNext(m, p, m', p', file, phs, base, i);
    }
  }

  lemma ProgressSkips(m0: Memory, p0: PageTable, m: Memory, p: PageTable,
                      file: seq<byte>, phs: seq<Phdr>, base: u32, i: nat)
    requires i < |phs| && phs[i].typ != PT_LOAD && Progress(m0, p0, m, p, file, phs, base, i)
    ensures Progress(m0, p0, m, p, file, phs, base, i + 1)
  {
  }

  lemma AllLoadedIsSound(m: Memory, pages: PageTable, file: seq<byte>, phs: seq<Phdr>, base: u32)
    requires SpaceOk(pages) && AllLoaded(m, pages, file, phs, base, |phs|)
    ensures AllSound(phs, base, |phs|)
  {
    forall j | 0 <= j < |phs| && phs[j].typ == PT_LOAD
      ensures Sound(phs[j], base)
    {
      LoadedIsSound(m, pages, file, phs[j], base);
    }
  }

  lemma AllInPlace(m: Memory, pages: PageTable, file: seq<byte>, phs: seq<Phdr>, base: u32)
    ensures AllLoaded(m, pages, file, phs, base, |phs|) ==> AllAtPlace(m, file, phs, base)
  {
    if AllLoaded(m, pages, file, phs, base, |phs|) {
      forall j | 0 <= j < |phs| && phs[j].typ == PT_LOAD
        ensures InPlace(m, file, phs[j], base)
      {
        LoadedInPlace(m, pages, file, phs[j], base);
      }
    }
  }

  /** All segments are in place, by their own addresses. */
  ghost predicate AllAtPlace(m: Memory, file: seq<byte>, phs: seq<Phdr>, base: u32)
  {
    forall j :: 0 <= j < |phs| && phs[j].typ == PT_LOAD ==> InPlace(m, file, phs[j], base)
  }

  lemma Finished(m0: Memory, p0: PageTable, m: Memory, p: PageTable, file: seq<byte>, phs: seq<Phdr>, base: u32)
    requires SpaceOk(p) && Progress(m0, p0, m, p, file, phs, base, |phs|)
    ensures TableOk(phs, base) ==> (AllLoaded(m, p, file, phs, base, |phs|) <==> AllSound(phs, base, |phs|))
    ensures TableOk(phs, base) && AllSound(phs, base, |phs|) ==> AllAtPlace(m, file, phs, base)
  {
    AllInPlace(m, p, file, phs, base);
    if AllLoaded(m, p, file, phs, base, |phs|) {
      AllLoadedIsSound(m, p, file, phs, base);
    }
  }

  /** The end of a segment's range, as the DWORD it is. */
  function EndOf(ph: Phdr, base: u32): u32 { Add(AlignedStart(ph, base), AlignedSize(ph, base)) }

  function MaxEnd(brk: u32, phs: seq<Phdr>, base: u32): (r: u32)
    ensures r >= brk
    ensures forall i :: 0 <= i < |phs| && phs[i].typ == PT_LOAD ==> r >= EndOf(phs[i], base)
  {
    if phs == [] then brk
    else
      var rest, ph := MaxEnd(brk, phs[..|phs| - 1], base), phs[|phs| - 1];
      assert forall i :: 0 <= i < |phs| - 1 ==> phs[i] == phs[..|phs| - 1][i];
      if ph.typ == PT_LOAD && EndOf(ph, base) > rest then EndOf(ph, base) else rest
  }

  lemma MaxEndNext(brk: u32, phs: seq<Phdr>, base: u32, i: nat)
    requires i < |phs|
    ensures var rest, end := MaxEnd(brk, phs[..i], base), EndOf(phs[i], base);
      MaxEnd(brk, phs[..i + 1], base) == if phs[i].typ == PT_LOAD && end > rest then end else rest
  {
    var front := phs[..i + 1];
    assert front[..i] == phs[..i] && front[i] == phs[i];
  }

  /** It is the old break or the end of one of the segments. */
  lemma {:induction false} MaxEndIsOne(brk: u32, phs: seq<Phdr>, base: u32)
    ensures var r := MaxEnd(brk, phs, base);
      r == brk || exists i :: 0 <= i < |phs| && phs[i].typ == PT_LOAD && r == EndOf(phs[i], base)
  {
    if phs != [] {
      var front := phs[..|phs| - 1];
      MaxEndIsOne(brk, front, base);
      assert forall i :: 0 <= i < |front| ==> front[i] == phs[i];
    }
  }

  lemma MaxEndCovers(brk: u32, phs: seq<Phdr>, base: u32)
    requires AllSound(phs, base, |phs|)
    ensures forall j :: 0 <= j < |phs| && phs[j].typ == PT_LOAD ==>
      LoadAddress(phs[j], base) + phs[j].memsz <= MaxEnd(brk, phs, base)
  {
    forall j | 0 <= j < |phs| && phs[j].typ == PT_LOAD
      ensures LoadAddress(phs[j], base) + phs[j].memsz <= MaxEnd(brk, phs, base)
    {
      assert Sound(phs[j], base);
      WantIs(phs[j], base);
    }
  }

  class Process {
    const space: Space
    var brk: u32
    var allocations: seq<(u32, u32)>

    constructor (space: Space)
      ensures this.space == space && brk == 0 && allocations == []
    {
      this.space, brk, allocations := space, 0, [];
    }

    /** Allocation in this process, remembered for exec and fork. */
    method AllocateMemAndProtect(addr: u32, size: u32) returns (r: u32)
      requires SpaceOk(space.pages)
      modifies space`pages, space`mem, space`refusals, this`allocations
      ensures addr != 0 ==> r == addr || r == FAILED
      ensures allocations == if r == FAILED then old(allocations) else old(allocations) + [(r, size)]
      ensures SpaceOk(space.pages) && KeepsContents(old(space.mem), old(space.pages), space.mem, space.pages)
      ensures OnlyGrows(old(space.pages), space.pages, 0, PAGES) && space.refusals >= old(space.refusals)
      ensures r != FAILED && size > 0 ==> (AllUsable(space.pages, r, size) <==> Holds(r, size))
      ensures r != FAILED && Holds(r, size) ==> RangeCommitted(space.pages, r, r + size)
      ensures 0 < addr && Add(addr, size) <= Down64k(addr) ==> r == addr && space.pages == old(space.pages)
      ensures SIZE64K <= addr && r == FAILED != addr ==>
        space.refusals > old(space.refusals) || Add(addr, size) > USER_END
      ensures addr == 0 < size && (r == 0 || r == FAILED) ==> space.refusals > old(space.refusals)
    {
      r := AllocateMemAndProtectProcess(space, addr, size);
      if r != FAILED {
        allocations := allocations + [(r, size)];
      }
    }

    /** One PT_LOAD header. A success means that the segment is in memory exactly if its range is sound. */
    method LoadSegment(file: seq<byte>, ph: Phdr, base: u32) returns (ok: bool)
      requires SpaceOk(space.pages)
      modifies space`pages, space`mem, space`refusals, this`allocations
      ensures SpaceOk(space.pages) && space.refusals >= old(space.refusals)
      ensures KeepsApart(old(space.mem), old(space.pages), space.mem, space.pages, ph, base)
      ensures ok && ph.filesz <= ph.memsz ==> (Loaded(space.mem, space.pages, file, ph, base) <==> Sound(ph, base))
      ensures ok && ph.filesz <= ph.memsz && Sound(ph, base) ==> InPlace(space.mem, file, ph, base)
      ensures !ok ==> space.refusals > old(space.refusals) || !Loadable(file, ph, base)
      ensures 0 < AlignedStart(ph, base) && EndOf(ph, base) <= Down64k(AlignedStart(ph, base)) && InFile(file, ph) ==>
        ok && space.pages == old(space.pages)
    {
      var aligned, size := AlignedStart(ph, base), AlignedSize(ph, base);
      var pMem := AllocateMemAndProtect(aligned, size);
      ghost var m1, p1 := space.mem, space.pages;
      GrowthKeeps(old(space.mem), old(space.pages), m1, p1, 0, PAGES, 0, 0);
      if pMem != aligned {
        AllKeptApart(old(space.mem), old(space.pages), m1, p1, ph, base);
        return false;
      }
      ok := PlaceSegment(file, ph, base);
      KeepsApartOn(old(space.mem), old(space.pages), m1, p1, space.mem, p1, ph, base);
      if Sound(ph, base) && size > 0 {
        CommittedUsable(p1, aligned, size);
      }
      if ok && ph.filesz <= ph.memsz && Sound(ph, base) {
        PlacedIsLoaded(m1, p1, file, ph, base);
      }
      if Loaded(space.mem, space.pages, file, ph, base) {
        LoadedIsSound(space.mem, space.pages, file, ph, base);
        LoadedInPlace(space.mem, space.pages, file, ph, base);
      }
    }

    /** Zeros over the aligned range, then the segment's bytes from the file. */
    method PlaceSegment(file: seq<byte>, ph: Phdr, base: u32) returns (ok: bool)
      modifies space`mem
      ensures ok == InFile(file, ph)
      ensures ok ==> space.mem == Placed(old(space.mem), space.pages, file, ph, base)
      ensures KeepsApart(old(space.mem), space.pages, space.mem, space.pages, ph, base)
    {
      ghost var m1 := space.mem;
      FillMem(space, AlignedStart(ph, base), AsInt(AlignedSize(ph, base)), 0);
      FilledKeeps(m1, space.pages, ph, base);
      if ph.filesz != 0 {
        if ph.offset + ph.filesz > |file| {
          return false;
        }
        WriteMemory(space, Want(ph, base), file[ph.offset..ph.offset + ph.filesz]);
      } else {
        StoreNothing(space.mem, space.pages, Want(ph, base));
      }
      PlacedKeeps(m1, space.pages, file, ph, base);
      ok := true;
    }

    /** The next PT_LOAD header of the table. */
    method LoadNext(file: seq<byte>, phs: seq<Phdr>, base: u32, i: nat, ghost m0: Memory, ghost p0: PageTable)
      returns (ok: bool)
      requires SpaceOk(space.pages) && i < |phs| && phs[i].typ == PT_LOAD
      requires Progress(m0, p0, space.mem, space.pages, file, phs, base, i)
      modifies space`pages, space`mem, space`refusals, this`allocations
      ensures SpaceOk(space.pages) && space.refusals >= old(space.refusals)
      ensures KeepsOthers(m0, p0, space.mem, space.pages, phs, base)
      ensures ok ==> Progress(m0, p0, space.mem, space.pages, file, phs, base, i + 1)
      ensures !ok ==> space.refusals > old(space.refusals) || !Loadable(file, phs[i], base)
    {
      ghost var m, p := space.mem, space.pages;
      ok := LoadSegment(file, phs[i], base);
      KeepsOthersOn(m0, p0, m, p, space.mem, space.pages, phs, base, i);
      if ok {
        ProgressNext(m0, p0, m, p, space.mem, space.pages, file, phs, base, i);
      }
    }

    /** The program header loop of LoadElfImage. */
    method LoadElfImage(file: seq<byte>, phs: seq<Phdr>, base: u32, asLibrary: bool) returns (ok: bool)
      requires SpaceOk(space.pages)
      modifies space`pages, space`mem, space`refusals, this
      ensures SpaceOk(space.pages) && KeepsOthers(old(space.mem), old(space.pages), space.mem, space.pages, phs, base)
      ensures ok && TableOk(phs, base) ==>
        (AllLoaded(space.mem, space.pages, file, phs, base, |phs|) <==> AllSound(phs, base, |phs|))
      ensures ok && TableOk(phs, base) && AllSound(phs, base, |phs|) ==> AllAtPlace(space.mem, file, phs, base)
      ensures !ok ==> space.refusals > old(space.refusals)
                      || exists j :: 0 <= j < |phs| && phs[j].typ == PT_LOAD && !Loadable(file, phs[j], base)
      ensures ok ==> brk == if asLibrary then old(brk) else MaxEnd(old(brk), phs, base)
      ensures ok && !asLibrary && AllSound(phs, base, |phs|) ==>
        forall j :: 0 <= j < |phs| && phs[j].typ == PT_LOAD ==>
          LoadAddress(phs[j], base) + phs[j].memsz <= brk
    {
      ok := true;
      var i := 0;
      while i < |phs|
        invariant 0 <= i <= |phs| && ok && SpaceOk(space.pages) && space.refusals >= old(space.refusals)
        invariant Progress(old(space.mem), old(space.pages), space.mem, space.pages, file, phs, base, i)
        invariant brk == if asLibrary then old(brk) else MaxEnd(old(brk), phs[..i], base)
      {
        var ph := phs[i];
        MaxEndNext(old(brk), phs, base, i);
        if ph.typ != PT_LOAD {
          ProgressSkips(old(space.mem), old(space.pages), space.mem, space.pages, file, phs, base, i);
        } else {
          ok := LoadNext(file, phs, base, i, old(space.mem), old(space.pages));
          if !ok {
            return;
          }
          if !asLibrary && EndOf(ph, base) > brk {
            brk := EndOf(ph, base);
          }
        }
        i := i + 1;
      }
      assert phs[..i] == phs;
      Finished(old(space.mem), old(space.pages), space.mem, space.pages, file, phs, base);
      if AllSound(phs, base, |phs|) {
        MaxEndCovers(old(brk), phs, base);
      }
    }

    /** A header whose range ends with the address space: reported as loaded from any file with a page in it,
        though no page was allocated and the segment is not there. */
    method LoadWrappedSegment(file: seq<byte>) returns (ok: bool)
      requires SpaceOk(space.pages) && |file| >= 0x1000
      modifies space`pages, space`mem, space`refusals, this`allocations
      ensures var ph := Phdr(PT_LOAD, 0, 0x1_0000, 0x1000, 0xFFFF_0000, 1);
        ok && space.pages == old(space.pages) && !Loaded(space.mem, space.pages, file, ph, 0)
    {
      ok := LoadSegment(file, Phdr(PT_LOAD, 0, 0x1_0000, 0x1000, 0xFFFF_0000, 1), 0);
    }

    /** Every page from `load` up to the break has memory. */
    ghost predicate Backed(load: u32)
      reads this, space
    {
      SpaceOk(space.pages) && SIZE64K <= load <= brk && (load < brk ==> RangeCommitted(space.pages, load, brk))
    }

    /** brk: grows only, and commits what it grows over. What it grants has memory exactly if the break it
        grows from is at or above 64k. */
    method SysBrk(ebx: u32, ghost load: u32) returns (eax: u32)
      requires SpaceOk(space.pages)
      modifies space`pages, space`mem, space`refusals, this`allocations, this`brk
      ensures SpaceOk(space.pages) && old(brk) <= brk && space.refusals >= old(space.refusals)
      ensures old(Backed(load)) ==> Backed(load)
      ensures KeepsOutside(old(space.mem), old(space.pages), space.mem, space.pages, 0, 0)
      ensures ebx == 0 ==> eax == brk == old(brk)
      ensures 0 < ebx < old(brk) ==> eax == FAILED && brk == old(brk)
      ensures 0 < ebx && ebx >= old(brk) ==> (brk == ebx && eax == ebx) || (eax == FAILED && brk == old(brk))
      ensures brk > old(brk) ==> (RangeCommitted(space.pages, old(brk), brk) <==> SIZE64K <= old(brk))
      ensures ebx >= old(brk) && eax == FAILED ==>
        space.refusals > old(space.refusals) || ebx > USER_END || 0 < old(brk) < SIZE64K
    {
      var oldBrk, newBrk := brk, ebx;
      if newBrk == 0 {
        return brk;
      }
      if newBrk < oldBrk {
        return FAILED;
      }
      if newBrk > oldBrk {
        var p := AllocateMemAndProtect(oldBrk, newBrk - oldBrk);
        GrowthKeeps(old(space.mem), old(space.pages), space.mem, space.pages, 0, PAGES, 0, 0);
        StillCommitted(old(space.pages), space.pages, load, oldBrk, 0, PAGES);
        if p == FAILED {
          return FAILED;
        }
        if oldBrk < SIZE64K {
          assert Touches(oldBrk / 0x1000, oldBrk, newBrk);
        } else if load <= oldBrk && (load < oldBrk ==> RangeCommitted(space.pages, load, oldBrk)) {
          JoinCommitted(space.pages, load, oldBrk, newBrk);
        }
      }
      brk := newBrk;
      return newBrk;
    }

    /** The first page of a process that has no break yet: granted unless Windows refuses, and not there. */
    method BreakFromNothing() returns (eax: u32)
      requires SpaceOk(space.pages) && brk == 0
      modifies space`pages, space`mem, space`refusals, this`allocations, this`brk
      ensures space.refusals == old(space.refusals) ==> eax == brk == 0x1000
      ensures !Usable(space.pages, 0)
    {
      eax := SysBrk(0x1000, 0);
    }

    /** Over any run of brk calls the break never falls, everything from a load-time break up to it
        stays backed by memory, and no byte that was committed at the start changes. */
    method RunBrks(requests: seq<u32>, ghost load: u32) returns (replies: seq<u32>)
      requires SpaceOk(space.pages)
      modifies space`pages, space`mem, space`refusals, this`allocations, this`brk
      ensures SpaceOk(space.pages) && old(brk) <= brk && |replies| == |requests|
      ensures old(Backed(load)) ==> Backed(load)
      ensures forall i :: 0 <= i < |requests| ==>
        replies[i] == FAILED || (replies[i] <= brk && (requests[i] != 0 ==> replies[i] == requests[i]))
      ensures KeepsOutside(old(space.mem), old(space.pages), space.mem, space.pages, 0, 0)
    {
      replies := [];
      while |replies| < |requests|
        invariant |replies| <= |requests| && SpaceOk(space.pages) && old(brk) <= brk
        invariant old(Backed(load)) ==> Backed(load)
        invariant forall i :: 0 <= i < |replies| ==>
          replies[i] == FAILED || (replies[i] <= brk && (requests[i] != 0 ==> replies[i] == requests[i]))
        invariant KeepsOutside(old(space.mem), old(space.pages), space.mem, space.pages, 0, 0)
      {
        ghost var m1, p1 := space.mem, space.pages;
        var eax := SysBrk(requests[|replies|], load);
        KeepsOutsideOn(old(space.mem), old(space.pages), m1, p1, space.mem, space.pages, 0, 0);
        replies := replies + [eax];
      }
    }
  }

  lemma StillCommitted(p0: PageTable, p1: PageTable, a: u32, end: u32, lo: int, hi: int)
    requires OnlyGrows(p0, p1, lo, hi)
    ensures RangeCommitted(p0, a, end) ==> RangeCommitted(p1, a, end)
  {
  }

  lemma JoinCommitted(pages: PageTable, a: u32, b: u32, c: u32)
    requires a <= b < c && (a < b ==> RangeCommitted(pages, a, b)) && RangeCommitted(pages, b, c)
    ensures RangeCommitted(pages, a, c)
  {
    forall p | Touches(p, a, c)
      ensures p < USER_PAGES && pages[p] == Committed
    {
      assert (a < b && Touches(p, a, b)) || Touches(p, b, c);
    }
  }

  lemma AllKeptApart(m0: Memory, p0: PageTable, m1: Memory, p1: PageTable, ph: Phdr, base: u32)
    requires KeepsOutside(m0, p0, m1, p1, 0, 0)
    ensures KeepsApart(m0, p0, m1, p1, ph, base)
  {
  }
}
