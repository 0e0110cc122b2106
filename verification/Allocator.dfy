/** Reserving in 64k granules and committing in 4k pages. */
module Allocator {
  import opened Words
  import opened ByteMemory
  import opened AddressSpace

  /** User memory ends at 0x7FFF0000; the first 64k are never given out. */
  const USER_PAGES := 0x7FFF0
  const FIRST_PAGE := 16
  const FAILED: u32 := 0xFFFF_FFFF

  predicate SameGranule(p: int, q: int) { p / 16 == q / 16 }

  /** Every 64k granule is wholly free or wholly reserved, and only user memory is ever used. */
  ghost predicate SpaceOk(pages: PageTable)
  {
    && (forall p, q {:trigger SameGranule(p, q)} ::
          0 <= p < PAGES && 0 <= q < PAGES && SameGranule(p, q) ==> (pages[p] == Free <==> pages[q] == Free))
    && (forall p :: 0 <= p < FIRST_PAGE || USER_PAGES <= p < PAGES ==> pages[p] == Free)
  }

  datatype Region = Region(base: u32, size: nat, state: PageState)

  /** VirtualQueryEx: some run of pages, from the one asked about, that are all in its state; it does not run
      across the end of user memory. */
  method VirtualQueryEx(sp: Space, addr: u32) returns (mbi: Region)
    ensures mbi.base == PageDown(addr) && mbi.size > 0 && mbi.size % 0x1000 == 0 && mbi.base + mbi.size <= TWO32
    ensures mbi.state == sp.pages[addr / 0x1000]
    ensures addr / 0x1000 + mbi.size / 0x1000 <= if addr < USER_END then USER_PAGES else PAGES
    ensures forall p :: addr / 0x1000 <= p < addr / 0x1000 + mbi.size / 0x1000 ==> sp.pages[p] == mbi.state
  {
    var first := addr / 0x1000;
    assert forall p :: first <= p < first + 1 ==> sp.pages[p] == sp.pages[first];
    var k: nat :| && 1 <= k && first + k <= (if addr < USER_END then USER_PAGES else PAGES)
                  && forall p :: first <= p < first + k ==> sp.pages[p] == sp.pages[first];
    mbi := Region(PageDown(addr), 0x1000 * k, sp.pages[first]);
  }

  function SetPages(pages: PageTable, lo: int, hi: int, s: PageState): PageTable
  {
    seq(PAGES, (p: int) requires 0 <= p < PAGES => if lo <= p < hi then s else pages[p])
  }

  /** VirtualAllocEx with MEM_RESERVE at a given address: takes whole free granules, or fails. */
  method VirtualReserve(sp: Space, addr: u32, len: nat) returns (p: u32)
    requires SpaceOk(sp.pages) && 0 < addr && addr % 0x1_0000 == 0 && len % 0x1_0000 == 0
    modifies sp`pages, sp`refusals
    ensures SpaceOk(sp.pages)
    ensures if p == addr
            then && 0 < len && addr + len <= USER_END
                 && sp.pages == SetPages(old(sp.pages), addr / 0x1000, (addr + len) / 0x1000, Reserved)
                 && forall q :: addr / 0x1000 <= q < (addr + len) / 0x1000 ==> old(sp.pages)[q] == Free
            else sp.pages == old(sp.pages)
    ensures sp.refusals >= old(sp.refusals)
    ensures p != addr && 0 < len && addr + len <= USER_END
            && (forall q :: addr / 0x1000 <= q < (addr + len) / 0x1000 ==> sp.pages[q] == Free) ==>
              sp.refusals > old(sp.refusals)
  {
    p := 0;
    var willing: bool := *;
    var lo, hi := addr / 0x1000, (addr + len) / 0x1000;
    if !willing {
      sp.refusals := sp.refusals + 1;
    } else if 0 < len && addr + len <= USER_END && forall q :: lo <= q < hi ==> sp.pages[q] == Free {
      GranuleSum(addr, len);
      WholeGranules(addr);
      WholeGranules(addr + len);
      ReserveKeepsOk(sp.pages, lo, hi);
      sp.pages := SetPages(sp.pages, lo, hi, Reserved);
      p := addr;
    }
  }

  lemma GranuleSum(a: nat, b: nat)
    requires a % 0x1_0000 == 0 && b % 0x1_0000 == 0
    ensures (a + b) % 0x1_0000 == 0
  {
    assert a == 0x1_0000 * (a / 0x1_0000) && b == 0x1_0000 * (b / 0x1_0000);
    assert a + b == 0x1_0000 * (a / 0x1_0000 + b / 0x1_0000);
  }

  lemma WholeGranules(a: nat)
    requires a % 0x1_0000 == 0
    ensures a / 0x1000 % 16 == 0 && a / 0x1000 * 0x1000 == a
  {
    assert a == 0x1_0000 * (a / 0x1_0000);
    assert a / 0x1000 == 16 * (a / 0x1_0000);
  }

  lemma ReserveKeepsOk(pages: PageTable, lo: int, hi: int)
    requires SpaceOk(pages) && FIRST_PAGE <= lo <= hi <= USER_PAGES && lo % 16 == 0 && hi % 16 == 0
    ensures SpaceOk(SetPages(pages, lo, hi, Reserved))
  {
    var pages' := SetPages(pages, lo, hi, Reserved);
    forall p, q | 0 <= p < PAGES && 0 <= q < PAGES && SameGranule(p, q)
      ensures pages'[p] == Free <==> pages'[q] == Free
    {
      assert lo <= p < hi <==> lo <= q < hi;
    }
  }

  /** Memory with the pages of a range blank if they had no memory before. */
  function Blanked(m: Memory, pages: PageTable, lo: int, hi: int): Memory
  {
    seq(TWO32, (x: int) requires 0 <= x < TWO32 =>
      if lo <= x / 0x1000 < hi && pages[x / 0x1000] != Committed then 0 else m[x])
  }

  /** VirtualAllocEx with MEM_COMMIT: gives reserved pages memory, or fails. */
  method VirtualCommit(sp: Space, addr: u32, len: nat) returns (p: u32)
    requires SpaceOk(sp.pages) && 0 < addr && addr % 0x1000 == 0 && len % 0x1000 == 0 && addr + len <= TWO32
    modifies sp`pages, sp`mem, sp`refusals
    ensures SpaceOk(sp.pages)
    ensures var lo, hi := addr / 0x1000, (addr + len) / 0x1000;
            if p == addr
            then && sp.pages == SetPages(old(sp.pages), lo, hi, Committed)
                 && sp.mem == Blanked(old(sp.mem), old(sp.pages), lo, hi)
                 && forall q :: lo <= q < hi ==> old(sp.pages)[q] != Free
            else sp.pages == old(sp.pages) && sp.mem == old(sp.mem)
    ensures sp.refusals >= old(sp.refusals)
    ensures p != addr && (forall q :: addr / 0x1000 <= q < (addr + len) / 0x1000 ==> sp.pages[q] != Free) ==>
              sp.refusals > old(sp.refusals)
  {
    p := 0;
    var willing: bool := *;
    var lo, hi := addr / 0x1000, (addr + len) / 0x1000;
    if !willing {
      sp.refusals := sp.refusals + 1;
    } else if forall q :: lo <= q < hi ==> sp.pages[q] != Free {
      CommitKeepsOk(sp.pages, lo, hi);
      sp.mem := Blanked(sp.mem, sp.pages, lo, hi);
      sp.pages := SetPages(sp.pages, lo, hi, Committed);
      p := addr;
    }
  }

  lemma CommitKeepsOk(pages: PageTable, lo: int, hi: int)
    requires SpaceOk(pages) && 0 <= lo <= hi <= PAGES && forall q :: lo <= q < hi ==> pages[q] != Free
    ensures SpaceOk(SetPages(pages, lo, hi, Committed))
  {
    var pages' := SetPages(pages, lo, hi, Committed);
    assert forall p :: 0 <= p < PAGES ==> (pages'[p] == Free <==> pages[p] == Free);
    forall p, q | 0 <= p < PAGES && 0 <= q < PAGES && SameGranule(p, q)
      ensures pages'[p] == Free <==> pages'[q] == Free
    {
      assert pages[p] == Free <==> pages[q] == Free;
    }
  }

  /** Pages from `lo` up to `hi` may go from free to reserved to committed; nothing else happens. */
  ghost predicate OnlyGrows(p0: PageTable, p1: PageTable, lo: int, hi: int)
  {
    forall p {:trigger p1[p]} :: 0 <= p < PAGES ==>
      p1[p] == p0[p] || (lo <= p < hi && p0[p] != Committed && p1[p] != Free)
  }

  ghost predicate SameCommitted(p0: PageTable, p1: PageTable)
  {
    forall p {:trigger p1[p]} :: 0 <= p < PAGES ==> (p1[p] == Committed <==> p0[p] == Committed)
  }

  /** Bytes of committed pages are kept; a page that gains memory gains zeros. */
  ghost predicate KeepsContents(m0: Memory, p0: PageTable, m1: Memory, p1: PageTable)
  {
    forall x {:trigger m1[x]} :: 0 <= x < TWO32 ==>
      m1[x] == if p0[x / 0x1000] != Committed && p1[x / 0x1000] == Committed then 0 else m0[x]
  }

  /** `(len + 0xFFFF) & ~0xFFFF` and `(len + 0xFFF) & ~0xFFF` in DWORDs. */
  function Up64k(len: u32): (r: u32)
    ensures r % 0x1_0000 == 0
  {
    Add(len, 0xFFFF) / 0x1_0000 * 0x1_0000
  }

  function Up4k(len: u32): (r: u32)
    ensures r % 0x1000 == 0
  {
    Add(len, 0xFFF) / 0x1000 * 0x1000
  }

  /** `a & 0xFFFF0000`. */
  function Down64k(a: u32): (r: u32)
    ensures r <= a && r % 0x1_0000 == 0 && (a >= 0x1_0000 ==> r >= 0x1_0000)
  {
    a - a % 0x1_0000
  }

  const USER_END := 0x7FFF_0000

  /** The granules reaching up to `end`, counted in pages. */
  function GranuleTop(end: u32): (p: int)
    ensures p % 16 == 0 && 0 <= 0x1000 * p - end < 0x1_0000
  {
    (end + 0xFFFF) / 0x1_0000 * 16
  }

  function PageTop(end: u32): (p: int)
    ensures 0 <= 0x1000 * p - end < 0x1000
  {
    (end + 0xFFF) / 0x1000
  }

  /** When the first page of each granule in `lo..hi` is free, or taken, so are all its pages. */
  lemma GranulesFollow(pages: PageTable, lo: int, hi: int, raw: int, free: bool)
    requires SpaceOk(pages) && lo % 16 == 0 && 0 <= lo <= hi <= PAGES && raw <= PAGES
    requires forall p :: lo <= p < raw ==> (pages[p] == Free) == free
    requires forall p :: lo <= p < hi ==> 16 * (p / 16) < raw
    ensures forall p :: lo <= p < hi ==> (pages[p] == Free) == free
  {
    forall p | lo <= p < hi
      ensures (pages[p] == Free) == free
    {
      var q := 16 * (p / 16);
      assert SameGranule(p, q) && lo <= q < raw;
    }
  }

  /** One turn of the reserving loop. */
  method ReserveStep(sp: Space, tmp64k: u32, end: u32) returns (ok: bool, len64k: u32, ghost t: nat, ghost t': nat)
    requires SpaceOk(sp.pages) && 0 < tmp64k < end && tmp64k % 0x1_0000 == 0
    modifies sp`pages, sp`refusals
    ensures SpaceOk(sp.pages) && tmp64k == 0x1000 * t
    ensures ok ==> && 0 < len64k && (tmp64k + len64k) % 0x1_0000 == 0 && tmp64k + len64k <= USER_END
                   && tmp64k + len64k == 0x1000 * t' && t' <= GranuleTop(end)
                   && OnlyGrows(old(sp.pages), sp.pages, t, t') && SameCommitted(old(sp.pages), sp.pages)
                   && Taken(sp.pages, t, t')
    ensures sp.refusals >= old(sp.refusals)
    ensures !ok ==> sp.pages == old(sp.pages) && (end <= USER_END ==> sp.refusals > old(sp.refusals))
  {
    t, t' := tmp64k / 0x1000, 0;
    WholeGranules(tmp64k);
    var mbi := VirtualQueryEx(sp, tmp64k);
    assert mbi.base == tmp64k;
    var raw := end - tmp64k;
    if raw > mbi.size {
      raw := mbi.size;
    }
    len64k := Up64k(raw);
    if mbi.state == Free {
      RegionCovers(tmp64k, raw, mbi.size);
      if end <= USER_END {
        FreeGranules(sp.pages, tmp64k, raw, end);
      }
      var p := VirtualReserve(sp, tmp64k, len64k);
      if p != tmp64k {
        return false, len64k, t, t';
      }
      RoundedTop(tmp64k, raw, len64k, end);
    } else {
      RegionCovers(tmp64k, raw, mbi.size);
      SkipNonFree(sp.pages, tmp64k, raw, end);
    }
    ok, t' := true, (tmp64k + len64k) / 0x1000;
    GranuleSum(tmp64k, len64k);
    WholeGranules(tmp64k + len64k);
  }

  lemma RegionCovers(tmp: u32, raw: nat, size: nat)
    requires tmp % 0x1000 == 0 && raw <= size && size % 0x1000 == 0 && tmp + size <= TWO32 && tmp + raw < TWO32
    ensures PageTop(tmp + raw) <= tmp / 0x1000 + size / 0x1000
  {
    var k := size / 0x1000;
    assert raw + 0xFFF <= k * 0x1000 + 0xFFF;
  }

  /** Rounding up to granules does not pass the granule that holds `end`. */
  lemma RoundedTop(tmp: u32, raw: u32, len: u32, end: u32)
    requires tmp % 0x1_0000 == 0 && 0 < raw <= end - tmp && len == Up64k(raw) && 0 < len
    ensures (tmp + len) / 0x1000 <= GranuleTop(end)
  {
    var g := tmp / 0x1_0000;
    assert tmp == 0x1_0000 * g;
    assert len == (raw + 0xFFFF) / 0x1_0000 * 0x1_0000;
    assert (tmp + raw + 0xFFFF) / 0x1_0000 == g + (raw + 0xFFFF) / 0x1_0000;
    assert (tmp + len) / 0x1000 == 16 * (g + (raw + 0xFFFF) / 0x1_0000);
  }

  /** The pages of the granules that `raw` bytes from `tmp` reach begin below those bytes' end. */
  lemma GranuleStarts(tmp: u32, raw: u32, end: u32)
    requires tmp % 0x1_0000 == 0 && 0 < raw <= end - tmp && tmp + raw <= USER_END
    ensures var len := Up64k(raw);
            && 0 < len && len % 0x1_0000 == 0 && tmp + len <= USER_END && (tmp + len) / 0x1000 <= GranuleTop(end)
            && forall p :: tmp / 0x1000 <= p < (tmp + len) / 0x1000 ==> 16 * (p / 16) < PageTop(tmp + raw)
  {
    var lo := tmp / 0x1000;
    WholeGranules(tmp);
    var n := (raw + 0xFFFF) / 0x1_0000;
    var len := Up64k(raw);
    assert len == n * 0x1_0000;
    RoundedTop(tmp, raw, len, end);
    var hi := (tmp + len) / 0x1000;
    assert hi == lo + 16 * n;
    forall p | lo <= p < hi
      ensures 16 * (p / 16) < PageTop(tmp + raw)
    {
      assert 16 * (p / 16) <= lo + 16 * (n - 1);
    }
  }

  /** A region that is not free lies in user memory, and so do the granules it reaches. */
  lemma SkipNonFree(pages: PageTable, tmp: u32, raw: u32, end: u32)
    requires SpaceOk(pages) && tmp % 0x1_0000 == 0 && 0 < raw <= end - tmp
    requires forall p :: tmp / 0x1000 <= p < PageTop(tmp + raw) ==> pages[p] != Free
    ensures var len := Up64k(raw);
            && 0 < len && len % 0x1_0000 == 0 && tmp + len <= USER_END && (tmp + len) / 0x1000 <= GranuleTop(end)
            && forall p :: tmp / 0x1000 <= p < (tmp + len) / 0x1000 ==> pages[p] != Free
  {
    var top := PageTop(tmp + raw);
    WholeGranules(tmp);
    assert pages[top - 1] != Free;
    assert tmp + raw <= USER_END;
    GranuleStarts(tmp, raw, end);
    GranulesFollow(pages, tmp / 0x1000, (tmp + Up64k(raw)) / 0x1000, top, false);
  }

  /** In user memory the granules that a free region reaches are free too. */
  lemma FreeGranules(pages: PageTable, tmp: u32, raw: u32, end: u32)
    requires SpaceOk(pages) && tmp % 0x1_0000 == 0 && 0 < raw <= end - tmp && end <= USER_END
    requires forall p :: tmp / 0x1000 <= p < PageTop(tmp + raw) ==> pages[p] == Free
    ensures var len := Up64k(raw);
            && 0 < len && tmp + len <= USER_END
            && forall p :: tmp / 0x1000 <= p < (tmp + len) / 0x1000 ==> pages[p] == Free
  {
    WholeGranules(tmp);
    GranuleStarts(tmp, raw, end);
    GranulesFollow(pages, tmp / 0x1000, (tmp + Up64k(raw)) / 0x1000, PageTop(tmp + raw), true);
  }

  lemma GrowsOn(p0: PageTable, p1: PageTable, p2: PageTable, lo: int, mid: int, hi: int)
    requires OnlyGrows(p0, p1, lo, mid) && OnlyGrows(p1, p2, lo, hi) && mid <= hi
    ensures OnlyGrows(p0, p2, lo, hi)
  {
    forall p | 0 <= p < PAGES
      ensures p2[p] == p0[p] || (lo <= p < hi && p0[p] != Committed && p2[p] != Free)
    {
      assert p1[p] == p0[p] || (lo <= p < mid && p0[p] != Committed && p1[p] != Free);
    }
  }

  lemma ContentsOn(m0: Memory, p0: PageTable, m1: Memory, p1: PageTable, m2: Memory, p2: PageTable, lo: int, hi: int)
    requires KeepsContents(m0, p0, m1, p1) && KeepsContents(m1, p1, m2, p2)
    requires OnlyGrows(p0, p1, lo, hi) && OnlyGrows(p1, p2, lo, hi)
    ensures KeepsContents(m0, p0, m2, p2)
  {
    forall x | 0 <= x < TWO32
      ensures m2[x] == if p0[x / 0x1000] != Committed && p2[x / 0x1000] == Committed then 0 else m0[x]
    {
      var p := x / 0x1000;
      assert p1[p] == p0[p] || p0[p] != Committed;
      assert p2[p] == p1[p] || p1[p] != Committed;
      assert m1[x] == if p0[p] != Committed && p1[p] == Committed then 0 else m0[x];
    }
  }

  lemma Widen(p0: PageTable, p1: PageTable, lo: int, hi: int, lo': int, hi': int)
    requires OnlyGrows(p0, p1, lo, hi) && lo' <= lo && hi <= hi'
    ensures OnlyGrows(p0, p1, lo', hi')
  {
  }

  /** Some free granules, wherever Windows put them, are reserved now, and nothing else has changed. */
  ghost predicate ReservedElsewhere(p0: PageTable, p1: PageTable)
  {
    exists lo, hi :: FIRST_PAGE <= lo < hi <= USER_PAGES && WereFree(p0, lo, hi) && p1 == SetPages(p0, lo, hi, Reserved)
  }

  ghost predicate WereFree(pages: PageTable, lo: int, hi: int)
  {
    forall q :: lo <= q < hi ==> 0 <= q < PAGES && pages[q] == Free
  }

  /** VirtualAllocEx with MEM_RESERVE and no address: free granules of Windows' choosing, or 0. */
  method VirtualReserveAnywhere(sp: Space, size: u32) returns (p: u32)
    requires SpaceOk(sp.pages)
    modifies sp`pages, sp`refusals
    ensures SpaceOk(sp.pages) && SameCommitted(old(sp.pages), sp.pages) && OnlyGrows(old(sp.pages), sp.pages, 0, PAGES)
    ensures p != 0 ==> && 0 < size && SIZE64K <= p && p + size <= USER_END && sp.refusals == old(sp.refusals)
                       && ReservedElsewhere(old(sp.pages), sp.pages)
                       && WereFree(old(sp.pages), p / 0x1000, PageTop(p + size))
    ensures p == 0 ==> sp.pages == old(sp.pages) && sp.refusals == old(sp.refusals) + if size > 0 then 1 else 0
  {
    p := *;
    var end := p + Up64k(size);
    var lo, hi := p / 0x1000, end / 0x1000;
    if && 0 < size && SIZE64K <= p && p % 0x1_0000 == 0 && p + size <= USER_END && end <= USER_END
       && forall q :: lo <= q < hi ==> sp.pages[q] == Free {
      GranuleSum(p, Up64k(size));
      WholeGranules(p);
      WholeGranules(end);
      ReserveKeepsOk(sp.pages, lo, hi);
      assert PageTop(p + size) <= hi;
      assert WereFree(sp.pages, lo, hi);
      sp.pages := SetPages(sp.pages, lo, hi, Reserved);
    } else {
      p := 0;
      sp.refusals := sp.refusals + if size > 0 then 1 else 0;
    }
  }

  /** The first turn of the reserving loop for an address below 64k. It asks for memory at address 0, which
      Windows takes as no address at all; only the answer 0 is what the loop expects. */
  method ReserveFirst(sp: Space, end: u32) returns (ok: bool, len64k: u32)
    requires SpaceOk(sp.pages) && 0 < end
    modifies sp`pages, sp`refusals
    ensures SpaceOk(sp.pages) && SameCommitted(old(sp.pages), sp.pages) && OnlyGrows(old(sp.pages), sp.pages, 0, PAGES)
    ensures ok ==> && sp.pages == old(sp.pages) && sp.refusals > old(sp.refusals)
                   && SIZE64K <= len64k <= USER_END && len64k % 0x1_0000 == 0
    ensures !ok ==> sp.refusals == old(sp.refusals) && ReservedElsewhere(old(sp.pages), sp.pages)
  {
    var mbi := VirtualQueryEx(sp, 0);
    var raw := end;
    if raw > mbi.size {
      raw := mbi.size;
    }
    len64k := Up64k(raw);
    assert mbi.state == Free;
    var p := VirtualReserveAnywhere(sp, len64k);
    ok := p == 0;
  }

  /** The rest of the loop, in granules; some may already be reserved. */
  method ReserveFrom(sp: Space, start: u32, end: u32) returns (ok: bool)
    requires SpaceOk(sp.pages) && start % 0x1_0000 == 0 && (SIZE64K <= start || end <= start)
    modifies sp`pages, sp`refusals
    ensures SpaceOk(sp.pages) && SameCommitted(old(sp.pages), sp.pages)
    ensures OnlyGrows(old(sp.pages), sp.pages, start / 0x1000, GranuleTop(end))
    ensures ok ==> forall p :: Touches(p, start, end) ==> IsTaken(sp.pages, p)
    ensures end <= start ==> ok && sp.pages == old(sp.pages) && sp.refusals == old(sp.refusals)
    ensures sp.refusals >= old(sp.refusals)
    ensures !ok && end <= USER_END ==> sp.refusals > old(sp.refusals)
  {
    var tmp64k := start;
    ghost var lo, hi, top := start / 0x1000, GranuleTop(end), start / 0x1000;
    WholeGranules(start);
    ok := true;
    while tmp64k < end
      invariant ok && start <= tmp64k && tmp64k % 0x1_0000 == 0 && tmp64k == 0x1000 * top
      invariant 0 <= lo <= top && tmp64k < TWO32
      invariant SpaceOk(sp.pages) && Reserving(old(sp.pages), sp.pages, lo, hi, top)
      invariant end <= start ==> sp.pages == old(sp.pages) && sp.refusals == old(sp.refusals)
      invariant sp.refusals >= old(sp.refusals)
      decreases end - tmp64k
    {
      ghost var before := sp.pages;
      ghost var t, t';
      var len64k;
      ok, len64k, t, t' := ReserveStep(sp, tmp64k, end);
      if !ok {
        return;
      }
      ReservedMore(old(sp.pages), before, sp.pages, lo, hi, t, t');
      tmp64k, top := tmp64k + len64k, t';
    }
  }

  /** Below 64k the reservation goes on only if Windows refuses what the first turn asks. */
  method ReserveLow(sp: Space, end: u32) returns (ok: bool)
    requires SpaceOk(sp.pages) && 0 < end
    modifies sp`pages, sp`refusals
    ensures SpaceOk(sp.pages) && SameCommitted(old(sp.pages), sp.pages) && OnlyGrows(old(sp.pages), sp.pages, 0, PAGES)
    ensures sp.refusals >= old(sp.refusals)
    ensures ok ==> end <= USER_END && sp.refusals > old(sp.refusals)
    ensures !ok ==> sp.refusals > old(sp.refusals) || ReservedElsewhere(old(sp.pages), sp.pages)
    ensures end <= SIZE64K && sp.refusals > old(sp.refusals) ==> ok && sp.pages == old(sp.pages)
  {
    var len64k;
    ok, len64k := ReserveFirst(sp, end);
    if !ok {
      return;
    }
    ok := ReserveFrom(sp, len64k, end);
    WidenAll(old(sp.pages), sp.pages, len64k / 0x1000, GranuleTop(end));
    if ok && len64k < end {
      LastTouched(len64k, end);
    }
  }

  lemma WidenAll(p0: PageTable, p1: PageTable, lo: int, hi: int)
    requires OnlyGrows(p0, p1, lo, hi)
    ensures OnlyGrows(p0, p1, 0, PAGES)
  {
  }

  /** From 64k up, or when there is nothing to reserve, the loop starts at the granule of the address. */
  method ReserveHigh(sp: Space, addr: u32, end: u32) returns (ok: bool)
    requires SpaceOk(sp.pages) && (addr >= SIZE64K || end == 0)
    modifies sp`pages, sp`refusals
    ensures SpaceOk(sp.pages) && SameCommitted(old(sp.pages), sp.pages) && sp.refusals >= old(sp.refusals)
    ensures OnlyGrows(old(sp.pages), sp.pages, Down64k(addr) / 0x1000, GranuleTop(end))
    ensures ok ==> forall p :: Touches(p, addr, end) ==> IsTaken(sp.pages, p)
    ensures ok && PageDown(addr) < end ==> end <= USER_END
    ensures !ok && end <= USER_END ==> sp.refusals > old(sp.refusals)
    ensures end <= Down64k(addr) ==> ok && sp.pages == old(sp.pages) && sp.refusals == old(sp.refusals)
  {
    var start := Down64k(addr);
    ok := ReserveFrom(sp, start, end);
    TouchedFromGranule(addr, start, end);
    if ok && start < end {
      LastTouched(start, end);
    }
  }

  lemma TouchedFromGranule(addr: u32, start: u32, end: u32)
    requires start == Down64k(addr)
    ensures start <= PageDown(addr) && forall p :: Touches(p, addr, end) ==> Touches(p, start, end)
  {
    RangesNest(addr, end);
  }

  /** Reservation, for any address. */
  method ReserveRange(sp: Space, addr: u32, end: u32) returns (ok: bool)
    requires SpaceOk(sp.pages)
    modifies sp`pages, sp`refusals
    ensures SpaceOk(sp.pages) && SameCommitted(old(sp.pages), sp.pages) && OnlyGrows(old(sp.pages), sp.pages, 0, PAGES)
    ensures sp.refusals >= old(sp.refusals)
    ensures ok && PageDown(addr) < end ==> end <= USER_END
    ensures end <= Down64k(addr) ==> ok && sp.pages == old(sp.pages) && sp.refusals == old(sp.refusals)
    ensures addr >= SIZE64K ==>
      && OnlyGrows(old(sp.pages), sp.pages, Down64k(addr) / 0x1000, GranuleTop(end))
      && (ok ==> forall p :: Touches(p, addr, end) ==> IsTaken(sp.pages, p))
      && (!ok && end <= USER_END ==> sp.refusals > old(sp.refusals))
    ensures addr < SIZE64K && 0 < end ==>
      && (ok ==> sp.refusals > old(sp.refusals))
      && (!ok ==> sp.refusals > old(sp.refusals) || ReservedElsewhere(old(sp.pages), sp.pages))
      && (end <= SIZE64K && sp.refusals > old(sp.refusals) ==> ok && sp.pages == old(sp.pages))
  {
    if addr < SIZE64K && 0 < end {
      ok := ReserveLow(sp, end);
    } else {
      ok := ReserveHigh(sp, addr, end);
      WidenAll(old(sp.pages), sp.pages, Down64k(addr) / 0x1000, GranuleTop(end));
    }
  }

  predicate IsTaken(pages: PageTable, p: int)
  {
    0 <= p < USER_PAGES && pages[p] != Free
  }

  ghost predicate Taken(pages: PageTable, lo: int, hi: int)
  {
    forall p :: lo <= p < hi ==> IsTaken(pages, p)
  }

  /** All granules from page `lo` up to page `t` are reserved by now, and nothing else happened. */
  ghost predicate Reserving(p0: PageTable, p1: PageTable, lo: int, hi: int, t: int)
  {
    OnlyGrows(p0, p1, lo, hi) && SameCommitted(p0, p1) && Taken(p1, lo, t)
  }

  lemma ReservedMore(p0: PageTable, p1: PageTable, p2: PageTable, lo: int, hi: int, t: int, t': int)
    requires Reserving(p0, p1, lo, hi, t) && OnlyGrows(p1, p2, t, t') && SameCommitted(p1, p2) && Taken(p2, t, t')
    requires 0 <= lo <= t && t' <= hi
    ensures Reserving(p0, p2, lo, hi, t')
  {
    Widen(p1, p2, t, t', lo, hi);
    GrowsOn(p0, p1, p2, lo, hi, hi);
    forall p | lo <= p < t
      ensures IsTaken(p2, p)
    {
      assert IsTaken(p1, p);
      assert p2[p] == p1[p];
    }
    forall p | 0 <= p < PAGES
      ensures p2[p] == Committed <==> p0[p] == Committed
    {
      assert p1[p] == Committed <==> p0[p] == Committed;
    }
  }

  /** `p` is at or above the page of `addr` and starts below `end`. */
  predicate Touches(p: int, addr: u32, end: u32)
  {
    addr / 0x1000 <= p && p * 0x1000 < end
  }

  ghost predicate RangeCommitted(pages: PageTable, addr: u32, end: u32)
  {
    forall p :: Touches(p, addr, end) ==> p < USER_PAGES && pages[p] == Committed
  }

  lemma CommitContents(m: Memory, pages: PageTable, lo: int, hi: int)
    ensures KeepsContents(m, pages, Blanked(m, pages, lo, hi), SetPages(pages, lo, hi, Committed))
  {
  }

  /** The page has memory, or had not even been reserved. */
  predicate CommittedIfTaken(p0: PageTable, p1: PageTable, p: int)
  {
    0 <= p < USER_PAGES && (p1[p] == Committed || p0[p] == p1[p] == Free)
  }

  predicate Same(m0: Memory, p0: PageTable, m1: Memory, p1: PageTable) { m1 == m0 && p1 == p0 }

  /** One turn of the committing loop. */
  method CommitStep(sp: Space, tmp4k: u32, end: u32) returns (ok: bool, len4k: u32)
    requires SpaceOk(sp.pages) && tmp4k < end <= USER_END && tmp4k % 0x1000 == 0
    modifies sp`pages, sp`mem, sp`refusals
    ensures SpaceOk(sp.pages) && KeepsContents(old(sp.mem), old(sp.pages), sp.mem, sp.pages)
    ensures ok ==> && 0 < len4k && len4k % 0x1000 == 0 && (tmp4k + len4k) / 0x1000 <= PageTop(end)
                   && OnlyGrows(old(sp.pages), sp.pages, tmp4k / 0x1000, (tmp4k + len4k) / 0x1000)
                   && forall p :: tmp4k / 0x1000 <= p < (tmp4k + len4k) / 0x1000 ==>
                        CommittedIfTaken(old(sp.pages), sp.pages, p)
    ensures !ok ==> sp.pages == old(sp.pages) && sp.refusals > old(sp.refusals)
    ensures sp.refusals >= old(sp.refusals)
    ensures old(sp.pages)[tmp4k / 0x1000] == Free ==>
      ok && Same(old(sp.mem), old(sp.pages), sp.mem, sp.pages) && sp.refusals == old(sp.refusals)
  {
    var mbi := VirtualQueryEx(sp, tmp4k);
    var raw := end - tmp4k;
    if raw > mbi.size {
      raw := mbi.size;
    }
    len4k := Up4k(raw);
    PagesCovered(tmp4k, raw, mbi.size, end);
    if mbi.state == Reserved {
      CommitContents(sp.mem, sp.pages, tmp4k / 0x1000, (tmp4k + len4k) / 0x1000);
      var p := VirtualCommit(sp, tmp4k, len4k);
      if p != tmp4k {
        return false, len4k;
      }
    }
    ok := true;
  }

  lemma PagesCovered(tmp: u32, raw: nat, size: nat, end: u32)
    requires tmp % 0x1000 == 0 && 0 < raw <= size && size % 0x1000 == 0 && raw <= end - tmp && end <= USER_END
    ensures var len := Up4k(raw);
            && 0 < len && (tmp + len) / 0x1000 <= tmp / 0x1000 + size / 0x1000 && (tmp + len) / 0x1000 <= PageTop(end)
            && tmp + len < TWO32
  {
    var a, k := tmp / 0x1000, (raw + 0xFFF) / 0x1000;
    assert tmp == 0x1000 * a;
    assert Up4k(raw) == k * 0x1000;
    assert (tmp + k * 0x1000) / 0x1000 == a + k;
    assert (tmp + raw + 0xFFF) / 0x1000 == a + k;
    assert (end + 0xFFF) / 0x1000 >= a + k;
    assert k <= size / 0x1000;
  }

  /** Commitment is in pages; what is not reserved is passed over. */
  method CommitRange(sp: Space, addr: u32, end: u32) returns (ok: bool)
    requires SpaceOk(sp.pages) && (PageDown(addr) < end ==> end <= USER_END)
    modifies sp`pages, sp`mem, sp`refusals
    ensures SpaceOk(sp.pages) && KeepsContents(old(sp.mem), old(sp.pages), sp.mem, sp.pages)
    ensures OnlyGrows(old(sp.pages), sp.pages, addr / 0x1000, PageTop(end))
    ensures ok ==> forall p :: Touches(p, addr, end) ==> CommittedIfTaken(old(sp.pages), sp.pages, p)
    ensures end <= PageDown(addr) || end <= SIZE64K ==>
      ok && Same(old(sp.mem), old(sp.pages), sp.mem, sp.pages) && sp.refusals == old(sp.refusals)
    ensures sp.refusals >= old(sp.refusals) && (!ok ==> sp.refusals > old(sp.refusals))
  {
    var tmp4k := PageDown(addr);
    ghost var lo, hi := addr / 0x1000, PageTop(end);
    ok := true;
    while tmp4k < end
      invariant tmp4k % 0x1000 == 0 && lo <= tmp4k / 0x1000
      invariant tmp4k == PageDown(addr) || tmp4k / 0x1000 <= hi
      invariant ok && PageDown(addr) <= tmp4k
      invariant end <= PageDown(addr) || end <= SIZE64K ==>
        Same(old(sp.mem), old(sp.pages), sp.mem, sp.pages) && sp.refusals == old(sp.refusals)
      invariant sp.refusals >= old(sp.refusals)
      invariant SpaceOk(sp.pages) && KeepsContents(old(sp.mem), old(sp.pages), sp.mem, sp.pages)
      invariant OnlyGrows(old(sp.pages), sp.pages, lo, hi)
      invariant forall p :: lo <= p < tmp4k / 0x1000 ==> CommittedIfTaken(old(sp.pages), sp.pages, p)
      invariant forall p :: tmp4k / 0x1000 <= p < PAGES ==> sp.pages[p] == old(sp.pages)[p]
      decreases end - tmp4k
    {
      ghost var p1, m1 := sp.pages, sp.mem;
      var len4k;
      ok, len4k := CommitStep(sp, tmp4k, end);
      if !ok {
        ContentsOn(old(sp.mem), old(sp.pages), m1, p1, sp.mem, sp.pages, lo, hi);
        return;
      }
      CommittedMore(old(sp.pages), p1, sp.pages, lo, hi, tmp4k / 0x1000, (tmp4k + len4k) / 0x1000);
      ContentsOn(old(sp.mem), old(sp.pages), m1, p1, sp.mem, sp.pages, lo, hi);
      tmp4k := tmp4k + len4k;
    }
  }

  lemma CommittedMore(p0: PageTable, p1: PageTable, p2: PageTable, lo: int, hi: int, t: int, t': int)
    requires 0 <= lo <= t <= t' <= hi && OnlyGrows(p0, p1, lo, hi) && OnlyGrows(p1, p2, t, t')
    requires forall p :: lo <= p < t ==> CommittedIfTaken(p0, p1, p)
    requires forall p :: t <= p < t' ==> CommittedIfTaken(p1, p2, p)
    requires forall p :: t <= p < PAGES ==> p1[p] == p0[p]
    ensures OnlyGrows(p1, p2, lo, hi) && OnlyGrows(p0, p2, lo, hi)
    ensures forall p :: lo <= p < t' ==> CommittedIfTaken(p0, p2, p)
    ensures forall p :: t' <= p < PAGES ==> p2[p] == p0[p]
  {
    Widen(p1, p2, t, t', lo, hi);
    GrowsOn(p0, p1, p2, lo, hi, hi);
    forall p | lo <= p < t'
      ensures CommittedIfTaken(p0, p2, p)
    {
      if p < t {
        assert CommittedIfTaken(p0, p1, p) && p2[p] == p1[p];
      } else {
        assert CommittedIfTaken(p1, p2, p) && p1[p] == p0[p];
      }
    }
  }

  /** Whether the range has all its memory, for an allocation reported as made at `r`. */
  predicate Holds(r: u32, size: u32)
  {
    SIZE64K <= r && r + size < TWO32
  }

  /** AllocateMemAndProtectProcess once there is an address. `end` wraps like the DWORD it is. */
  method AllocateAt(sp: Space, addr: u32, size: u32) returns (r: u32)
    requires SpaceOk(sp.pages)
    modifies sp`pages, sp`mem, sp`refusals
    ensures r == addr || r == FAILED
    ensures SpaceOk(sp.pages) && KeepsContents(old(sp.mem), old(sp.pages), sp.mem, sp.pages)
    ensures OnlyGrows(old(sp.pages), sp.pages, 0, PAGES) && sp.refusals >= old(sp.refusals)
    ensures r == addr != FAILED && Holds(addr, size) ==> RangeCommitted(sp.pages, addr, addr + size)
    ensures Add(addr, size) <= Down64k(addr) ==> r == addr && Same(old(sp.mem), old(sp.pages), sp.mem, sp.pages)
    ensures addr >= SIZE64K ==>
      && OnlyGrows(old(sp.pages), sp.pages, Down64k(addr) / 0x1000, GranuleTop(Add(addr, size)))
      && (r == FAILED != addr ==> sp.refusals > old(sp.refusals) || Add(addr, size) > USER_END)
    ensures addr < SIZE64K && 0 < Add(addr, size) ==>
      LowOutcome(sp.refusals - old(sp.refusals), old(sp.pages), sp.pages, addr, size, r)
  {
    var end := Add(addr, size);
    ghost var lo, hi := Down64k(addr) / 0x1000, GranuleTop(end);
    var ok := ReserveRange(sp, addr, end);
    ghost var p1 := sp.pages;
    SameContents(sp.mem, old(sp.pages), p1);
    RangesNest(addr, end);
    if !ok {
      return FAILED;
    }
    ok := CommitRange(sp, addr, end);
    AllocatedGrows(old(sp.mem), old(sp.pages), p1, sp.mem, sp.pages, addr, end);
    if addr >= SIZE64K {
      Widen(p1, sp.pages, addr / 0x1000, PageTop(end), lo, hi);
      GrowsOn(old(sp.pages), p1, sp.pages, lo, hi, hi);
    }
    if !ok {
      return FAILED;
    }
    return addr;
  }

  lemma AllocatedGrows(m0: Memory, p0: PageTable, p1: PageTable, m2: Memory, p2: PageTable, addr: u32, end: u32)
    requires OnlyGrows(p0, p1, 0, PAGES) && OnlyGrows(p1, p2, addr / 0x1000, PageTop(end))
    requires KeepsContents(m0, p0, m0, p1) && KeepsContents(m0, p1, m2, p2)
    ensures OnlyGrows(p0, p2, 0, PAGES) && KeepsContents(m0, p0, m2, p2)
  {
    forall p | 0 <= p < PAGES
      ensures p2[p] == p0[p] || (p0[p] != Committed && p2[p] != Free)
    {
      assert p1[p] == p0[p] || (p0[p] != Committed && p1[p] != Free);
      assert p2[p] == p1[p] || (p1[p] != Committed && p2[p] != Free);
    }
    Widen(p1, p2, addr / 0x1000, PageTop(end), 0, PAGES);
    ContentsOn(m0, p0, m0, p1, m2, p2, 0, PAGES);
  }

  /** A request below 64k succeeds only if Windows refuses it something, and a failure that is not due to a
      refusal leaves granules reserved somewhere else. */
  ghost predicate LowOutcome(refused: int, p0: PageTable, p1: PageTable, addr: u32, size: u32, r: u32)
  {
    && (r == addr ==> refused > 0)
    && (r == FAILED ==> refused > 0 || ReservedElsewhere(p0, p1))
    && (Add(addr, size) <= SIZE64K && refused > 0 ==> r == addr && p1 == p0)
  }

  /** AllocateMemAndProtectProcess. Without an address Windows picks one, or the code goes on with 0. */
  method AllocateMemAndProtectProcess(sp: Space, addr: u32, size: u32) returns (r: u32)
    requires SpaceOk(sp.pages)
    modifies sp`pages, sp`mem, sp`refusals
    ensures addr != 0 ==> r == addr || r == FAILED
    ensures SpaceOk(sp.pages) && KeepsContents(old(sp.mem), old(sp.pages), sp.mem, sp.pages)
    ensures OnlyGrows(old(sp.pages), sp.pages, 0, PAGES) && sp.refusals >= old(sp.refusals)
    // Exactly which successes have their memory.
    ensures r != FAILED && size > 0 ==> (AllUsable(sp.pages, r, size) <==> Holds(r, size))
    ensures r != FAILED && Holds(r, size) ==> RangeCommitted(sp.pages, r, r + size)
    // A range that wraps below its own granule is reported as allocated though nothing was done.
    ensures 0 < addr && Add(addr, size) <= Down64k(addr) ==>
      r == addr && Same(old(sp.mem), old(sp.pages), sp.mem, sp.pages)
    ensures addr >= SIZE64K ==>
      && OnlyGrows(old(sp.pages), sp.pages, Down64k(addr) / 0x1000, GranuleTop(Add(addr, size)))
      && (r == FAILED != addr ==> sp.refusals > old(sp.refusals) || Add(addr, size) > USER_END)
    ensures 0 < addr < SIZE64K && 0 < Add(addr, size) ==>
      LowOutcome(sp.refusals - old(sp.refusals), old(sp.pages), sp.pages, addr, size, r)
    ensures addr == 0 < size ==>
      if r == 0 || r == FAILED then sp.refusals > old(sp.refusals)
      else SIZE64K <= r && r + size <= USER_END && WereFree(old(sp.pages), r / 0x1000, PageTop(r + size))
  {
    var at := addr;
    if at == 0 {
      at := VirtualReserveAnywhere(sp, size);
    }
    ghost var p1 := sp.pages;
    SameContents(sp.mem, old(sp.pages), p1);
    r := AllocateAt(sp, at, size);
    if addr == 0 {
      AllocatedGrows(old(sp.mem), old(sp.pages), p1, sp.mem, sp.pages, 0, FAILED);
    }
    if size > 0 && r != FAILED {
      UsableExactly(sp.pages, r, size);
    }
  }

  /** A committed range is usable; one that wraps, or starts below 64k, never is: those pages are nobody's. */
  lemma UsableExactly(pages: PageTable, r: u32, size: u32)
    requires SpaceOk(pages) && size > 0 && (Holds(r, size) ==> RangeCommitted(pages, r, r + size))
    ensures AllUsable(pages, r, size) <==> Holds(r, size)
  {
    if r + size >= TWO32 {
      assert Add(r, TWO32 - 1 - r) == TWO32 - 1;
      assert !Usable(pages, TWO32 - 1);
    } else if r < SIZE64K {
      assert Add(r, 0) == r && !Usable(pages, r);
    } else {
      forall i | 0 <= i < size
        ensures Usable(pages, Add(r, i))
      {
        assert Touches((r + i) / 0x1000, r, r + size);
      }
    }
  }

  /** A request for everything from 64k up to the very end of memory: granted, with nothing allocated. */
  method WrappedRequest(sp: Space) returns (r: u32)
    requires SpaceOk(sp.pages)
    modifies sp`pages, sp`mem, sp`refusals
    ensures r == 0x1_0000 && Same(old(sp.mem), old(sp.pages), sp.mem, sp.pages) && !AllUsable(sp.pages, r, 0xFFFF_0000)
  {
    r := AllocateMemAndProtectProcess(sp, 0x1_0000, 0xFFFF_0000);
  }

  /** A request for the second page of memory: granted exactly if Windows refuses, and with nothing allocated. */
  method LowRequest(sp: Space) returns (r: u32)
    requires SpaceOk(sp.pages)
    modifies sp`pages, sp`mem, sp`refusals
    ensures r == 0x1000 <==> sp.refusals > old(sp.refusals)
    ensures if r == 0x1000 then sp.pages == old(sp.pages) && !AllUsable(sp.pages, r, 0x1000)
            else r == FAILED && ReservedElsewhere(old(sp.pages), sp.pages)
  {
    r := AllocateMemAndProtectProcess(sp, 0x1000, 0x1000);
  }

  lemma SameContents(m: Memory, p0: PageTable, p1: PageTable)
    requires SameCommitted(p0, p1)
    ensures KeepsContents(m, p0, m, p1)
  {
  }

  /** The page range of an address range lies in its granule range. */
  lemma RangesNest(addr: u32, end: u32)
    ensures Down64k(addr) <= PageDown(addr) && Down64k(addr) / 0x1000 <= addr / 0x1000
    ensures PageTop(end) <= GranuleTop(end)
  {
    assert (end + 0xFFF) / 0x1000 <= (end + 0xFFFF) / 0x1_0000 * 16 by {
      var g := (end + 0xFFFF) / 0x1_0000;
      assert end <= g * 0x1_0000;
    }
    assert addr / 0x1_0000 == addr / 0x1000 / 16;
  }

  lemma LastTouched(addr: u32, end: u32)
    requires addr / 0x1000 * 0x1000 < end
    requires forall p :: Touches(p, addr, end) ==> p < USER_PAGES
    ensures end <= USER_END
  {
    assert Touches((end - 1) / 0x1000, addr, end);
  }
}
