/** A process's address space as Windows keeps it: bytes, and a state for each 4k page. */
module AddressSpace {
  import opened Words
  import opened ByteMemory

  const SIZE4K := 0x1000
  const SIZE64K := 0x1_0000
  const PAGES := 0x10_0000

  datatype PageState = Free | Reserved | Committed

  type PageTable = p: seq<PageState> | |p| == 0x10_0000
    ghost witness seq(0x10_0000, (i: int) => Free)

  /** `a & 0xFFFFF000`. */
  function PageDown(a: u32): u32 { a - a % 0x1000 }

  predicate Usable(pages: PageTable, a: u32)
  {
    pages[a / 0x1000] == Committed
  }

  ghost predicate AllUsable(pages: PageTable, a: u32, n: nat)
    requires n <= TWO32
  {
    forall i :: 0 <= i < n ==> Usable(pages, Add(a, i))
  }

  /** Writing `bs` at `a`: bytes that fall on a page without memory are lost. */
  function Store(m: Memory, pages: PageTable, a: u32, bs: seq<byte>): Memory
    requires |bs| <= TWO32
  {
    seq(TWO32, (x: int) requires 0 <= x < TWO32 => if Sub(x, a) < |bs| && Usable(pages, x) then bs[Sub(x, a)] else m[x])
  }

  /** Reading from `a` over a buffer: bytes from a page without memory leave the buffer as it was. */
  function Load(m: Memory, pages: PageTable, a: u32, buf: seq<byte>): (s: seq<byte>)
    requires |buf| <= TWO32
    ensures |s| == |buf|
  {
    seq(|buf|, (i: int) requires 0 <= i < |buf| => if Usable(pages, Add(a, i)) then m[Add(a, i)] else buf[i])
  }

  lemma StoreAppend(m: Memory, pages: PageTable, a: u32, b1: seq<byte>, b2: seq<byte>)
    requires |b1| + |b2| <= TWO32 && |b1| < TWO32
    ensures Store(Store(m, pages, a, b1), pages, Add(a, |b1|), b2) == Store(m, pages, a, b1 + b2)
  {
    var l, r := Store(Store(m, pages, a, b1), pages, Add(a, |b1|), b2), Store(m, pages, a, b1 + b2);
    forall x | 0 <= x < TWO32
      ensures l[x] == r[x]
    {
      var k := Sub(x, a);
      assert Sub(x, Add(a, |b1|)) == if k >= |b1| then k - |b1| else k - |b1| + TWO32;
    }
  }

  lemma StoreNothing(m: Memory, pages: PageTable, a: u32)
    ensures Store(m, pages, a, []) == m
  {
  }

  lemma StoreIsWrite(m: Memory, pages: PageTable, a: u32, bs: seq<byte>)
    requires |bs| <= TWO32 && AllUsable(pages, a, |bs|)
    ensures Store(m, pages, a, bs) == Write(m, a, bs)
  {
    forall x | 0 <= x < TWO32
      ensures Store(m, pages, a, bs)[x] == Write(m, a, bs)[x]
    {
      assert x == Add(a, Sub(x, a));
    }
  }

  lemma LoadIsRead(m: Memory, pages: PageTable, a: u32, buf: seq<byte>)
    requires |buf| <= TWO32 && AllUsable(pages, a, |buf|)
    ensures Load(m, pages, a, buf) == Read(m, a, |buf|)
  {
  }

  lemma ReadOutsideStore(m: Memory, pages: PageTable, a: u32, bs: seq<byte>, b: u32, n: nat)
    requires |bs| <= TWO32 && n <= TWO32 && Apart(a, |bs|, b, n)
    ensures Read(Store(m, pages, a, bs), b, n) == Read(m, b, n)
  {
    var m' := Store(m, pages, a, bs);
    forall i | 0 <= i < n
      ensures m'[Add(b, i)] == m[Add(b, i)]
    {
      assert |bs| > 0 ==> Sub(Add(b, i), a) >= |bs|;
    }
  }

  /** Bytes with memory outside `a..a+n` keep it and their values. */
  ghost predicate KeepsOutside(m0: Memory, p0: PageTable, m1: Memory, p1: PageTable, a: int, n: int)
  {
    forall x {:trigger m1[x]} {:trigger Usable(p1, x)} ::
      0 <= x < TWO32 && !(a <= x < a + n) && Usable(p0, x) ==> Usable(p1, x) && m1[x] == m0[x]
  }

  /** All bytes with memory keep it and their values. */
  ghost predicate Keeps(m0: Memory, p0: PageTable, m1: Memory, p1: PageTable)
  {
    KeepsOutside(m0, p0, m1, p1, 0, 0)
  }

  class Space {
    var mem: Memory
    var pages: PageTable
    ghost var refusals: nat   // requests that Windows turned down for want of memory or room

    constructor (mem: Memory, pages: PageTable)
      ensures this.mem == mem && this.pages == pages
    {
      this.mem, this.pages, this.refusals := mem, pages, 0;
    }
  }
}
