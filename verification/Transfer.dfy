/** Moving bytes between the kernel and the processes it manages. */
module Transfer {
  import opened Words
  import opened ByteMemory
  import opened AddressSpace

  /** A buffer of the kernel's own, at a known address. */
  class Buffer {
    const addr: u32
    var data: seq<byte>

    constructor (addr: u32, data: seq<byte>)
      ensures this.addr == addr && this.data == data
    {
      this.addr, this.data := addr, data;
    }
  }

  datatype Direction = Reading | Writing

  predicate WithinPage(a: u32, n: nat)
  {
    a % 0x1000 + n <= SIZE4K
  }

  lemma PageIsUniform(pages: PageTable, a: u32, n: nat)
    requires WithinPage(a, n)
    ensures forall i :: 0 <= i < n ==> Usable(pages, Add(a, i)) == Usable(pages, a)
  {
  }

  lemma PieceStore(m: Memory, pages: PageTable, a: u32, bs: seq<byte>)
    requires WithinPage(a, |bs|)
    ensures Store(m, pages, a, bs) == if Usable(pages, a) then Write(m, a, bs) else m
  {
    PageIsUniform(pages, a, |bs|);
    forall x | 0 <= x < TWO32
      ensures Store(m, pages, a, bs)[x] == (if Usable(pages, a) then Write(m, a, bs) else m)[x]
    {
      assert x == Add(a, Sub(x, a));
    }
  }

  lemma PieceLoad(m: Memory, pages: PageTable, a: u32, buf: seq<byte>)
    requires WithinPage(a, |buf|)
    ensures Load(m, pages, a, buf) == if Usable(pages, a) then Read(m, a, |buf|) else buf
  {
    PageIsUniform(pages, a, |buf|);
  }

  /** Windows' ReadProcessMemory and WriteProcessMemory. They fail, moving nothing, when the pages
      are not there and also when a range crosses a 4k boundary at either end. */
  method MovePiece(remote: Space, pRemote: u32, local: Buffer, off: nat, n: nat, rw: Direction) returns (done: nat)
    requires off + n <= |local.data| < TWO32
    modifies remote`mem, local`data
    ensures WithinPage(pRemote, n) && WithinPage(Add(local.addr, off), n) ==>
              (if rw == Writing
               then remote.mem == Store(old(remote.mem), remote.pages, pRemote, old(local.data)[off..off + n])
               else local.data == old(local.data)[..off]
                                  + Load(remote.mem, remote.pages, pRemote, old(local.data)[off..off + n])
                                  + old(local.data)[off + n..])
    ensures if rw == Writing then local.data == old(local.data) else remote.mem == old(remote.mem)
    ensures done <= n
    ensures !(WithinPage(pRemote, n) && WithinPage(Add(local.addr, off), n)) ==>
              done == 0 && remote.mem == old(remote.mem) && local.data == old(local.data)
    ensures WithinPage(pRemote, n) && WithinPage(Add(local.addr, off), n) && Usable(remote.pages, pRemote) ==> done == n
  {
    done := 0;
    if WithinPage(pRemote, n) {
      PieceStore(remote.mem, remote.pages, pRemote, local.data[off..off + n]);
      PieceLoad(remote.mem, remote.pages, pRemote, local.data[off..off + n]);
      assert local.data[..off] + local.data[off..off + n] + local.data[off + n..] == local.data;
      if WithinPage(Add(local.addr, off), n) && Usable(remote.pages, pRemote) {
        done := n;
        if rw == Writing {
          remote.mem := Write(remote.mem, pRemote, local.data[off..off + n]);
        } else {
          local.data := local.data[..off] + Read(remote.mem, pRemote, n) + local.data[off + n..];
        }
      }
    }
  }

  /** What has happened once the first `k` bytes have been dealt with. */
  ghost predicate Moved(m0: Memory, m: Memory, pages: PageTable, pRemote: u32, d0: seq<byte>, d: seq<byte>, k: nat,
                        rw: Direction)
    requires k <= |d0| < TWO32
  {
    if rw == Writing then m == Store(m0, pages, pRemote, d0[..k]) && d == d0
    else m == m0 && d == Load(m0, pages, pRemote, d0[..k]) + d0[k..]
  }

  lemma MovedMore(m0: Memory, m: Memory, m': Memory, pages: PageTable, pRemote: u32,
                  d0: seq<byte>, d: seq<byte>, d': seq<byte>, k: nat, n: nat, rw: Direction)
    requires k + n <= |d0| < TWO32 && Moved(m0, m, pages, pRemote, d0, d, k, rw)
    requires if rw == Writing then m' == Store(m, pages, Add(pRemote, k), d[k..k + n]) && d' == d
             else m' == m && d' == d[..k] + Load(m, pages, Add(pRemote, k), d[k..k + n]) + d[k + n..]
    ensures Moved(m0, m', pages, pRemote, d0, d', k + n, rw)
  {
    if rw == Writing {
      StoreAppend(m0, pages, pRemote, d0[..k], d0[k..k + n]);
      assert d0[..k] + d0[k..k + n] == d0[..k + n];
    } else {
      assert d[..k] == Load(m0, pages, pRemote, d0[..k]) && d[k..k + n] == d0[k..k + n] && d[k + n..] == d0[k + n..];
      assert Load(m0, pages, pRemote, d0[..k]) + Load(m0, pages, Add(pRemote, k), d0[k..k + n])
          == Load(m0, pages, pRemote, d0[..k + n]);
    }
  }

  /** Moves the next `n` bytes, which lie in one page at both ends. */
  method MoveNext(remote: Space, base: u32, local: Buffer, off: nat, n: nat, rw: Direction, ghost m0: Memory,
                  ghost d0: seq<byte>)
    returns (xfer: nat)
    requires off + n <= |d0| == |local.data| < TWO32
    requires WithinPage(Add(base, off), n) && WithinPage(Add(local.addr, off), n)
    requires Moved(m0, remote.mem, remote.pages, base, d0, local.data, off, rw)
    modifies remote`mem, local`data
    ensures |local.data| == |d0| && Moved(m0, remote.mem, remote.pages, base, d0, local.data, off + n, rw)
    ensures n > 0 && AllUsable(remote.pages, base, |d0|) ==> xfer == n
  {
    ghost var m, d := remote.mem, local.data;
    xfer := MovePiece(remote, Add(base, off), local, off, n, rw);
    MovedMore(m0, m, remote.mem, remote.pages, base, d0, d, local.data, off, n, rw);
  }

  /** The distance to the next 4k boundary, computed in DWORDs; right even in the topmost page. */
  function ToNext4k(p: u32): (n: u32)
    ensures n == SIZE4K - p % 0x1000
  {
    Sub(Add(PageDown(p), SIZE4K), p)
  }

  lemma AddAdd(a: u32, n: nat, k: nat)
    requires n + k < TWO32
    ensures Add(Add(a, n), k) == Add(a, n + k)
  {
  }

  lemma RestOfPage(a: u32, k: nat, n: nat)
    requires WithinPage(a, k + n) && n > 0
    ensures WithinPage(Add(a, k), n)
  {
  }

  lemma NextPage(a: u32)
    ensures Add(a, ToNext4k(a)) % 0x1000 == 0
  {
    assert a + ToNext4k(a) == 0x1000 * (a / 0x1000 + 1);
  }

  /** One turn of the copy loop: `n` bytes inside one local page, in one or two remote pieces. */
  method MoveLocalPiece(remote: Space, base: u32, local: Buffer, off: nat, n: nat, rw: Direction, ghost m0: Memory,
                        ghost d0: seq<byte>)
    returns (copied: nat)
    requires 0 < n && off + n <= |d0| == |local.data| < TWO32
    requires WithinPage(Add(local.addr, off), n)
    requires Moved(m0, remote.mem, remote.pages, base, d0, local.data, off, rw)
    modifies remote`mem, local`data
    ensures |local.data| == |d0| && Moved(m0, remote.mem, remote.pages, base, d0, local.data, off + n, rw)
    ensures AllUsable(remote.pages, base, |d0|) ==> copied == n
  {
    var first := ToNext4k(Add(base, off));
    if first > n {
      first := n;
    }
    copied := MoveNext(remote, base, local, off, first, rw, m0, d0);
    var second := n - first;
    if second != 0 {
      AddAdd(base, off, first);
      AddAdd(local.addr, off, first);
      NextPage(Add(base, off));
      RestOfPage(Add(local.addr, off), first, second);
      var xfer := MoveNext(remote, base, local, off + first, second, rw, m0, d0);
      copied := copied + xfer;
    }
  }

  /** The chunked copy is one copy of the whole range: every piece lies in a single page at both
      ends (or Windows would move nothing), the pieces tile both ranges, and the loop ends. */
  method ProcessReadWriteMemory(remote: Space, pRemoteAddr: u32, local: Buffer, rw: Direction) returns (copied: nat)
    requires |local.data| < TWO32
    modifies remote`mem, local`data
    ensures if rw == Writing
            then && remote.mem == Store(old(remote.mem), remote.pages, pRemoteAddr, old(local.data))
                 && local.data == old(local.data)
            else && local.data == Load(old(remote.mem), remote.pages, pRemoteAddr, old(local.data))
                 && remote.mem == old(remote.mem)
    ensures AllUsable(remote.pages, pRemoteAddr, |old(local.data)|) ==> copied == |old(local.data)|
  {
    ghost var m0, d0 := remote.mem, local.data;
    var len := |local.data|;
    var amountLeft := len;
    copied := 0;
    StoreNothing(m0, remote.pages, pRemoteAddr);
    while amountLeft != 0
      invariant 0 <= amountLeft <= len == |d0| == |local.data|
      invariant Moved(m0, remote.mem, remote.pages, pRemoteAddr, d0, local.data, len - amountLeft, rw)
      invariant AllUsable(remote.pages, pRemoteAddr, len) ==> copied == len - amountLeft
    {
      var off := len - amountLeft;
      var localToCopy := ToNext4k(Add(local.addr, off));
      if localToCopy > amountLeft {
        localToCopy := amountLeft;
      }
      var xfer := MoveLocalPiece(remote, pRemoteAddr, local, off, localToCopy, rw, m0, d0);
      copied := copied + xfer;
      amountLeft := amountLeft - localToCopy;
    }
    assert d0[..len] == d0 && d0[len..] == [];
  }

  method WriteMemory(to: Space, toAddr: u32, bs: seq<byte>)
    requires |bs| < TWO32
    modifies to`mem
    ensures to.mem == Store(old(to.mem), to.pages, toAddr, bs)
  {
    var where: u32 := *;
    var local := new Buffer(where, bs);
    var _ := ProcessReadWriteMemory(to, toAddr, local, Writing);
  }

  method ReadMemory(buf: Buffer, from: Space, fromAddr: u32)
    requires |buf.data| < TWO32
    modifies buf`data, from`mem
    ensures buf.data == Load(from.mem, from.pages, fromAddr, old(buf.data)) && from.mem == old(from.mem)
  {
    var _ := ProcessReadWriteMemory(from, fromAddr, buf, Reading);
  }
}
