/** Copies between two processes, fills, and C strings. */
module BulkMemory {
  import opened Words
  import opened ByteMemory
  import opened AddressSpace
  import opened Transfer

  lemma ApartPart(a: u32, n: nat, b: u32, k: nat, off: nat, m: nat)
    requires Apart(a, n, b, k) && off + m <= n <= TWO32 && k <= TWO32 && off < TWO32
    ensures Apart(Add(a, off), m, b, k) && Apart(b, k, Add(a, off), m)
  {
  }

  lemma ApartPrefix(a: u32, n: nat, b: u32, k: nat, m: nat)
    requires Apart(a, n, b, k) && m <= n
    ensures Apart(a, m, b, k) && Apart(b, k, a, m)
  {
  }

  /** The source has memory, and writing to the target does not overwrite it. */
  ghost predicate Copyable(from: Space, fromAddr: u32, to: Space, toAddr: u32, len: nat)
    requires len <= TWO32
    reads from`pages
  {
    AllUsable(from.pages, fromAddr, len) && (from == to ==> Apart(fromAddr, len, toAddr, len))
  }

  /** Nothing but the `n` bytes from `a`, where they have memory, is different. */
  ghost predicate WritesOnly(m0: Memory, m1: Memory, pages: PageTable, a: u32, n: nat)
  {
    forall x :: 0 <= x < TWO32 && !(Sub(x, a) < n && Usable(pages, x)) ==> m1[x] == m0[x]
  }

  lemma StoreWritesOnly(m0: Memory, m: Memory, pages: PageTable, a: u32, n: nat, off: nat, bs: seq<byte>)
    requires WritesOnly(m0, m, pages, a, n) && off + |bs| <= n < TWO32
    ensures WritesOnly(m0, Store(m, pages, Add(a, off), bs), pages, a, n)
  {
    forall x | 0 <= x < TWO32 && !(Sub(x, a) < n && Usable(pages, x))
      ensures Store(m, pages, Add(a, off), bs)[x] == m0[x]
    {
      assert Sub(x, Add(a, off)) < |bs| ==> Sub(x, a) < n;
    }
  }

  /** Through a 4k buffer, chunk by chunk, yet one copy: between two processes, and inside one as long as
      the ranges do not overlap. In any case nothing outside the target range is touched. Above 0x7FFFF000
      the loop's own int arithmetic would overflow. */
  method TransferMemory(from: Space, fromAddr: u32, to: Space, toAddr: u32, len: int)
    requires -0x8000_0000 <= len <= 0x7FFF_F000
    modifies from`mem, to`mem
    ensures Copyable(from, fromAddr, to, toAddr, Count(len)) ==>
      to.mem == Store(old(to.mem), to.pages, toAddr, Read(old(from.mem), fromAddr, Count(len)))
    ensures WritesOnly(old(to.mem), to.mem, to.pages, toAddr, Count(len))
    ensures from != to ==> from.mem == old(from.mem)
  {
    ghost var n := Count(len);
    ghost var f0, t0, src := from.mem, to.mem, Read(from.mem, fromAddr, n);
    StoreNothing(t0, to.pages, toAddr);
    assert src[..0] == [];
    var i := 0;
    while i < len
      invariant 0 <= i <= n
      invariant Copyable(from, fromAddr, to, toAddr, n) ==> to.mem == Store(t0, to.pages, toAddr, src[..i])
      invariant WritesOnly(t0, to.mem, to.pages, toAddr, n)
      invariant from != to ==> from.mem == f0
    {
      var copy := SIZE4K;
      if i + copy > len {
        copy := len - i;
      }
      CopyChunk(from, fromAddr, to, toAddr, len, i, copy, f0, t0);
      i := i + copy;
    }
    assert src[..n] == src;
  }

  /** One chunk. The buffer starts with whatever happens to be in it. */
  method CopyChunk(from: Space, fromAddr: u32, to: Space, toAddr: u32, len: nat, i: nat, copy: nat, ghost f0: Memory,
                   ghost t0: Memory)
    requires i + copy <= len < 0x8000_0000 && (if from == to then f0 == t0 else from.mem == f0)
    requires Copyable(from, fromAddr, to, toAddr, len) ==>
      to.mem == Store(t0, to.pages, toAddr, Read(f0, fromAddr, len)[..i])
    requires WritesOnly(t0, to.mem, to.pages, toAddr, len)
    modifies from`mem, to`mem
    ensures Copyable(from, fromAddr, to, toAddr, len) ==>
      to.mem == Store(t0, to.pages, toAddr, Read(f0, fromAddr, len)[..i + copy])
    ensures WritesOnly(t0, to.mem, to.pages, toAddr, len)
    ensures from != to ==> from.mem == f0
  {
    ghost var src := Read(f0, fromAddr, len);
    var where: u32 := *;
    assert |Repeat(0, copy)| == copy;
    var junk: seq<byte> :| |junk| == copy;
    var buf := new Buffer(where, junk);
    if Copyable(from, fromAddr, to, toAddr, len) {
      SourceUnchanged(f0, from.mem, t0, to.pages, fromAddr, toAddr, len, i, copy, from == to);
      AddAddUsable(from.pages, fromAddr, len, i, copy);
      LoadIsRead(from.mem, from.pages, Add(fromAddr, i), buf.data);
      StoreAppend(t0, to.pages, toAddr, src[..i], src[i..i + copy]);
      assert src[..i] + src[i..i + copy] == src[..i + copy];
    }
    ReadMemory(buf, from, Add(fromAddr, i));
    StoreWritesOnly(t0, to.mem, to.pages, toAddr, len, i, buf.data);
    WriteMemory(to, Add(toAddr, i), buf.data);
  }

  lemma AddAddUsable(pages: PageTable, a: u32, n: nat, off: nat, k: nat)
    requires off + k <= n < TWO32 && AllUsable(pages, a, n)
    ensures AllUsable(pages, Add(a, off), k)
  {
    forall i | 0 <= i < k
      ensures Usable(pages, Add(Add(a, off), i))
    {
      AddAdd(a, off, i);
      assert Usable(pages, Add(a, off + i));
    }
  }

  /** The part still to be copied has not been written over. */
  lemma SourceUnchanged(f0: Memory, f: Memory, t0: Memory, pages: PageTable, fromAddr: u32, toAddr: u32, len: nat,
                        i: nat, n: nat, same: bool)
    requires i + n <= len < TWO32
    requires !same ==> f == f0
    requires same ==> t0 == f0 && Apart(fromAddr, len, toAddr, len)
                      && f == Store(t0, pages, toAddr, Read(f0, fromAddr, len)[..i])
    ensures Read(f, Add(fromAddr, i), n) == Read(f0, fromAddr, len)[i..i + n]
  {
    ReadPart(f0, fromAddr, len, i, n);
    if same {
      ApartPart(fromAddr, len, toAddr, len, i, n);
      ApartPrefix(toAddr, len, Add(fromAddr, i), n, i);
      ReadOutsideStore(t0, pages, toAddr, Read(f0, fromAddr, len)[..i], Add(fromAddr, i), n);
    }
  }

  function Repeat(fill: byte, n: nat): (s: seq<byte>)
    ensures |s| == n
  {
    seq(n, (i: int) => fill)
  }

  /** In blocks of 1024 bytes; a negative length fills nothing. */
  method FillMem(to: Space, toAddr: u32, len: int, fill: byte)
    requires -0x8000_0000 <= len < 0x8000_0000
    modifies to`mem
    ensures to.mem == Store(old(to.mem), to.pages, toAddr, Repeat(fill, Count(len)))
    ensures forall x :: 0 <= x < TWO32 ==>
      to.mem[x] == if len > 0 && Sub(x, toAddr) < len && Usable(to.pages, x) then fill else old(to.mem)[x]
  {
    ghost var m0, n := to.mem, Count(len);
    StoreNothing(m0, to.pages, toAddr);
    assert Repeat(fill, 0) == [];
    var left, addr := len, toAddr;
    while left > 0
      invariant left <= 0 == n || (0 <= left <= n && addr == Add(toAddr, n - left))
      invariant to.mem == Store(m0, to.pages, toAddr, Repeat(fill, n - Count(left)))
    {
      var block := if left > 1024 then 1024 else left;
      StoreAppend(m0, to.pages, toAddr, Repeat(fill, n - left), Repeat(fill, block));
      assert Repeat(fill, n - left) + Repeat(fill, block) == Repeat(fill, n - left + block);
      WriteMemory(to, addr, Repeat(fill, block));
      AddAdd(toAddr, n - left, block);
      left, addr := left - block, Add(addr, block);
    }
  }

  /** A NUL-terminated string `s` lies readable at `a`. */
  ghost predicate StringAt(m: Memory, pages: PageTable, a: u32, s: seq<byte>)
  {
    && |s| < TWO32 && AllUsable(pages, a, |s| + 1)
    && Read(m, a, |s| + 1) == s + [0]
    && forall i :: 0 <= i < |s| ==> s[i] != 0
  }

  /** The bytes of a block, as far as the string `s` goes on from its first `|str|` bytes. */
  method TakeUntilNul(data: seq<byte>, str: seq<byte>, ghost s: seq<byte>) returns (str': seq<byte>, done: bool)
    requires |str| <= |s| && str == s[..|str|] && forall k :: 0 <= k < |s| ==> s[k] != 0
    requires forall i :: 0 <= i < |data| && |str| + i <= |s| ==> data[i] == (s + [0])[|str| + i]
    ensures done <==> |str| + |data| > |s|
    ensures str' == if done then s else s[..|str| + |data|]
  {
    str', done := str, false;
    var i := 0;
    while i < |data|
      invariant 0 <= i <= |data| && |str'| == |str| + i <= |s| && str' == s[..|str'|]
    {
      if data[i] == 0 {
        return str', true;
      }
      str' := str' + [data[i]];
      i := i + 1;
    }
  }

  /** Page by page, up to the first NUL; `touched` lists the pages read. */
  method ReadString(from: Space, fromAddr: u32, ghost s: seq<byte>) returns (str: seq<byte>, touched: set<int>)
    requires StringAt(from.mem, from.pages, fromAddr, s)
    modifies from`mem
    ensures str == s && from.mem == old(from.mem)
    ensures forall p :: p in touched ==> exists i :: 0 <= i <= |s| && p == Add(fromAddr, i) / 0x1000
  {
    str, touched := [], {};
    var addr, done := fromAddr, false;
    var where: u32 := *;
    while !done
      invariant if done then str == s else |str| <= |s| && str == s[..|str|] && addr == Add(fromAddr, |str|)
      invariant from.mem == old(from.mem)
      invariant forall p :: p in touched ==> exists i :: 0 <= i <= |s| && p == Add(fromAddr, i) / 0x1000
      decreases !done, |s| - |str|
    {
      var len := ToNext4k(addr);
      ghost var start := |str|;
      var buf := new Buffer(where, Repeat(0, len));
      assert Usable(from.pages, addr);
      PieceLoad(from.mem, from.pages, addr, buf.data);
      ReadMemory(buf, from, addr);
      touched := touched + {addr / 0x1000};
      BlockOfString(from.mem, fromAddr, s, start, len);
      str, done := TakeUntilNul(buf.data, str, s);
      if !done {
        AddAdd(fromAddr, start, len);
        addr := Add(addr, len);
      }
    }
  }

  lemma BlockOfString(m: Memory, a: u32, s: seq<byte>, k: nat, len: nat)
    requires |s| < TWO32 && Read(m, a, |s| + 1) == s + [0] && k <= |s| && len <= TWO32
    ensures forall i :: 0 <= i < len && k + i <= |s| ==> Read(m, Add(a, k), len)[i] == (s + [0])[k + i]
  {
    forall i | 0 <= i < len && k + i <= |s|
      ensures Read(m, Add(a, k), len)[i] == (s + [0])[k + i]
    {
      BufferByte(m, a, s, k, i, len);
    }
  }

  /** Byte `i` of the block read at offset `k` of the string. */
  lemma BufferByte(m: Memory, a: u32, s: seq<byte>, k: nat, i: nat, len: nat)
    requires |s| < TWO32 && Read(m, a, |s| + 1) == s + [0]
    requires k + i <= |s| && i < len <= TWO32
    ensures Read(m, Add(a, k), len)[i] == (s + [0])[k + i]
  {
    AddAdd(a, k, i);
    assert Read(m, a, |s| + 1)[k + i] == m[Add(a, k + i)];
  }
}
