/** argv-like lists of C strings, and copying one from a process to another. */
module StringLists {
  import opened Words
  import opened ByteMemory
  import opened AddressSpace
  import opened Transfer
  import opened BulkMemory
  import opened Allocator

  /** Strings of a list: no NUL inside. */
  ghost predicate Clean(strs: seq<seq<byte>>)
  {
    && |strs| < 0x1000_0000
    && forall i :: 0 <= i < |strs| ==> |strs[i]| < 0x7FFF_FFFF && forall k :: 0 <= k < |strs[i]| ==> strs[i][k] != 0
  }

  /** A null-terminated array of pointers to the strings lies readable at `p`; no list at all counts
      as an empty one. */
  ghost predicate ListAt(m: Memory, pages: PageTable, p: u32, strs: seq<seq<byte>>)
  {
    && Clean(strs)
    && if p == 0 then strs == []
       else
         && AllUsable(pages, p, 4 * (|strs| + 1))
         && Word(m, Add(p, 4 * |strs|)) == 0
         && forall i :: 0 <= i < |strs| ==> EntryAt(m, pages, p, i, strs[i])
  }

  ghost predicate EntryAt(m: Memory, pages: PageTable, p: u32, i: nat, s: seq<byte>)
    requires i < 0x1000_0000
  {
    Word(m, Add(p, 4 * i)) != 0 && StringAt(m, pages, Word(m, Add(p, 4 * i)), s)
  }

  // ---- The packed form the kernel writes ---------------------------------------------------

  /** All strings one after the other, each with its NUL. */
  function Data(strs: seq<seq<byte>>): seq<byte>
  {
    if strs == [] then [] else Data(strs[..|strs| - 1]) + strs[|strs| - 1] + [0]
  }

  /** Where string `i` goes when the strings start at `d` and all fit. */
  function PointerTo(d: u32, strs: seq<seq<byte>>, i: nat): u32
    requires i <= |strs|
  {
    if d + |Data(strs[..i])| < TWO32 then d + |Data(strs[..i])| else 0
  }

  function Pointers(d: u32, strs: seq<seq<byte>>): (ws: seq<u32>)
    ensures |ws| == |strs|
  {
    seq(|strs|, (i: int) requires 0 <= i < |strs| => PointerTo(d, strs, i))
  }

  function ArrayBytes(n: nat): nat { 4 * (n + 1) }

  function TotalBytes(strs: seq<seq<byte>>): nat { ArrayBytes(|strs|) + |Data(strs)| }

  /** The pointer array and its terminator, then the strings. */
  function ListBytes(p: u32, strs: seq<seq<byte>>): (bs: seq<byte>)
    requires p + TotalBytes(strs) < TWO32
    ensures |bs| == TotalBytes(strs)
  {
    EncodeWords(Pointers(p + ArrayBytes(|strs|), strs) + [0]) + Data(strs)
  }

  ghost predicate Packed(m: Memory, pages: PageTable, p: u32, strs: seq<seq<byte>>)
  {
    && 0 < p && p + TotalBytes(strs) < TWO32
    && AllUsable(pages, p, TotalBytes(strs))
    && Read(m, p, TotalBytes(strs)) == ListBytes(p, strs)
  }

  lemma {:induction false} EncodeAppend(ws: seq<u32>, w: u32)
    ensures EncodeWords(ws + [w]) == EncodeWords(ws) + Le32(w)
  {
    if ws != [] {
      EncodeAppend(ws[1..], w);
      assert (ws + [w])[1..] == ws[1..] + [w];
    }
  }

  /** String `i` and its NUL, found in the data at the sum of the earlier lengths. */
  lemma {:induction false} DataAt(strs: seq<seq<byte>>, i: nat)
    requires i < |strs|
    ensures var off := |Data(strs[..i])|;
            && off + |strs[i]| + 1 <= |Data(strs)|
            && Data(strs)[off..off + |strs[i]| + 1] == strs[i] + [0]
  {
    var n := |strs| - 1;
    if i < n {
      DataAt(strs[..n], i);
      assert strs[..n][..i] == strs[..i];
      var off := |Data(strs[..i])|;
      assert Data(strs)[off..off + |strs[i]| + 1] == Data(strs[..n])[off..off + |strs[i]| + 1];
    }
  }

  lemma DataNext(strs: seq<seq<byte>>, k: nat)
    requires k < |strs|
    ensures Data(strs[..k + 1]) == Data(strs[..k]) + (strs[k] + [0])
  {
    assert strs[..k + 1][..k] == strs[..k];
  }

  lemma {:induction false} DataPrefix(strs: seq<seq<byte>>, k: nat)
    requires k <= |strs|
    ensures |Data(strs[..k])| <= |Data(strs)|
    decreases |strs| - k
  {
    if k < |strs| {
      DataNext(strs, k);
      DataPrefix(strs, k + 1);
    } else {
      assert strs[..k] == strs;
    }
  }

  lemma PackedWord(m: Memory, p: u32, strs: seq<seq<byte>>, i: nat)
    requires p + TotalBytes(strs) < TWO32 && Read(m, p, TotalBytes(strs)) == ListBytes(p, strs) && i <= |strs|
    ensures Word(m, p + 4 * i) == (Pointers(p + ArrayBytes(|strs|), strs) + [0])[i]
  {
    var ws := Pointers(p + ArrayBytes(|strs|), strs) + [0];
    EncodeAt(ws, i);
    ReadPart(m, p, TotalBytes(strs), 4 * i, 4);
    assert ListBytes(p, strs)[4 * i..4 * i + 4] == EncodeWords(ws)[4 * i..4 * i + 4];
    Le32RoundTrip(ws[i]);
  }

  lemma SliceBehind(a: seq<byte>, b: seq<byte>, off: nat, n: nat)
    requires off + n <= |b|
    ensures (a + b)[|a| + off..|a| + off + n] == b[off..off + n]
  {
  }

  lemma PackedString(m: Memory, pages: PageTable, p: u32, strs: seq<seq<byte>>, i: nat)
    requires Clean(strs) && Packed(m, pages, p, strs) && i < |strs|
    ensures PointerTo(p + ArrayBytes(|strs|), strs, i) != 0
    ensures StringAt(m, pages, PointerTo(p + ArrayBytes(|strs|), strs, i), strs[i])
  {
    var d, off, n := p + ArrayBytes(|strs|), |Data(strs[..i])|, |strs[i]| + 1;
    DataAt(strs, i);
    assert PointerTo(d, strs, i) == d + off;
    var at := ArrayBytes(|strs|) + off;
    assert Add(p, at) == d + off;
    ReadPart(m, p, TotalBytes(strs), at, n);
    SliceBehind(EncodeWords(Pointers(d, strs) + [0]), Data(strs), off, n);
    AddAddUsable(pages, p, TotalBytes(strs), at, n);
  }

  /** A packed list is a list. */
  lemma PackedIsList(m: Memory, pages: PageTable, p: u32, strs: seq<seq<byte>>)
    requires Clean(strs) && Packed(m, pages, p, strs)
    ensures ListAt(m, pages, p, strs)
  {
    forall i | 0 <= i < |strs|
      ensures EntryAt(m, pages, p, i, strs[i])
    {
      PackedWord(m, p, strs, i);
      PackedString(m, pages, p, strs, i);
    }
    PackedWord(m, p, strs, |strs|);
  }

  // ---- Copying -----------------------------------------------------------------------------

  /** No byte of the range had memory. */
  ghost predicate Fresh(pages: PageTable, a: u32, n: nat)
  {
    a + n < TWO32 && forall x :: a <= x < a + n ==> !Usable(pages, x)
  }

  lemma FreshIsApart(pages: PageTable, a: u32, n: nat, b: u32, k: nat)
    requires Fresh(pages, a, n) && k <= TWO32 && AllUsable(pages, b, k)
    ensures Apart(a, n, b, k) && Apart(b, k, a, n)
  {
    if n > 0 && k > 0 {
      assert Usable(pages, Add(b, 0));
      assert Sub(a, b) < k ==> Usable(pages, Add(b, Sub(a, b)));
    }
  }

  lemma AllocatedIsFresh(pages: PageTable, pages': PageTable, p: u32, size: nat)
    requires 0 < size && p + size <= USER_END && RangeCommitted(pages', p, p + size)
    requires WereFree(pages, p / 0x1000, PageTop(p + size))
    ensures Fresh(pages, p, size) && AllUsable(pages', p, size)
  {
    forall x | p <= x < p + size
      ensures p / 0x1000 <= x / 0x1000 < PageTop(p + size) && Usable(pages', x)
    {
      assert Touches(x / 0x1000, p, p + size);
    }
  }

  lemma Committing(m: Memory, pages: PageTable, m': Memory, pages': PageTable)
    requires KeepsContents(m, pages, m', pages') && OnlyGrows(pages, pages', 0, PAGES)
    ensures Keeps(m, pages, m', pages')
  {
    forall x | 0 <= x < TWO32 && Usable(pages, x)
      ensures Usable(pages', x) && m'[x] == m[x]
    {
      assert pages'[x / 0x1000] == pages[x / 0x1000];
    }
  }

  /** What the caller of the second pass knows about string `i` of the source. */
  ghost predicate SourceOk(m: Memory, pages: PageTable, addrs: seq<u32>, strs: seq<seq<byte>>)
  {
    && |addrs| == |strs|
    && forall i :: 0 <= i < |strs| ==> StringAt(m, pages, addrs[i], strs[i])
  }

  method ReadPointer(from: Space, p: u32) returns (w: u32)
    requires AllUsable(from.pages, p, 4)
    modifies from`mem
    ensures w == Word(from.mem, p) && from.mem == old(from.mem)
  {
    var where: u32 := *;
    var buf := new Buffer(where, Repeat(0, 4));
    LoadIsRead(from.mem, from.pages, p, buf.data);
    ReadMemory(buf, from, p);
    w := FromLe32(buf.data);
  }

  /** The pointers of the list, terminator included, and the sizes of its strings. */
  ghost function ListPointers(m: Memory, list: u32, n: nat): (ws: seq<u32>)
    requires n < 0x1000_0000
    ensures |ws| == n + 1
  {
    seq(n + 1, (i: int) requires 0 <= i <= n => Word(m, Add(list, 4 * i)))
  }

  ghost function Sizes(strs: seq<seq<byte>>): (ns: seq<nat>)
    ensures |ns| == |strs|
  {
    seq(|strs|, (i: int) requires 0 <= i < |strs| => |strs[i]| + 1)
  }

  /** Entry `k` of the list: its pointer, and its size with the NUL if it is not the terminator. */
  method ScanEntry(from: Space, list: u32, k: nat, ghost strs: seq<seq<byte>>, ghost ws: seq<u32>, ghost ns: seq<nat>)
    returns (pStr: u32, size: nat)
    requires ListAt(from.mem, from.pages, list, strs) && list != 0 && k <= |strs|
    requires ws == ListPointers(from.mem, list, |strs|) && ns == Sizes(strs)
    modifies from`mem
    ensures from.mem == old(from.mem)
    ensures pStr == ws[k] && (pStr == 0 <==> k == |strs|)
    ensures k < |strs| ==> size == ns[k]
  {
    AddAddUsable(from.pages, list, 4 * (|strs| + 1), 4 * k, 4);
    pStr := ReadPointer(from, Add(list, 4 * k));
    size := 0;
    assert k < |strs| ==> EntryAt(from.mem, from.pages, list, k, strs[k]);
    if pStr != 0 {
      var s, _ := ReadString(from, pStr, strs[k]);
      size := |s| + 1;
    }
  }

  lemma TakeNext<T>(s: seq<T>, k: nat)
    requires k < |s|
    ensures s[..k] + [s[k]] == s[..k + 1]
  {
  }

  /** First pass: find the strings and add up their sizes. */
  method ScanList(from: Space, pFromList: u32, ghost strs: seq<seq<byte>>)
    returns (addrs: seq<u32>, sizes: seq<nat>, datasize: nat)
    requires ListAt(from.mem, from.pages, pFromList, strs)
    modifies from`mem
    ensures from.mem == old(from.mem)
    ensures addrs == ListPointers(from.mem, pFromList, |strs|)[..|strs|] && sizes == Sizes(strs)
    ensures datasize == |Data(strs)|
  {
    addrs, sizes, datasize := [], [], 0;
    if pFromList == 0 {
      return;
    }
    ghost var m, ws, ns := from.mem, ListPointers(from.mem, pFromList, |strs|), Sizes(strs);
    var pStr, size := ScanEntry(from, pFromList, 0, strs, ws, ns);
    var k := 0;
    while pStr != 0
      invariant 0 <= k <= |strs| && from.mem == m
      invariant pStr == ws[k] && (pStr == 0 <==> k == |strs|) && (k < |strs| ==> size == ns[k])
      invariant addrs == ws[..k] && sizes == ns[..k] && datasize == |Data(strs[..k])|
      decreases |strs| - k
    {
      DataNext(strs, k);
      TakeNext(ws, k);
      TakeNext(ns, k);
      addrs, sizes, datasize := addrs + [pStr], sizes + [size], datasize + size;
      k := k + 1;
      pStr, size := ScanEntry(from, pFromList, k, strs, ws, ns);
    }
    assert strs[..k] == strs && ns[..k] == ns;
  }

  lemma ScannedIsSource(m: Memory, pages: PageTable, list: u32, addrs: seq<u32>, strs: seq<seq<byte>>)
    requires ListAt(m, pages, list, strs) && addrs == ListPointers(m, list, |strs|)[..|strs|]
    ensures SourceOk(m, pages, addrs, strs)
  {
    forall i | 0 <= i < |strs|
      ensures StringAt(m, pages, addrs[i], strs[i])
    {
      assert EntryAt(m, pages, list, i, strs[i]);
    }
  }

  lemma StoreCommute(m: Memory, pages: PageTable, a: u32, b1: seq<byte>, b: u32, b2: seq<byte>)
    requires |b1| <= TWO32 && |b2| <= TWO32 && Apart(a, |b1|, b, |b2|)
    ensures Store(Store(m, pages, a, b1), pages, b, b2) == Store(Store(m, pages, b, b2), pages, a, b1)
  {
    var l, r := Store(Store(m, pages, a, b1), pages, b, b2), Store(Store(m, pages, b, b2), pages, a, b1);
    forall x | 0 <= x < TWO32
      ensures l[x] == r[x]
    {
      assert !(Sub(x, a) < |b1| && Sub(x, b) < |b2|);
    }
  }

  /** Some pointers written from `a` and some strings written from `d`. */
  function Half(m: Memory, pages: PageTable, a: u32, ws: seq<u32>, d: u32, data: seq<byte>): Memory
    requires 4 * |ws| <= TWO32 && |data| <= TWO32
  {
    Store(Store(m, pages, a, EncodeWords(ws)), pages, d, data)
  }

  lemma HalfPointer(m: Memory, pages: PageTable, a: u32, ws: seq<u32>, w: u32, d: u32, data: seq<byte>)
    requires a + 4 * (|ws| + 1) <= d && d + |data| < TWO32
    ensures Store(Half(m, pages, a, ws, d, data), pages, Add(a, 4 * |ws|), Le32(w))
         == Half(m, pages, a, ws + [w], d, data)
  {
    StoreCommute(Store(m, pages, a, EncodeWords(ws)), pages, d, data, Add(a, 4 * |ws|), Le32(w));
    StoreAppend(m, pages, a, EncodeWords(ws), Le32(w));
    EncodeAppend(ws, w);
  }

  lemma HalfOutside(m: Memory, pages: PageTable, a: u32, ws: seq<u32>, d: u32, data: seq<byte>, total: nat, b: u32,
                    n: nat)
    requires a + 4 * |ws| <= d && d + |data| <= a + total < TWO32 && n <= TWO32 && Apart(a, total, b, n)
    ensures Read(Half(m, pages, a, ws, d, data), b, n) == Read(m, b, n)
  {
    ApartPrefix(a, total, b, n, 4 * |ws|);
    ApartPart(a, total, b, n, d - a, |data|);
    assert Add(a, d - a) == d;
    ReadOutsideStore(m, pages, a, EncodeWords(ws), b, n);
    ReadOutsideStore(Store(m, pages, a, EncodeWords(ws)), pages, d, data, b, n);
  }

  /** The string is still there when only bytes apart from it were written. */
  lemma StringSurvives(m: Memory, pages: PageTable, m': Memory, a: u32, ws: seq<u32>, d: u32, data: seq<byte>,
                       total: nat, b: u32, s: seq<byte>)
    requires StringAt(m, pages, b, s) && a + 4 * |ws| <= d && d + |data| <= a + total < TWO32
    requires Apart(a, total, b, |s| + 1) && m' == Half(m, pages, a, ws, d, data)
    ensures StringAt(m', pages, b, s)
  {
    HalfOutside(m, pages, a, ws, d, data, total, b, |s| + 1);
  }

  /** The destination once `k` pointers and `k` strings are in place. */
  ghost function Written(m: Memory, pages: PageTable, p: u32, strs: seq<seq<byte>>, ptrs: nat, k: nat): Memory
    requires p + TotalBytes(strs) < TWO32 && ptrs <= |strs| && k <= |strs|
  {
    var d := p + ArrayBytes(|strs|);
    DataPrefix(strs, k);
    Half(m, pages, p, Pointers(d, strs)[..ptrs], d, Data(strs[..k]))
  }

  lemma PointerFits(p: u32, strs: seq<seq<byte>>, k: nat)
    requires p + TotalBytes(strs) < TWO32 && k < |strs|
    ensures var d := p + ArrayBytes(|strs|);
            |Data(strs[..k])| + |strs[k]| + 1 <= |Data(strs)| && PointerTo(d, strs, k) == d + |Data(strs[..k])|
  {
    DataAt(strs, k);
  }

  lemma NextPointer(p: u32, strs: seq<seq<byte>>, k: nat)
    requires p + TotalBytes(strs) < TWO32 && k < |strs|
    ensures |strs[k]| + 1 < TWO32
    ensures var d := p + ArrayBytes(|strs|); Add(PointerTo(d, strs, k), |strs[k]| + 1) == PointerTo(d, strs, k + 1)
    ensures Add(Add(p, 4 * k), 4) == Add(p, 4 * (k + 1))
  {
    DataNext(strs, k);
    DataPrefix(strs, k + 1);
  }

  lemma WrittenStart(m: Memory, pages: PageTable, p: u32, strs: seq<seq<byte>>)
    requires p + TotalBytes(strs) < TWO32
    ensures Written(m, pages, p, strs, 0, 0) == m
    ensures PointerTo(p + ArrayBytes(|strs|), strs, 0) == p + ArrayBytes(|strs|)
  {
    StoreNothing(m, pages, p);
    StoreNothing(m, pages, p + ArrayBytes(|strs|));
  }

  lemma WrittenPointer(m: Memory, pages: PageTable, p: u32, strs: seq<seq<byte>>, k: nat)
    requires p + TotalBytes(strs) < TWO32 && k < |strs|
    ensures var d := p + ArrayBytes(|strs|);
            Store(Written(m, pages, p, strs, k, k), pages, Add(p, 4 * k), Le32(PointerTo(d, strs, k)))
            == Written(m, pages, p, strs, k + 1, k)
  {
    var d := p + ArrayBytes(|strs|);
    var ws, data := Pointers(d, strs), Data(strs[..k]);
    PointerFits(p, strs, k);
    TakeNext(ws, k);
    assert |ws[..k]| == k && ws[k] == PointerTo(d, strs, k);
    HalfPointer(m, pages, p, ws[..k], ws[k], d, data);
  }

  lemma WrittenString(m: Memory, pages: PageTable, p: u32, strs: seq<seq<byte>>, k: nat)
    requires p + TotalBytes(strs) < TWO32 && k < |strs|
    ensures |strs[k]| < TWO32
    ensures var d := p + ArrayBytes(|strs|);
            Store(Written(m, pages, p, strs, k + 1, k), pages, PointerTo(d, strs, k), strs[k] + [0])
            == Written(m, pages, p, strs, k + 1, k + 1)
  {
    var d := p + ArrayBytes(|strs|);
    DataAt(strs, k);
    DataNext(strs, k);
    StoreAppend(Store(m, pages, p, EncodeWords(Pointers(d, strs)[..k + 1])), pages, d, Data(strs[..k]), strs[k] + [0]);
  }

  /** Writing the terminator completes the packed list. */
  lemma WrittenEnd(m: Memory, pages: PageTable, p: u32, strs: seq<seq<byte>>)
    requires p + TotalBytes(strs) < TWO32
    ensures var n := |strs|;
            Store(Written(m, pages, p, strs, n, n), pages, Add(p, 4 * n), Le32(0))
            == Store(m, pages, p, ListBytes(p, strs))
  {
    var n, d := |strs|, p + ArrayBytes(|strs|);
    var ws := Pointers(d, strs);
    assert ws[..n] == ws && strs[..n] == strs;
    HalfPointer(m, pages, p, ws, 0, d, Data(strs));
    StoreAppend(m, pages, p, EncodeWords(ws + [0]), Data(strs));
  }

  /** A source string that the copy can read: in another process, or apart from the destination. */
  ghost predicate Readable(ms: Memory, pages: PageTable, addr: u32, s: seq<byte>, same: bool, p: u32, total: nat)
  {
    StringAt(ms, pages, addr, s) && (same ==> Apart(p, total, addr, |s| + 1))
  }

  lemma SourceSurvives(ms: Memory, pages: PageTable, p: u32, strs: seq<seq<byte>>, k: nat, addr: u32)
    requires p + TotalBytes(strs) < TWO32 && k < |strs|
    requires Readable(ms, pages, addr, strs[k], true, p, TotalBytes(strs))
    ensures StringAt(Written(ms, pages, p, strs, k + 1, k), pages, addr, strs[k])
    ensures var d := p + ArrayBytes(|strs|); Apart(addr, |strs[k]| + 1, PointerTo(d, strs, k), |strs[k]| + 1)
  {
    var d, total, n := p + ArrayBytes(|strs|), TotalBytes(strs), |strs[k]| + 1;
    DataAt(strs, k);
    var m', ws := Written(ms, pages, p, strs, k + 1, k), Pointers(d, strs)[..k + 1];
    StringSurvives(ms, pages, m', p, ws, d, Data(strs[..k]), total, addr, strs[k]);
    var off := ArrayBytes(|strs|) + |Data(strs[..k])|;
    ApartPart(p, total, addr, n, off, n);
    assert Add(p, off) == PointerTo(d, strs, k);
  }

  /** One turn of the second pass: the pointer, then the string. */
  method WriteEntry(from: Space, to: Space, pTo: u32, k: nat, addr: u32, size: nat,
                    ghost strs: seq<seq<byte>>, ghost ms: Memory, ghost m1: Memory, pToData: u32)
    requires Clean(strs) && pTo + TotalBytes(strs) <= USER_END && k < |strs| && size == |strs[k]| + 1
    requires to.mem == Written(m1, to.pages, pTo, strs, k, k)
    requires pToData == PointerTo(pTo + ArrayBytes(|strs|), strs, k)
    requires Readable(ms, from.pages, addr, strs[k], from == to, pTo, TotalBytes(strs))
    requires if from == to then ms == m1 else from.mem == ms
    modifies from`mem, to`mem
    ensures to.mem == Written(m1, to.pages, pTo, strs, k + 1, k + 1) && (from != to ==> from.mem == ms)
  {
    PointerFits(pTo, strs, k);
    WrittenPointer(m1, to.pages, pTo, strs, k);
    WrittenString(m1, to.pages, pTo, strs, k);
    if from == to {
      SourceSurvives(ms, from.pages, pTo, strs, k, addr);
    }
    WriteMemory(to, Add(pTo, 4 * k), Le32(pToData));
    assert StringAt(from.mem, from.pages, addr, strs[k]);
    TransferMemory(from, addr, to, pToData, size);
  }

  /** Second pass: lay the list out at `pTo`. */
  method WriteList(from: Space, to: Space, pTo: u32, addrs: seq<u32>, sizes: seq<nat>, ghost strs: seq<seq<byte>>)
    requires Clean(strs) && pTo + TotalBytes(strs) <= USER_END && |addrs| == |strs| && sizes == Sizes(strs)
    requires forall i :: 0 <= i < |strs| ==>
      Readable(from.mem, from.pages, addrs[i], strs[i], from == to, pTo, TotalBytes(strs))
    modifies from`mem, to`mem
    ensures to.mem == Store(old(to.mem), to.pages, pTo, ListBytes(pTo, strs))
    ensures (from != to ==> from.mem == old(from.mem))
  {
    ghost var ms, m1 := from.mem, to.mem;
    var k, pToArray, pToData := 0, pTo, pTo + 4 * (|addrs| + 1);
    WrittenStart(m1, to.pages, pTo, strs);
    while k < |addrs|
      invariant 0 <= k <= |strs| && pToArray == Add(pTo, 4 * k)
      invariant pToData == PointerTo(pTo + ArrayBytes(|strs|), strs, k)
      invariant to.mem == Written(m1, to.pages, pTo, strs, k, k)
      invariant from != to ==> from.mem == ms
    {
      WriteEntry(from, to, pTo, k, addrs[k], sizes[k], strs, ms, m1, pToData);
      NextPointer(pTo, strs, k);
      pToArray, pToData := Add(pToArray, 4), Add(pToData, sizes[k]);
      k := k + 1;
    }
    WrittenEnd(m1, to.pages, pTo, strs);
    WriteMemory(to, pToArray, Le32(0));
  }

  /** CopyStringListBetweenProcesses. If Windows has room, the list is rebuilt in pages that were
      free before, and nothing that was committed changes; the two processes may be the same one. */
  method CopyStringListBetweenProcesses(from: Space, pFromList: u32, to: Space, ghost strs: seq<seq<byte>>)
    returns (ok: bool, pTo: u32, count: nat)
    requires ListAt(from.mem, from.pages, pFromList, strs) && TotalBytes(strs) < 0x8000_0000 && SpaceOk(to.pages)
    modifies from`mem, to`mem, to`pages, to`refusals
    ensures SpaceOk(to.pages) && to.refusals >= old(to.refusals) && (!ok ==> to.refusals > old(to.refusals))
    ensures from != to ==> from.mem == old(from.mem)
    ensures Keeps(old(to.mem), old(to.pages), to.mem, to.pages)
    ensures ok ==> && count == |strs| && Packed(to.mem, to.pages, pTo, strs)
                   && Fresh(old(to.pages), pTo, TotalBytes(strs))
  {
    ghost var ms, ps, m0, p0 := from.mem, from.pages, to.mem, to.pages;
    var addrs, sizes, datasize := ScanList(from, pFromList, strs);
    count := |addrs|;
    ScannedIsSource(ms, ps, pFromList, addrs, strs);
    var total := datasize + 4 * (count + 1);
    pTo := AllocateMemAndProtectProcess(to, 0, total);
    ok := pTo != 0 && pTo != FAILED;
    Committing(m0, p0, to.mem, to.pages);
    if !ok {
      return;
    }
    AllocatedIsFresh(p0, to.pages, pTo, total);
    ghost var m1 := to.mem;
    if from == to {
      SourcesSurvive(m0, p0, m1, to.pages, addrs, strs, pTo, total);
    }
    WriteList(from, to, pTo, addrs, sizes, strs);
    LaidOut(m0, p0, m1, to.pages, pTo, strs);
  }

  /** An allocation in the source's own process leaves its strings readable. */
  lemma SourcesSurvive(m0: Memory, p0: PageTable, m1: Memory, p1: PageTable, addrs: seq<u32>, strs: seq<seq<byte>>,
                       p: u32, total: nat)
    requires SourceOk(m0, p0, addrs, strs) && Keeps(m0, p0, m1, p1) && Fresh(p0, p, total)
    ensures forall i :: 0 <= i < |strs| ==> Readable(m1, p1, addrs[i], strs[i], true, p, total)
  {
    forall i | 0 <= i < |strs|
      ensures Readable(m1, p1, addrs[i], strs[i], true, p, total)
    {
      FreshIsApart(p0, p, total, addrs[i], |strs[i]| + 1);
      StringKept(m0, p0, m1, p1, addrs[i], strs[i]);
    }
  }

  /** The list's bytes, stored in new pages, are the packed list. */
  lemma LaidOut(m0: Memory, p0: PageTable, m1: Memory, pages: PageTable, p: u32, strs: seq<seq<byte>>)
    requires 0 < p && Fresh(p0, p, TotalBytes(strs)) && AllUsable(pages, p, TotalBytes(strs))
    requires Keeps(m0, p0, m1, pages)
    ensures var m2 := Store(m1, pages, p, ListBytes(p, strs)); Packed(m2, pages, p, strs) && Keeps(m0, p0, m2, pages)
  {
    var bs := ListBytes(p, strs);
    StoreIsWrite(m1, pages, p, bs);
    ReadOfWrite(m1, p, bs, 0, |bs|);
    assert Add(p, 0) == p;
    FreshStoreKeeps(m0, p0, m1, pages, p, bs);
  }

  lemma StringKept(m0: Memory, p0: PageTable, m1: Memory, p1: PageTable, a: u32, s: seq<byte>)
    requires StringAt(m0, p0, a, s) && Keeps(m0, p0, m1, p1)
    ensures StringAt(m1, p1, a, s)
  {
    ReadKept(m0, p0, m1, p1, a, |s| + 1);
  }

  lemma ReadKept(m0: Memory, p0: PageTable, m1: Memory, p1: PageTable, a: u32, n: nat)
    requires n <= TWO32 && AllUsable(p0, a, n) && Keeps(m0, p0, m1, p1)
    ensures AllUsable(p1, a, n) && Read(m1, a, n) == Read(m0, a, n)
  {
    forall i | 0 <= i < n
      ensures Usable(p1, Add(a, i)) && m1[Add(a, i)] == m0[Add(a, i)]
    {
      assert Usable(p0, Add(a, i));
    }
  }

  lemma FreshStoreKeeps(m0: Memory, p0: PageTable, m1: Memory, p1: PageTable, a: u32, bs: seq<byte>)
    requires Fresh(p0, a, |bs|) && Keeps(m0, p0, m1, p1)
    ensures Keeps(m0, p0, Store(m1, p1, a, bs), p1)
  {
    forall x | 0 <= x < TWO32 && Usable(p0, x)
      ensures Usable(p1, x) && Store(m1, p1, a, bs)[x] == m0[x]
    {
      assert Sub(x, a) >= |bs|;
    }
  }

  lemma PackedKept(m0: Memory, p0: PageTable, m1: Memory, p1: PageTable, p: u32, strs: seq<seq<byte>>)
    requires Packed(m0, p0, p, strs) && Keeps(m0, p0, m1, p1)
    ensures Packed(m1, p1, p, strs)
  {
    ReadKept(m0, p0, m1, p1, p, TotalBytes(strs));
  }
}
