/** The bytes of one 32-bit address space. Addresses wrap at the top, as DWORD pointers do. */
module ByteMemory {
  import opened Words

  type Memory = m: seq<byte> | |m| == 0x1_0000_0000
    ghost witness seq(0x1_0000_0000, (i: int) => 0 as byte)

  /** The `n` bytes from `a` upwards. */
  function Read(m: Memory, a: u32, n: nat): (s: seq<byte>)
    requires n <= TWO32
    ensures |s| == n
  {
    seq(n, (i: int) requires 0 <= i < n => m[Add(a, i)])
  }

  function Write(m: Memory, a: u32, bs: seq<byte>): Memory
    requires |bs| <= TWO32
  {
    seq(TWO32, (x: int) requires 0 <= x < TWO32 => if Sub(x, a) < |bs| then bs[Sub(x, a)] else m[x])
  }

  function Word(m: Memory, a: u32): u32
  {
    FromLe32(Read(m, a, 4))
  }

  /** The `n` bytes from `a` and the `k` bytes from `b` share no address. */
  predicate Apart(a: u32, n: nat, b: u32, k: nat)
  {
    n == 0 || k == 0 || (n <= Sub(b, a) && k <= Sub(a, b))
  }

  lemma ReadOfWrite(m: Memory, a: u32, bs: seq<byte>, off: nat, n: nat)
    requires off + n <= |bs| <= TWO32 && off < TWO32
    ensures Read(Write(m, a, bs), Add(a, off), n) == bs[off..off + n]
  {
  }

  lemma ReadOutsideWrite(m: Memory, a: u32, bs: seq<byte>, b: u32, n: nat)
    requires |bs| <= TWO32 && n <= TWO32 && Apart(a, |bs|, b, n)
    ensures Read(Write(m, a, bs), b, n) == Read(m, b, n)
  {
    var m' := Write(m, a, bs);
    forall i | 0 <= i < n
      ensures m'[Add(b, i)] == m[Add(b, i)]
    {
      assert |bs| > 0 ==> Sub(Add(b, i), a) >= |bs|;
    }
  }

  lemma ReadPart(m: Memory, a: u32, n: nat, off: nat, k: nat)
    requires off + k <= n <= TWO32 && off < TWO32
    ensures Read(m, Add(a, off), k) == Read(m, a, n)[off..off + k]
  {
  }

  /** Two strings of bytes, one after the other, read separately. */
  lemma ReadConcat(m: Memory, a: u32, x: seq<byte>, y: seq<byte>)
    requires a + |x| + |y| < TWO32 && Read(m, a, |x| + |y|) == x + y
    ensures Read(m, a, |x|) == x && Read(m, a + |x|, |y|) == y
  {
    ReadPart(m, a, |x| + |y|, 0, |x|);
    ReadPart(m, a, |x| + |y|, |x|, |y|);
    assert (x + y)[0..|x|] == x && (x + y)[|x|..|x| + |y|] == y;
  }

  lemma WordIs(m: Memory, a: u32, w: u32)
    requires Read(m, a, 4) == Le32(w)
    ensures Word(m, a) == w
  {
    Le32RoundTrip(w);
  }

  /** Part of what was written, where nothing wraps. */
  lemma ReadBack(m: Memory, a: u32, bs: seq<byte>, off: nat, n: nat)
    requires a + |bs| < TWO32 && off + n <= |bs|
    ensures Read(Write(m, a, bs), a + off, n) == bs[off..off + n]
  {
    ReadOfWrite(m, a, bs, off, n);
  }
}
