/** Unsigned 32-bit words and bytes: the DWORD and BYTE arithmetic of the kernel,
    with its wrap-around written out, and the little-endian layout of a DWORD. */
module Words {

  const TWO32 := 0x1_0000_0000

  type u32 = x: int | 0 <= x < 0x1_0000_0000
  type byte = x: int | 0 <= x < 256

  /** DWORD addition. */
  function Add(a: u32, n: u32): u32
  {
    if a + n < TWO32 then a + n else a + n - TWO32
  }

  /** DWORD subtraction; also the distance from `b` up to `a`, going round the top of memory. */
  function Sub(a: u32, b: u32): u32
  {
    if a >= b then a - b else a - b + TWO32
  }

  /** A DWORD passed where the callee takes an int. */
  function AsInt(x: u32): int { if x < 0x8000_0000 then x else x - TWO32 }

  /** The turns that a loop from 0 up to an int makes. */
  function Count(len: int): nat { if len > 0 then len else 0 }

  /** The four bytes of a DWORD in memory order. */
  function Le32(x: u32): (s: seq<byte>)
    ensures |s| == 4
  {
    [x % 0x100, x / 0x100 % 0x100, x / 0x1_0000 % 0x100, x / 0x100_0000]
  }

  function FromLe32(s: seq<byte>): (x: u32)
    requires |s| == 4
  {
    var b0: int, b1: int, b2: int, b3: int := s[0], s[1], s[2], s[3];
    b0 + 0x100 * b1 + 0x1_0000 * b2 + 0x100_0000 * b3
  }

  lemma Le32RoundTrip(x: u32)
    ensures FromLe32(Le32(x)) == x
  {
    var h1, h2 := x / 0x100, x / 0x1_0000;
    assert x == 0x100 * h1 + x % 0x100;
    assert h2 == h1 / 0x100;
    assert h1 == 0x100 * h2 + h1 % 0x100;
    assert x / 0x100_0000 == h2 / 0x100;
    assert h2 == 0x100 * (h2 / 0x100) + h2 % 0x100;
  }

  /** A run of DWORDs as bytes, and back. */
  function EncodeWords(ws: seq<u32>): (bs: seq<byte>)
    ensures |bs| == 4 * |ws|
  {
    if ws == [] then [] else Le32(ws[0]) + EncodeWords(ws[1..])
  }

  function DecodeWords(bs: seq<byte>): (ws: seq<u32>)
    requires |bs| % 4 == 0
    ensures |ws| == |bs| / 4
  {
    if bs == [] then [] else [FromLe32(bs[..4])] + DecodeWords(bs[4..])
  }

  lemma {:induction false} EncodeAt(ws: seq<u32>, i: nat)
    requires i < |ws|
    ensures EncodeWords(ws)[4 * i..4 * i + 4] == Le32(ws[i])
  {
    if i > 0 {
      EncodeAt(ws[1..], i - 1);
      assert EncodeWords(ws)[4 * i..4 * i + 4] == EncodeWords(ws[1..])[4 * (i - 1)..4 * (i - 1) + 4];
    }
  }

  lemma {:induction false} WordsRoundTrip(ws: seq<u32>)
    ensures DecodeWords(EncodeWords(ws)) == ws
  {
    if ws != [] {
      var bs := EncodeWords(ws);
      assert bs[..4] == Le32(ws[0]) && bs[4..] == EncodeWords(ws[1..]);
      Le32RoundTrip(ws[0]);
      WordsRoundTrip(ws[1..]);
    }
  }

  /** Bit `k` of a word, by halving. */
  predicate Bit(w: nat, k: nat)
  {
    if k == 0 then w % 2 == 1 else Bit(w / 2, k - 1)
  }

  /** It is the bit that counts 2^k: the last bit of how often 2^k goes into `w`. */
  lemma {:induction false} BitIs(w: nat, k: nat) returns (q: nat, lo: nat)
    ensures lo < Pow2(k) && w == Pow2(k) * q + lo && (Bit(w, k) <==> q % 2 == 1)
  {
    if k == 0 {
      q, lo := w, 0;
    } else {
      q, lo := BitIs(w / 2, k - 1);
      Twice(Pow2(k - 1), q);
      lo := 2 * lo + w % 2;
    }
  }

  lemma Twice(p: nat, q: nat)
    ensures (2 * p) * q == 2 * (p * q)
  {
  }

  /** `w | (1 << k)`. */
  function SetBit(w: nat, k: nat): nat
  {
    if k == 0 then w - w % 2 + 1 else 2 * SetBit(w / 2, k - 1) + w % 2
  }

  lemma {:induction false} SetBitSetsOneBit(w: nat, k: nat, j: nat)
    ensures Bit(SetBit(w, k), j) <==> j == k || Bit(w, j)
  {
    if k > 0 && j > 0 {
      SetBitSetsOneBit(w / 2, k - 1, j - 1);
    }
  }

  lemma {:induction false} SetBitFits(w: nat, k: nat, n: nat)
    requires k < n && w < Pow2(n)
    ensures SetBit(w, k) < Pow2(n)
  {
    assert Pow2(n) == 2 * Pow2(n - 1);
    if k > 0 {
      assert w / 2 < Pow2(n - 1);
      SetBitFits(w / 2, k - 1, n - 1);
    }
  }

  function Pow2(n: nat): (p: nat)
    ensures p >= 1
  {
    if n == 0 then 1 else 2 * Pow2(n - 1)
  }

  lemma {:induction false} Pow2Adds(a: nat, b: nat)
    ensures Pow2(a + b) == Pow2(a) * Pow2(b)
  {
    if a > 0 {
      Pow2Adds(a - 1, b);
    }
  }

  lemma {:induction false} Pow2Grows(a: nat, b: nat)
    requires a <= b
    ensures Pow2(a) <= Pow2(b)
  {
    if a < b {
      Pow2Grows(a, b - 1);
    }
  }

  lemma Pow2Of32()
    ensures Pow2(32) == TWO32
  {
    assert Pow2(4) == 16;
    Pow2Adds(4, 4);
    Pow2Adds(8, 8);
    Pow2Adds(16, 16);
  }

  /** Bitwise and. */
  function And(x: nat, y: nat): (r: nat)
    ensures r <= x
  {
    if x == 0 then 0 else 2 * And(x / 2, y / 2) + (if x % 2 == 1 && y % 2 == 1 then 1 else 0)
  }

  /** It is the bitwise and. */
  lemma {:induction false} AndBits(x: nat, y: nat, k: nat)
    ensures Bit(And(x, y), k) <==> Bit(x, k) && Bit(y, k)
    decreases k
  {
    if x == 0 {
      NoBits(k);
    } else if k > 0 {
      AndBits(x / 2, y / 2, k - 1);
    }
  }

  lemma {:induction false} NoBits(k: nat)
    ensures !Bit(0, k)
  {
    if k > 0 {
      NoBits(k - 1);
    }
  }

  /** Divisible by `2^k`. */
  predicate Multiple(x: nat, k: nat)
  {
    k == 0 || (x % 2 == 0 && Multiple(x / 2, k - 1))
  }

  lemma {:induction false} MultipleIs(x: nat, k: nat) returns (q: nat)
    requires Multiple(x, k)
    ensures x == Pow2(k) * q
  {
    if k == 0 {
      q := x;
    } else {
      q := MultipleIs(x / 2, k - 1);
      Twice(Pow2(k - 1), q);
    }
  }

  /** Masking with `~(2^k - 1)` gives a multiple of `2^k`. */
  lemma {:induction false} MaskIsMultiple(x: nat, y: nat, k: nat)
    requires Multiple(y, k)
    ensures Multiple(And(x, y), k)
    decreases k
  {
    if k > 0 {
      if x == 0 {
        NothingIsMultiple(k);
      } else {
        MaskIsMultiple(x / 2, y / 2, k - 1);
      }
    }
  }

  lemma {:induction false} NothingIsMultiple(k: nat)
    ensures Multiple(0, k)
  {
    if k > 0 {
      NothingIsMultiple(k - 1);
    }
  }

  lemma {:induction false} MaskItself(k: nat, n: nat)
    requires k <= n && Pow2(k) <= Pow2(n)
    ensures Multiple(Pow2(n) - Pow2(k), k)
    decreases k
  {
    if k > 0 {
      MaskItself(k - 1, n - 1);
      HalfOfDifference(Pow2(n), Pow2(k), Pow2(n - 1), Pow2(k - 1));
    }
  }

  lemma HalfOfDifference(x: nat, y: nat, a: nat, b: nat)
    requires x == 2 * a && y == 2 * b && y <= x
    ensures (x - y) % 2 == 0 && (x - y) / 2 == a - b
  {
  }

  /** Masking with `~(2^k - 1)` in `n`-bit words rounds down by less than `2^k`. */
  lemma {:induction false} MaskRoundsDown(x: nat, k: nat, n: nat)
    requires k <= n && x < Pow2(n) && Pow2(k) <= Pow2(n)
    ensures x < And(x, Pow2(n) - Pow2(k)) + Pow2(k)
  {
    if x != 0 {
      var y := Pow2(n) - Pow2(k);
      assert n > 0 && Pow2(n) == 2 * Pow2(n - 1);
      if k == 0 {
        assert y % 2 == 1 && y / 2 == Pow2(n - 1) - 1;
        MaskRoundsDown(x / 2, 0, n - 1);
      } else {
        assert Pow2(k) == 2 * Pow2(k - 1);
        assert y / 2 == Pow2(n - 1) - Pow2(k - 1);
        MaskRoundsDown(x / 2, k - 1, n - 1);
      }
    }
  }
}
