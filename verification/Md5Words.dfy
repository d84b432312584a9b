/**
 * Words of 32 bits or more, as `md5.c` allows them: 64-bit vectors that wrap at their width, of which only the low
 * 32 bits reach the digest.
 */
module Md5Words {
  import opened Md5Spec

  type Wide = bv64

  /** `width` one-bits, for a word that is that wide. */
  function Mask(width: nat): Wide
    requires 32 <= width <= 64
  {
    if width == 32 then 0xffff_ffff else (Mask(width - 1) << 1) | 1
  }

  /** The value fits a word of that width. */
  ghost predicate Within(v: Wide, mask: Wide) { v & mask == v }

  lemma MaskedWithin(v: Wide, mask: Wide)
    ensures Within(v & mask, mask)
  {
  }

  /** In a 32-bit word there is nothing but the low 32 bits. */
  lemma NarrowWord(v: Wide, w: Wide)
    requires Within(v, 0xffff_ffff) && Within(w, 0xffff_ffff) && Low(v) == Low(w)
    ensures v == w
  {
  }

  /** The word is at least 32 bits wide. */
  ghost predicate Full(mask: Wide) { mask & 0xffff_ffff == 0xffff_ffff }

  lemma OneBitMore(mask: Wide)
    requires mask & 0xffff_ffff == 0xffff_ffff
    ensures ((mask << 1) | 1) & 0xffff_ffff == 0xffff_ffff
  {
  }

  lemma {:induction false} MaskFull(width: nat)
    requires 32 <= width <= 64
    ensures Full(Mask(width))
  {
    if width == 32 {
    } else {
      MaskFull(width - 1);
      OneBitMore(Mask(width - 1));
    }
  }

  /** 2^width, at which the counters wrap. */
  function Range(width: nat): (m: nat)
    requires 32 <= width
    ensures 0 < m
  {
    if width == 32 then 0x1_0000_0000 else 2 * Range(width - 1)
  }

  /** Every width is a multiple of the 32-bit range. */
  lemma {:induction false} RangeMultiple(width: nat) returns (k: nat)
    requires 32 <= width
    ensures 0 < k && Range(width) == 0x1_0000_0000 * k
  {
    if width == 32 {
      k := 1;
    } else {
      k := RangeMultiple(width - 1);
      k := 2 * k;
    }
  }

  // ---------- the low 32 bits ----------

  function Low(w: Wide): Word { (w & 0xffff_ffff) as Word }

  function LowState(a: Wide, b: Wide, c: Wide, d: Wide): State {
    State(Low(a), Low(b), Low(c), Low(d))
  }

  function Widened(v: Word): Wide { v as Wide }

  lemma LowWidened(v: Word)
    ensures Low(Widened(v)) == v
  {
  }

  lemma MaskedBits(v: Wide, mask: Wide)
    requires mask & 0xffff_ffff == 0xffff_ffff
    ensures (v & mask) & 0xffff_ffff == v & 0xffff_ffff
  {
  }

  lemma LowMasked(v: Wide, mask: Wide)
    requires Full(mask)
    ensures Low(v & mask) == Low(v)
  {
    MaskedBits(v, mask);
  }

  lemma LowQuickF(x: Wide, y: Wide, z: Wide)
    ensures Low(z ^ (x & (y ^ z))) == F(Low(x), Low(y), Low(z))
  {
  }

  lemma LowQuickG(x: Wide, y: Wide, z: Wide)
    ensures Low(y ^ (z & (x ^ y))) == G(Low(x), Low(y), Low(z))
  {
  }

  lemma LowH(x: Wide, y: Wide, z: Wide)
    ensures Low(x ^ y ^ z) == H(Low(x), Low(y), Low(z))
  {
  }

  lemma LowI(x: Wide, y: Wide, z: Wide)
    ensures Low(y ^ (x | !z)) == I(Low(x), Low(y), Low(z))
  {
  }

  lemma SumBits(a: Wide, f: Wide, x: Wide, t: Wide)
    ensures Low(a + (f + x + t)) == Sum((a & 0xffff_ffff) as Word, (f & 0xffff_ffff) as Word,
                                        (x & 0xffff_ffff) as Word, (t & 0xffff_ffff) as Word)
  {
  }

  lemma LowSum(a: Wide, f: Wide, x: Wide, t: Wide)
    ensures Low(a + (f + x + t)) == Sum(Low(a), Low(f), Low(x), Low(t))
  {
    SumBits(a, f, x, t);
  }

  lemma RotlBits(v: Wide, s: bv6)
    requires 0 < s < 32
    ensures Low((v << s) | ((v & 0xffff_ffff) >> (32 - s))) == Rotl((v & 0xffff_ffff) as Word, s)
  {
  }

  /** The mask in the macro keeps the bits above 32 out of the rotation. */
  lemma LowRotl(v: Wide, s: bv6)
    requires 0 < s < 32
    ensures Low((v << s) | ((v & 0xffff_ffff) >> (32 - s))) == Rotl(Low(v), s)
  {
    RotlBits(v, s);
  }

  lemma PlusBits(x: Wide, y: Wide)
    ensures Low(x + y) == Plus((x & 0xffff_ffff) as Word, (y & 0xffff_ffff) as Word)
  {
  }

  lemma LowPlus(x: Wide, y: Wide)
    ensures Low(x + y) == Plus(Low(x), Low(y))
  {
    PlusBits(x, y);
  }

  // ---------- bytes in and out ----------

  function WideWordAt(data: seq<Byte>, i: nat): Wide
    requires i + 4 <= |data|
  {
    (data[i] as Wide) | ((data[i + 1] as Wide) << 8) | ((data[i + 2] as Wide) << 16) | ((data[i + 3] as Wide) << 24)
  }

  lemma FourBytesWide(a: Byte, b: Byte, c: Byte, d: Byte)
    ensures Low((a as Wide) | ((b as Wide) << 8) | ((c as Wide) << 16) | ((d as Wide) << 24))
         == (a as Word) | ((b as Word) << 8) | ((c as Word) << 16) | ((d as Word) << 24)
  {
  }

  lemma LowWordAt(data: seq<Byte>, i: nat)
    requires i + 4 <= |data|
    ensures Low(WideWordAt(data, i)) == WordAt(data, i)
  {
    FourBytesWide(data[i], data[i + 1], data[i + 2], data[i + 3]);
  }

  function WideBytes(w: Wide): seq<Byte> {
    [(w & 0xff) as Byte, ((w >> 8) & 0xff) as Byte, ((w >> 16) & 0xff) as Byte, ((w >> 24) & 0xff) as Byte]
  }

  lemma LowBytes(w: Wide)
    ensures WideBytes(w) == WordBytes(Low(w))
  {
  }
}
