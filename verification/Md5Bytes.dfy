/** Words and padding read byte by byte, in plain numbers. */
module Md5Bytes {
  import Numbers
  import opened Md5Spec
  import opened Md5Words

  // ---------- words ----------

  function Num(w: Word): nat { w as nat }

  function ByteNum(b: Byte): (n: nat)
    ensures n < 0x100
  {
    b as nat
  }

  /** `w` stands for `n`; the conversion stays closed until a proof mentions `Num`. */
  ghost predicate Stands(w: Word, n: nat) {
    forall v: Word {:trigger Num(v)} :: v == w ==> Num(v) == n
  }

  function Push(r: Word, b: Byte): Word { (r << 8) | (b as Word) }

  lemma FirstByte(b: Byte)
    ensures Stands(Push(0, b), ByteNum(b)) && Push(0, b) <= 0xff
  {
  }

  lemma NextByte(r: Word, b: Byte, n: nat)
    requires r <= 0xff_ffff && Stands(r, n)
    ensures Stands(Push(r, b), 0x100 * n + ByteNum(b))
  {
    assert Num(r) == n;
    ByteIn(r, b);
  }

  lemma ByteIn(r: Word, b: Byte)
    requires r <= 0xff_ffff
    ensures ((r << 8) | (b as Word)) as nat == 0x100 * (r as nat) + b as nat
  {
  }

  lemma InTurn(a: Byte, b: Byte, c: Byte, d: Byte)
    ensures (a as Word) | ((b as Word) << 8) | ((c as Word) << 16) | ((d as Word) << 24) == Push(Push(Push(Push(0, d), c), b), a)
    ensures Push(Push(0, d), c) <= 0xffff && Push(Push(Push(0, d), c), b) <= 0xff_ffff
  {
  }

  lemma FourBytes(a: Byte, b: Byte, c: Byte, d: Byte, w: Word)
    requires w == (a as Word) | ((b as Word) << 8) | ((c as Word) << 16) | ((d as Word) << 24)
    ensures Stands(w, ByteNum(a) + 0x100 * ByteNum(b) + 0x1_0000 * ByteNum(c) + 0x100_0000 * ByteNum(d))
  {
    InTurn(a, b, c, d);
    FirstByte(d);
    NextByte(Push(0, d), c, ByteNum(d));
    NextByte(Push(Push(0, d), c), b, 0x100 * ByteNum(d) + ByteNum(c));
    NextByte(Push(Push(Push(0, d), c), b), a, 0x100 * (0x100 * ByteNum(d) + ByteNum(c)) + ByteNum(b));
  }

  lemma Read(w: Word, n: nat)
    requires Stands(w, n)
    ensures w as nat == n
  {
    assert Num(w) == n;
  }

  /** A word is four bytes, the lowest first. */
  lemma WordValue(data: seq<Byte>, i: nat)
    requires i + 4 <= |data|
    ensures WordAt(data, i) as nat
         == data[i] as nat + 0x100 * (data[i + 1] as nat) + 0x1_0000 * (data[i + 2] as nat) + 0x100_0000 * (data[i + 3] as nat)
  {
    var w := WordAt(data, i);
    FourBytes(data[i], data[i + 1], data[i + 2], data[i + 3], w);
    Read(w, ByteNum(data[i]) + 0x100 * ByteNum(data[i + 1]) + 0x1_0000 * ByteNum(data[i + 2]) + 0x100_0000 * ByteNum(data[i + 3]));
  }

  lemma BytesBack(w: Word, a: Byte, b: Byte, c: Byte, d: Byte)
    requires WordBytes(w) == [a, b, c, d]
    ensures w == (a as Word) | ((b as Word) << 8) | ((c as Word) << 16) | ((d as Word) << 24)
  {
    assert WordBytes(w)[0] == a && WordBytes(w)[1] == b && WordBytes(w)[2] == c && WordBytes(w)[3] == d;
  }

  lemma DigitsOf(v: nat, a: nat, b: nat, c: nat, d: nat)
    requires v == a + 0x100 * b + 0x1_0000 * c + 0x100_0000 * d && a < 0x100 && b < 0x100 && c < 0x100 && d < 0x100
    ensures a == v % 0x100 && b == v / 0x100 % 0x100 && c == v / 0x1_0000 % 0x100 && d == v / 0x100_0000
  {
  }

  /** The bytes put out for a word are its digits to the base 256, the lowest first. */
  lemma WordBytesValue(w: Word, a: Byte, b: Byte, c: Byte, d: Byte)
    requires WordBytes(w) == [a, b, c, d]
    ensures a as nat == w as nat % 0x100 && b as nat == w as nat / 0x100 % 0x100
    ensures c as nat == w as nat / 0x1_0000 % 0x100 && d as nat == w as nat / 0x100_0000
  {
    BytesBack(w, a, b, c, d);
    FourBytes(a, b, c, d, w);
    Digits(w, a, b, c, d);
  }

  lemma Digits(w: Word, a: Byte, b: Byte, c: Byte, d: Byte)
    requires Stands(w, ByteNum(a) + 0x100 * ByteNum(b) + 0x1_0000 * ByteNum(c) + 0x100_0000 * ByteNum(d))
    ensures a as nat == w as nat % 0x100 && b as nat == w as nat / 0x100 % 0x100
    ensures c as nat == w as nat / 0x1_0000 % 0x100 && d as nat == w as nat / 0x100_0000
  {
    Read(w, ByteNum(a) + 0x100 * ByteNum(b) + 0x1_0000 * ByteNum(c) + 0x100_0000 * ByteNum(d));
    DigitsOf(w as nat, ByteNum(a), ByteNum(b), ByteNum(c), ByteNum(d));
  }

  // ---------- wider words ----------

  /** A word of `width` bits has just the lowest `width` of 64 bits. */
  lemma Masks()
    ensures Mask(32) == 0xffff_ffff && Mask(33) == 0x1_ffff_ffff && Mask(36) == 0xf_ffff_ffff && Mask(40) == 0xff_ffff_ffff
    ensures Mask(48) == 0xffff_ffff_ffff && Mask(56) == 0xff_ffff_ffff_ffff
    ensures Mask(63) == 0x7fff_ffff_ffff_ffff && Mask(64) == 0xffff_ffff_ffff_ffff
  {
    assert Mask(44) == 0xfff_ffff_ffff;
    assert Mask(52) == 0xf_ffff_ffff_ffff;
    assert Mask(60) == 0xfff_ffff_ffff_ffff;
  }

  /** The counters wrap at that power of two. */
  lemma {:induction false} RangePower(width: nat)
    requires 32 <= width
    ensures Range(width) == Numbers.Pow2(width)
  {
    if width == 32 {
      Pow2At32();
    } else {
      RangePower(width - 1);
    }
  }

  lemma Pow2At32()
    ensures Numbers.Pow2(32) == 0x1_0000_0000
  {
    assert Numbers.Pow2(8) == 0x100;
    assert Numbers.Pow2(16) == 0x1_0000;
    assert Numbers.Pow2(24) == 0x100_0000;
  }

  // ---------- padding ----------

  /** `b` stands for `n`; closed like `Stands`. */
  ghost predicate IsByte(b: Byte, n: nat) {
    forall c: Byte {:trigger ByteNum(c)} :: c == b ==> ByteNum(c) == n
  }

  lemma ByteIs(b: Byte, n: nat)
    requires IsByte(b, n)
    ensures ByteNum(b) == n
  {
  }

  lemma SameByte(b: Byte, c: Byte, n: nat)
    requires IsByte(b, n) && ByteNum(c) == n
    ensures b == c
  {
    ByteIs(b, n);
  }

  lemma ByteOfSmall(r: nat)
    requires r < 0x100
    ensures IsByte(r as Byte, r)
  {
  }

  lemma ByteOfValue(v: nat)
    ensures IsByte(ByteOf(v), v % 0x100)
  {
    ByteOfSmall(v % 0x100);
  }

  lemma LowestFirst(v: nat, n: nat, s: seq<Byte>)
    requires s == LittleEndian(v, n + 1)
    ensures |s| == n + 1 && IsByte(s[0], v % 0x100) && s[1..] == LittleEndian(v / 0x100, n)
  {
    ByteOfValue(v);
  }

  lemma Quotients(v: nat)
    ensures v == v % 0x100 + 0x100 * (v / 0x100 % 0x100) + 0x1_0000 * (v / 0x100 / 0x100)
  {
  }

  lemma SecondOf<T>(s: seq<T>)
    requires 2 <= |s|
    ensures s[1..][1..] == s[2..] && s[1..][0] == s[1]
  {
  }

  lemma TwoDigits(v: nat, n: nat, s: seq<Byte>) returns (a: nat, b: nat, q: nat)
    requires s == LittleEndian(v, n + 2)
    ensures |s| == n + 2 && s[2..] == LittleEndian(q, n)
    ensures IsByte(s[0], a) && IsByte(s[1], b) && v == a + 0x100 * b + 0x1_0000 * q
  {
    LowestFirst(v, n + 1, s);
    LowestFirst(v / 0x100, n, s[1..]);
    SecondOf(s);
    Quotients(v);
    a, b, q := v % 0x100, v / 0x100 % 0x100, v / 0x100 / 0x100;
  }

  lemma FourDigits(v: nat, n: nat, s: seq<Byte>) returns (a: nat, b: nat, c: nat, d: nat, q: nat)
    requires s == LittleEndian(v, n + 2 + 2)
    ensures |s| == n + 4 && s[4..] == LittleEndian(q, n)
    ensures IsByte(s[0], a) && IsByte(s[1], b) && IsByte(s[2], c) && IsByte(s[3], d)
    ensures v == a + 0x100 * b + 0x1_0000 * c + 0x100_0000 * d + 0x1_0000_0000 * q
  {
    var p;
    a, b, p := TwoDigits(v, n + 2, s);
    c, d, q := TwoDigits(p, n, s[2..]);
    assert s[2..][0] == s[2] && s[2..][1] == s[3] && s[2..][2..] == s[4..];
  }

  /** Eight bytes hold any number below 2^64. */
  lemma EightDigits(v: nat, s: seq<Byte>)
    requires v < 0x1_0000_0000_0000_0000 && s == LittleEndian(v, 8)
    ensures |s| == 8
    ensures ByteNum(s[0]) + 0x100 * ByteNum(s[1]) + 0x1_0000 * ByteNum(s[2]) + 0x100_0000 * ByteNum(s[3])
          + 0x1_0000_0000 * ByteNum(s[4]) + 0x100_0000_0000 * ByteNum(s[5]) + 0x1_0000_0000_0000 * ByteNum(s[6])
          + 0x100_0000_0000_0000 * ByteNum(s[7]) == v
  {
    var a, b, c, d, q := FourDigits(v, 4, s);
    var e, f, g, h, r := FourDigits(q, 0, s[4..]);
    ByteIs(s[0], a);
    ByteIs(s[1], b);
    ByteIs(s[2], c);
    ByteIs(s[3], d);
    ByteIs(s[4], e);
    ByteIs(s[5], f);
    ByteIs(s[6], g);
    ByteIs(s[7], h);
    assert r == 0;
  }

  /** A number below 256 fills only the first of them. */
  lemma ShortDigits(v: nat, n: nat, s: seq<Byte>, b: Byte)
    requires v < 0x100 && s == LittleEndian(v, n + 1) && ByteNum(b) == v
    ensures |s| == n + 1 && s[0] == b && forall k :: 1 <= k <= n ==> s[k] == 0
  {
    LowestFirst(v, n, s);
    assert v % 0x100 == v && v / 0x100 == 0;
    SameByte(s[0], b, v);
    ZeroDigits(n, s[1..]);
    forall k | 1 <= k <= n ensures s[k] == 0 {
      assert s[k] == s[1..][k - 1];
    }
  }

  lemma {:induction false} ZeroDigits(n: nat, s: seq<Byte>)
    requires s == LittleEndian(0, n)
    ensures |s| == n && forall k :: 0 <= k < n ==> s[k] == 0
    decreases n
  {
    if n == 0 {
    } else {
      LowestFirst(0, n - 1, s);
      SameByte(s[0], 0, 0);
      ZeroDigits(n - 1, s[1..]);
    }
  }

  /** The padding of RFC 1321 sections 3.1 and 3.2, byte by byte. */
  lemma PaddingIs(msg: seq<Byte>)
    ensures var (p, n) := (Padded(msg), |msg|);
      && |p| % 64 == 0 && n + 9 <= |p| < n + 73
      && p[..n] == msg && p[n] == 0x80
      && (forall k :: n < k < |p| - 8 ==> p[k] == 0)
    ensures var (p, e) := (Padded(msg), |Padded(msg)| - 8);
      (p[e] as nat) + 0x100 * (p[e + 1] as nat) + 0x1_0000 * (p[e + 2] as nat) + 0x100_0000 * (p[e + 3] as nat)
      + 0x1_0000_0000 * (p[e + 4] as nat) + 0x100_0000_0000 * (p[e + 5] as nat) + 0x1_0000_0000_0000 * (p[e + 6] as nat)
      + 0x100_0000_0000_0000 * (p[e + 7] as nat) == 8 * |msg| % 0x1_0000_0000_0000_0000
  {
    var v := 8 * |msg| % 0x1_0000_0000_0000_0000;
    EightDigits(v, LittleEndian(v, 8));
    Laid(msg, Zeros(Gap(|msg|)), LittleEndian(v, 8));
  }

  lemma Laid(msg: seq<Byte>, z: seq<Byte>, l: seq<Byte>)
    requires |l| == 8
    ensures var (p, n) := (msg + [0x80] + z + l, |msg|);
      && |p| == n + 9 + |z| && p[..n] == msg && p[n] == 0x80
      && (forall k :: n < k < |p| - 8 ==> p[k] == z[k - n - 1])
      && (forall k :: 0 <= k < 8 ==> p[|p| - 8 + k] == l[k])
  {
  }
}
