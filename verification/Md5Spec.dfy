/** The MD5 message-digest algorithm as RFC 1321 sections 3.1 to 3.5 describe it. */
module Md5Spec {
  type Word = bv32
  type Byte = bv8

  datatype State = State(a: Word, b: Word, c: Word, d: Word)

  const INITIAL := State(0x67452301, 0xefcdab89, 0x98badcfe, 0x10325476)

  // ---------- section 3.4: the auxiliary functions and the table ----------

  function F(x: Word, y: Word, z: Word): Word { (x & y) | (!x & z) }
  function G(x: Word, y: Word, z: Word): Word { (x & z) | (y & !z) }
  function H(x: Word, y: Word, z: Word): Word { x ^ y ^ z }
  function I(x: Word, y: Word, z: Word): Word { y ^ (x | !z) }

  /** The function of the round that step `i` belongs to. */
  function Mix(i: nat, x: Word, y: Word, z: Word): Word {
    if i < 16 then F(x, y, z) else if i < 32 then G(x, y, z) else if i < 48 then H(x, y, z) else I(x, y, z)
  }

  /** Which word of the block step `i` adds. */
  function K(i: nat): (k: nat)
    ensures k < 16
  {
    if i < 16 then i else if i < 32 then (5 * i + 1) % 16 else if i < 48 then (3 * i + 5) % 16 else (7 * i) % 16
  }

  function S(i: nat): (s: bv6)
    ensures 0 < s < 32
  {
    var j := i % 4;
    if i < 16 then (if j == 0 then 7 else if j == 1 then 12 else if j == 2 then 17 else 22)
    else if i < 32 then (if j == 0 then 5 else if j == 1 then 9 else if j == 2 then 14 else 20)
    else if i < 48 then (if j == 0 then 4 else if j == 1 then 11 else if j == 2 then 16 else 23)
    else (if j == 0 then 6 else if j == 1 then 10 else if j == 2 then 15 else 21)
  }

  /** The integer part of 4294967296 times abs(sin(i + 1)). */
  function T(i: nat): Word {
    if i < 16 then T1(i) else if i < 32 then T2(i - 16) else if i < 48 then T3(i - 32) else T4(i - 48)
  }

  function T1(j: nat): Word {
    match j
    case 0 => 0xd76aa478
    case 1 => 0xe8c7b756
    case 2 => 0x242070db
    case 3 => 0xc1bdceee
    case 4 => 0xf57c0faf
    case 5 => 0x4787c62a
    case 6 => 0xa8304613
    case 7 => 0xfd469501
    case 8 => 0x698098d8
    case 9 => 0x8b44f7af
    case 10 => 0xffff5bb1
    case 11 => 0x895cd7be
    case 12 => 0x6b901122
    case 13 => 0xfd987193
    case 14 => 0xa679438e
    case _ => 0x49b40821
  }

  function T2(j: nat): Word {
    match j
    case 0 => 0xf61e2562
    case 1 => 0xc040b340
    case 2 => 0x265e5a51
    case 3 => 0xe9b6c7aa
    case 4 => 0xd62f105d
    case 5 => 0x02441453
    case 6 => 0xd8a1e681
    case 7 => 0xe7d3fbc8
    case 8 => 0x21e1cde6
    case 9 => 0xc33707d6
    case 10 => 0xf4d50d87
    case 11 => 0x455a14ed
    case 12 => 0xa9e3e905
    case 13 => 0xfcefa3f8
    case 14 => 0x676f02d9
    case _ => 0x8d2a4c8a
  }

  function T3(j: nat): Word {
    match j
    case 0 => 0xfffa3942
    case 1 => 0x8771f681
    case 2 => 0x6d9d6122
    case 3 => 0xfde5380c
    case 4 => 0xa4beea44
    case 5 => 0x4bdecfa9
    case 6 => 0xf6bb4b60
    case 7 => 0xbebfbc70
    case 8 => 0x289b7ec6
    case 9 => 0xeaa127fa
    case 10 => 0xd4ef3085
    case 11 => 0x04881d05
    case 12 => 0xd9d4d039
    case 13 => 0xe6db99e5
    case 14 => 0x1fa27cf8
    case _ => 0xc4ac5665
  }

  function T4(j: nat): Word {
    match j
    case 0 => 0xf4292244
    case 1 => 0x432aff97
    case 2 => 0xab9423a7
    case 3 => 0xfc93a039
    case 4 => 0x655b59c3
    case 5 => 0x8f0ccc92
    case 6 => 0xffeff47d
    case 7 => 0x85845dd1
    case 8 => 0x6fa87e4f
    case 9 => 0xfe2ce6e0
    case 10 => 0xa3014314
    case 11 => 0x4e0811a1
    case 12 => 0xf7537e82
    case 13 => 0xbd3af235
    case 14 => 0x2ad7d2bb
    case _ => 0xeb86d391
  }

  function Sum(a: Word, f: Word, x: Word, t: Word): Word { a + f + x + t }

  /** v <<< s */
  function Rotl(v: Word, s: bv6): Word
    requires 0 < s < 32
  {
    (v << s) | (v >> (32 - s))
  }

  function Plus(x: Word, y: Word): Word { x + y }

  /** b + ((a + f + x + t) <<< s), modulo 2^32. */
  function Turn(f: Word, a: Word, b: Word, x: Word, t: Word, s: bv6): Word
    requires 0 < s < 32
  {
    Plus(Rotl(Sum(a, f, x, t), s), b)
  }

  function Op(i: nat, a: Word, b: Word, c: Word, d: Word, x: seq<Word>): Word
    requires |x| == 16
  {
    Turn(Mix(i, b, c, d), a, b, x[K(i)], T(i), S(i))
  }

  /**
   * One operation. The registers stand in the order that the operation names them, so that the groups
   * [ABCD] [DABC] [CDAB] [BCDA] are one and the same step with the places moved on by one each time.
   */
  function Step(st: State, x: seq<Word>, i: nat): State
    requires |x| == 16
  {
    State(st.d, Op(i, st.a, st.b, st.c, st.d, x), st.b, st.c)
  }

  function Steps(st: State, x: seq<Word>, n: nat): State
    requires |x| == 16
  {
    if n == 0 then st else Step(Steps(st, x, n - 1), x, n - 1)
  }

  function Add(p: State, q: State): State {
    State(Plus(p.a, q.a), Plus(p.b, q.b), Plus(p.c, q.c), Plus(p.d, q.d))
  }

  /** Four rounds, each of which uses every word of the block once. */
  function Compress(st: State, x: seq<Word>): State
    requires |x| == 16
  {
    Add(Steps(st, x, 4 * |x|), st)
  }

  // ---------- words, blocks and the whole message ----------

  /** Four bytes, low-order byte first. */
  function WordAt(data: seq<Byte>, i: nat): Word
    requires i + 4 <= |data|
  {
    (data[i] as Word) | ((data[i + 1] as Word) << 8) | ((data[i + 2] as Word) << 16) | ((data[i + 3] as Word) << 24)
  }

  function Words(block: seq<Byte>): (x: seq<Word>)
    requires |block| == 64
    ensures |x| == 16
  {
    seq(16, n requires 0 <= n < 16 => WordAt(block, 4 * n))
  }

  function Fold(st: State, data: seq<Byte>): State
    requires |data| % 64 == 0
    decreases |data|
  {
    if data == [] then st else Fold(Compress(st, Words(data[..64])), data[64..])
  }

  lemma {:induction false} FoldAppend(st: State, p: seq<Byte>, q: seq<Byte>)
    requires |p| % 64 == 0 && |q| % 64 == 0
    ensures Fold(st, p + q) == Fold(Fold(st, p), q)
    decreases |p|
  {
    if p == [] {
      assert p + q == q;
    } else {
      assert (p + q)[..64] == p[..64] && (p + q)[64..] == p[64..] + q;
      FoldAppend(Compress(st, Words(p[..64])), p[64..], q);
    }
  }

  /** The low-order byte of `v`. */
  function ByteOf(v: nat): Byte { (v % 256) as Byte }

  /** `v` in `n` bytes, low-order byte first. */
  function LittleEndian(v: nat, n: nat): (s: seq<Byte>)
    ensures |s| == n
  {
    if n == 0 then [] else [ByteOf(v)] + LittleEndian(v / 256, n - 1)
  }

  function Zeros(n: nat): (s: seq<Byte>)
    ensures |s| == n
  {
    seq(n, _ => 0)
  }

  /** How many zero bytes bring a message of `n` bytes and the byte 0x80 to 56 modulo 64. */
  function Gap(n: nat): (g: nat)
    ensures (n + 1 + g) % 64 == 56
  {
    (119 - n % 64) % 64
  }

  /** Sections 3.1 and 3.2: the padding, and the low-order 64 bits of the length in bits. */
  function Padded(msg: seq<Byte>): (p: seq<Byte>)
    ensures |p| % 64 == 0
  {
    assert (|msg| + 1 + Gap(|msg|) + 8) % 64 == 0;
    msg + [0x80] + Zeros(Gap(|msg|)) + LittleEndian(8 * |msg| % 0x1_0000_0000_0000_0000, 8)
  }

  function WordBytes(w: Word): seq<Byte> {
    [(w & 0xff) as Byte, ((w >> 8) & 0xff) as Byte, ((w >> 16) & 0xff) as Byte, ((w >> 24) & 0xff) as Byte]
  }

  /** Section 3.5. */
  function Output(st: State): seq<Byte> {
    WordBytes(st.a) + WordBytes(st.b) + WordBytes(st.c) + WordBytes(st.d)
  }

  function Digest(msg: seq<Byte>): seq<Byte> {
    Output(Fold(INITIAL, Padded(msg)))
  }
}
