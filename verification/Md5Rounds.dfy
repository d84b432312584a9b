/** The step macro and the four unrolled rounds of `md5.c`, on words of any width from 32 to 64 bits. */
module Md5Rounds {
  import opened Md5Spec
  import opened Md5Words

  // ---------- the step macro ----------

  method AddIn(a: Wide, f: Wide, x: Wide, t: Wide, mask: Wide) returns (r: Wide)
    requires Full(mask)
    ensures Low(r) == Sum(Low(a), Low(f), Low(x), Low(t))
  {
    LowSum(a, f, x, t);
    LowMasked(a + (f + x + t), mask);
    r := (a + (f + x + t)) & mask;
  }

  method Rotate(a: Wide, s: bv6, mask: Wide) returns (r: Wide)
    requires Full(mask) && 0 < s < 32
    ensures Low(r) == Rotl(Low(a), s)
  {
    LowRotl(a, s);
    LowMasked((a << s) | ((a & 0xffff_ffff) >> (32 - s)), mask);
    r := ((a << s) | ((a & 0xffff_ffff) >> (32 - s))) & mask;
  }

  method Increase(a: Wide, b: Wide, mask: Wide) returns (r: Wide)
    requires Full(mask)
    ensures Low(r) == Plus(Low(a), Low(b)) && Within(r, mask)
  {
    LowPlus(a, b);
    LowMasked(a + b, mask);
    MaskedWithin(a + b, mask);
    r := (a + b) & mask;
  }

  /** `STEP`, once its round function has given `f`: three assignments, each of which wraps at the width. */
  method Stepped(f: Wide, a: Wide, b: Wide, x: Wide, t: Word, s: bv6, mask: Wide) returns (r: Wide)
    requires Full(mask) && 0 < s < 32
    ensures Low(r) == Turn(Low(f), Low(a), Low(b), Low(x), t, s)
  {
    LowWidened(t);
    r := AddIn(a, f, x, Widened(t), mask);
    r := Rotate(r, s, mask);
    r := Increase(r, b, mask);
  }

  /** `F` without the and-not. */
  method QuickF(x: Wide, y: Wide, z: Wide) returns (w: Wide)
    ensures Low(w) == F(Low(x), Low(y), Low(z))
  {
    LowQuickF(x, y, z);
    w := z ^ (x & (y ^ z));
  }

  /** `G` without the and-not. */
  method QuickG(x: Wide, y: Wide, z: Wide) returns (w: Wide)
    ensures Low(w) == G(Low(x), Low(y), Low(z))
  {
    LowQuickG(x, y, z);
    w := y ^ (z & (x ^ y));
  }

  method MixH(x: Wide, y: Wide, z: Wide) returns (w: Wide)
    ensures Low(w) == H(Low(x), Low(y), Low(z))
  {
    LowH(x, y, z);
    w := x ^ y ^ z;
  }

  /** The complement has as many ones above as the word is wide. */
  method MixI(x: Wide, y: Wide, z: Wide, mask: Wide) returns (w: Wide)
    requires Full(mask)
    ensures Low(w) == I(Low(x), Low(y), Low(z))
  {
    LowI(x, y, z);
    LowMasked(y ^ (x | !z), mask);
    w := (y ^ (x | !z)) & mask;
  }

  lemma Shifts(i: nat)
    requires i % 4 == 0
    ensures i < 16 ==> S(i) == 7 && S(i + 1) == 12 && S(i + 2) == 17 && S(i + 3) == 22
    ensures 16 <= i < 32 ==> S(i) == 5 && S(i + 1) == 9 && S(i + 2) == 14 && S(i + 3) == 20
    ensures 32 <= i < 48 ==> S(i) == 4 && S(i + 1) == 11 && S(i + 2) == 16 && S(i + 3) == 23
    ensures 48 <= i ==> S(i) == 6 && S(i + 1) == 10 && S(i + 2) == 15 && S(i + 3) == 21
  {
  }

  // ---------- the words of a block ----------

  /** Word `n` of the 64 bytes at `ptr`. */
  function Fetched(data: seq<Byte>, ptr: nat, n: nat): Word
    requires n < 16 && ptr + 64 <= |data|
  {
    WordAt(data, ptr + 4 * n)
  }

  ghost predicate Read(x: seq<Word>, data: seq<Byte>, ptr: nat) {
    && |x| == 16
    && ptr + 64 <= |data|
    && forall n {:trigger Fetched(data, ptr, n)} :: 0 <= n < 16 ==> x[n] == Fetched(data, ptr, n)
  }

  lemma WordsRead(data: seq<Byte>, ptr: nat)
    requires ptr + 64 <= |data|
    ensures Read(Words(data[ptr..ptr + 64]), data, ptr)
  {
    forall n | 0 <= n < 16 ensures Words(data[ptr..ptr + 64])[n] == Fetched(data, ptr, n) {
    }
  }

  /** The first `n` words kept in the block are those of `x`, in their low 32 bits. */
  ghost predicate Keeps(kept: seq<Wide>, x: seq<Word>, n: nat) {
    && |kept| == 16 && |x| == 16 && n <= 16
    && forall m :: 0 <= m < n ==> Low(kept[m]) == x[m]
  }

  /** Puts word `n` together from four bytes. */
  method Fetch(data: seq<Byte>, ptr: nat, n: nat, ghost x: seq<Word>) returns (w: Wide)
    requires n < 16 && Read(x, data, ptr)
    ensures Low(w) == x[n]
  {
    LowWordAt(data, ptr + 4 * n);
    w := WideWordAt(data, ptr + 4 * n);
    assert Low(w) == Fetched(data, ptr, n);
  }

  /** Keeps word `n` in the block for the later rounds. */
  method Set(data: seq<Byte>, ptr: nat, n: nat, block: array<Wide>, ghost x: seq<Word>) returns (w: Wide)
    requires n < 16 && block.Length == 16 && Read(x, data, ptr) && Keeps(block[..], x, n)
    modifies block
    ensures Low(w) == x[n] && Keeps(block[..], x, n + 1)
  {
    w := Fetch(data, ptr, n, x);
    block[n] := w;
  }

  // ---------- one step, as seen from the table of all 64 ----------

  /** `tr[i]` is the state before step `i` of the table. */
  ghost predicate Trace(tr: seq<State>, x: seq<Word>) {
    && |x| == 16
    && |tr| == 65
    && forall i {:trigger Step(tr[i], x, i)} :: 0 <= i < 64 ==> tr[i + 1] == Step(tr[i], x, i)
  }

  method StepF(ghost i: nat, a: Wide, b: Wide, c: Wide, d: Wide, x: Wide, t: Word, s: bv6, mask: Wide,
          ghost tr: seq<State>, ghost y: seq<Word>)
      returns (r: Wide)
    requires 0 <= i < 16 && Full(mask) && Trace(tr, y) && tr[i] == LowState(a, b, c, d)
    requires Low(x) == y[K(i)] && t == T(i) && s == S(i)
    ensures tr[i + 1] == LowState(d, r, b, c)
  {
    var f := QuickF(b, c, d);
    r := Stepped(f, a, b, x, t, s, mask);
    assert Low(r) == Op(i, Low(a), Low(b), Low(c), Low(d), y);
    assert tr[i + 1] == Step(tr[i], y, i);
  }

  method StepG(ghost i: nat, a: Wide, b: Wide, c: Wide, d: Wide, x: Wide, t: Word, s: bv6, mask: Wide,
          ghost tr: seq<State>, ghost y: seq<Word>)
      returns (r: Wide)
    requires 16 <= i < 32 && Full(mask) && Trace(tr, y) && tr[i] == LowState(a, b, c, d)
    requires Low(x) == y[K(i)] && t == T(i) && s == S(i)
    ensures tr[i + 1] == LowState(d, r, b, c)
  {
    var f := QuickG(b, c, d);
    r := Stepped(f, a, b, x, t, s, mask);
    assert Low(r) == Op(i, Low(a), Low(b), Low(c), Low(d), y);
    assert tr[i + 1] == Step(tr[i], y, i);
  }

  method StepH(ghost i: nat, a: Wide, b: Wide, c: Wide, d: Wide, x: Wide, t: Word, s: bv6, mask: Wide,
          ghost tr: seq<State>, ghost y: seq<Word>)
      returns (r: Wide)
    requires 32 <= i < 48 && Full(mask) && Trace(tr, y) && tr[i] == LowState(a, b, c, d)
    requires Low(x) == y[K(i)] && t == T(i) && s == S(i)
    ensures tr[i + 1] == LowState(d, r, b, c)
  {
    var f := MixH(b, c, d);
    r := Stepped(f, a, b, x, t, s, mask);
    assert Low(r) == Op(i, Low(a), Low(b), Low(c), Low(d), y);
    assert tr[i + 1] == Step(tr[i], y, i);
  }

  method StepI(ghost i: nat, a: Wide, b: Wide, c: Wide, d: Wide, x: Wide, t: Word, s: bv6, mask: Wide,
          ghost tr: seq<State>, ghost y: seq<Word>)
      returns (r: Wide)
    requires 48 <= i < 64 && Full(mask) && Trace(tr, y) && tr[i] == LowState(a, b, c, d)
    requires Low(x) == y[K(i)] && t == T(i) && s == S(i)
    ensures tr[i + 1] == LowState(d, r, b, c)
  {
    var f := MixI(b, c, d, mask);
    r := Stepped(f, a, b, x, t, s, mask);
    assert Low(r) == Op(i, Low(a), Low(b), Low(c), Low(d), y);
    assert tr[i + 1] == Step(tr[i], y, i);
  }

  /** One line of round 1: the four steps that read their words and update a, d, c and b in turn. */
  method LineF(data: seq<Byte>, ptr: nat, i: nat, block: array<Wide>, a0: Wide, b0: Wide, c0: Wide, d0: Wide,
          t0: Word, t1: Word, t2: Word, t3: Word, mask: Wide, ghost tr: seq<State>, ghost y: seq<Word>)
      returns (a: Wide, b: Wide, c: Wide, d: Wide)
    requires i <= 12 && i % 4 == 0 && |y| == 16 && Full(mask) && Trace(tr, y) && tr[i] == LowState(a0, b0, c0, d0)
    requires block.Length == 16 && Read(y, data, ptr) && Keeps(block[..], y, i)
    requires t0 == T(i) && t1 == T(i + 1) && t2 == T(i + 2) && t3 == T(i + 3)
    modifies block
    ensures tr[i + 4] == LowState(a, b, c, d)
    ensures Keeps(block[..], y, i + 4)
  {
    Shifts(i);
    var w := Set(data, ptr, i, block, y);
    a := StepF(i, a0, b0, c0, d0, w, t0, 7, mask, tr, y);
    w := Set(data, ptr, i + 1, block, y);
    d := StepF(i + 1, d0, a, b0, c0, w, t1, 12, mask, tr, y);
    w := Set(data, ptr, i + 2, block, y);
    c := StepF(i + 2, c0, d, a, b0, w, t2, 17, mask, tr, y);
    w := Set(data, ptr, i + 3, block, y);
    b := StepF(i + 3, b0, c, d, a, w, t3, 22, mask, tr, y);
  }

  /** One line of round 2: the four steps that update a, d, c and b in turn. */
  method LineG(ghost i: nat, a0: Wide, b0: Wide, c0: Wide, d0: Wide, x0: Wide, t0: Word, x1: Wide, t1: Word,
          x2: Wide, t2: Word, x3: Wide, t3: Word, mask: Wide, ghost tr: seq<State>, ghost y: seq<Word>)
      returns (a: Wide, b: Wide, c: Wide, d: Wide)
    requires 16 <= i <= 28 && i % 4 == 0 && |y| == 16 && Full(mask) && Trace(tr, y)
    requires tr[i] == LowState(a0, b0, c0, d0)
    requires Low(x0) == y[K(i)] && Low(x1) == y[K(i + 1)] && Low(x2) == y[K(i + 2)] && Low(x3) == y[K(i + 3)]
    requires t0 == T(i) && t1 == T(i + 1) && t2 == T(i + 2) && t3 == T(i + 3)
    ensures tr[i + 4] == LowState(a, b, c, d)
  {
    Shifts(i);
    a := StepG(i, a0, b0, c0, d0, x0, t0, 5, mask, tr, y);
    d := StepG(i + 1, d0, a, b0, c0, x1, t1, 9, mask, tr, y);
    c := StepG(i + 2, c0, d, a, b0, x2, t2, 14, mask, tr, y);
    b := StepG(i + 3, b0, c, d, a, x3, t3, 20, mask, tr, y);
  }

  /** One line of round 3: the four steps that update a, d, c and b in turn. */
  method LineH(ghost i: nat, a0: Wide, b0: Wide, c0: Wide, d0: Wide, x0: Wide, t0: Word, x1: Wide, t1: Word,
          x2: Wide, t2: Word, x3: Wide, t3: Word, mask: Wide, ghost tr: seq<State>, ghost y: seq<Word>)
      returns (a: Wide, b: Wide, c: Wide, d: Wide)
    requires 32 <= i <= 44 && i % 4 == 0 && |y| == 16 && Full(mask) && Trace(tr, y)
    requires tr[i] == LowState(a0, b0, c0, d0)
    requires Low(x0) == y[K(i)] && Low(x1) == y[K(i + 1)] && Low(x2) == y[K(i + 2)] && Low(x3) == y[K(i + 3)]
    requires t0 == T(i) && t1 == T(i + 1) && t2 == T(i + 2) && t3 == T(i + 3)
    ensures tr[i + 4] == LowState(a, b, c, d)
  {
    Shifts(i);
    a := StepH(i, a0, b0, c0, d0, x0, t0, 4, mask, tr, y);
    d := StepH(i + 1, d0, a, b0, c0, x1, t1, 11, mask, tr, y);
    c := StepH(i + 2, c0, d, a, b0, x2, t2, 16, mask, tr, y);
    b := StepH(i + 3, b0, c, d, a, x3, t3, 23, mask, tr, y);
  }

  /** One line of round 4: the four steps that update a, d, c and b in turn. */
  method LineI(ghost i: nat, a0: Wide, b0: Wide, c0: Wide, d0: Wide, x0: Wide, t0: Word, x1: Wide, t1: Word,
          x2: Wide, t2: Word, x3: Wide, t3: Word, mask: Wide, ghost tr: seq<State>, ghost y: seq<Word>)
      returns (a: Wide, b: Wide, c: Wide, d: Wide)
    requires 48 <= i <= 60 && i % 4 == 0 && |y| == 16 && Full(mask) && Trace(tr, y)
    requires tr[i] == LowState(a0, b0, c0, d0)
    requires Low(x0) == y[K(i)] && Low(x1) == y[K(i + 1)] && Low(x2) == y[K(i + 2)] && Low(x3) == y[K(i + 3)]
    requires t0 == T(i) && t1 == T(i + 1) && t2 == T(i + 2) && t3 == T(i + 3)
    ensures tr[i + 4] == LowState(a, b, c, d)
  {
    Shifts(i);
    a := StepI(i, a0, b0, c0, d0, x0, t0, 6, mask, tr, y);
    d := StepI(i + 1, d0, a, b0, c0, x1, t1, 10, mask, tr, y);
    c := StepI(i + 2, c0, d, a, b0, x2, t2, 15, mask, tr, y);
    b := StepI(i + 3, b0, c, d, a, x3, t3, 21, mask, tr, y);
  }

  /** The rows of the table for round 1. */
  lemma Table1()
    ensures T(0) == 0xd76aa478 && T(1) == 0xe8c7b756 && T(2) == 0x242070db && T(3) == 0xc1bdceee
    ensures T(4) == 0xf57c0faf && T(5) == 0x4787c62a && T(6) == 0xa8304613 && T(7) == 0xfd469501
    ensures T(8) == 0x698098d8 && T(9) == 0x8b44f7af && T(10) == 0xffff5bb1 && T(11) == 0x895cd7be
    ensures T(12) == 0x6b901122 && T(13) == 0xfd987193 && T(14) == 0xa679438e && T(15) == 0x49b40821
  {
  }

  /** The rows of the table for round 2. */
  lemma Table2()
    ensures T(16) == 0xf61e2562 && T(17) == 0xc040b340 && T(18) == 0x265e5a51 && T(19) == 0xe9b6c7aa
    ensures T(20) == 0xd62f105d && T(21) == 0x02441453 && T(22) == 0xd8a1e681 && T(23) == 0xe7d3fbc8
    ensures T(24) == 0x21e1cde6 && T(25) == 0xc33707d6 && T(26) == 0xf4d50d87 && T(27) == 0x455a14ed
    ensures T(28) == 0xa9e3e905 && T(29) == 0xfcefa3f8 && T(30) == 0x676f02d9 && T(31) == 0x8d2a4c8a
  {
  }

  /** Which words round 2 uses. */
  lemma Uses2()
    ensures K(16) == 1 && K(17) == 6 && K(18) == 11 && K(19) == 0
    ensures K(20) == 5 && K(21) == 10 && K(22) == 15 && K(23) == 4
    ensures K(24) == 9 && K(25) == 14 && K(26) == 3 && K(27) == 8
    ensures K(28) == 13 && K(29) == 2 && K(30) == 7 && K(31) == 12
  {
  }

  /** The rows of the table for round 3. */
  lemma Table3()
    ensures T(32) == 0xfffa3942 && T(33) == 0x8771f681 && T(34) == 0x6d9d6122 && T(35) == 0xfde5380c
    ensures T(36) == 0xa4beea44 && T(37) == 0x4bdecfa9 && T(38) == 0xf6bb4b60 && T(39) == 0xbebfbc70
    ensures T(40) == 0x289b7ec6 && T(41) == 0xeaa127fa && T(42) == 0xd4ef3085 && T(43) == 0x04881d05
    ensures T(44) == 0xd9d4d039 && T(45) == 0xe6db99e5 && T(46) == 0x1fa27cf8 && T(47) == 0xc4ac5665
  {
  }

  /** Which words round 3 uses. */
  lemma Uses3()
    ensures K(32) == 5 && K(33) == 8 && K(34) == 11 && K(35) == 14
    ensures K(36) == 1 && K(37) == 4 && K(38) == 7 && K(39) == 10
    ensures K(40) == 13 && K(41) == 0 && K(42) == 3 && K(43) == 6
    ensures K(44) == 9 && K(45) == 12 && K(46) == 15 && K(47) == 2
  {
  }

  /** The rows of the table for round 4. */
  lemma Table4()
    ensures T(48) == 0xf4292244 && T(49) == 0x432aff97 && T(50) == 0xab9423a7 && T(51) == 0xfc93a039
    ensures T(52) == 0x655b59c3 && T(53) == 0x8f0ccc92 && T(54) == 0xffeff47d && T(55) == 0x85845dd1
    ensures T(56) == 0x6fa87e4f && T(57) == 0xfe2ce6e0 && T(58) == 0xa3014314 && T(59) == 0x4e0811a1
    ensures T(60) == 0xf7537e82 && T(61) == 0xbd3af235 && T(62) == 0x2ad7d2bb && T(63) == 0xeb86d391
  {
  }

  /** Which words round 4 uses. */
  lemma Uses4()
    ensures K(48) == 0 && K(49) == 7 && K(50) == 14 && K(51) == 5
    ensures K(52) == 12 && K(53) == 3 && K(54) == 10 && K(55) == 1
    ensures K(56) == 8 && K(57) == 15 && K(58) == 6 && K(59) == 13
    ensures K(60) == 4 && K(61) == 11 && K(62) == 2 && K(63) == 9
  {
  }

  method Round1(data: seq<Byte>, ptr: nat, block: array<Wide>, a0: Wide, b0: Wide, c0: Wide, d0: Wide, mask: Wide,
          ghost tr: seq<State>, ghost y: seq<Word>)
      returns (a: Wide, b: Wide, c: Wide, d: Wide)
    requires block.Length == 16 && Full(mask)
    requires Read(y, data, ptr) && Trace(tr, y) && tr[0] == LowState(a0, b0, c0, d0)
    modifies block
    ensures Keeps(block[..], y, 16) && tr[16] == LowState(a, b, c, d)
  {
    Table1();
    a, b, c, d := LineF(data, ptr, 0, block, a0, b0, c0, d0,
      0xd76aa478, 0xe8c7b756, 0x242070db, 0xc1bdceee, mask, tr, y);
    a, b, c, d := LineF(data, ptr, 4, block, a, b, c, d,
      0xf57c0faf, 0x4787c62a, 0xa8304613, 0xfd469501, mask, tr, y);
    a, b, c, d := LineF(data, ptr, 8, block, a, b, c, d,
      0x698098d8, 0x8b44f7af, 0xffff5bb1, 0x895cd7be, mask, tr, y);
    a, b, c, d := LineF(data, ptr, 12, block, a, b, c, d,
      0x6b901122, 0xfd987193, 0xa679438e, 0x49b40821, mask, tr, y);
  }

  method Round2(block: array<Wide>, a0: Wide, b0: Wide, c0: Wide, d0: Wide, mask: Wide,
          ghost tr: seq<State>, ghost y: seq<Word>)
      returns (a: Wide, b: Wide, c: Wide, d: Wide)
    requires block.Length == 16 && Full(mask) && Keeps(block[..], y, 16)
    requires Trace(tr, y) && tr[16] == LowState(a0, b0, c0, d0)
    ensures tr[32] == LowState(a, b, c, d)
  {
    Table2();
    Uses2();
    a, b, c, d := LineG(16, a0, b0, c0, d0, block[1], 0xf61e2562, block[6], 0xc040b340,
      block[11], 0x265e5a51, block[0], 0xe9b6c7aa, mask, tr, y);
    a, b, c, d := LineG(20, a, b, c, d, block[5], 0xd62f105d, block[10], 0x02441453,
      block[15], 0xd8a1e681, block[4], 0xe7d3fbc8, mask, tr, y);
    a, b, c, d := LineG(24, a, b, c, d, block[9], 0x21e1cde6, block[14], 0xc33707d6,
      block[3], 0xf4d50d87, block[8], 0x455a14ed, mask, tr, y);
    a, b, c, d := LineG(28, a, b, c, d, block[13], 0xa9e3e905, block[2], 0xfcefa3f8,
      block[7], 0x676f02d9, block[12], 0x8d2a4c8a, mask, tr, y);
  }

  method Round3(block: array<Wide>, a0: Wide, b0: Wide, c0: Wide, d0: Wide, mask: Wide,
          ghost tr: seq<State>, ghost y: seq<Word>)
      returns (a: Wide, b: Wide, c: Wide, d: Wide)
    requires block.Length == 16 && Full(mask) && Keeps(block[..], y, 16)
    requires Trace(tr, y) && tr[32] == LowState(a0, b0, c0, d0)
    ensures tr[48] == LowState(a, b, c, d)
  {
    Table3();
    Uses3();
    a, b, c, d := LineH(32, a0, b0, c0, d0, block[5], 0xfffa3942, block[8], 0x8771f681,
      block[11], 0x6d9d6122, block[14], 0xfde5380c, mask, tr, y);
    a, b, c, d := LineH(36, a, b, c, d, block[1], 0xa4beea44, block[4], 0x4bdecfa9,
      block[7], 0xf6bb4b60, block[10], 0xbebfbc70, mask, tr, y);
    a, b, c, d := LineH(40, a, b, c, d, block[13], 0x289b7ec6, block[0], 0xeaa127fa,
      block[3], 0xd4ef3085, block[6], 0x04881d05, mask, tr, y);
    a, b, c, d := LineH(44, a, b, c, d, block[9], 0xd9d4d039, block[12], 0xe6db99e5,
      block[15], 0x1fa27cf8, block[2], 0xc4ac5665, mask, tr, y);
  }

  method Round4(block: array<Wide>, a0: Wide, b0: Wide, c0: Wide, d0: Wide, mask: Wide,
          ghost tr: seq<State>, ghost y: seq<Word>)
      returns (a: Wide, b: Wide, c: Wide, d: Wide)
    requires block.Length == 16 && Full(mask) && Keeps(block[..], y, 16)
    requires Trace(tr, y) && tr[48] == LowState(a0, b0, c0, d0)
    ensures tr[64] == LowState(a, b, c, d)
  {
    Table4();
    Uses4();
    a, b, c, d := LineI(48, a0, b0, c0, d0, block[0], 0xf4292244, block[7], 0x432aff97,
      block[14], 0xab9423a7, block[5], 0xfc93a039, mask, tr, y);
    a, b, c, d := LineI(52, a, b, c, d, block[12], 0x655b59c3, block[3], 0x8f0ccc92,
      block[10], 0xffeff47d, block[1], 0x85845dd1, mask, tr, y);
    a, b, c, d := LineI(56, a, b, c, d, block[8], 0x6fa87e4f, block[15], 0xfe2ce6e0,
      block[6], 0xa3014314, block[13], 0x4e0811a1, mask, tr, y);
    a, b, c, d := LineI(60, a, b, c, d, block[4], 0xf7537e82, block[11], 0xbd3af235,
      block[2], 0x2ad7d2bb, block[9], 0xeb86d391, mask, tr, y);
  }
}
