/** The streaming digest of `md5.c`: body, context, buffering and padding. */
module Md5 {
  import Numbers
  import opened Md5Spec
  import opened Md5Words
  import opened Md5Rounds

  // ---------- whole blocks ----------

  lemma {:induction false} TraceOfSteps(st: State, x: seq<Word>) returns (tr: seq<State>)
    requires |x| == 16
    ensures Trace(tr, x) && tr[0] == st && Compress(st, x) == Add(tr[64], st)
  {
    tr := seq(65, n requires 0 <= n < 65 => Steps(st, x, n));
    forall i | 0 <= i < 64 ensures tr[i + 1] == Step(tr[i], x, i) {
      assert Steps(st, x, i + 1) == Step(Steps(st, x, i), x, i);
    }
    assert 4 * |x| == 64;
  }

  /** Folding `data` into `st` gives `next`; the definition stays closed until a proof mentions the fold. */
  ghost predicate Folds(st: State, data: seq<Byte>, next: State) {
    |data| % 64 == 0 && forall start {:trigger Fold(start, data)} :: start == st ==> next == Fold(start, data)
  }

  lemma FoldsIs(st: State, data: seq<Byte>, next: State)
    requires Folds(st, data, next)
    ensures |data| % 64 == 0 && next == Fold(st, data)
  {
  }

  lemma FoldsNone(st: State)
    ensures Folds(st, [], st)
  {
  }

  lemma FoldsOne(st: State, block: seq<Byte>, next: State)
    requires |block| == 64 && next == Compress(st, Words(block))
    ensures Folds(st, block, next)
  {
    assert block[..64] == block && block[64..] == [];
  }

  lemma MoreBlocks(m: nat, n: nat)
    requires m % 64 == 0 && n % 64 == 0
    ensures (m + n) % 64 == 0
  {
  }

  lemma FoldsBy(st: State, data: seq<Byte>, next: State)
    requires |data| % 64 == 0 && next == Fold(st, data)
    ensures Folds(st, data, next)
  {
  }

  lemma FoldTwice(st: State, done: seq<Byte>, mid: State, data: seq<Byte>, next: State)
    requires |done| % 64 == 0 && |data| % 64 == 0 && |done + data| % 64 == 0
    requires mid == Fold(st, done) && next == Fold(mid, data)
    ensures next == Fold(st, done + data)
  {
    FoldAppend(st, done, data);
  }

  lemma FoldsMore(st: State, done: seq<Byte>, mid: State, data: seq<Byte>, next: State)
    requires Folds(st, done, mid) && Folds(mid, data, next)
    ensures Folds(st, done + data, next)
  {
    MoreBlocks(|done|, |data|);
    FoldsIs(st, done, mid);
    FoldsIs(mid, data, next);
    FoldTwice(st, done, mid, data, next);
    FoldsBy(st, done + data, next);
  }

  lemma FoldBlock(st: State, data: seq<Byte>, ptr: nat, mid: State, next: State)
    requires ptr + 64 <= |data| && Folds(st, data[..ptr], mid)
    requires next == Compress(mid, Words(data[ptr..ptr + 64]))
    ensures Folds(st, data[..ptr + 64], next)
  {
    FoldsOne(mid, data[ptr..ptr + 64], next);
    FoldsMore(st, data[..ptr], mid, data[ptr..ptr + 64], next);
    assert data[..ptr + 64] == data[..ptr] + data[ptr..ptr + 64];
  }

  /** The four rounds on the words of one block. */
  method Rounds(data: seq<Byte>, ptr: nat, block: array<Wide>, a0: Wide, b0: Wide, c0: Wide, d0: Wide, mask: Wide,
          ghost tr: seq<State>, ghost y: seq<Word>)
      returns (a: Wide, b: Wide, c: Wide, d: Wide)
    requires block.Length == 16 && Full(mask)
    requires Read(y, data, ptr) && Trace(tr, y) && tr[0] == LowState(a0, b0, c0, d0)
    modifies block
    ensures LowState(a, b, c, d) == tr[64]
  {
    a, b, c, d := Round1(data, ptr, block, a0, b0, c0, d0, mask, tr, y);
    a, b, c, d := Round2(block, a, b, c, d, mask, tr, y);
    a, b, c, d := Round3(block, a, b, c, d, mask, tr, y);
    a, b, c, d := Round4(block, a, b, c, d, mask, tr, y);
  }

  /** One turn of the loop of `body`. */
  method Block(data: seq<Byte>, ptr: nat, block: array<Wide>, a0: Wide, b0: Wide, c0: Wide, d0: Wide, mask: Wide)
      returns (a: Wide, b: Wide, c: Wide, d: Wide)
    requires block.Length == 16 && ptr + 64 <= |data| && Full(mask)
    modifies block
    ensures LowState(a, b, c, d) == Compress(LowState(a0, b0, c0, d0), Words(data[ptr..ptr + 64]))
    ensures AllWithin(a, b, c, d, mask)
  {
    WordsRead(data, ptr);
    ghost var y := Words(data[ptr..ptr + 64]);
    ghost var tr := TraceOfSteps(LowState(a0, b0, c0, d0), y);
    a, b, c, d := Rounds(data, ptr, block, a0, b0, c0, d0, mask, tr, y);
    a := Increase(a, a0, mask);
    b := Increase(b, b0, mask);
    c := Increase(c, c0, mask);
    d := Increase(d, d0, mask);
  }

  ghost predicate AllWithin(a: Wide, b: Wide, c: Wide, d: Wide, mask: Wide) {
    Within(a, mask) && Within(b, mask) && Within(c, mask) && Within(d, mask)
  }

  // ---------- remainders ----------

  /** What is left of a number in a word that wraps at `m`. */
  function Wrap(q: nat, m: nat): (r: nat)
    requires 0 < m
    ensures r < m
  {
    q % m
  }

  lemma ModSum(q: nat, k: nat, m: nat)
    requires 0 < m
    ensures Wrap(Wrap(q, m) + k, m) == Wrap(q + k, m)
  {
    var d := q / m;
    assert q + k == m * d + (q % m + k);
    ModShift(q % m + k, d, m);
  }

  lemma ModShift(v: nat, d: nat, m: nat)
    requires 0 < m
    ensures (m * d + v) % m == v % m
  {
    var e := v / m;
    assert m * d + v == m * (d + e) + v % m;
    Numbers.RemainderOf(m * d + v, m, d + e, v % m);
  }

  // ---------- the message that has been taken in ----------

  /** The bytes of `msg` that fill whole blocks. */
  function Whole(msg: seq<Byte>): (w: seq<Byte>)
    ensures |w| % 64 == 0
  {
    msg[..|msg| - |msg| % 64]
  }

  /** The bytes that wait for their block to fill. */
  function Rest(msg: seq<Byte>): (r: seq<Byte>)
    ensures |r| == |msg| % 64
  {
    msg[|msg| - |msg| % 64..]
  }

  /** `st` is the state after the whole blocks `done`. */
  ghost predicate Taken(st: State, done: seq<Byte>) { Folds(INITIAL, done, st) }

  /** The state has taken in the whole blocks of `msg` and the buffer begins with the bytes that wait. */
  ghost predicate Stands(st: State, buf: seq<Byte>, msg: seq<Byte>) {
    |buf| == 64 && Taken(st, Whole(msg)) && buf[..|msg| % 64] == Rest(msg)
  }

  lemma Standing(st: State, buf: seq<Byte>, msg: seq<Byte>, done: seq<Byte>, rest: seq<Byte>)
    requires |buf| == 64 && Taken(st, done) && |rest| < 64 && buf[..|rest|] == rest && msg == done + rest
    ensures Stands(st, buf, msg)
  {
    WholeAndRest(msg, done, rest);
  }

  /** 2^29 * hi + lo is `n` modulo 2^29 * m, for words that wrap at `m`. */
  ghost predicate Counts(lo: nat, hi: nat, n: nat, m: nat)
    requires 0 < m
  {
    lo == n % 0x2000_0000 && hi == Wrap(n / 0x2000_0000, m)
  }

  lemma CountsMore(lo: nat, hi: nat, n: nat, size: nat, m: nat, lo': nat, hi': nat)
    requires 0 < m && Counts(lo, hi, n, m) && lo' == (lo + size) % 0x2000_0000
    requires hi' == Wrap((if lo' < lo then Wrap(hi + 1, m) else hi) + size / 0x2000_0000, m)
    ensures Counts(lo', hi', n + size, m)
  {
    var q, k := n / 0x2000_0000, size / 0x2000_0000;
    Carried(n, size, lo, lo');
    CarriedHigh(q, k, lo' < lo, m);
    assert (n + size) / 0x2000_0000 == q + k + if lo' < lo then 1 else 0;
  }

  lemma Used(lo: nat, hi: nat, n: nat, m: nat)
    requires 0 < m && Counts(lo, hi, n, m)
    ensures lo % 64 == n % 64
  {
  }

  lemma CountedTogether(lo: nat, hi: nat, n: nat, m: nat)
    requires 0 < m && Counts(lo, hi, n, m)
    ensures 0x2000_0000 * hi + lo == n % (0x2000_0000 * m)
  {
    var q := n / 0x2000_0000;
    var k := q / m;
    assert n == 0x2000_0000 * q + lo;
    assert q == m * k + hi;
    assert 0x2000_0000 * (m * k) == 0x2000_0000 * m * k;
    assert hi <= m - 1;
    Numbers.RemainderOf(n, 0x2000_0000 * m, k, 0x2000_0000 * hi + lo);
  }

  lemma WholeAndRest(msg: seq<Byte>, done: seq<Byte>, rest: seq<Byte>)
    requires msg == done + rest && |done| % 64 == 0 && |rest| < 64
    ensures Whole(msg) == done && Rest(msg) == rest
  {
    assert |msg| % 64 == |rest|;
  }

  // ---------- padding ----------

  /** The four bytes of a 32-bit counter, low-order byte first. */
  function FieldBytes(v: nat): seq<Byte> {
    [ByteOf(v), ByteOf(v / 0x100), ByteOf(v / 0x1_0000), ByteOf(v / 0x100_0000)]
  }

  lemma Unfolded(v: nat, m: nat)
    ensures LittleEndian(v, m + 1) == [ByteOf(v)] + LittleEndian(v / 0x100, m)
  {
  }

  lemma Shifted(v: nat)
    ensures v / 0x100 / 0x100 == v / 0x1_0000
    ensures v / 0x1_0000 / 0x100 == v / 0x100_0000
    ensures v / 0x100_0000 / 0x100 == v / 0x1_0000_0000
  {
  }

  lemma FourAhead<T>(a: T, b: T, c: T, d: T, r: seq<T>)
    ensures [a] + ([b] + ([c] + ([d] + r))) == [a, b, c, d] + r
  {
  }

  lemma FourBytes(v: nat, m: nat)
    ensures LittleEndian(v, m + 4) == FieldBytes(v) + LittleEndian(v / 0x1_0000_0000, m)
  {
    Shifted(v);
    Unfolded(v, m + 3);
    Unfolded(v / 0x100, m + 2);
    Unfolded(v / 0x1_0000, m + 1);
    Unfolded(v / 0x100_0000, m);
    FourAhead(ByteOf(v), ByteOf(v / 0x100), ByteOf(v / 0x1_0000), ByteOf(v / 0x100_0000), LittleEndian(v / 0x1_0000_0000, m));
  }

  lemma DropByte(v: nat, l: nat, k: nat)
    requires v == l + 0x100 * k
    ensures v % 0x100 == l % 0x100 && v / 0x100 == l / 0x100 + k
  {
  }

  /** The bytes of the low half do not depend on the high half. */
  lemma LowHalf(v: nat, l: nat, h: nat)
    requires v == l + 0x1_0000_0000 * h
    ensures FieldBytes(v) == FieldBytes(l)
  {
    Shifted(v);
    Shifted(l);
    DropByte(v, l, 0x100_0000 * h);
    DropByte(v / 0x100, l / 0x100, 0x1_0000 * h);
    DropByte(v / 0x1_0000, l / 0x1_0000, 0x100 * h);
    DropByte(v / 0x100_0000, l / 0x100_0000, h);
  }

  lemma Halves(n: nat, v: nat)
    requires v == 8 * n % 0x1_0000_0000_0000_0000
    ensures v == n % 0x2000_0000 * 8 + 0x1_0000_0000 * (n / 0x2000_0000 % 0x1_0000_0000)
    ensures v / 0x1_0000_0000 == n / 0x2000_0000 % 0x1_0000_0000
  {
    var l := n % 0x2000_0000;
    var q := n / 0x2000_0000;
    assert n == 0x2000_0000 * q + l;
    var h := q % 0x1_0000_0000;
    var k := q / 0x1_0000_0000;
    assert q == 0x1_0000_0000 * k + h;
    assert 8 * n == 0x1_0000_0000_0000_0000 * k + (0x1_0000_0000 * h + 8 * l);
  }

  /** The two counters hold the length in bits. */
  lemma SplitCounter(n: nat)
    ensures LittleEndian(8 * n % 0x1_0000_0000_0000_0000, 8)
         == FieldBytes(n % 0x2000_0000 * 8) + FieldBytes(n / 0x2000_0000 % 0x1_0000_0000)
  {
    var v := 8 * n % 0x1_0000_0000_0000_0000;
    var h := n / 0x2000_0000 % 0x1_0000_0000;
    Halves(n, v);
    LowHalf(v, n % 0x2000_0000 * 8, h);
    FourBytes(v, 4);
    FourBytes(h, 0);
  }

  lemma Regrouped<T>(msg: seq<T>, w: seq<T>, r: seq<T>, x: seq<T>, y: seq<T>, z: seq<T>)
    requires msg == w + r
    ensures msg + x + y + z == w + (r + x + y + z)
  {
  }

  lemma Parts(msg: seq<Byte>)
    ensures msg == Whole(msg) + Rest(msg)
  {
  }

  lemma Topped<T>(msg: seq<T>, w: seq<T>, r: seq<T>, data: seq<T>, free: nat)
    requires msg == w + r && free <= |data|
    ensures w + (r + data[..free]) + data[free..] == msg + data
  {
  }

  function LengthField(n: nat): (f: seq<Byte>)
    ensures |f| == 8
  {
    FieldBytes(n % 0x2000_0000 * 8) + FieldBytes(n / 0x2000_0000 % 0x1_0000_0000)
  }

  lemma PaddedParts(msg: seq<Byte>)
    ensures Padded(msg) == Whole(msg) + (Rest(msg) + [0x80] + Zeros(Gap(|msg|)) + LengthField(|msg|))
  {
    Parts(msg);
    SplitCounter(|msg|);
    Regrouped(msg, Whole(msg), Rest(msg), [0x80], Zeros(Gap(|msg|)), LengthField(|msg|));
  }

  lemma GapOne(n: nat)
    requires n % 64 <= 55
    ensures Gap(n) == 55 - n % 64
  {
  }

  lemma GapTwo(n: nat)
    requires n % 64 > 55
    ensures Gap(n) == 63 - n % 64 + 56
  {
  }

  lemma ZerosJoin(m: nat, n: nat)
    ensures Zeros(m) + Zeros(n) == Zeros(m + n)
  {
  }

  lemma TwoLast<T>(w: seq<T>, h: seq<T>, y: seq<T>, z: seq<T>, l: seq<T>)
    ensures w + (h + y) + ([] + z + l) == w + (h + (y + z) + l)
  {
  }

  /** The padding fits in the block of the waiting bytes when at most 55 wait. */
  lemma PaddedOne(msg: seq<Byte>, front: seq<Byte>)
    requires front == Rest(msg) + [0x80] && |front| <= 56
    ensures Whole(msg) + (front + Zeros(56 - |front|) + LengthField(|msg|)) == Padded(msg)
  {
    GapOne(|msg|);
    PaddedParts(msg);
  }

  /** Otherwise it takes one more block. */
  lemma PaddedTwo(msg: seq<Byte>, front: seq<Byte>)
    requires front == Rest(msg) + [0x80] && 56 < |front| <= 64
    ensures Whole(msg) + (front + Zeros(64 - |front|)) + ([] + Zeros(56) + LengthField(|msg|)) == Padded(msg)
  {
    GapTwo(|msg|);
    PaddedParts(msg);
    ZerosJoin(64 - |front|, 56);
    TwoLast(Whole(msg), front, Zeros(64 - |front|), Zeros(56), LengthField(|msg|));
  }

  lemma DigestOf(msg: seq<Byte>, st: State)
    requires Taken(st, Padded(msg))
    ensures Digest(msg) == Output(st)
  {
    FoldsIs(INITIAL, Padded(msg), st);
  }

  /** Adding `size` to the low counter carries into the high one exactly when the low one wraps. */
  lemma Carried(n: nat, size: nat, lo: nat, lo': nat)
    requires lo == n % 0x2000_0000 && lo' == (lo + size) % 0x2000_0000
    ensures lo' == (n + size) % 0x2000_0000
    ensures (n + size) / 0x2000_0000 == n / 0x2000_0000 + size / 0x2000_0000 + (if lo' < lo then 1 else 0)
  {
  }

  lemma CarriedHigh(q: nat, k: nat, carry: bool, m: nat)
    requires 0 < m
    ensures Wrap((if carry then Wrap(Wrap(q, m) + 1, m) else Wrap(q, m)) + k, m) == Wrap(q + k + if carry then 1 else 0, m)
  {
    if carry {
      ModSum(q, 1, m);
      ModSum(q + 1, k, m);
    } else {
      ModSum(q, k, m);
    }
  }

  /** A wider counter differs only in bits that MD5_Final does not put out. */
  lemma WiderField(q: nat, k: nat)
    requires 0 < k
    ensures FieldBytes(q % (0x1_0000_0000 * k)) == FieldBytes(q % 0x1_0000_0000)
  {
    var m := 0x1_0000_0000 * k;
    var v := q % m;
    var d := q / m;
    var h := v / 0x1_0000_0000;
    var l := v % 0x1_0000_0000;
    assert q == 0x1_0000_0000 * (k * d + h) + l by {
      assert q == m * d + v;
      assert m * d == 0x1_0000_0000 * (k * d);
    }
    Numbers.RemainderOf(q, 0x1_0000_0000, k * d + h, l);
    LowHalf(v, l, h);
  }

  lemma LengthOf(lo: nat, hi: nat, n: nat, width: nat)
    requires 32 <= width && Counts(lo, hi, n, Range(width))
    ensures LengthField(n) == FieldBytes(Wrap(lo * 8, Range(width))) + FieldBytes(hi)
  {
    var k := RangeMultiple(width);
    WiderField(n / 0x2000_0000, k);
    Numbers.RemainderOf(lo * 8, Range(width), 0, lo * 8);
  }

  lemma Joined<T>(s: seq<T>, x: seq<T>, y: seq<T>, z: seq<T>)
    requires |s| == 64 && s[..64] == x + y + z
    ensures s == x + (y + z)
  {
    assert s[..64] == s;
  }

  lemma InitialWords(mask: Wide)
    requires Full(mask)
    ensures LowState(0x67452301, 0xefcdab89, 0x98badcfe, 0x10325476) == INITIAL
    ensures AllWithin(0x67452301, 0xefcdab89, 0x98badcfe, 0x10325476, mask)
  {
  }

  /** The arithmetic of the counters: `& 0x1fffffff` is the remainder, and words wrap at `m`. */
  method Advanced(lo0: nat, hi0: nat, size: nat, m: nat, ghost n: nat) returns (lo: nat, hi: nat)
    requires 0 < m && Counts(lo0, hi0, n, m)
    ensures Counts(lo, hi, n + size, m)
  {
    hi := hi0;
    lo := (lo0 + size) % 0x2000_0000;
    if lo < lo0 {
      hi := Wrap(hi + 1, m);
    }
    hi := Wrap(hi + size / 0x2000_0000, m);
    CountsMore(lo0, hi0, n, size, m, lo, hi);
  }

  // ---------- the context ----------

  class Context {
    /** The number of bits in `MD5_u32plus`. */
    const width: nat
    var lo: nat
    var hi: nat
    var a: Wide
    var b: Wide
    var c: Wide
    var d: Wide
    const buffer: array<Byte>
    const block: array<Wide>
    /** The bytes taken in since MD5_Init. */
    ghost var msg: seq<Byte>

    ghost predicate Shaped()
    {
      buffer.Length == 64 && block.Length == 16 && 32 <= width <= 64
    }

    /** The chaining value: the low 32 bits of the four words. */
    function Chain(): State
      reads this
    {
      LowState(a, b, c, d)
    }

    ghost predicate Fitting()
      requires Shaped()
      reads this
    {
      AllWithin(a, b, c, d, Mask(width))
    }

    ghost predicate Valid()
      reads this, buffer
    {
      && Shaped()
      && Fitting()
      && Counts(lo, hi, |msg|, Range(width))
      && Stands(Chain(), buffer[..], msg)
    }

    constructor (w: nat)
      requires 32 <= w <= 64
      ensures Valid() && msg == [] && width == w && fresh(buffer) && fresh(block)
    {
      width := w;
      buffer := new Byte[64];
      block := new Wide[16];
      new;
      Init();
    }

    /** MD5_Init */
    method Init()
      requires Shaped()
      modifies this
      ensures Valid() && msg == []
    {
      a := 0x67452301;
      b := 0xefcdab89;
      c := 0x98badcfe;
      d := 0x10325476;
      lo := 0;
      hi := 0;
      msg := [];
      MaskFull(width);
      InitialWords(Mask(width));
      Numbers.RemainderOf(0, Range(width), 0, 0);
    }

    /** `body`: one or more whole blocks. */
    method Body(data: seq<Byte>, ghost done: seq<Byte>)
      requires Shaped() && Fitting() && |data| % 64 == 0 && Taken(Chain(), done)
      modifies this`a, this`b, this`c, this`d, block
      ensures Fitting() && Taken(Chain(), done + data)
    {
      MaskFull(width);
      var ptr := 0;
      var a1, b1, c1, d1 := a, b, c, d;
      ghost var start := Chain();
      FoldsNone(start);
      while ptr < |data|
        invariant 0 <= ptr <= |data| && ptr % 64 == 0 && Folds(start, data[..ptr], LowState(a1, b1, c1, d1))
        invariant AllWithin(a1, b1, c1, d1, Mask(width))
        modifies block
      {
        ghost var mid := LowState(a1, b1, c1, d1);
        a1, b1, c1, d1 := Block(data, ptr, block, a1, b1, c1, d1, Mask(width));
        FoldBlock(start, data, ptr, mid, LowState(a1, b1, c1, d1));
        ptr := ptr + 64;
      }
      assert data[..ptr] == data;
      FoldsMore(INITIAL, done, start, data, LowState(a1, b1, c1, d1));
      a, b, c, d := a1, b1, c1, d1;
    }

    /** memcpy into the buffer. */
    method Copy(at: nat, bytes: seq<Byte>)
      requires Shaped() && at + |bytes| <= 64
      modifies buffer
      ensures buffer[..] == old(buffer[..at]) + bytes + old(buffer[at + |bytes|..])
      ensures buffer[..at + |bytes|] == old(buffer[..at]) + bytes
    {
      forall i | at <= i < at + |bytes| {
        buffer[i] := bytes[i - at];
      }
    }

    /** The counters of MD5_Update. */
    method Count(size: nat, ghost n: nat)
      requires 32 <= width && Counts(lo, hi, n, Range(width))
      modifies this`lo, this`hi
      ensures Counts(lo, hi, n + size, Range(width))
    {
      lo, hi := Advanced(lo, hi, size, Range(width), n);
    }

    /** The waiting bytes and `data` fill a block, which is compressed; `rest` of the data remains. */
    method TopUp(used: nat, data: seq<Byte>) returns (rest: seq<Byte>, ghost done: seq<Byte>)
      requires Shaped() && Fitting() && used == |msg| % 64 && 0 < used && 64 - used <= |data|
      requires Stands(Chain(), buffer[..], msg)
      modifies this`a, this`b, this`c, this`d, buffer, block
      ensures Fitting() && Taken(Chain(), done) && done + rest == msg + data
    {
      var free := 64 - used;
      Copy(used, data[..free]);
      rest := data[free..];
      ghost var filled := Rest(msg) + data[..free];
      assert buffer[..] == filled;
      Body(buffer[..], Whole(msg));
      done := Whole(msg) + filled;
      Parts(msg);
      Topped(msg, Whole(msg), Rest(msg), data, free);
    }

    /** The whole blocks of `data` are compressed; fewer than 64 bytes remain. */
    method Bulk(data: seq<Byte>, ghost before: seq<Byte>) returns (rest: seq<Byte>, ghost done: seq<Byte>)
      requires Shaped() && Fitting() && Taken(Chain(), before)
      modifies this`a, this`b, this`c, this`d, block
      ensures Fitting() && |rest| < 64 && Taken(Chain(), done) && done + rest == before + data
    {
      rest, done := data, before;
      if |data| >= 64 {
        var whole := |data| - |data| % 64;
        Body(data[..whole], before);
        rest := data[whole..];
        done := before + data[..whole];
        Topped(before, before, [], data, whole);
      }
    }

    /** The data reaches the end of the waiting block, or no byte waits. */
    method Absorb(used: nat, data: seq<Byte>) returns (ghost done: seq<Byte>, ghost left: seq<Byte>)
      requires Shaped() && Fitting() && used == |msg| % 64 && (used == 0 || 64 - used <= |data|)
      requires Stands(Chain(), buffer[..], msg)
      modifies this`a, this`b, this`c, this`d, buffer, block
      ensures Fitting() && Taken(Chain(), done) && done + left == msg + data
      ensures |left| < 64 && buffer[..|left|] == left
    {
      var rest := data;
      done := Whole(msg);
      if 0 < used {
        rest, done := TopUp(used, data);
      } else {
        Parts(msg);
      }
      rest, done := Bulk(rest, done);
      Copy(0, rest);
      left := rest;
    }

    /** The data does not reach the end of the waiting block. */
    method Append(used: nat, data: seq<Byte>) returns (ghost done: seq<Byte>, ghost left: seq<Byte>)
      requires Shaped() && used == |msg| % 64 && used + |data| < 64 && Stands(Chain(), buffer[..], msg)
      modifies buffer
      ensures Taken(Chain(), done) && done + left == msg + data
      ensures |left| < 64 && buffer[..|left|] == left
    {
      done, left := Whole(msg), Rest(msg) + data;
      Parts(msg);
      Copy(used, data);
    }

    /** MD5_Update */
    method Update(data: seq<Byte>)
      requires Valid()
      modifies this, buffer, block
      ensures Valid() && msg == old(msg) + data
    {
      var used := lo % 64;
      Used(lo, hi, |msg|, Range(width));
      Count(|data|, |msg|);
      ghost var done, left;
      if 0 < used && |data| < 64 - used {
        done, left := Append(used, data);
      } else {
        done, left := Absorb(used, data);
      }
      msg := msg + data;
      Standing(Chain(), buffer[..], msg, done, left);
    }

    /** The block of the end mark is filled with zeros and compressed; the length goes to the next one. */
    method FillMarked(used: nat, ghost front: seq<Byte>, ghost before: seq<Byte>) returns (ghost done: seq<Byte>)
      requires Shaped() && Fitting() && used <= 64 && Taken(Chain(), before)
      requires |front| == used && buffer[..used] == front
      modifies this`a, this`b, this`c, this`d, buffer, block
      ensures Fitting() && Taken(Chain(), done) && done == before + (front + Zeros(64 - used))
    {
      Copy(used, Zeros(64 - used));
      assert buffer[..] == front + Zeros(64 - used);
      Body(buffer[..], before);
      done := before + (front + Zeros(64 - used));
    }

    /** The byte 0x80 follows the waiting bytes. */
    method MarkEnd() returns (used: nat, ghost front: seq<Byte>)
      requires Valid()
      modifies buffer
      ensures used == |front| <= 64 && front == Rest(msg) + [0x80] && buffer[..used] == front
    {
      used := lo % 64;
      Used(lo, hi, |msg|, Range(width));
      Copy(used, [0x80]);
      used := used + 1;
      front := Rest(msg) + [0x80];
    }

    /** When fewer than 8 bytes are free after the end mark, the length goes to another block. */
    method MakeRoom(used0: nat, ghost front0: seq<Byte>) returns (used: nat, ghost done: seq<Byte>, ghost front: seq<Byte>)
      requires Shaped() && Fitting() && Taken(Chain(), Whole(msg))
      requires used0 == |front0| <= 64 && front0 == Rest(msg) + [0x80] && buffer[..used0] == front0
      modifies this`a, this`b, this`c, this`d, buffer, block
      ensures used <= 56 && Fitting() && Taken(Chain(), done)
      ensures buffer[..used] == front && done + (front + Zeros(56 - used) + LengthField(|msg|)) == Padded(msg)
    {
      used, done, front := used0, Whole(msg), front0;
      if 64 - used < 8 {
        PaddedTwo(msg, front);
        done := FillMarked(used, front, done);
        used, front := 0, [];
      } else {
        PaddedOne(msg, front);
      }
    }

    /** The end of the message is marked; `done` and the front of the buffer are all that is not the length. */
    method Mark() returns (used: nat, ghost done: seq<Byte>, ghost front: seq<Byte>)
      requires Valid()
      modifies this`a, this`b, this`c, this`d, buffer, block
      ensures used <= 56 && Fitting() && Taken(Chain(), done)
      ensures buffer[..used] == front && done + (front + Zeros(56 - used) + LengthField(|msg|)) == Padded(msg)
    {
      used, front := MarkEnd();
      used, done, front := MakeRoom(used, front);
    }

    /** Zeros and the length complete the last block. */
    method Close(used: nat)
      requires Shaped() && used <= 56 && Counts(lo, hi, |msg|, Range(width))
      modifies this`lo, buffer
      ensures buffer[..] == old(buffer[..used]) + Zeros(56 - used) + LengthField(|msg|)
    {
      LengthOf(lo, hi, |msg|, width);
      Copy(used, Zeros(56 - used));
      ghost var front := buffer[..56];
      lo := Wrap(lo * 8, Range(width));
      Copy(56, FieldBytes(lo));
      Copy(60, FieldBytes(hi));
      Joined(buffer[..], front, FieldBytes(lo), FieldBytes(hi));
    }

    method Report() returns (result: seq<Byte>)
      ensures result == Output(Chain())
    {
      LowBytes(a);
      LowBytes(b);
      LowBytes(c);
      LowBytes(d);
      result := WideBytes(a) + WideBytes(b) + WideBytes(c) + WideBytes(d);
    }

    /** MD5_Final */
    method Final() returns (result: seq<Byte>)
      requires Valid()
      modifies this, buffer, block
      ensures result == Digest(old(msg))
      ensures Cleared()
    {
      var used, done, front := Mark();
      Close(used);
      Body(buffer[..], done);
      DigestOf(msg, Chain());
      result := Report();
      Clear();
    }

    ghost predicate Cleared()
      reads this, buffer, block
    {
      && lo == 0 && hi == 0 && a == b == c == d == 0
      && (forall i :: 0 <= i < buffer.Length ==> buffer[i] == 0)
      && (forall i :: 0 <= i < block.Length ==> block[i] == 0)
    }

    /** memset over the whole context. */
    method Clear()
      modifies this, buffer, block
      ensures Cleared()
    {
      lo, hi, a, b, c, d := 0, 0, 0, 0, 0, 0;
      forall i | 0 <= i < buffer.Length {
        buffer[i] := 0;
      }
      forall i | 0 <= i < block.Length {
        block[i] := 0;
      }
    }
  }

  // ---------- runs ----------

  function Flat(chunks: seq<seq<Byte>>): seq<Byte> {
    if chunks == [] then [] else Flat(chunks[..|chunks| - 1]) + chunks[|chunks| - 1]
  }

  /**
   * However the message was cut up, and however wide the words, two contexts hold the same chaining value and waiting
   * bytes, and counters that agree with the number of bytes as far as they reach.
   */
  lemma SameMessage(p: Context, q: Context)
    requires p.Valid() && q.Valid() && p.msg == q.msg
    ensures p.Chain() == q.Chain() == Fold(INITIAL, Whole(p.msg))
    ensures p.lo == q.lo && 0x2000_0000 * p.hi + p.lo == |p.msg| % (0x2000_0000 * Range(p.width))
    ensures p.buffer[..p.lo % 64] == q.buffer[..q.lo % 64] == Rest(p.msg)
  {
    Used(p.lo, p.hi, |p.msg|, Range(p.width));
    CountedTogether(p.lo, p.hi, |p.msg|, Range(p.width));
    FoldsIs(INITIAL, Whole(p.msg), p.Chain());
    FoldsIs(INITIAL, Whole(q.msg), q.Chain());
    assert p.buffer[..][..p.lo % 64] == p.buffer[..p.lo % 64];
    assert q.buffer[..][..q.lo % 64] == q.buffer[..q.lo % 64];
  }

  /** With 32-bit words the two contexts hold the same words. */
  lemma SameWords(p: Context, q: Context)
    requires p.Valid() && q.Valid() && p.msg == q.msg && p.width == q.width == 32
    ensures p.a == q.a && p.b == q.b && p.c == q.c && p.d == q.d && p.lo == q.lo && p.hi == q.hi
  {
    SameMessage(p, q);
    NarrowWord(p.a, q.a);
    NarrowWord(p.b, q.b);
    NarrowWord(p.c, q.c);
    NarrowWord(p.d, q.d);
  }

  /** MD5_Init, MD5_Update on each chunk, MD5_Final, on words of any width from 32 to 64 bits. */
  method DigestOfChunks(width: nat, chunks: seq<seq<Byte>>) returns (result: seq<Byte>)
    requires 32 <= width <= 64
    ensures result == Digest(Flat(chunks))
  {
    var ctx := new Context(width);
    var i := 0;
    while i < |chunks|
      invariant 0 <= i <= |chunks|
      invariant ctx.Valid() && fresh(ctx) && fresh(ctx.buffer) && fresh(ctx.block)
      invariant ctx.msg == Flat(chunks[..i])
    {
      ctx.Update(chunks[i]);
      assert chunks[..i + 1][..i] == chunks[..i];
      i := i + 1;
    }
    assert chunks[..i] == chunks;
    result := ctx.Final();
  }
}
