/** What each code of `lpack.c` packs and unpacks, in plain numbers and bytes. */
module LpackBytes {
  import opened Numbers
  import opened LpackSpec

  // ---------- formats of one code ----------

  lemma OneCode(c: char)
    requires c != '\0'
    ensures Codes([c]) == [c]
  {
    assert [c][1..] == [];
    assert Repeated(c, 0) == [];
    assert Repeated(c, 1) == [c];
  }

  lemma TwoCodes(mark: char, c: char)
    requires mark != '\0' && c != '\0' && !IsDigit(c)
    ensures Codes([mark, c]) == [mark, c]
  {
    var f := [mark, c];
    assert f[1..] == [c] && Digits([c]) == 0;
    assert f[1 + Digits(f[1..])..] == [c];
    assert Repeated(mark, 0) == [];
    assert Repeated(mark, 1) == [mark];
    OneCode(c);
  }

  /** With this format, `v` is packed to just these bytes. */
  ghost predicate PacksTo(env: Machine, f: seq<char>, v: Value, bytes: seq<Byte>) {
    var p := PackAll(env, f, [v]);
    p.Packing? && p.out == bytes && p.args == []
  }

  lemma PackOne(env: Machine, c: char, v: Value, b: seq<Byte>, swap: bool, o: seq<Byte>)
    requires TakesValue(c) && Packed(env, swap, c, v) == [b]
    ensures PackCodes(env, [c], Packing(swap, [v], o)) == Packing(swap, [], o + b)
  {
    assert PackCode(env, c, Packing(swap, [v], o)) == Packing(swap, [], o + b);
    assert [c][1..] == [];
  }

  lemma PacksPlain(env: Machine, c: char, v: Value, b: seq<Byte>)
    requires TakesValue(c) && c != '\0' && Packed(env, false, c, v) == [b]
    ensures PacksTo(env, [c], v, b)
  {
    OneCode(c);
    PackOne(env, c, v, b, false, []);
    assert [] + b == b;
  }

  lemma PacksMarked(env: Machine, mark: char, c: char, v: Value, b: seq<Byte>)
    requires IsEndian(mark) && TakesValue(c) && Packed(env, Swaps(env, mark), c, v) == [b]
    ensures PacksTo(env, [mark, c], v, b)
  {
    TwoCodes(mark, c);
    assert [mark, c][1..] == [c];
    PackOne(env, c, v, b, Swaps(env, mark), []);
    assert [] + b == b;
  }

  /** `v` is packed to `low`, lowest byte first, after `<` and to `high` after `>`; without a mark, or after `=`, the
      machine decides. */
  ghost predicate PacksInOrder(env: Machine, c: char, v: Value, low: seq<Byte>, high: seq<Byte>) {
    && PacksTo(env, ['<', c], v, low)
    && PacksTo(env, ['>', c], v, high)
    && PacksTo(env, [c], v, if env.little then low else high)
    && PacksTo(env, ['=', c], v, if env.little then low else high)
  }

  lemma PacksNumber(env: Machine, c: char, v: int, m: nat, low: seq<Byte>, high: seq<Byte>)
    requires IsInteger(c) && m == SizeOf(env, c) && low == ToLittle(Bits(v, m), m) && high == Reversed(low)
    ensures PacksInOrder(env, c, Num(v), low, high)
  {
    MarkOrders(env, '<', v, m);
    MarkOrders(env, '>', v, m);
    MarkOrders(env, '=', v, m);
    PacksMarked(env, '<', c, Num(v), low);
    PacksMarked(env, '>', c, Num(v), high);
    PacksMarked(env, '=', c, Num(v), if env.little then low else high);
    PacksPlain(env, c, Num(v), if env.little then low else high);
  }

  /** The digits of a number in `m` bytes, and the same read from the other end. */
  lemma Laid(v: int, m: nat, low: seq<Byte>, high: seq<Byte>)
    requires |low| == m == |high|
    requires forall k :: 0 <= k < m ==> low[k] as int == v / Pow256(k) % 256 && high[m - 1 - k] == low[k]
    ensures low == ToLittle(Bits(v, m), m) && high == Reversed(low)
  {
    var s := ToLittle(Bits(v, m), m);
    forall k | 0 <= k < m ensures low[k] == s[k] {
      ToLittleDigit(Bits(v, m), m, k);
      BitsDigit(v, m, k);
    }
    forall k | 0 <= k < m ensures high[k] == Reversed(low)[k] {
      ReversedAt(low, k);
      assert high[m - 1 - (m - 1 - k)] == low[m - 1 - k];
    }
  }

  lemma Powers()
    ensures Pow256(0) == 1 && Pow256(1) == 0x100 && Pow256(2) == 0x1_0000 && Pow256(3) == 0x100_0000
    ensures Pow256(4) == 0x1_0000_0000
  {
  }

  // ---------- packing integers ----------

  lemma PackedByte(env: Machine, c: char, v: int)
    requires c == 'c' || c == 'b'
    ensures PacksInOrder(env, c, Num(v), [(v % 0x100) as Byte], [(v % 0x100) as Byte])
  {
    var s := [(v % 0x100) as Byte];
    Powers();
    Laid(v, 1, s, s);
    PacksNumber(env, c, v, 1, s, s);
  }

  lemma PackedShort(env: Machine, c: char, v: int)
    requires c == 'h' || c == 'H'
    ensures var (a, b) := ((v % 0x100) as Byte, (v / 0x100 % 0x100) as Byte);
      PacksInOrder(env, c, Num(v), [a, b], [b, a])
  {
    var (a, b) := ((v % 0x100) as Byte, (v / 0x100 % 0x100) as Byte);
    Powers();
    Laid(v, 2, [a, b], [b, a]);
    PacksNumber(env, c, v, 2, [a, b], [b, a]);
  }

  lemma PackedInt(env: Machine, c: char, v: int)
    requires c == 'i' || c == 'I'
    ensures var (a, b) := ((v % 0x100) as Byte, (v / 0x100 % 0x100) as Byte);
      var (d, e) := ((v / 0x1_0000 % 0x100) as Byte, (v / 0x100_0000 % 0x100) as Byte);
      PacksInOrder(env, c, Num(v), [a, b, d, e], [e, d, b, a])
  {
    var (a, b) := ((v % 0x100) as Byte, (v / 0x100 % 0x100) as Byte);
    var (d, e) := ((v / 0x1_0000 % 0x100) as Byte, (v / 0x100_0000 % 0x100) as Byte);
    Powers();
    Laid(v, 4, [a, b, d, e], [e, d, b, a]);
    PacksNumber(env, c, v, 4, [a, b, d, e], [e, d, b, a]);
  }

  /** `low` are the digits of `v` to the base 256, and `high` the same from the other end. */
  lemma PackedLong(env: Machine, c: char, v: int, low: seq<Byte>, high: seq<Byte>)
    requires c == 'l' || c == 'L'
    requires |low| == env.long == |high|
    requires forall k :: 0 <= k < env.long ==> low[k] as int == v / Pow256(k) % 256 && high[env.long - 1 - k] == low[k]
    ensures PacksInOrder(env, c, Num(v), low, high)
  {
    Laid(v, env.long, low, high);
    PacksNumber(env, c, v, env.long, low, high);
  }

  // ---------- packing strings ----------

  lemma PackedZString(env: Machine, s: seq<Byte>)
    ensures PacksTo(env, ['z'], Str(s), s + [0])
  {
    PacksPlain(env, 'z', Str(s), s + [0]);
  }

  lemma PackedShortString(env: Machine, s: seq<Byte>)
    ensures PacksTo(env, ['p'], Str(s), [(|s| % 0x100) as Byte] + s)
  {
    var l := [(|s| % 0x100) as Byte];
    Powers();
    Laid(|s|, 1, l, l);
    MarkOrders(env, '=', |s|, 1);
    PacksPlain(env, 'p', Str(s), l + s);
  }

  lemma PackedString(env: Machine, s: seq<Byte>)
    ensures var (a, b) := ((|s| % 0x100) as Byte, (|s| / 0x100 % 0x100) as Byte);
      PacksInOrder(env, 'P', Str(s), [a, b] + s, [b, a] + s)
  {
    var (a, b) := ((|s| % 0x100) as Byte, (|s| / 0x100 % 0x100) as Byte);
    Powers();
    Laid(|s|, 2, [a, b], [b, a]);
    MarkOrders(env, '<', |s|, 2);
    MarkOrders(env, '>', |s|, 2);
    MarkOrders(env, '=', |s|, 2);
    PacksMarked(env, '<', 'P', Str(s), [a, b] + s);
    PacksMarked(env, '>', 'P', Str(s), [b, a] + s);
    PacksMarked(env, '=', 'P', Str(s), (if env.little then [a, b] else [b, a]) + s);
    PacksPlain(env, 'P', Str(s), (if env.little then [a, b] else [b, a]) + s);
  }

  // ---------- unpacking ----------

  /** With this format and from byte `i`, counted from 0, just `v` comes out and the position moves to `next`. */
  ghost predicate Yields(env: Machine, f: seq<char>, s: seq<Byte>, i: nat, v: Value, next: nat) {
    var u := UnpackAll(env, f, s, i);
    u.Unpacking? && u.more && u.values == [v] && u.i == next
  }

  /** The subject runs out: no value comes out and the position stays. */
  ghost predicate RunsOut(env: Machine, f: seq<char>, s: seq<Byte>, i: nat) {
    var u := UnpackAll(env, f, s, i);
    u.Unpacking? && !u.more && u.values == [] && u.i == i
  }

  lemma UnpackPlain(env: Machine, c: char, s: seq<Byte>, i: nat)
    requires c != '\0'
    ensures UnpackAll(env, [c], s, i) == UnpackCode(env, c, s, Unpacking(false, i, [], true))
  {
    OneCode(c);
    UnpackLast(env, c, s, Unpacking(false, i, [], true));
  }

  lemma UnpackLast(env: Machine, c: char, s: seq<Byte>, st: Unpacking)
    ensures UnpackCodes(env, [c], s, st) == UnpackCode(env, c, s, st)
  {
    assert [c][1..] == [];
    assert UnpackCodes(env, [], s, UnpackCode(env, c, s, st)) == UnpackCode(env, c, s, st);
  }

  lemma UnpackMarked(env: Machine, mark: char, c: char, s: seq<Byte>, i: nat)
    requires IsEndian(mark) && c != '\0' && !IsDigit(c)
    ensures UnpackAll(env, [mark, c], s, i) == UnpackCode(env, c, s, Unpacking(Swaps(env, mark), i, [], true))
  {
    TwoCodes(mark, c);
    assert [mark, c][1..] == [c];
    UnpackLast(env, c, s, Unpacking(Swaps(env, mark), i, [], true));
  }

  /** The number `low` is read lowest byte first after `<`, and `high` highest byte first after `>`. */
  ghost predicate YieldsInOrder(env: Machine, c: char, s: seq<Byte>, i: nat, low: int, high: int, next: nat) {
    && Yields(env, ['<', c], s, i, Num(low), next)
    && Yields(env, ['>', c], s, i, Num(high), next)
    && Yields(env, [c], s, i, Num(if env.little then low else high), next)
    && Yields(env, ['=', c], s, i, Num(if env.little then low else high), next)
  }

  ghost predicate RunsOutInOrder(env: Machine, c: char, s: seq<Byte>, i: nat) {
    RunsOut(env, ['<', c], s, i) && RunsOut(env, ['>', c], s, i) && RunsOut(env, [c], s, i) && RunsOut(env, ['=', c], s, i)
  }

  /** Reading `m` bytes of which the digits of `low`, or from the other end those of `high`, are known. */
  lemma NumberRead(env: Machine, swap: bool, t: seq<Byte>, m: nat, low: nat, high: nat, signed: bool)
    requires |t| == m && low < Pow256(m) && high < Pow256(m)
    requires t == ToLittle(low, m) && t == Reversed(ToLittle(high, m))
    ensures FromMemory(env, Swapped(swap, t), signed) == Signed(if swap == env.little then high else low, m, signed)
  {
    ReversedTwice(t);
    ReversedTwice(ToLittle(high, m));
    LittleBack(low, m);
    LittleBack(high, m);
  }

  lemma CodeYields(env: Machine, c: char, s: seq<Byte>, i: nat, m: nat, swap: bool, v: int)
    requires IsInteger(c) && m == SizeOf(env, c) && i + m <= |s|
    requires v == FromMemory(env, Swapped(swap, s[i..i + m]), IsSigned(env, c))
    ensures UnpackCode(env, c, s, Unpacking(swap, i, [], true)) == Unpacking(swap, i + m, [Num(v)], true)
  {
  }

  lemma YieldsPlain(env: Machine, c: char, s: seq<Byte>, i: nat, m: nat, v: int)
    requires IsInteger(c) && m == SizeOf(env, c) && i + m <= |s|
    requires v == FromMemory(env, Swapped(false, s[i..i + m]), IsSigned(env, c))
    ensures Yields(env, [c], s, i, Num(v), i + m)
  {
    UnpackPlain(env, c, s, i);
    CodeYields(env, c, s, i, m, false, v);
  }

  lemma YieldsMarked(env: Machine, mark: char, c: char, s: seq<Byte>, i: nat, m: nat, v: int)
    requires IsEndian(mark) && IsInteger(c) && m == SizeOf(env, c) && i + m <= |s|
    requires v == FromMemory(env, Swapped(Swaps(env, mark), s[i..i + m]), IsSigned(env, c))
    ensures Yields(env, [mark, c], s, i, Num(v), i + m)
  {
    UnpackMarked(env, mark, c, s, i);
    CodeYields(env, c, s, i, m, Swaps(env, mark), v);
  }

  lemma YieldsNumber(env: Machine, c: char, s: seq<Byte>, i: nat, m: nat, low: nat, high: nat)
    requires IsInteger(c) && m == SizeOf(env, c) && i + m <= |s|
    requires low < Pow256(m) && high < Pow256(m)
    requires s[i..i + m] == ToLittle(low, m) && s[i..i + m] == Reversed(ToLittle(high, m))
    ensures YieldsInOrder(env, c, s, i, Signed(low, m, IsSigned(env, c)), Signed(high, m, IsSigned(env, c)), i + m)
  {
    var (l, h) := (Signed(low, m, IsSigned(env, c)), Signed(high, m, IsSigned(env, c)));
    var n := if env.little then l else h;
    NumberRead(env, false, s[i..i + m], m, low, high, IsSigned(env, c));
    NumberRead(env, true, s[i..i + m], m, low, high, IsSigned(env, c));
    YieldsPlain(env, c, s, i, m, n);
    YieldsMarked(env, '<', c, s, i, m, l);
    YieldsMarked(env, '>', c, s, i, m, h);
    YieldsMarked(env, '=', c, s, i, m, n);
  }

  lemma YieldsSigned(env: Machine, c: char, signed: bool, s: seq<Byte>, i: nat, m: nat, t: seq<Byte>, low: nat, high: nat)
    requires IsInteger(c) && m == SizeOf(env, c) && signed == IsSigned(env, c) && i + m <= |s| && t == s[i..i + m]
    requires low < Pow256(m) && high < Pow256(m) && t == ToLittle(low, m) && t == Reversed(ToLittle(high, m))
    ensures YieldsInOrder(env, c, s, i, Signed(low, m, signed), Signed(high, m, signed), i + m)
  {
    YieldsNumber(env, c, s, i, m, low, high);
  }

  lemma CodeRunsOut(env: Machine, c: char, s: seq<Byte>, i: nat, swap: bool)
    requires IsInteger(c) && i + SizeOf(env, c) > |s|
    ensures UnpackCode(env, c, s, Unpacking(swap, i, [], true)) == Unpacking(swap, i, [], false)
  {
  }

  lemma RunsOutNumber(env: Machine, c: char, s: seq<Byte>, i: nat)
    requires IsInteger(c) && i + SizeOf(env, c) > |s|
    ensures RunsOutInOrder(env, c, s, i)
  {
    UnpackPlain(env, c, s, i);
    UnpackMarked(env, '<', c, s, i);
    UnpackMarked(env, '>', c, s, i);
    UnpackMarked(env, '=', c, s, i);
    CodeRunsOut(env, c, s, i, false);
    CodeRunsOut(env, c, s, i, true);
  }

  /** Fewer bytes are left than the code takes. */
  lemma TooShort(env: Machine, c: char, s: seq<Byte>, i: nat)
    requires
      || ((c == 'b' || c == 'c') && i + 1 > |s|)
      || ((c == 'h' || c == 'H') && i + 2 > |s|)
      || ((c == 'i' || c == 'I') && i + 4 > |s|)
      || ((c == 'l' || c == 'L') && i + env.long > |s|)
    ensures RunsOutInOrder(env, c, s, i)
  {
    RunsOutNumber(env, c, s, i);
  }

  lemma OneByte(x: Byte)
    ensures x as int < Pow256(1) && ToLittle(x as int, 1) == [x] == Reversed([x])
    ensures Signed(x as int, 1, false) == x as int
    ensures Signed(x as int, 1, true) == if x >= 128 then x as int - 0x100 else x as int
  {
    assert [x][1..] == [];
  }

  lemma UnpackedByte(env: Machine, s: seq<Byte>, i: nat)
    requires i + 1 <= |s|
    ensures Yields(env, ['b'], s, i, Num(s[i] as int), i + 1)
    ensures Yields(env, ['c'], s, i, Num(if env.signedChar && s[i] >= 128 then s[i] as int - 0x100 else s[i] as int), i + 1)
  {
    var x := s[i];
    OneByte(x);
    assert s[i..i + 1] == [x];
    YieldsNumber(env, 'b', s, i, 1, x as int, x as int);
    YieldsNumber(env, 'c', s, i, 1, x as int, x as int);
  }

  lemma TwoReversed(x: Byte, y: Byte)
    ensures Reversed([x, y]) == [y, x]
  {
    assert [x, y][1..] == [y] && [y][1..] == [];
  }

  lemma TwoBytes(x: Byte, y: Byte, u: int)
    requires u == x as int + 0x100 * (y as int)
    ensures 0 <= u < Pow256(2) && ToLittle(u, 2) == [x, y] && Reversed(ToLittle(u, 2)) == [y, x]
    ensures Signed(u, 2, false) == u
    ensures Signed(u, 2, true) == if y >= 128 then u - 0x1_0000 else u
  {
    Powers();
    TwoReversed(x, y);
    assert u % 256 == x as int && u / 256 == y as int;
    assert ToLittle(u / 256, 1) == [y];
  }

  lemma UnpackedShort(env: Machine, s: seq<Byte>, i: nat, low: int, high: int)
    requires i + 2 <= |s|
    requires low == s[i] as int + 0x100 * (s[i + 1] as int) && high == s[i + 1] as int + 0x100 * (s[i] as int)
    ensures YieldsInOrder(env, 'H', s, i, low, high, i + 2)
    ensures YieldsInOrder(env, 'h', s, i, if s[i + 1] >= 128 then low - 0x1_0000 else low,
              if s[i] >= 128 then high - 0x1_0000 else high, i + 2)
  {
    TwoBytes(s[i], s[i + 1], low);
    TwoBytes(s[i + 1], s[i], high);
    assert s[i..i + 2] == [s[i], s[i + 1]];
    YieldsSigned(env, 'H', false, s, i, 2, s[i..i + 2], low, high);
    YieldsSigned(env, 'h', true, s, i, 2, s[i..i + 2], low, high);
  }

  lemma FourReversed(a: Byte, b: Byte, c: Byte, d: Byte)
    ensures Reversed([a, b, c, d]) == [d, c, b, a]
  {
    assert [a, b, c, d][1..] == [b, c, d] && [b, c, d][1..] == [c, d];
    TwoReversed(c, d);
  }

  lemma FourBytes(a: Byte, b: Byte, c: Byte, d: Byte, u: int)
    requires u == a as int + 0x100 * (b as int) + 0x1_0000 * (c as int) + 0x100_0000 * (d as int)
    ensures 0 <= u < Pow256(4) && ToLittle(u, 4) == [a, b, c, d] && Reversed(ToLittle(u, 4)) == [d, c, b, a]
    ensures Signed(u, 4, false) == u
    ensures Signed(u, 4, true) == if d >= 128 then u - 0x1_0000_0000 else u
  {
    Powers();
    FourReversed(a, b, c, d);
    var v := b as int + 0x100 * (c as int) + 0x1_0000 * (d as int);
    var w := c as int + 0x100 * (d as int);
    assert u % 256 == a as int && u / 256 == v;
    assert v % 256 == b as int && v / 256 == w;
    TwoBytes(c, d, w);
    assert ToLittle(v, 3) == [b] + [c, d];
  }

  lemma UnpackedInt(env: Machine, s: seq<Byte>, i: nat, low: int, high: int)
    requires i + 4 <= |s|
    requires low == s[i] as int + 0x100 * (s[i + 1] as int) + 0x1_0000 * (s[i + 2] as int) + 0x100_0000 * (s[i + 3] as int)
    requires high == s[i + 3] as int + 0x100 * (s[i + 2] as int) + 0x1_0000 * (s[i + 1] as int) + 0x100_0000 * (s[i] as int)
    ensures YieldsInOrder(env, 'I', s, i, low, high, i + 4)
    ensures YieldsInOrder(env, 'i', s, i, if s[i + 3] >= 128 then low - 0x1_0000_0000 else low,
              if s[i] >= 128 then high - 0x1_0000_0000 else high, i + 4)
  {
    FourBytes(s[i], s[i + 1], s[i + 2], s[i + 3], low);
    FourBytes(s[i + 3], s[i + 2], s[i + 1], s[i], high);
    assert s[i..i + 4] == [s[i], s[i + 1], s[i + 2], s[i + 3]];
    YieldsSigned(env, 'I', false, s, i, 4, s[i..i + 4], low, high);
    YieldsSigned(env, 'i', true, s, i, 4, s[i..i + 4], low, high);
  }

  ghost predicate DigitAt(t: seq<Byte>, u: nat, k: nat)
    requires k < |t|
  {
    t[k] as int == u / Pow256(k) % 256
  }

  /** The bytes are the digits of the number to the base 256, the lowest first. */
  ghost predicate DigitsOf(t: seq<Byte>, u: nat) {
    u < Pow256(|t|) && forall k {:trigger DigitAt(t, u, k)} :: 0 <= k < |t| ==> DigitAt(t, u, k)
  }

  /** Bytes that are the digits of a number are its layout. */
  lemma DigitsLaid(t: seq<Byte>, u: nat)
    requires DigitsOf(t, u)
    ensures t == ToLittle(u, |t|)
  {
    forall k | 0 <= k < |t| ensures t[k] == ToLittle(u, |t|)[k] {
      assert DigitAt(t, u, k);
      ToLittleDigit(u, |t|, k);
    }
  }

  lemma TimesGrow(p: nat, q: nat, n: nat)
    requires q >= n
    ensures p * q >= p * n
  {
    var d := q - n;
    assert p * (n + d) == p * n + p * d;
  }

  lemma TimesUnder(p: nat, q: nat, n: nat)
    requires q < n
    ensures p * q + p <= p * n
  {
    TimesGrow(p, n, q + 1);
    assert p * (q + 1) == p * q + p;
  }

  lemma TopDigit(u: nat, m: nat)
    requires 0 < m && u < Pow256(m)
    ensures 2 * u >= Pow256(m) <==> u / Pow256(m - 1) % 256 >= 128
  {
    var p := Pow256(m - 1);
    var q := u / p;
    assert p * q <= u < p * q + p;
    if q >= 256 {
      TimesGrow(p, q, 256);
    }
    if q >= 128 {
      TimesGrow(p, q, 128);
    } else {
      TimesUnder(p, q, 128);
    }
  }

  lemma LongSigned(t: seq<Byte>, u: nat)
    requires t != [] && DigitsOf(t, u)
    ensures Signed(u, |t|, true) == if t[|t| - 1] >= 128 then u - Pow256(|t|) else u
  {
    assert DigitAt(t, u, |t| - 1);
    TopDigit(u, |t|);
  }

  lemma LongRead(t: seq<Byte>, low: nat, high: nat, last: Byte, first: Byte)
    requires t != [] && DigitsOf(t, low) && DigitsOf(Reversed(t), high) && last == t[|t| - 1] && first == t[0]
    ensures t == ToLittle(low, |t|) && t == Reversed(ToLittle(high, |t|))
    ensures Signed(low, |t|, false) == low && Signed(high, |t|, false) == high
    ensures Signed(low, |t|, true) == if last >= 128 then low - Pow256(|t|) else low
    ensures Signed(high, |t|, true) == if first >= 128 then high - Pow256(|t|) else high
  {
    DigitsLaid(t, low);
    DigitsLaid(Reversed(t), high);
    ReversedTwice(t);
    LongSigned(t, low);
    LongSigned(Reversed(t), high);
    ReversedAt(t, |t| - 1);
  }

  /** `low` and `high` are the numbers whose digits the bytes are from either end. */
  lemma UnpackedUnsignedLong(env: Machine, s: seq<Byte>, i: nat, t: seq<Byte>, low: nat, high: nat)
    requires t != [] && env.long == |t| && i + |t| <= |s| && t == s[i..i + |t|]
    requires DigitsOf(t, low) && DigitsOf(Reversed(t), high)
    ensures YieldsInOrder(env, 'L', s, i, low, high, i + |t|)
  {
    LongRead(t, low, high, t[|t| - 1], t[0]);
    YieldsSigned(env, 'L', false, s, i, |t|, t, low, high);
  }

  /** The signed code takes the range off where the highest byte is 128 or more. */
  lemma UnpackedLong(env: Machine, s: seq<Byte>, i: nat, t: seq<Byte>, low: nat, high: nat, lowSigned: int, highSigned: int)
    requires t != [] && env.long == |t| && i + |t| <= |s| && t == s[i..i + |t|]
    requires DigitsOf(t, low) && DigitsOf(Reversed(t), high)
    requires lowSigned == if t[|t| - 1] >= 128 then low - Pow256(|t|) else low
    requires highSigned == if t[0] >= 128 then high - Pow256(|t|) else high
    ensures YieldsInOrder(env, 'l', s, i, lowSigned, highSigned, i + |t|)
  {
    LongRead(t, low, high, t[|t| - 1], t[0]);
    YieldsSigned(env, 'l', true, s, i, |t|, t, low, high);
  }

  /** Any bytes are the digits of some number. */
  lemma {:induction false} DigitsExist(t: seq<Byte>) returns (u: nat)
    ensures DigitsOf(t, u)
    decreases |t|
  {
    if t == [] {
      u := 0;
    } else {
      var w := DigitsExist(t[1..]);
      u := t[0] as int + 256 * w;
      assert u / 256 == w;
      forall k | 0 <= k < |t| ensures DigitAt(t, u, k) {
        if k == 0 {
        } else {
          OneUp(u, w, k);
          assert DigitAt(t[1..], w, k - 1) && t[k] == t[1..][k - 1];
        }
      }
    }
  }

  lemma OneUp(u: nat, w: nat, k: nat)
    requires 0 < k && w == u / 256
    ensures u / Pow256(k) == w / Pow256(k - 1)
  {
    DivDiv(u, Pow256(k - 1));
  }

  // ---------- unpacking strings ----------

  lemma UnpackedZString(env: Machine, s: seq<Byte>, i: nat, l: nat)
    requires i < |s| && i + l <= |s| && (i + l == |s| || s[i + l] == 0) && forall k :: i <= k < i + l ==> s[k] != 0
    ensures Yields(env, ['z'], s, i, Str(s[i..i + l]), i + l + 1)
  {
    UnpackPlain(env, 'z', s, i);
    var t := s[i..];
    assert forall k :: 0 <= k < l ==> t[k] == s[i + k];
    assert i + l < |s| ==> t[l] == s[i + l];
    assert StrLen(t) == l;
  }

  lemma UnpackedShortString(env: Machine, s: seq<Byte>, i: nat)
    requires i < |s| && i + 1 + s[i] as int <= |s|
    ensures var l := s[i] as int; Yields(env, ['p'], s, i, Str(s[i + 1..i + 1 + l]), i + 1 + l)
  {
    UnpackPlain(env, 'p', s, i);
    OneByte(s[i]);
    assert s[i..i + 1] == [s[i]];
    NumberRead(env, false, s[i..i + 1], 1, s[i] as int, s[i] as int, false);
    UnpackText(env, 'p', s, Unpacking(false, i, [], true), s[i] as int);
    assert [] + [Str(s[i + 1..i + 1 + s[i] as int])] == [Str(s[i + 1..i + 1 + s[i] as int])];
  }

  lemma StringYields(env: Machine, f: seq<char>, s: seq<Byte>, i: nat, swap: bool, l: nat)
    requires UnpackAll(env, f, s, i) == UnpackCode(env, 'P', s, Unpacking(swap, i, [], true))
    requires i + 2 + l <= |s| && l == FromMemory(env, Swapped(swap, s[i..i + 2]), false)
    ensures Yields(env, f, s, i, Str(s[i + 2..i + 2 + l]), i + 2 + l)
  {
    UnpackText(env, 'P', s, Unpacking(swap, i, [], true), l);
    assert [] + [Str(s[i + 2..i + 2 + l])] == [Str(s[i + 2..i + 2 + l])];
  }

  /** The length before a `P` string, lowest byte first or highest byte first. */
  lemma UnpackedString(env: Machine, s: seq<Byte>, i: nat, low: int, high: int)
    requires i + 2 <= |s|
    requires low == s[i] as int + 0x100 * (s[i + 1] as int) && high == s[i + 1] as int + 0x100 * (s[i] as int)
    ensures i + 2 + low <= |s| ==> Yields(env, ['<', 'P'], s, i, Str(s[i + 2..i + 2 + low]), i + 2 + low)
    ensures i + 2 + high <= |s| ==> Yields(env, ['>', 'P'], s, i, Str(s[i + 2..i + 2 + high]), i + 2 + high)
    ensures env.little && i + 2 + low <= |s| ==> Yields(env, ['P'], s, i, Str(s[i + 2..i + 2 + low]), i + 2 + low)
    ensures !env.little && i + 2 + high <= |s| ==> Yields(env, ['P'], s, i, Str(s[i + 2..i + 2 + high]), i + 2 + high)
  {
    TwoBytes(s[i], s[i + 1], low);
    TwoBytes(s[i + 1], s[i], high);
    assert s[i..i + 2] == [s[i], s[i + 1]];
    NumberRead(env, false, s[i..i + 2], 2, low, high, false);
    NumberRead(env, true, s[i..i + 2], 2, low, high, false);
    UnpackPlain(env, 'P', s, i);
    UnpackMarked(env, '<', 'P', s, i);
    UnpackMarked(env, '>', 'P', s, i);
    if i + 2 + low <= |s| {
      StringYields(env, ['<', 'P'], s, i, Swaps(env, '<'), low);
      if env.little {
        StringYields(env, ['P'], s, i, false, low);
      }
    }
    if i + 2 + high <= |s| {
      StringYields(env, ['>', 'P'], s, i, Swaps(env, '>'), high);
      if !env.little {
        StringYields(env, ['P'], s, i, false, high);
      }
    }
  }
}
