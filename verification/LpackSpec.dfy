/** What `lpack.c` packs and unpacks, code by code, and why the one undoes the other. */
module LpackSpec {
  import opened Numbers

  datatype Value = Num(v: int) | Str(s: seq<Byte>)

  /** What the C compiler decides: byte order, the size of long, and whether plain char is signed. */
  datatype Machine = Machine(little: bool, long: nat, signedChar: bool)

  // ---------- integers in memory ----------

  function Pow256(m: nat): (p: nat)
    ensures 0 < p
  {
    if m == 0 then 1 else 256 * Pow256(m - 1)
  }

  /** `u` in `m` bytes, low-order byte first. */
  function ToLittle(u: nat, m: nat): (s: seq<Byte>)
    ensures |s| == m
  {
    if m == 0 then [] else [(u % 256) as Byte] + ToLittle(u / 256, m - 1)
  }

  function FromLittle(s: seq<Byte>): nat {
    if s == [] then 0 else s[0] as nat + 256 * FromLittle(s[1..])
  }

  function Reversed<T>(s: seq<T>): (r: seq<T>)
    ensures |r| == |s|
  {
    if s == [] then [] else Reversed(s[1..]) + [s[0]]
  }

  /** A signed or unsigned integer of `m` bytes as the unsigned number with the same bits. */
  function Bits(v: int, m: nat): nat { v % Pow256(m) }

  function Signed(u: nat, m: nat, signed: bool): int {
    if signed && 2 * u >= Pow256(m) then u - Pow256(m) else u
  }

  function InMemory(env: Machine, v: int, m: nat): (s: seq<Byte>)
    ensures |s| == m
  {
    if env.little then ToLittle(Bits(v, m), m) else Reversed(ToLittle(Bits(v, m), m))
  }

  function FromMemory(env: Machine, s: seq<Byte>, signed: bool): (v: int)
    ensures signed || 0 <= v
  {
    Signed(FromLittle(if env.little then s else Reversed(s)), |s|, signed)
  }

  function Swapped(swap: bool, s: seq<Byte>): (r: seq<Byte>)
    ensures |r| == |s|
  {
    if swap then Reversed(s) else s
  }

  ghost predicate InRange(v: int, m: nat, signed: bool) {
    if signed then 0 <= 2 * v + Pow256(m) < 2 * Pow256(m) else 0 <= v < Pow256(m)
  }

  lemma {:induction false} LittleBack(u: nat, m: nat)
    requires u < Pow256(m)
    ensures FromLittle(ToLittle(u, m)) == u
    decreases m
  {
    if m == 0 {
    } else {
      LittleBack(u / 256, m - 1);
      assert ToLittle(u, m)[1..] == ToLittle(u / 256, m - 1);
    }
  }

  lemma {:induction false} ReversedAppend<T>(s: seq<T>, x: T)
    ensures Reversed(s + [x]) == [x] + Reversed(s)
    decreases |s|
  {
    if s == [] {
    } else {
      assert (s + [x])[1..] == s[1..] + [x];
      ReversedAppend(s[1..], x);
    }
  }

  lemma {:induction false} ReversedTwice<T>(s: seq<T>)
    ensures Reversed(Reversed(s)) == s
    decreases |s|
  {
    if s == [] {
    } else {
      ReversedTwice(s[1..]);
      ReversedAppend(Reversed(s[1..]), s[0]);
    }
  }

  lemma {:induction false} ReversedAt<T>(s: seq<T>, k: nat)
    requires k < |s|
    ensures Reversed(s)[k] == s[|s| - 1 - k]
    decreases |s|
  {
    if k == |s| - 1 {
    } else {
      ReversedAt(s[1..], k);
    }
  }

  lemma SignedBack(v: int, m: nat, signed: bool)
    requires InRange(v, m, signed)
    ensures Bits(v, m) < Pow256(m) && Signed(Bits(v, m), m, signed) == v
  {
    var p := Pow256(m);
    if v < 0 {
      assert v + p == v % p by {
        ModNegative(v, p);
      }
    } else {
      assert v % p == v by {
        ModSmall(v, p);
      }
    }
  }

  lemma ModSmall(v: int, p: nat)
    requires 0 <= v < p
    ensures v % p == v
  {
  }

  lemma ModNegative(v: int, p: nat)
    requires 0 <= v + p < p
    ensures v % p == v + p
  {
  }

  /** An integer survives the trip through memory, whatever the byte orders. */
  lemma NumberBack(env: Machine, swap: bool, v: int, m: nat, signed: bool)
    requires InRange(v, m, signed)
    ensures FromMemory(env, Swapped(swap, Swapped(swap, InMemory(env, v, m))), signed) == v
  {
    SignedBack(v, m, signed);
    LittleBack(Bits(v, m), m);
    ReversedTwice(InMemory(env, v, m));
    ReversedTwice(ToLittle(Bits(v, m), m));
  }

  // ---------- the codes ----------

  predicate IsEndian(c: char) { c == '<' || c == '>' || c == '=' }

  predicate IsSeparator(c: char) { c == ' ' || c == ',' }

  predicate IsInteger(c: char) {
    c == 'c' || c == 'b' || c == 'h' || c == 'H' || c == 'i' || c == 'I' || c == 'l' || c == 'L'
  }

  predicate IsPrefixed(c: char) { c == 'p' || c == 'P' }

  /** The codes that this model leaves out: sized and plain strings, and floating point. */
  predicate IsLeftOut(c: char) { c == 'a' || c == 'A' || c == 'f' || c == 'd' || c == 'n' }

  predicate TakesValue(c: char) { c == 'z' || IsPrefixed(c) || IsInteger(c) }

  function SizeOf(env: Machine, c: char): nat {
    if c == 'h' || c == 'H' then 2
    else if c == 'i' || c == 'I' then 4
    else if c == 'l' || c == 'L' then env.long
    else 1
  }

  predicate IsSigned(env: Machine, c: char) {
    c == 'h' || c == 'i' || c == 'l' || (c == 'c' && env.signedChar)
  }

  /** The size of the length that stands before a `p` or `P` string. */
  function PrefixSize(c: char): nat { if c == 'P' then 2 else 1 }

  function Swaps(env: Machine, c: char): bool {
    if c == '<' then !env.little else if c == '>' then env.little else false
  }

  // ---------- the format string ----------

  predicate IsDigit(c: char) { '0' <= c <= '9' }

  function Digits(f: seq<char>): (n: nat)
    ensures n <= |f|
    ensures n == |f| || !IsDigit(f[n])
    ensures forall k :: 0 <= k < n ==> IsDigit(f[k])
  {
    if f == [] || !IsDigit(f[0]) then 0 else 1 + Digits(f[1..])
  }

  function Decimal(f: seq<char>): nat
    requires forall k :: 0 <= k < |f| ==> IsDigit(f[k])
  {
    if f == [] then 0
    else
      assert IsDigit(f[|f| - 1]);
      10 * Decimal(f[..|f| - 1]) + (f[|f| - 1] as int - '0' as int)
  }

  /** The repeat count after a code: 1 when none is written. */
  function Count(f: seq<char>): nat {
    if Digits(f) == 0 then 1 else Decimal(f[..Digits(f)])
  }

  function Repeated(c: char, n: nat): seq<char> {
    if n == 0 then [] else if IsEndian(c) then [c] else [c] + Repeated(c, n - 1)
  }

  /** The codes that a format carries out, one after another; like every C string it ends at its first NUL. */
  function Codes(f: seq<char>): seq<char>
    decreases |f|
  {
    if f == [] || f[0] == '\0' then []
    else Repeated(f[0], Count(f[1..])) + Codes(f[1 + Digits(f[1..])..])
  }

  // ---------- packing ----------

  datatype Packing = Packing(swap: bool, args: seq<Value>, out: seq<Byte>) | PackFailed

  /** What a value adds to the buffer; no bytes at all when it is of the wrong kind. */
  function Packed(env: Machine, swap: bool, c: char, v: Value): (r: seq<seq<Byte>>) {
    if c == 'z' && v.Str? then [v.s + [0]]
    else if IsPrefixed(c) && v.Str? then [Swapped(swap, InMemory(env, |v.s|, PrefixSize(c))) + v.s]
    else if IsInteger(c) && v.Num? then [Swapped(swap, InMemory(env, v.v, SizeOf(env, c)))]
    else []
  }

  function PackCode(env: Machine, c: char, st: Packing): Packing {
    if st.PackFailed? then PackFailed
    else if IsEndian(c) then st.(swap := Swaps(env, c))
    else if IsSeparator(c) then st
    else if st.args != [] && Packed(env, st.swap, c, st.args[0]) != [] then
      Packing(st.swap, st.args[1..], st.out + Packed(env, st.swap, c, st.args[0])[0])
    else PackFailed
  }

  function PackCodes(env: Machine, codes: seq<char>, st: Packing): Packing {
    if codes == [] then st else PackCodes(env, codes[1..], PackCode(env, codes[0], st))
  }

  function PackAll(env: Machine, f: seq<char>, args: seq<Value>): Packing {
    PackCodes(env, Codes(f), Packing(false, args, []))
  }

  // ---------- unpacking ----------

  /** `more` is false once the subject has run out. */
  datatype Unpacking = Unpacking(swap: bool, i: nat, values: seq<Value>, more: bool) | UnpackFailed

  /** strlen: the bytes before the first zero, or before the zero that ends the subject. */
  function StrLen(s: seq<Byte>): (l: nat)
    ensures l <= |s| && (l == |s| || s[l] == 0) && forall k :: 0 <= k < l ==> s[k] != 0
  {
    if s == [] || s[0] == 0 then 0 else 1 + StrLen(s[1..])
  }

  function UnpackCode(env: Machine, c: char, s: seq<Byte>, st: Unpacking): Unpacking {
    if st.UnpackFailed? || !st.more then st
    else if IsEndian(c) then st.(swap := Swaps(env, c))
    else if IsSeparator(c) then st
    else if c == 'z' then
      if st.i >= |s| then st.(more := false)
      else
        var l := StrLen(s[st.i..]);
        st.(i := st.i + l + 1, values := st.values + [Str(s[st.i..st.i + l])])
    else if IsPrefixed(c) then
      var m := PrefixSize(c);
      if st.i + m > |s| then st.(more := false)
      else
        var l := FromMemory(env, Swapped(st.swap, s[st.i..st.i + m]), false);
        if st.i + m + l > |s| then st.(more := false)
        else st.(i := st.i + m + l, values := st.values + [Str(s[st.i + m..st.i + m + l])])
    else if IsInteger(c) then
      var m := SizeOf(env, c);
      if st.i + m > |s| then st.(more := false)
      else
        var v := FromMemory(env, Swapped(st.swap, s[st.i..st.i + m]), IsSigned(env, c));
        st.(i := st.i + m, values := st.values + [Num(v)])
    else UnpackFailed
  }

  function UnpackCodes(env: Machine, codes: seq<char>, s: seq<Byte>, st: Unpacking): Unpacking {
    if codes == [] then st else UnpackCodes(env, codes[1..], s, UnpackCode(env, codes[0], s, st))
  }

  /** From byte `i`, counted from 0. */
  function UnpackAll(env: Machine, f: seq<char>, s: seq<Byte>, i: nat): Unpacking {
    UnpackCodes(env, Codes(f), s, Unpacking(false, i, [], true))
  }

  // ---------- unpack undoes pack ----------

  /** The value can be told from the bytes that the code packs it into. */
  ghost predicate Fits(env: Machine, c: char, v: Value) {
    if c == 'z' then v.Str? && forall k :: 0 <= k < |v.s| ==> v.s[k] != 0
    else if IsPrefixed(c) then v.Str? && |v.s| < Pow256(PrefixSize(c))
    else IsInteger(c) && v.Num? && InRange(v.v, SizeOf(env, c), IsSigned(env, c))
  }

  /** How many values the codes consume. */
  function Taken(codes: seq<char>): nat {
    if codes == [] then 0 else (if TakesValue(codes[0]) then 1 else 0) + Taken(codes[1..])
  }

  /** Every code is known and has a value that fits it. */
  ghost predicate AllFit(env: Machine, codes: seq<char>, args: seq<Value>) {
    codes == []
    || (if TakesValue(codes[0]) then args != [] && Fits(env, codes[0], args[0]) && AllFit(env, codes[1..], args[1..])
        else (IsEndian(codes[0]) || IsSeparator(codes[0])) && AllFit(env, codes[1..], args))
  }

  /** Every number that is packed before the end or the first error is in the range of its type, as the C cast demands. */
  ghost predicate Castable(env: Machine, codes: seq<char>, args: seq<Value>) {
    if codes == [] then true
    else if IsEndian(codes[0]) || IsSeparator(codes[0]) then Castable(env, codes[1..], args)
    else if args == [] || Packed(env, false, codes[0], args[0]) == [] then true
    else
      && (IsInteger(codes[0]) ==> InRange(args[0].v, SizeOf(env, codes[0]), IsSigned(env, codes[0])))
      && Castable(env, codes[1..], args[1..])
  }

  lemma {:induction false} FittingCasts(env: Machine, codes: seq<char>, args: seq<Value>)
    requires AllFit(env, codes, args)
    ensures Castable(env, codes, args)
    decreases |codes|
  {
    if codes == [] {
    } else {
      FittingCasts(env, codes[1..], if TakesValue(codes[0]) then args[1..] else args);
    }
  }

  /** `s` goes on at `i` with the bytes of `piece`. */
  ghost predicate Holds(s: seq<Byte>, i: nat, piece: seq<Byte>) {
    i + |piece| <= |s| && s[i..i + |piece|] == piece
  }

  lemma StrLenOf(s: seq<Byte>, a: seq<Byte>)
    requires Holds(s, 0, a + [0]) && forall k :: 0 <= k < |a| ==> a[k] != 0
    ensures StrLen(s) == |a|
  {
    assert s[|a|] == (a + [0])[|a|];
    forall k | 0 <= k < |a| ensures s[k] != 0 {
      assert s[k] == (a + [0])[k];
    }
  }

  lemma ZStringBack(env: Machine, s: seq<Byte>, a: seq<Byte>, st: Unpacking)
    requires st.Unpacking? && st.more && Holds(s, st.i, a + [0]) && Fits(env, 'z', Str(a))
    ensures UnpackCode(env, 'z', s, st) == st.(i := st.i + |a| + 1, values := st.values + [Str(a)])
  {
    assert s[st.i..][..|a| + 1] == s[st.i..st.i + |a| + 1];
    StrLenOf(s[st.i..], a);
    assert s[st.i..st.i + |a|] == s[st.i..st.i + |a| + 1][..|a|];
  }

  lemma SliceOfSlice(s: seq<Byte>, i: nat, k: nat, n: nat)
    requires k <= n && i + n <= |s|
    ensures s[i..i + n][..k] == s[i..i + k] && s[i..i + n][k..] == s[i + k..i + n]
  {
  }

  lemma HeadAndTail(s: seq<Byte>, i: nat, head: seq<Byte>, a: seq<Byte>)
    requires Holds(s, i, head + a)
    ensures s[i..i + |head|] == head && s[i + |head|..i + |head| + |a|] == a
  {
    SliceOfSlice(s, i, |head|, |head| + |a|);
    assert (head + a)[..|head|] == head && (head + a)[|head|..] == a;
  }

  /** The step for `p` and `P`, once the length has been read and found to be there. */
  lemma UnpackText(env: Machine, c: char, s: seq<Byte>, st: Unpacking, l: nat)
    requires st.Unpacking? && st.more && IsPrefixed(c)
    requires var m := PrefixSize(c);
      st.i + m + l <= |s| && l == FromMemory(env, Swapped(st.swap, s[st.i..st.i + m]), false)
    ensures var m := PrefixSize(c);
      UnpackCode(env, c, s, st) == st.(i := st.i + m + l, values := st.values + [Str(s[st.i + m..st.i + m + l])])
  {
  }

  /** A prefixed string is read back up to its length modulo the range of the prefix. */
  lemma PrefixedRead(env: Machine, c: char, s: seq<Byte>, a: seq<Byte>, st: Unpacking, l: nat)
    requires st.Unpacking? && st.more && IsPrefixed(c)
    requires Holds(s, st.i, Swapped(st.swap, InMemory(env, |a|, PrefixSize(c))) + a)
    requires l == |a| % Pow256(PrefixSize(c)) && l <= |a|
    ensures UnpackCode(env, c, s, st) == st.(i := st.i + PrefixSize(c) + l, values := st.values + [Str(a[..l])])
  {
    var m := PrefixSize(c);
    HeadAndTail(s, st.i, Swapped(st.swap, InMemory(env, |a|, m)), a);
    WrappedLength(env, st.swap, |a|, m);
    SliceOfSlice(s, st.i + m, l, |a|);
    UnpackText(env, c, s, st, l);
  }

  lemma PrefixedBack(env: Machine, c: char, s: seq<Byte>, a: seq<Byte>, st: Unpacking)
    requires st.Unpacking? && st.more && IsPrefixed(c) && Fits(env, c, Str(a))
    requires Holds(s, st.i, Swapped(st.swap, InMemory(env, |a|, PrefixSize(c))) + a)
    ensures UnpackCode(env, c, s, st) == st.(i := st.i + PrefixSize(c) + |a|, values := st.values + [Str(a)])
  {
    ModSmall(|a|, Pow256(PrefixSize(c)));
    PrefixedRead(env, c, s, a, st, |a|);
    assert a[..|a|] == a;
  }

  lemma IntegerBack(env: Machine, c: char, s: seq<Byte>, v: int, st: Unpacking)
    requires st.Unpacking? && st.more && IsInteger(c) && Fits(env, c, Num(v))
    requires Holds(s, st.i, Swapped(st.swap, InMemory(env, v, SizeOf(env, c))))
    ensures UnpackCode(env, c, s, st) == st.(i := st.i + SizeOf(env, c), values := st.values + [Num(v)])
  {
    NumberBack(env, st.swap, v, SizeOf(env, c), IsSigned(env, c));
  }

  /** A `z` string comes back exactly when it holds no zero byte. */
  lemma ZStringBackExactly(env: Machine, s: seq<Byte>, a: seq<Byte>, st: Unpacking)
    requires st.Unpacking? && st.more && Holds(s, st.i, a + [0])
    ensures UnpackCode(env, 'z', s, st).Unpacking?
    ensures UnpackCode(env, 'z', s, st).values == st.values + [Str(a)] <==> forall k :: 0 <= k < |a| ==> a[k] != 0
  {
    if Fits(env, 'z', Str(a)) {
      ZStringBack(env, s, a, st);
    } else {
      assert s[st.i..][..|a| + 1] == s[st.i..st.i + |a| + 1];
      ZStringCut(s[st.i..], a);
      Different(st.values, Str(s[st.i..st.i + StrLen(s[st.i..])]), Str(a));
    }
  }

  /** A `p` or `P` string comes back exactly when its length fits the prefix. */
  lemma PrefixedBackExactly(env: Machine, c: char, s: seq<Byte>, a: seq<Byte>, st: Unpacking)
    requires st.Unpacking? && st.more && IsPrefixed(c)
    requires Holds(s, st.i, Swapped(st.swap, InMemory(env, |a|, PrefixSize(c))) + a)
    ensures UnpackCode(env, c, s, st).Unpacking?
    ensures UnpackCode(env, c, s, st).values == st.values + [Str(a)] <==> |a| < Pow256(PrefixSize(c))
  {
    var p := Pow256(PrefixSize(c));
    ModBelow(|a|, p);
    var l := |a| % p;
    PrefixedRead(env, c, s, a, st, l);
    if l == |a| {
      assert a[..l] == a;
    } else {
      Different(st.values, Str(a[..l]), Str(a));
    }
  }

  lemma ModBelow(n: nat, p: nat)
    requires 0 < p
    ensures n % p <= n && n % p < p && (n % p == n <==> n < p)
  {
    assert n == p * (n / p) + n % p;
  }

  lemma ZStringCut(s: seq<Byte>, a: seq<Byte>)
    requires Holds(s, 0, a + [0]) && exists k :: 0 <= k < |a| && a[k] == 0
    ensures StrLen(s) < |a|
  {
    var k :| 0 <= k < |a| && a[k] == 0;
    assert s[k] == (a + [0])[k];
  }

  lemma Different(values: seq<Value>, v: Value, w: Value)
    requires v != w
    ensures values + [v] != values + [w]
  {
    assert (values + [v])[|values|] == v && (values + [w])[|values|] == w;
  }

  lemma WrappedLength(env: Machine, swap: bool, n: nat, m: nat)
    ensures FromMemory(env, Swapped(swap, Swapped(swap, InMemory(env, n, m))), false) == n % Pow256(m)
  {
    LittleBack(Bits(n, m), m);
    ReversedTwice(InMemory(env, n, m));
    ReversedTwice(ToLittle(Bits(n, m), m));
  }

  /** One code's value comes back, and the position moves past its bytes. */
  lemma ValueBack(env: Machine, c: char, s: seq<Byte>, v: Value, st: Unpacking)
    requires st.Unpacking? && st.more && TakesValue(c) && Fits(env, c, v)
    ensures |Packed(env, st.swap, c, v)| == 1
    ensures Holds(s, st.i, Packed(env, st.swap, c, v)[0]) ==>
      UnpackCode(env, c, s, st) == st.(i := st.i + |Packed(env, st.swap, c, v)[0]|, values := st.values + [v])
  {
    if Holds(s, st.i, Packed(env, st.swap, c, v)[0]) {
      if c == 'z' {
        ZStringBack(env, s, v.s, st);
      } else if IsPrefixed(c) {
        PrefixedBack(env, c, s, v.s, st);
      } else {
        IntegerBack(env, c, s, v.v, st);
      }
    }
  }

  lemma {:induction false} PackGrows(env: Machine, codes: seq<char>, st: Packing)
    requires st.Packing? && PackCodes(env, codes, st).Packing?
    ensures |st.out| <= |PackCodes(env, codes, st).out|
    ensures PackCodes(env, codes, st).out[..|st.out|] == st.out
    decreases |codes|
  {
    if codes == [] {
    } else {
      var next := PackCode(env, codes[0], st);
      FailedStays(env, codes[1..]);
      PackGrows(env, codes[1..], next);
      assert next.out[..|st.out|] == st.out;
      assert PackCodes(env, codes, st).out[..|st.out|] == PackCodes(env, codes, st).out[..|next.out|][..|st.out|];
    }
  }

  lemma {:induction false} FailedStays(env: Machine, codes: seq<char>)
    ensures PackCodes(env, codes, PackFailed) == PackFailed
    decreases |codes|
  {
    if codes == [] {
    } else {
      FailedStays(env, codes[1..]);
    }
  }

  lemma {:induction false} FittingPacks(env: Machine, codes: seq<char>, st: Packing)
    requires st.Packing? && AllFit(env, codes, st.args)
    ensures PackCodes(env, codes, st).Packing? && Taken(codes) <= |st.args|
    ensures PackCodes(env, codes, st).args == st.args[Taken(codes)..]
    decreases |codes|
  {
    if codes == [] {
    } else {
      if TakesValue(codes[0]) {
        ValueBack(env, codes[0], [], st.args[0], Unpacking(st.swap, 0, [], true));
      }
      FittingPacks(env, codes[1..], PackCode(env, codes[0], st));
    }
  }

  /** Unpacking from where packing began gives back what packing consumed. */
  lemma {:induction false} RoundTripFrom(env: Machine, codes: seq<char>, p: Packing, u: Unpacking, s: seq<Byte>)
    requires p.Packing? && AllFit(env, codes, p.args) && PackCodes(env, codes, p).Packing?
    requires u.Unpacking? && u.more && u.swap == p.swap && u.i == |p.out|
    requires Holds(s, 0, PackCodes(env, codes, p).out) && Taken(codes) <= |p.args|
    ensures var q := PackCodes(env, codes, p);
      UnpackCodes(env, codes, s, u) == Unpacking(q.swap, |q.out|, u.values + p.args[..Taken(codes)], true)
    decreases |codes|
  {
    if codes == [] {
    } else {
      var c := codes[0];
      var q := PackCodes(env, codes, p);
      var next := PackCode(env, c, p);
      FailedStays(env, codes[1..]);
      PackGrows(env, codes[1..], next);
      if TakesValue(c) {
        ValueBack(env, c, s, p.args[0], u);
        var piece := Packed(env, u.swap, c, p.args[0])[0];
        PieceThere(s, q.out, p.out, piece);
        RoundTripFrom(env, codes[1..], next, UnpackCode(env, c, s, u), s);
        OneMore(u.values, p.args, Taken(codes));
      } else {
        RoundTripFrom(env, codes[1..], next, UnpackCode(env, c, s, u), s);
      }
    }
  }

  lemma OneMore(values: seq<Value>, args: seq<Value>, n: nat)
    requires 0 < n <= |args|
    ensures values + args[..n] == values + [args[0]] + args[1..][..n - 1]
  {
  }

  lemma PieceThere(s: seq<Byte>, all: seq<Byte>, before: seq<Byte>, piece: seq<Byte>)
    requires Holds(s, 0, all) && |before + piece| <= |all| && all[..|before + piece|] == before + piece
    ensures Holds(s, |before|, piece)
  {
    assert s[..|all|] == all;
    assert s[|before|..|before| + |piece|] == all[..|before + piece|][|before|..];
  }

  /** For a format and values that fit it, unpack returns the packed values and the position past the end. */
  lemma RoundTrip(env: Machine, f: seq<char>, args: seq<Value>)
    requires AllFit(env, Codes(f), args)
    ensures Taken(Codes(f)) <= |args|
    ensures PackAll(env, f, args).Packing? && PackAll(env, f, args).args == args[Taken(Codes(f))..]
    ensures UnpackAll(env, f, PackAll(env, f, args).out, 0)
         == Unpacking(PackAll(env, f, args).swap, |PackAll(env, f, args).out|, args[..Taken(Codes(f))], true)
  {
    var p := Packing(false, args, []);
    FittingPacks(env, Codes(f), p);
    var s := PackCodes(env, Codes(f), p).out;
    assert s[0..|s|] == s;
    RoundTripFrom(env, Codes(f), p, Unpacking(false, 0, [], true), s);
    assert [] + args[..Taken(Codes(f))] == args[..Taken(Codes(f))];
  }

  // ---------- what the byte-order marks are for ----------

  /** The bytes of an integer after a mark: lowest first, highest first, or as the machine has them. */
  function Ordered(env: Machine, mark: char, v: int, m: nat): seq<Byte> {
    if mark == '<' then ToLittle(Bits(v, m), m)
    else if mark == '>' then Reversed(ToLittle(Bits(v, m), m))
    else InMemory(env, v, m)
  }

  /** A mark fixes the order of the bytes, whatever the machine's own order. */
  lemma MarkOrders(env: Machine, mark: char, v: int, m: nat)
    ensures Swapped(Swaps(env, mark), InMemory(env, v, m)) == Ordered(env, mark, v, m)
  {
    ReversedTwice(ToLittle(Bits(v, m), m));
  }

  lemma DivDiv(v: int, p: nat)
    requires 0 < p
    ensures v / 256 / p == v / (256 * p)
  {
    var (u, r) := (v / 256, v % 256);
    var (q, t) := (u / p, u % p);
    assert v == 256 * u + r && u == p * q + t;
    assert 256 * (p * q) == 256 * p * q;
    RemainderOf(v, 256 * p, q, 256 * t + r);
  }

  /** Byte `k` of the layout is digit `k` to the base 256. */
  lemma {:induction false} ToLittleDigit(u: nat, m: nat, k: nat)
    requires k < m
    ensures ToLittle(u, m)[k] as int == u / Pow256(k) % 256
    decreases m
  {
    if k == 0 {
    } else {
      ToLittleDigit(u / 256, m - 1, k - 1);
      DivDiv(u, Pow256(k - 1));
    }
  }

  lemma BitsShift(v: int, m: nat)
    requires 0 < m
    ensures Bits(v, m) % 256 == v % 256 && Bits(v, m) / 256 == Bits(v / 256, m - 1)
  {
    var (p, b) := (Pow256(m - 1), Bits(v, m));
    var q := v / (256 * p);
    assert v == 256 * p * q + b;
    assert 256 * p * q == 256 * (p * q);
    assert v / 256 == p * q + b / 256 && b / 256 < p;
    RemainderOf(v / 256, p, q, b / 256);
  }

  lemma {:induction false} BitsDigit(v: int, m: nat, k: nat)
    requires k < m
    ensures Bits(v, m) / Pow256(k) % 256 == v / Pow256(k) % 256
    decreases m
  {
    BitsShift(v, m);
    if k == 0 {
    } else {
      BitsDigit(v / 256, m - 1, k - 1);
      DivDiv(v, Pow256(k - 1));
      DivDiv(Bits(v, m), Pow256(k - 1));
    }
  }

  /** Digit `k` of `v`, the lowest being digit 0, stands where the mark wants it. */
  ghost predicate DigitThere(env: Machine, mark: char, s: seq<Byte>, v: int, m: nat, k: nat)
    requires k < m
  {
    && |s| == m
    && (mark == '<' ==> s[k] as int == v / Pow256(k) % 256)
    && (mark == '>' ==> s[m - 1 - k] as int == v / Pow256(k) % 256)
    && (mark != '<' && mark != '>' ==> s[if env.little then k else m - 1 - k] as int == v / Pow256(k) % 256)
  }

  lemma MarkDigits(env: Machine, mark: char, v: int, m: nat, k: nat)
    requires k < m
    ensures DigitThere(env, mark, Swapped(Swaps(env, mark), InMemory(env, v, m)), v, m, k)
  {
    var s := ToLittle(Bits(v, m), m);
    MarkOrders(env, mark, v, m);
    ToLittleDigit(Bits(v, m), m, k);
    BitsDigit(v, m, k);
    ReversedAt(s, m - 1 - k);
  }

  /** The codes whose bytes do not depend on any order. */
  predicate IsOrderFree(c: char) { IsSeparator(c) || c == 'z' || c == 'p' || c == 'c' || c == 'b' }

  /** Whether a byte order is known after a code: a mark names one, and `=` goes back to the machine's own. */
  function Knows(known: bool, c: char): bool {
    if c == '=' then false else known || IsEndian(c)
  }

  /** Every value of more than one byte comes where a mark is in force. */
  predicate Marked(codes: seq<char>, known: bool) {
    codes == []
    || ((known || IsEndian(codes[0]) || IsOrderFree(codes[0])) && Marked(codes[1..], Knows(known, codes[0])))
  }

  /** Machines that differ at most in their byte order. */
  predicate Alike(env: Machine, other: Machine) {
    env.long == other.long && env.signedChar == other.signedChar
  }

  /** Two machines have packed the same so far; once a mark is known they put out numbers in the same order. */
  ghost predicate InStep(env: Machine, st: Packing, other: Machine, st': Packing, known: bool) {
    if st.Packing? && st'.Packing? then
      && st.args == st'.args && st.out == st'.out
      && (known ==> (st.swap == st'.swap <==> env.little == other.little))
    else st == st'
  }

  lemma SameWire(env: Machine, swap: bool, other: Machine, swap': bool, v: int, m: nat)
    requires (swap == swap' <==> env.little == other.little) || m == 1
    ensures Swapped(swap, InMemory(env, v, m)) == Swapped(swap', InMemory(other, v, m))
  {
    var s := ToLittle(Bits(v, m), m);
    ReversedTwice(s);
    if m == 1 {
      OneReversed(s);
    }
  }

  lemma OneReversed(s: seq<Byte>)
    requires |s| == 1
    ensures Reversed(s) == s
  {
    assert s[1..] == [];
  }

  lemma SamePacked(env: Machine, swap: bool, other: Machine, swap': bool, c: char, v: Value, known: bool)
    requires Alike(env, other) && (known || IsOrderFree(c))
    requires known ==> (swap == swap' <==> env.little == other.little)
    ensures Packed(env, swap, c, v) == Packed(other, swap', c, v)
  {
    if IsPrefixed(c) && v.Str? {
      SameWire(env, swap, other, swap', |v.s|, PrefixSize(c));
    } else if IsInteger(c) && v.Num? {
      SameWire(env, swap, other, swap', v.v, SizeOf(env, c));
    }
  }

  lemma {:induction false} SameBytesFrom(env: Machine, st: Packing, other: Machine, st': Packing, codes: seq<char>, known: bool)
    requires Alike(env, other) && Marked(codes, known) && InStep(env, st, other, st', known)
    ensures PackCodes(env, codes, st).Packing? <==> PackCodes(other, codes, st').Packing?
    ensures PackCodes(env, codes, st).Packing? ==>
      && PackCodes(env, codes, st).out == PackCodes(other, codes, st').out
      && PackCodes(env, codes, st).args == PackCodes(other, codes, st').args
    decreases |codes|
  {
    if codes == [] {
    } else {
      var c := codes[0];
      if st.Packing? && st.args != [] && !IsEndian(c) {
        SamePacked(env, st.swap, other, st'.swap, c, st.args[0], known);
      }
      SameBytesFrom(env, PackCode(env, c, st), other, PackCode(other, c, st'), codes[1..], Knows(known, c));
    }
  }

  /** A marked format packs the same bytes on machines of either byte order. */
  lemma SameBytes(env: Machine, other: Machine, f: seq<char>, args: seq<Value>)
    requires Alike(env, other) && Marked(Codes(f), false)
    ensures PackAll(env, f, args).Packing? <==> PackAll(other, f, args).Packing?
    ensures PackAll(env, f, args).Packing? ==> PackAll(env, f, args).out == PackAll(other, f, args).out
  {
    var p := Packing(false, args, []);
    SameBytesFrom(env, p, other, p, Codes(f), false);
  }

  lemma {:induction false} FitAlike(env: Machine, other: Machine, codes: seq<char>, args: seq<Value>)
    requires Alike(env, other) && AllFit(env, codes, args)
    ensures AllFit(other, codes, args)
    decreases |codes|
  {
    if codes == [] {
    } else {
      FitAlike(env, other, codes[1..], if TakesValue(codes[0]) then args[1..] else args);
    }
  }

  /** What one machine packs with a marked format, a machine of either byte order unpacks. */
  lemma Portable(env: Machine, other: Machine, f: seq<char>, args: seq<Value>)
    requires Alike(env, other) && Marked(Codes(f), false) && AllFit(env, Codes(f), args)
    ensures PackAll(env, f, args).Packing? && Taken(Codes(f)) <= |args|
    ensures var u := UnpackAll(other, f, PackAll(env, f, args).out, 0);
      u.Unpacking? && u.values == args[..Taken(Codes(f))] && u.i == |PackAll(env, f, args).out|
  {
    SameBytes(env, other, f, args);
    FitAlike(env, other, Codes(f), args);
    RoundTrip(env, f, args);
    RoundTrip(other, f, args);
  }

  // ---------- and that they are needed ----------

  predicate IsKnown(c: char) { IsEndian(c) || IsSeparator(c) || TakesValue(c) }

  predicate AllKnown(codes: seq<char>) {
    forall k :: 0 <= k < |codes| ==> IsKnown(codes[k])
  }

  /** A value that tells the byte orders apart where a code has more than one byte: 1, or a string of length 1 for `P`. */
  function Telling(c: char): Value {
    if c == 'P' then Str([0]) else if IsInteger(c) then Num(1) else Str([])
  }

  function AllTelling(codes: seq<char>): seq<Value> {
    if codes == [] then []
    else (if TakesValue(codes[0]) then [Telling(codes[0])] else []) + AllTelling(codes[1..])
  }

  lemma TellingFits(env: Machine, c: char)
    requires TakesValue(c) && 2 <= env.long
    ensures Fits(env, c, Telling(c)) && |Packed(env, false, c, Telling(c))| == 1
  {
    assert Pow256(1) == 256;
    assert Pow256(2) == 256 * Pow256(1);
    if IsInteger(c) {
      assert Pow256(SizeOf(env, c)) >= 256 * Pow256(SizeOf(env, c) - 1);
    }
  }

  lemma {:induction false} AllTellingFit(env: Machine, codes: seq<char>)
    requires AllKnown(codes) && 2 <= env.long
    ensures AllFit(env, codes, AllTelling(codes))
    decreases |codes|
  {
    if codes == [] {
    } else {
      assert IsKnown(codes[0]);
      AllTellingFit(env, codes[1..]);
      if TakesValue(codes[0]) {
        TellingFits(env, codes[0]);
        assert AllTelling(codes)[1..] == AllTelling(codes[1..]);
      } else {
        assert AllTelling(codes) == AllTelling(codes[1..]);
      }
    }
  }

  /** The number 1 in two bytes or more reads differently from the two ends. */
  lemma OneTells(m: nat)
    requires 2 <= m
    ensures ToLittle(Bits(1, m), m) != Reversed(ToLittle(Bits(1, m), m))
  {
    assert Pow256(m) == 256 * Pow256(m - 1);
    ModSmall(1, Pow256(m));
    var s := ToLittle(1, m);
    assert s[0] == 1 && s == [1] + ToLittle(0, m - 1);
    ZerosLast(m - 1);
    LastFirst(s);
  }

  lemma {:induction false} ZerosLast(m: nat)
    requires 0 < m
    ensures ToLittle(0, m)[m - 1] == 0
    decreases m
  {
    if m == 1 {
    } else {
      ZerosLast(m - 1);
    }
  }

  lemma {:induction false} LastFirst<T>(s: seq<T>)
    requires s != []
    ensures Reversed(s) != [] && Reversed(s)[0] == s[|s| - 1]
    decreases |s|
  {
    if |s| == 1 {
    } else {
      LastFirst(s[1..]);
    }
  }

  /** Without a mark, machines of different byte order put the same number out alike only when its bytes read both ways. */
  lemma UnmarkedAlike(env: Machine, other: Machine, v: int, m: nat)
    requires env.little != other.little
    ensures Swapped(Swaps(env, '='), InMemory(env, v, m)) == Swapped(Swaps(other, '='), InMemory(other, v, m))
         <==> ToLittle(Bits(v, m), m) == Reversed(ToLittle(Bits(v, m), m))
  {
  }

  lemma HeadsDiffer(a: seq<Byte>, b: seq<Byte>, t: seq<Byte>)
    requires |a| == |b| && a != b
    ensures a + t != b + t
  {
    assert (a + t)[..|a|] == a && (b + t)[..|b|] == b;
  }

  /** Where no mark is in force, a code of more than one byte puts its telling value out differently. */
  lemma TellingDiffers(env: Machine, other: Machine, c: char)
    requires Alike(env, other) && env.little != other.little && 2 <= env.long && TakesValue(c) && !IsOrderFree(c)
    ensures |Packed(env, false, c, Telling(c))| == 1 == |Packed(other, false, c, Telling(c))|
    ensures |Packed(env, false, c, Telling(c))[0]| == |Packed(other, false, c, Telling(c))[0]|
    ensures Packed(env, false, c, Telling(c))[0] != Packed(other, false, c, Telling(c))[0]
  {
    if c == 'P' {
      OneTells(2);
      UnmarkedAlike(env, other, 1, 2);
      HeadsDiffer(InMemory(env, 1, 2), InMemory(other, 1, 2), [0]);
    } else {
      OneTells(SizeOf(env, c));
      UnmarkedAlike(env, other, 1, SizeOf(env, c));
    }
  }

  lemma TailsDiffer(a: seq<Byte>, x: seq<Byte>, y: seq<Byte>)
    requires |x| == |y| && x != y
    ensures a + x != a + y && |a + x| == |a + y|
  {
    assert (a + x)[|a|..] == x && (a + y)[|a|..] == y;
  }

  /** Different bytes of equal length stay different, whatever is packed after them. */
  lemma StayDifferent(env: Machine, other: Machine, codes: seq<char>, st: Packing, st': Packing)
    requires st.Packing? && st'.Packing? && |st.out| == |st'.out| && st.out != st'.out
    requires PackCodes(env, codes, st).Packing? && PackCodes(other, codes, st').Packing?
    ensures PackCodes(env, codes, st).out != PackCodes(other, codes, st').out
  {
    PackGrows(env, codes, st);
    PackGrows(other, codes, st');
  }

  /** Both machines have packed the same so far; their swapping differs exactly while a mark is in force. */
  ghost predicate Abreast(st: Packing, st': Packing, codes: seq<char>, known: bool) {
    && st.Packing? && st'.Packing? && st.out == st'.out && st.args == st'.args == AllTelling(codes)
    && if known then st.swap != st'.swap else !st.swap && !st'.swap
  }

  lemma TellingPacks(env: Machine, codes: seq<char>, st: Packing)
    requires AllKnown(codes) && 2 <= env.long && st.Packing? && st.args == AllTelling(codes)
    ensures PackCodes(env, codes, st).Packing?
  {
    AllTellingFit(env, codes);
    FittingPacks(env, codes, st);
  }

  /** The first value of more than one byte without a mark. */
  lemma DiffersHere(env: Machine, st: Packing, other: Machine, st': Packing, codes: seq<char>)
    requires Alike(env, other) && env.little != other.little && 2 <= env.long && AllKnown(codes)
    requires codes != [] && TakesValue(codes[0]) && !IsOrderFree(codes[0]) && Abreast(st, st', codes, false)
    requires PackCodes(env, codes, st).Packing? && PackCodes(other, codes, st').Packing?
    ensures PackCodes(env, codes, st).out != PackCodes(other, codes, st').out
  {
    var c := codes[0];
    FailedStays(env, codes[1..]);
    FailedStays(other, codes[1..]);
    TellingDiffers(env, other, c);
    TailsDiffer(st.out, Packed(env, false, c, Telling(c))[0], Packed(other, false, c, Telling(c))[0]);
    StayDifferent(env, other, codes[1..], PackCode(env, c, st), PackCode(other, c, st'));
  }

  /** Any other code keeps the machines abreast. */
  lemma StayAbreast(env: Machine, st: Packing, other: Machine, st': Packing, codes: seq<char>, known: bool)
    requires Alike(env, other) && env.little != other.little && 2 <= env.long
    requires codes != [] && IsKnown(codes[0]) && Abreast(st, st', codes, known)
    requires known || IsEndian(codes[0]) || IsOrderFree(codes[0])
    ensures Abreast(PackCode(env, codes[0], st), PackCode(other, codes[0], st'), codes[1..], Knows(known, codes[0]))
  {
    var c := codes[0];
    if TakesValue(c) {
      TellingFits(env, c);
      SamePacked(env, st.swap, other, st'.swap, c, Telling(c), known);
      assert AllTelling(codes)[1..] == AllTelling(codes[1..]);
    } else {
      assert AllTelling(codes) == AllTelling(codes[1..]);
    }
  }

  lemma {:induction false} UnmarkedDiffers(env: Machine, st: Packing, other: Machine, st': Packing, codes: seq<char>, known: bool)
    requires Alike(env, other) && env.little != other.little && 2 <= env.long && AllKnown(codes)
    requires !Marked(codes, known) && Abreast(st, st', codes, known)
    ensures PackCodes(env, codes, st).Packing? && PackCodes(other, codes, st').Packing?
    ensures PackCodes(env, codes, st).out != PackCodes(other, codes, st').out
    decreases |codes|
  {
    var c := codes[0];
    assert IsKnown(c);
    TellingPacks(env, codes, st);
    TellingPacks(other, codes, st');
    if known || IsEndian(c) || IsOrderFree(c) {
      StayAbreast(env, st, other, st', codes, known);
      UnmarkedDiffers(env, PackCode(env, c, st), other, PackCode(other, c, st'), codes[1..], Knows(known, c));
    } else {
      DiffersHere(env, st, other, st', codes);
    }
  }

  /** On two machines of different byte order, a format packs all fitting values alike exactly when it is marked. */
  lemma PortableExactly(env: Machine, other: Machine, f: seq<char>)
    requires Alike(env, other) && env.little != other.little && 2 <= env.long && AllKnown(Codes(f))
    ensures Marked(Codes(f), false) <==>
      forall args | AllFit(env, Codes(f), args) :: PackAll(env, f, args).Packing? && PackAll(other, f, args).Packing?
        && PackAll(env, f, args).out == PackAll(other, f, args).out
  {
    if Marked(Codes(f), false) {
      forall args | AllFit(env, Codes(f), args)
        ensures PackAll(env, f, args).Packing? && PackAll(other, f, args).Packing?
          && PackAll(env, f, args).out == PackAll(other, f, args).out
      {
        SameBytes(env, other, f, args);
        RoundTrip(env, f, args);
      }
    } else {
      var args := AllTelling(Codes(f));
      AllTellingFit(env, Codes(f));
      var st := Packing(false, args, []);
      UnmarkedDiffers(env, st, other, st, Codes(f), false);
      assert PackAll(env, f, args).out != PackAll(other, f, args).out;
    }
  }
}
