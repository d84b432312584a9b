/** The loops of `lpack.c`: byte swapping in place, `l_pack` and `l_unpack`. */
module Lpack {
  import opened Numbers
  import opened LpackSpec

  // ---------- doswap ----------

  /** Exchanges bytes from both ends until the middle is reached. */
  method DoSwap(swap: bool, a: array<Byte>)
    modifies a
    ensures a[..] == Swapped(swap, old(a[..]))
  {
    if swap {
      ghost var was := a[..];
      var i, j, n := 0, a.Length - 1, a.Length / 2;
      while n > 0
        invariant n + i == a.Length / 2 && i + j == a.Length - 1 && 0 <= n
        invariant forall k :: 0 <= k < i ==> a[k] == was[a.Length - 1 - k] && a[a.Length - 1 - k] == was[k]
        invariant forall k :: i <= k <= j ==> a[k] == was[k]
        decreases n
      {
        n := n - 1;
        var t := a[i];
        a[i] := a[j];
        a[j] := t;
        i := i + 1;
        j := j - 1;
      }
      forall k | 0 <= k < a.Length ensures a[..][k] == Reversed(was)[k] {
        ReversedAt(was, k);
      }
    }
  }

  /** Swaps the bytes of a value that lies in memory. */
  method Swap(swap: bool, bytes: seq<Byte>) returns (r: seq<Byte>)
    ensures r == Swapped(swap, bytes)
  {
    var a := new Byte[|bytes|](k requires 0 <= k < |bytes| => bytes[k]);
    assert a[..] == bytes;
    DoSwap(swap, a);
    r := a[..];
  }

  /** doendian: whether swapping brings the bytes of a number into the order that the mark asks for. */
  method DoEndian(env: Machine, c: char) returns (swap: bool)
    ensures swap == Swaps(env, c)
    ensures forall v, m :: Swapped(swap, InMemory(env, v, m)) == Ordered(env, c, v, m)
    ensures forall v, m, k | 0 <= k < m :: DigitThere(env, c, Swapped(swap, InMemory(env, v, m)), v, m, k)
  {
    forall v, m ensures Swapped(Swaps(env, c), InMemory(env, v, m)) == Ordered(env, c, v, m) {
      MarkOrders(env, c, v, m);
    }
    forall v, m, k | 0 <= k < m ensures DigitThere(env, c, Swapped(Swaps(env, c), InMemory(env, v, m)), v, m, k) {
      MarkDigits(env, c, v, m, k);
    }
    var e := env.little;
    if c == '<' {
      return !e;
    }
    if c == '>' {
      return e;
    }
    return false;
  }

  // ---------- the format ----------

  lemma DigitsFrom(f: seq<char>, k: nat)
    requires k < |f| && IsDigit(f[k])
    ensures Digits(f[k..]) == 1 + Digits(f[k + 1..])
  {
    assert f[k..][1..] == f[k + 1..];
  }

  ghost predicate AllDigits(f: seq<char>, k0: nat, k: nat)
    requires k0 <= k <= |f|
  {
    forall i :: k0 <= i < k ==> IsDigit(f[i])
  }

  lemma DecimalMore(f: seq<char>, k0: nat, k: nat)
    requires k0 <= k < |f| && AllDigits(f, k0, k) && IsDigit(f[k])
    ensures AllDigits(f, k0, k + 1)
    ensures Decimal(f[k0..k + 1]) == 10 * Decimal(f[k0..k]) + (f[k] as int - '0' as int)
  {
    assert f[k0..k + 1][..k - k0] == f[k0..k];
  }

  lemma CountOf(f: seq<char>, k0: nat, k: nat)
    requires k0 <= k <= |f| && k == k0 + Digits(f[k0..]) && AllDigits(f, k0, k)
    ensures Count(f[k0..]) == if k == k0 then 1 else Decimal(f[k0..k])
  {
    assert f[k0..][..k - k0] == f[k0..k];
  }

  /** The repeat count that follows a code, and how far it reaches. */
  method ReadCount(f: seq<char>, k0: nat) returns (n: nat, k: nat)
    requires k0 <= |f|
    ensures n == Count(f[k0..]) && k == k0 + Digits(f[k0..])
  {
    n, k := 1, k0;
    if k < |f| && IsDigit(f[k]) {
      n := 0;
      while k < |f| && IsDigit(f[k])
        invariant k0 <= k <= |f| && AllDigits(f, k0, k)
        invariant n == Decimal(f[k0..k]) && k0 + Digits(f[k0..]) == k + Digits(f[k..])
      {
        DecimalMore(f, k0, k);
        DigitsFrom(f, k);
        n := 10 * n + (f[k] as int - '0' as int);
        k := k + 1;
      }
    }
    CountOf(f, k0, k);
  }

  // ---------- l_pack ----------

  /** What is left of a format when `n` repetitions of `c` and the text from `k` on are still to come. */
  function Ahead(c: char, n: nat, f: seq<char>, k: nat): seq<char>
    requires k <= |f|
  {
    Repeated(c, n) + Codes(f[k..])
  }

  lemma AheadNone(c: char, f: seq<char>, k: nat)
    requires k <= |f|
    ensures Ahead(c, 0, f, k) == Codes(f[k..])
  {
  }

  lemma FirstOf(c: char, r: seq<char>, rest: seq<char>)
    ensures (([c] + r) + rest)[0] == c && (([c] + r) + rest)[1..] == r + rest
  {
  }

  lemma AheadNext(c: char, n: nat, f: seq<char>, k: nat)
    requires k <= |f| && 0 < n
    ensures Ahead(c, n, f, k) != [] && Ahead(c, n, f, k)[0] == c
    ensures Ahead(c, n, f, k)[1..] == Ahead(c, if IsEndian(c) then 0 else n - 1, f, k)
  {
    var r := Repeated(c, if IsEndian(c) then 0 else n - 1);
    assert Repeated(c, n) == [c] + r;
    FirstOf(c, r, Codes(f[k..]));
  }

  lemma AheadCode(f: seq<char>, k: nat, k': nat)
    requires k < |f| && f[k] != '\0' && k' == k + 1 + Digits(f[k + 1..])
    ensures k' <= |f| && Codes(f[k..]) == Ahead(f[k], Count(f[k + 1..]), f, k')
  {
    assert f[k..][1..] == f[k + 1..];
    assert f[k..][1 + Digits(f[k + 1..])..] == f[k'..];
  }

  /** PACKNUMBER and PACKSTRING lay the number out as the machine does and swap it. */
  method PackNumber(env: Machine, swap: bool, v: int, m: nat) returns (bytes: seq<Byte>)
    ensures bytes == Swapped(swap, InMemory(env, v, m))
  {
    bytes := Swap(swap, InMemory(env, v, m));
  }

  /** One turn of the switch of l_pack. */
  method PackOne(env: Machine, c: char, swap: bool, arg: Value, b: seq<Byte>) returns (ok: bool, out: seq<Byte>)
    requires TakesValue(c)
    ensures ok <==> Packed(env, swap, c, arg) != []
    ensures ok ==> out == b + Packed(env, swap, c, arg)[0]
  {
    ok, out := false, b;
    if c == 'z' {
      if arg.Str? {
        ok, out := true, b + (arg.s + [0]);
      }
    } else if IsPrefixed(c) {
      if arg.Str? {
        var ll := PackNumber(env, swap, |arg.s|, PrefixSize(c));
        ok, out := true, b + (ll + arg.s);
      }
    } else {
      if arg.Num? {
        var a := PackNumber(env, swap, arg.v, SizeOf(env, c));
        ok, out := true, b + a;
      }
    }
  }

  /** The loop `while (N--)` over one code. */
  method PackRepeated(env: Machine, c: char, n0: nat, args: seq<Value>, i0: nat, swap0: bool, b0: seq<Byte>,
                      ghost f: seq<char>, ghost k: nat)
      returns (ok: bool, i: nat, swap: bool, b: seq<Byte>)
    requires k <= |f| && i0 <= |args|
    ensures ok ==> i <= |args|
    ensures ok ==>
      PackCodes(env, Ahead(c, n0, f, k), Packing(swap0, args[i0..], b0)) == PackCodes(env, Codes(f[k..]), Packing(swap, args[i..], b))
    ensures !ok ==> PackCodes(env, Ahead(c, n0, f, k), Packing(swap0, args[i0..], b0)) == PackFailed
  {
    ok, i, swap, b := true, i0, swap0, b0;
    var n := n0;
    ghost var goal := PackCodes(env, Ahead(c, n0, f, k), Packing(swap0, args[i0..], b0));
    while n > 0
      invariant i <= |args| && PackCodes(env, Ahead(c, n, f, k), Packing(swap, args[i..], b)) == goal
      decreases n
    {
      AheadNext(c, n, f, k);
      n := n - 1;
      if IsEndian(c) {
        swap := DoEndian(env, c);
        n := 0;
      } else if IsSeparator(c) {
      } else {
        FailedStays(env, Ahead(c, n, f, k));
        if !TakesValue(c) || i == |args| {
          return false, i, swap, b;
        }
        ok, b := PackOne(env, c, swap, args[i], b);
        if !ok {
          return;
        }
        i := i + 1;
      }
    }
    AheadNone(c, f, k);
  }

  /** No code of the format, up to its first NUL, is left out of this model. */
  predicate Modelled(f: seq<char>) {
    f == [] || f[0] == '\0' || (!IsLeftOut(f[0]) && Modelled(f[1..]))
  }

  /** l_pack; no result when a code is bad or an argument is missing or of the wrong kind. */
  method LPack(env: Machine, f: seq<char>, args: seq<Value>) returns (ok: bool, b: seq<Byte>)
    requires Modelled(f) && Castable(env, Codes(f), args)
    ensures ok <==> PackAll(env, f, args).Packing?
    ensures ok ==> b == PackAll(env, f, args).out
  {
    var k: nat, i: nat, swap := 0, 0, false;
    ok, b := true, [];
    assert f[0..] == f && args[0..] == args;
    while k < |f| && f[k] != '\0'
      invariant ok && k <= |f| && i <= |args|
      invariant PackCodes(env, Codes(f[k..]), Packing(swap, args[i..], b)) == PackAll(env, f, args)
    {
      var c := f[k];
      var n, next := ReadCount(f, k + 1);
      AheadCode(f, k, next);
      ok, i, swap, b := PackRepeated(env, c, n, args, i, swap, b, f, next);
      if !ok {
        return;
      }
      k := next;
    }
  }

  // ---------- l_unpack ----------

  method Strlen(s: seq<Byte>, i: nat) returns (l: nat)
    requires i <= |s|
    ensures l == StrLen(s[i..])
  {
    l := 0;
    assert s[i..][0..] == s[i..];
    while i + l < |s| && s[i + l] != 0
      invariant i + l <= |s| && StrLen(s[i..]) == l + StrLen(s[i + l..])
    {
      assert s[i + l..][1..] == s[i + l + 1..];
      l := l + 1;
    }
  }

  /** UNPACKNUMBER and UNPACKSTRING copy bytes out, swap them and read the number. */
  method UnpackNumber(env: Machine, swap: bool, s: seq<Byte>, i: nat, m: nat, signed: bool) returns (v: int)
    requires i + m <= |s|
    ensures v == FromMemory(env, Swapped(swap, s[i..i + m]), signed)
  {
    var a := Swap(swap, s[i..i + m]);
    v := FromMemory(env, a, signed);
  }

  method UnpackZString(env: Machine, s: seq<Byte>, swap: bool, i: nat, values: seq<Value>) returns (st: Unpacking)
    ensures st == UnpackCode(env, 'z', s, Unpacking(swap, i, values, true))
  {
    st := Unpacking(swap, i, values, false);
    if i < |s| {
      var l := Strlen(s, i);
      st := Unpacking(swap, i + l + 1, values + [Str(s[i..i + l])], true);
    }
  }

  method UnpackPrefixed(env: Machine, c: char, s: seq<Byte>, swap: bool, i: nat, values: seq<Value>) returns (st: Unpacking)
    requires IsPrefixed(c)
    ensures st == UnpackCode(env, c, s, Unpacking(swap, i, values, true))
  {
    st := Unpacking(swap, i, values, false);
    var m := PrefixSize(c);
    if i + m <= |s| {
      var l := UnpackNumber(env, swap, s, i, m, false);
      if i + m + l <= |s| {
        st := Unpacking(swap, i + m + l, values + [Str(s[i + m..i + m + l])], true);
      }
    }
  }

  method UnpackInteger(env: Machine, c: char, s: seq<Byte>, swap: bool, i: nat, values: seq<Value>) returns (st: Unpacking)
    requires IsInteger(c)
    ensures st == UnpackCode(env, c, s, Unpacking(swap, i, values, true))
  {
    st := Unpacking(swap, i, values, false);
    var m := SizeOf(env, c);
    if i + m <= |s| {
      var v := UnpackNumber(env, swap, s, i, m, IsSigned(env, c));
      st := Unpacking(swap, i + m, values + [Num(v)], true);
    }
  }

  /** One turn of the switch of l_unpack. */
  method UnpackOne(env: Machine, c: char, s: seq<Byte>, swap: bool, i: nat, values: seq<Value>) returns (st: Unpacking)
    requires TakesValue(c)
    ensures st == UnpackCode(env, c, s, Unpacking(swap, i, values, true))
  {
    if c == 'z' {
      st := UnpackZString(env, s, swap, i, values);
    } else if IsPrefixed(c) {
      st := UnpackPrefixed(env, c, s, swap, i, values);
    } else {
      st := UnpackInteger(env, c, s, swap, i, values);
    }
  }

  lemma {:induction false} StopsHere(env: Machine, codes: seq<char>, s: seq<Byte>, st: Unpacking)
    requires st.UnpackFailed? || !st.more
    ensures UnpackCodes(env, codes, s, st) == st
    decreases |codes|
  {
    if codes == [] {
    } else {
      StopsHere(env, codes[1..], s, st);
    }
  }

  /** The loop `while (N--)` over one code. */
  method UnpackRepeated(env: Machine, c: char, n0: nat, s: seq<Byte>, st0: Unpacking, ghost f: seq<char>, ghost k: nat)
      returns (st: Unpacking)
    requires k <= |f| && st0.Unpacking? && st0.more
    ensures UnpackCodes(env, Ahead(c, n0, f, k), s, st0) == UnpackCodes(env, Codes(f[k..]), s, st)
  {
    st := st0;
    var n := n0;
    while n > 0
      invariant st.Unpacking? && st.more
      invariant UnpackCodes(env, Ahead(c, n, f, k), s, st) == UnpackCodes(env, Ahead(c, n0, f, k), s, st0)
      decreases n
    {
      AheadNext(c, n, f, k);
      n := n - 1;
      if IsEndian(c) {
        var swap := DoEndian(env, c);
        st := st.(swap := swap);
        n := 0;
      } else if IsSeparator(c) {
      } else {
        if TakesValue(c) {
          st := UnpackOne(env, c, s, st.swap, st.i, st.values);
        } else {
          st := UnpackFailed;
        }
        if st.UnpackFailed? || !st.more {
          StopsHere(env, Ahead(c, n, f, k), s, st);
          StopsHere(env, Codes(f[k..]), s, st);
          return;
        }
      }
    }
    AheadNone(c, f, k);
  }

  /** l_unpack from byte `init`, counted from 1; no result when a code is bad. */
  method LUnpack(env: Machine, s: seq<Byte>, f: seq<char>, init: nat) returns (ok: bool, position: nat, values: seq<Value>)
    requires Modelled(f) && 1 <= init
    ensures ok <==> UnpackAll(env, f, s, init - 1).Unpacking?
    ensures ok ==> position == UnpackAll(env, f, s, init - 1).i + 1 && values == UnpackAll(env, f, s, init - 1).values
  {
    var k: nat := 0;
    var st := Unpacking(false, init - 1, [], true);
    assert f[0..] == f;
    while k < |f| && f[k] != '\0' && st.Unpacking? && st.more
      invariant k <= |f|
      invariant UnpackCodes(env, Codes(f[k..]), s, st) == UnpackAll(env, f, s, init - 1)
      decreases |f| - k
    {
      var n, next := ReadCount(f, k + 1);
      AheadCode(f, k, next);
      st := UnpackRepeated(env, f[k], n, s, st, f, next);
      k := next;
    }
    if st.UnpackFailed? || !st.more {
      StopsHere(env, Codes(f[k..]), s, st);
    }
    match st
    case Unpacking(swap, i, v, more) => ok, position, values := true, i + 1, v;
    case UnpackFailed => ok, position, values := false, 0, [];
  }

  /** Packing and then unpacking with the same format gives back the values that the format takes. */
  method PackThenUnpack(env: Machine, f: seq<char>, args: seq<Value>)
      returns (packed: seq<Byte>, position: nat, values: seq<Value>)
    requires Modelled(f) && AllFit(env, Codes(f), args)
    ensures Taken(Codes(f)) <= |args| && values == args[..Taken(Codes(f))] && position == |packed| + 1
  {
    RoundTrip(env, f, args);
    FittingCasts(env, Codes(f), args);
    var ok;
    ok, packed := LPack(env, f, args);
    ok, position, values := LUnpack(env, packed, f, 1);
  }

  /** Packing on one machine and unpacking on another, with a format that marks its byte order. */
  method PackHereUnpackThere(here: Machine, there: Machine, f: seq<char>, args: seq<Value>)
      returns (packed: seq<Byte>, position: nat, values: seq<Value>)
    requires Modelled(f) && Alike(here, there) && Marked(Codes(f), false) && AllFit(here, Codes(f), args)
    ensures Taken(Codes(f)) <= |args| && values == args[..Taken(Codes(f))] && position == |packed| + 1
  {
    Portable(here, there, f, args);
    FittingCasts(here, Codes(f), args);
    var ok;
    ok, packed := LPack(here, f, args);
    ok, position, values := LUnpack(there, packed, f, 1);
  }
}
