/** How a format of `lpack.c` is read, and which codes and values it admits, character by character. */
module LpackFormat {
  import opened Numbers
  import opened LpackSpec
  import opened Lpack

  // ---------- counts ----------

  predicate AllDecimal(ds: seq<char>) {
    forall k :: 0 <= k < |ds| ==> '0' <= ds[k] <= '9'
  }

  /** The text goes on with something else than a digit, or ends. */
  predicate NoDigitAhead(rest: seq<char>) {
    rest == [] || !('0' <= rest[0] <= '9')
  }

  function Pow10(n: nat): nat {
    if n == 0 then 1 else 10 * Pow10(n - 1)
  }

  lemma DecimalDigit(d: char)
    requires '0' <= d <= '9'
    ensures Decimal([d]) == d as int - '0' as int
  {
    assert [d][..0] == [];
  }

  lemma DecimalLast(t: seq<char>, e: char)
    requires AllDecimal(t) && '0' <= e <= '9'
    ensures AllDecimal(t + [e]) && Decimal(t + [e]) == 10 * Decimal(t) + (e as int - '0' as int)
  {
    assert (t + [e])[..|t|] == t;
  }

  lemma Tenfold(x: int, p: int)
    ensures x * (10 * p) == 10 * (x * p)
  {
  }

  lemma Snoc(d: char, t: seq<char>, e: char)
    ensures [d] + t + [e] == [d] + (t + [e])
  {
  }

  lemma Unsnoc(t: seq<char>)
    requires t != []
    ensures t == t[..|t| - 1] + [t[|t| - 1]]
  {
  }

  /** The first digit counts by its place. */
  lemma {:induction false} DecimalPlaces(d: char, ds: seq<char>, x: nat)
    requires '0' <= d <= '9' && AllDecimal(ds) && x == d as int - '0' as int
    ensures AllDecimal([d] + ds) && Decimal([d] + ds) == x * Pow10(|ds|) + Decimal(ds)
    decreases |ds|
  {
    if ds == [] {
      DecimalDigit(d);
      assert [d] + ds == [d];
    } else {
      var (t, e) := (ds[..|ds| - 1], ds[|ds| - 1]);
      DecimalPlaces(d, t, x);
      Unsnoc(ds);
      Snoc(d, t, e);
      DecimalLast(t, e);
      DecimalLast([d] + t, e);
      Tenfold(x, Pow10(|t|));
    }
  }

  lemma {:induction false} DigitsOf(ds: seq<char>, rest: seq<char>)
    requires AllDecimal(ds) && NoDigitAhead(rest)
    ensures Digits(ds + rest) == |ds|
    decreases |ds|
  {
    if ds == [] {
      assert ds + rest == rest;
    } else {
      assert (ds + rest)[1..] == ds[1..] + rest;
      DigitsOf(ds[1..], rest);
    }
  }

  lemma CountWritten(ds: seq<char>, rest: seq<char>)
    requires ds != [] && AllDecimal(ds) && NoDigitAhead(rest)
    ensures Count(ds + rest) == Decimal(ds)
  {
    DigitsOf(ds, rest);
    assert (ds + rest)[..|ds|] == ds;
  }

  lemma CountMissing(rest: seq<char>)
    requires NoDigitAhead(rest)
    ensures Count(rest) == 1
  {
    DigitsOf([], rest);
    assert [] + rest == rest;
  }

  // ---------- codes ----------

  lemma {:induction false} RepeatedIs(c: char, n: nat)
    ensures c != '<' && c != '>' && c != '=' ==> Repeated(c, n) == seq(n, _ => c)
    ensures c == '<' || c == '>' || c == '=' ==> Repeated(c, n) == if n == 0 then [] else [c]
    decreases n
  {
    if n == 0 {
    } else {
      RepeatedIs(c, n - 1);
    }
  }

  /** A code with a count is carried out that many times, a byte-order mark at most once. */
  lemma CodeCounted(c: char, ds: seq<char>, rest: seq<char>)
    requires c != '\0' && ds != [] && AllDecimal(ds) && NoDigitAhead(rest)
    ensures c != '<' && c != '>' && c != '=' ==> Codes([c] + (ds + rest)) == seq(Decimal(ds), _ => c) + Codes(rest)
    ensures c == '<' || c == '>' || c == '=' ==>
      Codes([c] + (ds + rest)) == (if Decimal(ds) == 0 then [] else [c]) + Codes(rest)
  {
    DigitsOf(ds, rest);
    CountWritten(ds, rest);
    CodesStep(c, ds + rest, rest, |ds|);
    RepeatedIs(c, Decimal(ds));
  }

  lemma CodesStep(c: char, t: seq<char>, rest: seq<char>, n: nat)
    requires c != '\0' && n == Digits(t) && rest == t[n..]
    ensures Codes([c] + t) == Repeated(c, Count(t)) + Codes(rest)
  {
    var f := [c] + t;
    assert f[1..] == t && f[1 + n..] == rest;
  }

  /** A code without a count is carried out once. */
  lemma CodeAlone(c: char, rest: seq<char>)
    requires c != '\0' && NoDigitAhead(rest)
    ensures Codes([c] + rest) == [c] + Codes(rest)
  {
    DigitsOf([], rest);
    assert [] + rest == rest;
    CountMissing(rest);
    CodesStep(c, rest, rest, 0);
    RepeatedIs(c, 1);
    assert seq(1, _ => c) == [c];
  }

  /** A format ends with its text or at its first NUL. */
  lemma CodesEnd(rest: seq<char>)
    ensures Codes([]) == [] && Codes(['\0'] + rest) == []
  {
  }

  // ---------- which codes there are ----------

  const CODES := ['z', 'p', 'P', 'c', 'b', 'h', 'H', 'i', 'I', 'l', 'L', '<', '>', '=', ' ', ',']

  lemma KnownExactly(c: char)
    ensures IsKnown(c) <==> c in CODES
    ensures IsLeftOut(c) <==> c in ['a', 'A', 'f', 'd', 'n']
  {
  }

  /** Formats without the codes that are left out are covered by the loops. */
  lemma {:induction false} ModelledExactly(f: seq<char>)
    requires forall k :: 0 <= k < |f| ==> f[k] != '\0'
    ensures Modelled(f) <==> forall k :: 0 <= k < |f| ==> f[k] !in ['a', 'A', 'f', 'd', 'n']
    decreases |f|
  {
    if f == [] {
    } else {
      ModelledExactly(f[1..]);
      assert forall k :: 0 <= k < |f| - 1 ==> f[1..][k] == f[k + 1];
      assert forall k :: 1 <= k < |f| ==> f[k] == f[1..][k - 1];
    }
  }

  lemma BadCode(env: Machine, c: char, args: seq<Value>, s: seq<Byte>, st: Unpacking)
    requires c !in CODES && st.Unpacking? && st.more
    ensures PackCode(env, c, Packing(false, args, [])) == PackFailed
    ensures UnpackCode(env, c, s, st) == UnpackFailed
  {
  }

  /** Packing fails without an argument, and with one of the wrong kind. */
  lemma BadArgument(env: Machine, swap: bool, c: char, v: Value, rest: seq<Value>, out: seq<Byte>)
    requires c in ['z', 'p', 'P', 'c', 'b', 'h', 'H', 'i', 'I', 'l', 'L']
    ensures PackCode(env, c, Packing(swap, [], out)) == PackFailed
    ensures PackCode(env, c, Packing(swap, [v] + rest, out)) == PackFailed <==> (c in ['z', 'p', 'P'] <==> v.Num?)
  {
  }

  lemma Separators(env: Machine, c: char, p: Packing, s: seq<Byte>, st: Unpacking)
    requires c in [' ', ','] && p.Packing? && st.Unpacking?
    ensures PackCode(env, c, p) == p && UnpackCode(env, c, s, st) == st
  {
  }

  // ---------- which values fit ----------

  lemma Powers()
    ensures Pow256(1) == 0x100 && Pow256(2) == 0x1_0000 && Pow256(4) == 0x1_0000_0000
  {
    assert Pow256(3) == 0x100_0000;
  }

  /** The values that come back: any string or number that its code has room for. */
  lemma FitsExactly(env: Machine, v: Value)
    ensures Fits(env, 'z', v) <==> v.Str? && forall k :: 0 <= k < |v.s| ==> v.s[k] != 0
    ensures Fits(env, 'p', v) <==> v.Str? && |v.s| < 0x100
    ensures Fits(env, 'P', v) <==> v.Str? && |v.s| < 0x1_0000
    ensures Fits(env, 'b', v) <==> v.Num? && 0 <= v.v < 0x100
    ensures Fits(env, 'c', v) <==> v.Num? && if env.signedChar then -0x80 <= v.v < 0x80 else 0 <= v.v < 0x100
    ensures Fits(env, 'h', v) <==> v.Num? && -0x8000 <= v.v < 0x8000
    ensures Fits(env, 'H', v) <==> v.Num? && 0 <= v.v < 0x1_0000
    ensures Fits(env, 'i', v) <==> v.Num? && -0x8000_0000 <= v.v < 0x8000_0000
    ensures Fits(env, 'I', v) <==> v.Num? && 0 <= v.v < 0x1_0000_0000
    ensures Fits(env, 'l', v) <==> v.Num? && 0 <= 2 * v.v + Pow256(env.long) && 2 * v.v < Pow256(env.long)
    ensures Fits(env, 'L', v) <==> v.Num? && 0 <= v.v < Pow256(env.long)
  {
    Powers();
  }

  /** One value for each code that takes one, each of which fits. */
  lemma FitOne(env: Machine, c: char, v: Value, codes: seq<char>, args: seq<Value>)
    ensures c in [' ', ',', '<', '>', '='] ==> (AllFit(env, [c] + codes, args) <==> AllFit(env, codes, args))
    ensures c in ['z', 'p', 'P', 'c', 'b', 'h', 'H', 'i', 'I', 'l', 'L'] ==>
      (AllFit(env, [c] + codes, [v] + args) <==> Fits(env, c, v) && AllFit(env, codes, args))
    ensures AllFit(env, [], args) && Taken([]) == 0
    ensures Taken([c] + codes) == Taken(codes) + if c in ['z', 'p', 'P', 'c', 'b', 'h', 'H', 'i', 'I', 'l', 'L'] then 1 else 0
  {
    assert ([c] + codes)[1..] == codes && ([v] + args)[1..] == args;
  }
}
