/** The two variants of `skip_trailing_space` and the byte loop that both must agree with. */
module SkipSpace {
  import opened Numbers

  const SPACE: Byte := 0x20

  ghost predicate SpacesFrom(s: seq<Byte>, end: nat) {
    end <= |s| && forall k :: end <= k < |s| ==> s[k] == SPACE
  }

  /** The plain loop: one byte at a time, backwards. */
  function Trimmed(s: seq<Byte>): (end: nat)
    ensures SpacesFrom(s, end) && (end == 0 || s[end - 1] != SPACE)
    decreases |s|
  {
    if s == [] || s[|s| - 1] != SPACE then |s|
    else
      var end := Trimmed(s[..|s| - 1]);
      assert forall k :: end <= k < |s| - 1 ==> s[k] == s[..|s| - 1][k];
      end
  }

  lemma TrimmedAt(s: seq<Byte>, end: nat)
    requires SpacesFrom(s, end) && (end == 0 || s[end - 1] != SPACE)
    ensures end == Trimmed(s)
  {
  }

  // ---------- words ----------

  /** The bytes as digits to the base 256, the first one lowest. */
  function Low(s: seq<Byte>): nat {
    if s == [] then 0 else s[0] as nat + 256 * Low(s[1..])
  }

  /** The bytes as digits to the base 256, the first one highest. */
  function High(s: seq<Byte>): nat {
    if s == [] then 0 else 256 * High(s[..|s| - 1]) + s[|s| - 1] as nat
  }

  function Spaces(n: nat): nat {
    if n == 0 then 0 else 0x20 + 256 * Spaces(n - 1)
  }

  ghost predicate AllSpaces(s: seq<Byte>) {
    forall k :: 0 <= k < |s| ==> s[k] == SPACE
  }

  lemma {:induction false} LowSpaces(s: seq<Byte>)
    ensures Low(s) == Spaces(|s|) <==> AllSpaces(s)
    decreases |s|
  {
    if s == [] {
    } else {
      LowSpaces(s[1..]);
      assert AllSpaces(s) <==> s[0] == SPACE && AllSpaces(s[1..]) by {
        assert forall k :: 0 < k < |s| ==> s[k] == s[1..][k - 1];
      }
    }
  }

  lemma {:induction false} HighSpaces(s: seq<Byte>)
    ensures High(s) == Spaces(|s|) <==> AllSpaces(s)
    decreases |s|
  {
    if s == [] {
    } else {
      HighSpaces(s[..|s| - 1]);
    }
  }

  /** uint8korr: two 32-bit halves, each put together from four shifted bytes. */
  function Korr8(s: seq<Byte>): nat
    requires |s| == 8
  {
    (s[0] as nat + s[1] as nat * 0x100 + s[2] as nat * 0x1_0000 + s[3] as nat * 0x100_0000)
    + (s[4] as nat + s[5] as nat * 0x100 + s[6] as nat * 0x1_0000 + s[7] as nat * 0x100_0000) * 0x1_0000_0000
  }

  lemma Korr8Spaces(s: seq<Byte>)
    requires |s| == 8
    ensures Korr8(s) == 0x2020_2020_2020_2020 <==> AllSpaces(s)
  {
    if Korr8(s) == 0x2020_2020_2020_2020 {
      assert s[0] == SPACE && s[1] == SPACE && s[2] == SPACE && s[3] == SPACE;
      assert s[4] == SPACE && s[5] == SPACE && s[6] == SPACE && s[7] == SPACE;
    }
  }

  /** The word of `w` bytes at `i`, on a machine of either byte order. */
  function WordAt(s: seq<Byte>, i: nat, w: nat, little: bool): nat
    requires i + w <= |s|
  {
    if little then Low(s[i..i + w]) else High(s[i..i + w])
  }

  lemma WordSpaces(s: seq<Byte>, i: nat, w: nat, little: bool)
    requires i + w <= |s|
    ensures WordAt(s, i, w, little) == Spaces(w) <==> forall k :: i <= k < i + w ==> s[k] == SPACE
  {
    LowSpaces(s[i..i + w]);
    HighSpaces(s[i..i + w]);
    assert AllSpaces(s[i..i + w]) <==> forall k :: i <= k < i + w ==> s[k] == SPACE by {
      assert forall k :: i <= k < i + w ==> s[k] == s[i..i + w][k - i];
    }
  }

  // ---------- the two variants ----------

  /** Reads 8 bytes at a time, whatever the alignment. */
  method SkipByEight(s: seq<Byte>) returns (end: nat)
    ensures end == Trimmed(s)
  {
    end := |s|;
    while end >= 8
      invariant SpacesFrom(s, end)
    {
      Korr8Spaces(s[end - 8..end]);
      if Korr8(s[end - 8..end]) != 0x2020_2020_2020_2020 {
        break;
      }
      assert forall k :: end - 8 <= k < end ==> s[k] == s[end - 8..end][k - (end - 8)];
      end := end - 8;
    }
    end := SkipBytes(s, 0, end);
    TrimmedAt(s, end);
  }

  /** Steps back over spaces as far as `stop`. */
  method SkipBytes(s: seq<Byte>, stop: nat, from: nat) returns (end: nat)
    requires SpacesFrom(s, from)
    ensures end <= from && SpacesFrom(s, end)
    ensures if from < stop then end == from else stop <= end && (end == stop || s[end - 1] != SPACE)
  {
    end := from;
    while end > stop && s[end - 1] == SPACE
      invariant end <= from && SpacesFrom(s, end)
      invariant if from < stop then end == from else stop <= end
    {
      end := end - 1;
    }
  }

  lemma Aligned(n: nat, w: nat)
    requires 0 < w
    ensures n / w * w <= n < n / w * w + w && n / w * w % w == 0
  {
    RemainderOf(n / w * w, w, n / w, 0);
  }

  /** Two multiples of `w` that differ, differ by at least `w`. */
  lemma NextMultiple(x: nat, y: nat, w: nat)
    requires 0 < w && x % w == 0 && y % w == 0 && x < y
    ensures x + w <= y
  {
    var q, r := x / w, y / w;
    assert x == w * q && y == w * r;
    assert r <= q ==> w * r <= w * q;
    assert r >= q + 1 ==> w * r >= w * (q + 1);
  }

  /** Reads whole words at aligned addresses in the middle; `ptr` is the address of the first byte. */
  method SkipByWord(s: seq<Byte>, ptr: nat, w: nat, little: bool) returns (end: nat)
    requires w == 4 || w == 8
    ensures end == Trimmed(s)
  {
    end := |s|;
    if |s| > 20 {
      var endWords := (ptr + |s|) / w * w;
      var startWords := (ptr + w - 1) / w * w;
      Aligned(ptr + |s|, w);
      Aligned(ptr + w - 1, w);
      assert endWords > ptr;
      end := SkipBytes(s, endWords - ptr, end);
      if s[end - 1] == SPACE && startWords < endWords {
        end := SkipWords(s, ptr, w, little, startWords, end);
      }
    }
    end := SkipBytes(s, 0, end);
    TrimmedAt(s, end);
  }

  method SkipWords(s: seq<Byte>, ptr: nat, w: nat, little: bool, startWords: nat, from: nat) returns (end: nat)
    requires 0 < w && SpacesFrom(s, from) && ptr <= startWords && startWords % w == 0 && (ptr + from) % w == 0
    ensures SpacesFrom(s, end)
  {
    end := from;
    while ptr + end > startWords
      invariant SpacesFrom(s, end) && (ptr + end) % w == 0
    {
      NextMultiple(startWords, ptr + end, w);
      WordSpaces(s, end - w, w, little);
      if WordAt(s, end - w, w, little) != Spaces(w) {
        break;
      }
      StepBack(ptr + end, w);
      end := end - w;
    }
  }

  lemma StepBack(x: nat, w: nat)
    requires 0 < w <= x && x % w == 0
    ensures (x - w) % w == 0
  {
    var q := x / w;
    assert x - w == (q - 1) * w;
    RemainderOf((q - 1) * w, w, q - 1, 0);
  }
}
