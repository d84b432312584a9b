/** Comparison functions as the trees use them: negative, zero or positive, and a total
    preorder on the elements at hand. */
module KeyOrder {

  ghost predicate Lawful<T>(cmp: (T, T) -> int, x: T, y: T, z: T) {
    && (cmp(x, y) < 0 <==> cmp(y, x) > 0)
    && (cmp(x, y) <= 0 && cmp(y, z) <= 0 ==> cmp(x, z) <= 0)
  }

  ghost predicate Comparator<T>(cmp: (T, T) -> int, u: set<T>) {
    forall x, y, z {:trigger Lawful(cmp, x, y, z)} | x in u && y in u && z in u :: Lawful(cmp, x, y, z)
  }

  lemma Less<T>(cmp: (T, T) -> int, u: set<T>, x: T, y: T, z: T)
    requires Comparator(cmp, u) && x in u && y in u && z in u
    ensures cmp(x, y) < 0 && cmp(y, z) <= 0 ==> cmp(x, z) < 0
    ensures cmp(x, y) <= 0 && cmp(y, z) < 0 ==> cmp(x, z) < 0
    ensures (cmp(x, y) == 0 <==> cmp(y, x) == 0) && (cmp(x, y) < 0 <==> cmp(y, x) > 0)
  {
    assert Lawful(cmp, x, y, z) && Lawful(cmp, y, x, z) && Lawful(cmp, y, z, x) && Lawful(cmp, z, y, x);
    assert Lawful(cmp, z, x, y) && Lawful(cmp, x, z, y);
  }

  lemma ComparatorWithin<T>(cmp: (T, T) -> int, u: set<T>, v: set<T>)
    requires Comparator(cmp, u) && v <= u
    ensures Comparator(cmp, v)
  {
  }

  /** Strictly increasing: no two elements compare equal. */
  ghost predicate Sorted<T>(cmp: (T, T) -> int, s: seq<T>) {
    forall i, j :: 0 <= i < j < |s| ==> cmp(s[i], s[j]) < 0
  }

  ghost predicate Drawn<T>(s: seq<T>, u: set<T>) {
    forall i :: 0 <= i < |s| ==> s[i] in u
  }

  /** `e` compares above the first `lo` elements and below those from `hi` on. */
  ghost predicate Brackets<T>(cmp: (T, T) -> int, e: T, s: seq<T>, lo: int, hi: int) {
    && 0 <= lo <= hi <= |s|
    && (forall i :: 0 <= i < lo ==> cmp(e, s[i]) > 0)
    && (forall i :: hi <= i < |s| ==> cmp(e, s[i]) < 0)
  }

  /** One comparison halves a bracket. */
  lemma Narrow<T>(cmp: (T, T) -> int, u: set<T>, e: T, s: seq<T>, lo: int, mid: int, hi: int)
    requires Comparator(cmp, u) && e in u && Drawn(s, u) && Sorted(cmp, s)
    requires Brackets(cmp, e, s, lo, hi) && lo <= mid < hi
    ensures cmp(e, s[mid]) < 0 ==> Brackets(cmp, e, s, lo, mid)
    ensures cmp(e, s[mid]) > 0 ==> Brackets(cmp, e, s, mid + 1, hi)
    ensures cmp(e, s[mid]) == 0 ==> Brackets(cmp, e, s, mid, mid + 1)
  {
    forall i | 0 <= i < |s|
      ensures i > mid && cmp(e, s[mid]) <= 0 ==> cmp(e, s[i]) < 0
      ensures i < mid && cmp(e, s[mid]) >= 0 ==> cmp(e, s[i]) > 0
    {
      Less(cmp, u, e, s[mid], s[i]);
      Less(cmp, u, s[i], s[mid], e);
      Less(cmp, u, s[i], e, e);
      Less(cmp, u, e, s[mid], e);
    }
  }

  /** Between smaller and larger elements there is room for one more. */
  lemma SortedInsert<T>(cmp: (T, T) -> int, u: set<T>, e: T, s: seq<T>, k: nat)
    requires Comparator(cmp, u) && e in u && Drawn(s, u)
    requires Sorted(cmp, s) && Brackets(cmp, e, s, k, k)
    ensures Sorted(cmp, s[..k] + [e] + s[k..])
  {
    forall i | 0 <= i < k ensures cmp(s[i], e) < 0 {
      Less(cmp, u, s[i], e, e);
    }
  }

  lemma SortedWithout<T>(cmp: (T, T) -> int, s: seq<T>, k: nat)
    requires Sorted(cmp, s) && k < |s|
    ensures Sorted(cmp, s[..k] + s[k + 1..])
  {
  }

  lemma SortedOnce<T>(cmp: (T, T) -> int, u: set<T>, s: seq<T>, i: nat, j: nat)
    requires Comparator(cmp, u) && Drawn(s, u) && Sorted(cmp, s) && i < |s| && j < |s| && s[i] == s[j]
    ensures i == j
  {
    Less(cmp, u, s[i], s[j], s[i]);
  }

  ghost predicate Inserted<T>(s: seq<T>, e: T, s': seq<T>) {
    exists k | 0 <= k <= |s| :: s' == s[..k] + [e] + s[k..]
  }

  ghost predicate Removed<T>(s: seq<T>, e: T, s': seq<T>) {
    exists k | 0 <= k < |s| :: s[k] == e && s' == s[..k] + s[k + 1..]
  }
}
