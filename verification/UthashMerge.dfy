/** What a bottom-up mergesort by run width computes, and that it sorts stably. */
module UthashMerge {
  import opened UthashList

  type Order = (Ref, Ref) -> int

  predicate Le(cmp: Order, x: Ref, y: Ref) { cmp(x, y) <= 0 }

  /** The comparison function orders the elements, possibly with ties. */
  ghost predicate Preorder(cmp: Order, u: set<Ref>) {
    && (forall x, y :: x in u && y in u ==> Le(cmp, x, y) || Le(cmp, y, x))
    && (forall x, y, z :: x in u && y in u && z in u && Le(cmp, x, y) && Le(cmp, y, z) ==> Le(cmp, x, z))
  }

  ghost predicate Over(s: seq<Ref>, u: set<Ref>) {
    forall i :: 0 <= i < |s| ==> s[i] in u
  }

  ghost predicate Sorted(cmp: Order, s: seq<Ref>) {
    forall i, j :: 0 <= i < j < |s| ==> Le(cmp, s[i], s[j])
  }

  function Tie(cmp: Order, x: Ref, z: Ref): seq<Ref> {
    if Le(cmp, x, z) && Le(cmp, z, x) then [x] else []
  }

  /** The elements of `s` that tie with `z`, in the order in which they stand. */
  function Ties(cmp: Order, s: seq<Ref>, z: Ref): seq<Ref> {
    if s == [] then [] else Tie(cmp, s[0], z) + Ties(cmp, s[1..], z)
  }

  /** `t` is `s` in ascending order, with ties left in their old order. */
  ghost predicate StablySorted(cmp: Order, s: seq<Ref>, t: seq<Ref>, u: set<Ref>) {
    && multiset(t) == multiset(s)
    && Sorted(cmp, t)
    && forall z :: z in u ==> Ties(cmp, t, z) == Ties(cmp, s, z)
  }

  lemma {:induction false} TiesJoin(cmp: Order, s: seq<Ref>, t: seq<Ref>, z: Ref)
    ensures Ties(cmp, s + t, z) == Ties(cmp, s, z) + Ties(cmp, t, z)
    decreases |s|
  {
    if s == [] {
      assert s + t == t;
    } else {
      assert (s + t)[1..] == s[1..] + t;
      TiesJoin(cmp, s[1..], t, z);
    }
  }

  lemma {:induction false} NoTies(cmp: Order, s: seq<Ref>, z: Ref)
    requires forall i :: 0 <= i < |s| ==> !Le(cmp, s[i], z)
    ensures Ties(cmp, s, z) == []
    decreases |s|
  {
    if s == [] {
    } else {
      NoTies(cmp, s[1..], z);
    }
  }

  // ---------- what it means to be sorted stably ----------

  predicate Even(cmp: Order, x: Ref, z: Ref) { cmp(x, z) <= 0 && cmp(z, x) <= 0 }

  lemma {:induction false} TiesHold(cmp: Order, s: seq<Ref>, z: Ref, i: nat) returns (p: nat)
    requires i < |s| && Even(cmp, s[i], z)
    ensures p < |Ties(cmp, s, z)| && Ties(cmp, s, z)[p] == s[i]
    decreases |s|
  {
    if i == 0 {
      p := 0;
    } else {
      p := TiesHold(cmp, s[1..], z, i - 1);
      p := p + |Tie(cmp, s[0], z)|;
    }
  }

  lemma {:induction false} TiesInOrder(cmp: Order, s: seq<Ref>, z: Ref, i: nat, j: nat) returns (p: nat, q: nat)
    requires i < j < |s| && Even(cmp, s[i], z) && Even(cmp, s[j], z)
    ensures p < q < |Ties(cmp, s, z)| && Ties(cmp, s, z)[p] == s[i] && Ties(cmp, s, z)[q] == s[j]
    decreases |s|
  {
    if i == 0 {
      p := 0;
      q := TiesHold(cmp, s[1..], z, j - 1);
      q := q + 1;
    } else {
      p, q := TiesInOrder(cmp, s[1..], z, i - 1, j - 1);
      p, q := p + |Tie(cmp, s[0], z)|, q + |Tie(cmp, s[0], z)|;
    }
  }

  lemma {:induction false} TiesStand(cmp: Order, t: seq<Ref>, z: Ref, p: nat) returns (k: nat)
    requires p < |Ties(cmp, t, z)|
    ensures k < |t| && t[k] == Ties(cmp, t, z)[p]
    decreases |t|
  {
    var n := |Tie(cmp, t[0], z)|;
    if p < n {
      k := 0;
    } else {
      k := TiesStand(cmp, t[1..], z, p - n);
      k := k + 1;
    }
  }

  lemma {:induction false} TiesStandInOrder(cmp: Order, t: seq<Ref>, z: Ref, p: nat, q: nat) returns (k: nat, l: nat)
    requires p < q < |Ties(cmp, t, z)|
    ensures k < l < |t| && t[k] == Ties(cmp, t, z)[p] && t[l] == Ties(cmp, t, z)[q]
    decreases |t|
  {
    var n := |Tie(cmp, t[0], z)|;
    if p < n {
      k := 0;
      l := TiesStand(cmp, t[1..], z, q - n);
      l := l + 1;
    } else {
      k, l := TiesStandInOrder(cmp, t[1..], z, p - n, q - n);
      k, l := k + 1, l + 1;
    }
  }

  /** `x` stands before `y`. */
  ghost predicate StandsBefore(t: seq<Ref>, x: Ref, y: Ref) {
    exists k, l :: 0 <= k < l < |t| && t[k] == x && t[l] == y
  }

  /** No element compares above a later one, and of two that compare equal the one that was ahead still is. */
  lemma StablySortedMeans(cmp: Order, s: seq<Ref>, t: seq<Ref>, u: set<Ref>)
    requires StablySorted(cmp, s, t, u) && Preorder(cmp, u) && Over(s, u)
    ensures multiset(t) == multiset(s)
    ensures forall i, j :: 0 <= i < j < |t| ==> cmp(t[i], t[j]) <= 0
    ensures forall i, j :: 0 <= i < j < |s| && cmp(s[i], s[j]) <= 0 && cmp(s[j], s[i]) <= 0 ==> StandsBefore(t, s[i], s[j])
  {
    forall i, j | 0 <= i < j < |t| ensures cmp(t[i], t[j]) <= 0 {
      assert Le(cmp, t[i], t[j]);
    }
    forall i, j | 0 <= i < j < |s| && cmp(s[i], s[j]) <= 0 && cmp(s[j], s[i]) <= 0 ensures StandsBefore(t, s[i], s[j]) {
      assert Le(cmp, s[i], s[i]);
      var p, q := TiesInOrder(cmp, s, s[i], i, j);
      var k, l := TiesStandInOrder(cmp, t, s[i], p, q);
    }
  }

  // ---------- merging two runs ----------

  /** The run `p` goes first where the two compare equal. */
  function Merge(cmp: Order, p: seq<Ref>, q: seq<Ref>): seq<Ref>
    decreases |p| + |q|
  {
    if p == [] then q
    else if q == [] then p
    else if Le(cmp, p[0], q[0]) then [p[0]] + Merge(cmp, p[1..], q)
    else [q[0]] + Merge(cmp, p, q[1..])
  }

  lemma {:induction false} MergeSame(cmp: Order, p: seq<Ref>, q: seq<Ref>)
    ensures multiset(Merge(cmp, p, q)) == multiset(p) + multiset(q)
    decreases |p| + |q|
  {
    if p == [] || q == [] {
    } else {
      if Le(cmp, p[0], q[0]) {
        assert p == [p[0]] + p[1..];
        MergeSame(cmp, p[1..], q);
      } else {
        assert q == [q[0]] + q[1..];
        MergeSame(cmp, p, q[1..]);
      }
    }
  }

  lemma MergeMember(cmp: Order, p: seq<Ref>, q: seq<Ref>, i: nat)
    requires i < |Merge(cmp, p, q)|
    ensures Merge(cmp, p, q)[i] in p || Merge(cmp, p, q)[i] in q
  {
    MergeSame(cmp, p, q);
    assert Merge(cmp, p, q)[i] in multiset(Merge(cmp, p, q));
  }

  lemma SortedCons(cmp: Order, x: Ref, s: seq<Ref>)
    requires Sorted(cmp, s) && forall i :: 0 <= i < |s| ==> Le(cmp, x, s[i])
    ensures Sorted(cmp, [x] + s)
  {
  }

  lemma {:induction false} MergeSorted(cmp: Order, p: seq<Ref>, q: seq<Ref>, u: set<Ref>)
    requires Preorder(cmp, u) && Over(p, u) && Over(q, u) && Sorted(cmp, p) && Sorted(cmp, q)
    ensures Sorted(cmp, Merge(cmp, p, q))
    decreases |p| + |q|
  {
    if p == [] || q == [] {
    } else {
      if Le(cmp, p[0], q[0]) {
        MergeSorted(cmp, p[1..], q, u);
        var m := Merge(cmp, p[1..], q);
        forall i | 0 <= i < |m| ensures Le(cmp, p[0], m[i]) {
          MergeMember(cmp, p[1..], q, i);
        }
        SortedCons(cmp, p[0], m);
      } else {
        MergeSorted(cmp, p, q[1..], u);
        var m := Merge(cmp, p, q[1..]);
        forall i | 0 <= i < |m| ensures Le(cmp, q[0], m[i]) {
          MergeMember(cmp, p, q[1..], i);
        }
        SortedCons(cmp, q[0], m);
      }
    }
  }

  lemma NotBelow(cmp: Order, u: set<Ref>, p0: Ref, p: Ref, q0: Ref, z: Ref)
    requires Preorder(cmp, u) && p0 in u && p in u && q0 in u && z in u
    requires (p == p0 || Le(cmp, p0, p)) && !Le(cmp, p0, q0) && Le(cmp, z, q0)
    ensures !Le(cmp, p, z)
  {
  }

  lemma Regrouped(a: seq<Ref>, b: seq<Ref>, c: seq<Ref>)
    ensures a + (b + c) == a + b + c
    ensures a == [] || b == [] ==> a + (b + c) == b + (a + c)
  {
  }

  /** A handle of the second run goes first only when nothing left in the first run ties with what it ties with. */
  lemma NoTiesBefore(cmp: Order, p: seq<Ref>, q0: Ref, u: set<Ref>, z: Ref)
    requires Preorder(cmp, u) && Over(p, u) && q0 in u && z in u && Sorted(cmp, p) && p != [] && !Le(cmp, p[0], q0)
    ensures Tie(cmp, q0, z) == [] || Ties(cmp, p, z) == []
  {
    if Tie(cmp, q0, z) != [] {
      forall i | 0 <= i < |p| ensures !Le(cmp, p[i], z) {
        NotBelow(cmp, u, p[0], p[i], q0, z);
      }
      NoTies(cmp, p, z);
    }
  }

  lemma {:induction false} MergeTies(cmp: Order, p: seq<Ref>, q: seq<Ref>, u: set<Ref>, z: Ref)
    requires Preorder(cmp, u) && Over(p, u) && Over(q, u) && Sorted(cmp, p) && Sorted(cmp, q) && z in u
    ensures Ties(cmp, Merge(cmp, p, q), z) == Ties(cmp, p, z) + Ties(cmp, q, z)
    decreases |p| + |q|
  {
    if p == [] || q == [] {
    } else if Le(cmp, p[0], q[0]) {
      var m := Merge(cmp, p[1..], q);
      MergeTies(cmp, p[1..], q, u, z);
      assert ([p[0]] + m)[1..] == m;
      Regrouped(Tie(cmp, p[0], z), Ties(cmp, p[1..], z), Ties(cmp, q, z));
    } else {
      var m := Merge(cmp, p, q[1..]);
      MergeTies(cmp, p, q[1..], u, z);
      assert ([q[0]] + m)[1..] == m;
      NoTiesBefore(cmp, p, q[0], u, z);
      Regrouped(Tie(cmp, q[0], z), Ties(cmp, p, z), Ties(cmp, q[1..], z));
    }
  }

  // ---------- one pass, and all of them ----------

  function Cut(s: seq<Ref>, w: nat): nat { if w < |s| then w else |s| }

  /** Runs of width `w` merged two by two. */
  function MergePass(cmp: Order, s: seq<Ref>, w: nat): seq<Ref>
    requires 0 < w
    decreases |s|
  {
    if s == [] then []
    else Merge(cmp, s[..Cut(s, w)], s[Cut(s, w)..Cut(s, 2 * w)]) + MergePass(cmp, s[Cut(s, 2 * w)..], w)
  }

  /** The number of merges in a pass. */
  function Merges(n: nat, w: nat): nat
    requires 0 < w
  {
    if n == 0 then 0 else 1 + Merges(if n < 2 * w then 0 else n - 2 * w, w)
  }

  ghost predicate SortedRuns(cmp: Order, s: seq<Ref>, w: nat)
    requires 0 < w
    decreases |s|
  {
    s == [] || (Sorted(cmp, s[..Cut(s, w)]) && SortedRuns(cmp, s[Cut(s, w)..], w))
  }

  /** The pass's first merge and what is left for the others. */
  lemma Split(s: seq<Ref>, w: nat)
    requires 0 < w && s != []
    ensures s == s[..Cut(s, w)] + s[Cut(s, w)..Cut(s, 2 * w)] + s[Cut(s, 2 * w)..]
    ensures s[Cut(s, w)..][..Cut(s[Cut(s, w)..], w)] == s[Cut(s, w)..Cut(s, 2 * w)]
    ensures s[Cut(s, w)..][Cut(s[Cut(s, w)..], w)..] == s[Cut(s, 2 * w)..]
  {
    assert Cut(s[Cut(s, w)..], w) == Cut(s, 2 * w) - Cut(s, w);
    Parted(s, Cut(s, w), Cut(s, 2 * w));
  }

  lemma Parted(s: seq<Ref>, a: nat, b: nat)
    requires a <= b <= |s|
    ensures s == s[..a] + s[a..b] + s[b..] && s[a..][..b - a] == s[a..b] && s[a..][b - a..] == s[b..]
  {
  }

  lemma RunsSplit(cmp: Order, s: seq<Ref>, w: nat)
    requires 0 < w && s != [] && SortedRuns(cmp, s, w)
    ensures Sorted(cmp, s[..Cut(s, w)]) && Sorted(cmp, s[Cut(s, w)..Cut(s, 2 * w)])
    ensures SortedRuns(cmp, s[Cut(s, 2 * w)..], w)
  {
    Split(s, w);
  }

  lemma {:induction false} PassSame(cmp: Order, s: seq<Ref>, w: nat)
    requires 0 < w
    ensures multiset(MergePass(cmp, s, w)) == multiset(s)
    decreases |s|
  {
    if s == [] {
    } else {
      Split(s, w);
      MergeSame(cmp, s[..Cut(s, w)], s[Cut(s, w)..Cut(s, 2 * w)]);
      PassSame(cmp, s[Cut(s, 2 * w)..], w);
    }
  }

  lemma {:induction false} PassTies(cmp: Order, s: seq<Ref>, w: nat, u: set<Ref>, z: Ref)
    requires 0 < w && Preorder(cmp, u) && Over(s, u) && SortedRuns(cmp, s, w) && z in u
    ensures Ties(cmp, MergePass(cmp, s, w), z) == Ties(cmp, s, z)
    decreases |s|
  {
    if s == [] {
    } else {
      var p, q, rest := s[..Cut(s, w)], s[Cut(s, w)..Cut(s, 2 * w)], s[Cut(s, 2 * w)..];
      RunsSplit(cmp, s, w);
      MergeTies(cmp, p, q, u, z);
      PassTies(cmp, rest, w, u, z);
      TiesStep(cmp, p, q, rest, Merge(cmp, p, q), MergePass(cmp, rest, w), z);
      FirstMerge(cmp, s, w, p, q, rest);
    }
  }

  lemma FirstMerge(cmp: Order, s: seq<Ref>, w: nat, p: seq<Ref>, q: seq<Ref>, rest: seq<Ref>)
    requires 0 < w && s != [] && p == s[..Cut(s, w)] && q == s[Cut(s, w)..Cut(s, 2 * w)] && rest == s[Cut(s, 2 * w)..]
    ensures s == p + q + rest && MergePass(cmp, s, w) == Merge(cmp, p, q) + MergePass(cmp, rest, w)
  {
    Split(s, w);
  }

  lemma TiesStep(cmp: Order, p: seq<Ref>, q: seq<Ref>, rest: seq<Ref>, m: seq<Ref>, r: seq<Ref>, z: Ref)
    requires Ties(cmp, m, z) == Ties(cmp, p, z) + Ties(cmp, q, z) && Ties(cmp, r, z) == Ties(cmp, rest, z)
    ensures Ties(cmp, m + r, z) == Ties(cmp, p + q + rest, z)
  {
    TiesJoin(cmp, m, r, z);
    TiesJoin(cmp, p + q, rest, z);
    TiesJoin(cmp, p, q, z);
  }

  lemma RunsCons(cmp: Order, m: seq<Ref>, rest: seq<Ref>, w: nat)
    requires 0 < w && Sorted(cmp, m) && SortedRuns(cmp, rest, w)
    requires |m| == w || (|m| < w && rest == [])
    ensures SortedRuns(cmp, m + rest, w)
  {
    var t := m + rest;
    assert t[..Cut(t, w)] == m && t[Cut(t, w)..] == rest;
  }

  lemma {:induction false} PassLength(cmp: Order, s: seq<Ref>, w: nat)
    requires 0 < w
    ensures |MergePass(cmp, s, w)| == |s|
  {
    PassSame(cmp, s, w);
    assert |multiset(MergePass(cmp, s, w))| == |multiset(s)|;
  }

  /** A pass doubles the width of the sorted runs. */
  lemma {:induction false} PassRuns(cmp: Order, s: seq<Ref>, w: nat, u: set<Ref>)
    requires 0 < w && Preorder(cmp, u) && Over(s, u) && SortedRuns(cmp, s, w)
    ensures SortedRuns(cmp, MergePass(cmp, s, w), 2 * w)
    decreases |s|
  {
    if s == [] {
    } else {
      var p, q, rest := s[..Cut(s, w)], s[Cut(s, w)..Cut(s, 2 * w)], s[Cut(s, 2 * w)..];
      RunsSplit(cmp, s, w);
      MergeSorted(cmp, p, q, u);
      MergeLength(cmp, p, q);
      PassRuns(cmp, rest, w, u);
      RunsCons(cmp, Merge(cmp, p, q), MergePass(cmp, rest, w), 2 * w);
    }
  }

  lemma MergeLength(cmp: Order, p: seq<Ref>, q: seq<Ref>)
    ensures |Merge(cmp, p, q)| == |p| + |q|
  {
    MergeSame(cmp, p, q);
    assert |multiset(Merge(cmp, p, q))| == |multiset(p)| + |multiset(q)|;
  }

  lemma OnlyMerge(n: nat, w: nat)
    requires 0 < w
    ensures Merges(n, w) <= 1 <==> n <= 2 * w
  {
  }

  /** Passes of doubling width until one makes a single merge. */
  function Mergesort(cmp: Order, s: seq<Ref>, w: nat): seq<Ref>
    requires 0 < w
    decreases if w < |s| then |s| - w else 0
  {
    OnlyMerge(|s|, w);
    PassLength(cmp, s, w);
    if Merges(|s|, w) <= 1 then MergePass(cmp, s, w) else Mergesort(cmp, MergePass(cmp, s, w), 2 * w)
  }

  lemma SingleRuns(cmp: Order, s: seq<Ref>)
    ensures SortedRuns(cmp, s, 1)
    decreases |s|
  {
    if s == [] {
    } else {
      SingleRuns(cmp, s[1..]);
    }
  }

  lemma OneRun(cmp: Order, s: seq<Ref>, w: nat)
    requires 0 < w && SortedRuns(cmp, s, w) && |s| <= w
    ensures Sorted(cmp, s)
  {
    assert s[..|s|] == s;
  }

  lemma {:induction false} MergesortRuns(cmp: Order, s: seq<Ref>, w: nat, u: set<Ref>)
    requires 0 < w && Preorder(cmp, u) && Over(s, u) && SortedRuns(cmp, s, w)
    ensures StablySorted(cmp, s, Mergesort(cmp, s, w), u)
    decreases if w < |s| then |s| - w else 0
  {
    var t := MergePass(cmp, s, w);
    OnlyMerge(|s|, w);
    PassSame(cmp, s, w);
    PassLength(cmp, s, w);
    PassRuns(cmp, s, w, u);
    forall z | z in u ensures Ties(cmp, t, z) == Ties(cmp, s, z) {
      PassTies(cmp, s, w, u, z);
    }
    if |s| <= 2 * w {
      OneRun(cmp, t, 2 * w);
    } else {
      forall i | 0 <= i < |t| ensures t[i] in u {
        assert t[i] in multiset(t);
      }
      MergesortRuns(cmp, t, 2 * w, u);
    }
  }

  /** Mergesort from runs of width one is a stable sort. */
  lemma MergesortSorts(cmp: Order, s: seq<Ref>, u: set<Ref>)
    requires Preorder(cmp, u) && Over(s, u)
    ensures StablySorted(cmp, s, Mergesort(cmp, s, 1), u)
  {
    SingleRuns(cmp, s);
    MergesortRuns(cmp, s, 1, u);
  }
}
