/** HASH_SRT: the bottom-up mergesort that relinks the application-order list in place. */
module UthashSort {
  import opened UthashList
  import opened UthashChains
  import opened UthashExpand
  import opened UthashMerge
  import opened UthashTable

  function At(s: seq<Ref>, i: nat): Ref { if i < |s| then s[i] else NULL }

  /** The handles from `i` up to `j` still have the successors of the list `s`. */
  ghost predicate Ahead(s: seq<Ref>, i: nat, j: nat, next: Links)
    requires i <= j <= |s|
  {
    forall k :: i <= k < j ==> s[k] != NULL && s[k] in next && next[s[k]] == At(s, k + 1)
  }

  ghost predicate Hooked(out: seq<Ref>, k: nat, prev: Links, next: Links)
    requires k < |out|
  {
    && out[k] != NULL
    && out[k] in prev && prev[out[k]] == Before(out, k)
    && out[k] in next && (k + 1 < |out| ==> next[out[k]] == out[k + 1])
  }

  /** `out` is a list, except that its last handle's successor is not yet set. */
  ghost predicate Put(out: seq<Ref>, prev: Links, next: Links) {
    Distinct(out) && forall k :: 0 <= k < |out| ==> Hooked(out, k, prev, next)
  }

  /** No handle of `s` from `i` up to `j` has been put out. */
  ghost predicate Fresh(s: seq<Ref>, i: nat, j: nat, out: seq<Ref>)
    requires i <= j <= |s|
  {
    forall k :: i <= k < j ==> s[k] !in out
  }

  lemma PutMore(out: seq<Ref>, e: Ref, prev: Links, next: Links, prev': Links, next': Links)
    requires Put(out, prev, next) && e !in out && e != NULL && e in next
    requires prev' == prev[e := Last(out)]
    requires next' == if out == [] then next else next[Last(out) := e]
    ensures Put(out + [e], prev', next')
  {
    var t := out + [e];
    forall k | 0 <= k < |t| ensures Hooked(t, k, prev', next') {
      if k < |out| {
        assert Hooked(out, k, prev, next);
      }
    }
  }

  lemma PutNonNull(out: seq<Ref>, prev: Links, next: Links)
    requires Put(out, prev, next)
    ensures Last(out) == NULL <==> out == []
  {
    if out != [] {
      assert Hooked(out, |out| - 1, prev, next);
    }
  }

  /** Ending the list after the last handle completes it. */
  lemma PutAll(out: seq<Ref>, prev: Links, next: Links, next': Links)
    requires Put(out, prev, next) && out != [] && next' == next[Last(out) := NULL]
    ensures Threaded(out, prev, next')
  {
    forall k | 0 <= k < |out| ensures Linked(out, k, prev, next') {
      assert Hooked(out, k, prev, next);
    }
  }

  lemma AheadOf(s: seq<Ref>, prev: Links, next: Links)
    requires Threaded(s, prev, next)
    ensures Ahead(s, 0, |s|, next)
  {
    forall k | 0 <= k < |s| ensures s[k] != NULL && s[k] in next && next[s[k]] == At(s, k + 1) {
      assert Linked(s, k, prev, next);
    }
  }

  lemma AheadKept(s: seq<Ref>, i: nat, j: nat, out: seq<Ref>, e: Ref, next: Links, next': Links)
    requires i <= j <= |s| && Ahead(s, i, j, next) && Fresh(s, i, j, out)
    requires next' == if out == [] then next else next[Last(out) := e]
    ensures Ahead(s, i, j, next')
  {
    forall k | i <= k < j ensures s[k] != NULL && s[k] in next' && next'[s[k]] == At(s, k + 1) {
      assert s[k] !in out;
    }
  }

  /** Puts `e` at the end of the new list. */
  method Emit(t: Table, e: Ref, list: Ref, tail: Ref, ghost out: seq<Ref>) returns (list': Ref, tail': Ref)
    requires Put(out, t.prev, t.next) && e !in out && e != NULL && e in t.next
    requires list == First(out) && tail == Last(out)
    modifies t`prev, t`next
    ensures Put(out + [e], t.prev, t.next)
    ensures list' == First(out + [e]) && tail' == Last(out + [e])
    ensures t.next == if out == [] then old(t.next) else old(t.next)[Last(out) := e]
  {
    PutNonNull(out, t.prev, t.next);
    list' := list;
    if tail != NULL {
      t.next := t.next[tail := e];
    } else {
      list' := e;
    }
    t.prev := t.prev[e := tail];
    tail' := e;
    PutMore(out, e, old(t.prev), old(t.next), t.prev, t.next);
  }

  lemma AtNull(s: seq<Ref>, lo: nat, k: nat, next: Links)
    requires lo <= k <= |s| && Ahead(s, lo, |s|, next)
    ensures At(s, k) == NULL <==> k == |s|
  {
  }

  /** Counts off the run at `p`. */
  method Advance(t: Table, p: Ref, insize: nat, ghost s: seq<Ref>, ghost lo: nat) returns (q: Ref, psize: nat)
    requires lo < |s| && p == s[lo] && 0 < insize && Ahead(s, lo, |s|, t.next)
    ensures lo + psize <= |s| && psize == (if insize < |s| - lo then insize else |s| - lo)
    ensures q == At(s, lo + psize)
  {
    q, psize := p, 0;
    var i := 0;
    while i < insize
      invariant psize == i <= insize && lo + i < |s| && q == s[lo + i]
    {
      psize := psize + 1;
      q := t.next[q];
      AtNull(s, lo, lo + psize, t.next);
      if q == NULL {
        return;
      }
      i := i + 1;
    }
  }

  /** The two runs being merged: what remains of them, and what has been put out. */
  ghost predicate Merging(s: seq<Ref>, i: nat, mid: nat, j: nat, hi: nat, out: seq<Ref>, next: Links) {
    && i <= mid <= j <= hi <= |s|
    && Ahead(s, i, mid, next) && Ahead(s, j, |s|, next)
    && Fresh(s, i, mid, out) && Fresh(s, j, |s|, out)
    && Distinct(s)
  }

  /** The first run's next handle goes out. */
  lemma TakeFirst(s: seq<Ref>, i: nat, mid: nat, j: nat, hi: nat, out: seq<Ref>, next: Links, next': Links)
    requires Merging(s, i, mid, j, hi, out, next) && i < mid
    requires next' == if out == [] then next else next[Last(out) := s[i]]
    ensures Merging(s, i + 1, mid, j, hi, out + [s[i]], next')
  {
    AheadKept(s, i + 1, mid, out, s[i], next, next');
    AheadKept(s, j, |s|, out, s[i], next, next');
  }

  lemma TakeSecond(s: seq<Ref>, i: nat, mid: nat, j: nat, hi: nat, out: seq<Ref>, next: Links, next': Links)
    requires Merging(s, i, mid, j, hi, out, next) && j < hi
    requires next' == if out == [] then next else next[Last(out) := s[j]]
    ensures Merging(s, i, mid, j + 1, hi, out + [s[j]], next')
  {
    AheadKept(s, i, mid, out, s[j], next, next');
    AheadKept(s, j + 1, |s|, out, s[j], next, next');
  }

  /** Which handle the merge puts out next. */
  lemma MergeStep(cmp: Order, s: seq<Ref>, i: nat, mid: nat, j: nat, hi: nat)
    requires i <= mid <= j <= hi <= |s| && (i < mid || j < hi)
    ensures i < mid && (j == hi || Le(cmp, s[i], s[j])) ==>
      Merge(cmp, s[i..mid], s[j..hi]) == [s[i]] + Merge(cmp, s[i + 1..mid], s[j..hi])
    ensures j < hi && (i == mid || !Le(cmp, s[i], s[j])) ==>
      Merge(cmp, s[i..mid], s[j..hi]) == [s[j]] + Merge(cmp, s[i..mid], s[j + 1..hi])
  {
    if i < mid {
      assert s[i..mid][1..] == s[i + 1..mid];
    }
    if j < hi {
      assert s[j..hi][1..] == s[j + 1..hi];
    }
    MergeNone(cmp, s[i..mid]);
    MergeNone(cmp, s[j..hi]);
    if i < mid {
      MergeNone(cmp, s[i + 1..mid]);
    }
    if j < hi {
      MergeNone(cmp, s[j + 1..hi]);
    }
  }

  lemma MergeNone(cmp: Order, p: seq<Ref>)
    ensures Merge(cmp, p, []) == p && Merge(cmp, [], p) == p
    ensures p != [] ==> p == [p[0]] + p[1..]
  {
  }

  lemma Moved(out: seq<Ref>, e: Ref, before: seq<Ref>, after: seq<Ref>)
    requires before == [e] + after
    ensures out + before == out + [e] + after
  {
  }

  /** The next handle to put out: from the first run where the two compare equal. */
  method Choose(t: Table, cmp: Order, p: Ref, q: Ref, psize: nat, qsize: nat)
      returns (e: Ref, p': Ref, q': Ref, psize': nat, qsize': nat)
    requires psize > 0 || (qsize > 0 && q != NULL)
    requires (psize > 0 ==> p in t.next) && (qsize > 0 && q != NULL ==> q in t.next)
    ensures FromFirst(cmp, p, q, psize, qsize) ==>
      e == p && p' == t.next[p] && psize' == psize - 1 && q' == q && qsize' == qsize
    ensures !FromFirst(cmp, p, q, psize, qsize) ==>
      e == q && q' == t.next[q] && qsize' == qsize - 1 && p' == p && psize' == psize
  {
    p', q', psize', qsize' := p, q, psize, qsize;
    if psize == 0 {
      e := q;
      q' := t.next[q];
      qsize' := qsize - 1;
    } else if qsize == 0 || q == NULL {
      e := p;
      p' := t.next[p];
      psize' := psize - 1;
    } else if cmp(p, q) <= 0 {
      e := p;
      p' := t.next[p];
      psize' := psize - 1;
    } else {
      e := q;
      q' := t.next[q];
      qsize' := qsize - 1;
    }
  }

  ghost predicate FromFirst(cmp: Order, p: Ref, q: Ref, psize: nat, qsize: nat) {
    psize > 0 && (qsize == 0 || q == NULL || Le(cmp, p, q))
  }

  /** What has been put out and what the runs have left make up the whole merge. */
  ghost predicate Makes(cmp: Order, s: seq<Ref>, i: nat, mid: nat, j: nat, hi: nat, out: seq<Ref>, whole: seq<Ref>)
    requires i <= mid <= j <= hi <= |s|
  {
    out + Merge(cmp, s[i..mid], s[j..hi]) == whole
  }

  lemma MakesFirst(cmp: Order, s: seq<Ref>, i: nat, mid: nat, j: nat, hi: nat, out: seq<Ref>, whole: seq<Ref>)
    requires i < mid <= j <= hi <= |s| && (j == hi || Le(cmp, s[i], s[j]))
    requires Makes(cmp, s, i, mid, j, hi, out, whole)
    ensures Makes(cmp, s, i + 1, mid, j, hi, out + [s[i]], whole)
  {
    MergeStep(cmp, s, i, mid, j, hi);
    Moved(out, s[i], Merge(cmp, s[i..mid], s[j..hi]), Merge(cmp, s[i + 1..mid], s[j..hi]));
  }

  lemma MakesSecond(cmp: Order, s: seq<Ref>, i: nat, mid: nat, j: nat, hi: nat, out: seq<Ref>, whole: seq<Ref>)
    requires i <= mid <= j < hi <= |s| && (i == mid || !Le(cmp, s[i], s[j]))
    requires Makes(cmp, s, i, mid, j, hi, out, whole)
    ensures Makes(cmp, s, i, mid, j + 1, hi, out + [s[j]], whole)
  {
    MergeStep(cmp, s, i, mid, j, hi);
    Moved(out, s[j], Merge(cmp, s[i..mid], s[j..hi]), Merge(cmp, s[i..mid], s[j + 1..hi]));
  }

  lemma MakesAll(cmp: Order, s: seq<Ref>, mid: nat, hi: nat, out: seq<Ref>, whole: seq<Ref>)
    requires mid <= hi <= |s| && Makes(cmp, s, mid, mid, hi, hi, out, whole)
    ensures out == whole
  {
    assert s[mid..mid] == [] && s[hi..hi] == [];
  }

  lemma Heads(s: seq<Ref>, i: nat, mid: nat, j: nat, hi: nat, out: seq<Ref>, next: Links)
    requires Merging(s, i, mid, j, hi, out, next)
    ensures i < mid ==> s[i] != NULL && s[i] in next && next[s[i]] == At(s, i + 1) && s[i] !in out
    ensures j < |s| ==> s[j] != NULL && s[j] in next && next[s[j]] == At(s, j + 1) && s[j] !in out
  {
  }

  /** The variables of the merge loop stand at positions `i` and `j` of the two runs. */
  ghost predicate Standing(s: seq<Ref>, i: nat, mid: nat, j: nat, hi: nat, p: Ref, q: Ref, psize: nat, qsize: nat) {
    && i <= mid <= j <= hi <= |s|
    && psize == mid - i && (i < mid ==> p == s[i]) && q == At(s, j)
    && hi == (if j + qsize < |s| then j + qsize else |s|)
  }

  lemma Finished(s: seq<Ref>, i: nat, mid: nat, j: nat, hi: nat, p: Ref, q: Ref, psize: nat, qsize: nat,
                 out: seq<Ref>, next: Links)
    requires Standing(s, i, mid, j, hi, p, q, psize, qsize) && Merging(s, i, mid, j, hi, out, next)
    requires psize == 0 && (qsize == 0 || q == NULL)
    ensures i == mid && j == hi && q == At(s, hi) && Ahead(s, hi, |s|, next) && Fresh(s, hi, |s|, out)
  {
    Heads(s, i, mid, j, hi, out, next);
  }

  /** One handle moves from a run to the new list. */
  method MergeOne(t: Table, cmp: Order, p: Ref, q: Ref, psize: nat, qsize: nat, list: Ref, tail: Ref,
                  ghost s: seq<Ref>, ghost i: nat, ghost mid: nat, ghost j: nat, ghost hi: nat, ghost out: seq<Ref>,
                  ghost whole: seq<Ref>)
      returns (p': Ref, q': Ref, psize': nat, qsize': nat, list': Ref, tail': Ref, ghost i': nat, ghost j': nat, ghost out': seq<Ref>)
    requires Standing(s, i, mid, j, hi, p, q, psize, qsize) && (psize > 0 || (qsize > 0 && q != NULL))
    requires Merging(s, i, mid, j, hi, out, t.next) && Put(out, t.prev, t.next) && Makes(cmp, s, i, mid, j, hi, out, whole)
    requires list == First(out) && tail == Last(out)
    modifies t`prev, t`next
    ensures Standing(s, i', mid, j', hi, p', q', psize', qsize') && psize' + qsize' < psize + qsize
    ensures Merging(s, i', mid, j', hi, out', t.next) && Put(out', t.prev, t.next) && Makes(cmp, s, i', mid, j', hi, out', whole)
    ensures list' == First(out') && tail' == Last(out')
  {
    Heads(s, i, mid, j, hi, out, t.next);
    ghost var next0 := t.next;
    var e;
    e, p', q', psize', qsize' := Choose(t, cmp, p, q, psize, qsize);
    list', tail' := Emit(t, e, list, tail, out);
    out' := out + [e];
    i', j' := i, j;
    if FromFirst(cmp, p, q, psize, qsize) {
      TakeFirst(s, i, mid, j, hi, out, next0, t.next);
      MakesFirst(cmp, s, i, mid, j, hi, out, whole);
      i' := i + 1;
    } else {
      TakeSecond(s, i, mid, j, hi, out, next0, t.next);
      MakesSecond(cmp, s, i, mid, j, hi, out, whole);
      j' := j + 1;
    }
  }

  /** Merges the run of `size` handles at `p` with up to `insize` handles at `q`. */
  method MergeRuns(t: Table, cmp: Order, p0: Ref, q0: Ref, size: nat, insize: nat, list0: Ref, tail0: Ref,
                   ghost s: seq<Ref>, ghost lo: nat, ghost mid: nat, ghost hi: nat, ghost out0: seq<Ref>)
      returns (q: Ref, list: Ref, tail: Ref, ghost out: seq<Ref>)
    requires lo < mid && Standing(s, lo, mid, mid, hi, p0, q0, size, insize)
    requires Merging(s, lo, mid, mid, hi, out0, t.next) && Put(out0, t.prev, t.next)
    requires list0 == First(out0) && tail0 == Last(out0)
    modifies t`prev, t`next
    ensures out == out0 + Merge(cmp, s[lo..mid], s[mid..hi])
    ensures Put(out, t.prev, t.next) && Ahead(s, hi, |s|, t.next) && Fresh(s, hi, |s|, out)
    ensures q == At(s, hi) && list == First(out) && tail == Last(out)
  {
    ghost var whole := out0 + Merge(cmp, s[lo..mid], s[mid..hi]);
    var p, psize, qsize := p0, size, insize;
    q, list, tail, out := q0, list0, tail0, out0;
    ghost var i: nat, j: nat := lo, mid;
    while psize > 0 || (qsize > 0 && q != NULL)
      invariant Standing(s, i, mid, j, hi, p, q, psize, qsize) && Merging(s, i, mid, j, hi, out, t.next)
      invariant Put(out, t.prev, t.next) && Makes(cmp, s, i, mid, j, hi, out, whole)
      invariant list == First(out) && tail == Last(out)
      decreases psize + qsize
    {
      p, q, psize, qsize, list, tail, i, j, out :=
        MergeOne(t, cmp, p, q, psize, qsize, list, tail, s, i, mid, j, hi, out, whole);
    }
    Finished(s, i, mid, j, hi, p, q, psize, qsize, out, t.next);
    MakesAll(cmp, s, mid, hi, out, whole);
  }

  /** What the merges so far have put out and what the rest of the pass will. */
  ghost predicate Passes(cmp: Order, s: seq<Ref>, rest: seq<Ref>, w: nat, out: seq<Ref>, nmerges: nat)
    requires 0 < w
  {
    && out + MergePass(cmp, rest, w) == MergePass(cmp, s, w)
    && nmerges + Merges(|rest|, w) == Merges(|s|, w)
  }

  /** The two runs at `lo` and what follows them, as the pass cuts them off. */
  lemma Slices(s: seq<Ref>, lo: nat, mid: nat, hi: nat, w: nat)
    requires 0 < w && lo < |s| && mid == lo + (if w < |s| - lo then w else |s| - lo)
    requires hi == (if mid + w < |s| then mid + w else |s|)
    ensures mid <= hi <= |s| && s[lo..] != []
    ensures s[lo..mid] == s[lo..][..Cut(s[lo..], w)]
    ensures s[mid..hi] == s[lo..][Cut(s[lo..], w)..Cut(s[lo..], 2 * w)]
    ensures s[hi..] == s[lo..][Cut(s[lo..], 2 * w)..]
  {
  }

  lemma PassStep(cmp: Order, r: seq<Ref>, w: nat, p: seq<Ref>, q: seq<Ref>, rest: seq<Ref>)
    requires 0 < w && r != []
    requires p == r[..Cut(r, w)] && q == r[Cut(r, w)..Cut(r, 2 * w)] && rest == r[Cut(r, 2 * w)..]
    ensures MergePass(cmp, r, w) == Merge(cmp, p, q) + MergePass(cmp, rest, w)
    ensures Merges(|r|, w) == 1 + Merges(|rest|, w)
  {
    MergesStep(|r|, w, Cut(r, 2 * w));
  }

  lemma MergesStep(n: nat, w: nat, cut: nat)
    requires 0 < w && 0 < n && cut == (if 2 * w < n then 2 * w else n)
    ensures Merges(n, w) == 1 + Merges(n - cut, w)
  {
  }

  lemma PassesOne(cmp: Order, s: seq<Ref>, w: nat, r: seq<Ref>, p: seq<Ref>, q: seq<Ref>, rest: seq<Ref>,
                  out: seq<Ref>, out': seq<Ref>, nmerges: nat)
    requires 0 < w && r != [] && Passes(cmp, s, r, w, out, nmerges)
    requires p == r[..Cut(r, w)] && q == r[Cut(r, w)..Cut(r, 2 * w)] && rest == r[Cut(r, 2 * w)..]
    requires out' == out + Merge(cmp, p, q)
    ensures Passes(cmp, s, rest, w, out', nmerges + 1)
  {
    PassStep(cmp, r, w, p, q, rest);
    Regrouped(out, Merge(cmp, p, q), MergePass(cmp, rest, w));
  }

  lemma PassesAll(cmp: Order, s: seq<Ref>, w: nat, out: seq<Ref>, nmerges: nat)
    requires 0 < w && Passes(cmp, s, [], w, out, nmerges)
    ensures out == MergePass(cmp, s, w) && nmerges == Merges(|s|, w)
  {
  }

  /** Where a pass stands: everything before `lo` has been put out, in merged pairs of runs. */
  ghost predicate Between(s: seq<Ref>, lo: nat, p: Ref, out: seq<Ref>, prev: Links, next: Links) {
    && lo <= |s| && p == At(s, lo)
    && Distinct(s) && Ahead(s, lo, |s|, next) && Fresh(s, lo, |s|, out)
    && Put(out, prev, next)
  }

  lemma Opened(s: seq<Ref>, lo: nat, mid: nat, hi: nat, p: Ref, q: Ref, w: nat, out: seq<Ref>, prev: Links, next: Links)
    requires 0 < w && lo < |s| && Between(s, lo, p, out, prev, next)
    requires mid == lo + (if w < |s| - lo then w else |s| - lo) && q == At(s, mid)
    requires hi == (if mid + w < |s| then mid + w else |s|)
    ensures mid <= |s| && Merging(s, lo, mid, mid, hi, out, next)
    ensures Standing(s, lo, mid, mid, hi, p, q, mid - lo, w)
  {
  }

  lemma AtEnd(s: seq<Ref>, lo: nat, p: Ref, out: seq<Ref>, prev: Links, next: Links)
    requires Between(s, lo, p, out, prev, next) && p == NULL
    ensures lo == |s|
  {
  }

  /** Merges the next two runs of a pass. */
  method MergePair(t: Table, cmp: Order, p: Ref, insize: nat, list0: Ref, tail0: Ref,
                   ghost s: seq<Ref>, ghost lo: nat, ghost out0: seq<Ref>, ghost nmerges: nat)
      returns (q: Ref, list: Ref, tail: Ref, ghost hi: nat, ghost out: seq<Ref>)
    requires 0 < insize && lo < |s| && Between(s, lo, p, out0, t.prev, t.next) && Passes(cmp, s, s[lo..], insize, out0, nmerges)
    requires list0 == First(out0) && tail0 == Last(out0)
    modifies t`prev, t`next
    ensures lo < hi && Between(s, hi, q, out, t.prev, t.next) && Passes(cmp, s, s[hi..], insize, out, nmerges + 1)
    ensures list == First(out) && tail == Last(out)
  {
    var psize;
    q, psize := Advance(t, p, insize, s, lo);
    ghost var mid := lo + psize;
    hi := if mid + insize < |s| then mid + insize else |s|;
    Opened(s, lo, mid, hi, p, q, insize, out0, t.prev, t.next);
    q, list, tail, out := MergeRuns(t, cmp, p, q, psize, insize, list0, tail0, s, lo, mid, hi, out0);
    Slices(s, lo, mid, hi, insize);
    PassesOne(cmp, s, insize, s[lo..], s[lo..mid], s[mid..hi], s[hi..], out0, out, nmerges);
  }

  /** One pass over the list, up to the point where its end is marked. */
  method MergeLists(t: Table, cmp: Order, first: Ref, insize: nat, ghost s: seq<Ref>)
      returns (list: Ref, tail: Ref, nmerges: nat, ghost out: seq<Ref>)
    requires 0 < insize && s != [] && Distinct(s) && Threaded(s, t.prev, t.next) && first == s[0]
    modifies t`prev, t`next
    ensures out == MergePass(cmp, s, insize) && Put(out, t.prev, t.next)
    ensures list == First(out) && tail == Last(out) && nmerges == Merges(|s|, insize)
  {
    AheadOf(s, t.prev, t.next);
    var p := first;
    list, tail, nmerges, out := NULL, NULL, 0, [];
    ghost var lo: nat := 0;
    PassesNone(cmp, s, insize);
    while p != NULL
      invariant Between(s, lo, p, out, t.prev, t.next) && Passes(cmp, s, s[lo..], insize, out, nmerges)
      invariant list == First(out) && tail == Last(out)
      decreases |s| - lo
    {
      p, list, tail, lo, out := MergePair(t, cmp, p, insize, list, tail, s, lo, out, nmerges);
      nmerges := nmerges + 1;
    }
    AtEnd(s, lo, p, out, t.prev, t.next);
    assert s[lo..] == [];
    PassesAll(cmp, s, insize, out, nmerges);
  }

  lemma PassesNone(cmp: Order, s: seq<Ref>, w: nat)
    requires 0 < w
    ensures Passes(cmp, s, s[0..], w, [], 0)
  {
    assert s[0..] == s;
  }

  /** A pass leaves a complete list. */
  method Pass(t: Table, cmp: Order, first: Ref, insize: nat, ghost s: seq<Ref>)
      returns (list: Ref, tail: Ref, nmerges: nat)
    requires 0 < insize && s != [] && Distinct(s) && Threaded(s, t.prev, t.next) && first == s[0]
    modifies t`prev, t`next
    ensures Threaded(MergePass(cmp, s, insize), t.prev, t.next) && Distinct(MergePass(cmp, s, insize))
    ensures list == First(MergePass(cmp, s, insize)) && tail == Last(MergePass(cmp, s, insize))
    ensures nmerges == Merges(|s|, insize)
  {
    ghost var out;
    list, tail, nmerges, out := MergeLists(t, cmp, first, insize, s);
    PassLength(cmp, s, insize);
    PutNonNull(out, t.prev, t.next);
    ghost var next0 := t.next;
    if tail != NULL {
      t.next := t.next[tail := NULL];
    }
    PutAll(out, t.prev, next0, t.next);
  }

  /** One pass less is to come. */
  lemma PassDone(cmp: Order, s: seq<Ref>, w: nat)
    requires 0 < w && s != []
    ensures MergePass(cmp, s, w) != []
    ensures Mergesort(cmp, s, w) ==
      if Merges(|s|, w) <= 1 then MergePass(cmp, s, w) else Mergesort(cmp, MergePass(cmp, s, w), w * 2)
    ensures |MergePass(cmp, s, w)| == |s| && (Merges(|s|, w) <= 1 <==> |s| <= 2 * w)
  {
    PassLength(cmp, s, w);
    OnlyMerge(|s|, w);
  }

  /** The passes of HASH_SRT. */
  method SortLists(t: Table, cmp: Order)
    requires t.order != [] && Distinct(t.order) && Threaded(t.order, t.prev, t.next) && t.head == t.order[0]
    modifies t`head, t`tail, t`prev, t`next
    ensures var s := Mergesort(cmp, t.order, 1);
      Threaded(s, t.prev, t.next) && Distinct(s) && t.head == First(s) && t.tail == Last(s)
  {
    var insize, looping := 1, true;
    var list, tail := t.head, t.tail;
    ghost var s := t.order;
    ghost var goal := Mergesort(cmp, t.order, 1);
    while looping
      invariant 0 < insize && s != [] && Distinct(s) && Threaded(s, t.prev, t.next) && list == s[0]
      invariant looping ==> Mergesort(cmp, s, insize) == goal
      invariant !looping ==> s == goal && t.head == list && t.tail == Last(s)
      decreases looping, if insize < |s| then |s| - insize else 0
    {
      PassDone(cmp, s, insize);
      var nmerges;
      list, tail, nmerges := Pass(t, cmp, list, insize, s);
      s := MergePass(cmp, s, insize);
      if nmerges <= 1 {
        looping := false;
        t.tail := tail;
        t.head := list;
      }
      insize := insize * 2;
    }
  }

  lemma SameItems(s: seq<Ref>, t: seq<Ref>)
    requires multiset(s) == multiset(t)
    ensures |s| == |t| && forall x :: x in s <==> x in t
  {
    assert |multiset(s)| == |multiset(t)|;
    forall x ensures x in s <==> x in t {
      assert x in s <==> x in multiset(s);
      assert x in t <==> x in multiset(t);
    }
  }

  lemma PlacedAgain(chains: seq<seq<Ref>>, s: seq<Ref>, t: seq<Ref>, hashv: map<Ref, nat>)
    requires AllPlaced(chains, s, hashv) && forall x :: x in s <==> x in t
    ensures AllPlaced(chains, t, hashv)
  {
    forall b | 0 <= b < |chains| ensures Placed(chains[b], b, |chains|, t, hashv) {
      assert Placed(chains[b], b, |chains|, s, hashv);
    }
  }

  /** The table holds the same items, in another order. */
  method SortItems(t: Table, cmp: Order)
    requires t.Valid() && t.order != [] && multiset(Mergesort(cmp, t.order, 1)) == multiset(t.order)
    modifies t`head, t`tail, t`prev, t`next, t`order
    ensures t.Valid() && t.order == Mergesort(cmp, old(t.order), 1)
  {
    ghost var s := Mergesort(cmp, t.order, 1);
    SameItems(t.order, s);
    PlacedAgain(t.chains, t.order, s, t.hashv);
    SortLists(t, cmp);
    t.order := s;
  }

  /** HASH_SRT */
  method Sort(t: Table, cmp: Order, ghost u: set<Ref>)
    requires t.Valid() && Preorder(cmp, u) && Over(t.order, u)
    modifies t`head, t`tail, t`prev, t`next, t`order
    ensures t.Valid() && t.Unexpanded()
    ensures t.order == Mergesort(cmp, old(t.order), 1)
    ensures StablySorted(cmp, old(t.order), t.order, u) && multiset(t.order) == multiset(old(t.order))
    ensures forall i, j :: 0 <= i < j < |t.order| ==> cmp(t.order[i], t.order[j]) <= 0
    ensures var s := old(t.order);
      forall i, j :: 0 <= i < j < |s| && cmp(s[i], s[j]) <= 0 && cmp(s[j], s[i]) <= 0 ==> StandsBefore(t.order, s[i], s[j])
  {
    HeadNull(t.order, t.prev, t.next);
    MergesortSorts(cmp, t.order, u);
    StablySortedMeans(cmp, t.order, Mergesort(cmp, t.order, 1), u);
    if t.head != NULL {
      SortItems(t, cmp);
    }
  }
}
