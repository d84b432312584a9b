/** Pure facts behind the table's steps: the history of doublings, and what an expansion has moved so far. */
module UthashExpand {
  import opened Numbers
  import opened UthashBits
  import opened UthashList
  import opened UthashChains
  import opened UthashBound

  // ---------- keys ----------

  type Key = seq<Byte>

  /** Every item carries its key's hash value, and no two have the same key. */
  ghost predicate Keyed(items: seq<Ref>, key: map<Ref, Key>, hashv: map<Ref, nat>, fcn: Key -> nat) {
    && (forall x :: x in items ==> x in key && x in hashv && hashv[x] == fcn(key[x]))
    && (forall x, y :: x in items && y in items && key[x] == key[y] ==> x == y)
  }

  /** The items as a map. */
  ghost function AsMap(items: seq<Ref>, key: map<Ref, Key>): map<Key, Ref>
    requires forall x :: x in items ==> x in key
    requires forall x, y :: x in items && y in items && key[x] == key[y] ==> x == y
  {
    map x | x in items :: key[x] := x
  }

  lemma KeyedMore(items: seq<Ref>, key: map<Ref, Key>, hashv: map<Ref, nat>, fcn: Key -> nat, x: Ref, k: Key)
    requires Keyed(items, key, hashv, fcn) && x !in items && forall y :: y in items ==> key[y] != k
    ensures Keyed(items + [x], key[x := k], hashv[x := fcn(k)], fcn)
  {
  }

  lemma MapMore(items: seq<Ref>, key: map<Ref, Key>, hashv: map<Ref, nat>, fcn: Key -> nat, x: Ref, k: Key)
    requires Keyed(items, key, hashv, fcn) && x !in items && forall y :: y in items ==> key[y] != k
    requires Keyed(items + [x], key[x := k], hashv[x := fcn(k)], fcn)
    ensures AsMap(items + [x], key[x := k]) == AsMap(items, key)[k := x]
  {
    var m := AsMap(items + [x], key[x := k]);
    assert x in items + [x] && key[x := k][x] == k;
    forall j | j in AsMap(items, key)[k := x] ensures j in m && m[j] == AsMap(items, key)[k := x][j] {
      if j != k {
        var y := AsMap(items, key)[j];
        assert y in items + [x] && key[x := k][y] == j;
      }
    }
  }

  lemma KeyedLess(items: seq<Ref>, key: map<Ref, Key>, hashv: map<Ref, nat>, fcn: Key -> nat, k: nat)
    requires Keyed(items, key, hashv, fcn) && Distinct(items) && k < |items|
    ensures Keyed(Without(items, k), key, hashv, fcn)
  {
    Members(items, k);
  }

  lemma MapLess(items: seq<Ref>, key: map<Ref, Key>, hashv: map<Ref, nat>, fcn: Key -> nat, k: nat)
    requires Keyed(items, key, hashv, fcn) && Distinct(items) && k < |items|
    requires Keyed(Without(items, k), key, hashv, fcn)
    ensures AsMap(Without(items, k), key) == AsMap(items, key) - {key[items[k]]}
  {
    var m, n := AsMap(Without(items, k), key), AsMap(items, key) - {key[items[k]]};
    assert forall j :: j in m <==> j in n by {
      KeysLess(items, key, hashv, fcn, k);
    }
    forall j | j in m ensures m[j] == n[j] {
      Members(items, k);
    }
  }

  lemma KeysLess(items: seq<Ref>, key: map<Ref, Key>, hashv: map<Ref, nat>, fcn: Key -> nat, k: nat)
    requires Keyed(items, key, hashv, fcn) && Distinct(items) && k < |items|
    requires Keyed(Without(items, k), key, hashv, fcn)
    ensures forall j :: j in AsMap(Without(items, k), key) <==> j in AsMap(items, key) && j != key[items[k]]
  {
    Members(items, k);
    forall j | j in AsMap(items, key) && j != key[items[k]] ensures j in AsMap(Without(items, k), key) {
      var y := AsMap(items, key)[j];
      assert y in Without(items, k) && key[y] == j;
    }
  }

  lemma Overwritten(m: map<Key, Ref>, k: Key, x: Ref)
    ensures (m - {k})[k := x] == m[k := x]
  {
  }

  // ---------- how many items a bucket gets ----------

  /** Whether `x` belongs to bucket `b` of `n`. */
  predicate Selects(key: map<Ref, Key>, fcn: Key -> nat, n: nat, b: nat, x: Ref)
    requires 0 < n
  {
    x in key && fcn(key[x]) % n == b
  }

  /** The number of items whose hash values select bucket `b` of `n`. */
  function Load(items: seq<Ref>, key: map<Ref, Key>, fcn: Key -> nat, n: nat, b: nat): nat
    requires 0 < n
  {
    if items == [] then 0
    else
      Load(items[..|items| - 1], key, fcn, n, b) + if Selects(key, fcn, n, b, items[|items| - 1]) then 1 else 0
  }

  lemma LoadMore(items: seq<Ref>, x: Ref, key: map<Ref, Key>, fcn: Key -> nat, n: nat, b: nat)
    requires 0 < n
    ensures Load(items + [x], key, fcn, n, b) == Load(items, key, fcn, n, b) + if Selects(key, fcn, n, b, x) then 1 else 0
  {
    assert (items + [x])[..|items|] == items;
  }

  lemma {:induction false} LoadKept(items: seq<Ref>, key: map<Ref, Key>, key': map<Ref, Key>, fcn: Key -> nat, n: nat, b: nat)
    requires 0 < n && forall i :: 0 <= i < |items| ==> Selects(key, fcn, n, b, items[i]) == Selects(key', fcn, n, b, items[i])
    ensures Load(items, key, fcn, n, b) == Load(items, key', fcn, n, b)
    decreases |items|
  {
    if items == [] {
    } else {
      LoadKept(items[..|items| - 1], key, key', fcn, n, b);
    }
  }

  lemma HasFirst(s: seq<Ref>)
    ensures s == [] || s[0] in s
  {
  }

  /** A chain that holds just the items of the bucket, each once, is as long as its load. */
  lemma {:induction false} LoadIs(items: seq<Ref>, chain: seq<Ref>, key: map<Ref, Key>, fcn: Key -> nat, n: nat, b: nat)
    requires 0 < n && Distinct(items) && Distinct(chain)
    requires forall x :: x in chain <==> x in items && Selects(key, fcn, n, b, x)
    ensures Load(items, key, fcn, n, b) == |chain|
    decreases |items|
  {
    if items == [] {
      HasFirst(chain);
    } else {
      var m := |items| - 1;
      var x := items[m];
      assert items == items[..m] + [x];
      if x in chain {
        var k := IndexOf(chain, x);
        Members(chain, k);
        LoadIs(items[..m], Without(chain, k), key, fcn, n, b);
      } else {
        LoadIs(items[..m], chain, key, fcn, n, b);
      }
    }
  }

  /** What a chain holds, told by keys. */
  lemma PlacedLoad(chain: seq<Ref>, b: nat, n: nat, items: seq<Ref>, key: map<Ref, Key>, hashv: map<Ref, nat>, fcn: Key -> nat)
    requires 0 < n && Placed(chain, b, n, items, hashv) && Keyed(items, key, hashv, fcn) && Distinct(items) && Distinct(chain)
    ensures Load(items, key, fcn, n, b) == |chain|
  {
    LoadIs(items, chain, key, fcn, n, b);
  }

  // ---------- the history of doublings ----------

  /** How many doublings at the end of the history were ineffective. */
  function Run(history: seq<bool>): nat {
    if history == [] || !history[|history| - 1] then 0 else Run(history[..|history| - 1]) + 1
  }

  /** Two successive doublings were ineffective. */
  predicate Twice(history: seq<bool>) {
    exists i :: 0 < i < |history| && history[i - 1] && history[i]
  }

  ghost predicate Inhibited(ineff_expands: nat, noexpand: nat, history: seq<bool>) {
    && ineff_expands == Run(history)
    && noexpand <= 1
    && (noexpand == 1 <==> Twice(history))
  }

  lemma InhibitedMore(ineff_expands: nat, noexpand: nat, history: seq<bool>, e: bool, ineff': nat, noexpand': nat)
    requires Inhibited(ineff_expands, noexpand, history) && noexpand != 1
    requires ineff' == (if e then ineff_expands + 1 else 0) && noexpand' == (if ineff' > 1 then 1 else noexpand)
    ensures Inhibited(ineff', noexpand', history + [e])
  {
    var h := history + [e];
    assert h[..|history|] == history;
    assert ineff' == Run(h);
    if ineff' > 1 {
      assert h[|h| - 2] && h[|h| - 1];
    } else {
      forall i | 0 < i < |h| ensures !(h[i - 1] && h[i]) {
        if i < |history| {
          assert !(history[i - 1] && history[i]);
        }
      }
    }
  }

  // ---------- the bucket side, told from the items alone ----------

  /** The bucket side of a table: threshold multipliers, records of the last doubling, inhibition and history. */
  datatype Phase =
    | NoTable
    | Phase(mults: seq<nat>, ideal: nat, nonideal: nat, inhibited: bool, history: seq<bool>)

  /** The phase of a new table. */
  function FreshPhase(): Phase { Phase(seq(32, _ => 0), 0, 0, false, []) }

  function Loads(items: seq<Ref>, key: map<Ref, Key>, fcn: Key -> nat, n: nat): (t: seq<nat>)
    requires 0 < n
    ensures |t| == n && forall b :: 0 <= b < n ==> t[b] == Load(items, key, fcn, n, b)
  {
    seq(n, b requires 0 <= b < n => Load(items, key, fcn, n, b))
  }

  function Overs(loads: seq<nat>, ideal: nat): (t: seq<nat>)
    ensures |t| == |loads| && forall b :: 0 <= b < |t| ==> t[b] == Excess(loads[b], ideal)
  {
    seq(|loads|, b requires 0 <= b < |loads| => Excess(loads[b], ideal))
  }

  function NewMults(loads: seq<nat>, ideal: nat): (t: seq<nat>)
    requires 0 < ideal
    ensures |t| == |loads| && forall b :: 0 <= b < |t| ==> t[b] == Mult(loads[b], ideal)
  {
    seq(|loads|, b requires 0 <= b < |loads| => Mult(loads[b], ideal))
  }

  /** What a doubling records of the new loads. */
  function Recorded(history: seq<bool>, loads: seq<nat>, ideal: nat, n: nat): Phase
    requires 0 < ideal
  {
    Noted(NewMults(loads, ideal), ideal, Total(Overs(loads, ideal)), history + [Total(Overs(loads, ideal)) > n / 2])
  }

  function Noted(mults: seq<nat>, ideal: nat, nonideal: nat, history: seq<bool>): Phase {
    Phase(mults, ideal, nonideal, Twice(history), history)
  }

  /** The phase after a doubling. */
  function Grown(x: Phase, items: seq<Ref>, key: map<Ref, Key>, fcn: Key -> nat): Phase
    requires x.Phase? && x.mults != [] && items != []
  {
    CeilRange(|items|, 2 * |x.mults|);
    Recorded(x.history, Loads(items, key, fcn, 2 * |x.mults|), Ceil(|items|, 2 * |x.mults|), |items|)
  }

  /** The bucket of `k` holds as many of the items as its threshold. */
  predicate Crowded(x: Phase, items: seq<Ref>, key: map<Ref, Key>, fcn: Key -> nat, k: Key)
    requires x.Phase? && x.mults != []
  {
    Load(items, key, fcn, |x.mults|, fcn(k) % |x.mults|) >= (x.mults[fcn(k) % |x.mults|] + 1) * THRESH
  }

  /** The phase after an addition that has brought the table to `items`, the new one having key `k`. */
  function WithItem(x: Phase, items: seq<Ref>, key: map<Ref, Key>, fcn: Key -> nat, k: Key): Phase
    requires items != []
  {
    if x.NoTable? || x.mults == [] then FreshPhase()
    else if !x.inhibited && Crowded(x, items, key, fcn, k) then Grown(x, items, key, fcn)
    else x
  }

  /** The phase after items have gone. */
  function Reduced(x: Phase, items: seq<Ref>): Phase { if items == [] then NoTable else x }

  lemma GrownIs(buckets: seq<Bucket>, ideal: nat, nonideal: nat, history: seq<bool>, x: Phase, items: seq<Ref>,
                key: map<Ref, Key>, fcn: Key -> nat)
    requires x.Phase? && x.mults != [] && items != [] && |buckets| == 2 * |x.mults|
    requires Counts(buckets) == Loads(items, key, fcn, |buckets|)
    requires ideal == Ceil(|items|, |buckets|) && Tallied(buckets, nonideal, ideal)
    requires history == x.history + [nonideal > |items| / 2]
    ensures Grown(x, items, key, fcn) == Phase(Mults(buckets), ideal, nonideal, Twice(history), history)
  {
    var loads := Loads(items, key, fcn, |buckets|);
    forall b | 0 <= b < |buckets| ensures buckets[b].count == loads[b] {
      assert Counts(buckets)[b] == loads[b];
    }
    assert Overs(loads, ideal) == Excesses(buckets, ideal);
    assert NewMults(loads, ideal) == Mults(buckets);
  }

  // ---------- the state of an expansion ----------

  /** The items `done` have been spread over the new buckets. */
  ghost predicate Spreading(buckets: seq<Bucket>, done: seq<Ref>, m: nat, hashv: map<Ref, nat>,
                            hh_prev: Links, hh_next: Links, nonideal: nat, ideal: nat) {
    && 0 < m
    && Hashed(done, hashv)
    && Distinct(done)
    && Stored(buckets, Spread(done, m, hashv), hh_prev, hh_next)
    && Tallied(buckets, nonideal, ideal)
  }

  lemma SpreadingNone(m: nat, hashv: map<Ref, nat>, hh_prev: Links, hh_next: Links, ideal: nat, buckets: seq<Bucket>)
    requires 0 < m && 0 < ideal && buckets == seq(m, _ => Bucket(NULL, 0, 0))
    ensures Spreading(buckets, [], m, hashv, hh_prev, hh_next, 0, ideal)
  {
    TotalZeros(Excesses(buckets, ideal));
  }

  lemma SpreadAllPlaced(s: seq<Ref>, m: nat, hashv: map<Ref, nat>)
    requires 0 < m && Hashed(s, hashv) && Distinct(s)
    ensures AllPlaced(Spread(s, m, hashv), s, hashv)
  {
    forall b | 0 <= b < m ensures Placed(Spread(s, m, hashv)[b], b, m, s, hashv) {
      SpreadPlaced(s, m, hashv, b);
    }
  }

  lemma SpreadingMore(buckets: seq<Bucket>, done: seq<Ref>, m: nat, hashv: map<Ref, nat>, hh_prev: Links, hh_next: Links,
                      nonideal: nat, ideal: nat, x: Ref, b: nat, bucket: Bucket, hh_prev': Links, hh_next': Links,
                      nonideal': nat)
    requires Spreading(buckets, done, m, hashv, hh_prev, hh_next, nonideal, ideal)
    requires x !in done && x != NULL && x in hashv && b == hashv[x] % m && b < |buckets|
    requires hh_next' == hh_next[x := buckets[b].hh_head]
    requires hh_prev' == if buckets[b].hh_head == NULL then hh_prev[x := NULL] else hh_prev[x := NULL][buckets[b].hh_head := x]
    requires bucket.hh_head == x && bucket.count == buckets[b].count + 1
    requires bucket.expand_mult == if bucket.count > ideal then bucket.count / ideal else buckets[b].expand_mult
    requires nonideal' == if bucket.count > ideal then nonideal + 1 else nonideal
    ensures Spreading(buckets[b := bucket], done + [x], m, hashv, hh_prev', hh_next', nonideal', ideal)
  {
    var chains := Spread(done, m, hashv);
    SpreadAllPlaced(done, m, hashv);
    assert Holds(buckets[b], chains[b], hh_prev, hh_next);
    HeadNull(chains[b], hh_prev, hh_next);
    StoredPush(buckets, chains, done, hashv, b, x, bucket, hh_prev, hh_next, hh_prev', hh_next');
    TallyMore(buckets, b, bucket, nonideal, nonideal', ideal);
    SpreadMore(done, x, m, hashv);
    Joined(done, [x]);
  }

  lemma NonNull(s: seq<Ref>, prev: Links, next: Links)
    requires Threaded(s, prev, next)
    ensures forall i :: 0 <= i < |s| ==> s[i] != NULL
  {
    forall i | 0 <= i < |s| ensures s[i] != NULL {
      assert Linked(s, i, prev, next);
    }
  }

  lemma HeadNull(s: seq<Ref>, prev: Links, next: Links)
    requires Threaded(s, prev, next)
    ensures First(s) == NULL <==> s == []
  {
    if s != [] {
      assert Linked(s, 0, prev, next);
    }
  }

  /** From position `k` on, the chain can still be followed. */
  ghost predicate Forward(s: seq<Ref>, k: nat, next: Links) {
    forall j :: k <= j < |s| ==> s[j] != NULL && s[j] in next && next[s[j]] == After(s, j)
  }

  lemma ForwardChain(s: seq<Ref>, prev: Links, next: Links)
    requires Threaded(s, prev, next)
    ensures Forward(s, 0, next)
  {
    forall j | 0 <= j < |s| ensures s[j] != NULL && s[j] in next && next[s[j]] == After(s, j) {
      assert Linked(s, j, prev, next);
    }
  }

  ghost predicate SameOutside(next: Links, next': Links, s: seq<Ref>) {
    forall x :: x in next && x !in s ==> x in next' && next'[x] == next[x]
  }

  lemma SameAgain(next: Links, next': Links, next'': Links, s: seq<Ref>)
    requires SameOutside(next, next', s) && SameOutside(next', next'', s)
    ensures SameOutside(next, next'', s)
  {
  }

  lemma ForwardPast(s: seq<Ref>, k: nat, next: Links, next': Links)
    requires k < |s| && Distinct(s) && Forward(s, k, next) && s[k] in next' && next' == next[s[k] := next'[s[k]]]
    ensures Forward(s, k + 1, next') && SameOutside(next, next', s)
  {
    forall x | x in next && x !in s ensures x in next' && next'[x] == next[x] {
      assert x != s[k];
    }
  }

  lemma ForwardKept(s: seq<Ref>, k: nat, next: Links, next': Links, t: seq<Ref>)
    requires Forward(s, k, next) && SameOutside(next, next', t)
    requires forall x :: x in s ==> x !in t
    ensures Forward(s, k, next')
  {
    forall j | k <= j < |s| ensures s[j] != NULL && s[j] in next' && next'[s[j]] == After(s, j) {
      assert s[j] in s;
    }
  }

  lemma NextOf(done: seq<Ref>, chain: seq<Ref>, k: nat)
    requires k < |chain| && Distinct(chain) && forall x :: x in chain ==> x !in done
    ensures chain[k] !in done + chain[..k]
    ensures done + chain[..k] + [chain[k]] == done + chain[..k + 1]
  {
    assert chain[..k + 1] == chain[..k] + [chain[k]];
  }

  lemma Whole(done: seq<Ref>, chain: seq<Ref>)
    ensures done + chain[..0] == done && done + chain[..|chain|] == done + chain
  {
    assert chain[..|chain|] == chain;
  }

  ghost predicate SplitAt(chains: seq<seq<Ref>>, chains': seq<seq<Ref>>, b: nat)
    requires |chains'| == 2 * |chains| && b < |chains|
  {
    forall x :: x in chains[b] <==> x in chains'[b] || x in chains'[b + |chains|]
  }

  /** Every item of an old bucket is in one of the two new buckets that replace it, and they hold nothing else. */
  ghost predicate Doubled(chains: seq<seq<Ref>>, chains': seq<seq<Ref>>) {
    |chains'| == 2 * |chains| && forall b :: 0 <= b < |chains| ==> SplitAt(chains, chains', b)
  }

  lemma DoubledBy(chains: seq<seq<Ref>>, chains': seq<seq<Ref>>, items: seq<Ref>, hashv: map<Ref, nat>)
    requires AllPlaced(chains, items, hashv) && AllPlaced(chains', items, hashv) && |chains'| == 2 * |chains|
    ensures Doubled(chains, chains')
  {
    var m := |chains|;
    forall b | 0 <= b < m ensures SplitAt(chains, chains', b) {
      assert Placed(chains[b], b, m, items, hashv);
      assert Placed(chains'[b], b, 2 * m, items, hashv);
      assert Placed(chains'[b + m], b + m, 2 * m, items, hashv);
      forall x | x in hashv ensures hashv[x] % m == b <==> hashv[x] % (2 * m) == b || hashv[x] % (2 * m) == b + m {
        SplitInTwo(hashv[x], m);
      }
    }
  }

  lemma AllItems(chains: seq<seq<Ref>>, items: seq<Ref>, hashv: map<Ref, nat>, hh_prev: Links, hh_next: Links,
                 buckets: seq<Bucket>, all: seq<Ref>)
    requires AllPlaced(chains, items, hashv) && Hashed(items, hashv) && Stored(buckets, chains, hh_prev, hh_next)
    requires all == Flat(chains)
    ensures Distinct(all) && |all| == Total(Sizes(chains)) && forall x :: x in all <==> x in items
  {
    forall b | 0 <= b < |chains| ensures Distinct(chains[b]) {
      assert Holds(buckets[b], chains[b], hh_prev, hh_next);
    }
    FlatPlaced(chains, |chains|, items, hashv);
    assert chains[..|chains|] == chains;
    FlatLength(chains);
  }

  lemma SpreadItems(all: seq<Ref>, items: seq<Ref>, m: nat, hashv: map<Ref, nat>)
    requires 0 < m && Distinct(all) && Hashed(items, hashv) && forall x :: x in all <==> x in items
    ensures Hashed(all, hashv) && AllPlaced(Spread(all, m, hashv), items, hashv)
  {
    SpreadAllPlaced(all, m, hashv);
    var c := Spread(all, m, hashv);
    forall b | 0 <= b < m ensures Placed(c[b], b, m, items, hashv) {
      assert Placed(c[b], b, m, all, hashv);
    }
  }

  /** What stands in the new buckets once all the items have moved. */
  lemma SpreadOut(chains: seq<seq<Ref>>, items: seq<Ref>, hashv: map<Ref, nat>, hh_prev: Links, hh_next: Links,
                  new_buckets: seq<Bucket>, all: seq<Ref>, nonideal: nat, ideal: nat) returns (spread: seq<seq<Ref>>)
    requires AllPlaced(chains, items, hashv) && Hashed(items, hashv) && |new_buckets| == 2 * |chains|
    requires Distinct(all) && |all| == Total(Sizes(chains)) && forall x :: x in all <==> x in items
    requires Spreading(new_buckets, all, |new_buckets|, hashv, hh_prev, hh_next, nonideal, ideal)
    ensures Stored(new_buckets, spread, hh_prev, hh_next) && AllPlaced(spread, items, hashv)
    ensures Doubled(chains, spread) && Total(Sizes(spread)) == Total(Sizes(chains))
    ensures Tallied(new_buckets, nonideal, ideal)
  {
    var m := |new_buckets|;
    spread := Spread(all, m, hashv);
    SpreadItems(all, items, m, hashv);
    SpreadTotal(all, m, hashv);
    DoubledBy(chains, spread, items, hashv);
  }

  ghost predicate Waiting(chains: seq<seq<Ref>>, i: nat, next: Links) {
    forall b :: i <= b < |chains| ==> Forward(chains[b], 0, next)
  }

  lemma WaitingAll(buckets: seq<Bucket>, chains: seq<seq<Ref>>, hh_prev: Links, hh_next: Links)
    requires Stored(buckets, chains, hh_prev, hh_next)
    ensures Waiting(chains, 0, hh_next)
  {
    forall b | 0 <= b < |chains| ensures Forward(chains[b], 0, hh_next) {
      assert Holds(buckets[b], chains[b], hh_prev, hh_next);
      ForwardChain(chains[b], hh_prev, hh_next);
    }
  }

  lemma WaitingKept(chains: seq<seq<Ref>>, i: nat, items: seq<Ref>, hashv: map<Ref, nat>, next: Links, next': Links)
    requires AllPlaced(chains, items, hashv) && i < |chains| && Waiting(chains, i, next)
    requires SameOutside(next, next', chains[i])
    ensures Waiting(chains, i + 1, next')
  {
    forall b | i + 1 <= b < |chains| ensures Forward(chains[b], 0, next') {
      forall x | x in chains[b] ensures x !in chains[i] {
        Apart(chains, items, hashv, b, i, x);
      }
      ForwardKept(chains[b], 0, next, next', chains[i]);
    }
  }

  lemma PlacedPush(chains: seq<seq<Ref>>, items: seq<Ref>, hashv: map<Ref, nat>, b: nat, x: Ref)
    requires AllPlaced(chains, items, hashv) && b < |chains| && x !in items && x in hashv && b == hashv[x] % |chains|
    ensures AllPlaced(chains[b := [x] + chains[b]], items + [x], hashv)
    ensures Total(Sizes(chains[b := [x] + chains[b]])) == Total(Sizes(chains)) + 1
  {
    var c := chains[b := [x] + chains[b]];
    forall j | 0 <= j < |c| ensures Placed(c[j], j, |c|, items + [x], hashv) {
      assert Placed(chains[j], j, |c|, items, hashv);
    }
    TotalUpdate(Sizes(chains), b, |chains[b]| + 1);
    assert Sizes(c) == Sizes(chains)[b := |chains[b]| + 1];
  }

  lemma CountsAreSizes(buckets: seq<Bucket>, chains: seq<seq<Ref>>, hh_prev: Links, hh_next: Links)
    requires Stored(buckets, chains, hh_prev, hh_next)
    ensures Counts(buckets) == Sizes(chains)
  {
    forall b | 0 <= b < |chains| ensures Counts(buckets)[b] == Sizes(chains)[b] {
      assert Holds(buckets[b], chains[b], hh_prev, hh_next);
    }
  }

  lemma EmptyBucket(buckets: seq<Bucket>, chains: seq<seq<Ref>>, hh_prev: Links, hh_next: Links, items: seq<Ref>,
                    hashv: map<Ref, nat>, b: nat)
    requires Stored(buckets, chains, hh_prev, hh_next) && AllPlaced(chains, items, hashv) && b < |chains|
    ensures items == [] ==> buckets[b].count == 0
  {
    assert Holds(buckets[b], chains[b], hh_prev, hh_next);
    assert Placed(chains[b], b, |chains|, items, hashv);
    assert chains[b] != [] ==> chains[b][0] in items;
  }

  lemma MultsKept(buckets: seq<Bucket>, b: nat, bucket: Bucket)
    requires b < |buckets| && bucket.expand_mult == buckets[b].expand_mult
    ensures Mults(buckets[b := bucket]) == Mults(buckets)
  {
  }

  /** A bucket that stays under its threshold leaves the bound as it was. */
  lemma PushedFit(buckets: seq<Bucket>, b: nat, bucket: Bucket)
    requires Fit(buckets) && b < |buckets| && bucket.expand_mult == buckets[b].expand_mult
    requires bucket.count < (bucket.expand_mult + 1) * THRESH
    ensures Fit(buckets[b := bucket])
  {
    LessShare(buckets, b, bucket);
    assert Short(bucket);
  }

  lemma LessShare(buckets: seq<Bucket>, b: nat, bucket: Bucket)
    requires b < |buckets| && Share(bucket) <= Share(buckets[b])
    ensures Total(Shares(buckets[b := bucket])) <= Total(Shares(buckets))
  {
    TotalUpdate(Shares(buckets), b, Share(bucket));
    assert Shares(buckets[b := bucket]) == Shares(buckets)[b := Share(bucket)];
  }

  lemma PlacedKept(chains: seq<seq<Ref>>, items: seq<Ref>, hashv: map<Ref, nat>, hashv': map<Ref, nat>)
    requires AllPlaced(chains, items, hashv)
    requires forall x :: x in items ==> (x in hashv <==> x in hashv') && (x in hashv ==> hashv'[x] == hashv[x])
    ensures AllPlaced(chains, items, hashv')
  {
    forall b | 0 <= b < |chains| ensures Placed(chains[b], b, |chains|, items, hashv') {
      assert Placed(chains[b], b, |chains|, items, hashv);
    }
  }

  lemma PlacedPull(chains: seq<seq<Ref>>, items: seq<Ref>, hashv: map<Ref, nat>, b: nat, j: nat, k: nat)
    requires AllPlaced(chains, items, hashv) && b < |chains| && j < |chains[b]| && k < |items|
    requires Distinct(items) && Distinct(chains[b]) && chains[b][j] == items[k]
    ensures AllPlaced(chains[b := Without(chains[b], j)], Without(items, k), hashv)
    ensures Total(Sizes(chains[b := Without(chains[b], j)])) + 1 == Total(Sizes(chains))
    ensures Distinct(Without(items, k))
  {
    var c := chains[b := Without(chains[b], j)];
    Members(items, k);
    Members(chains[b], j);
    forall i | 0 <= i < |c| ensures Placed(c[i], i, |c|, Without(items, k), hashv) {
      assert Placed(chains[i], i, |c|, items, hashv);
      assert Placed(chains[b], b, |c|, items, hashv);
    }
    TotalUpdate(Sizes(chains), b, |chains[b]| - 1);
    assert Sizes(c) == Sizes(chains)[b := |chains[b]| - 1];
  }

  lemma PulledFit(buckets: seq<Bucket>, b: nat, bucket: Bucket)
    requires b < |buckets| && bucket.expand_mult == buckets[b].expand_mult && bucket.count < buckets[b].count
    ensures Fit(buckets) ==> Fit(buckets[b := bucket])
  {
    assert Short(buckets[b]) ==> Short(bucket) && Share(bucket) <= Share(buckets[b]);
    if Share(bucket) <= Share(buckets[b]) {
      LessShare(buckets, b, bucket);
    }
  }

  /** Only the first handle has no predecessor and only the last no successor. */
  lemma Ends(s: seq<Ref>, k: nat)
    requires k < |s| && Distinct(s) && forall i :: 0 <= i < |s| ==> s[i] != NULL
    ensures Before(s, k) == NULL <==> k == 0
    ensures After(s, k) == NULL <==> k == |s| - 1
    ensures s[k] == Last(s) <==> k == |s| - 1
    ensures s[k] == First(s) <==> k == 0
  {
  }

  /** The handle has no neighbours exactly when it is the only one. */
  lemma Alone(s: seq<Ref>, k: nat, prev: Links, next: Links)
    requires k < |s| && Distinct(s) && Threaded(s, prev, next)
    ensures s[k] in prev && s[k] in next
    ensures prev[s[k]] == NULL && next[s[k]] == NULL <==> s == [s[k]]
  {
    assert Linked(s, k, prev, next);
    NonNull(s, prev, next);
    Ends(s, k);
  }

  ghost predicate Headed(buckets: seq<Bucket>, chains: seq<seq<Ref>>) {
    |buckets| == |chains| && forall b :: 0 <= b < |chains| ==> Distinct(chains[b]) && buckets[b].hh_head == First(chains[b])
  }

  lemma HeadsOf(buckets: seq<Bucket>, chains: seq<seq<Ref>>, hh_prev: Links, hh_next: Links)
    requires Stored(buckets, chains, hh_prev, hh_next)
    ensures Headed(buckets, chains)
  {
    forall b | 0 <= b < |chains| ensures Distinct(chains[b]) && buckets[b].hh_head == First(chains[b]) {
      assert Holds(buckets[b], chains[b], hh_prev, hh_next);
    }
  }

  /** The items of the first `n` buckets and those of the next one. */
  lemma ChainsBefore(chains: seq<seq<Ref>>, n: nat, items: seq<Ref>, hashv: map<Ref, nat>)
    requires AllPlaced(chains, items, hashv) && n < |chains|
    requires forall b :: 0 <= b < |chains| ==> Distinct(chains[b])
    ensures forall x :: x in chains[n] ==> x !in Flat(chains[..n]) && x in hashv
    ensures Flat(chains[..n]) + chains[n] == Flat(chains[..n + 1])
  {
    FlatPlaced(chains, n, items, hashv);
    assert Placed(chains[n], n, |chains|, items, hashv);
    assert chains[..n + 1][..n] == chains[..n];
  }

  /** The 32 empty buckets of a new table. */
  lemma NewTable(buckets: seq<Bucket>, hashv: map<Ref, nat>, hh_prev: Links, hh_next: Links)
      returns (chains: seq<seq<Ref>>)
    requires buckets == seq(32, _ => Bucket(NULL, 0, 0))
    ensures Pow2(5) == 32 == |chains| && Inhibited(0, 0, [])
    ensures Stored(buckets, chains, hh_prev, hh_next) && AllPlaced(chains, [], hashv) && Total(Sizes(chains)) == 0
    ensures Fit(buckets)
  {
    chains := seq(32, _ => []);
    TotalZeros(Sizes(chains));
    TotalZeros(Shares(buckets));
  }
}
