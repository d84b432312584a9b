/** The hash table of `uthash.h`: chained buckets threaded with the application-order list. */
module UthashTable {
  import opened Numbers
  import opened UthashBits
  import opened UthashList
  import opened UthashChains
  import opened UthashBound
  import opened UthashExpand

  /** The ideal chain length, by shift and mask. */
  method IdealLength(num_items: nat, num_buckets: nat, log2_num_buckets: nat) returns (ideal: nat)
    requires num_buckets == Pow2(log2_num_buckets) && 0 < num_items
    ensures 0 < ideal == Ceil(num_items, 2 * num_buckets)
  {
    ShiftAndMask(num_items, log2_num_buckets + 1);
    CeilRange(num_items, 2 * num_buckets);
    ideal := num_items / Pow2(log2_num_buckets + 1) + (if And(num_items, num_buckets * 2 - 1) != 0 then 1 else 0);
  }

  /** HASH_TO_BKT */
  method ToBucket(hashv: nat, num_bkts: nat, ghost log2: nat) returns (bkt: nat)
    requires num_bkts == Pow2(log2)
    ensures bkt == hashv % num_bkts && bkt < num_bkts
  {
    MaskIsRemainder(hashv, log2);
    bkt := And(hashv, num_bkts - 1);
  }

  method NewBuckets(ghost hashv: map<Ref, nat>, ghost hh_prev: Links, ghost hh_next: Links)
      returns (buckets: seq<Bucket>, ghost chains: seq<seq<Ref>>)
    ensures Pow2(5) == 32 == |chains| && Inhibited(0, 0, [])
    ensures Stored(buckets, chains, hh_prev, hh_next) && AllPlaced(chains, [], hashv) && Total(Sizes(chains)) == 0
    ensures Fit(buckets) && buckets == seq(32, _ => Bucket(NULL, 0, 0))
  {
    buckets := seq(32, _ => Bucket(NULL, 0, 0));
    chains := NewTable(buckets, hashv, hh_prev, hh_next);
  }

  // ---------- the table ----------

  class Table {
    const fcn: Key -> nat
    var head: Ref
    var tail: Ref
    var prev: Links
    var next: Links
    var hh_prev: Links
    var hh_next: Links
    var key: map<Ref, Key>
    var hashv: map<Ref, nat>
    var buckets: seq<Bucket>
    var num_buckets: nat
    var log2_num_buckets: nat
    var num_items: nat
    var ideal_chain_maxlen: nat
    var nonideal_items: nat
    var ineff_expands: nat
    var noexpand: nat
    /** The items in application order. */
    ghost var order: seq<Ref>
    /** The items of each bucket, in chain order. */
    ghost var chains: seq<seq<Ref>>
    /** For each doubling of this table, whether more than half the items were left beyond the ideal position. */
    ghost var history: seq<bool>

    /** The bucket side of the table holds `items`. */
    ghost predicate Chained(items: seq<Ref>)
      reads this
    {
      && num_buckets == Pow2(log2_num_buckets) == |chains|
      && Distinct(items) && Hashed(items, hashv)
      && Stored(buckets, chains, hh_prev, hh_next)
      && AllPlaced(chains, items, hashv)
      && |items| == Total(Sizes(chains))
    }

    ghost predicate Counted()
      reads this
    {
      && Inhibited(ineff_expands, noexpand, history)
      && log2_num_buckets == 5 + |history|
    }

    /** `done` have been moved to the new buckets. */
    ghost predicate Moved(new_buckets: seq<Bucket>, done: seq<Ref>)
      reads this
    {
      Spreading(new_buckets, done, |new_buckets|, hashv, hh_prev, hh_next, nonideal_items, ideal_chain_maxlen)
    }

    /** Adds one handle to a new bucket during an expansion. */
    method Move(old_buckets: seq<Bucket>, b: nat, thh: Ref, ghost done: seq<Ref>) returns (new_buckets: seq<Bucket>)
      requires b < |old_buckets| && thh in hashv && b == hashv[thh] % |old_buckets| && thh != NULL && thh !in done
      requires Moved(old_buckets, done)
      modifies this`hh_prev, this`hh_next, this`nonideal_items
      ensures |new_buckets| == |old_buckets| && Moved(new_buckets, done + [thh])
      ensures hh_next == old(hh_next)[thh := old_buckets[b].hh_head]
    {
      var bucket := old_buckets[b].(count := old_buckets[b].count + 1);
      if bucket.count > ideal_chain_maxlen {
        nonideal_items := nonideal_items + 1;
        bucket := bucket.(expand_mult := bucket.count / ideal_chain_maxlen);
      }
      hh_prev := hh_prev[thh := NULL];
      hh_next := hh_next[thh := bucket.hh_head];
      if bucket.hh_head != NULL {
        hh_prev := hh_prev[bucket.hh_head := thh];
      }
      bucket := bucket.(hh_head := thh);
      new_buckets := old_buckets[b := bucket];
      SpreadingMore(old_buckets, done, |old_buckets|, hashv, old(hh_prev), old(hh_next), old(nonideal_items),
        ideal_chain_maxlen, thh, b, bucket, hh_prev, hh_next, nonideal_items);
    }

    /** Moves one handle of an old bucket and steps to the next, whose link was read before it is overwritten. */
    method MoveNext(thh: Ref, old_buckets: seq<Bucket>, ghost chain: seq<Ref>, ghost k: nat, ghost done: seq<Ref>)
        returns (new_buckets: seq<Bucket>, nxt: Ref)
      requires 0 < |old_buckets| == 2 * num_buckets && num_buckets == Pow2(log2_num_buckets)
      requires k < |chain| && thh == chain[k] && thh != NULL && Distinct(chain) && Hashed(chain, hashv)
      requires forall x :: x in chain ==> x !in done
      requires Moved(old_buckets, done + chain[..k]) && Forward(chain, k, hh_next)
      modifies this`hh_prev, this`hh_next, this`nonideal_items
      ensures |new_buckets| == |old_buckets| && Moved(new_buckets, done + chain[..k + 1])
      ensures nxt == After(chain, k) && Forward(chain, k + 1, hh_next) && SameOutside(old(hh_next), hh_next, chain)
    {
      NextOf(done, chain, k);
      assert thh in chain;
      nxt := hh_next[thh];
      var bkt := ToBucket(hashv[thh], num_buckets * 2, log2_num_buckets + 1);
      new_buckets := Move(old_buckets, bkt, thh, done + chain[..k]);
      ForwardPast(chain, k, old(hh_next), hh_next);
    }

    /** Moves the handles of one old bucket. */
    method MoveChain(first: Ref, old_buckets: seq<Bucket>, ghost chain: seq<Ref>, ghost done: seq<Ref>)
        returns (new_buckets: seq<Bucket>)
      requires 0 < |old_buckets| == 2 * num_buckets && num_buckets == Pow2(log2_num_buckets)
      requires Moved(old_buckets, done)
      requires first == First(chain) && Forward(chain, 0, hh_next) && Distinct(chain) && Hashed(chain, hashv)
      requires forall x :: x in chain ==> x !in done
      modifies this`hh_prev, this`hh_next, this`nonideal_items
      ensures |new_buckets| == |old_buckets| && Moved(new_buckets, done + chain)
      ensures SameOutside(old(hh_next), hh_next, chain)
    {
      var thh := first;
      new_buckets := old_buckets;
      ghost var k := 0;
      Whole(done, chain);
      while thh != NULL
        invariant 0 <= k <= |chain| && |new_buckets| == |old_buckets|
        invariant thh == if k < |chain| then chain[k] else NULL
        invariant Moved(new_buckets, done + chain[..k])
        invariant Forward(chain, k, hh_next) && SameOutside(old(hh_next), hh_next, chain)
        decreases |chain| - k
      {
        ghost var before := hh_next;
        new_buckets, thh := MoveNext(thh, new_buckets, chain, k, done);
        SameAgain(old(hh_next), before, hh_next, chain);
        k := k + 1;
      }
    }

    /** Moves every handle. */
    method MoveAll(empty: seq<Bucket>, ghost items: seq<Ref>) returns (new_buckets: seq<Bucket>)
      requires Chained(items) && |empty| == 2 * num_buckets && Moved(empty, [])
      modifies this`hh_prev, this`hh_next, this`nonideal_items
      ensures |new_buckets| == |empty| && Moved(new_buckets, Flat(chains))
    {
      new_buckets := empty;
      WaitingAll(buckets, chains, hh_prev, hh_next);
      HeadsOf(buckets, chains, hh_prev, hh_next);
      var i := 0;
      while i < num_buckets
        invariant 0 <= i <= num_buckets && |new_buckets| == |empty|
        invariant Moved(new_buckets, Flat(chains[..i])) && Waiting(chains, i, hh_next)
      {
        ChainsBefore(chains, i, items, hashv);
        ghost var before := hh_next;
        new_buckets := MoveChain(buckets[i].hh_head, new_buckets, chains[i], Flat(chains[..i]));
        WaitingKept(chains, i, items, hashv, before, hh_next);
        i := i + 1;
      }
      assert chains[..i] == chains;
    }

    /** The new buckets, and ceil(n / b) for them. */
    method Prepare(ghost items: seq<Ref>) returns (empty: seq<Bucket>)
      requires Chained(items) && items != [] && num_items == |items|
      modifies this`ideal_chain_maxlen, this`nonideal_items
      ensures |empty| == 2 * num_buckets && Moved(empty, [])
      ensures ideal_chain_maxlen == Ceil(num_items, 2 * num_buckets)
    {
      empty := seq(2 * num_buckets, _ => Bucket(NULL, 0, 0));
      ideal_chain_maxlen := IdealLength(num_items, num_buckets, log2_num_buckets);
      nonideal_items := 0;
      SpreadingNone(2 * num_buckets, hashv, hh_prev, hh_next, ideal_chain_maxlen, empty);
    }

    /** The new buckets take the place of the old ones. */
    method Install(new_buckets: seq<Bucket>, ghost new_chains: seq<seq<Ref>>)
      requires Counted() && noexpand != 1
      modifies this`buckets, this`num_buckets, this`log2_num_buckets, this`ineff_expands, this`noexpand, this`chains, this`history
      ensures Counted()
      ensures buckets == new_buckets && chains == new_chains
      ensures num_buckets == 2 * old(num_buckets) && log2_num_buckets == old(log2_num_buckets) + 1
      ensures history == old(history) + [nonideal_items > num_items / 2]
    {
      num_buckets := num_buckets * 2;
      log2_num_buckets := log2_num_buckets + 1;
      buckets := new_buckets;
      ineff_expands := if nonideal_items > num_items / 2 then ineff_expands + 1 else 0;
      if ineff_expands > 1 {
        noexpand := 1;
      }
      InhibitedMore(old(ineff_expands), old(noexpand), history, nonideal_items > num_items / 2, ineff_expands, noexpand);
      chains := new_chains;
      history := history + [nonideal_items > num_items / 2];
    }

    /** The handles are moved to new buckets, which are not yet in place. */
    method SpreadHandles(ghost items: seq<Ref>) returns (new_buckets: seq<Bucket>, ghost spread: seq<seq<Ref>>)
      requires Chained(items) && items != [] && num_items == |items|
      modifies this`hh_prev, this`hh_next, this`ideal_chain_maxlen, this`nonideal_items
      ensures Stored(new_buckets, spread, hh_prev, hh_next) && AllPlaced(spread, items, hashv)
      ensures Doubled(chains, spread) && Total(Sizes(spread)) == |items|
      ensures ideal_chain_maxlen == Ceil(num_items, 2 * num_buckets)
      ensures Tallied(new_buckets, nonideal_items, ideal_chain_maxlen)
    {
      ghost var all := Flat(chains);
      AllItems(chains, items, hashv, hh_prev, hh_next, buckets, all);
      new_buckets := Prepare(items);
      new_buckets := MoveAll(new_buckets, items);
      spread := SpreadOut(chains, items, hashv, hh_prev, hh_next, new_buckets, all, nonideal_items, ideal_chain_maxlen);
    }

    /** HASH_EXPAND_BUCKETS */
    method Expand(ghost items: seq<Ref>)
      requires Chained(items) && Counted() && noexpand != 1 && items != [] && num_items == |items|
      modifies this`hh_prev, this`hh_next, this`buckets, this`num_buckets, this`log2_num_buckets
      modifies this`ideal_chain_maxlen, this`nonideal_items, this`ineff_expands, this`noexpand, this`chains, this`history
      ensures Chained(items) && Counted()
      ensures num_buckets == 2 * old(num_buckets) && Doubled(old(chains), chains)
      ensures ideal_chain_maxlen == Ceil(num_items, num_buckets)
      ensures Tallied(buckets, nonideal_items, ideal_chain_maxlen)
      ensures history == old(history) + [nonideal_items > num_items / 2]
    {
      var new_buckets, spread := SpreadHandles(items);
      Install(new_buckets, spread);
    }

    /** The links of a handle that joins the front of a chain. */
    method PushLinks(bucket: Bucket, addhh: Ref, ghost chain: seq<Ref>) returns (more: Bucket)
      requires Holds(bucket, chain, hh_prev, hh_next)
      modifies this`hh_prev, this`hh_next
      ensures more == Bucket(addhh, bucket.count + 1, bucket.expand_mult)
      ensures hh_next == old(hh_next)[addhh := First(chain)]
      ensures hh_prev == if chain == [] then old(hh_prev)[addhh := NULL] else old(hh_prev)[addhh := NULL][First(chain) := addhh]
    {
      HeadNull(chain, hh_prev, hh_next);
      more := bucket.(count := bucket.count + 1);
      hh_next := hh_next[addhh := more.hh_head];
      hh_prev := hh_prev[addhh := NULL];
      if more.hh_head != NULL {
        hh_prev := hh_prev[more.hh_head := addhh];
      }
      more := more.(hh_head := addhh);
    }

    /** The handle joins the front of its bucket's chain. */
    method PushFront(b: nat, addhh: Ref, ghost items: seq<Ref>)
      requires Chained(items) && addhh !in items && addhh != NULL && addhh in hashv
      requires b < num_buckets && b == hashv[addhh] % num_buckets
      modifies this`hh_prev, this`hh_next, this`buckets, this`chains
      ensures Chained(items + [addhh])
      ensures b < |old(buckets)| && buckets == old(buckets)[b := Bucket(addhh, old(buckets[b]).count + 1, old(buckets[b]).expand_mult)]
    {
      assert Holds(buckets[b], chains[b], hh_prev, hh_next);
      var bucket := PushLinks(buckets[b], addhh, chains[b]);
      StoredPush(buckets, chains, items, hashv, b, addhh, bucket, old(hh_prev), old(hh_next), hh_prev, hh_next);
      PlacedPush(chains, items, hashv, b, addhh);
      Joined(items, [addhh]);
      buckets := buckets[b := bucket];
      chains := chains[b := [addhh] + chains[b]];
    }

    /** Unless expansion is inhibited, every chain is within its threshold. */
    ghost predicate Bounded()
      reads this
    {
      noexpand != 1 ==> Fit(buckets)
    }

    /** An addition to bucket `b` makes it reach its threshold. */
    ghost predicate Filling(b: nat)
      reads this
    {
      b < |buckets| && noexpand != 1 && buckets[b].count + 1 >= (buckets[b].expand_mult + 1) * THRESH
    }

    /** The bucket side as a value. */
    ghost function Side(): Phase
      reads this
    {
      Phase(Mults(buckets), ideal_chain_maxlen, nonideal_items, noexpand == 1, history)
    }

    /** The bucket count, the records of the last doubling, the inhibition and the history are as before. */
    twostate predicate Unexpanded()
      reads this
    {
      num_buckets == old(num_buckets) && Side() == old(Side())
    }

    /** The buckets have been doubled once: what the doubling recorded, and what it adds to the history. */
    twostate predicate Expanded()
      reads this
    {
      && old(noexpand) != 1
      && 0 < num_buckets == 2 * old(num_buckets)
      && ideal_chain_maxlen == Ceil(num_items, num_buckets) <= 10
      && Tallied(buckets, nonideal_items, ideal_chain_maxlen)
      && history == old(history) + [nonideal_items > num_items / 2]
    }

    /** The table is a new one. */
    ghost predicate Started()
      reads this
    {
      num_buckets == 32 && Side() == FreshPhase()
    }

    /** HASH_ADD_TO_BKT */
    method AddToBucket(b: nat, addhh: Ref, ghost items: seq<Ref>)
      requires Chained(items) && Counted() && Bounded() && num_items == |items| + 1
      requires addhh !in items && addhh != NULL && addhh in hashv
      requires b < num_buckets && b == hashv[addhh] % num_buckets
      modifies this`hh_prev, this`hh_next, this`buckets, this`num_buckets, this`log2_num_buckets
      modifies this`ideal_chain_maxlen, this`nonideal_items, this`ineff_expands, this`noexpand, this`chains, this`history
      ensures Chained(items + [addhh]) && Counted() && Bounded()
      ensures if old(Filling(b)) then Expanded() else Unexpanded()
      ensures items == [] ==> Unexpanded()
    {
      ghost var grows := Filling(b);
      ghost var n := num_buckets;
      ghost var old_buckets := buckets;
      CountsAreSizes(buckets, chains, hh_prev, hh_next);
      EmptyBucket(buckets, chains, hh_prev, hh_next, items, hashv, b);
      PushFront(b, addhh, items);
      if buckets[b].count >= (buckets[b].expand_mult + 1) * THRESH && noexpand != 1 {
        FewItems(old_buckets);
        Expand(items + [addhh]);
        CountsAreSizes(buckets, chains, hh_prev, hh_next);
        ExpandedFit(buckets, nonideal_items, ideal_chain_maxlen, num_items, n);
      } else {
        MultsKept(old_buckets, b, buckets[b]);
        if noexpand != 1 {
          PushedFit(old_buckets, b, buckets[b]);
        }
      }
    }

    // ---------- the application-order side ----------

    ghost predicate Ordered()
      reads this
    {
      && head == First(order)
      && (order != [] ==> tail == Last(order))
      && Threaded(order, prev, next)
      && Distinct(order)
      && Keyed(order, key, hashv, fcn)
    }

    /** Without items there is no table. */
    ghost predicate Valid()
      reads this
    {
      && Ordered()
      && (order != [] ==> Chained(order) && num_items == |order| && Counted() && Bounded())
    }

    /** The table as a map. */
    ghost function Contents(): map<Key, Ref>
      requires Keyed(order, key, hashv, fcn)
      reads this
    {
      AsMap(order, key)
    }

    constructor (f: Key -> nat)
      ensures Valid() && order == [] && key == map[] && fcn == f
    {
      fcn := f;
      head := NULL;
      prev, next, hh_prev, hh_next := map[], map[], map[], map[];
      key, hashv := map[], map[];
      order := [];
    }

    /** The counters of a zeroed table. */
    method ClearCounters()
      modifies this`num_buckets, this`log2_num_buckets, this`num_items, this`ideal_chain_maxlen
      modifies this`nonideal_items, this`ineff_expands, this`noexpand, this`history
      ensures num_items == 0 && num_buckets == 32 && log2_num_buckets == 5 && history == [] && noexpand == 0 && Counted()
      ensures ideal_chain_maxlen == 0 && nonideal_items == 0
    {
      num_buckets := 32;
      log2_num_buckets := 5;
      num_items, ideal_chain_maxlen, nonideal_items, ineff_expands, noexpand := 0, 0, 0, 0, 0;
      history := [];
    }

    /** HASH_MAKE_TABLE */
    method MakeTable()
      modifies this`tail, this`buckets, this`num_buckets, this`log2_num_buckets, this`num_items, this`ideal_chain_maxlen
      modifies this`nonideal_items, this`ineff_expands, this`noexpand, this`chains, this`history
      ensures tail == head && num_items == 0 && Chained([]) && Counted() && Bounded()
      ensures Started()
    {
      tail := head;
      ClearCounters();
      buckets, chains := NewBuckets(hashv, hh_prev, hh_next);
    }

    method ThreadFirst(add: Ref, k: Key)
      requires add != NULL
      modifies this`head, this`prev, this`next, this`key, this`order
      ensures order == [add] && Threaded([add], prev, next) && head == add && key == old(key)[add := k]
    {
      next := next[add := NULL];
      key := key[add := k];
      head := add;
      prev := prev[add := NULL];
      order := [add];
      assert Linked([add], 0, prev, next);
    }

    /** The first element brings the table. */
    method LinkFirst(add: Ref, k: Key)
      requires order == [] && add != NULL
      modifies this`head, this`tail, this`prev, this`next, this`key, this`order
      modifies this`buckets, this`num_buckets, this`log2_num_buckets, this`num_items, this`ideal_chain_maxlen
      modifies this`nonideal_items, this`ineff_expands, this`noexpand, this`chains, this`history
      ensures order == [add] && Threaded(order, prev, next) && head == add && tail == add && key == old(key)[add := k]
      ensures num_items == 0 && Chained([]) && Counted() && Bounded() && Started()
    {
      ThreadFirst(add, k);
      MakeTable();
    }

    /** A later element joins the end of the application order. */
    method LinkLast(add: Ref, k: Key)
      requires order != [] && Threaded(order, prev, next) && Distinct(order) && tail == Last(order)
      requires add != NULL && add !in order
      modifies this`tail, this`prev, this`next, this`key, this`order
      ensures order == old(order) + [add] && Threaded(order, prev, next) && tail == add && key == old(key)[add := k]
    {
      next := next[add := NULL];
      key := key[add := k];
      next := next[tail := add];
      prev := prev[add := tail];
      tail := add;
      Appended(order, add, old(prev), old(next), prev, next);
      order := order + [add];
    }

    /** One more item with this key makes its bucket reach the threshold. */
    ghost predicate Filled(k: Key)
      reads this
    {
      0 < num_buckets && Filling(fcn(k) % num_buckets)
    }

    /** The list side of HASH_ADD_KEYPTR. */
    method Link(add: Ref, k: Key)
      requires Valid() && add != NULL && add !in order
      modifies this`head, this`tail, this`prev, this`next, this`key, this`order
      modifies this`buckets, this`num_buckets, this`log2_num_buckets, this`num_items, this`ideal_chain_maxlen
      modifies this`nonideal_items, this`ineff_expands, this`noexpand, this`chains, this`history
      ensures order == old(order) + [add] && Threaded(order, prev, next)
      ensures head == First(order) && tail == add && key == old(key)[add := k]
      ensures Chained(old(order)) && num_items == |old(order)| && Counted() && Bounded()
      ensures if old(order) == [] then Started() else Unexpanded() && Filled(k) == old(Filled(k)) && noexpand == old(noexpand)
    {
      HeadNull(order, prev, next);
      if head == NULL {
        LinkFirst(add, k);
      } else {
        LinkLast(add, k);
      }
    }

    /** An element that is not yet in the table, with a key that no element of the table has. */
    ghost predicate Addable(add: Ref, k: Key)
      reads this
    {
      && add != NULL && add !in order
      && forall x :: x in order ==> x in key && key[x] != k
    }

    /** The new handle's hash value, and its place among the chains. */
    method Hash(add: Ref, k: Key, ghost items: seq<Ref>)
      requires Chained(items) && Counted() && Bounded() && num_items == |items|
      requires add != NULL && add !in items
      modifies this`hashv, this`num_items, this`hh_prev, this`hh_next, this`buckets, this`num_buckets, this`log2_num_buckets
      modifies this`ideal_chain_maxlen, this`nonideal_items, this`ineff_expands, this`noexpand, this`chains, this`history
      ensures hashv == old(hashv)[add := fcn(k)]
      ensures Chained(items + [add]) && num_items == |items| + 1 && Counted() && Bounded()
      ensures if old(Filled(k)) then Expanded() else Unexpanded()
      ensures items == [] ==> Unexpanded()
    {
      num_items := num_items + 1;
      hashv := hashv[add := fcn(k)];
      PlacedKept(chains, items, old(hashv), hashv);
      var bkt := ToBucket(hashv[add], num_buckets, log2_num_buckets);
      AddToBucket(bkt, add, items);
    }

    /** The new element, which is already at the end of the list, joins the chains. */
    method Place(add: Ref, k: Key, ghost items: seq<Ref>)
      requires Chained(items) && Counted() && Bounded() && num_items == |items|
      requires add != NULL && add !in items && order == items + [add] && Distinct(order)
      requires head == First(order) && tail == Last(order) && Threaded(order, prev, next)
      requires Keyed(order, key, hashv[add := fcn(k)], fcn)
      modifies this`hashv, this`num_items, this`hh_prev, this`hh_next, this`buckets, this`num_buckets, this`log2_num_buckets
      modifies this`ideal_chain_maxlen, this`nonideal_items, this`ineff_expands, this`noexpand, this`chains, this`history
      ensures Valid()
      ensures if old(Filled(k)) then Expanded() else Unexpanded()
      ensures items == [] ==> Unexpanded()
    {
      Hash(add, k, items);
    }

    /** Both sides of HASH_ADD_KEYPTR. */
    method AddItem(add: Ref, k: Key)
      requires Valid() && add != NULL && add !in order && Distinct(order + [add])
      requires Keyed(order + [add], key[add := k], hashv[add := fcn(k)], fcn)
      modifies this
      ensures Valid() && order == old(order) + [add] && key == old(key)[add := k]
      ensures if old(order) == [] then Started() else if old(Filled(k)) then Expanded() else Unexpanded()
    {
      Link(add, k);
      Place(add, k, old(order));
    }

    ghost function Records(): Phase
      reads this
    {
      if order == [] then NoTable else Side()
    }

    /** In a valid table the count of a bucket is the number of items whose hash values select it. */
    lemma CountIsLoad(b: nat)
      requires Valid() && order != [] && b < num_buckets
      ensures num_buckets == |buckets| && buckets[b].count == Load(order, key, fcn, num_buckets, b)
    {
      assert Holds(buckets[b], chains[b], hh_prev, hh_next);
      assert Placed(chains[b], b, num_buckets, order, hashv);
      PlacedLoad(chains[b], b, num_buckets, order, key, hashv, fcn);
    }

    lemma CountsAreLoads()
      requires Valid() && order != []
      ensures 0 < num_buckets == |buckets| && Counts(buckets) == Loads(order, key, fcn, num_buckets)
    {
      forall b | 0 <= b < num_buckets ensures Counts(buckets)[b] == Load(order, key, fcn, num_buckets, b) {
        CountIsLoad(b);
      }
    }

    /** The bucket reaches its threshold when the items that select it, the new one among them, are as many. */
    ghost predicate Foreseen(add: Ref, k: Key)
      reads this
    {
      order != [] ==>
        && Records().mults != []
        && (Filled(k) <==> !Records().inhibited && Crowded(Records(), order + [add], key[add := k], fcn, k))
    }

    lemma LoadAdded(add: Ref, k: Key)
      requires Valid() && add !in order
      ensures Foreseen(add, k)
    {
      if order != [] {
        var b := fcn(k) % num_buckets;
        CountIsLoad(b);
        LoadKept(order, key, key[add := k], fcn, num_buckets, b);
        LoadMore(order, add, key[add := k], fcn, num_buckets, b);
      }
    }

    /** The records after a doubling are those that the items call for. */
    lemma GrownRecords(x: Phase)
      requires Valid() && order != [] && x.Phase? && x.mults != [] && num_buckets == 2 * |x.mults|
      requires ideal_chain_maxlen == Ceil(num_items, num_buckets)
      requires Tallied(buckets, nonideal_items, ideal_chain_maxlen)
      requires history == x.history + [nonideal_items > num_items / 2]
      ensures Records() == Grown(x, order, key, fcn)
    {
      CountsAreLoads();
      GrownIs(buckets, ideal_chain_maxlen, nonideal_items, history, x, order, key, fcn);
    }

    /** The same, with what becomes of the bucket side. */
    method AddPhased(add: Ref, k: Key)
      requires Valid() && add != NULL && add !in order && Distinct(order + [add])
      requires Keyed(order + [add], key[add := k], hashv[add := fcn(k)], fcn)
      modifies this
      ensures Valid() && order == old(order) + [add] && key == old(key)[add := k]
      ensures if old(order) == [] then Started() else if old(Filled(k)) then Expanded() else Unexpanded()
      ensures Records() == WithItem(old(Records()), order, key, fcn, k)
    {
      ghost var x, grows := Records(), Filled(k);
      LoadAdded(add, k);
      AddItem(add, k);
      if x.Phase? && grows {
        GrownRecords(x);
      }
    }

    /** HASH_ADD_KEYPTR */
    method Add(add: Ref, k: Key)
      requires Valid() && Addable(add, k)
      modifies this
      ensures Valid() && order == old(order) + [add] && key == old(key)[add := k]
      ensures Contents() == old(Contents())[k := add]
      ensures if old(order) == [] then Started() else if old(Filled(k)) then Expanded() else Unexpanded()
      ensures Records() == WithItem(old(Records()), order, key, fcn, k)
    {
      KeyedMore(order, key, hashv, fcn, add, k);
      MapMore(order, key, hashv, fcn, add, k);
      Joined(order, [add]);
      AddPhased(add, k);
      assert Contents() == AsMap(order, key);
    }

    /** HASH_FIND_IN_BKT */
    method FindInBucket(b: nat, k: Key) returns (out: Ref)
      requires Chained(order) && Keyed(order, key, hashv, fcn) && b < num_buckets
      ensures out == NULL ==> forall x :: x in chains[b] ==> x in key && key[x] != k
      ensures out != NULL ==> out in chains[b] && out in key && key[out] == k
    {
      ghost var chain := chains[b];
      assert Holds(buckets[b], chain, hh_prev, hh_next);
      NonNull(chain, hh_prev, hh_next);
      assert Placed(chain, b, num_buckets, order, hashv);
      out := buckets[b].hh_head;
      ghost var j := 0;
      while out != NULL
        invariant 0 <= j <= |chain| && out == if j < |chain| then chain[j] else NULL
        invariant forall i :: 0 <= i < j ==> chain[i] in key && key[chain[i]] != k
        decreases |chain| - j
      {
        assert chain[j] in chain && Linked(chain, j, hh_prev, hh_next);
        if |key[out]| == |k| && key[out] == k {
          break;
        }
        out := hh_next[out];
        j := j + 1;
      }
    }

    /** HASH_FIND */
    method Find(k: Key) returns (out: Ref)
      requires Valid()
      ensures out == if k in Contents() then Contents()[k] else NULL
      ensures out != NULL <==> exists x :: x in order && key[x] == k
      ensures out != NULL ==> out in order && key[out] == k
    {
      HeadNull(order, prev, next);
      out := NULL;
      if head != NULL {
        var bkt := ToBucket(fcn(k), num_buckets, log2_num_buckets);
        out := FindInBucket(bkt, k);
        assert Placed(chains[bkt], bkt, num_buckets, order, hashv);
        forall x | x in order && key[x] == k ensures x in chains[bkt] {
        }
      }
    }

    /** The list side of HASH_DELETE, when other elements remain. */
    method Unthread(del: Ref, ghost k: nat)
      requires head == First(order) && tail == Last(order) && Threaded(order, prev, next) && Distinct(order)
      requires k < |order| && order[k] == del && 1 < |order|
      modifies this`head, this`tail, this`prev, this`next
      ensures head == First(Without(order, k)) && tail == Last(Without(order, k))
      ensures Threaded(Without(order, k), prev, next)
    {
      assert Linked(order, k, prev, next);
      NonNull(order, prev, next);
      Ends(order, k);
      if tail == del {
        tail := prev[del];
      }
      if prev[del] != NULL {
        next := next[prev[del] := next[del]];
      } else {
        head := next[del];
      }
      if next[del] != NULL {
        prev := prev[next[del] := prev[del]];
      }
      Unlinked(order, k, old(prev), old(next), prev, next);
    }

    /** HASH_DEL_IN_BKT */
    method DelInBucket(bucket: Bucket, hh_del: Ref, ghost chain: seq<Ref>, ghost j: nat) returns (rest: Bucket)
      requires Holds(bucket, chain, hh_prev, hh_next) && j < |chain| && chain[j] == hh_del
      modifies this`hh_prev, this`hh_next
      ensures rest == Bucket(First(Without(chain, j)), bucket.count - 1, bucket.expand_mult)
      ensures hh_next == if j == 0 then old(hh_next) else old(hh_next)[chain[j - 1] := After(chain, j)]
      ensures hh_prev == if j + 1 == |chain| then old(hh_prev) else old(hh_prev)[chain[j + 1] := Before(chain, j)]
    {
      assert Linked(chain, j, hh_prev, hh_next);
      NonNull(chain, hh_prev, hh_next);
      Ends(chain, j);
      rest := bucket.(count := bucket.count - 1);
      if rest.hh_head == hh_del {
        rest := rest.(hh_head := hh_next[hh_del]);
      }
      if hh_prev[hh_del] != NULL {
        hh_next := hh_next[hh_prev[hh_del] := hh_next[hh_del]];
      }
      if hh_next[hh_del] != NULL {
        hh_prev := hh_prev[hh_next[hh_del] := hh_prev[hh_del]];
      }
    }

    /** The bucket side of HASH_DELETE. */
    method Unchain(hh_del: Ref, ghost items: seq<Ref>, ghost k: nat)
      requires Chained(items) && Bounded() && k < |items| && items[k] == hh_del
      modifies this`hh_prev, this`hh_next, this`buckets, this`chains
      ensures Chained(Without(items, k)) && Bounded() && Mults(buckets) == old(Mults(buckets))
    {
      var b := ToBucket(hashv[hh_del], num_buckets, log2_num_buckets);
      ghost var chain := chains[b];
      assert Holds(buckets[b], chain, hh_prev, hh_next);
      assert Placed(chain, b, num_buckets, items, hashv);
      ghost var j :| 0 <= j < |chain| && chain[j] == hh_del;
      var rest := DelInBucket(buckets[b], hh_del, chain, j);
      StoredPull(buckets, chains, items, hashv, b, j, rest, old(hh_prev), old(hh_next), hh_prev, hh_next);
      PlacedPull(chains, items, hashv, b, j, k);
      PulledFit(buckets, b, rest);
      MultsKept(buckets, b, rest);
      buckets := buckets[b := rest];
      chains := chains[b := Without(chain, j)];
    }

    /** Other elements remain. */
    method DeleteOne(del: Ref, ghost k: nat)
      requires Valid() && k < |order| && order[k] == del && 1 < |order| && Keyed(Without(order, k), key, hashv, fcn)
      modifies this`head, this`tail, this`prev, this`next, this`order
      modifies this`hh_prev, this`hh_next, this`buckets, this`chains, this`num_items
      ensures Valid() && order == Without(old(order), k) && Mults(buckets) == old(Mults(buckets))
    {
      Unthread(del, k);
      Unchain(del, order, k);
      num_items := num_items - 1;
      order := Without(order, k);
    }

    /** Without its last element the table is freed. */
    method DeleteLast(del: Ref)
      requires Valid() && order == [del]
      modifies this`head, this`order
      ensures Valid() && order == Without([del], 0) == []
    {
      head := NULL;
      order := [];
    }

    /** Both branches of HASH_DELETE. */
    method DeleteAt(del: Ref, ghost k: nat)
      requires Valid() && k < |order| && order[k] == del && Keyed(Without(order, k), key, hashv, fcn)
      modifies this`head, this`tail, this`prev, this`next, this`order
      modifies this`hh_prev, this`hh_next, this`buckets, this`chains, this`num_items
      ensures Valid() && order == Without(old(order), k) && Unexpanded()
    {
      Alone(order, k, prev, next);
      if prev[del] == NULL && next[del] == NULL {
        DeleteLast(del);
      } else {
        DeleteOne(del, k);
      }
    }

    /** HASH_DELETE */
    method Delete(del: Ref)
      requires Valid() && del in order
      modifies this`head, this`tail, this`prev, this`next, this`order
      modifies this`hh_prev, this`hh_next, this`buckets, this`chains, this`num_items
      ensures Valid() && key == old(key) && Unexpanded()
      ensures order == Without(old(order), IndexOf(old(order), del))
      ensures Contents() == old(Contents()) - {key[del]}
    {
      ghost var k := IndexOf(order, del);
      ghost var items := order;
      KeyedLess(items, key, hashv, fcn, k);
      MapLess(items, key, hashv, fcn, k);
      DeleteAt(del, k);
    }

    /** What HASH_REPLACE does when the key is there. */
    method Discard(del: Ref, add: Ref, k: Key)
      requires Valid() && del in order && key[del] == k && add != NULL && (add in order ==> key[add] == k)
      modifies this`head, this`tail, this`prev, this`next, this`order
      modifies this`hh_prev, this`hh_next, this`buckets, this`chains, this`num_items
      ensures Valid() && key == old(key) && Unexpanded() && Addable(add, k)
      ensures order == Without(old(order), IndexOf(old(order), del)) && (order == [] <==> old(order) == [del])
      ensures Contents() == old(Contents()) - {k} && Records() == Reduced(old(Records()), order)
    {
      Members(order, IndexOf(order, del));
      OnlyOne(order, del);
      Delete(del);
    }

    /** HASH_REPLACE; the element may replace itself. */
    method Replace(add: Ref, k: Key) returns (replaced: Ref)
      requires Valid() && add != NULL && (add in order ==> key[add] == k)
      modifies this
      ensures Valid() && key == old(key)[add := k]
      ensures replaced == if k in old(Contents()) then old(Contents())[k] else NULL
      ensures if old(order) == [] || old(order) == [replaced] then Started() else Unexpanded() || Expanded()
      ensures order == (if replaced == NULL then old(order) else Without(old(order), IndexOf(old(order), replaced))) + [add]
      ensures Records() == WithItem(Reduced(old(Records()), order[..|order| - 1]), order, key, fcn, k)
      ensures Contents() == old(Contents())[k := add]
    {
      replaced := Find(k);
      NonNull(order, prev, next);
      if replaced != NULL {
        Discard(replaced, add, k);
      }
      Add(add, k);
      Overwritten(old(Contents()), k, add);
    }

    /** Until expansion is inhibited, the load and every chain stay bounded. */
    lemma ChainBound()
      requires Valid() && order != [] && noexpand != 1
      ensures num_items <= 19 * num_buckets
      ensures Total(Mults(buckets)) <= num_buckets == |buckets|
      ensures forall b :: 0 <= b < num_buckets ==>
        buckets[b].count == |chains[b]| <= THRESH * (buckets[b].expand_mult + 1)
    {
      CountsAreSizes(buckets, chains, hh_prev, hh_next);
      FewItems(buckets);
      forall b | 0 <= b < num_buckets
        ensures buckets[b].count == |chains[b]| <= THRESH * (buckets[b].expand_mult + 1)
      {
        assert Short(buckets[b]) && Counts(buckets)[b] == Sizes(chains)[b];
      }
    }

    // ---------- HASH_FSCK ----------

    /** Walks one chain, checks its back links and counts it. */
    method CheckChain(b: nat) returns (ok: bool, count: nat)
      requires Chained(order) && b < num_buckets
      ensures ok && count == |chains[b]| == buckets[b].count
    {
      ghost var chain := chains[b];
      assert Holds(buckets[b], chain, hh_prev, hh_next);
      NonNull(chain, hh_prev, hh_next);
      ok, count := true, 0;
      var thh, before := buckets[b].hh_head, NULL;
      while thh != NULL
        invariant ok && count <= |chain| && thh == (if count < |chain| then chain[count] else NULL)
        invariant before == if count == 0 then NULL else chain[count - 1]
        decreases |chain| - count
      {
        assert Linked(chain, count, hh_prev, hh_next);
        if before != hh_prev[thh] {
          ok := false;
        }
        count := count + 1;
        before := thh;
        thh := hh_next[thh];
      }
      if buckets[b].count != count {
        ok := false;
      }
    }

    /** Walks the application order. */
    method CheckOrder() returns (ok: bool, count: nat)
      requires Ordered()
      ensures ok && count == |order|
    {
      NonNull(order, prev, next);
      ok, count := true, 0;
      var thh, before := head, NULL;
      while thh != NULL
        invariant ok && count <= |order| && thh == (if count < |order| then order[count] else NULL)
        invariant before == if count == 0 then NULL else order[count - 1]
        decreases |order| - count
      {
        assert Linked(order, count, prev, next);
        if before != prev[thh] {
          ok := false;
        }
        count := count + 1;
        before := thh;
        thh := next[thh];
      }
    }

    /** The integrity check finds nothing wrong. */
    method Fsck() returns (ok: bool)
      requires Valid()
      ensures ok
    {
      ok := true;
      HeadNull(order, prev, next);
      if head != NULL {
        var total, i := 0, 0;
        while i < num_buckets
          invariant 0 <= i <= num_buckets && ok && total == Total(Sizes(chains)[..i])
        {
          var fine, count := CheckChain(i);
          ok := ok && fine;
          total := total + count;
          assert Sizes(chains)[..i + 1][..i] == Sizes(chains)[..i];
          i := i + 1;
        }
        assert Sizes(chains)[..i] == Sizes(chains);
        ok := ok && total == num_items;
        var fine, count := CheckOrder();
        ok := ok && fine && count == num_items;
      }
    }
  }
}
