/** Bucket chains: what they hold, how an expansion spreads them, and the sums its bookkeeping takes. */
module UthashChains {
  import opened Numbers
  import opened UthashList

  datatype Bucket = Bucket(hh_head: Ref, count: nat, expand_mult: nat)

  /** HASH_BKT_CAPACITY_THRESH */
  const THRESH: nat := 10

  // ---------- sums ----------

  function Total(s: seq<nat>): nat {
    if s == [] then 0 else Total(s[..|s| - 1]) + s[|s| - 1]
  }

  lemma {:induction false} TotalUpdate(s: seq<nat>, i: nat, v: nat)
    requires i < |s|
    ensures Total(s[i := v]) + s[i] == Total(s) + v
    decreases |s|
  {
    var n := |s| - 1;
    if i < n {
      assert s[i := v][..n] == s[..n][i := v];
      TotalUpdate(s[..n], i, v);
    } else {
      assert s[i := v][..n] == s[..n];
    }
  }

  lemma {:induction false} TotalZeros(s: seq<nat>)
    requires forall i :: 0 <= i < |s| ==> s[i] == 0
    ensures Total(s) == 0
    decreases |s|
  {
    if s == [] {
    } else {
      TotalZeros(s[..|s| - 1]);
    }
  }

  function Sizes(chains: seq<seq<Ref>>): (t: seq<nat>)
    ensures |t| == |chains| && forall b :: 0 <= b < |t| ==> t[b] == |chains[b]|
  {
    seq(|chains|, b requires 0 <= b < |chains| => |chains[b]|)
  }

  // ---------- what the buckets hold ----------

  ghost predicate Holds(bucket: Bucket, chain: seq<Ref>, hh_prev: Links, hh_next: Links) {
    && Threaded(chain, hh_prev, hh_next)
    && Distinct(chain)
    && bucket.hh_head == First(chain)
    && bucket.count == |chain|
  }

  ghost predicate Stored(buckets: seq<Bucket>, chains: seq<seq<Ref>>, hh_prev: Links, hh_next: Links) {
    && |buckets| == |chains|
    && forall b {:trigger Holds(buckets[b], chains[b], hh_prev, hh_next)} ::
      0 <= b < |chains| ==> Holds(buckets[b], chains[b], hh_prev, hh_next)
  }

  /** Chain `b` holds just the items whose hash value selects it. */
  ghost predicate Placed(chain: seq<Ref>, b: nat, m: nat, items: seq<Ref>, hashv: map<Ref, nat>)
    requires 0 < m
  {
    forall x :: x in chain <==> x in items && x in hashv && hashv[x] % m == b
  }

  ghost predicate AllPlaced(chains: seq<seq<Ref>>, items: seq<Ref>, hashv: map<Ref, nat>) {
    && 0 < |chains|
    && forall b {:trigger Placed(chains[b], b, |chains|, items, hashv)} ::
      0 <= b < |chains| ==> Placed(chains[b], b, |chains|, items, hashv)
  }

  ghost predicate Hashed(items: seq<Ref>, hashv: map<Ref, nat>) {
    forall x :: x in items ==> x in hashv
  }

  lemma Apart(chains: seq<seq<Ref>>, items: seq<Ref>, hashv: map<Ref, nat>, b: nat, c: nat, x: Ref)
    requires AllPlaced(chains, items, hashv) && b < |chains| && c < |chains| && b != c && x in chains[b]
    ensures x !in chains[c]
  {
    assert Placed(chains[b], b, |chains|, items, hashv);
    assert Placed(chains[c], c, |chains|, items, hashv);
  }

  /** `x` joins the front of chain `b`; the other chains are as they were. */
  lemma StoredPush(buckets: seq<Bucket>, chains: seq<seq<Ref>>, items: seq<Ref>, hashv: map<Ref, nat>, b: nat, x: Ref,
                   bucket: Bucket, hh_prev: Links, hh_next: Links, hh_prev': Links, hh_next': Links)
    requires Stored(buckets, chains, hh_prev, hh_next) && AllPlaced(chains, items, hashv) && b < |chains|
    requires x !in items && x != NULL
    requires hh_next' == hh_next[x := First(chains[b])]
    requires hh_prev' == if chains[b] == [] then hh_prev[x := NULL] else hh_prev[x := NULL][First(chains[b]) := x]
    requires bucket.hh_head == x && bucket.count == |chains[b]| + 1
    ensures Stored(buckets[b := bucket], chains[b := [x] + chains[b]], hh_prev', hh_next')
  {
    assert Holds(buckets[b], chains[b], hh_prev, hh_next);
    assert Placed(chains[b], b, |chains|, items, hashv);
    Pushed(chains[b], x, hh_prev, hh_next, hh_prev', hh_next');
    forall c | 0 <= c < |chains| && c != b ensures Holds(buckets[c], chains[c], hh_prev', hh_next') {
      assert Holds(buckets[c], chains[c], hh_prev, hh_next);
      assert Placed(chains[c], c, |chains|, items, hashv);
      if chains[b] != [] {
        Apart(chains, items, hashv, b, c, chains[b][0]);
      }
      Untouched(chains[c], hh_prev, hh_next, hh_prev', hh_next');
    }
  }

  /** The handle at `k` leaves chain `b`. */
  lemma StoredPull(buckets: seq<Bucket>, chains: seq<seq<Ref>>, items: seq<Ref>, hashv: map<Ref, nat>, b: nat, k: nat,
                   bucket: Bucket, hh_prev: Links, hh_next: Links, hh_prev': Links, hh_next': Links)
    requires Stored(buckets, chains, hh_prev, hh_next) && AllPlaced(chains, items, hashv)
    requires b < |chains| && k < |chains[b]|
    requires hh_next' == if k == 0 then hh_next else hh_next[chains[b][k - 1] := After(chains[b], k)]
    requires hh_prev' == if k + 1 == |chains[b]| then hh_prev else hh_prev[chains[b][k + 1] := Before(chains[b], k)]
    requires bucket.hh_head == First(Without(chains[b], k)) && bucket.count == |chains[b]| - 1
    ensures Stored(buckets[b := bucket], chains[b := Without(chains[b], k)], hh_prev', hh_next')
  {
    assert Holds(buckets[b], chains[b], hh_prev, hh_next);
    Unlinked(chains[b], k, hh_prev, hh_next, hh_prev', hh_next');
    forall c | 0 <= c < |chains| && c != b ensures Holds(buckets[c], chains[c], hh_prev', hh_next') {
      assert Holds(buckets[c], chains[c], hh_prev, hh_next);
      if 0 < k {
        Apart(chains, items, hashv, b, c, chains[b][k - 1]);
      }
      if k + 1 < |chains[b]| {
        Apart(chains, items, hashv, b, c, chains[b][k + 1]);
      }
      Untouched(chains[c], hh_prev, hh_next, hh_prev', hh_next');
    }
  }

  // ---------- all items, chain after chain ----------

  function Flat(chains: seq<seq<Ref>>): seq<Ref> {
    if chains == [] then [] else Flat(chains[..|chains| - 1]) + chains[|chains| - 1]
  }

  lemma {:induction false} FlatLength(chains: seq<seq<Ref>>)
    ensures |Flat(chains)| == Total(Sizes(chains))
    decreases |chains|
  {
    if chains == [] {
    } else {
      var n := |chains| - 1;
      FlatLength(chains[..n]);
      assert Sizes(chains)[..n] == Sizes(chains[..n]);
    }
  }

  ghost predicate FlatOf(s: seq<Ref>, n: nat, m: nat, items: seq<Ref>, hashv: map<Ref, nat>)
    requires 0 < m
  {
    Distinct(s) && forall x :: x in s <==> x in items && x in hashv && hashv[x] % m < n
  }

  lemma Joined(s: seq<Ref>, t: seq<Ref>)
    requires Distinct(s) && Distinct(t) && forall x :: x in t ==> x !in s
    ensures Distinct(s + t)
  {
    forall i, j | 0 <= i < j < |s + t| ensures (s + t)[i] != (s + t)[j] {
      if i < |s| <= j {
        assert (s + t)[j] in t && (s + t)[i] in s;
      }
    }
  }

  lemma {:induction false} FlatPlaced(chains: seq<seq<Ref>>, n: nat, items: seq<Ref>, hashv: map<Ref, nat>)
    requires AllPlaced(chains, items, hashv) && n <= |chains|
    requires forall b :: 0 <= b < |chains| ==> Distinct(chains[b])
    ensures FlatOf(Flat(chains[..n]), n, |chains|, items, hashv)
    decreases n
  {
    if n == 0 {
    } else {
      FlatPlaced(chains, n - 1, items, hashv);
      assert chains[..n][..n - 1] == chains[..n - 1];
      assert Placed(chains[n - 1], n - 1, |chains|, items, hashv);
      Joined(Flat(chains[..n - 1]), chains[n - 1]);
    }
  }

  // ---------- spreading items over buckets ----------

  /** The items of `s` pushed one by one onto the chains that their hash values select. */
  function Spread(s: seq<Ref>, m: nat, hashv: map<Ref, nat>): (chains: seq<seq<Ref>>)
    requires 0 < m && Hashed(s, hashv)
    ensures |chains| == m
    decreases |s|
  {
    if s == [] then seq(m, _ => [])
    else
      var x := s[|s| - 1];
      var c := Spread(s[..|s| - 1], m, hashv);
      c[hashv[x] % m := [x] + c[hashv[x] % m]]
  }

  lemma SpreadMore(s: seq<Ref>, x: Ref, m: nat, hashv: map<Ref, nat>)
    requires 0 < m && Hashed(s + [x], hashv)
    ensures Hashed(s, hashv)
    ensures var c := Spread(s, m, hashv); Spread(s + [x], m, hashv) == c[hashv[x] % m := [x] + c[hashv[x] % m]]
  {
    assert forall y :: y in s ==> y in s + [x];
    assert (s + [x])[..|s|] == s;
  }

  /** No item is lost and none is misplaced. */
  lemma {:induction false} SpreadPlaced(s: seq<Ref>, m: nat, hashv: map<Ref, nat>, b: nat)
    requires 0 < m && Hashed(s, hashv) && Distinct(s) && b < m
    ensures Placed(Spread(s, m, hashv)[b], b, m, s, hashv)
    ensures Distinct(Spread(s, m, hashv)[b])
    decreases |s|
  {
    if s == [] {
    } else {
      var n := |s| - 1;
      var x := s[n];
      assert s == s[..n] + [x];
      SpreadPlaced(s[..n], m, hashv, b);
      var c := Spread(s[..n], m, hashv)[b];
      assert x !in s[..n];
      assert x !in c;
      assert Spread(s, m, hashv)[b] == if hashv[x] % m == b then [x] + c else c;
    }
  }

  lemma {:induction false} SpreadTotal(s: seq<Ref>, m: nat, hashv: map<Ref, nat>)
    requires 0 < m && Hashed(s, hashv)
    ensures Total(Sizes(Spread(s, m, hashv))) == |s|
    decreases |s|
  {
    if s == [] {
      TotalZeros(Sizes(Spread(s, m, hashv)));
    } else {
      var n := |s| - 1;
      SpreadTotal(s[..n], m, hashv);
      var c := Spread(s[..n], m, hashv);
      var b := hashv[s[n]] % m;
      TotalUpdate(Sizes(c), b, |c[b]| + 1);
      assert Sizes(Spread(s, m, hashv)) == Sizes(c)[b := |c[b]| + 1];
    }
  }

  /** An item of old bucket `i` lands in bucket `i` or in bucket `i + m`. */
  lemma SplitInTwo(h: nat, m: nat)
    requires 0 < m
    ensures h % (2 * m) == h % m || h % (2 * m) == h % m + m
  {
    var q := h / m;
    var r := h % m;
    assert h == m * q + r;
    if q % 2 == 0 {
      assert h == 2 * m * (q / 2) + r by {
        assert m * q == m * (2 * (q / 2));
      }
      RemainderOf(h, 2 * m, q / 2, r);
    } else {
      assert h == 2 * m * (q / 2) + (m + r) by {
        assert m * q == m * (2 * (q / 2) + 1);
      }
      RemainderOf(h, 2 * m, q / 2, m + r);
    }
  }
}
