/** The bound on chain lengths that the adaptive thresholds keep. */
module UthashBound {
  import opened UthashBits
  import opened UthashChains

  // ---------- what an expansion records ----------

  /** The threshold multiplier of a bucket with `count` items. */
  function Mult(count: nat, ideal: nat): nat
    requires 0 < ideal
  {
    if count > ideal then count / ideal else 0
  }

  /** How many of the bucket's items stand beyond the ideal chain length. */
  function Excess(count: nat, ideal: nat): nat {
    if count > ideal then count - ideal else 0
  }

  function Counts(buckets: seq<Bucket>): (t: seq<nat>)
    ensures |t| == |buckets| && forall b :: 0 <= b < |t| ==> t[b] == buckets[b].count
  {
    seq(|buckets|, b requires 0 <= b < |buckets| => buckets[b].count)
  }

  function Mults(buckets: seq<Bucket>): (t: seq<nat>)
    ensures |t| == |buckets| && forall b :: 0 <= b < |t| ==> t[b] == buckets[b].expand_mult
  {
    seq(|buckets|, b requires 0 <= b < |buckets| => buckets[b].expand_mult)
  }

  function Excesses(buckets: seq<Bucket>, ideal: nat): (t: seq<nat>)
    ensures |t| == |buckets| && forall b :: 0 <= b < |t| ==> t[b] == Excess(buckets[b].count, ideal)
  {
    seq(|buckets|, b requires 0 <= b < |buckets| => Excess(buckets[b].count, ideal))
  }

  ghost predicate Tallied(buckets: seq<Bucket>, nonideal: nat, ideal: nat) {
    && 0 < ideal
    && (forall b :: 0 <= b < |buckets| ==> buckets[b].expand_mult == Mult(buckets[b].count, ideal))
    && nonideal == Total(Excesses(buckets, ideal))
  }

  /** One more item in bucket `b`. */
  lemma TallyMore(buckets: seq<Bucket>, b: nat, bucket: Bucket, nonideal: nat, nonideal': nat, ideal: nat)
    requires Tallied(buckets, nonideal, ideal) && b < |buckets|
    requires bucket.count == buckets[b].count + 1
    requires bucket.expand_mult == if bucket.count > ideal then bucket.count / ideal else buckets[b].expand_mult
    requires nonideal' == if bucket.count > ideal then nonideal + 1 else nonideal
    ensures Tallied(buckets[b := bucket], nonideal', ideal)
  {
    var e := Excess(bucket.count, ideal);
    TotalUpdate(Excesses(buckets, ideal), b, e);
    assert Excesses(buckets[b := bucket], ideal) == Excesses(buckets, ideal)[b := e];
  }

  // ---------- the bound ----------

  /** A bucket stays below its threshold, unless an expansion has left it at 10 items with multiplier 0. */
  ghost predicate Short(bucket: Bucket) {
    bucket.count < THRESH * (bucket.expand_mult + 1) || (bucket.count == THRESH && bucket.expand_mult == 0)
  }

  /** The multiplier, and 1 for a bucket left just at the threshold of 10. */
  function Share(bucket: Bucket): nat {
    bucket.expand_mult + if bucket.count == THRESH && bucket.expand_mult == 0 then 1 else 0
  }

  function Shares(buckets: seq<Bucket>): (t: seq<nat>)
    ensures |t| == |buckets| && forall b :: 0 <= b < |t| ==> t[b] == Share(buckets[b])
  {
    seq(|buckets|, b requires 0 <= b < |buckets| => Share(buckets[b]))
  }

  ghost predicate Fit(buckets: seq<Bucket>) {
    && (forall b {:trigger Short(buckets[b])} :: 0 <= b < |buckets| ==> Short(buckets[b]))
    && Total(Shares(buckets)) <= |buckets|
  }

  lemma {:induction false} TotalBelow(s: seq<nat>, t: seq<nat>, a: nat, c: nat)
    requires |s| == |t| && forall i :: 0 <= i < |s| ==> s[i] <= a * t[i] + c
    ensures Total(s) <= a * Total(t) + c * |s|
    decreases |s|
  {
    if s == [] {
      assert a * Total(t) == 0;
    } else {
      var n := |s| - 1;
      TotalBelow(s[..n], t[..n], a, c);
      SumTimes(a, Total(t[..n]), t[n]);
      SumTimes(c, n, 1);
    }
  }

  lemma SumTimes(a: nat, x: nat, y: nat)
    ensures a * (x + y) == a * x + a * y
  {
  }

  /** At most 19 items for each bucket. */
  lemma FewItems(buckets: seq<Bucket>)
    requires Fit(buckets)
    ensures Total(Counts(buckets)) <= 19 * |buckets|
    ensures Total(Mults(buckets)) <= |buckets|
  {
    forall b | 0 <= b < |buckets| ensures Counts(buckets)[b] <= 10 * Shares(buckets)[b] + 9 {
      assert Short(buckets[b]);
    }
    TotalBelow(Counts(buckets), Shares(buckets), 10, 9);
    TotalBelow(Mults(buckets), Shares(buckets), 1, 0);
  }

  lemma {:induction false} SharesUnder(counts: seq<nat>, shares: seq<nat>, ideal: nat)
    requires |counts| == |shares| && forall b :: 0 <= b < |counts| ==> ideal * shares[b] <= counts[b]
    ensures ideal * Total(shares) <= Total(counts)
    decreases |counts|
  {
    if counts == [] {
      assert ideal * Total(shares) == 0;
    } else {
      var n := |counts| - 1;
      SharesUnder(counts[..n], shares[..n], ideal);
      SumTimes(ideal, Total(shares[..n]), shares[n]);
    }
  }

  lemma MultBelow(count: nat, ideal: nat)
    requires 0 < ideal
    ensures ideal * Mult(count, ideal) <= count < ideal * (Mult(count, ideal) + 1) || (count == ideal && Mult(count, ideal) == 0)
  {
    assert ideal * (count / ideal) + count % ideal == count;
  }

  /** The ideal length times a bucket's share is at most its count. */
  lemma ShareBelow(bucket: Bucket, ideal: nat)
    requires 0 < ideal <= 10 && bucket.expand_mult == Mult(bucket.count, ideal)
    ensures ideal * Share(bucket) <= bucket.count && Short(bucket)
  {
    MultBelow(bucket.count, ideal);
    ProductUnder(ideal, 10, bucket.expand_mult + 1);
  }

  lemma ProductBelow(a: nat, x: nat, y: nat)
    requires 0 < a && a * x <= a * y
    ensures x <= y
  {
    assert x > y ==> a * x >= a * (y + 1);
  }

  lemma ProductUnder(a: nat, c: nat, x: nat)
    requires a <= c
    ensures a * x <= c * x
  {
  }

  /** With at most 19 items and one more for each old bucket, the doubling makes the ideal chain length at most 10. */
  lemma IdealAtMostTen(n: nat, m: nat)
    requires 0 < n <= 19 * m + 1 && 0 < m
    ensures 0 < Ceil(n, 2 * m) <= 10
  {
    var c := Ceil(n, 2 * m);
    CeilRange(n, 2 * m);
    assert c >= 11 ==> 11 * (2 * m) <= c * (2 * m);
  }

  /** So every bucket is within its new threshold, and the multipliers sum to at most the number of buckets. */
  lemma ExpandedFit(buckets: seq<Bucket>, nonideal: nat, ideal: nat, n: nat, m: nat)
    requires |buckets| == 2 * m && Total(Counts(buckets)) == n && 0 < n <= 19 * m + 1 && 0 < m
    requires ideal == Ceil(n, 2 * m) && Tallied(buckets, nonideal, ideal)
    ensures Fit(buckets) && ideal <= 10
  {
    IdealAtMostTen(n, m);
    forall b | 0 <= b < |buckets| ensures Short(buckets[b]) && ideal * Shares(buckets)[b] <= Counts(buckets)[b] {
      ShareBelow(buckets[b], ideal);
    }
    SharesUnder(Counts(buckets), Shares(buckets), ideal);
    CeilRange(n, 2 * m);
    Averaged(ideal, Total(Shares(buckets)), n, 2 * m);
  }

  lemma Averaged(ideal: nat, shares: nat, n: nat, m: nat)
    requires 0 < ideal && ideal * shares <= n <= m * ideal
    ensures shares <= m
  {
    assert m * ideal == ideal * m;
    ProductBelow(ideal, shares, m);
  }
}
