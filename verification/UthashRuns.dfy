/** Whole runs of the table's operations against a plain model of items with keys, and what its doublings amount to. */
module UthashRuns {
  import opened UthashBits
  import opened UthashList
  import opened UthashChains
  import opened UthashBound
  import opened UthashExpand
  import opened UthashMerge
  import opened UthashTable
  import opened UthashSort

  datatype Op =
    | AddOp(item: Ref, k: Key)
    | DeleteOp(item: Ref)
    | ReplaceOp(item: Ref, k: Key)
    | FindOp(k: Key)
    | SortOp(cmp: Order)

  // ---------- the plain model ----------

  /**
   * The items in application order, their keys, what lookups and replacements have returned, and the bucket side as it
   * follows from the items.
   */
  datatype Model = Model(order: seq<Ref>, key: map<Ref, Key>, results: seq<Ref>, phase: Phase)

  function Empty(): Model { Model([], map[], [], NoTable) }

  function Kept(s: seq<Ref>, stays: Ref -> bool): seq<Ref> {
    if s == [] then [] else Kept(s[..|s| - 1], stays) + if stays(s[|s| - 1]) then [s[|s| - 1]] else []
  }

  function HasKey(key: map<Ref, Key>, x: Ref, k: Key): bool { x in key && key[x] == k }

  /** The item with the key, or none. */
  function LookUp(m: Model, k: Key): Ref { First(Kept(m.order, (x: Ref) => HasKey(m.key, x, k))) }

  /** What the header asks of its callers. */
  ghost predicate Allowed(m: Model, op: Op) {
    match op
    case AddOp(item, k) => item != NULL && item !in m.order && forall x :: x in m.order ==> !HasKey(m.key, x, k)
    case DeleteOp(item) => item in m.order
    case ReplaceOp(item, k) => item != NULL && (item in m.order ==> HasKey(m.key, item, k))
    case FindOp(k) => true
    case SortOp(cmp) => Preorder(cmp, set x | x in m.order)
  }

  function Added(fcn: Key -> nat, m: Model, item: Ref, k: Key): Model {
    m.(order := m.order + [item], key := m.key[item := k],
       phase := WithItem(m.phase, m.order + [item], m.key[item := k], fcn, k))
  }

  function Shrunk(m: Model, rest: seq<Ref>): Model { m.(order := rest, phase := Reduced(m.phase, rest)) }

  function Apply(fcn: Key -> nat, m: Model, op: Op): Model {
    match op
    case AddOp(item, k) => Added(fcn, m, item, k)
    case DeleteOp(item) => Shrunk(m, Kept(m.order, (x: Ref) => x != item))
    case ReplaceOp(item, k) =>
      Added(fcn, Shrunk(m, Kept(m.order, (x: Ref) => !HasKey(m.key, x, k))), item, k).(results := m.results + [LookUp(m, k)])
    case FindOp(k) => m.(results := m.results + [LookUp(m, k)])
    case SortOp(cmp) => m.(order := Mergesort(cmp, m.order, 1))
  }

  /** What a run leads to from the start. */
  function Outcome(fcn: Key -> nat, ops: seq<Op>): Model {
    if ops == [] then Empty() else Apply(fcn, Outcome(fcn, ops[..|ops| - 1]), ops[|ops| - 1])
  }

  /** The model after the first `i` operations. */
  function Stage(fcn: Key -> nat, ops: seq<Op>, i: nat): Model
    requires i <= |ops|
  {
    Outcome(fcn, ops[..i])
  }

  function Stages(fcn: Key -> nat, ops: seq<Op>): (trace: seq<Model>)
    ensures |trace| == |ops| + 1 && forall i :: 0 <= i <= |ops| ==> trace[i] == Stage(fcn, ops, i)
  {
    seq(|ops| + 1, i requires 0 <= i <= |ops| => Stage(fcn, ops, i))
  }

  lemma OneMore<T>(s: seq<T>, i: nat)
    requires i < |s|
    ensures s[..i + 1] == s[..i] + [s[i]]
  {
  }

  lemma StagesFrom(fcn: Key -> nat, ops: seq<Op>)
    ensures Stages(fcn, ops)[0] == Empty() && Stages(fcn, ops)[|ops|] == Outcome(fcn, ops)
    ensures Stages(fcn, ops)[..1] == [Empty()]
  {
    assert ops[..0] == [] && ops[..|ops|] == ops;
  }

  lemma NextStage(fcn: Key -> nat, ops: seq<Op>, i: nat)
    requires i < |ops|
    ensures Stages(fcn, ops)[i + 1] == Apply(fcn, Stages(fcn, ops)[i], ops[i])
  {
    assert ops[..i + 1][..i] == ops[..i];
  }

  ghost predicate AllowedRun(fcn: Key -> nat, ops: seq<Op>) {
    forall i :: 0 <= i < |ops| ==> Allowed(Stages(fcn, ops)[i], ops[i])
  }

  lemma {:induction false} KeptAll(s: seq<Ref>, stays: Ref -> bool)
    requires forall i :: 0 <= i < |s| ==> stays(s[i])
    ensures Kept(s, stays) == s
    decreases |s|
  {
    if s == [] {
    } else {
      KeptAll(s[..|s| - 1], stays);
    }
  }

  lemma {:induction false} KeptNone(s: seq<Ref>, stays: Ref -> bool)
    requires forall i :: 0 <= i < |s| ==> !stays(s[i])
    ensures Kept(s, stays) == []
    decreases |s|
  {
    if s == [] {
    } else {
      KeptNone(s[..|s| - 1], stays);
    }
  }

  lemma {:induction false} KeptBut(s: seq<Ref>, k: nat, stays: Ref -> bool)
    requires k < |s| && forall i :: 0 <= i < |s| ==> (stays(s[i]) <==> i != k)
    ensures Kept(s, stays) == Without(s, k)
    decreases |s|
  {
    var n := |s| - 1;
    if k == n {
      KeptAll(s[..n], stays);
    } else {
      KeptBut(s[..n], k, stays);
      assert Without(s, k) == Without(s[..n], k) + [s[n]];
    }
  }

  lemma {:induction false} KeptOnly(s: seq<Ref>, k: nat, stays: Ref -> bool)
    requires k < |s| && forall i :: 0 <= i < |s| ==> (stays(s[i]) <==> i == k)
    ensures Kept(s, stays) == [s[k]]
    decreases |s|
  {
    var n := |s| - 1;
    if k == n {
      KeptNone(s[..n], stays);
    } else {
      KeptOnly(s[..n], k, stays);
    }
  }

  lemma DeleteKeeps(s: seq<Ref>, item: Ref)
    requires Distinct(s) && item in s
    ensures Kept(s, (x: Ref) => x != item) == Without(s, IndexOf(s, item))
  {
    KeptBut(s, IndexOf(s, item), (x: Ref) => x != item);
  }

  /** Filtering by key finds what the map of the items holds, and leaves the rest. */
  lemma KeyKeeps(s: seq<Ref>, key: map<Ref, Key>, hashv: map<Ref, nat>, fcn: Key -> nat, k: Key)
    requires Keyed(s, key, hashv, fcn) && Distinct(s)
    ensures k in AsMap(s, key) ==>
      && AsMap(s, key)[k] in s
      && Kept(s, (x: Ref) => HasKey(key, x, k)) == [AsMap(s, key)[k]]
      && Kept(s, (x: Ref) => !HasKey(key, x, k)) == Without(s, IndexOf(s, AsMap(s, key)[k]))
    ensures k !in AsMap(s, key) ==>
      && Kept(s, (x: Ref) => HasKey(key, x, k)) == []
      && Kept(s, (x: Ref) => !HasKey(key, x, k)) == s
  {
    if k in AsMap(s, key) {
      var j := IndexOf(s, AsMap(s, key)[k]);
      forall i | 0 <= i < |s| ensures HasKey(key, s[i], k) <==> i == j {
        assert s[i] in s && s[j] in s;
      }
      KeptOnly(s, j, (x: Ref) => HasKey(key, x, k));
      KeptBut(s, j, (x: Ref) => !HasKey(key, x, k));
    } else {
      forall i | 0 <= i < |s| ensures !HasKey(key, s[i], k) {
        assert s[i] in s;
      }
      KeptNone(s, (x: Ref) => HasKey(key, x, k));
      KeptAll(s, (x: Ref) => !HasKey(key, x, k));
    }
  }

  // ---------- the doublings of a run ----------

  /** The bucket array of a table that is not inhibited has been doubled, with records that the items call for. */
  ghost predicate Doubles(fcn: Key -> nat, x: Phase, m: Model) {
    && x.Phase? && x.mults != [] && !x.inhibited && m.order != []
    && m.phase == Grown(x, m.order, m.key, fcn)
  }

  /** One operation frees the table, starts one, leaves its bucket side as it is or doubles it once. */
  ghost predicate Evolves(fcn: Key -> nat, x: Phase, m: Model) {
    || m.phase == NoTable
    || m.phase == FreshPhase()
    || m.phase == x
    || Doubles(fcn, x, m)
  }

  lemma ApplyEvolves(fcn: Key -> nat, m: Model, op: Op)
    ensures Evolves(fcn, m.phase, Apply(fcn, m, op))
  {
  }

  function Buckets(m: Model): nat { if m.phase.Phase? then |m.phase.mults| else 0 }

  /** More than half the items stand beyond the ideal position of the buckets there are. */
  predicate Ineffective(fcn: Key -> nat, m: Model) {
    && m.order != [] && 0 < Buckets(m)
    && Total(Overs(Loads(m.order, m.key, fcn, Buckets(m)), Ceil(|m.order|, Buckets(m)))) > |m.order| / 2
  }

  ghost predicate Follows(fcn: Key -> nat, trace: seq<Model>, i: nat)
    requires 0 < i < |trace|
  {
    Evolves(fcn, trace[i - 1].phase, trace[i])
  }

  /** A sequence of models that begins without a table and evolves one operation at a time. */
  ghost predicate Evolving(fcn: Key -> nat, trace: seq<Model>) {
    && trace != [] && trace[0].phase == NoTable
    && forall i {:trigger Follows(fcn, trace, i)} :: 0 < i < |trace| ==> Follows(fcn, trace, i)
  }

  lemma StagesEvolve(fcn: Key -> nat, ops: seq<Op>)
    ensures Evolving(fcn, Stages(fcn, ops))
  {
    var trace := Stages(fcn, ops);
    assert ops[..0] == [];
    forall i | 0 < i < |trace| ensures Follows(fcn, trace, i) {
      NextStage(fcn, ops, i - 1);
      ApplyEvolves(fcn, trace[i - 1], ops[i - 1]);
    }
  }

  /** For each growth of the bucket array between two stages, whether it was ineffective. */
  function Growths(fcn: Key -> nat, trace: seq<Model>, a: nat, b: nat): seq<bool>
    requires a <= b < |trace|
  {
    if a == b then []
    else
      Growths(fcn, trace, a, b - 1) +
      if Buckets(trace[b]) > Buckets(trace[b - 1]) then [Ineffective(fcn, trace[b])] else []
  }

  /** A new table stands at stage `i`, and not the one before it. */
  predicate Began(trace: seq<Model>, i: nat)
    requires i < |trace|
  {
    0 < i && trace[i].phase == FreshPhase() && trace[i - 1].phase != FreshPhase()
  }

  predicate GoesOn(trace: seq<Model>, i: nat)
    requires i < |trace|
  {
    trace[i].phase.Phase? && !Began(trace, i)
  }

  /** From stage `a` to stage `b` one table stands. */
  ghost predicate Lives(trace: seq<Model>, a: nat, b: nat)
    requires a <= b < |trace|
  {
    && trace[a].phase.Phase?
    && forall i {:trigger GoesOn(trace, i)} :: a < i <= b ==> GoesOn(trace, i)
  }

  lemma LivesMore(trace: seq<Model>, a: nat, b: nat)
    requires a < b < |trace|
    ensures Lives(trace, a, b) <==> Lives(trace, a, b - 1) && GoesOn(trace, b)
  {
    if Lives(trace, a, b) {
      forall i | a < i <= b - 1 ensures GoesOn(trace, i) {
      }
      assert GoesOn(trace, b);
    }
    if Lives(trace, a, b - 1) && GoesOn(trace, b) {
      forall i | a < i <= b ensures GoesOn(trace, i) {
        if i == b {
        } else {
          assert GoesOn(trace, i);
        }
      }
    }
  }

  lemma Continues(fcn: Key -> nat, trace: seq<Model>, i: nat)
    requires Evolving(fcn, trace) && 0 < i < |trace| && GoesOn(trace, i)
    ensures trace[i - 1].phase.Phase?
    ensures trace[i].phase == trace[i - 1].phase || Doubles(fcn, trace[i - 1].phase, trace[i])
  {
    assert Follows(fcn, trace, i);
  }

  lemma GrowthOf(fcn: Key -> nat, x: Phase, m: Model)
    requires Doubles(fcn, x, m)
    ensures Buckets(m) == 2 * |x.mults| > |x.mults| && m.phase.history == x.history + [Ineffective(fcn, m)]
    ensures m.phase.inhibited <==> Twice(m.phase.history)
  {
  }

  lemma {:induction false} Origin(fcn: Key -> nat, trace: seq<Model>, b: nat) returns (a: nat)
    requires Evolving(fcn, trace) && b < |trace| && trace[b].phase.Phase?
    ensures 0 < a <= b && Began(trace, a) && Lives(trace, a, b)
    ensures trace[b].phase.history == Growths(fcn, trace, a, b)
    ensures trace[b].phase.inhibited <==> Twice(trace[b].phase.history)
    decreases b
  {
    if Began(trace, b) {
      a := b;
    } else {
      assert 0 < b;
      Continues(fcn, trace, b);
      a := Origin(fcn, trace, b - 1);
      LivesMore(trace, a, b);
      var g := Growths(fcn, trace, a, b - 1);
      if trace[b].phase == trace[b - 1].phase {
        assert Growths(fcn, trace, a, b) == g + [] == g;
      } else {
        GrowthOf(fcn, trace[b - 1].phase, trace[b]);
        assert Growths(fcn, trace, a, b) == g + [Ineffective(fcn, trace[b])];
      }
    }
  }

  /**
   * Whenever a table stands in a run, it began at some operation of that run, and its expansion is inhibited exactly
   * when two successive growths since then were ineffective.
   */
  lemma InhibitedExactly(fcn: Key -> nat, ops: seq<Op>, b: nat) returns (a: nat)
    requires b <= |ops| && Stage(fcn, ops, b).phase.Phase?
    ensures 0 < a <= b && Began(Stages(fcn, ops), a) && Lives(Stages(fcn, ops), a, b)
    ensures Stage(fcn, ops, b).phase.history == Growths(fcn, Stages(fcn, ops), a, b)
    ensures Stage(fcn, ops, b).phase.inhibited <==> Twice(Growths(fcn, Stages(fcn, ops), a, b))
  {
    StagesEvolve(fcn, ops);
    a := Origin(fcn, Stages(fcn, ops), b);
  }

  lemma {:induction false} StaysFrom(fcn: Key -> nat, trace: seq<Model>, a: nat, b: nat)
    requires Evolving(fcn, trace) && a <= b < |trace| && Lives(trace, a, b) && trace[a].phase.inhibited
    ensures trace[b].phase == trace[a].phase
    decreases b
  {
    if a == b {
    } else {
      LivesMore(trace, a, b);
      StaysFrom(fcn, trace, a, b - 1);
      Continues(fcn, trace, b);
    }
  }

  /** Once a table is inhibited, its bucket side stays as it is for as long as it stands. */
  lemma StaysInhibited(fcn: Key -> nat, ops: seq<Op>, a: nat, b: nat)
    requires a <= b <= |ops| && Lives(Stages(fcn, ops), a, b) && Stage(fcn, ops, a).phase.inhibited
    ensures Stage(fcn, ops, b).phase == Stage(fcn, ops, a).phase
  {
    StagesEvolve(fcn, ops);
    StaysFrom(fcn, Stages(fcn, ops), a, b);
  }

  // ---------- performing a run ----------

  /** A valid table and the model it stands for. */
  ghost predicate Stands(t: Table, m: Model)
    reads t
  {
    t.Valid() && t.order == m.order && t.key == m.key && t.Records() == m.phase
  }

  method PerformAdd(t: Table, item: Ref, k: Key, ghost m: Model)
    requires Stands(t, m) && Allowed(m, AddOp(item, k))
    modifies t
    ensures Stands(t, Apply(t.fcn, m, AddOp(item, k)))
  {
    forall x | x in t.order ensures t.key[x] != k {
      assert !HasKey(m.key, x, k);
    }
    t.Add(item, k);
  }

  method PerformDelete(t: Table, item: Ref, ghost m: Model)
    requires Stands(t, m) && Allowed(m, DeleteOp(item))
    modifies t
    ensures Stands(t, Apply(t.fcn, m, DeleteOp(item)))
  {
    DeleteKeeps(t.order, item);
    t.Delete(item);
  }

  method PerformReplace(t: Table, item: Ref, k: Key, ghost m: Model) returns (out: Ref)
    requires Stands(t, m) && Allowed(m, ReplaceOp(item, k))
    modifies t
    ensures out == LookUp(m, k)
    ensures Stands(t, Apply(t.fcn, m, ReplaceOp(item, k)))
  {
    KeyKeeps(t.order, t.key, t.hashv, t.fcn, k);
    NonNull(t.order, t.prev, t.next);
    out := t.Replace(item, k);
    assert t.order[..|t.order| - 1] == Kept(m.order, (x: Ref) => !HasKey(m.key, x, k));
  }

  method PerformFind(t: Table, k: Key, ghost m: Model) returns (out: Ref)
    requires Stands(t, m)
    ensures out == LookUp(m, k)
  {
    KeyKeeps(t.order, t.key, t.hashv, t.fcn, k);
    out := t.Find(k);
  }

  method PerformSort(t: Table, cmp: Order, ghost m: Model)
    requires Stands(t, m) && Allowed(m, SortOp(cmp))
    modifies t
    ensures Stands(t, Apply(t.fcn, m, SortOp(cmp)))
  {
    Sort(t, cmp, set x | x in t.order);
  }

  /** One operation, with what it returns, if anything. */
  method Perform(t: Table, op: Op, ghost m: Model) returns (out: seq<Ref>)
    requires Stands(t, m) && Allowed(m, op)
    modifies t
    ensures Stands(t, Apply(t.fcn, m, op))
    ensures Apply(t.fcn, m, op).results == m.results + out
  {
    out := [];
    match op
    case AddOp(item, k) => PerformAdd(t, item, k, m);
    case DeleteOp(item) => PerformDelete(t, item, m);
    case ReplaceOp(item, k) =>
      var r := PerformReplace(t, item, k, m);
      out := [r];
    case FindOp(k) =>
      var r := PerformFind(t, k, m);
      out := [r];
    case SortOp(cmp) => PerformSort(t, cmp, m);
  }

  /**
   * Every permitted run from an empty table returns and ends where the plain model does, bucket side included; `trace`
   * records the table after each operation, and is the model stage by stage.
   */
  method PerformAll(fcn: Key -> nat, ops: seq<Op>) returns (t: Table, results: seq<Ref>, ghost trace: seq<Model>)
    requires AllowedRun(fcn, ops)
    ensures t.Valid() && t.fcn == fcn
    ensures Model(t.order, t.key, results, t.Records()) == Outcome(fcn, ops)
    ensures trace == Stages(fcn, ops)
  {
    ghost var stages := Stages(fcn, ops);
    t := new Table(fcn);
    results := [];
    StagesFrom(fcn, ops);
    trace := [Model(t.order, t.key, results, t.Records())];
    var i := 0;
    while i < |ops|
      invariant 0 <= i <= |ops| && fresh(t) && t.fcn == fcn
      invariant Stands(t, stages[i]) && stages[i].results == results && trace == stages[..i + 1]
    {
      NextStage(fcn, ops, i);
      var out := Perform(t, ops[i], stages[i]);
      results := results + out;
      i := i + 1;
      trace := trace + [Model(t.order, t.key, results, t.Records())];
      OneMore(stages, i);
    }
    assert stages[..i + 1] == stages;
  }
}
