/** Doubly linked lists of handles, as sequences threaded through a pair of link fields. */
module UthashList {
  /** A handle's address. */
  type Ref = nat

  const NULL: Ref := 0

  /** One link field of every handle. */
  type Links = map<Ref, Ref>

  function First(s: seq<Ref>): Ref { if s == [] then NULL else s[0] }

  function Last(s: seq<Ref>): Ref { if s == [] then NULL else s[|s| - 1] }

  function Before(s: seq<Ref>, i: nat): Ref
    requires i < |s|
  {
    if i == 0 then NULL else s[i - 1]
  }

  function After(s: seq<Ref>, i: nat): Ref
    requires i < |s|
  {
    if i + 1 < |s| then s[i + 1] else NULL
  }

  ghost predicate Distinct<T>(s: seq<T>) {
    forall i, j :: 0 <= i < j < |s| ==> s[i] != s[j]
  }

  ghost predicate Linked(s: seq<Ref>, i: nat, prev: Links, next: Links)
    requires i < |s|
  {
    && s[i] != NULL
    && s[i] in prev && prev[s[i]] == Before(s, i)
    && s[i] in next && next[s[i]] == After(s, i)
  }

  /** The links of the handles of `s` are those of a list that holds exactly `s`. */
  ghost predicate Threaded(s: seq<Ref>, prev: Links, next: Links) {
    forall i :: 0 <= i < |s| ==> Linked(s, i, prev, next)
  }

  lemma Untouched(s: seq<Ref>, prev: Links, next: Links, prev': Links, next': Links)
    requires Threaded(s, prev, next)
    requires forall x :: x in s && x in prev ==> x in prev' && prev'[x] == prev[x]
    requires forall x :: x in s && x in next ==> x in next' && next'[x] == next[x]
    ensures Threaded(s, prev', next')
  {
    forall i | 0 <= i < |s| ensures Linked(s, i, prev', next') {
      assert Linked(s, i, prev, next);
      assert s[i] in s;
    }
  }

  /** `x` joins at the end. */
  lemma Appended(s: seq<Ref>, x: Ref, prev: Links, next: Links, prev': Links, next': Links)
    requires Threaded(s, prev, next) && Distinct(s) && x !in s && x != NULL
    requires prev' == prev[x := Last(s)]
    requires next' == if s == [] then next[x := NULL] else next[x := NULL][Last(s) := x]
    ensures Threaded(s + [x], prev', next') && Distinct(s + [x])
  {
    var t := s + [x];
    forall i | 0 <= i < |t| ensures Linked(t, i, prev', next') {
      if i < |s| {
        assert Linked(s, i, prev, next);
        assert s[i] in s;
      }
    }
  }

  /** `x` joins at the front. */
  lemma Pushed(s: seq<Ref>, x: Ref, prev: Links, next: Links, prev': Links, next': Links)
    requires Threaded(s, prev, next) && Distinct(s) && x !in s && x != NULL
    requires next' == next[x := First(s)]
    requires prev' == if s == [] then prev[x := NULL] else prev[x := NULL][First(s) := x]
    ensures Threaded([x] + s, prev', next') && Distinct([x] + s)
  {
    var t := [x] + s;
    forall i | 0 <= i < |t| ensures Linked(t, i, prev', next') {
      if 0 < i {
        assert Linked(s, i - 1, prev, next);
        assert t[i] == s[i - 1] && s[i - 1] in s;
      }
    }
  }

  function Without(s: seq<Ref>, k: nat): seq<Ref>
    requires k < |s|
  {
    s[..k] + s[k + 1..]
  }

  /** The neighbours of the handle at `k` are joined to each other. */
  lemma Unlinked(s: seq<Ref>, k: nat, prev: Links, next: Links, prev': Links, next': Links)
    requires Threaded(s, prev, next) && Distinct(s) && k < |s|
    requires next' == if k == 0 then next else next[s[k - 1] := After(s, k)]
    requires prev' == if k + 1 == |s| then prev else prev[s[k + 1] := Before(s, k)]
    ensures Threaded(Without(s, k), prev', next') && Distinct(Without(s, k))
    ensures forall x :: x in Without(s, k) <==> x in s && x != s[k]
  {
    var t := Without(s, k);
    forall i | 0 <= i < |t| ensures Linked(t, i, prev', next') {
      var j := if i < k then i else i + 1;
      assert Linked(s, j, prev, next);
      assert t[i] == s[j];
    }
    Members(s, k);
  }

  lemma Members(s: seq<Ref>, k: nat)
    requires Distinct(s) && k < |s|
    ensures forall x :: x in Without(s, k) <==> x in s && x != s[k]
  {
    forall x | x in s && x != s[k] ensures x in Without(s, k) {
      var i :| 0 <= i < |s| && s[i] == x;
      assert Without(s, k)[if i < k then i else i - 1] == x;
    }
  }

  ghost function IndexOf(s: seq<Ref>, x: Ref): (k: nat)
    requires x in s
    ensures k < |s| && s[k] == x
  {
    var i :| 0 <= i < |s| && s[i] == x;
    i
  }

  lemma OnlyOne(s: seq<Ref>, x: Ref)
    requires x in s
    ensures Without(s, IndexOf(s, x)) == [] <==> s == [x]
  {
  }
}
