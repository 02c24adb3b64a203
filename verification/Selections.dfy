/** What a filter keeps, and in which order. */
module Selections {

  /** In ascending order, exactly the positions whose elements satisfy `keep`. */
  ghost predicate Picks<T>(xs: seq<T>, keep: T -> bool, picks: seq<nat>) {
    && (forall i, j | 0 <= i < j < |picks| :: picks[i] < picks[j])
    && forall k: nat :: k in picks <==> k < |xs| && keep(xs[k])
  }

  /** These elements, in order, are the kept ones, each as often as it occurs. */
  ghost predicate Kept<T>(xs: seq<T>, keep: T -> bool, r: seq<T>) {
    exists picks: seq<nat> :: KeptAt(xs, keep, r, picks)
  }

  ghost predicate KeptAt<T>(xs: seq<T>, keep: T -> bool, r: seq<T>, picks: seq<nat>) {
    && Picks(xs, keep, picks) && |r| == |picks|
    && forall i | 0 <= i < |picks| :: picks[i] < |xs| && r[i] == xs[picks[i]]
  }

  lemma KeptNone<T>(keep: T -> bool)
    ensures Kept([], keep, [])
  {
    assert KeptAt([], keep, [], []);
  }

  /** The next position is kept or not. */
  lemma PicksNext<T>(xs: seq<T>, x: T, keep: T -> bool, picks: seq<nat>)
    requires Picks(xs, keep, picks)
    ensures Picks(xs + [x], keep, picks + if keep(x) then [|xs|] else [])
  {
    var q := picks + if keep(x) then [|xs|] else [];
    forall i, j | 0 <= i < j < |q| ensures q[i] < q[j] {
      assert picks[i] in picks;
    }
  }

  lemma KeptNext<T>(xs: seq<T>, x: T, keep: T -> bool, r: seq<T>)
    requires Kept(xs, keep, r)
    ensures Kept(xs + [x], keep, r + if keep(x) then [x] else [])
  {
    var p: seq<nat> :| KeptAt(xs, keep, r, p);
    PicksNext(xs, x, keep, p);
    assert KeptAt(xs + [x], keep, r + if keep(x) then [x] else [], p + if keep(x) then [|xs|] else []);
  }

  // ---------------------------------------------------------------------- uniqueness

  lemma SomePick<T>(xs: seq<T>, keep: T -> bool, picks: seq<nat>)
    requires Picks(xs, keep, picks) && picks != []
    ensures xs != []
  {
    assert picks[0] in picks;
  }

  lemma LastPick<T>(xs: seq<T>, keep: T -> bool, picks: seq<nat>)
    requires Picks(xs, keep, picks) && xs != [] && keep(xs[|xs| - 1])
    ensures |picks| > 0 && picks[|picks| - 1] == |xs| - 1
  {
    var last := |xs| - 1;
    assert last in picks;
    var k :| 0 <= k < |picks| && picks[k] == last;
    var n := |picks| - 1;
    assert picks[n] in picks;
    assert k == n;
  }

  /** The list without the last position there could be. */
  ghost function Earlier<T>(xs: seq<T>, keep: T -> bool, picks: seq<nat>): (q: seq<nat>)
    requires Picks(xs, keep, picks) && xs != []
    ensures picks == q + if keep(xs[|xs| - 1]) then [|xs| - 1] else []
  {
    if keep(xs[|xs| - 1]) then
      LastPick(xs, keep, picks);
      picks[..|picks| - 1]
    else picks
  }

  lemma EarlierPicks<T>(xs: seq<T>, keep: T -> bool, picks: seq<nat>)
    requires Picks(xs, keep, picks) && xs != []
    ensures Picks(xs[..|xs| - 1], keep, Earlier(xs, keep, picks))
  {
    var q, last := Earlier(xs, keep, picks), |xs| - 1;
    forall k: nat ensures k in q <==> k < last && keep(xs[k]) {
      if k in q {
        var j :| 0 <= j < |q| && q[j] == k;
        assert picks[j] in picks;
        if keep(xs[last]) { assert picks[j] < picks[|q|]; }
      }
      if k < last && keep(xs[k]) {
        assert k in picks;
        var j :| 0 <= j < |picks| && picks[j] == k;
        assert q[j] == k;
      }
    }
  }

  /** There is one such list of positions. */
  lemma {:induction false} PicksUnique<T>(xs: seq<T>, keep: T -> bool, p: seq<nat>, q: seq<nat>)
    requires Picks(xs, keep, p) && Picks(xs, keep, q)
    ensures p == q
    decreases |xs|
  {
    if xs == [] {
      if p != [] { SomePick(xs, keep, p); }
      if q != [] { SomePick(xs, keep, q); }
    } else {
      EarlierPicks(xs, keep, p);
      EarlierPicks(xs, keep, q);
      PicksUnique(xs[..|xs| - 1], keep, Earlier(xs, keep, p), Earlier(xs, keep, q));
    }
  }

  lemma KeptUnique<T>(xs: seq<T>, keep: T -> bool, r: seq<T>, s: seq<T>)
    requires Kept(xs, keep, r) && Kept(xs, keep, s)
    ensures r == s
  {
    var p: seq<nat> :| KeptAt(xs, keep, r, p);
    var q: seq<nat> :| KeptAt(xs, keep, s, q);
    PicksUnique(xs, keep, p, q);
  }
}
