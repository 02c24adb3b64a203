/** Finite sums of integer sequences. */
module Sums {
  import opened NumberTheory

  function Sum(s: seq<int>): int {
    if s == [] then 0 else Sum(s[..|s| - 1]) + s[|s| - 1]
  }

  lemma {:induction false} SumConcat(s: seq<int>, t: seq<int>)
    ensures Sum(s + t) == Sum(s) + Sum(t)
  {
    if t == [] {
      assert s + t == s;
    } else {
      assert (s + t)[..|s + t| - 1] == s + t[..|t| - 1];
      SumConcat(s, t[..|t| - 1]);
    }
  }

  lemma SumSnoc(s: seq<int>, x: int)
    ensures Sum(s + [x]) == Sum(s) + x
  {
  }

  lemma {:induction false} SumAdd(s: seq<int>, t: seq<int>, u: seq<int>)
    requires |s| == |t| == |u| && forall k | 0 <= k < |s| :: u[k] == s[k] + t[k]
    ensures Sum(u) == Sum(s) + Sum(t)
  {
    if s == [] {
    } else {
      var n := |s| - 1;
      SumAdd(s[..n], t[..n], u[..n]);
    }
  }

  lemma {:induction false} SumScale(s: seq<int>, c: int, u: seq<int>)
    requires |s| == |u| && forall k | 0 <= k < |s| :: u[k] == c * s[k]
    ensures Sum(u) == c * Sum(s)
  {
    if s == [] {
    } else {
      var n := |s| - 1;
      SumScale(s[..n], c, u[..n]);
      assert c * (Sum(s[..n]) + s[n]) == c * Sum(s[..n]) + c * s[n];
    }
  }

  /** Replacing each term by a congruent one keeps the sum's residue. */
  lemma {:induction false} SumCongruent(s: seq<int>, t: seq<int>, m: int)
    requires m > 0 && |s| == |t| && forall k | 0 <= k < |s| :: s[k] % m == t[k] % m
    ensures Sum(s) % m == Sum(t) % m
  {
    if s == [] {
    } else {
      var n := |s| - 1;
      SumCongruent(s[..n], t[..n], m);
      ModAdd(Sum(s[..n]), s[n], m);
      ModAdd(Sum(t[..n]), t[n], m);
      ModAdd(s[n], Sum(t[..n]) % m, m);
      ModAdd(t[n], Sum(t[..n]) % m, m);
    }
  }

  lemma {:induction false} SumZero(s: seq<int>)
    requires forall k | 0 <= k < |s| :: s[k] == 0
    ensures Sum(s) == 0
  {
    if s == [] {
    } else {
      SumZero(s[..|s| - 1]);
    }
  }

  lemma {:induction false} SumSingle(s: seq<int>, a: nat)
    requires a < |s| && forall k | 0 <= k < |s| && k != a :: s[k] == 0
    ensures Sum(s) == s[a]
  {
    var n := |s| - 1;
    if a == n {
      SumZero(s[..n]);
    } else {
      SumSingle(s[..n], a);
    }
  }

  lemma {:induction false} SumPair(s: seq<int>, a: nat, b: nat)
    requires a < |s| && b < |s| && a != b
    requires forall k | 0 <= k < |s| && k != a && k != b :: s[k] == 0
    ensures Sum(s) == s[a] + s[b]
  {
    var n := |s| - 1;
    if a == n {
      SumSingle(s[..n], b);
    } else if b == n {
      SumSingle(s[..n], a);
    } else {
      SumPair(s[..n], a, b);
    }
  }

  /** Entry (i, j) of a table, read as zero outside it. */
  function At(table: seq<seq<int>>, i: int, j: int): int {
    if 0 <= i < |table| && 0 <= j < |table[i]| then table[i][j] else 0
  }

  function Column(table: seq<seq<int>>, j: int): seq<int> {
    seq(|table|, i => At(table, i, j))
  }

  /** Row sums and column sums of a table of integers have the same total. */
  lemma {:induction false} SumExchange(table: seq<seq<int>>, rowSums: seq<int>, columnSums: seq<int>)
    requires |rowSums| == |table|
    requires forall i | 0 <= i < |table| :: |table[i]| == |columnSums| && rowSums[i] == Sum(table[i])
    requires forall j | 0 <= j < |columnSums| :: columnSums[j] == Sum(Column(table, j))
    ensures Sum(rowSums) == Sum(columnSums)
  {
    if table == [] {
      SumZero(columnSums);
    } else {
      var n := |table| - 1;
      var top := table[..n];
      var partial := seq(|columnSums|, j => Sum(Column(top, j)));
      SumExchange(top, rowSums[..n], partial);
      forall j | 0 <= j < |columnSums| ensures columnSums[j] == partial[j] + table[n][j] {
        assert Column(table, j)[..n] == Column(top, j);
      }
      SumAdd(partial, table[n], columnSums);
    }
  }
}
