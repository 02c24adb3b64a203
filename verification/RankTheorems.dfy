/** The pivot count is the true rank: its extremes decide both kernels, and it is the least
    inner dimension of any factorisation. */
module RankTheorems {
  import opened Sums
  import opened Matrices
  import opened Elimination

  // ------------------------------------------------------------- pivots of a form

  lemma {:induction false} PivotAtLeast(pivots: seq<nat>, t: nat)
    requires t < |pivots| && forall s, u | 0 <= s < u < |pivots| :: pivots[s] < pivots[u]
    ensures t <= pivots[t]
  {
    if t == 0 {
    } else {
      PivotAtLeast(pivots, t - 1);
    }
  }

  lemma PivotsFit(m: Matrix, pivots: seq<nat>, col: nat)
    requires Reduced(m, pivots, col)
    ensures |pivots| <= col
  {
    if pivots != [] { PivotAtLeast(pivots, |pivots| - 1); }
  }

  /** Fewer pivots than columns leave some column without a pivot. */
  lemma {:induction false} FreeColumn(pivots: seq<nat>, cols: nat, from: nat) returns (f: nat)
    requires |pivots| < cols && from <= |pivots|
    requires forall s, u | 0 <= s < u < |pivots| :: pivots[s] < pivots[u]
    requires forall s | 0 <= s < from :: pivots[s] == s
    ensures f < cols && f !in pivots
    decreases |pivots| - from
  {
    if from == |pivots| {
      f := from;
    } else if pivots[from] == from {
      f := FreeColumn(pivots, cols, from + 1);
    } else {
      PivotAtLeast(pivots, from);
      f := from;
    }
  }

  lemma {:induction false} AllColumnsPivot(m: Matrix, pivots: seq<nat>, col: nat, t: nat)
    requires Reduced(m, pivots, col) && |pivots| == m.cols && t < m.cols
    ensures pivots[t] == t
    decreases m.cols - t
  {
    PivotAtLeast(pivots, t);
    if t + 1 < m.cols { AllColumnsPivot(m, pivots, col, t + 1); }
  }

  // -------------------------------------------------------- kernels of a reduced form

  lemma FullColumnRank(m: Matrix, pivots: seq<nat>, col: nat)
    requires Reduced(m, pivots, col) && |pivots| == m.cols
    ensures RightTrivial(m)
  {
    forall x: Matrix | InKernel(m, x)
      ensures x == Zero(m.cols, 1)
    {
      forall t | 0 <= t < m.cols ensures x.cells[t] == ZeroRow(1) {
        AllColumnsPivot(m, pivots, col, t);
        assert IsRow(m.cells[t], m.cols) && IsRow(x.cells[t], 1);
        forall j | 0 <= j < m.cols ensures m.cells[t][j] == if j == t then 1 else 0 {
          AllColumnsPivot(m, pivots, col, j);
          assert m.cells[t][pivots[j]] == if t == j then 1 else 0;
        }
        assert m.cells[t] == UnitRow(m.cols, t);
        DotUnit(m.cols, t, x.cells, 0);
        assert Mul(m, x).cells[t][0] == Zero(m.rows, 1).cells[t][0];
      }
      assert x.cells == Zero(m.cols, 1).cells;
    }
  }

  /** The kernel vector belonging to a free column f. */
  function FreeEntry(m: Matrix, pivots: seq<nat>, f: nat, j: nat): int
    requires f < m.cols && |pivots| <= m.rows
  {
    if j == f then 1 else if j in pivots then FreePivot(m, pivots, f, j) else 0
  }

  function IndexOf(pivots: seq<nat>, j: nat): (t: nat)
    requires j in pivots
    ensures t < |pivots| && pivots[t] == j
  {
    if pivots[0] == j then 0 else 1 + IndexOf(pivots[1..], j)
  }

  function FreePivot(m: Matrix, pivots: seq<nat>, f: nat, j: nat): int
    requires f < m.cols && |pivots| <= m.rows && j in pivots
  {
    var t := IndexOf(pivots, j);
    assert IsRow(m.cells[t], m.cols);
    (-m.cells[t][f]) % 251
  }

  function FreeVector(m: Matrix, pivots: seq<nat>, f: nat): Matrix
    requires f < m.cols && |pivots| <= m.rows
  {
    Mat(m.cols, 1, seq(m.cols, j requires 0 <= j < m.cols => [FreeEntry(m, pivots, f, j)]))
  }

  function FreeTerm(m: Matrix, pivots: seq<nat>, f: nat, t: nat, j: nat): int
    requires f < m.cols && |pivots| <= m.rows && t < m.rows && j < m.cols
  {
    assert IsRow(m.cells[t], m.cols);
    m.cells[t][j] * FreeEntry(m, pivots, f, j)
  }

  lemma OtherTermVanishes(m: Matrix, pivots: seq<nat>, col: nat, f: nat, t: nat, j: nat)
    requires Reduced(m, pivots, col) && f < m.cols && t < |pivots| && j < m.cols && j != f && j != pivots[t]
    ensures FreeTerm(m, pivots, f, t, j) == 0
  {
    if j in pivots {
      var s := IndexOf(pivots, j);
      assert s != t && m.cells[t][pivots[s]] == 0;
    }
    ZeroProduct(m.cells[t][j], FreeEntry(m, pivots, f, j));
  }

  lemma OwnTermsCancel(m: Matrix, pivots: seq<nat>, col: nat, f: nat, t: nat)
    requires Reduced(m, pivots, col) && f < m.cols && f !in pivots && t < |pivots|
    ensures (FreeTerm(m, pivots, f, t, f) + FreeTerm(m, pivots, f, t, pivots[t])) % 251 == 0
  {
    var p := pivots[t];
    assert p in pivots;
    var s := IndexOf(pivots, p);
    assert s == t && m.cells[t][p] == 1;
    Cancels(m.cells[t][f]);
  }

  lemma Cancels(v: int)
    ensures (v * 1 + 1 * ((-v) % 251)) % 251 == 0
  {
  }

  lemma FreeVectorRow(m: Matrix, pivots: seq<nat>, col: nat, f: nat, t: nat)
    requires Reduced(m, pivots, col) && f < m.cols && f !in pivots && t < |pivots|
    ensures Dot(m.cells[t], FreeVector(m, pivots, f).cells, 0) % 251 == 0
  {
    assert IsRow(m.cells[t], m.cols);
    var terms := Terms(m.cells[t], FreeVector(m, pivots, f).cells, 0);
    var p := pivots[t];
    assert |terms| == m.cols && forall j | 0 <= j < m.cols :: terms[j] == FreeTerm(m, pivots, f, t, j);
    forall j | 0 <= j < m.cols && j != f && j != p
      ensures terms[j] == 0
    {
      OtherTermVanishes(m, pivots, col, f, t, j);
    }
    SumPair(terms, f, p);
    OwnTermsCancel(m, pivots, col, f, t);
  }

  lemma ZeroProduct(x: int, y: int)
    requires x == 0 || y == 0
    ensures x * y == 0
  {
  }

  lemma DeficientColumnRank(m: Matrix, pivots: seq<nat>, col: nat)
    requires Reduced(m, pivots, col) && |pivots| < m.cols
    requires col == m.cols || |pivots| == m.rows
    ensures !RightTrivial(m)
  {
    var f := FreeColumn(pivots, m.cols, 0);
    var x: Matrix := FreeVector(m, pivots, f);
    forall i | 0 <= i < m.rows ensures Mul(m, x).cells[i] == ZeroRow(1) {
      if i < |pivots| {
        FreeVectorRow(m, pivots, col, f, i);
      } else {
        assert IsRow(m.cells[i], m.cols);
        forall j | 0 <= j < m.cols ensures Terms(m.cells[i], x.cells, 0)[j] == 0 {
          assert m.cells[i][j] == 0;
          ZeroProduct(m.cells[i][j], At(x.cells, j, 0));
        }
        SumZero(Terms(m.cells[i], x.cells, 0));
      }
    }
    assert Mul(m, x).cells == Zero(m.rows, 1).cells;
    assert InKernel(m, x);
    assert x.cells[f][0] != Zero(m.cols, 1).cells[f][0];
  }

  lemma FullRowRank(m: Matrix, pivots: seq<nat>, col: nat)
    requires Reduced(m, pivots, col) && |pivots| == m.rows
    ensures LeftTrivial(m)
  {
    forall y: Matrix | InLeftKernel(m, y)
      ensures y == Zero(1, m.rows)
    {
      assert IsRow(y.cells[0], m.rows);
      forall t | 0 <= t < m.rows ensures y.cells[0][t] == 0 {
        var p := pivots[t];
        var terms := Terms(y.cells[0], m.cells, p);
        forall i | 0 <= i < m.rows ensures terms[i] == if i == t then y.cells[0][i] else 0 {
          assert IsRow(m.cells[i], m.cols);
          assert m.cells[i][pivots[t]] == if i == t then 1 else 0;
        }
        SumSingle(terms, t);
        assert Mul(y, m).cells[0][p] == Zero(1, m.cols).cells[0][p];
      }
      assert y.cells[0] == ZeroRow(m.rows);
      assert y.cells == Zero(1, m.rows).cells;
    }
  }

  lemma DeficientRowRank(m: Matrix, pivots: seq<nat>)
    requires Reduced(m, pivots, m.cols) && |pivots| < m.rows
    ensures !LeftTrivial(m)
  {
    var last := m.rows - 1;
    var y: Matrix := Mat(1, m.rows, [UnitRow(m.rows, last)]);
    RowTimesUnit(last, m);
    assert IsRow(m.cells[last], m.cols);
    assert m.cells[last] == ZeroRow(m.cols);
    assert Mul(y, m).cells == Zero(1, m.cols).cells;
    assert InLeftKernel(m, y);
    assert y.cells[0][last] != Zero(1, m.rows).cells[0][last];
  }

  // ------------------------------------------------------------------ main results

  lemma RankBounds(m: Matrix)
    ensures Rank(m) <= m.rows && Rank(m) <= m.cols
  {
    var form, all, limit := ReducedForm(m, [], 0);
    PivotsFit(form, all, limit);
  }

  lemma EquivalentRightTrivial(m: Matrix, n: Matrix)
    requires RowEquivalent(m, n)
    ensures RightTrivial(m) <==> RightTrivial(n)
  {
    forall x: Matrix ensures InKernel(m, x) <==> InKernel(n, x) {
      EquivalentKernel(m, n, x);
    }
  }

  /** The pivot count reaches the column count exactly when only x = 0 has m·x = 0. */
  lemma RankIsColumnsIff(m: Matrix)
    ensures Rank(m) == m.cols <==> RightTrivial(m)
  {
    var form, all, limit := ReducedForm(m, [], 0);
    EquivalentRightTrivial(m, form);
    PivotsFit(form, all, limit);
    if |all| == m.cols {
      FullColumnRank(form, all, limit);
    } else {
      DeficientColumnRank(form, all, limit);
    }
  }

  /** The pivot count reaches the row count exactly when only y = 0 has y·m = 0. */
  lemma RankIsRowsIff(m: Matrix)
    ensures Rank(m) == m.rows <==> LeftTrivial(m)
  {
    var form, all, limit := ReducedForm(m, [], 0);
    if |all| == m.rows {
      FullRowRank(form, all, limit);
      EquivalentLeftTrivial(m, form);
    } else {
      DeficientRowRank(form, all);
      Symmetric(m, form);
      if LeftTrivial(m) {
        EquivalentLeftTrivial(form, m);
      }
    }
  }

  // ------------------------------------------------------------------ factorisations

  function PickColumns(m: Matrix, columns: seq<nat>): Matrix
    requires forall t | 0 <= t < |columns| :: columns[t] < m.cols
  {
    Mat(m.rows, |columns|, seq(m.rows, i requires 0 <= i < m.rows => PickRow(m.cells[i], m.cols, columns)))
  }

  function PickRow(row: seq<int>, n: nat, columns: seq<nat>): (r: seq<int>)
    requires IsRow(row, n) && forall t | 0 <= t < |columns| :: columns[t] < n
    ensures IsRow(r, |columns|)
  {
    seq(|columns|, t requires 0 <= t < |columns| => row[columns[t]])
  }

  lemma PickProduct(a: Matrix, b: Matrix, columns: seq<nat>)
    requires a.cols == b.rows && forall t | 0 <= t < |columns| :: columns[t] < b.cols
    ensures PickColumns(Mul(a, b), columns) == Mul(a, PickColumns(b, columns))
  {
    forall i | 0 <= i < a.rows
      ensures PickColumns(Mul(a, b), columns).cells[i] == Mul(a, PickColumns(b, columns)).cells[i]
    {
      assert IsRow(a.cells[i], a.cols);
      forall t | 0 <= t < |columns|
        ensures Terms(a.cells[i], PickColumns(b, columns).cells, t) == Terms(a.cells[i], b.cells, columns[t])
      {
        forall k | 0 <= k < a.cols
          ensures At(PickColumns(b, columns).cells, k, t) == At(b.cells, k, columns[t])
        {
          assert IsRow(b.cells[k], b.cols);
        }
      }
    }
  }

  /** Rows that are zero in the right factor contribute nothing. */
  lemma DropZeroRows(q: Matrix, form: Matrix, k: nat)
    requires q.cols == form.rows && k <= form.rows
    requires forall i | k <= i < form.rows :: form.cells[i] == ZeroRow(form.cols)
    ensures Mul(q, form) == Mul(LeftColumns(q, k), TopRows(form, k))
  {
    var l, top := LeftColumns(q, k), TopRows(form, k);
    forall i | 0 <= i < q.rows
      ensures Mul(q, form).cells[i] == Mul(l, top).cells[i]
    {
      assert IsRow(q.cells[i], q.cols);
      forall j | 0 <= j < form.cols
        ensures Dot(q.cells[i], form.cells, j) == Dot(l.cells[i], top.cells, j)
      {
        var terms := Terms(q.cells[i], form.cells, j);
        assert terms[..k] == Terms(l.cells[i], top.cells, j);
        forall t | k <= t < |terms| ensures terms[t] == 0 {
          assert At(form.cells, t, j) == 0;
          ZeroProduct(q.cells[i][t], At(form.cells, t, j));
        }
        SumZero(terms[k..]);
        SumConcat(terms[..k], terms[k..]);
        assert terms == terms[..k] + terms[k..];
      }
    }
  }

  ghost predicate Factors(m: Matrix, l: Matrix, r: Matrix) {
    l.cols == r.rows && l.rows == m.rows && r.cols == m.cols && Mul(l, r) == m
  }

  /** The matrix factors through `Rank(m)` dimensions. */
  lemma RankFactorises(m: Matrix) returns (l: Matrix, r: Matrix)
    ensures l.cols == Rank(m) && Factors(m, l, r)
  {
    var form, all, limit := ReducedForm(m, [], 0);
    var t: Matrix, q: Matrix :| Transforms(t, q, m, form);
    forall i | |all| <= i < form.rows ensures form.cells[i] == ZeroRow(form.cols) {
      assert IsRow(form.cells[i], form.cols);
    }
    DropZeroRows(q, form, |all|);
    l, r := LeftColumns(q, |all|), TopRows(form, |all|);
  }

  lemma WideHasKernel(m: Matrix)
    requires m.rows < m.cols
    ensures exists x: Matrix :: InKernel(m, x) && x != Zero(m.cols, 1)
  {
    RankBounds(m);
    RankIsColumnsIff(m);
  }

  /** No factorisation goes through fewer dimensions. */
  lemma RankIsLeast(m: Matrix, l: Matrix, r: Matrix)
    requires Factors(m, l, r)
    ensures Rank(m) <= l.cols
  {
    var form, all, limit := ReducedForm(m, [], 0);
    if l.cols < |all| {
      var t: Matrix, q: Matrix :| Transforms(t, q, m, form);
      var a := Mul(t, l);
      MulAssoc(t, l, r);
      PickProduct(a, r, all);
      var narrow := PickColumns(r, all);
      WideHasKernel(narrow);
      var x: Matrix :| InKernel(narrow, x) && x != Zero(|all|, 1);
      ProductKernel(a, narrow, x);
      PickedIsTrivial(form, all, limit);
      assert false;
    }
  }

  lemma PickedIsTrivial(form: Matrix, all: seq<nat>, limit: nat)
    requires Reduced(form, all, limit)
    ensures RightTrivial(PickColumns(form, all))
  {
    var p := PickColumns(form, all);
    var own := seq(|all|, t => t);
    forall t, i | 0 <= t < |own| && 0 <= i < p.rows
      ensures p.cells[i][own[t]] == if i == t then 1 else 0
    {
      assert form.cells[i][all[t]] == if i == t then 1 else 0;
    }
    forall i, j | |own| <= i < p.rows && 0 <= j < |all|
      ensures p.cells[i][j] == 0
    {
      assert form.cells[i][all[j]] == 0;
    }
    assert Reduced(p, own, |all|);
    FullColumnRank(p, own, |all|);
  }

  /** A full-rank left factor hides nothing: E = E_L·E_R has the kernel of E_R. */
  lemma NoiseKernel(el: Matrix, er: Matrix, x: Matrix)
    requires el.cols == er.rows && Rank(el) == el.cols
    ensures InKernel(Mul(el, er), x) <==> InKernel(er, x)
  {
    RankIsColumnsIff(el);
    if InKernel(er, x) {
      ProductKernel(el, er, x);
    }
    if InKernel(Mul(el, er), x) {
      MulAssoc(el, er, x);
      assert InKernel(el, Mul(er, x));
    }
  }

  lemma ProductRankAtMost(a: Matrix, b: Matrix)
    requires a.cols == b.rows
    ensures Rank(Mul(a, b)) <= Rank(b)
  {
    var l, r := RankFactorises(b);
    MulAssoc(a, l, r);
    RankIsLeast(Mul(a, b), Mul(a, l), r);
  }

  /** Some rank-many columns of a matrix are independent. */
  lemma IndependentColumns(m: Matrix) returns (columns: seq<nat>)
    ensures |columns| == Rank(m) && forall t | 0 <= t < |columns| :: columns[t] < m.cols
    ensures RightTrivial(PickColumns(m, columns))
  {
    var form, all, limit := ReducedForm(m, [], 0);
    columns := all;
    var t: Matrix, q: Matrix :| Transforms(t, q, m, form);
    PickProduct(t, m, all);
    PickedIsTrivial(form, all, limit);
    forall x: Matrix | InKernel(PickColumns(m, all), x) ensures x == Zero(|all|, 1) {
      ProductKernel(t, PickColumns(m, all), x);
    }
  }

  /** A left factor of full column rank keeps the rank of the right factor. */
  lemma FullLeftFactorKeepsRank(el: Matrix, er: Matrix)
    requires el.cols == er.rows && Rank(el) == el.cols
    ensures Rank(Mul(el, er)) == Rank(er)
  {
    ProductRankAtMost(el, er);
    var columns := IndependentColumns(er);
    var narrow := PickColumns(er, columns);
    PickProduct(el, er, columns);
    forall x: Matrix | InKernel(Mul(el, narrow), x) ensures x == Zero(|columns|, 1) {
      NoiseKernel(el, narrow, x);
    }
    RankIsColumnsIff(Mul(el, narrow));
    var l, r := RankFactorises(Mul(el, er));
    PickProduct(l, r, columns);
    RankIsLeast(Mul(el, narrow), l, PickColumns(r, columns));
  }
}
