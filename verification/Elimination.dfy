/** Gauss-Jordan elimination over F251 as a function, and what its pivot count means. */
module Elimination {
  import opened NumberTheory
  import opened Matrices
  import opened Field251

  // ------------------------------------------------------------ elementary steps

  datatype RowOp =
    | Swap(i: nat, k: nat)
    | Scale(i: nat, c: int)
    | AddMultiple(i: nat, r: nat, c: int)

  predicate Applicable(op: RowOp, rows: nat) {
    match op
    case Swap(i, k) => i < rows && k < rows
    case Scale(i, c) => i < rows && c % 251 != 0
    case AddMultiple(i, r, _) => i < rows && r < rows && i != r
  }

  function Apply(op: RowOp, m: Matrix): Matrix
    requires Applicable(op, m.rows)
  {
    match op
    case Swap(i, k) => Mat(m.rows, m.cols, m.cells[i := m.cells[k]][k := m.cells[i]])
    case Scale(i, c) => assert IsRow(m.cells[i], m.cols); Mat(m.rows, m.cols, m.cells[i := RowScale(c, m.cells[i])])
    case AddMultiple(i, r, c) =>
      assert IsRow(m.cells[i], m.cols) && IsRow(m.cells[r], m.cols);
      Mat(m.rows, m.cols, m.cells[i := RowAdd(m.cells[i], RowScale(c, m.cells[r]))])
  }

  function Undo(op: RowOp): RowOp {
    match op
    case Swap(i, k) => Swap(i, k)
    case Scale(i, c) => Scale(i, Inverse(c))
    case AddMultiple(i, r, c) => AddMultiple(i, r, -c)
  }

  lemma UndoApply(op: RowOp, m: Matrix)
    requires Applicable(op, m.rows)
    ensures Applicable(Undo(op), m.rows) && Apply(Undo(op), Apply(op, m)) == m
  {
    match op
    case Swap(i, k) =>
      assert Apply(Undo(op), Apply(op, m)).cells == m.cells;
    case Scale(i, c) =>
      InverseIsInverse(c);
      assert Inverse(c) * c == c * Inverse(c);
      ScaleCancel(Inverse(c), c, m.cells[i], m.cols);
      assert Apply(Undo(op), Apply(op, m)).cells == m.cells;
    case AddMultiple(i, r, c) =>
      var row, src := m.cells[i], m.cells[r];
      assert IsRow(row, m.cols) && IsRow(src, m.cols);
      forall j | 0 <= j < m.cols
        ensures RowAdd(RowAdd(row, RowScale(c, src)), RowScale(-c, src))[j] == row[j]
      {
        AddBack(row[j], c, src[j]);
      }
      assert RowAdd(RowAdd(row, RowScale(c, src)), RowScale(-c, src)) == row;
      assert Apply(Undo(op), Apply(op, m)).cells == m.cells;
  }

  lemma ScaleBack(d: int, c: int, v: int)
    requires (d * c) % 251 == 1 && 0 <= v < 251
    ensures (d * ((c * v) % 251)) % 251 == v
  {
    ModMul(c * v, d, 251);
    assert (c * v) * d == (d * c) * v && ((c * v) % 251) * d == d * ((c * v) % 251);
    ModMul(d * c, v, 251);
  }

  lemma ScaleCancel(d: int, c: int, row: seq<int>, n: nat)
    requires (d * c) % 251 == 1 && IsRow(row, n)
    ensures RowScale(d, RowScale(c, row)) == row
  {
    forall j | 0 <= j < n
      ensures RowScale(d, RowScale(c, row))[j] == row[j]
    {
      ScaleBack(d, c, row[j]);
    }
  }

  lemma AddBack(v: int, c: int, s: int)
    requires 0 <= v < 251
    ensures ((v + (c * s) % 251) % 251 + (-c * s) % 251) % 251 == v
  {
  }

  /** Row operations act on the left, so they pass through a product. */
  lemma ApplyMul(op: RowOp, a: Matrix, b: Matrix)
    requires Applicable(op, a.rows) && a.cols == b.rows
    ensures Mul(Apply(op, a), b) == Apply(op, Mul(a, b))
  {
    match op
    case Swap(i, k) =>
      assert Mul(Apply(op, a), b).cells == Apply(op, Mul(a, b)).cells;
    case Scale(i, c) =>
      assert IsRow(a.cells[i], a.cols);
      RowTimesScale(c, a.cells[i], b);
      assert Mul(Apply(op, a), b).cells == Apply(op, Mul(a, b)).cells;
    case AddMultiple(i, r, c) =>
      assert IsRow(a.cells[i], a.cols) && IsRow(a.cells[r], a.cols);
      RowTimesScale(c, a.cells[r], b);
      RowTimesAdd(a.cells[i], RowScale(c, a.cells[r]), b);
      assert Mul(Apply(op, a), b).cells == Apply(op, Mul(a, b)).cells;
  }

  // ------------------------------------------------------------ row equivalence

  /** t carries m to n and q carries n back; t and q are inverse to each other. */
  ghost predicate Transforms(t: Matrix, q: Matrix, m: Matrix, n: Matrix) {
    && t.rows == t.cols == q.rows == q.cols == m.rows == n.rows && m.cols == n.cols
    && Mul(t, q) == Identity(m.rows) && Mul(q, t) == Identity(m.rows)
    && Mul(t, m) == n && Mul(q, n) == m
  }

  ghost predicate RowEquivalent(m: Matrix, n: Matrix) {
    exists t: Matrix, q: Matrix :: Transforms(t, q, m, n)
  }

  lemma Reflexive(m: Matrix)
    ensures RowEquivalent(m, m)
  {
    IdentityTimes(m);
    IdentityTimes(Identity(m.rows));
    assert Transforms(Identity(m.rows), Identity(m.rows), m, m);
  }

  lemma InversesCompose(t1: Matrix, q1: Matrix, t2: Matrix, q2: Matrix, n: nat)
    requires t1.rows == t1.cols == q1.rows == q1.cols == n
    requires t2.rows == t2.cols == q2.rows == q2.cols == n
    requires Mul(t1, q1) == Identity(n) && Mul(t2, q2) == Identity(n)
    ensures Mul(Mul(t2, t1), Mul(q1, q2)) == Identity(n)
  {
    MulAssoc(t2, t1, Mul(q1, q2));
    MulAssoc(t1, q1, q2);
    IdentityTimes(q2);
  }

  lemma Transitive(m: Matrix, n: Matrix, k: Matrix)
    requires RowEquivalent(m, n) && RowEquivalent(n, k)
    ensures RowEquivalent(m, k)
  {
    var t1: Matrix, q1: Matrix :| Transforms(t1, q1, m, n);
    var t2: Matrix, q2: Matrix :| Transforms(t2, q2, n, k);
    InversesCompose(t1, q1, t2, q2, m.rows);
    InversesCompose(q2, t2, q1, t1, m.rows);
    MulAssoc(t2, t1, m);
    MulAssoc(q1, q2, k);
    assert Transforms(Mul(t2, t1), Mul(q1, q2), m, k);
  }

  lemma StepEquivalent(op: RowOp, m: Matrix)
    requires Applicable(op, m.rows)
    ensures RowEquivalent(m, Apply(op, m))
  {
    var one, back := Identity(m.rows), Undo(op);
    UndoApply(op, m);
    UndoApply(op, one);
    var t, q := Apply(op, one), Apply(back, one);
    IdentityTimes(m);
    IdentityTimes(Apply(op, m));
    ApplyMul(op, one, m);
    ApplyMul(back, one, Apply(op, m));
    IdentityTimes(q);
    IdentityTimes(t);
    ApplyMul(op, one, q);
    ApplyMul(back, one, t);
    UndoTwice(op, one);
    assert Transforms(t, q, m, Apply(op, m));
  }

  lemma UndoTwice(op: RowOp, m: Matrix)
    requires Applicable(op, m.rows) && Applicable(Undo(op), m.rows)
    ensures Apply(op, Apply(Undo(op), m)) == m
  {
    match op
    case Swap(i, k) => UndoApply(op, m);
    case Scale(i, c) =>
      InverseIsInverse(c);
      ScaleCancel(c, Inverse(c), m.cells[i], m.cols);
      assert Apply(op, Apply(Undo(op), m)).cells == m.cells;
    case AddMultiple(i, r, c) =>
      UndoApply(Undo(op), m);
      assert Undo(Undo(op)) == op;
  }

  // --------------------------------------------------------------------- kernels

  ghost predicate InKernel(m: Matrix, x: Matrix) {
    x.rows == m.cols && x.cols == 1 && Mul(m, x) == Zero(m.rows, 1)
  }

  ghost predicate InLeftKernel(m: Matrix, y: Matrix) {
    y.rows == 1 && y.cols == m.rows && Mul(y, m) == Zero(1, m.cols)
  }

  /** Only x = 0 has m·x = 0: the columns are independent. */
  ghost predicate RightTrivial(m: Matrix) {
    forall x: Matrix :: InKernel(m, x) ==> x == Zero(m.cols, 1)
  }

  /** Only y = 0 has y·m = 0: the rows are independent. */
  ghost predicate LeftTrivial(m: Matrix) {
    forall y: Matrix :: InLeftKernel(m, y) ==> y == Zero(1, m.rows)
  }

  lemma ProductKernel(l: Matrix, r: Matrix, x: Matrix)
    requires l.cols == r.rows && InKernel(r, x)
    ensures InKernel(Mul(l, r), x)
  {
    MulAssoc(l, r, x);
    TimesZero(l, 1);
  }

  lemma EquivalentKernel(m: Matrix, n: Matrix, x: Matrix)
    requires RowEquivalent(m, n)
    ensures InKernel(m, x) <==> InKernel(n, x)
  {
    var t: Matrix, q: Matrix :| Transforms(t, q, m, n);
    if InKernel(m, x) { ProductKernel(t, m, x); }
    if InKernel(n, x) { ProductKernel(q, n, x); }
  }

  /** Every swap, scale and eliminate step keeps the kernel. */
  lemma StepKeepsKernel(op: RowOp, m: Matrix, x: Matrix)
    requires Applicable(op, m.rows)
    ensures InKernel(Apply(op, m), x) <==> InKernel(m, x)
  {
    StepEquivalent(op, m);
    EquivalentKernel(m, Apply(op, m), x);
  }

  lemma ZeroTimes(n: nat, m: Matrix)
    ensures Mul(Zero(n, m.rows), m) == Zero(n, m.cols)
  {
    forall i | 0 <= i < n
      ensures Mul(Zero(n, m.rows), m).cells[i] == ZeroRow(m.cols)
    {
      RowTimesZero(m);
    }
  }

  lemma EquivalentLeftTrivial(m: Matrix, n: Matrix)
    requires RowEquivalent(m, n) && LeftTrivial(n)
    ensures LeftTrivial(m)
  {
    var t: Matrix, q: Matrix :| Transforms(t, q, m, n);
    forall y: Matrix | InLeftKernel(m, y)
      ensures y == Zero(1, m.rows)
    {
      MulAssoc(y, q, n);
      assert InLeftKernel(n, Mul(y, q));
      MulAssoc(y, q, t);
      TimesIdentity(y);
      ZeroTimes(1, t);
    }
  }

  lemma Symmetric(m: Matrix, n: Matrix)
    requires RowEquivalent(m, n)
    ensures RowEquivalent(n, m)
  {
    var t: Matrix, q: Matrix :| Transforms(t, q, m, n);
    assert Transforms(q, t, n, m);
  }

  // ------------------------------------------------------- the elimination itself

  /** First row at or after `row` with a nonzero entry in the column, or the row count. */
  function FirstNonzero(m: Matrix, row: nat, col: nat): (r: nat)
    requires row <= m.rows && col < m.cols
    ensures row <= r <= m.rows
    ensures forall i | row <= i < r :: m.cells[i][col] == 0
    ensures r < m.rows ==> m.cells[r][col] != 0
    decreases m.rows - row
  {
    if row == m.rows || (assert IsRow(m.cells[row], m.cols); m.cells[row][col] != 0) then row
    else FirstNonzero(m, row + 1, col)
  }

  function Clear(m: Matrix, row: nat, rank: nat, col: nat): RowOp
    requires row < m.rows && rank < m.rows && row != rank && col < m.cols
  {
    assert IsRow(m.cells[row], m.cols);
    AddMultiple(row, rank, -m.cells[row][col])
  }

  /** Clears the column in every row from `row` on except the pivot row. */
  function EliminateFrom(m: Matrix, rank: nat, col: nat, row: nat): (r: Matrix)
    requires rank < m.rows && col < m.cols && row <= m.rows
    ensures r.rows == m.rows && r.cols == m.cols
    decreases m.rows - row
  {
    if row == m.rows then m
    else if row == rank then EliminateFrom(m, rank, col, row + 1)
    else EliminateFrom(Apply(Clear(m, row, rank, col), m), rank, col, row + 1)
  }

  function Normalised(m: Matrix, rank: nat, pivot: nat, col: nat): (r: Matrix)
    requires rank < m.rows && pivot < m.rows && col < m.cols && m.cells[pivot][col] != 0
    ensures r.rows == m.rows && r.cols == m.cols
  {
    var s := Apply(Swap(pivot, rank), m);
    assert IsRow(s.cells[rank], s.cols);
    var v := s.cells[rank][col];
    InverseIsInverse(v);
    Apply(Scale(rank, Inverse(v)), s)
  }

  function PivotStep(m: Matrix, rank: nat, pivot: nat, col: nat): (r: Matrix)
    requires rank < m.rows && pivot < m.rows && col < m.cols && m.cells[pivot][col] != 0
    ensures r.rows == m.rows && r.cols == m.cols
  {
    EliminateFrom(Normalised(m, rank, pivot, col), rank, col, 0)
  }

  function RankFrom(m: Matrix, rank: nat, col: nat): nat
    requires rank <= m.rows && col <= m.cols
    decreases m.cols - col
  {
    if col == m.cols || rank == m.rows then rank
    else
      var pivot := FirstNonzero(m, rank, col);
      if pivot == m.rows then RankFrom(m, rank, col + 1)
      else RankFrom(PivotStep(m, rank, pivot, col), rank + 1, col + 1)
  }

  function Rank(m: Matrix): nat {
    RankFrom(m, 0, 0)
  }

  // -------------------------------------------------- every step is an equivalence

  lemma EliminateOther(m: Matrix, rank: nat, col: nat, row: nat)
    requires rank < m.rows && col < m.cols && row < m.rows && row != rank
    ensures var next := Apply(Clear(m, row, rank, col), m);
            next.rows == m.rows && next.cols == m.cols
            && EliminateFrom(m, rank, col, row) == EliminateFrom(next, rank, col, row + 1)
  {
  }

  lemma StepThen(op: RowOp, m: Matrix, form: Matrix)
    requires Applicable(op, m.rows) && RowEquivalent(Apply(op, m), form)
    ensures RowEquivalent(m, form)
  {
    StepEquivalent(op, m);
    Transitive(m, Apply(op, m), form);
  }

  lemma {:induction false} EliminateEquivalent(m: Matrix, rank: nat, col: nat, row: nat)
    requires rank < m.rows && col < m.cols && row <= m.rows
    ensures RowEquivalent(m, EliminateFrom(m, rank, col, row))
    decreases m.rows - row
  {
    if row == m.rows {
      Reflexive(m);
    } else if row == rank {
      EliminateEquivalent(m, rank, col, row + 1);
    } else {
      var next := Apply(Clear(m, row, rank, col), m);
      EliminateOther(m, rank, col, row);
      EliminateEquivalent(next, rank, col, row + 1);
      StepThen(Clear(m, row, rank, col), m, EliminateFrom(next, rank, col, row + 1));
    }
  }

  lemma PivotEquivalent(m: Matrix, rank: nat, pivot: nat, col: nat)
    requires rank < m.rows && pivot < m.rows && col < m.cols && m.cells[pivot][col] != 0
    ensures RowEquivalent(m, PivotStep(m, rank, pivot, col))
  {
    var s := Apply(Swap(pivot, rank), m);
    var v := s.cells[rank][col];
    assert IsRow(s.cells[rank], s.cols);
    InverseIsInverse(v);
    var n := Apply(Scale(rank, Inverse(v)), s);
    StepEquivalent(Swap(pivot, rank), m);
    StepEquivalent(Scale(rank, Inverse(v)), s);
    EliminateEquivalent(n, rank, col, 0);
    Transitive(m, s, n);
    Transitive(m, n, PivotStep(m, rank, pivot, col));
  }

  // ---------------------------------------------------------- reduced row echelon

  /** After the columns before `col`: pivot columns are unit columns, rows below are clear. */
  ghost predicate Reduced(m: Matrix, pivots: seq<nat>, col: nat) {
    && |pivots| <= m.rows && col <= m.cols
    && (forall t | 0 <= t < |pivots| :: pivots[t] < col)
    && (forall s, t | 0 <= s < t < |pivots| :: pivots[s] < pivots[t])
    && (forall t, i | 0 <= t < |pivots| && 0 <= i < m.rows ::
          m.cells[i][pivots[t]] == if i == t then 1 else 0)
    && (forall i, j | |pivots| <= i < m.rows && 0 <= j < col :: m.cells[i][j] == 0)
  }

  /** Row i of the matrix after clearing from `row` on. */
  function RowAfter(m: Matrix, rank: nat, col: nat, row: nat, i: nat): seq<int>
    requires rank < m.rows && i < m.rows
  {
    if i < row || i == rank then m.cells[i] else ClearedRow(m.cells[i], m.cells[rank], col)
  }

  lemma {:induction false} EliminateRows(m: Matrix, rank: nat, col: nat, row: nat)
    requires rank < m.rows && col < m.cols && row <= m.rows
    ensures var r := EliminateFrom(m, rank, col, row);
            forall i | 0 <= i < m.rows :: r.cells[i] == RowAfter(m, rank, col, row, i)
    decreases m.rows - row
  {
    if row == m.rows {
    } else {
      if row == rank {
        EliminateRows(m, rank, col, row + 1);
        var r := EliminateFrom(m, rank, col, row);
        forall i | 0 <= i < m.rows ensures r.cells[i] == RowAfter(m, rank, col, row, i) {
          assert r.cells[i] == RowAfter(m, rank, col, row + 1, i);
        }
      } else {
        assert IsRow(m.cells[row], m.cols) && IsRow(m.cells[rank], m.cols);
        var next := Apply(Clear(m, row, rank, col), m);
        EliminateRows(next, rank, col, row + 1);
        forall i | 0 <= i < m.rows
          ensures RowAfter(next, rank, col, row + 1, i) == RowAfter(m, rank, col, row, i)
        {
          assert next.cells[row] == ClearedRow(m.cells[row], m.cells[rank], col);
        }
      }
    }
  }

  function ClearedRow(row: seq<int>, pivotRow: seq<int>, col: nat): seq<int> {
    if |row| == |pivotRow| && col < |row| then RowAdd(row, RowScale(-row[col], pivotRow)) else row
  }

  lemma ClearedEntry(row: seq<int>, pivotRow: seq<int>, col: nat, n: nat, j: nat)
    requires IsRow(row, n) && IsRow(pivotRow, n) && col < n && j < n
    ensures pivotRow[j] == 0 ==> ClearedRow(row, pivotRow, col)[j] == row[j]
    ensures j == col && pivotRow[col] == 1 ==> ClearedRow(row, pivotRow, col)[j] == 0
  {
    var v := row[col];
    assert ClearedRow(row, pivotRow, col)[j] == (row[j] + (-v * pivotRow[j]) % 251) % 251;
    TimesZeroOrOne(-v, pivotRow[j]);
    OppositesCancel(v);
  }

  lemma TimesZeroOrOne(a: int, b: int)
    ensures b == 0 ==> a * b == 0
    ensures b == 1 ==> a * b == a
  {
  }

  lemma OppositesCancel(v: int)
    ensures (v + (-v) % 251) % 251 == 0
  {
  }

  /** The rows after swapping, before scaling. */
  function SwappedRow(m: Matrix, rank: nat, pivot: nat, i: nat): seq<int>
    requires rank < m.rows && pivot < m.rows && i < m.rows
  {
    if i == rank then m.cells[pivot] else if i == pivot then m.cells[rank] else m.cells[i]
  }

  lemma PivotRows(m: Matrix, rank: nat, pivot: nat, col: nat)
    requires rank < m.rows && pivot < m.rows && col < m.cols && m.cells[pivot][col] != 0
    ensures var r, top := PivotStep(m, rank, pivot, col), RowScale(Inverse(m.cells[pivot][col]), m.cells[pivot]);
            forall i | 0 <= i < m.rows ::
              r.cells[i] == if i == rank then top else ClearedRow(SwappedRow(m, rank, pivot, i), top, col)
  {
    var n := Normalised(m, rank, pivot, col);
    var top := RowScale(Inverse(m.cells[pivot][col]), m.cells[pivot]);
    NormalisedRows(m, rank, pivot, col);
    EliminateRows(n, rank, col, 0);
    var r := PivotStep(m, rank, pivot, col);
    forall i | 0 <= i < m.rows
      ensures r.cells[i] == if i == rank then top else ClearedRow(SwappedRow(m, rank, pivot, i), top, col)
    {
      assert r.cells[i] == RowAfter(n, rank, col, 0, i);
    }
  }

  lemma NormalisedRows(m: Matrix, rank: nat, pivot: nat, col: nat)
    requires rank < m.rows && pivot < m.rows && col < m.cols && m.cells[pivot][col] != 0
    ensures var n, top := Normalised(m, rank, pivot, col), RowScale(Inverse(m.cells[pivot][col]), m.cells[pivot]);
            forall i | 0 <= i < m.rows :: n.cells[i] == if i == rank then top else SwappedRow(m, rank, pivot, i)
  {
  }

  lemma PivotTop(m: Matrix, pivot: nat, col: nat, j: nat)
    requires pivot < m.rows && j <= col < m.cols && m.cells[pivot][col] != 0
    requires j < col ==> m.cells[pivot][j] == 0
    ensures RowScale(Inverse(m.cells[pivot][col]), m.cells[pivot])[j] == if j == col then 1 else 0
  {
    var v := m.cells[pivot][col];
    assert IsRow(m.cells[pivot], m.cols);
    InverseIsInverse(v);
    assert Inverse(v) * v == v * Inverse(v);
    assert Inverse(v) * 0 == 0;
  }

  /** One entry, up to the pivot column, after the pivot step. */
  lemma PivotEntry(m: Matrix, pivots: seq<nat>, pivot: nat, col: nat, i: nat, j: nat)
    requires Reduced(m, pivots, col) && j <= col < m.cols && i < m.rows
    requires |pivots| <= pivot < m.rows && m.cells[pivot][col] != 0
    ensures var r, rank := PivotStep(m, |pivots|, pivot, col), |pivots|;
            r.cells[i][j] == if j == col then (if i == rank then 1 else 0) else if i >= rank then 0 else m.cells[i][j]
  {
    var rank, top := |pivots|, RowScale(Inverse(m.cells[pivot][col]), m.cells[pivot]);
    PivotRows(m, rank, pivot, col);
    PivotTop(m, pivot, col, j);
    PivotTop(m, pivot, col, col);
    if i != rank {
      var row := SwappedRow(m, rank, pivot, i);
      assert IsRow(row, m.cols);
      ClearedEntry(row, top, col, m.cols, j);
    }
  }

  lemma PivotReduced(m: Matrix, pivots: seq<nat>, pivot: nat, col: nat)
    requires Reduced(m, pivots, col) && col < m.cols
    requires |pivots| <= pivot < m.rows && m.cells[pivot][col] != 0
    requires forall i | |pivots| <= i < pivot :: m.cells[i][col] == 0
    ensures Reduced(PivotStep(m, |pivots|, pivot, col), pivots + [col], col + 1)
  {
    var rank, grown, r := |pivots|, pivots + [col], PivotStep(m, |pivots|, pivot, col);
    forall i, j | 0 <= i < m.rows && 0 <= j <= col
      ensures r.cells[i][j] == if j == col then (if i == rank then 1 else 0)
                               else if i >= rank then 0 else m.cells[i][j]
    {
      PivotEntry(m, pivots, pivot, col, i, j);
    }
    forall t, i | 0 <= t < |grown| && 0 <= i < m.rows
      ensures r.cells[i][grown[t]] == if i == t then 1 else 0
    {
      if t < rank {
        assert grown[t] == pivots[t] < col;
        assert m.cells[i][pivots[t]] == if i == t then 1 else 0;
      }
    }
  }

  lemma SkipReduced(m: Matrix, pivots: seq<nat>, col: nat)
    requires Reduced(m, pivots, col) && col < m.cols && FirstNonzero(m, |pivots|, col) == m.rows
    ensures Reduced(m, pivots, col + 1)
  {
  }

  /** The elimination ends in a reduced form of the same matrix with `RankFrom` pivots. */
  lemma {:induction false} ReducedForm(m: Matrix, pivots: seq<nat>, col: nat)
    returns (form: Matrix, all: seq<nat>, limit: nat)
    requires Reduced(m, pivots, col)
    ensures RowEquivalent(m, form) && Reduced(form, all, limit)
    ensures |all| == RankFrom(m, |pivots|, col)
    ensures limit == m.cols || |all| == m.rows
    decreases m.cols - col
  {
    if col == m.cols || |pivots| == m.rows {
      Reflexive(m);
      form, all, limit := m, pivots, col;
    } else {
      var pivot := FirstNonzero(m, |pivots|, col);
      if pivot == m.rows {
        SkipReduced(m, pivots, col);
        form, all, limit := ReducedForm(m, pivots, col + 1);
      } else {
        var next := PivotStep(m, |pivots|, pivot, col);
        PivotReduced(m, pivots, pivot, col);
        PivotEquivalent(m, |pivots|, pivot, col);
        form, all, limit := ReducedForm(next, pivots + [col], col + 1);
        Transitive(m, next, form);
      }
    }
  }
}
