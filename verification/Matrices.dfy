/** Matrices over F251 as values, and the algebra of their products. */
module Matrices {
  import opened NumberTheory
  import opened Sums

  predicate IsRow(r: seq<int>, n: nat) {
    |r| == n && forall j | 0 <= j < n :: 0 <= r[j] < 251
  }

  datatype Mat = Mat(rows: nat, cols: nat, cells: seq<seq<int>>)

  predicate IsMatrix(m: Mat) {
    |m.cells| == m.rows && forall i | 0 <= i < m.rows :: IsRow(m.cells[i], m.cols)
  }

  type Matrix = m: Mat | IsMatrix(m) witness Mat(0, 0, [])

  function RowAdd(u: seq<int>, v: seq<int>): (r: seq<int>)
    requires |u| == |v|
    ensures IsRow(r, |u|)
  {
    seq(|u|, j requires 0 <= j < |u| => (u[j] + v[j]) % 251)
  }

  function RowSub(u: seq<int>, v: seq<int>): (r: seq<int>)
    requires |u| == |v|
    ensures IsRow(r, |u|)
  {
    seq(|u|, j requires 0 <= j < |u| => (u[j] - v[j]) % 251)
  }

  function RowScale(c: int, u: seq<int>): (r: seq<int>)
    ensures IsRow(r, |u|)
  {
    seq(|u|, j requires 0 <= j < |u| => (c * u[j]) % 251)
  }

  function ZeroRow(n: nat): (r: seq<int>)
    ensures IsRow(r, n)
  {
    seq(n, _ => 0)
  }

  function UnitRow(n: nat, k: int): (r: seq<int>)
    ensures IsRow(r, n)
  {
    seq(n, j => if j == k then 1 else 0)
  }

  /** The terms row[k] * b[k][j] of one entry of a product, in the order the loops add them. */
  function Terms(row: seq<int>, b: seq<seq<int>>, j: int): seq<int> {
    seq(|row|, k requires 0 <= k < |row| => row[k] * At(b, k, j))
  }

  function Dot(row: seq<int>, b: seq<seq<int>>, j: int): int {
    Sum(Terms(row, b, j))
  }

  function RowTimes(row: seq<int>, b: Matrix): (r: seq<int>)
    ensures IsRow(r, b.cols)
  {
    seq(b.cols, j => Dot(row, b.cells, j) % 251)
  }

  function Mul(a: Matrix, b: Matrix): Matrix
    requires a.cols == b.rows
  {
    Mat(a.rows, b.cols, seq(a.rows, i requires 0 <= i < a.rows => RowTimes(a.cells[i], b)))
  }

  function Add(a: Matrix, b: Matrix): Matrix
    requires a.rows == b.rows && a.cols == b.cols
  {
    Mat(a.rows, a.cols, seq(a.rows, i requires 0 <= i < a.rows => RowAdd(a.cells[i], b.cells[i])))
  }

  function Sub(a: Matrix, b: Matrix): Matrix
    requires a.rows == b.rows && a.cols == b.cols
  {
    Mat(a.rows, a.cols, seq(a.rows, i requires 0 <= i < a.rows => RowSub(a.cells[i], b.cells[i])))
  }

  function Zero(rows: nat, cols: nat): Matrix {
    Mat(rows, cols, seq(rows, _ => ZeroRow(cols)))
  }

  function Identity(n: nat): Matrix {
    Mat(n, n, seq(n, i => UnitRow(n, i)))
  }

  function TopRows(m: Matrix, k: nat): Matrix
    requires k <= m.rows
  {
    Mat(k, m.cols, m.cells[..k])
  }

  function LeftColumns(m: Matrix, k: nat): Matrix
    requires k <= m.cols
  {
    Columns(m, 0, k)
  }

  /** The columns lo..hi. */
  function Columns(m: Matrix, lo: nat, hi: nat): Matrix
    requires lo <= hi <= m.cols
  {
    Mat(m.rows, hi - lo, seq(m.rows, i requires 0 <= i < m.rows => RowSlice(m.cells[i], m.cols, lo, hi)))
  }

  function RowSlice(row: seq<int>, n: nat, lo: nat, hi: nat): (r: seq<int>)
    requires IsRow(row, n) && lo <= hi <= n
    ensures IsRow(r, hi - lo)
  {
    row[lo..hi]
  }

  /** The rows lo..hi. */
  function Rows(m: Matrix, lo: nat, hi: nat): Matrix
    requires lo <= hi <= m.rows
  {
    Mat(hi - lo, m.cols, m.cells[lo..hi])
  }

  // ------------------------------------------------------- linearity in the row

  lemma DotRowAdd(u: seq<int>, v: seq<int>, b: seq<seq<int>>, j: int)
    requires |u| == |v|
    ensures Dot(RowAdd(u, v), b, j) % 251 == (Dot(u, b, j) + Dot(v, b, j)) % 251
  {
    var s, t, w := Terms(u, b, j), Terms(v, b, j), Terms(RowAdd(u, v), b, j);
    var total := seq(|u|, k requires 0 <= k < |u| => s[k] + t[k]);
    SumAdd(s, t, total);
    forall k | 0 <= k < |u| ensures w[k] % 251 == total[k] % 251 {
      var x := At(b, k, j);
      ModMul(u[k] + v[k], x, 251);
      assert (u[k] + v[k]) * x == u[k] * x + v[k] * x;
    }
    SumCongruent(w, total, 251);
  }

  lemma DotRowScale(c: int, u: seq<int>, b: seq<seq<int>>, j: int)
    ensures Dot(RowScale(c, u), b, j) % 251 == (c * Dot(u, b, j)) % 251
  {
    var s, w := Terms(u, b, j), Terms(RowScale(c, u), b, j);
    var total := seq(|u|, k requires 0 <= k < |u| => c * s[k]);
    SumScale(s, c, total);
    forall k | 0 <= k < |u| ensures w[k] % 251 == total[k] % 251 {
      var x := At(b, k, j);
      ModMul(c * u[k], x, 251);
      assert (c * u[k]) * x == c * (u[k] * x);
    }
    SumCongruent(w, total, 251);
  }

  lemma ResidueSum(x: int, y: int)
    ensures (x % 251 + y % 251) % 251 == (x + y) % 251
  {
  }

  lemma RowTimesAdd(u: seq<int>, v: seq<int>, b: Matrix)
    requires |u| == |v|
    ensures RowTimes(RowAdd(u, v), b) == RowAdd(RowTimes(u, b), RowTimes(v, b))
  {
    forall j | 0 <= j < b.cols
      ensures RowTimes(RowAdd(u, v), b)[j] == RowAdd(RowTimes(u, b), RowTimes(v, b))[j]
    {
      DotRowAdd(u, v, b.cells, j);
      ResidueSum(Dot(u, b.cells, j), Dot(v, b.cells, j));
    }
  }

  lemma RowTimesScale(c: int, u: seq<int>, b: Matrix)
    ensures RowTimes(RowScale(c, u), b) == RowScale(c, RowTimes(u, b))
  {
    forall j | 0 <= j < b.cols
      ensures RowTimes(RowScale(c, u), b)[j] == RowScale(c, RowTimes(u, b))[j]
    {
      DotRowScale(c, u, b.cells, j);
      var d := Dot(u, b.cells, j);
      ModMul(d, c, 251);
      assert d * c == c * d && (d % 251) * c == c * (d % 251);
    }
  }

  lemma DotUnit(n: nat, k: nat, b: seq<seq<int>>, j: int)
    requires k < n
    ensures Dot(UnitRow(n, k), b, j) == At(b, k, j)
  {
    SumSingle(Terms(UnitRow(n, k), b, j), k);
  }

  lemma RowTimesUnit(k: nat, b: Matrix)
    requires k < b.rows
    ensures RowTimes(UnitRow(b.rows, k), b) == b.cells[k]
  {
    assert IsRow(b.cells[k], b.cols);
    forall j | 0 <= j < b.cols
      ensures RowTimes(UnitRow(b.rows, k), b)[j] == b.cells[k][j]
    {
      DotUnit(b.rows, k, b.cells, j);
    }
  }

  lemma RowTimesZero(b: Matrix)
    ensures RowTimes(ZeroRow(b.rows), b) == ZeroRow(b.cols)
  {
    forall j | 0 <= j < b.cols
      ensures RowTimes(ZeroRow(b.rows), b)[j] == 0
    {
      SumZero(Terms(ZeroRow(b.rows), b.cells, j));
    }
  }

  lemma DotIdentity(u: seq<int>, n: nat, j: nat)
    requires IsRow(u, n) && j < n
    ensures Dot(u, Identity(n).cells, j) == u[j]
  {
    var terms := Terms(u, Identity(n).cells, j);
    forall k | 0 <= k < n ensures terms[k] == if k == j then u[j] else 0 {
      assert At(Identity(n).cells, k, j) == if k == j then 1 else 0;
    }
    SumSingle(terms, j);
  }

  lemma RowTimesIdentity(u: seq<int>, n: nat)
    requires IsRow(u, n)
    ensures RowTimes(u, Identity(n)) == u
  {
    forall j | 0 <= j < n ensures RowTimes(u, Identity(n))[j] == u[j] {
      DotIdentity(u, n, j);
    }
  }

  // ------------------------------------------------------------ matrix algebra

  lemma TimesZero(a: Matrix, n: nat)
    ensures Mul(a, Zero(a.cols, n)) == Zero(a.rows, n)
  {
    forall i, j | 0 <= i < a.rows && 0 <= j < n
      ensures Mul(a, Zero(a.cols, n)).cells[i][j] == 0
    {
      assert IsRow(a.cells[i], a.cols);
      SumZero(Terms(a.cells[i], Zero(a.cols, n).cells, j));
    }
    forall i | 0 <= i < a.rows
      ensures Mul(a, Zero(a.cols, n)).cells[i] == ZeroRow(n)
    {
    }
  }

  lemma IdentityTimes(b: Matrix)
    ensures Mul(Identity(b.rows), b) == b
  {
    forall i | 0 <= i < b.rows
      ensures Mul(Identity(b.rows), b).cells[i] == b.cells[i]
    {
      RowTimesUnit(i, b);
    }
  }

  lemma TimesIdentity(a: Matrix)
    ensures Mul(a, Identity(a.cols)) == a
  {
    forall i | 0 <= i < a.rows
      ensures Mul(a, Identity(a.cols)).cells[i] == a.cells[i]
    {
      RowTimesIdentity(a.cells[i], a.cols);
    }
  }

  /** Both ways of bracketing u·b·c sum the same table of triple products. */
  lemma RowTimesAssoc(u: seq<int>, b: Matrix, c: Matrix)
    requires |u| == b.rows && b.cols == c.rows
    ensures RowTimes(RowTimes(u, b), c) == RowTimes(u, Mul(b, c))
  {
    forall j | 0 <= j < c.cols
      ensures RowTimes(RowTimes(u, b), c)[j] == RowTimes(u, Mul(b, c))[j]
    {
      EntryAssoc(u, b, c, j);
    }
  }

  lemma EntryAssoc(u: seq<int>, b: Matrix, c: Matrix, j: nat)
    requires |u| == b.rows && b.cols == c.rows && j < c.cols
    ensures Dot(RowTimes(u, b), c.cells, j) % 251 == Dot(u, Mul(b, c).cells, j) % 251
  {
    var table := seq(b.rows, l requires 0 <= l < b.rows => RowTriple(u[l], b.cells[l], c.cells, j));
    var rowSums := seq(b.rows, l requires 0 <= l < b.rows => u[l] * Dot(b.cells[l], c.cells, j));
    var columnSums := seq(b.cols, k => Dot(u, b.cells, k) * At(c.cells, k, j));
    forall l | 0 <= l < b.rows ensures rowSums[l] == Sum(table[l]) && |table[l]| == b.cols {
      assert IsRow(b.cells[l], b.cols);
      SumScale(Terms(b.cells[l], c.cells, j), u[l], table[l]);
    }
    forall k | 0 <= k < b.cols ensures columnSums[k] == Sum(Column(table, k)) {
      ColumnOfTriples(u, b, c, j, k, table);
    }
    SumExchange(table, rowSums, columnSums);
    forall k | 0 <= k < b.cols
      ensures Terms(RowTimes(u, b), c.cells, j)[k] % 251 == columnSums[k] % 251
    {
      ModMul(Dot(u, b.cells, k), At(c.cells, k, j), 251);
    }
    SumCongruent(Terms(RowTimes(u, b), c.cells, j), columnSums, 251);
    forall l | 0 <= l < b.rows
      ensures Terms(u, Mul(b, c).cells, j)[l] % 251 == rowSums[l] % 251
    {
      var d := Dot(b.cells[l], c.cells, j);
      assert At(Mul(b, c).cells, l, j) == d % 251;
      ModMul(d, u[l], 251);
      assert d * u[l] == u[l] * d && (d % 251) * u[l] == u[l] * (d % 251);
    }
    SumCongruent(Terms(u, Mul(b, c).cells, j), rowSums, 251);
  }

  function RowTriple(x: int, row: seq<int>, c: seq<seq<int>>, j: int): seq<int> {
    seq(|row|, k requires 0 <= k < |row| => x * (row[k] * At(c, k, j)))
  }

  lemma ColumnOfTriples(u: seq<int>, b: Matrix, c: Matrix, j: nat, k: nat, table: seq<seq<int>>)
    requires |u| == b.rows && k < b.cols && |table| == b.rows
    requires forall l | 0 <= l < b.rows :: table[l] == RowTriple(u[l], b.cells[l], c.cells, j)
    ensures Dot(u, b.cells, k) * At(c.cells, k, j) == Sum(Column(table, k))
  {
    var x := At(c.cells, k, j);
    var s := Terms(u, b.cells, k);
    forall l | 0 <= l < b.rows ensures Column(table, k)[l] == x * s[l] {
      assert IsRow(b.cells[l], b.cols);
      var y := b.cells[l][k];
      assert table[l][k] == u[l] * (y * x);
      assert s[l] == u[l] * y;
      assert u[l] * (y * x) == x * (u[l] * y);
    }
    SumScale(s, x, Column(table, k));
    assert x * Sum(s) == Sum(s) * x;
  }

  lemma MulAssoc(a: Matrix, b: Matrix, c: Matrix)
    requires a.cols == b.rows && b.cols == c.rows
    ensures Mul(Mul(a, b), c) == Mul(a, Mul(b, c))
  {
    forall i | 0 <= i < a.rows
      ensures Mul(Mul(a, b), c).cells[i] == Mul(a, Mul(b, c)).cells[i]
    {
      assert IsRow(a.cells[i], a.cols);
      RowTimesAssoc(a.cells[i], b, c);
    }
  }

  lemma MulAddLeft(a: Matrix, e: Matrix, b: Matrix)
    requires a.rows == e.rows && a.cols == e.cols == b.rows
    ensures Mul(Add(a, e), b) == Add(Mul(a, b), Mul(e, b))
  {
    forall i | 0 <= i < a.rows
      ensures Mul(Add(a, e), b).cells[i] == Add(Mul(a, b), Mul(e, b)).cells[i]
    {
      assert IsRow(a.cells[i], a.cols) && IsRow(e.cells[i], e.cols);
      RowTimesAdd(a.cells[i], e.cells[i], b);
    }
  }

  lemma DotMatrixAdd(u: seq<int>, b: Matrix, f: Matrix, j: nat)
    requires |u| == b.rows == f.rows && b.cols == f.cols && j < b.cols
    ensures Dot(u, Add(b, f).cells, j) % 251 == (Dot(u, b.cells, j) + Dot(u, f.cells, j)) % 251
  {
    var s, t, w := Terms(u, b.cells, j), Terms(u, f.cells, j), Terms(u, Add(b, f).cells, j);
    var total := seq(|u|, k requires 0 <= k < |u| => s[k] + t[k]);
    SumAdd(s, t, total);
    forall k | 0 <= k < |u| ensures w[k] % 251 == total[k] % 251 {
      assert IsRow(b.cells[k], b.cols) && IsRow(f.cells[k], f.cols);
      var x, y := b.cells[k][j], f.cells[k][j];
      assert At(Add(b, f).cells, k, j) == (x + y) % 251;
      ModMul(x + y, u[k], 251);
      assert (x + y) * u[k] == u[k] * x + u[k] * y;
      assert ((x + y) % 251) * u[k] == u[k] * ((x + y) % 251);
    }
    SumCongruent(w, total, 251);
  }

  lemma RowTimesMatrixAdd(u: seq<int>, b: Matrix, f: Matrix)
    requires |u| == b.rows == f.rows && b.cols == f.cols
    ensures RowTimes(u, Add(b, f)) == RowAdd(RowTimes(u, b), RowTimes(u, f))
  {
    forall j | 0 <= j < b.cols
      ensures RowTimes(u, Add(b, f))[j] == RowAdd(RowTimes(u, b), RowTimes(u, f))[j]
    {
      DotMatrixAdd(u, b, f, j);
      ResidueSum(Dot(u, b.cells, j), Dot(u, f.cells, j));
    }
  }

  lemma MulAddRight(a: Matrix, b: Matrix, f: Matrix)
    requires a.cols == b.rows == f.rows && b.cols == f.cols
    ensures Mul(a, Add(b, f)) == Add(Mul(a, b), Mul(a, f))
  {
    forall i | 0 <= i < a.rows
      ensures Mul(a, Add(b, f)).cells[i] == Add(Mul(a, b), Mul(a, f)).cells[i]
    {
      assert IsRow(a.cells[i], a.cols);
      RowTimesMatrixAdd(a.cells[i], b, f);
    }
  }

  lemma RowAddSubCancel(x: seq<int>, y: seq<int>, z: seq<int>, n: nat)
    requires IsRow(x, n) && IsRow(y, n) && IsRow(z, n)
    ensures RowSub(RowAdd(RowAdd(x, y), z), RowAdd(y, z)) == x
  {
  }

  /** x + y + z - (y + z) == x for whole matrices, whatever the bracketing residues. */
  lemma AddSubCancel(x: Matrix, y: Matrix, z: Matrix)
    requires x.rows == y.rows == z.rows && x.cols == y.cols == z.cols
    ensures Sub(Add(Add(x, y), z), Add(y, z)) == x
  {
    forall i | 0 <= i < x.rows
      ensures Sub(Add(Add(x, y), z), Add(y, z)).cells[i] == x.cells[i]
    {
      RowAddSubCancel(x.cells[i], y.cells[i], z.cells[i], x.cols);
    }
  }

  /** The low-rank decode: subtracting the two cheap corrections from the noisy product
      leaves exactly the useful product. */
  lemma DecodeRecoversProduct(a: Matrix, b: Matrix, el: Matrix, er: Matrix, fl: Matrix, fr: Matrix)
    requires a.rows == a.cols == b.rows == b.cols
    requires el.rows == a.rows && el.cols == er.rows && er.cols == a.rows
    requires fl.rows == a.rows && fl.cols == fr.rows && fr.cols == a.rows
    ensures var noisyB := Add(b, Mul(fl, fr));
            Sub(Mul(Add(a, Mul(el, er)), noisyB), Add(Mul(Mul(a, fl), fr), Mul(el, Mul(er, noisyB))))
            == Mul(a, b)
  {
    var e, f := Mul(el, er), Mul(fl, fr);
    var noisyB := Add(b, f);
    MulAddLeft(a, e, noisyB);
    MulAddRight(a, b, f);
    MulAssoc(a, fl, fr);
    MulAssoc(el, er, noisyB);
    AddSubCancel(Mul(a, b), Mul(a, f), Mul(e, noisyB));
  }

  // --------------------------------------------------------------------- stripes

  /** The part of the product that uses inner indices lo..hi only. */
  function Stripe(a: Matrix, b: Matrix, lo: nat, hi: nat): Matrix
    requires a.cols == b.rows && lo <= hi <= a.cols
  {
    Mul(Columns(a, lo, hi), Rows(b, lo, hi))
  }

  lemma StripeTerms(a: Matrix, b: Matrix, lo: nat, hi: nat, i: nat, j: nat)
    requires a.cols == b.rows && lo <= hi <= a.cols && i < a.rows
    ensures Terms(Columns(a, lo, hi).cells[i], Rows(b, lo, hi).cells, j)
            == Terms(a.cells[i], b.cells, j)[lo..hi]
  {
  }

  lemma StripeEntry(a: Matrix, b: Matrix, lo: nat, hi: nat, i: nat, j: nat)
    requires a.cols == b.rows && lo <= hi <= a.cols && i < a.rows && j < b.cols
    ensures Stripe(a, b, lo, hi).cells[i][j] == Sum(Terms(a.cells[i], b.cells, j)[lo..hi]) % 251
  {
    StripeTerms(a, b, lo, hi, i, j);
  }

  lemma RangesJoin(terms: seq<int>, lo: nat, mid: nat, hi: nat)
    requires lo <= mid <= hi <= |terms|
    ensures (Sum(terms[lo..mid]) % 251 + Sum(terms[mid..hi]) % 251) % 251 == Sum(terms[lo..hi]) % 251
  {
    assert terms[lo..hi] == terms[lo..mid] + terms[mid..hi];
    SumConcat(terms[lo..mid], terms[mid..hi]);
    ResidueSum(Sum(terms[lo..mid]), Sum(terms[mid..hi]));
  }

  ghost predicate IsStripe(s: Matrix, a: Matrix, b: Matrix, lo: nat, hi: nat) {
    && a.cols == b.rows && lo <= hi <= a.cols && s.rows == a.rows && s.cols == b.cols
    && forall i, j | 0 <= i < a.rows && 0 <= j < b.cols ::
         |a.cells[i]| == a.cols && s.cells[i][j] == Sum(Terms(a.cells[i], b.cells, j)[lo..hi]) % 251
  }

  lemma StripeIsStripe(a: Matrix, b: Matrix, lo: nat, hi: nat)
    requires a.cols == b.rows && lo <= hi <= a.cols
    ensures IsStripe(Stripe(a, b, lo, hi), a, b, lo, hi)
  {
    forall i, j | 0 <= i < a.rows && 0 <= j < b.cols
      ensures |a.cells[i]| == a.cols
      ensures Stripe(a, b, lo, hi).cells[i][j] == Sum(Terms(a.cells[i], b.cells, j)[lo..hi]) % 251
    {
      assert IsRow(a.cells[i], a.cols);
      StripeEntry(a, b, lo, hi, i, j);
    }
  }

  lemma IsStripesJoin(x: Matrix, y: Matrix, z: Matrix, a: Matrix, b: Matrix, lo: nat, mid: nat, hi: nat)
    requires IsStripe(x, a, b, lo, mid) && IsStripe(y, a, b, mid, hi) && IsStripe(z, a, b, lo, hi)
    ensures Add(x, y) == z
  {
    forall i | 0 <= i < a.rows
      ensures RowAdd(x.cells[i], y.cells[i]) == z.cells[i]
    {
      assert IsRow(x.cells[i], b.cols) && IsRow(y.cells[i], b.cols) && IsRow(z.cells[i], b.cols);
      forall j | 0 <= j < b.cols
        ensures RowAdd(x.cells[i], y.cells[i])[j] == z.cells[i][j]
      {
        RangesJoin(Terms(a.cells[i], b.cells, j), lo, mid, hi);
      }
    }
    assert Add(x, y).cells == z.cells;
  }

  /** Adjacent stripes add up to the stripe of the joined range. */
  lemma StripesJoin(a: Matrix, b: Matrix, lo: nat, mid: nat, hi: nat)
    requires a.cols == b.rows && lo <= mid <= hi <= a.cols
    ensures Add(Stripe(a, b, lo, mid), Stripe(a, b, mid, hi)) == Stripe(a, b, lo, hi)
  {
    StripeIsStripe(a, b, lo, mid);
    StripeIsStripe(a, b, mid, hi);
    StripeIsStripe(a, b, lo, hi);
    IsStripesJoin(Stripe(a, b, lo, mid), Stripe(a, b, mid, hi), Stripe(a, b, lo, hi), a, b, lo, mid, hi);
  }

  lemma EmptyStripe(a: Matrix, b: Matrix)
    requires a.cols == b.rows
    ensures Stripe(a, b, 0, 0) == Zero(a.rows, b.cols)
  {
    forall i | 0 <= i < a.rows
      ensures Stripe(a, b, 0, 0).cells[i] == ZeroRow(b.cols)
    {
      forall j | 0 <= j < b.cols ensures Stripe(a, b, 0, 0).cells[i][j] == 0 {
        StripeEntry(a, b, 0, 0, i, j);
      }
    }
  }

  lemma FullStripe(a: Matrix, b: Matrix)
    requires a.cols == b.rows
    ensures Stripe(a, b, 0, a.cols) == Mul(a, b)
  {
    assert Rows(b, 0, b.rows).cells == b.cells;
    forall i | 0 <= i < a.rows ensures Columns(a, 0, a.cols).cells[i] == a.cells[i] {
      assert IsRow(a.cells[i], a.cols);
    }
    assert Columns(a, 0, a.cols).cells == a.cells;
  }
}
