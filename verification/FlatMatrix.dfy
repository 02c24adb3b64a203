/** The flat row-major encoding `F251Matrix` and its matrix view. */
module FlatMatrix {
  import opened Integers
  import opened Outcomes
  import opened CuPowErrors
  import opened NumberTheory
  import opened Matrices

  datatype F251Matrix = F251Matrix(rows: u32, columns: u32, values: seq<u8>)

  /** A byte for each cell.  A deserialised matrix may have more, may hold bytes from 251 on, or have no cells. */
  predicate Covered(m: F251Matrix) {
    m.rows * m.columns <= |m.values|
  }

  predicate WellFormed(m: F251Matrix) {
    m.rows > 0 && m.columns > 0 && |m.values| == m.rows * m.columns && IsRow(m.values, |m.values|)
  }

  /** `F251Matrix::new`. */
  function New(rows: u32, columns: u32, values: seq<u8>): (r: Result<F251Matrix>)
    ensures r.Ok? <==> WellFormed(F251Matrix(rows, columns, values))
    ensures r.Ok? ==> r.value == F251Matrix(rows, columns, values)
    ensures r.Err? ==> r.error == MatrixShape
  {
    if rows == 0 || columns == 0 || |values| != rows * columns || exists k | 0 <= k < |values| :: values[k] >= 251
    then Err(MatrixShape)
    else Ok(F251Matrix(rows, columns, values))
  }

  // ------------------------------------------------------------ splitting into rows

  lemma CellBounds(row: nat, n: nat, k: nat)
    requires row < k
    ensures 0 <= row * n && (row + 1) * n == row * n + n && row * n + n <= k * n
  {
  }

  lemma RowsApart(i: nat, row: nat, n: nat)
    ensures i < row ==> i * n + n <= row * n
    ensures row < i ==> row * n + n <= i * n
  {
    if i < row { CellBounds(i, n, row); }
    if row < i { CellBounds(row, n, i); }
  }

  function SplitRow(values: seq<int>, n: nat, k: nat, i: nat): seq<int>
    requires |values| == k * n && i < k
  {
    CellBounds(i, n, k);
    values[i * n..i * n + n]
  }

  function Split(values: seq<int>, n: nat, k: nat): seq<seq<int>>
    requires |values| == k * n
  {
    seq(k, i requires 0 <= i < k => SplitRow(values, n, k, i))
  }

  lemma SplitRead(values: seq<int>, n: nat, k: nat, row: nat, j: nat)
    requires |values| == k * n && row < k && j < n
    ensures 0 <= row * n + j < |values| && |Split(values, n, k)[row]| == n
    ensures Split(values, n, k)[row][j] == values[row * n + j]
  {
    CellBounds(row, n, k);
    SliceRead(values, row * n, n, j);
  }

  lemma SliceRead(values: seq<int>, start: nat, n: nat, j: nat)
    requires start + n <= |values| && j < n
    ensures values[start..start + n][j] == values[start + j]
  {
  }

  lemma SliceWrite(values: seq<int>, start: nat, n: nat, j: nat, v: int)
    requires start + n <= |values| && j < n
    ensures values[start + j := v][start..start + n] == values[start..start + n][j := v]
  {
  }

  lemma SliceElsewhere(values: seq<int>, start: nat, n: nat, x: nat, v: int)
    requires start + n <= |values| && x < |values| && (x < start || start + n <= x)
    ensures values[x := v][start..start + n] == values[start..start + n]
  {
  }

  /** Writing one cell of the buffer updates one entry of one row. */
  lemma SplitWrite(values: seq<int>, n: nat, k: nat, row: nat, j: nat, v: int)
    requires |values| == k * n && row < k && j < n
    ensures 0 <= row * n + j < |values| && |Split(values, n, k)[row]| == n
    ensures Split(values[row * n + j := v], n, k)
            == Split(values, n, k)[row := Split(values, n, k)[row][j := v]]
  {
    CellBounds(row, n, k);
    var x := row * n + j;
    var after := values[x := v];
    forall i | 0 <= i < k
      ensures SplitRow(after, n, k, i)
              == if i == row then SplitRow(values, n, k, i)[j := v] else SplitRow(values, n, k, i)
    {
      CellBounds(i, n, k);
      RowsApart(i, row, n);
      if i == row {
        SliceWrite(values, row * n, n, j, v);
      } else {
        SliceElsewhere(values, i * n, n, x, v);
      }
    }
  }

  lemma SplitInjective(v: seq<int>, w: seq<int>, n: nat, k: nat)
    requires |v| == |w| == k * n && Split(v, n, k) == Split(w, n, k)
    ensures v == w
  {
    forall x | 0 <= x < |v| ensures v[x] == w[x] {
      DivideIndex(x, n, k);
      SplitRead(v, n, k, x / n, x % n);
      SplitRead(w, n, k, x / n, x % n);
      assert (x / n) * n + x % n == x;
    }
  }

  lemma DivideIndex(x: nat, n: nat, k: nat)
    requires x < k * n
    ensures n > 0 && 0 <= x / n < k && 0 <= x % n < n
  {
  }

  lemma SplitResidues(values: seq<int>, n: nat, k: nat)
    requires |values| == k * n && IsRow(values, |values|)
    ensures forall i | 0 <= i < k :: IsRow(Split(values, n, k)[i], n)
  {
    forall i | 0 <= i < k ensures IsRow(SplitRow(values, n, k, i), n) {
      CellBounds(i, n, k);
    }
  }

  function Residues251(values: seq<int>): (r: seq<int>)
    ensures IsRow(r, |values|)
    ensures IsRow(values, |values|) ==> r == values
  {
    seq(|values|, k requires 0 <= k < |values| => values[k] % 251)
  }

  /** The bytes that are cells, as residues. */
  function CellValues(m: F251Matrix): (values: seq<int>)
    requires Covered(m)
    ensures |values| == m.rows * m.columns && IsRow(values, |values|)
    ensures WellFormed(m) ==> values == m.values
  {
    CellCount(m.rows, m.columns);
    Residues251(m.values[..m.rows * m.columns])
  }

  lemma CellCount(rows: nat, columns: nat)
    ensures 0 <= rows * columns
  {
  }

  /** The matrix a buffer stands for. */
  function View(m: F251Matrix): (v: Matrix)
    requires Covered(m)
    ensures v.rows == m.rows && v.cols == m.columns
    ensures WellFormed(m) ==> v.cells == Split(m.values, m.columns, m.rows)
  {
    SplitResidues(CellValues(m), m.columns, m.rows);
    Mat(m.rows, m.columns, Split(CellValues(m), m.columns, m.rows))
  }

  /** The cells stand row by row. */
  lemma ViewIsRowMajor(m: F251Matrix, i: nat, j: nat)
    requires Covered(m) && i < m.rows && j < m.columns
    ensures 0 <= i * m.columns + j < |m.values| && |View(m).cells[i]| == m.columns
    ensures View(m).cells[i][j] == m.values[i * m.columns + j] % 251
  {
    SplitRead(CellValues(m), m.columns, m.rows, i, j);
  }

  /** The encoding loses nothing. */
  lemma ViewInjective(m: F251Matrix, n: F251Matrix)
    requires WellFormed(m) && WellFormed(n) && View(m) == View(n)
    ensures m == n
  {
    SplitInjective(m.values, n.values, m.columns, m.rows);
  }

  /** `F251Matrix::index`. */
  function Index(m: F251Matrix, row: nat, column: nat): (r: u8)
    requires Covered(m) && row < m.rows && column < m.columns
    ensures |View(m).cells[row]| == m.columns && r % 251 == View(m).cells[row][column]
  {
    SplitRead(CellValues(m), m.columns, m.rows, row, column);
    m.values[row * m.columns + column]
  }

  // ------------------------------------------------------------- elementwise operations

  /** One entry of the sum, computed in u16. */
  function AddEntry(a: u8, b: u8): u8 {
    var x: u16, y: u16 := a, b;
    assert x + y <= 0xFFFF;
    (x + y) % 251
  }

  /** One entry of the difference: in u16 the 251 is added before b is taken away. */
  function SubtractEntry(a: u8, b: u8): (r: u8)
    ensures b < 251 ==> r == (a as int - b as int) % 251
  {
    var x: int, y: int := a, b;
    (x + 251 - y) % 251
  }

  function AddValues(left: seq<u8>, right: seq<u8>): seq<u8> {
    var n := if |left| < |right| then |left| else |right|;
    seq(n, k requires 0 <= k < n => AddEntry(left[k], right[k]))
  }

  function SubtractValues(left: seq<u8>, right: seq<u8>): seq<u8> {
    var n := if |left| < |right| then |left| else |right|;
    seq(n, k requires 0 <= k < n => SubtractEntry(left[k], right[k]))
  }

  /** `add`. */
  function AddF251(left: F251Matrix, right: F251Matrix): Result<F251Matrix> {
    if left.rows != right.rows || left.columns != right.columns then Err(MatrixOperation)
    else New(left.rows, left.columns, AddValues(left.values, right.values))
  }

  /** `subtract`. */
  function SubtractF251(left: F251Matrix, right: F251Matrix): Result<F251Matrix> {
    if left.rows != right.rows || left.columns != right.columns then Err(MatrixOperation)
    else New(left.rows, left.columns, SubtractValues(left.values, right.values))
  }

  lemma ByteSum(a: u8, b: u8)
    ensures (a as int + b) % 251 == (a % 251 + b % 251) % 251
  {
    ModAdd(a, b, 251);
    ModAdd(b, a % 251, 251);
  }

  lemma ViewRow(m: F251Matrix, i: nat)
    requires Covered(m) && i < m.rows
    ensures 0 <= i * m.columns && i * m.columns + m.columns <= |CellValues(m)|
    ensures View(m).cells[i] == CellValues(m)[i * m.columns..i * m.columns + m.columns]
  {
    CellBounds(i, m.columns, m.rows);
  }

  lemma RowAddSlice(u: seq<int>, v: seq<int>, start: nat, n: nat)
    requires |u| == |v| && start + n <= |u|
    ensures RowAdd(u, v)[start..start + n] == RowAdd(u[start..start + n], v[start..start + n])
  {
  }

  lemma RowSubSlice(u: seq<int>, v: seq<int>, start: nat, n: nat)
    requires |u| == |v| && start + n <= |u|
    ensures RowSub(u, v)[start..start + n] == RowSub(u[start..start + n], v[start..start + n])
  {
  }

  lemma AddedBytes(left: seq<u8>, right: seq<u8>, count: nat)
    requires count == |AddValues(left, right)|
    ensures count <= |left| && count <= |right|
    ensures AddValues(left, right) == RowAdd(Residues251(left[..count]), Residues251(right[..count]))
  {
    forall k | 0 <= k < count
      ensures AddValues(left, right)[k] == (Residues251(left[..count])[k] + Residues251(right[..count])[k]) % 251
    {
      ByteSum(left[k], right[k]);
    }
  }

  /** The sum exists exactly when the shorter operand has a byte for each of its cells and no more. */
  lemma AddF251Exactly(left: F251Matrix, right: F251Matrix)
    requires left.rows == right.rows && left.columns == right.columns
    ensures var r := AddF251(left, right);
            var shorter := if |left.values| < |right.values| then |left.values| else |right.values|;
            && (r.Ok? <==> left.rows > 0 && left.columns > 0 && shorter == left.rows * left.columns)
            && (r.Err? ==> r == Err(MatrixShape))
            && (r.Ok? ==> WellFormed(r.value) && View(r.value) == Add(View(left), View(right)))
  {
    if AddF251(left, right).Ok? {
      AddF251Cells(left, right);
      forall i | 0 <= i < left.rows
        ensures View(AddF251(left, right).value).cells[i] == Add(View(left), View(right)).cells[i]
      {
        AddRow(left, right, i);
      }
    }
  }

  lemma AddF251Cells(left: F251Matrix, right: F251Matrix)
    requires left.rows == right.rows && left.columns == right.columns && AddF251(left, right).Ok?
    ensures Covered(left) && Covered(right) && WellFormed(AddF251(left, right).value)
    ensures CellValues(AddF251(left, right).value) == RowAdd(CellValues(left), CellValues(right))
  {
    AddedBytes(left.values, right.values, |AddValues(left.values, right.values)|);
  }

  lemma AddRow(left: F251Matrix, right: F251Matrix, i: nat)
    requires left.rows == right.rows && left.columns == right.columns && AddF251(left, right).Ok? && i < left.rows
    ensures Covered(left) && Covered(right)
    ensures View(AddF251(left, right).value).cells[i] == RowAdd(View(left).cells[i], View(right).cells[i])
  {
    AddF251Cells(left, right);
    ViewRow(left, i);
    ViewRow(right, i);
    ViewRow(AddF251(left, right).value, i);
    RowAddSlice(CellValues(left), CellValues(right), i * left.columns, left.columns);
  }

  lemma SubtractF251Meaning(left: F251Matrix, right: F251Matrix)
    requires WellFormed(left) && WellFormed(right)
    requires left.rows == right.rows && left.columns == right.columns
    ensures SubtractF251(left, right).Ok? && WellFormed(SubtractF251(left, right).value)
    ensures View(SubtractF251(left, right).value) == Sub(View(left), View(right))
  {
    SubtractF251Cells(left, right);
    forall i | 0 <= i < left.rows
      ensures View(SubtractF251(left, right).value).cells[i] == Sub(View(left), View(right)).cells[i]
    {
      SubtractRowOf(left, right, i);
    }
  }

  lemma SubtractF251Cells(left: F251Matrix, right: F251Matrix)
    requires WellFormed(left) && WellFormed(right)
    requires left.rows == right.rows && left.columns == right.columns
    ensures SubtractF251(left, right).Ok? && WellFormed(SubtractF251(left, right).value)
    ensures CellValues(SubtractF251(left, right).value) == RowSub(CellValues(left), CellValues(right))
  {
  }

  lemma SubtractRowOf(left: F251Matrix, right: F251Matrix, i: nat)
    requires WellFormed(left) && WellFormed(right) && i < left.rows
    requires left.rows == right.rows && left.columns == right.columns && SubtractF251(left, right).Ok?
    ensures WellFormed(SubtractF251(left, right).value)
    ensures View(SubtractF251(left, right).value).cells[i] == RowSub(View(left).cells[i], View(right).cells[i])
  {
    SubtractF251Cells(left, right);
    ViewRow(left, i);
    ViewRow(right, i);
    ViewRow(SubtractF251(left, right).value, i);
    RowSubSlice(CellValues(left), CellValues(right), i * left.columns, left.columns);
  }
}
