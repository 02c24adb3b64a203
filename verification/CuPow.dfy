/** The F251 engine of cupow.rs: in-place rank, products, stripes and the noisy execution. */
module CuPow {
  import opened Integers
  import opened Outcomes
  import opened CuPowErrors
  import opened NumberTheory
  import opened Sums
  import opened Matrices
  import opened Field251
  import opened Elimination
  import opened FlatMatrix

  // ------------------------------------------------------------------ matrix_rank

  /** The buffer holds the k rows of n entries, one after the other. */
  ghost predicate Stores(values: seq<int>, n: nat, k: nat, cells: seq<seq<int>>) {
    |values| == k * n && Split(values, n, k) == cells
  }

  method ReadU16(values: array<u16>, n: nat, ghost k: nat, ghost cells: seq<seq<int>>, row: nat, j: nat)
    returns (v: u16)
    requires Stores(values[..], n, k, cells) && row < k && j < n
    ensures |cells[row]| == n && v == cells[row][j]
  {
    SplitRead(values[..], n, k, row, j);
    v := values[row * n + j];
  }

  method ReadRow(values: array<u16>, n: nat, ghost k: nat, ghost cells: seq<seq<int>>, row: nat)
    returns (copy: seq<u16>)
    requires Stores(values[..], n, k, cells) && row < k
    ensures copy == cells[row]
  {
    CellBounds(row, n, k);
    copy := values[row * n..row * n + n];
    assert copy == SplitRow(values[..], n, k, row);
  }

  method WriteU16(values: array<u16>, n: nat, ghost k: nat, ghost cells: seq<seq<int>>, row: nat, j: nat, v: u16)
    requires Stores(values[..], n, k, cells) && row < k && j < n
    modifies values
    ensures |cells[row]| == n && Stores(values[..], n, k, cells[row := cells[row][j := v]])
  {
    SplitWrite(values[..], n, k, row, j, v);
    values[row * n + j] := v;
  }

  method WriteU8(values: array<u8>, n: nat, ghost k: nat, ghost cells: seq<seq<int>>, row: nat, j: nat, v: u8)
    requires Stores(values[..], n, k, cells) && row < k && j < n
    modifies values
    ensures |cells[row]| == n && Stores(values[..], n, k, cells[row := cells[row][j := v]])
  {
    SplitWrite(values[..], n, k, row, j, v);
    values[row * n + j] := v;
  }

  method FindPivot(values: array<u16>, ghost m: Matrix, rows: nat, columns: nat, rank: nat, column: nat)
    returns (pivot: nat)
    requires Stores(values[..], m.cols, m.rows, m.cells) && rows == m.rows && columns == m.cols
    requires rank <= rows && column < columns
    ensures pivot == FirstNonzero(m, rank, column)
  {
    pivot := rank;
    while pivot < rows
      invariant rank <= pivot <= rows
      invariant FirstNonzero(m, rank, column) == FirstNonzero(m, pivot, column)
    {
      var value := ReadU16(values, columns, rows, m.cells, pivot, column);
      if value != 0 {
        return;
      }
      pivot := pivot + 1;
    }
  }

  /** Row `a` taken from p up to column k and from q after it. */
  function Mixed(p: seq<int>, q: seq<int>, k: nat): seq<int>
    requires |p| == |q| && k <= |p|
  {
    p[..k] + q[k..]
  }

  lemma MixedStep(p: seq<int>, q: seq<int>, k: nat)
    requires |p| == |q| && k < |p|
    ensures Mixed(p, q, k)[k] == q[k] && Mixed(p, q, k)[k := p[k]] == Mixed(p, q, k + 1)
  {
  }

  lemma MixedEnds(p: seq<int>, q: seq<int>)
    requires |p| == |q|
    ensures Mixed(p, q, 0) == q && Mixed(p, q, |p|) == p
  {
  }

  /** Swaps two rows entry by entry. */
  method SwapRows(values: array<u16>, ghost m: Matrix, ghost rows: nat, columns: nat, pivot: nat, rank: nat)
    requires Stores(values[..], columns, rows, m.cells) && rows == m.rows && columns == m.cols
    requires pivot < rows && rank < rows
    modifies values
    ensures Stores(values[..], columns, rows, Apply(Swap(pivot, rank), m).cells)
  {
    ghost var p, r := m.cells[pivot], m.cells[rank];
    assert IsRow(p, columns) && IsRow(r, columns);
    MixedEnds(r, p);
    MixedEnds(p, r);
    for column := 0 to columns
      invariant Stores(values[..], columns, rows, SwapProgress(m.cells, pivot, rank, column))
    {
      SwapColumn(values, columns, rows, m.cells, pivot, rank, column);
    }
  }

  /** One turn of the swap loop. */
  method SwapColumn(values: array<u16>, n: nat, ghost k: nat, ghost cells: seq<seq<int>>,
                    pivot: nat, rank: nat, column: nat)
    requires pivot < k && rank < k && column < n && |cells| == k && |cells[pivot]| == |cells[rank]| == n
    requires Stores(values[..], n, k, SwapProgress(cells, pivot, rank, column))
    modifies values
    ensures Stores(values[..], n, k, SwapProgress(cells, pivot, rank, column + 1))
  {
    SwapStep(cells, pivot, rank, column);
    SwapCells(values, n, k, SwapProgress(cells, pivot, rank, column), pivot, rank, column);
  }

  /** `values.swap` of the entries of two rows in one column. */
  method SwapCells(values: array<u16>, n: nat, ghost k: nat, ghost cells: seq<seq<int>>,
                   pivot: nat, rank: nat, column: nat)
    requires Stores(values[..], n, k, cells) && pivot < k && rank < k && column < n
    modifies values
    ensures |cells[pivot]| == |cells[rank]| == n
    ensures var half := cells[pivot := cells[pivot][column := cells[rank][column]]];
            |half[rank]| == n && Stores(values[..], n, k, half[rank := half[rank][column := cells[pivot][column]]])
  {
    var a := ReadU16(values, n, k, cells, pivot, column);
    var b := ReadU16(values, n, k, cells, rank, column);
    WriteU16(values, n, k, cells, pivot, column, b);
    WriteU16(values, n, k, cells[pivot := cells[pivot][column := b]], rank, column, a);
  }

  function SwapProgress(cells: seq<seq<int>>, pivot: nat, rank: nat, column: nat): seq<seq<int>>
    requires pivot < |cells| && rank < |cells| && |cells[pivot]| == |cells[rank]| && column <= |cells[rank]|
  {
    var p, r := cells[pivot], cells[rank];
    cells[pivot := Mixed(r, p, column)][rank := Mixed(p, r, column)]
  }

  lemma SwapStep(cells: seq<seq<int>>, pivot: nat, rank: nat, column: nat)
    requires pivot < |cells| && rank < |cells| && |cells[pivot]| == |cells[rank]| && column < |cells[rank]|
    ensures var now := SwapProgress(cells, pivot, rank, column);
            |now[pivot]| == |now[rank]| == |cells[rank]|
            && var a, b := now[pivot][column], now[rank][column];
            var half := now[pivot := now[pivot][column := b]];
            half[rank := half[rank][column := a]] == SwapProgress(cells, pivot, rank, column + 1)
  {
    var p, r := cells[pivot], cells[rank];
    MixedStep(r, p, column);
    MixedStep(p, r, column);
    if pivot == rank {
      assert Mixed(p, p, column) == p == Mixed(p, p, column + 1);
    }
  }

  /** Scales one row in place; every u16 product fits. */
  method ScaleRow(values: array<u16>, ghost m: Matrix, ghost rows: nat, columns: nat, row: nat, factor: u16)
    requires Stores(values[..], columns, rows, m.cells) && rows == m.rows && columns == m.cols
    requires row < rows && 0 < factor < 251
    modifies values
    ensures Stores(values[..], columns, rows, Apply(Scale(row, factor), m).cells)
  {
    ghost var before, after := m.cells[row], RowScale(factor, m.cells[row]);
    assert IsRow(before, columns);
    MixedEnds(after, before);
    for j := 0 to columns
      invariant Stores(values[..], columns, rows, m.cells[row := Mixed(after, before, j)])
    {
      ScaleEntry(values, columns, rows, m.cells, row, factor, j);
    }
  }

  /** One turn of the scaling loop. */
  method ScaleEntry(values: array<u16>, n: nat, ghost k: nat, ghost cells: seq<seq<int>>, row: nat, factor: u16, j: nat)
    requires row < k == |cells| && IsRow(cells[row], n) && j < n && 0 < factor < 251
    requires Stores(values[..], n, k, cells[row := Mixed(RowScale(factor, cells[row]), cells[row], j)])
    modifies values
    ensures Stores(values[..], n, k, cells[row := Mixed(RowScale(factor, cells[row]), cells[row], j + 1)])
  {
    ghost var before, after := cells[row], RowScale(factor, cells[row]);
    ghost var now := cells[row := Mixed(after, before, j)];
    MixedStep(after, before, j);
    var value := ReadU16(values, n, k, now, row, j);
    ProductFits(value, factor);
    var product: u16 := value * factor;
    assert value * factor == factor * before[j];
    WriteU16(values, n, k, now, row, j, product % F251_MODULUS);
    assert now[row := now[row][j := after[j]]] == cells[row := Mixed(after, before, j + 1)];
  }

  lemma SubtractMultiple(t: int, f: int, s: int)
    requires 0 <= t < 251 && 0 <= f < 251 && 0 <= s < 251
    ensures 0 <= f * s <= 62500 && 0 <= t + 251 - (f * s) % 251 <= 501
    ensures (t + 251 - (f * s) % 251) % 251 == (t + (-f * s) % 251) % 251
  {
    ProductFits(f, s);
    assert -f * s == -(f * s);
    NegatedResidue(t, f * s);
  }

  lemma NegatedResidue(t: int, x: int)
    ensures (t + 251 - x % 251) % 251 == (t + (-x) % 251) % 251
  {
  }

  /** One entry of the subtraction, in u16. */
  method SubtractEntryU16(target: u16, factor: u16, source: u16) returns (r: u16)
    requires target < 251 && factor < 251 && source < 251
    ensures var negated: int := -(factor as int);
            r == (target + (negated * source) % 251) % 251
  {
    SubtractMultiple(target, factor, source);
    var product: u16 := factor * source;
    var value: u16 := target + F251_MODULUS - product % F251_MODULUS;
    r := value % F251_MODULUS;
  }

  /** The row without `factor` times the pivot row. */
  ghost function Subtracted(row: seq<int>, factor: int, pivotRow: seq<int>): (r: seq<int>)
    requires |row| == |pivotRow|
    ensures IsRow(r, |row|)
  {
    RowAdd(row, RowScale(-factor, pivotRow))
  }

  /** Subtracts `factor` times the copied pivot row from one row in place. */
  method SubtractRow(values: array<u16>, ghost m: Matrix, ghost rows: nat, columns: nat, row: nat, ghost rank: nat,
                     factor: u16, pivotRow: seq<u16>)
    requires Stores(values[..], columns, rows, m.cells) && rows == m.rows && columns == m.cols
    requires row < rows && rank < rows && row != rank
    requires factor < 251 && pivotRow == m.cells[rank]
    modifies values
    ensures var negated: int := -(factor as int);
            Stores(values[..], columns, rows, Apply(AddMultiple(row, rank, negated), m).cells)
  {
    ghost var before := m.cells[row];
    assert IsRow(before, columns) && IsRow(m.cells[rank], columns);
    ghost var after := Subtracted(before, factor, pivotRow);
    MixedEnds(after, before);
    for j := 0 to columns
      invariant Stores(values[..], columns, rows, m.cells[row := Mixed(after, before, j)])
    {
      SubtractColumn(values, columns, rows, m.cells, row, factor, pivotRow, j);
    }
  }

  /** One turn of the subtraction loop. */
  method SubtractColumn(values: array<u16>, n: nat, ghost k: nat, ghost cells: seq<seq<int>>, row: nat, factor: u16,
                        pivotRow: seq<u16>, j: nat)
    requires row < k == |cells| && IsRow(cells[row], n) && IsRow(pivotRow, n) && j < n && factor < 251
    requires Stores(values[..], n, k, cells[row := Mixed(Subtracted(cells[row], factor, pivotRow), cells[row], j)])
    modifies values
    ensures Stores(values[..], n, k, cells[row := Mixed(Subtracted(cells[row], factor, pivotRow), cells[row], j + 1)])
  {
    ghost var after := Subtracted(cells[row], factor, pivotRow);
    ghost var now := cells[row := Mixed(after, cells[row], j)];
    MixedStep(after, cells[row], j);
    var target := ReadU16(values, n, k, now, row, j);
    var value := SubtractEntryU16(target, factor, pivotRow[j]);
    WriteU16(values, n, k, now, row, j, value);
    assert now[row := now[row][j := after[j]]] == cells[row := Mixed(after, cells[row], j + 1)];
  }

  method ClearRow(values: array<u16>, ghost m: Matrix, ghost rows: nat, columns: nat, ghost rank: nat, column: nat,
                  row: nat, pivotRow: seq<u16>)
    requires Stores(values[..], columns, rows, m.cells) && rows == m.rows && columns == m.cols
    requires rank < rows && column < columns && row < rows && row != rank && pivotRow == m.cells[rank]
    modifies values
    ensures Stores(values[..], columns, rows, Apply(Clear(m, row, rank, column), m).cells)
  {
    assert IsRow(m.cells[row], columns);
    var factor := ReadU16(values, columns, rows, m.cells, row, column);
    SubtractRow(values, m, rows, columns, row, rank, factor, pivotRow);
  }

  lemma ClearStep(now: Matrix, rank: nat, column: nat, row: nat)
    requires rank < now.rows && column < now.cols && row < now.rows
    ensures row == rank ==> EliminateFrom(now, rank, column, row) == EliminateFrom(now, rank, column, row + 1)
    ensures row != rank ==>
              var next := Apply(Clear(now, row, rank, column), now);
              next.rows == now.rows && next.cols == now.cols && next.cells[rank] == now.cells[rank]
              && EliminateFrom(now, rank, column, row) == EliminateFrom(next, rank, column, row + 1)
  {
  }

  /** Clears one column in every row but the pivot row. */
  method ClearColumn(values: array<u16>, ghost m: Matrix, rows: nat, columns: nat, rank: nat, column: nat)
    requires Stores(values[..], columns, rows, m.cells) && rows == m.rows && columns == m.cols
    requires rank < rows && column < columns
    modifies values
    ensures Stores(values[..], columns, rows, EliminateFrom(m, rank, column, 0).cells)
  {
    var pivotRow := ReadRow(values, columns, rows, m.cells, rank);
    ghost var now := m;
    for row := 0 to rows
      invariant now.rows == rows && now.cols == columns && now.cells[rank] == pivotRow
      invariant Stores(values[..], columns, rows, now.cells)
      invariant EliminateFrom(now, rank, column, row) == EliminateFrom(m, rank, column, 0)
    {
      now := ClearNext(values, now, rows, columns, rank, column, row, pivotRow);
    }
  }

  /** One turn of the clearing loop, which skips the pivot row. */
  method ClearNext(values: array<u16>, ghost now: Matrix, rows: nat, columns: nat, rank: nat, column: nat, row: nat,
                   pivotRow: seq<u16>) returns (ghost next: Matrix)
    requires Stores(values[..], columns, rows, now.cells) && rows == now.rows && columns == now.cols
    requires rank < rows && column < columns && row < rows && now.cells[rank] == pivotRow
    modifies values
    ensures next.rows == rows && next.cols == columns && next.cells[rank] == pivotRow
    ensures Stores(values[..], columns, rows, next.cells)
    ensures EliminateFrom(now, rank, column, row) == EliminateFrom(next, rank, column, row + 1)
  {
    ClearStep(now, rank, column, row);
    next := now;
    if row != rank {
      ClearRow(values, now, rows, columns, rank, column, row, pivotRow);
      next := Apply(Clear(now, row, rank, column), now);
    }
  }

  /** Swap, scale and clear for one pivot. */
  method PivotInPlace(values: array<u16>, ghost m: Matrix, rows: nat, columns: nat, rank: nat, pivot: nat, column: nat)
    requires Stores(values[..], columns, rows, m.cells) && rows == m.rows && columns == m.cols
    requires rank < rows && pivot < rows && column < columns && m.cells[pivot][column] != 0
    modifies values
    ensures Stores(values[..], columns, rows, PivotStep(m, rank, pivot, column).cells)
  {
    SwapRows(values, m, rows, columns, pivot, rank);
    ghost var swapped := Apply(Swap(pivot, rank), m);
    assert IsRow(swapped.cells[rank], columns);
    var value := ReadU16(values, columns, rows, swapped.cells, rank, column);
    var inverse := InverseF251(value);
    InverseIsInverse(value);
    ScaleRow(values, swapped, rows, columns, rank, inverse);
    ClearColumn(values, Normalised(m, rank, pivot, column), rows, columns, rank, column);
  }

  /** `matrix_rank`: Gauss-Jordan elimination on a flat u16 buffer computes the true rank. */
  method MatrixRank(matrix: F251Matrix) returns (rank: nat)
    requires WellFormed(matrix)
    ensures rank == Rank(View(matrix))
  {
    var rows: nat, columns: nat := matrix.rows, matrix.columns;
    var values := new u16[|matrix.values|](k requires 0 <= k < |matrix.values| => matrix.values[k]);
    assert values[..] == matrix.values;
    ghost var m := View(matrix);
    rank := 0;
    for column := 0 to columns
      invariant rank < rows && m.rows == rows && m.cols == columns
      invariant Stores(values[..], columns, rows, m.cells)
      invariant RankFrom(m, rank, column) == Rank(View(matrix))
    {
      var pivot := FindPivot(values, m, rows, columns, rank, column);
      if pivot != rows {
        PivotInPlace(values, m, rows, columns, rank, pivot, column);
        m := PivotStep(m, rank, pivot, column);
        rank := rank + 1;
        if rank == rows {
          break;
        }
      }
    }
  }

  // ---------------------------------------------------------------------- products

  ghost predicate Encodes(e: F251Matrix, m: Matrix) {
    WellFormed(e) && View(e) == m
  }

  /** The products of bytes that the fold of one output entry adds up. */
  function ByteTerms(left: F251Matrix, right: F251Matrix, row: nat, column: nat): (terms: seq<int>)
    requires Covered(left) && Covered(right) && left.columns == right.rows
    requires row < left.rows && column < right.columns
    ensures |terms| == left.columns
  {
    seq(left.columns, k requires 0 <= k < left.columns => Index(left, row, k) * Index(right, k, column))
  }

  lemma BytesFit(a: u8, b: u8)
    ensures 0 <= a * b <= 65025
  {
    MulLe(a, 255, b);
    MulLe(0, a, b);
  }

  /** One turn of the fold, in u32. */
  function FoldValue(sum: u32, x: u8, y: u8): (r: u32)
    requires sum < 251
    ensures r < 251 && r == (sum + x * y) % 251
  {
    BytesFit(x, y);
    var value: u32 := sum + x * y;
    value % F251_MODULUS
  }

  /** The fold of one output entry over the inner indices start..end. */
  method DotLoop(left: F251Matrix, right: F251Matrix, row: nat, column: nat, start: nat, end: nat) returns (sum: u32)
    requires Covered(left) && Covered(right) && left.columns == right.rows
    requires row < left.rows && column < right.columns && start <= end <= left.columns
    ensures sum == Sum(ByteTerms(left, right, row, column)[start..end]) % 251
  {
    ghost var terms := ByteTerms(left, right, row, column);
    sum := 0;
    for index := start to end
      invariant 0 <= sum < 251 && sum == Sum(terms[start..index]) % 251
    {
      FoldStep(terms, start, index);
      sum := FoldValue(sum, Index(left, row, index), Index(right, index, column));
    }
  }

  /** Bytes or residues, the sum is the same mod 251. */
  lemma ByteSumIsFieldSum(left: F251Matrix, right: F251Matrix, row: nat, column: nat, start: nat, end: nat)
    requires Covered(left) && Covered(right) && left.columns == right.rows
    requires row < left.rows && column < right.columns && start <= end <= left.columns
    ensures var terms := Terms(View(left).cells[row], View(right).cells, column);
            |terms| == left.columns
            && Sum(ByteTerms(left, right, row, column)[start..end]) % 251 == Sum(terms[start..end]) % 251
  {
    var bytes, terms := ByteTerms(left, right, row, column), Terms(View(left).cells[row], View(right).cells, column);
    assert IsRow(View(left).cells[row], left.columns);
    forall k | 0 <= k < left.columns ensures bytes[k] % 251 == terms[k] % 251 {
      ByteTermIsFieldTerm(left, right, row, column, k);
    }
    SumCongruent(bytes[start..end], terms[start..end], 251);
  }

  lemma ByteTermIsFieldTerm(left: F251Matrix, right: F251Matrix, row: nat, column: nat, k: nat)
    requires Covered(left) && Covered(right) && left.columns == right.rows
    requires row < left.rows && column < right.columns && k < left.columns
    ensures |View(left).cells[row]| == left.columns
    ensures ByteTerms(left, right, row, column)[k] % 251
            == Terms(View(left).cells[row], View(right).cells, column)[k] % 251
  {
    var x, y := Index(left, row, k), Index(right, k, column);
    ModMulBoth(x, y, 251);
  }

  lemma FoldStep(terms: seq<int>, start: nat, index: nat)
    requires start <= index < |terms|
    ensures (Sum(terms[start..index]) % 251 + terms[index]) % 251 == Sum(terms[start..index + 1]) % 251
  {
    assert terms[start..index + 1] == terms[start..index] + [terms[index]];
    SumSnoc(terms[start..index], terms[index]);
    ModAdd(Sum(terms[start..index]), terms[index], 251);
  }

  method OutputEntry(left: F251Matrix, right: F251Matrix, row: nat, column: nat, start: nat, end: nat,
                     ghost product: Matrix) returns (value: u8)
    requires Covered(left) && Covered(right) && left.columns == right.rows
    requires row < left.rows && column < right.columns && start <= end <= left.columns
    requires IsStripe(product, View(left), View(right), start, end)
    ensures |product.cells[row]| == right.columns && value == product.cells[row][column]
  {
    var sum := DotLoop(left, right, row, column, start, end);
    ByteSumIsFieldSum(left, right, row, column, start, end);
    assert IsRow(product.cells[row], right.columns);
    value := sum;
  }

  /** Fills the output buffer of a product restricted to the inner indices start..end. */
  method FillProduct(left: F251Matrix, right: F251Matrix, start: nat, end: nat) returns (values: seq<u8>)
    requires Covered(left) && Covered(right) && left.columns == right.rows
    requires start <= end <= left.columns
    ensures |values| == left.rows * right.columns && IsRow(values, |values|)
    ensures View(F251Matrix(left.rows, right.columns, values)) == Stripe(View(left), View(right), start, end)
  {
    var rows: nat, columns: nat := left.rows, right.columns;
    ghost var product := Stripe(View(left), View(right), start, end);
    StripeIsStripe(View(left), View(right), start, end);
    values := FillBuffer(left, right, start, end, product);
  }

  method FillBuffer(left: F251Matrix, right: F251Matrix, start: nat, end: nat, ghost product: Matrix)
    returns (values: seq<u8>)
    requires Covered(left) && Covered(right) && left.columns == right.rows
    requires start <= end <= left.columns && product.rows == left.rows && product.cols == right.columns
    requires IsStripe(product, View(left), View(right), start, end)
    ensures |values| == left.rows * right.columns && IsRow(values, |values|)
    ensures View(F251Matrix(left.rows, right.columns, values)) == product
  {
    var output, cells := ZeroBuffer(left.rows, right.columns);
    for row := 0 to left.rows
      invariant Stores(output[..], right.columns, left.rows, cells) && |cells| == left.rows
      invariant cells[..row] == product.cells[..row]
    {
      cells := FillRow(output, left, right, start, end, product, cells, row);
    }
    assert cells == product.cells;
    values := output[..];
    BufferHolds(values, left.rows, right.columns, product);
  }

  method ZeroBuffer(rows: nat, columns: nat) returns (output: array<u8>, ghost cells: seq<seq<int>>)
    ensures fresh(output) && Stores(output[..], columns, rows, cells) && |cells| == rows
  {
    CellCount(rows, columns);
    output := new u8[rows * columns](_ => 0);
    cells := Split(output[..], columns, rows);
  }

  method WriteMixed(output: array<u8>, columns: nat, rows: nat, ghost cells: seq<seq<int>>, row: nat,
                    ghost target: seq<int>, column: nat, value: u8)
    requires row < rows == |cells| && |target| == |cells[row]| == columns && column < columns
    requires value == target[column]
    requires Stores(output[..], columns, rows, cells[row := Mixed(target, cells[row], column)])
    modifies output
    ensures Stores(output[..], columns, rows, cells[row := Mixed(target, cells[row], column + 1)])
  {
    MixedStep(target, cells[row], column);
    WriteU8(output, columns, rows, cells[row := Mixed(target, cells[row], column)], row, column, value);
  }

  /** Fills one row of the output. */
  method FillRow(output: array<u8>, left: F251Matrix, right: F251Matrix, start: nat, end: nat, ghost product: Matrix,
                 ghost cells: seq<seq<int>>, row: nat) returns (ghost filled: seq<seq<int>>)
    requires Covered(left) && Covered(right) && left.columns == right.rows
    requires start <= end <= left.columns && product.rows == left.rows && product.cols == right.columns
    requires IsStripe(product, View(left), View(right), start, end)
    requires row < left.rows && Stores(output[..], right.columns, left.rows, cells)
    modifies output
    ensures Stores(output[..], right.columns, left.rows, filled)
    ensures |cells| == |filled| == left.rows && filled == cells[row := product.cells[row]]
  {
    var columns: nat := right.columns;
    filled := cells;
    SplitRowLength(output[..], columns, left.rows, row);
    assert IsRow(product.cells[row], columns);
    MixedEnds(product.cells[row], cells[row]);
    for column := 0 to columns
      invariant Stores(output[..], columns, left.rows, cells[row := Mixed(product.cells[row], cells[row], column)])
    {
      var value := OutputEntry(left, right, row, column, start, end, product);
      WriteMixed(output, columns, left.rows, cells, row, product.cells[row], column, value);
    }
    filled := cells[row := product.cells[row]];
  }

  /** A filled buffer of residues is the encoding of its rows. */
  lemma BufferHolds(values: seq<u8>, rows: u32, columns: u32, product: Matrix)
    requires Stores(values, columns, rows, product.cells) && product.rows == rows && product.cols == columns
    ensures |values| == rows * columns && IsRow(values, |values|)
    ensures View(F251Matrix(rows, columns, values)) == product
  {
    ResiduesOfSplit(values, columns, rows, product);
    assert CellValues(F251Matrix(rows, columns, values)) == values;
  }

  lemma SplitRowLength(values: seq<int>, n: nat, k: nat, row: nat)
    requires |values| == k * n && row < k
    ensures |Split(values, n, k)[row]| == n
  {
    CellBounds(row, n, k);
  }

  lemma ResiduesOfSplit(values: seq<int>, n: nat, k: nat, m: Matrix)
    requires Stores(values, n, k, m.cells) && m.rows == k && m.cols == n
    ensures IsRow(values, |values|)
  {
    forall x | 0 <= x < |values| ensures 0 <= values[x] < 251 {
      DivideIndex(x, n, k);
      SplitRead(values, n, k, x / n, x % n);
      assert (x / n) * n + x % n == x;
      assert IsRow(m.cells[x / n], n);
    }
  }

  /** The dimensions agree, but the product would have no cells. */
  predicate EmptyProduct(left: F251Matrix, right: F251Matrix) {
    left.columns == right.rows && (left.rows == 0 || right.columns == 0)
  }

  /** When the loops come to index the operands, there is a byte for every cell. */
  predicate Multipliable(left: F251Matrix, right: F251Matrix) {
    left.columns == right.rows && !EmptyProduct(left, right) ==> Covered(left) && Covered(right)
  }

  /** `matmul_f251`, on operands of any bytes, surplus bytes included. */
  method MatmulF251(left: F251Matrix, right: F251Matrix) returns (r: Result<F251Matrix>)
    requires Multipliable(left, right)
    ensures left.columns != right.rows ==> r == Err(MatrixOperation)
    ensures EmptyProduct(left, right) ==> r == Err(MatrixShape)
    ensures left.columns == right.rows && !EmptyProduct(left, right) ==>
              r.Ok? && r.value.rows == left.rows && r.value.columns == right.columns
              && Encodes(r.value, Mul(View(left), View(right)))
  {
    if left.columns != right.rows {
      return Err(MatrixOperation);
    }
    if EmptyProduct(left, right) {
      return New(left.rows, right.columns, []);
    }
    var output := FillProduct(left, right, 0, left.columns);
    FullStripe(View(left), View(right));
    r := New(left.rows, right.columns, output);
  }

  /** `stripe_product`, on the square matrices it is called with. */
  method StripeProduct(left: F251Matrix, right: F251Matrix, start: nat, width: nat)
    returns (r: Result<F251Matrix>)
    requires WellFormed(left) && WellFormed(right)
    requires left.rows == left.columns == right.rows == right.columns && start + width <= left.rows
    ensures r.Ok? && Encodes(r.value, Stripe(View(left), View(right), start, start + width))
  {
    var output := FillProduct(left, right, start, start + width);
    r := New(left.rows, right.columns, output);
  }
}
