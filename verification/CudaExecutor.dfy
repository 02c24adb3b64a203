/** ops/cupow_cuda_executor.py: the second implementation, on centred 8-bit tensors. */
module CudaExecutor {
  import opened Integers
  import opened Outcomes
  import opened CuPowErrors
  import opened NumberTheory
  import opened Sums
  import opened Matrices
  import opened Field251
  import opened Elimination
  import opened FlatMatrix
  import opened CuPow
  import opened StripedExecution
  import opened NoiseDraw

  // ------------------------------------------------------------------------- rank

  lemma ClearZero(m: Matrix, row: nat, rank: nat, col: nat)
    requires row < m.rows && rank < m.rows && row != rank && col < m.cols && m.cells[row][col] == 0
    ensures Apply(Clear(m, row, rank, col), m) == m
  {
    assert IsRow(m.cells[row], m.cols) && IsRow(m.cells[rank], m.cols);
    forall j | 0 <= j < m.cols ensures RowAdd(m.cells[row], RowScale(0, m.cells[rank]))[j] == m.cells[row][j] {
    }
    assert RowAdd(m.cells[row], RowScale(0, m.cells[rank])) == m.cells[row];
    assert Apply(Clear(m, row, rank, col), m).cells == m.cells;
  }

  /** `(work[row] - factor * work[rank]) % P`. */
  function SubtractRowMultiple(row: seq<int>, factor: int, pivotRow: seq<int>): seq<int>
    requires |row| == |pivotRow|
  {
    seq(|row|, j requires 0 <= j < |row| => (row[j] - factor * pivotRow[j]) % 251)
  }

  lemma NegatedMultiple(t: int, f: int, s: int)
    ensures (t - f * s) % 251 == (t + (-f * s) % 251) % 251
  {
  }

  lemma SubtractIsAdd(row: seq<int>, factor: int, pivotRow: seq<int>)
    requires |row| == |pivotRow|
    ensures SubtractRowMultiple(row, factor, pivotRow) == RowAdd(row, RowScale(-factor, pivotRow))
  {
    forall j | 0 <= j < |row|
      ensures SubtractRowMultiple(row, factor, pivotRow)[j] == RowAdd(row, RowScale(-factor, pivotRow))[j]
    {
      NegatedMultiple(row[j], factor, pivotRow[j]);
    }
  }

  method ClearColumnByRows(work: array<seq<int>>, ghost m: Matrix, rank: nat, column: nat)
    requires work[..] == m.cells && rank < m.rows && column < m.cols
    modifies work
    ensures work[..] == EliminateFrom(m, rank, column, 0).cells
  {
    ghost var now := m;
    for row := 0 to work.Length
      invariant now.rows == m.rows && now.cols == m.cols && work[..] == now.cells
      invariant EliminateFrom(now, rank, column, row) == EliminateFrom(m, rank, column, 0)
    {
      if row != rank {
        assert IsRow(now.cells[row], now.cols) && IsRow(now.cells[rank], now.cols);
        if work[row][column] != 0 {
          SubtractIsAdd(work[row], work[row][column], work[rank]);
          work[row] := SubtractRowMultiple(work[row], work[row][column], work[rank]);
        } else {
          ClearZero(now, row, rank, column);
        }
        now := Apply(Clear(now, row, rank, column), now);
      }
    }
  }

  method FirstPivotRow(work: array<seq<int>>, ghost m: Matrix, rank: nat, column: nat) returns (pivot: nat)
    requires work[..] == m.cells && rank <= m.rows && column < m.cols
    ensures pivot == FirstNonzero(m, rank, column)
  {
    pivot := rank;
    while pivot < work.Length && (assert IsRow(m.cells[pivot], m.cols); work[pivot][column] == 0)
      invariant rank <= pivot <= work.Length
      invariant FirstNonzero(m, rank, column) == FirstNonzero(m, pivot, column)
    {
      pivot := pivot + 1;
    }
  }

  method PivotByRows(work: array<seq<int>>, ghost m: Matrix, rank: nat, pivot: nat, column: nat)
    requires work[..] == m.cells && rank < m.rows && pivot < m.rows && column < m.cols
    requires m.cells[pivot][column] != 0
    modifies work
    ensures work[..] == PivotStep(m, rank, pivot, column).cells
  {
    work[rank], work[pivot] := work[pivot], work[rank];
    assert work[..] == Apply(Swap(pivot, rank), m).cells;
    assert IsRow(work[rank], m.cols);
    work[rank] := RowScale(Inverse(work[rank][column]), work[rank]);
    assert work[..] == Normalised(m, rank, pivot, column).cells;
    ClearColumnByRows(work, Normalised(m, rank, pivot, column), rank, column);
  }

  method RowsOf(value: Matrix) returns (work: array<seq<int>>)
    ensures fresh(work) && work[..] == value.cells
  {
    work := new seq<int>[value.rows](i requires 0 <= i < value.rows => value.cells[i]);
    assert work[..] == value.cells;
  }

  /** `rank_f251`: whole-row updates that skip rows already clear. */
  method RankF251(value: Matrix) returns (rank: nat)
    requires value.rows > 0
    ensures rank == Rank(value)
  {
    var rows, columns := value.rows, value.cols;
    var work := RowsOf(value);
    ghost var m := value;
    rank := 0;
    for column := 0 to columns
      invariant rank < rows && m.rows == rows && m.cols == columns && work[..] == m.cells
      invariant RankFrom(m, rank, column) == Rank(value)
    {
      var pivot := FirstPivotRow(work, m, rank, column);
      if pivot < rows {
        PivotByRows(work, m, rank, pivot, column);
        m := PivotStep(m, rank, pivot, column);
        rank := rank + 1;
        if rank == rows {
          break;
        }
      }
    }
  }

  // -------------------------------------------------------------------------- noise

  /** `xof_matrix`: filter one batch, and double the batch while it is too short. */
  method XofMatrix(stream: Stream, rows: u32, columns: u32) returns (m: F251Matrix)
    requires rows > 0 && columns > 0 && rows * columns >= 0 && Enough(stream, rows * columns)
    ensures m == DrawMatrix(stream, rows, columns)
  {
    var required: nat := rows * columns;
    ghost var enough: nat :| required <= |Residues(stream, enough)|;
    var requested: nat := required + required / 40 + 64;
    while true
      invariant requested > 0
      decreases enough - requested
    {
      var residues := Filter(Prefix(stream, requested));
      if |residues| >= required {
        AnyBatchDraws(stream, required, requested);
        return F251Matrix(rows, columns, residues[..required]);
      }
      if enough <= requested {
        ResiduesGrow(stream, enough, requested);
        assert false;
      }
      requested := requested * 2;
    }
  }

  /** `noise`: it selects the same retry and the same factors as the Rust derivation. */
  method Noise(xof: Xof, key: NoiseKey, n: u32, rank: u32) returns (r: Result<CuPowNoise>)
    requires RichXof(xof) && n > 0 && rank > 0
    ensures r == SelectedNoise(xof, key, n, rank)
    ensures |key.operationId| <= U64_MAX ==> Answers(xof, key, n, rank, r)
  {
    if |key.operationId| <= U64_MAX { SelectionAnswers(xof, key, n, rank); }
    ghost var accepted := Accepted(xof, key, n, rank);
    for retry := 0 to RETRIES
      invariant FirstTrue(accepted, retry, RETRIES) == FirstTrue(accepted, 0, RETRIES)
    {
      var factors, full := TryFactors(xof, key, n, rank, retry);
      if full {
        return Ok(factors);
      }
    }
    r := Err(NoiseDerivation);
  }

  method TryFactors(xof: Xof, key: NoiseKey, n: u32, rank: u32, retry: nat)
    returns (factors: CuPowNoise, full: bool)
    requires RichXof(xof) && n > 0 && rank > 0
    ensures factors == FactorsAt(xof, key, n, rank, retry)
    ensures full == Accepted(xof, key, n, rank)(retry)
  {
    CellBounds(0, rank, n);
    CellBounds(0, n, rank);
    var eLeft := XofMatrix(xof(Input(key, "e-left", retry)), n, rank);
    var eRight := XofMatrix(xof(Input(key, "e-right", retry)), rank, n);
    var fLeft := XofMatrix(xof(Input(key, "f-left", retry)), n, rank);
    var fRight := XofMatrix(xof(Input(key, "f-right", retry)), rank, n);
    factors := CuPowNoise(eLeft, eRight, fLeft, fRight);
    assert factors == FactorsAt(xof, key, n, rank, retry);
    full := EveryRankIs(factors, rank);
  }

  method EveryRankIs(factors: CuPowNoise, rank: nat) returns (full: bool)
    requires NoiseWellFormed(factors)
    ensures full == FullRank(factors, rank)
  {
    var a := RankF251(View(factors.eLeft));
    if a != rank { return false; }
    var b := RankF251(View(factors.eRight));
    if b != rank { return false; }
    var c := RankF251(View(factors.fLeft));
    if c != rank { return false; }
    var d := RankF251(View(factors.fRight));
    full := d == rank;
  }

  // --------------------------------------------------------------- centred arithmetic

  /** `centered`: residues moved to [-125, 125]. */
  function Centered(value: int): (r: i8)
    requires 0 <= value < 251
    ensures -125 <= r <= 125 && r % 251 == value
  {
    var work: i16 := value;
    if work > 125 then (work as int) - 251 else work
  }

  function CenteredRow(row: seq<int>): (r: seq<int>)
    requires IsRow(row, |row|)
    ensures |r| == |row| && forall k | 0 <= k < |r| :: -125 <= r[k] <= 125 && r[k] % 251 == row[k]
  {
    seq(|row|, k requires 0 <= k < |row| => Centered(row[k]))
  }

  function CenteredCells(m: Matrix): (r: seq<seq<int>>)
    ensures |r| == m.rows && forall i | 0 <= i < m.rows :: r[i] == CenteredRow(m.cells[i])
  {
    seq(m.rows, i requires 0 <= i < m.rows => CenteredRow(m.cells[i]))
  }

  /** What an int32 accumulator holds. */
  function Wrap32(x: int): (r: i32)
    ensures (x - r) % 0x1_0000_0000 == 0
  {
    (x + 0x8000_0000) % 0x1_0000_0000 - 0x8000_0000
  }

  /** `mm_f251`: int32 product of the centred tensors, then a floor remainder. */
  function MmF251(left: Matrix, right: Matrix): Matrix
    requires left.cols == right.rows
  {
    Mat(left.rows, right.cols,
        seq(left.rows, i requires 0 <= i < left.rows =>
          MmRow(CenteredRow(left.cells[i]), CenteredCells(right), right.cols)))
  }

  function MmRow(row: seq<int>, b: seq<seq<int>>, n: nat): (r: seq<int>)
    ensures IsRow(r, n)
  {
    seq(n, j => Wrap32(Dot(row, b, j)) % 251)
  }

  ghost predicate SmallTerms(terms: seq<int>) {
    forall k | 0 <= k < |terms| :: -15625 <= terms[k] <= 15625
  }

  lemma CenteredTerm(x: int, y: int)
    requires -125 <= x <= 125 && -125 <= y <= 125
    ensures -15625 <= x * y <= 15625
  {
    if y >= 0 {
      MulLe(x, 125, y);
      MulLe(-125, x, y);
    } else {
      MulLe(x, 125, -y);
      MulLe(-125, x, -y);
      assert x * -y == -(x * y);
    }
  }

  lemma CenteredTerms(left: Matrix, right: Matrix, i: nat, j: nat)
    requires left.cols == right.rows && i < left.rows && j < right.cols
    ensures var terms := Terms(CenteredRow(left.cells[i]), CenteredCells(right), j);
            |terms| == left.cols && SmallTerms(terms)
            && forall k | 0 <= k < left.cols :: terms[k] % 251 == Terms(left.cells[i], right.cells, j)[k] % 251
  {
    var terms := Terms(CenteredRow(left.cells[i]), CenteredCells(right), j);
    assert IsRow(left.cells[i], left.cols);
    forall k | 0 <= k < left.cols
      ensures -15625 <= terms[k] <= 15625 && terms[k] % 251 == Terms(left.cells[i], right.cells, j)[k] % 251
    {
      assert IsRow(right.cells[k], right.cols);
      var x, y := CenteredRow(left.cells[i])[k], CenteredRow(right.cells[k])[j];
      CenteredTerm(x, y);
      ModMulBoth(x, y, 251);
    }
  }

  lemma {:induction false} SmallSum(terms: seq<int>)
    requires SmallTerms(terms)
    ensures -15625 * |terms| <= Sum(terms) <= 15625 * |terms|
  {
    if terms == [] {
    } else {
      SmallSum(terms[..|terms| - 1]);
    }
  }

  /** The longest inner dimension whose sums of centred products always fit in int32. */
  const EXACT_INNER: int := 137_438

  /** The terms an accumulator has taken so far, in whatever order it takes them. */
  function Kept(terms: seq<int>, keep: nat -> bool): (r: seq<int>)
    ensures |r| == |terms|
  {
    seq(|terms|, k requires 0 <= k < |terms| => if keep(k) then terms[k] else 0)
  }

  /** Whichever terms of a dot product an accumulator holds, their sum fits in int32. */
  lemma PartialSumsFit(left: Matrix, right: Matrix, i: nat, j: nat, keep: nat -> bool)
    requires left.cols == right.rows <= EXACT_INNER && i < left.rows && j < right.cols
    ensures var held := Kept(Terms(CenteredRow(left.cells[i]), CenteredCells(right), j), keep);
            |held| == left.cols && Wrap32(Sum(held)) == Sum(held)
  {
    CenteredTerms(left, right, i, j);
    SmallSum(Kept(Terms(CenteredRow(left.cells[i]), CenteredCells(right), j), keep));
  }

  /** Centred int8/int32 arithmetic computes the field product. */
  lemma MmF251IsMul(left: Matrix, right: Matrix)
    requires left.cols == right.rows <= EXACT_INNER
    ensures MmF251(left, right) == Mul(left, right)
  {
    forall i | 0 <= i < left.rows
      ensures MmF251(left, right).cells[i] == Mul(left, right).cells[i]
    {
      forall j | 0 <= j < right.cols
        ensures MmF251(left, right).cells[i][j] == Mul(left, right).cells[i][j]
      {
        MmEntry(left, right, i, j);
      }
    }
  }

  lemma MmEntry(left: Matrix, right: Matrix, i: nat, j: nat)
    requires left.cols == right.rows <= EXACT_INNER && i < left.rows && j < right.cols
    ensures Wrap32(Dot(CenteredRow(left.cells[i]), CenteredCells(right), j)) % 251
            == Dot(left.cells[i], right.cells, j) % 251
  {
    var terms := Terms(CenteredRow(left.cells[i]), CenteredCells(right), j);
    PartialSumsFit(left, right, i, j, _ => true);
    assert Kept(terms, _ => true) == terms;
    CenteredTerms(left, right, i, j);
    assert IsRow(left.cells[i], left.cols);
    SumCongruent(terms, Terms(left.cells[i], right.cells, j), 251);
  }

  /** A step function of height 15625 that stops after `width` terms. */
  function StepTerms(n: nat, width: nat): (r: seq<int>)
    ensures |r| == n
  {
    seq(n, k => if k < width then 15625 else 0)
  }

  lemma {:induction false} StepSum(n: nat, width: nat)
    ensures Sum(StepTerms(n, width)) == 15625 * if n < width then n else width
  {
    if n == 0 {
    } else {
      StepSum(n - 1, width);
      assert StepTerms(n, width)[..n - 1] == StepTerms(n - 1, width);
    }
  }

  lemma ColumnOf125(right: Matrix)
    requires right.cols == 1 && forall k | 0 <= k < right.rows :: right.cells[k] == [125]
    ensures forall k | 0 <= k < right.rows :: At(CenteredCells(right), k, 0) == 125 && At(right.cells, k, 0) == 125
  {
    forall k | 0 <= k < right.rows ensures At(CenteredCells(right), k, 0) == 125 {
      assert CenteredCells(right)[k] == CenteredRow(right.cells[k]);
    }
  }

  function WideRow(n: nat): (row: seq<int>)
    ensures IsRow(row, n)
  {
    seq(n, k => if k < EXACT_INNER + 1 then 125 else 0)
  }

  lemma WideDots(n: nat, right: Matrix)
    requires n > EXACT_INNER && right.rows == n && right.cols == 1
    requires forall k | 0 <= k < n :: right.cells[k] == [125]
    ensures CenteredRow(WideRow(n)) == WideRow(n)
    ensures Dot(WideRow(n), CenteredCells(right), 0) == Dot(WideRow(n), right.cells, 0) == 15625 * (EXACT_INNER + 1)
  {
    ColumnOf125(right);
    assert Terms(WideRow(n), right.cells, 0) == StepTerms(n, EXACT_INNER + 1);
    assert Terms(WideRow(n), CenteredCells(right), 0) == StepTerms(n, EXACT_INNER + 1);
    StepSum(n, EXACT_INNER + 1);
  }

  /** One row of 125s and one column of them, with one product more than fits. */
  lemma WideProductWraps(n: nat) returns (left: Matrix, right: Matrix)
    requires n > EXACT_INNER
    ensures left.cols == right.rows == n && MmF251(left, right) != Mul(left, right)
  {
    left, right := Mat(1, n, [WideRow(n)]), Mat(n, 1, seq(n, _ => [125]));
    WideDots(n, right);
    FirstEntries(left, right);
    WideSumWraps();
  }

  lemma FirstEntries(left: Matrix, right: Matrix)
    requires left.cols == right.rows && left.rows > 0 && right.cols > 0
    ensures var row := left.cells[0];
            && |row| == left.cols
            && |MmF251(left, right).cells[0]| == |Mul(left, right).cells[0]| == right.cols
            && MmF251(left, right).cells[0][0] == Wrap32(Dot(CenteredRow(row), CenteredCells(right), 0)) % 251
            && Mul(left, right).cells[0][0] == Dot(row, right.cells, 0) % 251
  {
    assert IsRow(left.cells[0], left.cols);
  }

  lemma WideSumWraps()
    ensures Wrap32(15625 * (EXACT_INNER + 1)) % 251 != (15625 * (EXACT_INNER + 1)) % 251
  {
  }

  /** The centred product equals the field product on all operands exactly up to that dimension. */
  lemma MmExactlyUpTo(n: nat)
    ensures (forall left: Matrix, right: Matrix | left.cols == right.rows == n ::
               MmF251(left, right) == Mul(left, right))
            <==> n <= EXACT_INNER
  {
    if n <= EXACT_INNER {
      forall left: Matrix, right: Matrix | left.cols == right.rows == n
        ensures MmF251(left, right) == Mul(left, right)
      {
        MmF251IsMul(left, right);
      }
    } else {
      var left, right := WideProductWraps(n);
    }
  }

  // -------------------------------------------------------------------- execute_item

  /** `reshape(-1).tolist()`. */
  function Flat(cells: seq<seq<int>>): seq<int> {
    if cells == [] then [] else Flat(cells[..|cells| - 1]) + cells[|cells| - 1]
  }

  lemma {:induction false} FlatSplits(cells: seq<seq<int>>, n: nat)
    requires forall i | 0 <= i < |cells| :: IsRow(cells[i], n)
    ensures |Flat(cells)| == |cells| * n && IsRow(Flat(cells), |Flat(cells)|)
    ensures Split(Flat(cells), n, |cells|) == cells
  {
    if cells == [] {
    } else {
      var k := |cells| - 1;
      FlatSplits(cells[..k], n);
      CellBounds(k, n, |cells|);
      var head, all := Flat(cells[..k]), Flat(cells);
      forall i | 0 <= i < |cells| ensures SplitRow(all, n, |cells|, i) == cells[i] {
        CellBounds(i, n, |cells|);
        if i < k {
          CellBounds(i, n, k);
          assert Split(head, n, k)[i] == cells[i];
          assert all[i * n..i * n + n] == head[i * n..i * n + n];
        }
      }
    }
  }

  /** `encoded_matrix`. */
  function EncodedMatrix(m: Matrix): (e: F251Matrix)
    requires 0 < m.rows <= U32_MAX && 0 < m.cols <= U32_MAX
    ensures Encodes(e, m)
  {
    FlatSplits(m.cells, m.cols);
    F251Matrix(m.rows, m.cols, Flat(m.cells))
  }

  datatype ItemError = WrongOperation | BadMatrix | WrongShape | ZeroTile | TileDoesNotDivide | NoiseExhausted
  datatype ItemResult =
    | Executed(transcript: seq<F251Matrix>, decoded: F251Matrix)
    | Rejected(reason: ItemError)

  const NOISE_RANK: u32 := 128

  predicate SquareOf(m: F251Matrix, n: u32) {
    m.rows == n && m.columns == n
  }

  /** Exactly the inputs `execute_item` goes on with. */
  ghost predicate ItemAccepted(operationId: seq<u8>, left: F251Matrix, right: F251Matrix, publicId: seq<u8>, n: u32,
                               tile: u32)
  {
    && operationId == publicId && WellFormed(left) && WellFormed(right)
    && left.rows == left.columns == right.rows == right.columns == n && tile > 0 && n % tile == 0
  }

  /** The first thing wrong with an item. */
  ghost function ItemRefusal(operationId: seq<u8>, left: F251Matrix, right: F251Matrix, publicId: seq<u8>, n: u32,
                             tile: u32): ItemError
  {
    if operationId != publicId then WrongOperation
    else if !WellFormed(left) || !WellFormed(right) then BadMatrix
    else if !(left.rows == left.columns == right.rows == right.columns == n) then WrongShape
    else if tile == 0 then ZeroTile
    else TileDoesNotDivide
  }

  /** The item was run on this noise, which is the first of full rank its streams give. */
  ghost predicate RunsOn(r: ItemResult, xof: Xof, key: NoiseKey, left: F251Matrix, right: F251Matrix, tile: u32,
                         noise: CuPowNoise)
  {
    && r.Executed? && FirstFullRank(xof, key, left.rows, 128, noise)
    && (left.rows <= EXACT_INNER ==> MatchesEngine(r.transcript, r.decoded, left, right, noise, tile))
  }

  ghost predicate RightAnswer(r: ItemResult, xof: Xof, key: NoiseKey, left: F251Matrix, right: F251Matrix, tile: u32) {
    match r
    case Executed(_, _) => exists noise :: RunsOn(r, xof, key, left, right, tile, noise)
    case Rejected(reason) => reason == NoiseExhausted && NoneBelow(xof, key, left.rows, 128, 65536)
  }

  /** `execute_item`, for one item and its public description. */
  method ExecuteItem(operationId: seq<u8>, left: F251Matrix, right: F251Matrix, publicId: seq<u8>, n: u32,
                     xof: Xof, seed: Types.Hash32, workload: Types.Hash32, tile: u32)
    returns (r: ItemResult)
    requires RichXof(xof)
    ensures !ItemAccepted(operationId, left, right, publicId, n, tile) ==>
              r == Rejected(ItemRefusal(operationId, left, right, publicId, n, tile))
    ensures ItemAccepted(operationId, left, right, publicId, n, tile) && |operationId| <= U64_MAX ==>
              RightAnswer(r, xof, NoiseKey(seed, workload, operationId), left, right, tile)
  {
    if operationId != publicId { return Rejected(WrongOperation); }
    if !WellFormed(left) || !WellFormed(right) { return Rejected(BadMatrix); }
    if !SquareOf(left, n) || !SquareOf(right, n) { return Rejected(WrongShape); }
    if tile == 0 { return Rejected(ZeroTile); }
    if n % tile != 0 { return Rejected(TileDoesNotDivide); }
    var noise := Noise(xof, NoiseKey(seed, workload, operationId), n, NOISE_RANK);
    if noise.Err? { return Rejected(NoiseExhausted); }
    var transcript, decoded := RunItem(left, right, noise.value, tile);
    r := Executed(transcript, decoded);
    if |operationId| <= U64_MAX {
      assert RunsOn(r, xof, NoiseKey(seed, workload, operationId), left, right, tile, noise.value);
    }
  }

  /** The transcript and output the Rust engine promises on the same noise and tile. */
  ghost predicate MatchesEngine(transcript: seq<F251Matrix>, decoded: F251Matrix,
                                left: F251Matrix, right: F251Matrix, noise: CuPowNoise, tile: u32)
  {
    && WellFormed(left) && WellFormed(right) && NoiseWellFormed(noise) && Accepts(left, right, noise, tile)
    && Transcribes(transcript, Noisy(left, noise.eLeft, noise.eRight), Noisy(right, noise.fLeft, noise.fRight), tile)
    && Encodes(decoded, Mul(View(left), View(right)))
  }

  /** Every inner dimension of the item's products is one the tensors compute exactly. */
  predicate ExactSizes(left: F251Matrix, noise: CuPowNoise) {
    left.rows <= EXACT_INNER && noise.eLeft.columns <= EXACT_INNER && noise.fLeft.columns <= EXACT_INNER
  }

  method RunItem(left: F251Matrix, right: F251Matrix, noise: CuPowNoise, tile: u32)
    returns (transcript: seq<F251Matrix>, decoded: F251Matrix)
    requires WellFormed(left) && WellFormed(right) && NoiseWellFormed(noise) && Accepts(left, right, noise, tile)
    ensures ExactSizes(left, noise) ==> MatchesEngine(transcript, decoded, left, right, noise, tile)
  {
    var a, b, el, er := View(left), View(right), View(noise.eLeft), View(noise.eRight);
    var fl, fr := View(noise.fLeft), View(noise.fRight);
    var noisyLeft, noisyRight := Add(a, MmF251(el, er)), Add(b, MmF251(fl, fr));
    var partial;
    transcript, partial := AccumulateStripes(noisyLeft, noisyRight, tile);
    var aF := MmF251(MmF251(a, fl), fr);
    var eB := MmF251(el, MmF251(er, Add(b, MmF251(fl, fr))));
    decoded := EncodedMatrix(Sub(partial, Add(aF, eB)));
    if ExactSizes(left, noise) {
      TileAtMost(left.rows, tile);
      ExactDecode(a, b, el, er, fl, fr);
    }
  }

  lemma TileAtMost(n: int, tile: int)
    requires n > 0 && tile > 0 && n % tile == 0
    ensures tile <= n
  {
    if n < tile { ModSmall(n, tile); }
  }

  /** Within the exact sizes the tensor products of an item are the field products, and decode. */
  lemma ExactDecode(a: Matrix, b: Matrix, el: Matrix, er: Matrix, fl: Matrix, fr: Matrix)
    requires a.rows == a.cols == b.rows == b.cols <= EXACT_INNER
    requires el.rows == a.rows && el.cols == er.rows <= EXACT_INNER && er.cols == a.rows
    requires fl.rows == a.rows && fl.cols == fr.rows <= EXACT_INNER && fr.cols == a.rows
    ensures MmF251(el, er) == Mul(el, er) && MmF251(fl, fr) == Mul(fl, fr)
    ensures var noisyLeft, noisyRight := Add(a, Mul(el, er)), Add(b, Mul(fl, fr));
            Sub(Mul(noisyLeft, noisyRight), Add(MmF251(MmF251(a, fl), fr), MmF251(el, MmF251(er, noisyRight))))
            == Mul(a, b)
  {
    var noisyRight := Add(b, Mul(fl, fr));
    MmF251IsMul(el, er);
    MmF251IsMul(fl, fr);
    MmF251IsMul(a, fl);
    MmF251IsMul(Mul(a, fl), fr);
    MmF251IsMul(er, noisyRight);
    MmF251IsMul(el, Mul(er, noisyRight));
    DecodeRecoversProduct(a, b, el, er, fl, fr);
  }

  function AddCentredStripe(partial: Matrix, noisyLeft: Matrix, noisyRight: Matrix, start: nat, width: nat): Matrix
    requires noisyLeft.cols == noisyRight.rows && start + width <= noisyLeft.cols
    requires partial.rows == noisyLeft.rows && partial.cols == noisyRight.cols
  {
    Add(partial, MmF251(Columns(noisyLeft, start, start + width), Rows(noisyRight, start, start + width)))
  }

  lemma PartialGrows(noisyLeft: Matrix, noisyRight: Matrix, start: nat, width: nat)
    requires noisyLeft.cols == noisyRight.rows && start + width <= noisyLeft.cols && width <= EXACT_INNER
    ensures AddCentredStripe(Stripe(noisyLeft, noisyRight, 0, start), noisyLeft, noisyRight, start, width)
            == Stripe(noisyLeft, noisyRight, 0, start + width)
  {
    MmF251IsMul(Columns(noisyLeft, start, start + width), Rows(noisyRight, start, start + width));
    StripesJoin(noisyLeft, noisyRight, 0, start, start + width);
  }

  /** The loop's promise, as long as stripes of this width are computed exactly. */
  ghost predicate Accumulated(transcript: seq<F251Matrix>, partial: Matrix, noisyLeft: Matrix, noisyRight: Matrix,
                              width: nat, start: nat)
    requires noisyLeft.cols == noisyRight.rows
  {
    width <= EXACT_INNER ==>
      start <= noisyLeft.cols && partial == Stripe(noisyLeft, noisyRight, 0, start)
      && forall k | 0 <= k < |transcript| :: TranscribesEntry(transcript[k], noisyLeft, noisyRight, width, k)
  }

  method AccumulateStripes(noisyLeft: Matrix, noisyRight: Matrix, tile: u32)
    returns (transcript: seq<F251Matrix>, partial: Matrix)
    requires noisyLeft.rows == noisyLeft.cols == noisyRight.rows == noisyRight.cols
    requires 0 < noisyLeft.rows <= U32_MAX && tile > 0 && noisyLeft.rows % tile == 0
    ensures partial.rows == partial.cols == noisyLeft.rows
    ensures tile <= EXACT_INNER ==> Transcribes(transcript, noisyLeft, noisyRight, tile)
    ensures tile <= EXACT_INNER ==> partial == Mul(noisyLeft, noisyRight)
  {
    var n: nat, width: nat := noisyLeft.rows, tile;
    partial := Zero(n, n);
    EmptyStripe(noisyLeft, noisyRight);
    transcript := [];
    var start := 0;
    while start < n
      invariant start == |transcript| * width && start <= n && partial.rows == partial.cols == n
      invariant Accumulated(transcript, partial, noisyLeft, noisyRight, width, start)
      decreases n - start
    {
      TileCount(n, width, |transcript|);
      transcript, partial := NextStripe(transcript, partial, noisyLeft, noisyRight, width, start);
      start := start + width;
    }
    CountOfTiles(n, width, |transcript|);
    FullStripe(noisyLeft, noisyRight);
  }

  /** One turn of the loop. */
  method NextStripe(transcript: seq<F251Matrix>, partial: Matrix, noisyLeft: Matrix, noisyRight: Matrix,
                    width: nat, start: nat) returns (longer: seq<F251Matrix>, sum: Matrix)
    requires noisyLeft.rows == noisyLeft.cols == noisyRight.rows == noisyRight.cols == partial.rows == partial.cols
    requires 0 < noisyLeft.rows <= U32_MAX && start + width <= noisyLeft.cols
    requires start == |transcript| * width && start + width == (|transcript| + 1) * width
    requires Accumulated(transcript, partial, noisyLeft, noisyRight, width, start)
    ensures sum.rows == sum.cols == noisyLeft.rows && |longer| == |transcript| + 1
    ensures Accumulated(longer, sum, noisyLeft, noisyRight, width, start + width)
  {
    sum := AddCentredStripe(partial, noisyLeft, noisyRight, start, width);
    var entry := EncodedMatrix(sum);
    longer := transcript + [entry];
    if width <= EXACT_INNER {
      PartialGrows(noisyLeft, noisyRight, start, width);
      assert TranscribesEntry(entry, noisyLeft, noisyRight, width, |transcript|);
    }
  }

  /** On equal noise and tile the two implementations release the same transcript and output. */
  lemma CudaMatchesRust(transcript: seq<F251Matrix>, decoded: F251Matrix, x: CuPowExecution,
                        left: F251Matrix, right: F251Matrix, noise: CuPowNoise, tile: u32)
    requires MatchesEngine(transcript, decoded, left, right, noise, tile)
    requires Executes(x, left, right, noise, tile)
    ensures transcript == x.transcript && decoded == x.decodedOutput
  {
    TranscriptDetermined(transcript, x.transcript, Noisy(left, noise.eLeft, noise.eRight),
                         Noisy(right, noise.fLeft, noise.fRight), tile);
    ViewInjective(decoded, x.decodedOutput);
  }
}
