/** `execute_cupow`: noisy striped execution, its transcript, and the low-rank decode. */
module StripedExecution {
  import opened Integers
  import opened Outcomes
  import opened CuPowErrors
  import opened NumberTheory
  import opened Matrices
  import opened FlatMatrix
  import opened CuPow

  datatype CuPowNoise = CuPowNoise(eLeft: F251Matrix, eRight: F251Matrix, fLeft: F251Matrix, fRight: F251Matrix)

  datatype CuPowExecution = CuPowExecution(
    noisyLeft: F251Matrix,
    noisyRight: F251Matrix,
    transcript: seq<F251Matrix>,
    decodedOutput: F251Matrix)

  predicate NoiseWellFormed(noise: CuPowNoise) {
    WellFormed(noise.eLeft) && WellFormed(noise.eRight) && WellFormed(noise.fLeft) && WellFormed(noise.fRight)
  }

  predicate NoiseCovered(noise: CuPowNoise) {
    Covered(noise.eLeft) && Covered(noise.eRight) && Covered(noise.fLeft) && Covered(noise.fRight)
  }

  predicate LowRankPair(l: F251Matrix, r: F251Matrix, n: int) {
    l.rows == n && l.columns == r.rows && r.columns == n
  }

  predicate OuterFits(left: F251Matrix, right: F251Matrix, tile: u32) {
    left.rows == left.columns == right.rows == right.columns && tile != 0 && left.rows % tile == 0
  }

  predicate ShapesFit(left: F251Matrix, right: F251Matrix, noise: CuPowNoise, tile: u32) {
    && OuterFits(left, right, tile) && left.rows > 0
    && LowRankPair(noise.eLeft, noise.eRight, left.rows) && LowRankPair(noise.fLeft, noise.fRight, left.rows)
  }

  /** Exactly the inputs the source accepts. */
  predicate Accepts(left: F251Matrix, right: F251Matrix, noise: CuPowNoise, tile: u32) {
    && ShapesFit(left, right, noise, tile) && Covered(left) && Covered(right)
    && noise.eLeft.columns > 0 && noise.fLeft.columns > 0
  }

  /** The first thing wrong: a mismatch of dimensions is an operation error; a product without cells, an operand
      short of bytes, or a factor of rank zero is a shape error. */
  ghost function Refusal(left: F251Matrix, right: F251Matrix, noise: CuPowNoise, tile: u32): CuPowError {
    if !OuterFits(left, right, tile) then MatrixOperation
    else if noise.eLeft.columns != noise.eRight.rows then MatrixOperation
    else if EmptyProduct(noise.eLeft, noise.eRight) then MatrixShape
    else if noise.fLeft.columns != noise.fRight.rows then MatrixOperation
    else if EmptyProduct(noise.fLeft, noise.fRight) then MatrixShape
    else if !LowRankPair(noise.eLeft, noise.eRight, left.rows) then MatrixOperation
    else if !Covered(left) then MatrixShape
    else if !LowRankPair(noise.fLeft, noise.fRight, left.rows) then MatrixOperation
    else MatrixShape
  }

  ghost function Noisy(plain: F251Matrix, l: F251Matrix, r: F251Matrix): Matrix
    requires Covered(plain) && Covered(l) && Covered(r)
    requires plain.rows == plain.columns && LowRankPair(l, r, plain.rows)
  {
    Add(View(plain), Mul(View(l), View(r)))
  }

  /** What an execution promises: noisy operands, one cumulative stripe product per tile,
      and a decoded output that is the product of the plain operands. */
  ghost predicate Executes(x: CuPowExecution, left: F251Matrix, right: F251Matrix, noise: CuPowNoise, tile: u32)
    requires Covered(left) && Covered(right) && NoiseCovered(noise) && Accepts(left, right, noise, tile)
  {
    var a, b := Noisy(left, noise.eLeft, noise.eRight), Noisy(right, noise.fLeft, noise.fRight);
    && Encodes(x.noisyLeft, a) && Encodes(x.noisyRight, b)
    && Transcribes(x.transcript, a, b, tile)
    && Encodes(x.decodedOutput, Mul(View(left), View(right)))
  }

  /** One entry per tile, entry k multiplying the first (k+1)·tile columns and rows. */
  ghost predicate Transcribes(transcript: seq<F251Matrix>, a: Matrix, b: Matrix, tile: nat)
    requires tile > 0 && a.rows == a.cols == b.rows == b.cols
  {
    |transcript| == a.cols / tile
    && forall k | 0 <= k < |transcript| :: TranscribesEntry(transcript[k], a, b, tile, k)
  }

  ghost predicate TranscribesEntry(entry: F251Matrix, a: Matrix, b: Matrix, tile: nat, k: nat)
    requires a.cols == b.rows
  {
    (k + 1) * tile <= a.cols && Encodes(entry, Stripe(a, b, 0, (k + 1) * tile))
  }

  lemma TileCount(n: nat, tile: nat, k: nat)
    requires tile > 0 && n % tile == 0
    ensures (n / tile) * tile == n
    ensures k < n / tile <==> k * tile < n
    ensures k < n / tile ==> (k + 1) * tile == k * tile + tile <= n
  {
  }

  method ZeroMatrix(n: u32) returns (zero: F251Matrix)
    requires n > 0
    ensures Encodes(zero, Zero(n, n))
  {
    CellBounds(0, n, n);
    zero := F251Matrix(n, n, seq(n * n, _ => 0));
    ghost var view := View(zero);
    forall i | 0 <= i < n ensures view.cells[i] == ZeroRow(n) {
      CellBounds(i, n, n);
    }
    assert view.cells == Zero(n, n).cells;
  }

  /** One turn of the accumulation loop. */
  method AddStripe(partial: F251Matrix, noisyLeft: F251Matrix, noisyRight: F251Matrix, start: nat, width: nat)
    returns (sum: F251Matrix)
    requires WellFormed(noisyLeft) && WellFormed(noisyRight)
    requires noisyLeft.rows == noisyLeft.columns == noisyRight.rows == noisyRight.columns
    requires start + width <= noisyLeft.rows
    requires Encodes(partial, Stripe(View(noisyLeft), View(noisyRight), 0, start))
    ensures Encodes(sum, Stripe(View(noisyLeft), View(noisyRight), 0, start + width))
  {
    var stripe := StripeProduct(noisyLeft, noisyRight, start, width);
    AddF251Exactly(partial, stripe.value);
    StripesJoin(View(noisyLeft), View(noisyRight), 0, start, start + width);
    sum := AddF251(partial, stripe.value).value;
  }

  /** The striped accumulation over the tiles. */
  method Accumulate(noisyLeft: F251Matrix, noisyRight: F251Matrix, tile: u32)
    returns (transcript: seq<F251Matrix>)
    requires WellFormed(noisyLeft) && WellFormed(noisyRight) && tile > 0
    requires noisyLeft.rows == noisyLeft.columns == noisyRight.rows == noisyRight.columns
    requires noisyLeft.rows % tile == 0
    ensures Transcribes(transcript, View(noisyLeft), View(noisyRight), tile)
    ensures transcript != []
    ensures Encodes(transcript[|transcript| - 1], Mul(View(noisyLeft), View(noisyRight)))
  {
    var n: nat, width: nat := noisyLeft.rows, tile;
    ghost var a, b := View(noisyLeft), View(noisyRight);
    var partial := ZeroMatrix(n);
    EmptyStripe(a, b);
    transcript := [];
    var start := 0;
    while start < n
      invariant start == |transcript| * width && start <= n
      invariant Encodes(partial, Stripe(a, b, 0, start))
      invariant transcript != [] ==> partial == transcript[|transcript| - 1]
      invariant forall k | 0 <= k < |transcript| :: TranscribesEntry(transcript[k], a, b, width, k)
      decreases n - start
    {
      TileCount(n, width, |transcript|);
      partial := AddStripe(partial, noisyLeft, noisyRight, start, width);
      assert TranscribesEntry(partial, a, b, width, |transcript|);
      transcript := transcript + [partial];
      start := start + width;
    }
    TileCount(n, width, |transcript|);
    FullStripe(a, b);
    CountOfTiles(n, width, |transcript|);
  }

  lemma CountOfTiles(n: nat, tile: nat, count: nat)
    requires tile > 0 && n % tile == 0 && count * tile == n && n > 0
    ensures count == n / tile && count > 0
  {
  }

  /** `add` of an operand and its noise, which has exactly its cells. */
  method AddNoise(plain: F251Matrix, noise: F251Matrix) returns (r: Result<F251Matrix>)
    requires WellFormed(noise)
    ensures plain.rows != noise.rows || plain.columns != noise.columns ==> r == Err(MatrixOperation)
    ensures plain.rows == noise.rows && plain.columns == noise.columns && !Covered(plain) ==> r == Err(MatrixShape)
    ensures plain.rows == noise.rows && plain.columns == noise.columns && Covered(plain) ==>
              r.Ok? && Encodes(r.value, Add(View(plain), View(noise)))
  {
    r := AddF251(plain, noise);
    if plain.rows == noise.rows && plain.columns == noise.columns {
      AddF251Exactly(plain, noise);
    }
  }

  /** The factors have the bytes that the two products come to index. */
  predicate Indexable(noise: CuPowNoise) {
    && Multipliable(noise.eLeft, noise.eRight)
    && (noise.eLeft.columns == noise.eRight.rows && !EmptyProduct(noise.eLeft, noise.eRight) ==>
          Multipliable(noise.fLeft, noise.fRight))
  }

  /** `execute_cupow`, on any operands, and on any factors it does not index out of their bytes. */
  method ExecuteCupow(left: F251Matrix, right: F251Matrix, noise: CuPowNoise, tile: u32)
    returns (r: Result<CuPowExecution>)
    requires OuterFits(left, right, tile) ==> Indexable(noise)
    ensures !Accepts(left, right, noise, tile) ==> r == Err(Refusal(left, right, noise, tile))
    ensures Accepts(left, right, noise, tile) ==> r.Ok? && Executes(r.value, left, right, noise, tile)
  {
    if left.rows != left.columns || right.rows != right.columns || left.rows != right.rows
       || tile == 0 || left.rows % tile != 0 {
      return Err(MatrixOperation);
    }
    var e := MatmulF251(noise.eLeft, noise.eRight);
    if e.Err? { return Err(e.error); }
    var f := MatmulF251(noise.fLeft, noise.fRight);
    if f.Err? { return Err(f.error); }
    var noisyLeft := AddNoise(left, e.value);
    if noisyLeft.Err? { return Err(noisyLeft.error); }
    var noisyRight := AddNoise(right, f.value);
    if noisyRight.Err? { return Err(noisyRight.error); }
    var transcript := Accumulate(noisyLeft.value, noisyRight.value, tile);
    var decoded := Decode(left, right, noise, f.value, noisyLeft.value, noisyRight.value, transcript[|transcript| - 1]);
    if decoded.Err? { return Err(decoded.error); }
    r := Ok(CuPowExecution(noisyLeft.value, noisyRight.value, transcript, decoded.value));
  }

  /** The product of n-by-n operands through a factor pair; rank zero is a shape error. */
  method ThroughRight(left: F251Matrix, l: F251Matrix, r: F251Matrix) returns (p: Result<F251Matrix>)
    requires Covered(left) && Covered(l) && Covered(r) && left.rows == left.columns > 0 && LowRankPair(l, r, left.rows)
    ensures l.columns == 0 ==> p == Err(MatrixShape)
    ensures l.columns > 0 ==> p.Ok? && Encodes(p.value, Mul(Mul(View(left), View(l)), View(r)))
  {
    var narrow := MatmulF251(left, l);
    if narrow.Err? { return narrow; }
    p := MatmulF251(narrow.value, r);
  }

  method ThroughLeft(l: F251Matrix, r: F251Matrix, right: F251Matrix) returns (p: Result<F251Matrix>)
    requires Covered(right) && Covered(l) && Covered(r)
    requires right.rows == right.columns > 0 && LowRankPair(l, r, right.rows)
    ensures l.columns == 0 ==> p == Err(MatrixShape)
    ensures l.columns > 0 ==> p.Ok? && Encodes(p.value, Mul(View(l), Mul(View(r), View(right))))
  {
    var flat := MatmulF251(r, right);
    if flat.Err? { return flat; }
    p := MatmulF251(l, flat.value);
  }

  /** Subtracts A·F and E·(B+F), both evaluated through the low-rank factors. */
  method Decode(left: F251Matrix, right: F251Matrix, noise: CuPowNoise, f: F251Matrix,
                ghost noisyLeft: F251Matrix, ghost noisyRight: F251Matrix, last: F251Matrix)
    returns (decoded: Result<F251Matrix>)
    requires Covered(left) && Covered(right) && NoiseCovered(noise) && left.rows > 0
    requires left.rows == left.columns == right.rows == right.columns
    requires LowRankPair(noise.eLeft, noise.eRight, left.rows) && LowRankPair(noise.fLeft, noise.fRight, left.rows)
    requires Encodes(f, Mul(View(noise.fLeft), View(noise.fRight)))
    requires Encodes(noisyLeft, Noisy(left, noise.eLeft, noise.eRight))
    requires Encodes(noisyRight, Noisy(right, noise.fLeft, noise.fRight))
    requires Encodes(last, Mul(View(noisyLeft), View(noisyRight)))
    ensures noise.eLeft.columns == 0 || noise.fLeft.columns == 0 ==> decoded == Err(MatrixShape)
    ensures noise.eLeft.columns > 0 && noise.fLeft.columns > 0 ==>
              decoded.Ok? && Encodes(decoded.value, Mul(View(left), View(right)))
  {
    var aF := ThroughRight(left, noise.fLeft, noise.fRight);
    if aF.Err? { return aF; }
    AddF251Exactly(right, f);
    var bPlusF := AddF251(right, f);
    var eB := ThroughLeft(noise.eLeft, noise.eRight, bPlusF.value);
    if eB.Err? { return eB; }
    decoded := Corrected(last, aF.value, eB.value);
    DecodeRecoversProduct(View(left), View(right), View(noise.eLeft), View(noise.eRight),
                          View(noise.fLeft), View(noise.fRight));
  }

  method Corrected(last: F251Matrix, aF: F251Matrix, eB: F251Matrix) returns (decoded: Result<F251Matrix>)
    requires WellFormed(last) && WellFormed(aF) && WellFormed(eB)
    requires last.rows == aF.rows == eB.rows && last.columns == aF.columns == eB.columns
    ensures decoded.Ok? && Encodes(decoded.value, Sub(View(last), Add(View(aF), View(eB))))
  {
    AddF251Exactly(aF, eB);
    var correction := AddF251(aF, eB);
    SubtractF251Meaning(last, correction.value);
    decoded := SubtractF251(last, correction.value);
  }

  // ------------------------------------------------------- what the promise settles

  /** The promise leaves no freedom: any two executions of the same inputs are equal, and the
      decoded output is the encoding that `matmul_f251` returns. */
  lemma ExecutionDetermined(x: CuPowExecution, y: CuPowExecution, left: F251Matrix, right: F251Matrix,
                            noise: CuPowNoise, tile: u32)
    requires Covered(left) && Covered(right) && NoiseCovered(noise) && Accepts(left, right, noise, tile)
    requires Executes(x, left, right, noise, tile) && Executes(y, left, right, noise, tile)
    ensures x == y
  {
    ViewInjective(x.noisyLeft, y.noisyLeft);
    ViewInjective(x.noisyRight, y.noisyRight);
    ViewInjective(x.decodedOutput, y.decodedOutput);
    var a, b := Noisy(left, noise.eLeft, noise.eRight), Noisy(right, noise.fLeft, noise.fRight);
    TranscriptDetermined(x.transcript, y.transcript, a, b, tile);
  }

  lemma TranscriptDetermined(x: seq<F251Matrix>, y: seq<F251Matrix>, a: Matrix, b: Matrix, tile: nat)
    requires tile > 0 && a.rows == a.cols == b.rows == b.cols
    requires Transcribes(x, a, b, tile) && Transcribes(y, a, b, tile)
    ensures x == y
  {
    forall k | 0 <= k < |x| ensures x[k] == y[k] {
      assert TranscribesEntry(x[k], a, b, tile, k) && TranscribesEntry(y[k], a, b, tile, k);
      ViewInjective(x[k], y[k]);
    }
  }

  lemma LastEntryIsProduct(transcript: seq<F251Matrix>, a: Matrix, b: Matrix, tile: nat)
    requires tile > 0 && a.rows == a.cols == b.rows == b.cols && a.cols % tile == 0 && a.cols > 0
    requires Transcribes(transcript, a, b, tile)
    ensures transcript != [] && Encodes(transcript[|transcript| - 1], Mul(a, b))
  {
    TileCount(a.cols, tile, 0);
    var k := |transcript| - 1;
    assert TranscribesEntry(transcript[k], a, b, tile, k);
    FullStripe(a, b);
  }

  /** A tile m times as wide keeps exactly every m-th transcript entry. */
  lemma CoarserTranscript(fine: seq<F251Matrix>, coarse: seq<F251Matrix>, a: Matrix, b: Matrix, tile: nat, m: nat)
    requires tile > 0 && m > 0 && tile * m > 0 && a.rows == a.cols == b.rows == b.cols
    requires a.cols % (tile * m) == 0
    requires Transcribes(fine, a, b, tile) && Transcribes(coarse, a, b, tile * m)
    ensures |fine| == |coarse| * m
    ensures forall k | 0 <= k < |coarse| :: 0 <= (k + 1) * m - 1 < |fine| && coarse[k] == fine[(k + 1) * m - 1]
  {
    CoarseCount(a.cols, tile, m);
    forall k | 0 <= k < |coarse|
      ensures 0 <= (k + 1) * m - 1 < |fine| && coarse[k] == fine[(k + 1) * m - 1]
    {
      CoarserEntry(fine, coarse, a, b, tile, m, k);
    }
  }

  lemma CoarserEntry(fine: seq<F251Matrix>, coarse: seq<F251Matrix>, a: Matrix, b: Matrix, tile: nat, m: nat, k: nat)
    requires tile > 0 && m > 0 && tile * m > 0 && a.rows == a.cols == b.rows == b.cols && k < |coarse|
    requires |fine| == |coarse| * m
    requires Transcribes(fine, a, b, tile) && Transcribes(coarse, a, b, tile * m)
    ensures 0 <= (k + 1) * m - 1 < |fine| && coarse[k] == fine[(k + 1) * m - 1]
  {
    CellBounds(k, m, |coarse|);
    MulAtLeast(k + 1, m);
    SameEntry(fine[(k + 1) * m - 1], coarse[k], a, b, tile, m, k);
  }

  lemma CoarseCount(n: nat, tile: nat, m: nat)
    requires tile > 0 && m > 0 && tile * m > 0 && n % (tile * m) == 0
    ensures n / tile == (n / (tile * m)) * m
  {
    var q := n / (tile * m);
    assert n == (q * m) * tile by {
      assert q * (tile * m) == (q * m) * tile;
    }
    DivModUnique(n, q * m, 0, tile);
  }

  lemma SameColumns(k: int, m: int, tile: int)
    ensures (k * m - 1 + 1) * tile == k * (tile * m)
  {
  }

  lemma SameEntry(fine: F251Matrix, coarse: F251Matrix, a: Matrix, b: Matrix, tile: nat, m: nat, k: nat)
    requires a.cols == b.rows && (k + 1) * m >= 1 && tile * m >= 0
    requires TranscribesEntry(fine, a, b, tile, (k + 1) * m - 1)
    requires TranscribesEntry(coarse, a, b, tile * m, k)
    ensures fine == coarse
  {
    SameColumns(k + 1, m, tile);
    ViewInjective(coarse, fine);
  }
}
