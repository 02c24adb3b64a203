/** Noise factors drawn from an XOF by rejection sampling, as the Rust crate does it. */
module NoiseDraw {
  import opened Integers
  import opened Outcomes
  import opened CuPowErrors
  import opened NumberTheory
  import opened Bytes
  import opened Selections
  import Types
  import opened Matrices
  import opened Elimination
  import opened RankTheorems
  import opened FlatMatrix
  import opened CuPow
  import opened StripedExecution

  type Stream = nat -> u8

  /** The extendable-output function: the stream of each input. */
  type Xof = seq<u8> -> Stream

  function Prefix(stream: Stream, k: nat): seq<u8> {
    seq(k, i requires 0 <= i => stream(i))
  }

  /** The bytes that are residues, in order. */
  function Filter(bytes: seq<u8>): (r: seq<u8>)
    ensures |r| <= |bytes| && forall k | 0 <= k < |r| :: 0 <= r[k] < 251
  {
    if bytes == [] then []
    else
      var last := bytes[|bytes| - 1];
      Filter(bytes[..|bytes| - 1]) + if last < 251 then [last] else []
  }

  function Residues(stream: Stream, k: nat): (r: seq<u8>)
    ensures forall i | 0 <= i < |r| :: 0 <= r[i] < 251
  {
    Filter(Prefix(stream, k))
  }

  lemma ResiduesStep(stream: Stream, k: nat)
    ensures Residues(stream, k + 1) == Residues(stream, k) + if stream(k) < 251 then [stream(k)] else []
  {
    assert Prefix(stream, k + 1)[..k] == Prefix(stream, k);
  }

  lemma {:induction false} ResiduesGrow(stream: Stream, k: nat, l: nat)
    requires k <= l
    ensures Residues(stream, k) <= Residues(stream, l)
  {
    if k == l {
    } else {
      ResiduesGrow(stream, k, l - 1);
      ResiduesStep(stream, l - 1);
    }
  }

  ghost predicate Enough(stream: Stream, length: nat) {
    exists k: nat :: length <= |Residues(stream, k)|
  }

  /** The first `length` residues of the stream. */
  ghost function Draw(stream: Stream, length: nat): (r: seq<u8>)
    requires Enough(stream, length)
    ensures IsRow(r, length)
  {
    var k: nat :| length <= |Residues(stream, k)|;
    Residues(stream, k)[..length]
  }

  /** Whatever prefix is filtered, once it yields enough residues the first ones are the draw. */
  lemma AnyBatchDraws(stream: Stream, length: nat, k: nat)
    requires length <= |Residues(stream, k)|
    ensures Enough(stream, length) && Residues(stream, k)[..length] == Draw(stream, length)
  {
    var l: nat :| length <= |Residues(stream, l)| && Draw(stream, length) == Residues(stream, l)[..length];
    if k <= l { ResiduesGrow(stream, k, l); } else { ResiduesGrow(stream, l, k); }
  }

  ghost function DrawMatrix(stream: Stream, rows: u32, columns: u32): (m: F251Matrix)
    requires rows > 0 && columns > 0 && rows * columns >= 0 && Enough(stream, rows * columns)
    ensures WellFormed(m) && m.rows == rows && m.columns == columns
  {
    F251Matrix(rows, columns, Draw(stream, rows * columns))
  }

  /** `derive_matrix`: one byte at a time, keeping residues. */
  method DeriveMatrix(stream: Stream, rows: u32, columns: u32) returns (r: Result<F251Matrix>)
    requires rows * columns >= 0 && Enough(stream, rows * columns)
    ensures rows == 0 || columns == 0 ==> r == Err(MatrixShape)
    ensures rows > 0 && columns > 0 ==> r == Ok(DrawMatrix(stream, rows, columns))
  {
    var length: nat := rows * columns;
    ghost var enough: nat :| length <= |Residues(stream, enough)|;
    var values: seq<u8> := [];
    var position: nat := 0;
    assert Prefix(stream, 0) == [];
    while |values| < length
      invariant values == Residues(stream, position) && |values| <= length
      decreases enough - position
    {
      if enough <= position {
        ResiduesGrow(stream, enough, position);
        assert false;
      }
      var byte := stream(position);
      ResiduesStep(stream, position);
      if byte < 251 {
        values := values + [byte];
      }
      position := position + 1;
    }
    AnyBatchDraws(stream, length, position);
    assert values[..length] == values;
    r := New(rows, columns, values);
  }

  // --------------------------------------------------------- which residues a draw takes

  ghost function IsResidue(): u8 -> bool {
    (byte: u8) => byte < 251
  }

  /** These values are, in order, the bytes below 251 among the first k of the stream. */
  ghost predicate ResiduesAmong(stream: Stream, k: nat, values: seq<u8>) {
    Kept(Prefix(stream, k), IsResidue(), values)
  }

  lemma {:induction false} ResiduesAre(stream: Stream, k: nat)
    ensures ResiduesAmong(stream, k, Residues(stream, k))
  {
    if k == 0 {
      KeptNone<u8>(IsResidue());
      assert Prefix(stream, 0) == [];
    } else {
      ResiduesAre(stream, k - 1);
      ResiduesStep(stream, k - 1);
      KeptNext(Prefix(stream, k - 1), stream(k - 1), IsResidue(), Residues(stream, k - 1));
      assert Prefix(stream, k) == Prefix(stream, k - 1) + [stream(k - 1)];
    }
  }

  /** Among the first bytes of a stream there is one where exactly `length` residues have gone by. */
  lemma {:induction false} ExactPrefix(stream: Stream, length: nat, l: nat) returns (k: nat)
    requires length <= |Residues(stream, l)|
    ensures |Residues(stream, k)| == length
  {
    if |Residues(stream, l)| == length {
      k := l;
    } else {
      assert l > 0;
      ResiduesStep(stream, l - 1);
      k := ExactPrefix(stream, length, l - 1);
    }
  }

  /** The draw is what the first so many bytes of the stream leave below 251, and nothing else is. */
  lemma DrawExactly(stream: Stream, length: nat, values: seq<u8>)
    requires Enough(stream, length)
    ensures values == Draw(stream, length) <==> |values| == length && IsResidueStart(stream, values)
  {
    if values == Draw(stream, length) {
      var l: nat :| length <= |Residues(stream, l)|;
      var k := ExactPrefix(stream, length, l);
      AnyBatchDraws(stream, length, k);
      ResiduesAre(stream, k);
      assert Residues(stream, k)[..length] == Residues(stream, k);
      assert ResiduesAmong(stream, k, values);
    }
    if |values| == length && IsResidueStart(stream, values) {
      var k: nat :| ResiduesAmong(stream, k, values);
      ResiduesAre(stream, k);
      KeptUnique(Prefix(stream, k), IsResidue(), values, Residues(stream, k));
      AnyBatchDraws(stream, length, k);
      assert Residues(stream, k)[..length] == values;
    }
  }

  ghost predicate IsResidueStart(stream: Stream, values: seq<u8>) {
    exists k: nat :: ResiduesAmong(stream, k, values)
  }

  // ------------------------------------------------------------------ the XOF's input

  /** The bytes of an operation id stand for the id. */
  datatype NoiseKey = NoiseKey(seed: Types.Hash32, workload: Types.Hash32, operationId: seq<u8>)

  const NOISE_DOMAIN := Ascii("pocomp/cupow/noise/f251/v1")

  /** What `derive_matrix` absorbs. */
  function Input(key: NoiseKey, lbl: string, retry: nat): seq<u8> {
    NOISE_DOMAIN + key.seed + key.workload + BigEndian(|key.operationId|, 8) + key.operationId
    + BigEndian(|lbl|, 8) + Ascii(lbl) + BigEndian(retry, 4)
  }

  /** The input, part by part: seed, workload, operation id, label and retry, the variable parts after their lengths. */
  ghost predicate Names(input: seq<u8>, key: NoiseKey, lbl: string, retry: nat) {
    exists n, m, r :: NamedWith(input, key, lbl, retry, n, m, r)
  }

  ghost predicate NamedWith(input: seq<u8>, key: NoiseKey, lbl: string, retry: nat, n: seq<u8>, m: seq<u8>,
                            r: seq<u8>)
  {
    && |n| == 8 && Holds(n, |key.operationId|) && |m| == 8 && Holds(m, |lbl|) && |r| == 4 && Holds(r, retry)
    && input == Ascii("pocomp/cupow/noise/f251/v1")
                + (key.seed + (key.workload + (n + (key.operationId + (m + (Ascii(lbl) + r))))))
  }

  lemma InputNames(key: NoiseKey, lbl: string, retry: nat)
    ensures Names(Input(key, lbl, retry), key, lbl, retry)
  {
    var n, m, r := BigEndian(|key.operationId|, 8), BigEndian(|lbl|, 8), BigEndian(retry, 4);
    BigEndianHolds(|key.operationId|, 8);
    BigEndianHolds(|lbl|, 8);
    BigEndianHolds(retry, 4);
    assert NamedWith(Input(key, lbl, retry), key, lbl, retry, n, m, r);
  }

  /** The sizes the source's integers have. */
  ghost predicate Sized(key: NoiseKey, lbl: string, retry: nat) {
    |key.operationId| < Pow(256, 8) && |lbl| < Pow(256, 8) && retry < Pow(256, 4)
  }

  lemma NamesOnce(a: seq<u8>, b: seq<u8>, key: NoiseKey, lbl: string, retry: nat)
    requires Names(a, key, lbl, retry) && Names(b, key, lbl, retry) && Sized(key, lbl, retry)
    ensures a == b
  {
    var n, m, r :| NamedWith(a, key, lbl, retry, n, m, r);
    var n', m', r' :| NamedWith(b, key, lbl, retry, n', m', r');
    ValueInjective(n, n');
    ValueInjective(m, m');
    ValueInjective(r, r');
  }

  /** Inputs for different keys, labels or retries differ. */
  lemma InputsDiffer(input: seq<u8>, k: NoiseKey, c: string, s: nat, l: NoiseKey, d: string, t: nat)
    requires Names(input, k, c, s) && Names(input, l, d, t) && Sized(k, c, s) && Sized(l, d, t)
    requires IsAscii(c) && IsAscii(d)
    ensures k == l && c == d && s == t
  {
    var n, m, r :| NamedWith(input, k, c, s, n, m, r);
    var n', m', r' :| NamedWith(input, l, d, t, n', m', r');
    var tail, tail' := m + (Ascii(c) + r), m' + (Ascii(d) + r');
    var domain := Ascii("pocomp/cupow/noise/f251/v1");
    Cut(domain, k.seed + (k.workload + (n + (k.operationId + tail))),
        domain, l.seed + (l.workload + (n' + (l.operationId + tail'))));
    Cut(k.seed, k.workload + (n + (k.operationId + tail)), l.seed, l.workload + (n' + (l.operationId + tail')));
    Cut(k.workload, n + (k.operationId + tail), l.workload, n' + (l.operationId + tail'));
    Cut(n, k.operationId + tail, n', l.operationId + tail');
    Cut(k.operationId, tail, l.operationId, tail');
    Cut(m, Ascii(c) + r, m', Ascii(d) + r');
    Cut(Ascii(c), r, Ascii(d), r');
    AsciiInjective(c, d);
  }

  // ---------------------------------------------------------------- the retry loop

  /** Every stream the derivation reads keeps yielding residues. */
  ghost predicate RichXof(xof: Xof) {
    forall input: seq<u8>, length: nat :: Enough(xof(input), length)
  }

  ghost function Factor(xof: Xof, key: NoiseKey, lbl: string, retry: nat, rows: u32, columns: u32)
    : (m: F251Matrix)
    requires RichXof(xof) && rows > 0 && columns > 0
    ensures WellFormed(m) && m.rows == rows && m.columns == columns
  {
    CellBounds(0, columns, rows);
    DrawMatrix(xof(Input(key, lbl, retry)), rows, columns)
  }

  ghost function FactorsAt(xof: Xof, key: NoiseKey, n: u32, rank: u32, retry: nat): (noise: CuPowNoise)
    requires RichXof(xof) && n > 0 && rank > 0
    ensures NoiseWellFormed(noise)
    ensures LowRankPair(noise.eLeft, noise.eRight, n) && LowRankPair(noise.fLeft, noise.fRight, n)
  {
    CuPowNoise(Factor(xof, key, "e-left", retry, n, rank), Factor(xof, key, "e-right", retry, rank, n),
               Factor(xof, key, "f-left", retry, n, rank), Factor(xof, key, "f-right", retry, rank, n))
  }

  ghost predicate FullRank(noise: CuPowNoise, rank: nat)
    requires NoiseWellFormed(noise)
  {
    && Rank(View(noise.eLeft)) == rank && Rank(View(noise.eRight)) == rank
    && Rank(View(noise.fLeft)) == rank && Rank(View(noise.fRight)) == rank
  }

  const RETRIES: nat := 65536

  /** The retries whose four factors all have full rank. */
  ghost function Accepted(xof: Xof, key: NoiseKey, n: u32, rank: u32): nat -> bool
    requires RichXof(xof) && n > 0 && rank > 0
  {
    (retry: nat) => FullRank(FactorsAt(xof, key, n, rank, retry), rank)
  }

  /** The least index from `from` on, below `limit`, where p holds; `limit` when there is none. */
  ghost function FirstTrue(p: nat -> bool, from: nat, limit: nat): (r: nat)
    requires from <= limit
    ensures from <= r <= limit && (r < limit ==> p(r))
    ensures forall k | from <= k < r :: !p(k)
    decreases limit - from
  {
    if from == limit || p(from) then from else FirstTrue(p, from + 1, limit)
  }

  /** The factors of the first retry whose four ranks are full. */
  ghost function SelectedNoise(xof: Xof, key: NoiseKey, n: u32, rank: u32): Result<CuPowNoise>
    requires RichXof(xof) && n > 0 && rank > 0
  {
    var retry := FirstTrue(Accepted(xof, key, n, rank), 0, RETRIES);
    if retry == RETRIES then Err(NoiseDerivation) else Ok(FactorsAt(xof, key, n, rank, retry))
  }

  // --------------------------------------------------- the same, from the streams alone

  /** The matrix is filled with the first residues of the stream named by this key, label and retry. */
  ghost predicate DrawnFor(xof: Xof, key: NoiseKey, lbl: string, retry: nat, m: F251Matrix, rows: u32, columns: u32) {
    && m.rows == rows && m.columns == columns && |m.values| == rows * columns
    && exists input :: Names(input, key, lbl, retry) && IsResidueStart(xof(input), m.values)
  }

  ghost predicate NoiseAt(xof: Xof, key: NoiseKey, n: u32, rank: u32, retry: nat, noise: CuPowNoise) {
    && DrawnFor(xof, key, "e-left", retry, noise.eLeft, n, rank)
    && DrawnFor(xof, key, "e-right", retry, noise.eRight, rank, n)
    && DrawnFor(xof, key, "f-left", retry, noise.fLeft, n, rank)
    && DrawnFor(xof, key, "f-right", retry, noise.fRight, rank, n)
  }

  ghost predicate AllOfRank(noise: CuPowNoise, rank: nat) {
    NoiseWellFormed(noise) && FullRank(noise, rank)
  }

  /** No retry below the limit draws four factors of full rank. */
  ghost predicate NoneBelow(xof: Xof, key: NoiseKey, n: u32, rank: u32, limit: nat) {
    forall retry: nat, noise | retry < limit && NoiseAt(xof, key, n, rank, retry, noise) :: !AllOfRank(noise, rank)
  }

  ghost predicate FirstOfRank(xof: Xof, key: NoiseKey, n: u32, rank: u32, retry: nat, noise: CuPowNoise) {
    retry < 65536 && NoiseAt(xof, key, n, rank, retry, noise) && AllOfRank(noise, rank)
    && NoneBelow(xof, key, n, rank, retry)
  }

  /** The four factors that the first of the 65536 retries with full ranks draws from its four streams. */
  ghost predicate FirstFullRank(xof: Xof, key: NoiseKey, n: u32, rank: u32, noise: CuPowNoise) {
    exists retry: nat :: FirstOfRank(xof, key, n, rank, retry, noise)
  }

  lemma FactorDrawn(xof: Xof, key: NoiseKey, lbl: string, retry: nat, m: F251Matrix, rows: u32, columns: u32)
    requires RichXof(xof) && rows > 0 && columns > 0 && Sized(key, lbl, retry)
    ensures DrawnFor(xof, key, lbl, retry, m, rows, columns) <==> m == Factor(xof, key, lbl, retry, rows, columns)
  {
    CellBounds(0, columns, rows);
    var input := Input(key, lbl, retry);
    InputNames(key, lbl, retry);
    DrawExactly(xof(input), rows * columns, m.values);
    if DrawnFor(xof, key, lbl, retry, m, rows, columns) {
      var other :| Names(other, key, lbl, retry) && IsResidueStart(xof(other), m.values);
      NamesOnce(input, other, key, lbl, retry);
    }
  }

  lemma FactorsDrawn(xof: Xof, key: NoiseKey, n: u32, rank: u32, retry: nat, noise: CuPowNoise)
    requires RichXof(xof) && n > 0 && rank > 0 && |key.operationId| <= U64_MAX && retry < RETRIES
    ensures NoiseAt(xof, key, n, rank, retry, noise) <==> noise == FactorsAt(xof, key, n, rank, retry)
  {
    PowersOf256();
    FactorDrawn(xof, key, "e-left", retry, noise.eLeft, n, rank);
    FactorDrawn(xof, key, "e-right", retry, noise.eRight, rank, n);
    FactorDrawn(xof, key, "f-left", retry, noise.fLeft, n, rank);
    FactorDrawn(xof, key, "f-right", retry, noise.fRight, rank, n);
  }

  lemma NoneBelowIs(xof: Xof, key: NoiseKey, n: u32, rank: u32, limit: nat)
    requires RichXof(xof) && n > 0 && rank > 0 && |key.operationId| <= U64_MAX && limit <= RETRIES
    ensures NoneBelow(xof, key, n, rank, limit)
            <==> forall retry: nat | retry < limit :: !Accepted(xof, key, n, rank)(retry)
  {
    forall retry: nat, noise | retry < limit
      ensures NoiseAt(xof, key, n, rank, retry, noise) <==> noise == FactorsAt(xof, key, n, rank, retry)
    {
      FactorsDrawn(xof, key, n, rank, retry, noise);
    }
    forall retry: nat | retry < limit
      ensures Accepted(xof, key, n, rank)(retry) == FullRank(FactorsAt(xof, key, n, rank, retry), rank)
      ensures NoiseAt(xof, key, n, rank, retry, FactorsAt(xof, key, n, rank, retry))
    {
    }
  }

  lemma FullFactorsDrawn(xof: Xof, key: NoiseKey, n: u32, rank: u32, retry: nat, noise: CuPowNoise)
    requires RichXof(xof) && n > 0 && rank > 0 && |key.operationId| <= U64_MAX && retry < RETRIES
    ensures NoiseAt(xof, key, n, rank, retry, noise) && AllOfRank(noise, rank)
            <==> noise == FactorsAt(xof, key, n, rank, retry) && Accepted(xof, key, n, rank)(retry)
  {
    FactorsDrawn(xof, key, n, rank, retry, noise);
  }

  lemma FirstTrueIs(p: nat -> bool, k: nat, limit: nat)
    requires k < limit
    ensures k == FirstTrue(p, 0, limit) <==> p(k) && forall i: nat | i < k :: !p(i)
  {
  }

  lemma FirstOfRankIs(xof: Xof, key: NoiseKey, n: u32, rank: u32, retry: nat, noise: CuPowNoise)
    requires RichXof(xof) && n > 0 && rank > 0 && |key.operationId| <= U64_MAX && retry < RETRIES
    ensures FirstOfRank(xof, key, n, rank, retry, noise)
            <==> retry == FirstTrue(Accepted(xof, key, n, rank), 0, RETRIES)
                 && noise == FactorsAt(xof, key, n, rank, retry)
  {
    FullFactorsDrawn(xof, key, n, rank, retry, noise);
    NoneBelowIs(xof, key, n, rank, retry);
    FirstTrueIs(Accepted(xof, key, n, rank), retry, RETRIES);
  }

  lemma SelectionIsFirst(xof: Xof, key: NoiseKey, n: u32, rank: u32, noise: CuPowNoise)
    requires RichXof(xof) && n > 0 && rank > 0 && |key.operationId| <= U64_MAX
    requires SelectedNoise(xof, key, n, rank) == Ok(noise)
    ensures FirstFullRank(xof, key, n, rank, noise)
  {
    FirstOfRankIs(xof, key, n, rank, FirstTrue(Accepted(xof, key, n, rank), 0, RETRIES), noise);
  }

  lemma FirstIsSelected(xof: Xof, key: NoiseKey, n: u32, rank: u32, noise: CuPowNoise)
    requires RichXof(xof) && n > 0 && rank > 0 && |key.operationId| <= U64_MAX
    requires FirstFullRank(xof, key, n, rank, noise)
    ensures SelectedNoise(xof, key, n, rank) == Ok(noise)
  {
    var retry: nat :| FirstOfRank(xof, key, n, rank, retry, noise);
    FirstOfRankIs(xof, key, n, rank, retry, noise);
  }

  /** The selection, from the streams alone: it succeeds with exactly those factors. */
  lemma SelectedNoiseExactly(xof: Xof, key: NoiseKey, n: u32, rank: u32, noise: CuPowNoise)
    requires RichXof(xof) && n > 0 && rank > 0 && |key.operationId| <= U64_MAX
    ensures SelectedNoise(xof, key, n, rank) == Ok(noise) <==> FirstFullRank(xof, key, n, rank, noise)
  {
    if SelectedNoise(xof, key, n, rank) == Ok(noise) { SelectionIsFirst(xof, key, n, rank, noise); }
    if FirstFullRank(xof, key, n, rank, noise) { FirstIsSelected(xof, key, n, rank, noise); }
  }

  /** And it fails exactly when there are none. */
  lemma NoneSelectedExactly(xof: Xof, key: NoiseKey, n: u32, rank: u32)
    requires RichXof(xof) && n > 0 && rank > 0 && |key.operationId| <= U64_MAX
    ensures SelectedNoise(xof, key, n, rank) == Err(NoiseDerivation) <==> NoneBelow(xof, key, n, rank, 65536)
  {
    NoneBelowIs(xof, key, n, rank, RETRIES);
  }

  /** The answer is right for these streams. */
  ghost predicate Answers(xof: Xof, key: NoiseKey, n: u32, rank: u32, r: Result<CuPowNoise>) {
    match r
    case Ok(noise) => FirstFullRank(xof, key, n, rank, noise)
    case Err(error) => error == NoiseDerivation && NoneBelow(xof, key, n, rank, 65536)
  }

  lemma SelectionAnswers(xof: Xof, key: NoiseKey, n: u32, rank: u32)
    requires RichXof(xof) && n > 0 && rank > 0 && |key.operationId| <= U64_MAX
    ensures Answers(xof, key, n, rank, SelectedNoise(xof, key, n, rank))
  {
    match SelectedNoise(xof, key, n, rank)
    case Ok(noise) => SelectionIsFirst(xof, key, n, rank, noise);
    case Err(_) => NoneSelectedExactly(xof, key, n, rank);
  }

  /** `derive_cupow_noise`. */
  method DeriveCupowNoise(xof: Xof, key: NoiseKey, n: u32, rank: u32)
    returns (r: Result<CuPowNoise>)
    requires RichXof(xof)
    ensures key.operationId == [] || rank == 0 || rank >= n ==> r == Err(MatrixShape)
    ensures key.operationId != [] && 0 < rank < n ==> r == SelectedNoise(xof, key, n, rank)
    ensures 0 < |key.operationId| <= U64_MAX && 0 < rank < n ==> Answers(xof, key, n, rank, r)
  {
    if key.operationId == [] || rank == 0 || rank >= n {
      return Err(MatrixShape);
    }
    ghost var accepted := Accepted(xof, key, n, rank);
    if |key.operationId| <= U64_MAX { SelectionAnswers(xof, key, n, rank); }
    for retry := 0 to RETRIES
      invariant FirstTrue(accepted, retry, RETRIES) == FirstTrue(accepted, 0, RETRIES)
    {
      var noise, full := TryRetry(xof, key, n, rank, retry);
      if full {
        return Ok(noise);
      }
    }
    r := Err(NoiseDerivation);
  }

  /** One pass of the retry loop. */
  method TryRetry(xof: Xof, key: NoiseKey, n: u32, rank: u32, retry: nat)
    returns (noise: CuPowNoise, full: bool)
    requires RichXof(xof) && n > 0 && rank > 0
    ensures noise == FactorsAt(xof, key, n, rank, retry)
    ensures full == Accepted(xof, key, n, rank)(retry)
  {
    CellBounds(0, rank, n);
    CellBounds(0, n, rank);
    var eLeft := DeriveMatrix(xof(Input(key, "e-left", retry)), n, rank);
    var eRight := DeriveMatrix(xof(Input(key, "e-right", retry)), rank, n);
    var fLeft := DeriveMatrix(xof(Input(key, "f-left", retry)), n, rank);
    var fRight := DeriveMatrix(xof(Input(key, "f-right", retry)), rank, n);
    noise := CuPowNoise(eLeft.value, eRight.value, fLeft.value, fRight.value);
    assert noise == FactorsAt(xof, key, n, rank, retry);
    full := AllFullRank(noise, rank);
  }

  method AllFullRank(noise: CuPowNoise, rank: nat) returns (full: bool)
    requires NoiseWellFormed(noise)
    ensures full == FullRank(noise, rank)
  {
    var a := MatrixRank(noise.eLeft);
    if a != rank { return false; }
    var b := MatrixRank(noise.eRight);
    if b != rank { return false; }
    var c := MatrixRank(noise.fLeft);
    if c != rank { return false; }
    var d := MatrixRank(noise.fRight);
    full := d == rank;
  }

  /** Accepted noise hides nothing more than its right factor does, on either operand, and has exactly
      the rank asked for. */
  lemma SelectedNoiseKernels(xof: Xof, key: NoiseKey, n: u32, rank: u32, noise: CuPowNoise, x: Matrix)
    requires RichXof(xof) && n > 0 && rank > 0 && SelectedNoise(xof, key, n, rank) == Ok(noise)
    ensures NoiseWellFormed(noise)
    ensures LowRankPair(noise.eLeft, noise.eRight, n) && LowRankPair(noise.fLeft, noise.fRight, n)
    ensures InKernel(Mul(View(noise.eLeft), View(noise.eRight)), x) <==> InKernel(View(noise.eRight), x)
    ensures InKernel(Mul(View(noise.fLeft), View(noise.fRight)), x) <==> InKernel(View(noise.fRight), x)
    ensures Rank(Mul(View(noise.eLeft), View(noise.eRight))) == rank
    ensures Rank(Mul(View(noise.fLeft), View(noise.fRight))) == rank
  {
    var retry := FirstTrue(Accepted(xof, key, n, rank), 0, RETRIES);
    assert Accepted(xof, key, n, rank)(retry);
    assert FullRank(noise, rank);
    NoiseKernel(View(noise.eLeft), View(noise.eRight), x);
    NoiseKernel(View(noise.fLeft), View(noise.fRight), x);
    FullLeftFactorKeepsRank(View(noise.eLeft), View(noise.eRight));
    FullLeftFactorKeepsRank(View(noise.fLeft), View(noise.fRight));
  }
}
