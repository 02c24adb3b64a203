/** Threshold sampling of task ids. */
module Sampling {
  import opened Integers
  import opened NumberTheory
  import opened Bytes
  import opened Selections
  import opened Types

  /** What is drawn for a seed, an epoch and a task; the relations are about any such function. */
  type DrawFunction = (Hash32, string, string) -> u64

  // ---------------------------------------------------------------------- the draw itself

  const SAMPLE_DOMAIN := Ascii("pocomp/task-sampling/v1")

  /** What `is_sampled` hashes, for an epoch and a task given by their bytes. */
  function SampleInput(seed: Hash32, epoch: seq<u8>, task: seq<u8>): seq<u8> {
    SAMPLE_DOMAIN + seed + BigEndian(|epoch|, 8) + epoch + BigEndian(|task|, 8) + task
  }

  function Word(a: int, b: int, c: int, d: int): int {
    ((a * 256 + b) * 256 + c) * 256 + d
  }

  /** `u64::from_be_bytes` of the first eight bytes. */
  function FirstEight(d: Hash32): u64 {
    var high: u32 := Word(d[0], d[1], d[2], d[3]);
    var low: u32 := Word(d[4], d[5], d[6], d[7]);
    high * 0x1_0000_0000 + low
  }

  /** The source's draw function. */
  function HashedDraw(sha256: seq<u8> -> Hash32, utf8: string -> seq<u8>): DrawFunction {
    (seed, epochId, taskId) => FirstEight(sha256(SampleInput(seed, utf8(epochId), utf8(taskId))))
  }

  /** The input part by part: seed, epoch id and task id, the ids after their lengths. */
  ghost predicate SamplesFrom(input: seq<u8>, seed: Hash32, epoch: seq<u8>, task: seq<u8>) {
    exists n, m :: SamplesWith(input, seed, epoch, task, n, m)
  }

  ghost predicate SamplesWith(input: seq<u8>, seed: Hash32, epoch: seq<u8>, task: seq<u8>, n: seq<u8>, m: seq<u8>) {
    && |n| == |m| == 8 && Holds(n, |epoch|) && Holds(m, |task|)
    && input == Ascii("pocomp/task-sampling/v1") + (seed + (n + (epoch + (m + task))))
  }

  /** Different seeds, epochs or tasks are drawn for by hashing different inputs. */
  lemma SampleInputsDiffer(input: seq<u8>, s: Hash32, e: seq<u8>, t: seq<u8>, s': Hash32, e': seq<u8>, t': seq<u8>)
    requires SamplesFrom(input, s, e, t) && SamplesFrom(input, s', e', t')
    requires |e| < Pow(256, 8) && |t| < Pow(256, 8) && |e'| < Pow(256, 8) && |t'| < Pow(256, 8)
    ensures s == s' && e == e' && t == t'
  {
    var n, m :| SamplesWith(input, s, e, t, n, m);
    var n', m' :| SamplesWith(input, s', e', t', n', m');
    var domain := Ascii("pocomp/task-sampling/v1");
    Cut(domain, s + (n + (e + (m + t))), domain, s' + (n' + (e' + (m' + t'))));
    Cut(s, n + (e + (m + t)), s', n' + (e' + (m' + t')));
    Cut(n, e + (m + t), n', e' + (m' + t'));
    Cut(e, m + t, e', m' + t');
    Cut(m, t, m', t');
  }

  lemma ValueOfFour(bytes: seq<u8>)
    requires |bytes| == 4
    ensures ValueOf(bytes) == Word(bytes[0], bytes[1], bytes[2], bytes[3])
  {
    assert bytes[..0] == [] && bytes[..4] == bytes;
    ValueNext(bytes, 0);
    ValueNext(bytes, 1);
    ValueNext(bytes, 2);
    ValueNext(bytes, 3);
  }

  lemma FirstEightIs(d: Hash32)
    ensures FirstEight(d) == ValueOf(d[..8])
  {
    ValueOfFour(d[..4]);
    ValueNext(d, 4);
    ValueNext(d, 5);
    ValueNext(d, 6);
    ValueNext(d, 7);
  }

  /** The draw is the big-endian number in the first eight bytes of the digest of such an input. */
  lemma DrawIsHashed(sha256: seq<u8> -> Hash32, utf8: string -> seq<u8>, seed: Hash32, epochId: string, taskId: string)
    returns (input: seq<u8>)
    ensures SamplesFrom(input, seed, utf8(epochId), utf8(taskId))
    ensures HashedDraw(sha256, utf8)(seed, epochId, taskId) == ValueOf(sha256(input)[..8])
  {
    var e, t := utf8(epochId), utf8(taskId);
    input := SampleInput(seed, e, t);
    BigEndianHolds(|e|, 8);
    BigEndianHolds(|t|, 8);
    assert SamplesWith(input, seed, e, t, BigEndian(|e|, 8), BigEndian(|t|, 8));
    FirstEightIs(sha256(input));
  }

  // ------------------------------------------------------------------------ the threshold

  const TWO_64: int := 0x1_0000_0000_0000_0000

  /** `is_sampled` once the draw is known; both u128 operations fit. */
  predicate Selects(policy: TaskPolicy, draw: u64) {
    if policy.sampleDenominator == 0 || policy.sampleNumerator > policy.sampleDenominator then false
    else if policy.sampleNumerator == policy.sampleDenominator then true
    else if policy.sampleNumerator == 0 then false
    else
      ScaledFits(policy.sampleNumerator);
      var scaled: u128 := TWO_64 * policy.sampleNumerator;
      var threshold: u128 := scaled / policy.sampleDenominator;
      draw < threshold
  }

  lemma ScaledFits(numerator: u64)
    ensures 0 <= TWO_64 * numerator <= U128_MAX
  {
  }

  predicate IsSampled(draw: DrawFunction, seed: Hash32, epochId: string, taskId: string, policy: TaskPolicy) {
    Selects(policy, draw(seed, epochId, taskId))
  }

  /** `sampled_task_ids`: a filter. */
  function SampledTaskIds(draw: DrawFunction, seed: Hash32, epochId: string, ids: seq<string>, policy: TaskPolicy)
    : (r: seq<string>)
    ensures forall id :: id in r <==> id in ids && IsSampled(draw, seed, epochId, id, policy)
  {
    if ids == [] then []
    else
      var last := ids[|ids| - 1];
      SampledTaskIds(draw, seed, epochId, ids[..|ids| - 1], policy)
      + if IsSampled(draw, seed, epochId, last, policy) then [last] else []
  }

  predicate ValidRate(policy: TaskPolicy) {
    policy.sampleDenominator != 0 && policy.sampleNumerator <= policy.sampleDenominator
  }

  ghost function Threshold(policy: TaskPolicy): int {
    if ValidRate(policy) then (TWO_64 * policy.sampleNumerator) / policy.sampleDenominator else 0
  }

  /** In every branch the rule selects exactly the draws below one threshold. */
  lemma SelectsBelowThreshold(policy: TaskPolicy, draw: u64)
    ensures Selects(policy, draw) <==> draw < Threshold(policy)
    ensures 0 <= Threshold(policy) <= TWO_64
  {
  }

  ghost function DrawsBelow(draw: DrawFunction, seed: Hash32, epochId: string, threshold: int): string -> bool {
    (id: string) => draw(seed, epochId, id) < threshold
  }

  /** The filter keeps, in order and as often as they occur, the ids whose draw is below the threshold. */
  lemma {:induction false} SampledExactly(draw: DrawFunction, seed: Hash32, epochId: string, ids: seq<string>,
                                          policy: TaskPolicy)
    ensures Kept(ids, DrawsBelow(draw, seed, epochId, Threshold(policy)),
                 SampledTaskIds(draw, seed, epochId, ids, policy))
  {
    var keep := DrawsBelow(draw, seed, epochId, Threshold(policy));
    if ids == [] {
      KeptNone(keep);
    } else {
      var init, last := ids[..|ids| - 1], ids[|ids| - 1];
      SampledExactly(draw, seed, epochId, init, policy);
      KeptNext(init, last, keep, SampledTaskIds(draw, seed, epochId, init, policy));
      SelectsBelowThreshold(policy, draw(seed, epochId, last));
      assert ids == init + [last];
    }
  }

  ghost function Below(k: nat): (s: set<int>)
    ensures forall x :: x in s <==> 0 <= x < k
    ensures |s| == k
  {
    if k == 0 then {} else Below(k - 1) + {k - 1}
  }

  /** Of the 2^64 draws exactly floor(2^64·num/den) are selected. */
  lemma SelectedCount(policy: TaskPolicy, selected: set<u64>)
    requires forall draw: u64 :: draw in selected <==> Selects(policy, draw)
    ensures |selected| == Threshold(policy)
  {
    var t := Threshold(policy);
    SelectsBelowThreshold(policy, 0);
    var below: set<int> := Below(t);
    forall x: int ensures x in below <==> x in selected {
      if 0 <= x <= U64_MAX {
        SelectsBelowThreshold(policy, x);
      }
    }
    SameElements<int>(below, selected);
  }

  lemma SameElements<T>(s: set<T>, t: set<T>)
    requires forall x :: x in s <==> x in t
    ensures |s| == |t|
  {
    assert s == t;
  }

  predicate RateAtMost(p: TaskPolicy, q: TaskPolicy) {
    ValidRate(p) && ValidRate(q)
    && p.sampleNumerator * q.sampleDenominator <= q.sampleNumerator * p.sampleDenominator
  }

  /** Raising the rate keeps every selection. */
  lemma SelectionMonotone(p: TaskPolicy, q: TaskPolicy, draw: u64)
    requires RateAtMost(p, q) && Selects(p, draw)
    ensures Selects(q, draw)
  {
    SelectsBelowThreshold(p, draw);
    SelectsBelowThreshold(q, draw);
    ThresholdMonotone(p.sampleNumerator, p.sampleDenominator, q.sampleNumerator, q.sampleDenominator);
  }

  lemma ThresholdMonotone(n: int, d: int, m: int, e: int)
    requires d > 0 && e > 0 && n * e <= m * d
    ensures (TWO_64 * n) / d <= (TWO_64 * m) / e
  {
    var p, q := (TWO_64 * n) / d, (TWO_64 * m) / e;
    assert p * d <= TWO_64 * n && TWO_64 * m < (q + 1) * e by {
      assert (q + 1) * e == q * e + e;
    }
    MulLe(p * d, TWO_64 * n, e);
    MulLt(TWO_64 * m, (q + 1) * e, d);
    Regrouped(n, d, m, e, p, q + 1);
    assert d * e > 0;
    MulLt(p, q + 1, d * e);
  }

  lemma Regrouped(n: int, d: int, m: int, e: int, p: int, r: int)
    ensures (TWO_64 * n) * e == TWO_64 * (n * e) && (TWO_64 * m) * d == TWO_64 * (m * d)
    ensures (p * d) * e == p * (d * e) && (r * e) * d == r * (d * e)
  {
  }
}
