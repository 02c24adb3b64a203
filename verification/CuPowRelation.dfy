/** The public cuPOW saturation relation and its exact meaning over unbounded integers. */
module CuPowRelation {
  import opened Integers
  import opened NumberTheory
  import opened Types
  import opened Outcomes
  import opened CuPowErrors
  import opened CuPowTypes

  const PRODUCTION_TILE_SIZE: u32 := 128
  const PRODUCTION_MIN_N: u32 := 1024
  const PRODUCTION_MAX_N: u32 := 16384
  const IMAGE_MARK: string := "@sha256:"
  const MILLION: int := 1_000_000
  const BILLION: int := 1_000_000_000

  // ------------------------------------------------------------------------ clauses

  ghost predicate ProfileClause(s: CuPowPublicStatement) {
    s.protocolVersion == CUPOW_PROTOCOL_VERSION && ContractProfile(s.contract.contract)
  }

  ghost predicate ContractProfile(contract: CuPowContract) {
    && contract.protocolVersion == CUPOW_PROTOCOL_VERSION
    && contract.policy.protocolVersion == CUPOW_PROTOCOL_VERSION
    && contract.epoch.protocolVersion == CUPOW_PROTOCOL_VERSION
    && contract.capacity.certificate.protocolVersion == CUPOW_PROTOCOL_VERSION
    && contract.manifest.protocolVersion == CUPOW_PROTOCOL_VERSION
    && contract.policy.arithmeticProfile == CUPOW_ARITHMETIC_PROFILE
    && contract.policy.transcriptProfile == CUPOW_TRANSCRIPT_PROFILE
  }

  ghost predicate PolicyClause(policy: CuPowPolicy) {
    && policy.cMicroH100Hours != 0 && 0 < policy.minSaturationPpm <= 1_000_000
    && policy.tileSize == PRODUCTION_TILE_SIZE && policy.matrixMinN == PRODUCTION_MIN_N
    && policy.matrixMaxN == PRODUCTION_MAX_N
  }

  predicate OccursAt(value: string, sep: string, i: nat) {
    i + |sep| <= |value| && value[i..i + |sep|] == sep
  }

  /** What follows the last occurrence of `sep` at or before position i. */
  function AfterLast(value: string, sep: string, i: nat): Option<string>
    requires i + |sep| <= |value|
  {
    if OccursAt(value, sep, i) then Some(value[i + |sep|..])
    else if i == 0 then None
    else AfterLast(value, sep, i - 1)
  }

  predicate IsHexDigit(c: char) {
    '0' <= c <= '9' || 'a' <= c <= 'f' || 'A' <= c <= 'F'
  }

  predicate AllHex(s: string) {
    forall i | 0 <= i < |s| :: IsHexDigit(s[i])
  }

  /** `is_sha256_image_digest`. */
  predicate IsSha256ImageDigest(value: string) {
    |value| >= |IMAGE_MARK| && match AfterLast(value, IMAGE_MARK, |value| - |IMAGE_MARK|)
    case None => false
    case Some(digest) => |digest| == 64 && AllHex(digest)
  }

  lemma {:induction false} AfterLastFound(value: string, sep: string, i: nat) returns (p: nat)
    requires i + |sep| <= |value| && AfterLast(value, sep, i).Some?
    ensures p <= i && OccursAt(value, sep, p) && AfterLast(value, sep, i) == Some(value[p + |sep|..])
  {
    if OccursAt(value, sep, i) {
      p := i;
    } else {
      p := AfterLastFound(value, sep, i - 1);
    }
  }

  lemma {:induction false} AfterLastIs(value: string, sep: string, i: nat, p: nat)
    requires p <= i && i + |sep| <= |value| && OccursAt(value, sep, p)
    requires forall k | p < k <= i :: !OccursAt(value, sep, k)
    ensures AfterLast(value, sep, i) == Some(value[p + |sep|..])
  {
    if p == i {
    } else {
      AfterLastIs(value, sep, i - 1, p);
    }
  }

  /** A reference that ends in the mark and 64 hex digits. */
  ghost predicate IsPinnedImage(value: string) {
    && |value| >= |IMAGE_MARK| + 64 && value[|value| - 64 - |IMAGE_MARK|..|value| - 64] == IMAGE_MARK
    && forall i | |value| - 64 <= i < |value| ::
         '0' <= value[i] <= '9' || 'a' <= value[i] <= 'f' || 'A' <= value[i] <= 'F'
  }

  /** An image digest is anything followed by the mark and 64 hex digits. */
  lemma ImageDigestExactly(value: string)
    ensures IsSha256ImageDigest(value) <==> IsPinnedImage(value)
  {
    if IsSha256ImageDigest(value) {
      var p := AfterLastFound(value, IMAGE_MARK, |value| - |IMAGE_MARK|);
      assert p == |value| - 64 - |IMAGE_MARK|;
      forall i | |value| - 64 <= i < |value| ensures IsHexDigit(value[i]) {
        assert value[p + |IMAGE_MARK|..][i - p - |IMAGE_MARK|] == value[i];
      }
    }
    if IsPinnedImage(value) {
      var p := |value| - 64 - |IMAGE_MARK|;
      forall k | p < k <= |value| - |IMAGE_MARK| ensures !OccursAt(value, IMAGE_MARK, k) {
        NoMarkInside(value, p, k);
      }
      AfterLastIs(value, IMAGE_MARK, |value| - |IMAGE_MARK|, p);
    }
  }

  lemma NoMarkInside(value: string, p: nat, k: nat)
    requires p < k && p + |IMAGE_MARK| + 64 == |value| && k + |IMAGE_MARK| <= |value|
    requires OccursAt(value, IMAGE_MARK, p) && AllHex(value[p + |IMAGE_MARK|..])
    ensures !OccursAt(value, IMAGE_MARK, k)
  {
    assert IMAGE_MARK[0] == '@';
    assert value[k..k + |IMAGE_MARK|][0] == value[k];
    if k < p + |IMAGE_MARK| {
      assert value[k] == value[p..p + |IMAGE_MARK|][k - p] == IMAGE_MARK[k - p];
    } else {
      assert value[k] == value[p + |IMAGE_MARK|..][k - p - |IMAGE_MARK|];
    }
  }

  ghost predicate EpochClause(d: CuPowDigests, contract: CuPowContract) {
    var epoch, capacity := contract.epoch, contract.capacity.certificate;
    && epoch.openedAt < epoch.closedAt && epoch.epochId != "" && epoch.podId != "" && epoch.incarnationId != ""
    && epoch.initialCommitment != ZERO_HASH && epoch.podId == capacity.podId
    && epoch.incarnationId == capacity.incarnationId && capacity.validFrom <= epoch.openedAt
    && epoch.closedAt <= capacity.validUntil && capacity.gpuCount != 0 && capacity.gpuModel != ""
    && IsPinnedImage(capacity.runnerImageDigest) && capacity.runnerBinaryDigest != ZERO_HASH
    && capacity.maxMacsPerSecond != 0 && capacity.h100eMacsPerHour != 0 && capacity.validFrom < capacity.validUntil
    && epoch.workloadCommitment == d.workload(contract.manifest)
  }

  ghost predicate ItemClause(item: CuPowWorkItem, policy: CuPowPolicy)
    requires policy.tileSize != 0
  {
    && item.operationId != "" && policy.matrixMinN <= item.n <= policy.matrixMaxN && PowerOfTwo(item.n)
    && item.n % policy.tileSize == 0 && item.leftCommitment != ZERO_HASH && item.rightCommitment != ZERO_HASH
    && item.purposeDigest != ZERO_HASH
  }

  ghost predicate ChallengeClause(d: CuPowDigests, contract: CuPowContract, challenge: CuPowChallenge) {
    && challenge.protocolVersion == CUPOW_PROTOCOL_VERSION && challenge.epochId == contract.epoch.epochId
    && challenge.contractDigest == d.contract(contract)
    && contract.epoch.openedAt <= challenge.issuedAt < contract.epoch.closedAt
    && challenge.deadline == contract.epoch.closedAt && challenge.seed != ZERO_HASH
  }

  ghost predicate CompletionClause(d: CuPowDigests, contract: CuPowContract, challenge: CuPowChallenge,
                             completion: CuPowCompletion, work: int)
  {
    && completion.protocolVersion == CUPOW_PROTOCOL_VERSION && completion.epochId == contract.epoch.epochId
    && completion.challengeDigest == d.challenge(challenge)
    && challenge.issuedAt <= completion.completedAt <= challenge.deadline
    && completion.transcriptRoot != ZERO_HASH && completion.outputRoot != ZERO_HASH && completion.securityWork == work
  }

  ghost predicate ErasureClause(contract: CuPowContract, e: ErasureCertificate) {
    && e.protocolVersion == PROTOCOL_VERSION && e.logicalPodId == contract.epoch.podId
    && e.oldIncarnationId == contract.epoch.incarnationId
    && contract.epoch.closedAt <= e.boundaryAt <= e.oldDestroyedAt <= e.newStartedAt
    && e.oldIncarnationId != e.newIncarnationId
    && e.oldImageDigest == contract.capacity.certificate.runnerImageDigest
    && e.newImageDigest != "" && e.evidenceDigest != ZERO_HASH
  }

  // -------------------------------------------------------------- the evaluator's checks

  predicate BadContractProfile(contract: CuPowContract) {
    || contract.protocolVersion != CUPOW_PROTOCOL_VERSION
    || contract.policy.protocolVersion != CUPOW_PROTOCOL_VERSION
    || contract.epoch.protocolVersion != CUPOW_PROTOCOL_VERSION
    || contract.capacity.certificate.protocolVersion != CUPOW_PROTOCOL_VERSION
    || contract.manifest.protocolVersion != CUPOW_PROTOCOL_VERSION
    || contract.policy.arithmeticProfile != CUPOW_ARITHMETIC_PROFILE
    || contract.policy.transcriptProfile != CUPOW_TRANSCRIPT_PROFILE
  }

  predicate BadPolicy(policy: CuPowPolicy) {
    || policy.cMicroH100Hours == 0 || policy.minSaturationPpm == 0 || policy.minSaturationPpm > 1_000_000
    || policy.tileSize != PRODUCTION_TILE_SIZE || policy.matrixMinN != PRODUCTION_MIN_N
    || policy.matrixMaxN != PRODUCTION_MAX_N
  }

  predicate BadEpoch(d: CuPowDigests, contract: CuPowContract) {
    var epoch, capacity := contract.epoch, contract.capacity.certificate;
    || epoch.openedAt >= epoch.closedAt || epoch.epochId == "" || epoch.podId == "" || epoch.incarnationId == ""
    || epoch.initialCommitment == ZERO_HASH || epoch.podId != capacity.podId
    || epoch.incarnationId != capacity.incarnationId || epoch.openedAt < capacity.validFrom
    || epoch.closedAt > capacity.validUntil || capacity.gpuCount == 0 || capacity.gpuModel == ""
    || !IsSha256ImageDigest(capacity.runnerImageDigest) || capacity.runnerBinaryDigest == ZERO_HASH
    || capacity.maxMacsPerSecond == 0 || capacity.h100eMacsPerHour == 0 || capacity.validFrom >= capacity.validUntil
    || epoch.workloadCommitment != d.workload(contract.manifest)
  }

  /** The check at the head of `validate_item`. */
  predicate BadItem(item: CuPowWorkItem, policy: CuPowPolicy)
    requires policy.tileSize != 0
  {
    || item.operationId == "" || item.n < policy.matrixMinN || item.n > policy.matrixMaxN || !PowerOfTwo(item.n)
    || item.n % policy.tileSize != 0 || item.leftCommitment == ZERO_HASH || item.rightCommitment == ZERO_HASH
    || item.purposeDigest == ZERO_HASH
  }

  predicate BadChallenge(d: CuPowDigests, contract: CuPowContract, challenge: CuPowChallenge) {
    || challenge.protocolVersion != CUPOW_PROTOCOL_VERSION || challenge.epochId != contract.epoch.epochId
    || challenge.contractDigest != d.contract(contract) || challenge.issuedAt < contract.epoch.openedAt
    || challenge.issuedAt >= contract.epoch.closedAt || challenge.deadline != contract.epoch.closedAt
    || challenge.seed == ZERO_HASH
  }

  predicate BadCompletion(d: CuPowDigests, contract: CuPowContract, challenge: CuPowChallenge,
                          completion: CuPowCompletion, work: int)
  {
    || completion.protocolVersion != CUPOW_PROTOCOL_VERSION || completion.epochId != contract.epoch.epochId
    || completion.challengeDigest != d.challenge(challenge) || completion.completedAt < challenge.issuedAt
    || completion.completedAt > challenge.deadline || completion.transcriptRoot == ZERO_HASH
    || completion.outputRoot == ZERO_HASH || completion.securityWork != work
  }

  predicate BadErasure(contract: CuPowContract, e: ErasureCertificate) {
    || e.protocolVersion != PROTOCOL_VERSION || e.logicalPodId != contract.epoch.podId
    || e.oldIncarnationId != contract.epoch.incarnationId || e.boundaryAt < contract.epoch.closedAt
    || e.oldDestroyedAt < e.boundaryAt || e.newStartedAt < e.oldDestroyedAt
    || e.oldIncarnationId == e.newIncarnationId
    || e.oldImageDigest != contract.capacity.certificate.runnerImageDigest || e.newImageDigest == ""
    || e.evidenceDigest == ZERO_HASH
  }

  /** Each check fails exactly when its clause does. */
  lemma ChecksAreClauses(d: CuPowDigests, s: CuPowPublicStatement, work: int)
    ensures var contract := s.contract.contract;
            && (s.protocolVersion != CUPOW_PROTOCOL_VERSION || BadContractProfile(contract) <==> !ProfileClause(s))
            && (BadPolicy(contract.policy) <==> !PolicyClause(contract.policy))
            && (BadEpoch(d, contract) <==> !EpochClause(d, contract))
            && (BadChallenge(d, contract, s.challenge.challenge)
                <==> !ChallengeClause(d, contract, s.challenge.challenge))
            && (BadCompletion(d, contract, s.challenge.challenge, s.completion.completion, work)
                <==> !CompletionClause(d, contract, s.challenge.challenge, s.completion.completion, work))
            && (BadErasure(contract, s.erasure.certificate) <==> !ErasureClause(contract, s.erasure.certificate))
  {
    ImageDigestExactly(s.contract.contract.capacity.certificate.runnerImageDigest);
  }

  lemma ItemChecked(item: CuPowWorkItem, policy: CuPowPolicy)
    requires policy.tileSize != 0
    ensures BadItem(item, policy) <==> !ItemClause(item, policy)
  {
  }

  // ------------------------------------------------------------------ checked u128

  function CheckedMul(x: int, y: int): Option<u128> {
    if 0 <= x * y <= U128_MAX then Some(x * y) else None
  }

  function CheckedAdd(x: int, y: int): Option<u128> {
    if 0 <= x + y <= U128_MAX then Some(x + y) else None
  }

  function Cube(n: int): int { n * n * n }

  /** The `try_fold` over the manifest. */
  function FoldWork(items: seq<CuPowWorkItem>, policy: CuPowPolicy, index: nat, seen: set<string>, total: u128)
    : Result<u128>
    requires index <= |items| && policy.tileSize != 0
    decreases |items| - index
  {
    if index == |items| then Ok(total)
    else
      var item := items[index];
      :- Require(item.operationId !in seen, Manifest);
      :- Require(!BadItem(item, policy), Manifest);
      var sum := CheckedAdd(total, Cube(item.n));
      if sum.None? then Err(Manifest)
      else FoldWork(items, policy, index + 1, seen + {item.operationId}, sum.value)
  }

  /** The same fold as the closure runs it, with its mutable set of ids. */
  method AddUpWork(items: seq<CuPowWorkItem>, policy: CuPowPolicy) returns (r: Result<u128>)
    requires policy.tileSize != 0
    ensures r == FoldWork(items, policy, 0, {}, 0)
  {
    var seen: set<string> := {};
    var total: u128 := 0;
    for index := 0 to |items|
      invariant FoldWork(items, policy, index, seen, total) == FoldWork(items, policy, 0, {}, 0)
    {
      var item := items[index];
      if item.operationId in seen || BadItem(item, policy) {
        return Err(Manifest);
      }
      var sum := CheckedAdd(total, Cube(item.n));
      if sum.None? {
        return Err(Manifest);
      }
      seen := seen + {item.operationId};
      total := sum.value;
    }
    r := Ok(total);
  }

  function CeilDiv(x: int, y: int): int
    requires y > 0
  {
    (x + y - 1) / y
  }

  datatype Capacities = Capacities(certified: u128, limit: u128)

  /** The capacity arithmetic, each product checked. */
  function CheckCapacity(contract: CuPowContract, work: int): (r: Result<Capacities>)
    ensures r.Ok? ==> r.value.certified > 0
  {
    var policy, epoch, capacity := contract.policy, contract.epoch, contract.capacity.certificate;
    var potential := CheckedMul(capacity.maxMacsPerSecond, epoch.closedAt - epoch.openedAt);
    if potential.None? then Err(Capacity)
    else
      var certified := potential.value / BILLION;
      var scaled := CheckedMul(policy.cMicroH100Hours, capacity.h100eMacsPerHour);
      if scaled.None? then Err(Capacity)
      else
        var limit := scaled.value / MILLION;
        :- Require(certified != 0 && limit != 0, Capacity);
        var wanted := CheckedMul(certified, policy.minSaturationPpm);
        if wanted.None? then Err(Capacity)
        else
          :- Require(certified <= limit && work >= CeilDiv(wanted.value, MILLION) && work <= limit, Capacity);
          Ok(Capacities(certified, limit))
  }

  /** `u32::try_from(..).unwrap_or(u32::MAX)`. */
  function Clamp32(x: nat): u32 {
    if x <= U32_MAX then x else U32_MAX
  }

  /** The fold and the checks on the manifest around it. */
  function CheckManifest(contract: CuPowContract): Result<u128>
    requires contract.policy.tileSize != 0
  {
    var work :- FoldWork(contract.manifest.items, contract.policy, 0, {}, 0);
    :- Require(contract.manifest.workloadId != "" && contract.manifest.items != []
               && work == contract.manifest.securityWork, Manifest);
    Ok(work)
  }

  function Report(work: u128, certified: u128): Result<CuPowOutcome>
    requires certified > 0
  {
    var ppm := CheckedMul(work, MILLION);
    if ppm.None? then Err(Capacity) else Ok(CuPowOutcome(work, certified, Clamp32(ppm.value / certified)))
  }

  /** `evaluate_cupow_relation`. */
  function EvaluateCupowRelation(d: CuPowDigests, s: CuPowPublicStatement): Result<CuPowOutcome> {
    var contract := s.contract.contract;
    :- Require(s.protocolVersion == CUPOW_PROTOCOL_VERSION && !BadContractProfile(contract), Profile);
    :- Require(!BadPolicy(contract.policy), Policy);
    :- Require(!BadEpoch(d, contract), Epoch);
    var work :- CheckManifest(contract);
    :- Require(!BadChallenge(d, contract, s.challenge.challenge), Challenge);
    :- Require(!BadCompletion(d, contract, s.challenge.challenge, s.completion.completion, work), Completion);
    var capacities :- CheckCapacity(contract, work);
    :- Require(!BadErasure(contract, s.erasure.certificate), Erasure);
    Report(work, capacities.certified)
  }

  // ------------------------------------------------------------- the exact relation

  /** The sum of n·n·n over the items. */
  ghost function WorkOf(items: seq<CuPowWorkItem>): nat {
    if items == [] then 0 else CubeOfN(items[|items| - 1]) + WorkOf(items[..|items| - 1])
  }

  ghost function CubeOfN(item: CuPowWorkItem): (cube: nat)
    ensures cube == Cube(item.n)
  {
    var n: nat := item.n;
    CubeNonNegative(n);
    n * n * n
  }

  lemma CubeNonNegative(n: nat)
    ensures n * n * n >= 0
  {
  }

  ghost predicate DistinctIds(items: seq<CuPowWorkItem>) {
    forall k | 0 <= k < |items| :: FreshId(items, k)
  }

  ghost predicate FreshId(items: seq<CuPowWorkItem>, k: nat)
    requires k < |items|
  {
    forall i | 0 <= i < k :: items[i].operationId != items[k].operationId
  }

  ghost predicate ManifestClause(contract: CuPowContract) {
    var manifest := contract.manifest;
    && contract.policy.tileSize != 0 && DistinctIds(manifest.items)
    && (forall k | 0 <= k < |manifest.items| :: ItemClause(manifest.items[k], contract.policy))
    && manifest.workloadId != "" && manifest.items != [] && manifest.securityWork == WorkOf(manifest.items)
  }

  /** What the certified rate does in the epoch, in billionths of a MAC. */
  function Potential(contract: CuPowContract): int {
    contract.capacity.certificate.maxMacsPerSecond * (contract.epoch.closedAt - contract.epoch.openedAt)
  }

  /** The signed budget, in millionths of a MAC. */
  function Budget(contract: CuPowContract): int {
    contract.policy.cMicroH100Hours * contract.capacity.certificate.h100eMacsPerHour
  }

  /** The certified rate completes this many MACs within the epoch. */
  ghost predicate Capable(contract: CuPowContract, macs: int) {
    macs * BILLION <= Potential(contract)
  }

  /** Whatever whole number of MACs the rate completes is within the budget, and the work is the signed
      share of it and within the budget too.  No quotient is taken and nothing has a width. */
  ghost predicate CapacityClause(contract: CuPowContract, work: int) {
    && Capable(contract, 1)
    && (forall macs: nat | Capable(contract, macs) ::
          macs * MILLION <= Budget(contract) && macs * contract.policy.minSaturationPpm <= work * MILLION)
    && work * MILLION <= Budget(contract)
  }

  /** What the relation asks of the signed contract alone. */
  ghost predicate ContractClauses(d: CuPowDigests, contract: CuPowContract) {
    && ContractProfile(contract) && PolicyClause(contract.policy) && EpochClause(d, contract)
    && ManifestClause(contract) && CapacityClause(contract, contract.manifest.securityWork)
  }

  ghost predicate Satisfies(d: CuPowDigests, s: CuPowPublicStatement) {
    var contract := s.contract.contract;
    var work := WorkOf(contract.manifest.items);
    && ProfileClause(s) && PolicyClause(contract.policy) && EpochClause(d, contract) && ManifestClause(contract)
    && ChallengeClause(d, contract, s.challenge.challenge)
    && CompletionClause(d, contract, s.challenge.challenge, s.completion.completion, work)
    && CapacityClause(contract, work) && ErasureClause(contract, s.erasure.certificate)
  }

  // ------------------------------------------------------------------- no overflow

  lemma SmallCube(n: int)
    requires 0 <= n <= 16384
    ensures 0 <= Cube(n) <= 0x400_0000_0000
  {
    MulLe(n, 16384, n);
    MulLe(n * n, 16384 * 16384, n);
    MulLe(0, n * n, n);
  }

  lemma {:induction false} SmallWork(items: seq<CuPowWorkItem>)
    requires forall k | 0 <= k < |items| :: items[k].n <= 16384
    ensures WorkOf(items) <= |items| * 0x400_0000_0000
  {
    if items == [] {
    } else {
      SmallWork(items[..|items| - 1]);
      SmallCube(items[|items| - 1].n);
    }
  }

  function IdsOf(items: seq<CuPowWorkItem>, index: nat): set<string>
    requires index <= |items|
  {
    set k | 0 <= k < index :: items[k].operationId
  }

  ghost predicate GoodItem(items: seq<CuPowWorkItem>, policy: CuPowPolicy, k: nat)
    requires k < |items| && policy.tileSize != 0
  {
    FreshId(items, k) && ItemClause(items[k], policy)
  }

  lemma FreshIdIsNew(items: seq<CuPowWorkItem>, k: nat)
    requires k < |items|
    ensures FreshId(items, k) <==> items[k].operationId !in IdsOf(items, k)
    ensures IdsOf(items, k + 1) == IdsOf(items, k) + {items[k].operationId}
  {
  }

  lemma WorkStep(items: seq<CuPowWorkItem>, k: nat)
    requires k < |items|
    ensures WorkOf(items[..k + 1]) == WorkOf(items[..k]) + Cube(items[k].n)
  {
    assert items[..k + 1][..k] == items[..k];
  }

  lemma WorkStepFits(items: seq<CuPowWorkItem>, k: nat)
    requires k < |items| <= U64_MAX && forall i | 0 <= i <= k :: items[i].n <= 16384
    ensures CheckedAdd(WorkOf(items[..k]), Cube(items[k].n)) == Some(WorkOf(items[..k + 1]))
  {
    WorkStep(items, k);
    SmallWork(items[..k + 1]);
    SmallCube(items[k].n);
  }

  lemma FoldWorkStep(items: seq<CuPowWorkItem>, policy: CuPowPolicy, index: nat)
    requires index < |items| <= U64_MAX && policy.tileSize != 0 && policy.matrixMaxN <= 16384
    requires forall k | 0 <= k < index :: items[k].n <= 16384
    requires WorkOf(items[..index]) <= U128_MAX
    ensures WorkOf(items[..index + 1]) >= 0 && (GoodItem(items, policy, index) ==> items[index].n <= 16384)
    ensures GoodItem(items, policy, index) ==> WorkOf(items[..index + 1]) <= U128_MAX
    ensures FoldWork(items, policy, index, IdsOf(items, index), WorkOf(items[..index]))
            == if GoodItem(items, policy, index)
               then FoldWork(items, policy, index + 1, IdsOf(items, index + 1), WorkOf(items[..index + 1]))
               else Err(Manifest)
  {
    FreshIdIsNew(items, index);
    ItemChecked(items[index], policy);
    if GoodItem(items, policy, index) {
      WorkStepFits(items, index);
    }
  }

  lemma {:induction false} FoldWorkExact(items: seq<CuPowWorkItem>, policy: CuPowPolicy, index: nat)
    requires index <= |items| <= U64_MAX && policy.tileSize != 0 && policy.matrixMaxN <= 16384
    requires forall k | 0 <= k < index :: items[k].n <= 16384
    ensures WorkOf(items[..index]) <= U128_MAX
    ensures var r := FoldWork(items, policy, index, IdsOf(items, index), WorkOf(items[..index]));
            && (r.Ok? <==> forall k | index <= k < |items| :: GoodItem(items, policy, k))
            && (r.Ok? ==> r.value == WorkOf(items))
    decreases |items| - index
  {
    SmallWork(items[..index]);
    if index == |items| {
      assert items[..index] == items;
    } else {
      FoldWorkStep(items, policy, index);
      if GoodItem(items, policy, index) {
        FoldWorkExact(items, policy, index + 1);
      }
    }
  }

  lemma WorkExact(contract: CuPowContract)
    requires PolicyClause(contract.policy) && |contract.manifest.items| <= U64_MAX
    ensures var r := FoldWork(contract.manifest.items, contract.policy, 0, {}, 0);
            && (r.Ok? <==> DistinctIds(contract.manifest.items)
                           && forall k | 0 <= k < |contract.manifest.items| ::
                                ItemClause(contract.manifest.items[k], contract.policy))
            && (r.Ok? ==> r.value == WorkOf(contract.manifest.items))
  {
    var items := contract.manifest.items;
    assert IdsOf(items, 0) == {} && items[..0] == [];
    FoldWorkExact(items, contract.policy, 0);
    forall k | 0 <= k < |items|
      ensures GoodItem(items, contract.policy, k) <==> FreshId(items, k) && ItemClause(items[k], contract.policy)
    {
    }
  }

  lemma U64Product(x: u64, y: u64)
    ensures 0 <= x * y <= U64_MAX * U64_MAX
  {
    MulLe(x, U64_MAX, y);
    MulLe(y, U64_MAX, U64_MAX);
    MulLe(0, x, y);
  }

  lemma QuotientBounds(x: int, y: int, m: int, q: int, r: int)
    requires y > 0 && x == q * y + r && 0 <= r < y
    ensures m * y <= x ==> m <= q
    ensures m <= q ==> m * y <= x
  {
    MulAtLeast(m - q, y);
    MulAtLeast(q - m, y);
    assert (m - q) * y == m * y - q * y == -((q - m) * y);
  }

  lemma FloorBounds(x: int, y: int, m: int)
    requires y > 0
    ensures m * y <= x <==> m <= x / y
  {
    QuotientBounds(x, y, m, x / y, x % y);
  }

  lemma CeilDivLe(x: int, work: int)
    ensures CeilDiv(x, MILLION) <= work <==> x <= work * MILLION
  {
  }

  /** The certified capacity of the evaluator. */
  function CertifiedCapacity(contract: CuPowContract): int {
    Potential(contract) / BILLION
  }

  /** It is the largest whole number of MACs the rate completes. */
  lemma CapableExactly(contract: CuPowContract, macs: int)
    ensures Capable(contract, macs) <==> macs <= CertifiedCapacity(contract)
  {
    FloorBounds(Potential(contract), BILLION, macs);
  }

  /** What the evaluator compares, with its floors. */
  ghost predicate CapacityCheck(contract: CuPowContract, work: int) {
    var certified := CertifiedCapacity(contract);
    && certified > 0 && certified * MILLION <= Budget(contract)
    && certified * contract.policy.minSaturationPpm <= work * MILLION <= Budget(contract)
  }

  lemma CheckIsClause(contract: CuPowContract, work: int)
    ensures CapacityCheck(contract, work) <==> CapacityClause(contract, work)
  {
    var certified, ppm := CertifiedCapacity(contract), contract.policy.minSaturationPpm;
    CapableExactly(contract, 1);
    CapableExactly(contract, certified);
    if CapacityCheck(contract, work) {
      forall macs: nat | Capable(contract, macs)
        ensures macs * MILLION <= Budget(contract) && macs * ppm <= work * MILLION
      {
        CapableExactly(contract, macs);
        MulLe(macs, certified, MILLION);
        MulLe(macs, certified, ppm);
      }
    }
  }

  /** For u64 inputs no checked product overflows, and the checks decide the clause without quotients. */
  lemma CapacityExact(contract: CuPowContract, work: int)
    requires PolicyClause(contract.policy) && contract.epoch.openedAt < contract.epoch.closedAt
    ensures CheckCapacity(contract, work).Ok? <==> CapacityClause(contract, work)
    ensures CheckCapacity(contract, work).Ok? ==>
              CheckCapacity(contract, work).value.certified == CertifiedCapacity(contract)
    ensures 0 <= CertifiedCapacity(contract) <= U128_MAX / MILLION
  {
    CheckExact(contract, work);
    CheckIsClause(contract, work);
  }

  lemma CheckExact(contract: CuPowContract, work: int)
    requires PolicyClause(contract.policy) && contract.epoch.openedAt < contract.epoch.closedAt
    ensures CheckCapacity(contract, work).Ok? <==> CapacityCheck(contract, work)
    ensures CheckCapacity(contract, work).Ok? ==>
              CheckCapacity(contract, work).value.certified == CertifiedCapacity(contract)
    ensures 0 <= CertifiedCapacity(contract) <= U128_MAX / MILLION
  {
    var policy, capacity := contract.policy, contract.capacity.certificate;
    U64Product(capacity.maxMacsPerSecond, contract.epoch.closedAt - contract.epoch.openedAt);
    U64Product(policy.cMicroH100Hours, capacity.h100eMacsPerHour);
    var certified := CertifiedCapacity(contract);
    MulLe(policy.minSaturationPpm, MILLION, certified);
    MulLe(0, policy.minSaturationPpm, certified);
    assert certified * policy.minSaturationPpm == policy.minSaturationPpm * certified;
    CeilDivLe(certified * policy.minSaturationPpm, work);
    FloorBounds(Budget(contract), MILLION, work);
    FloorBounds(Budget(contract), MILLION, certified);
  }

  /** The first clause of the relation that fails, in the order of the checks. */
  ghost function FirstFailure(d: CuPowDigests, s: CuPowPublicStatement): Option<CuPowError> {
    var contract := s.contract.contract;
    var work := WorkOf(contract.manifest.items);
    if !ProfileClause(s) then Some(Profile)
    else if !PolicyClause(contract.policy) then Some(Policy)
    else if !EpochClause(d, contract) then Some(Epoch)
    else if !ManifestClause(contract) then Some(Manifest)
    else if !ChallengeClause(d, contract, s.challenge.challenge) then Some(Challenge)
    else if !CompletionClause(d, contract, s.challenge.challenge, s.completion.completion, work) then Some(Completion)
    else if !CapacityClause(contract, work) then Some(Capacity)
    else if !ErasureClause(contract, s.erasure.certificate) then Some(Erasure)
    else None
  }

  lemma NoFailure(d: CuPowDigests, s: CuPowPublicStatement)
    ensures FirstFailure(d, s).None? <==> Satisfies(d, s)
  {
  }

  /** The evaluator accepts exactly the statements that satisfy the unbounded relation. */
  lemma EvaluatesExactly(d: CuPowDigests, s: CuPowPublicStatement)
    requires |s.contract.contract.manifest.items| <= U64_MAX
    ensures EvaluateCupowRelation(d, s).Ok? <==> Satisfies(d, s)
  {
    RefusesExactly(d, s);
    NoFailure(d, s);
  }

  lemma ManifestExact(contract: CuPowContract)
    requires PolicyClause(contract.policy) && |contract.manifest.items| <= U64_MAX
    ensures var r := CheckManifest(contract);
            && (r.Ok? <==> ManifestClause(contract)) && (r.Ok? ==> r.value == WorkOf(contract.manifest.items))
            && (r.Err? ==> r.error == Manifest)
  {
    WorkExact(contract);
    FoldErrs(contract.manifest.items, contract.policy, 0, {}, 0);
  }

  lemma {:induction false} FoldErrs(items: seq<CuPowWorkItem>, policy: CuPowPolicy, index: nat, seen: set<string>,
                                    total: u128)
    requires index <= |items| && policy.tileSize != 0
    ensures var r := FoldWork(items, policy, index, seen, total); r.Err? ==> r.error == Manifest
    decreases |items| - index
  {
    if index == |items| {
    } else {
      var item := items[index];
      var sum := CheckedAdd(total, Cube(item.n));
      if sum.Some? {
        FoldErrs(items, policy, index + 1, seen + {item.operationId}, sum.value);
      }
    }
  }

  /** And it refuses the others with the error of the first clause that fails. */
  lemma RefusesExactly(d: CuPowDigests, s: CuPowPublicStatement)
    requires |s.contract.contract.manifest.items| <= U64_MAX
    ensures match FirstFailure(d, s)
            case None => EvaluateCupowRelation(d, s).Ok?
            case Some(error) => EvaluateCupowRelation(d, s) == Err(error)
  {
    var contract := s.contract.contract;
    ChecksAreClauses(d, s, WorkOf(contract.manifest.items));
    if PolicyClause(contract.policy) && EpochClause(d, contract) {
      ManifestExact(contract);
      CapacityExact(contract, WorkOf(contract.manifest.items));
      if CapacityClause(contract, WorkOf(contract.manifest.items)) {
        WorkFitsPpm(contract);
      }
    }
  }

  lemma WorkFitsPpm(contract: CuPowContract)
    requires PolicyClause(contract.policy) && contract.epoch.openedAt < contract.epoch.closedAt
    requires CapacityClause(contract, WorkOf(contract.manifest.items))
    ensures CheckedMul(WorkOf(contract.manifest.items), MILLION).Some?
    ensures 0 < CertifiedCapacity(contract) <= U128_MAX
  {
    U64Product(contract.policy.cMicroH100Hours, contract.capacity.certificate.h100eMacsPerHour);
    CapacityExact(contract, WorkOf(contract.manifest.items));
  }

  /** The reported quotient, whatever the clamp did. */
  lemma SaturationBounds(work: nat, certified: int, minimum: u32)
    requires certified > 0 && certified * minimum <= work * MILLION
    ensures work * MILLION / certified >= 0
    ensures var ppm := Clamp32(work * MILLION / certified);
            && ppm >= minimum && ppm * certified <= work * MILLION
            && (ppm < U32_MAX ==> work * MILLION < (ppm + 1) * certified)
  {
    FloorBounds(work * MILLION, certified, 0);
    var ppm: int := Clamp32(work * MILLION / certified);
    assert certified * minimum == minimum * certified;
    FloorBounds(work * MILLION, certified, minimum);
    FloorBounds(work * MILLION, certified, ppm);
    FloorBounds(work * MILLION, certified, ppm + 1);
  }

  lemma OutcomeReported(d: CuPowDigests, s: CuPowPublicStatement)
    requires |s.contract.contract.manifest.items| <= U64_MAX && EvaluateCupowRelation(d, s).Ok?
    ensures var o, contract := EvaluateCupowRelation(d, s).value, s.contract.contract;
            && Satisfies(d, s) && o.securityWork == WorkOf(contract.manifest.items)
            && o.certifiedCapacity == CertifiedCapacity(contract) > 0
            && o.saturationPpm == Clamp32(o.securityWork * MILLION / o.certifiedCapacity)
  {
    EvaluatesExactly(d, s);
    WorkExact(s.contract.contract);
    CapacityExact(s.contract.contract, WorkOf(s.contract.contract.manifest.items));
  }

  /** The reported ppm, held against the unrounded potential: less than one ppm-MAC too high, and
      less than one ppm too low. */
  lemma UnroundedBounds(contract: CuPowContract, work: int, ppm: int)
    requires ppm > 0 && ppm * CertifiedCapacity(contract) <= work * MILLION
    ensures ppm * Potential(contract) < (work * MILLION + ppm) * BILLION
    ensures work * MILLION < (ppm + 1) * CertifiedCapacity(contract)
            ==> work * MILLION * BILLION < (ppm + 1) * Potential(contract)
  {
    var c, p, w := CertifiedCapacity(contract), Potential(contract), work * MILLION;
    CapableExactly(contract, c);
    CapableExactly(contract, c + 1);
    MulLt(p, (c + 1) * BILLION, ppm);
    assert ppm * ((c + 1) * BILLION) == (ppm * c + ppm) * BILLION;
    MulLe(ppm * c + ppm, w + ppm, BILLION);
    if w < (ppm + 1) * c {
      MulLt(w, (ppm + 1) * c, BILLION);
      MulLe(c * BILLION, p, ppm + 1);
      assert ((ppm + 1) * c) * BILLION == (c * BILLION) * (ppm + 1);
    }
  }

  /**
   * An honest report: distinct operations, the sum of their cubes as work, the largest whole number of MACs the
   * rate completes as capacity, a saturation that is at least the signed minimum and the largest whole ppm of
   * that capacity the work reaches (up to the 32-bit clamp), and work within the signed budget.  Against the
   * unrounded potential the saturation exceeds the work by less than ppm millionths of one MAC.
   */
  ghost predicate HonestReport(contract: CuPowContract, o: CuPowOutcome) {
    && DistinctIds(contract.manifest.items) && o.securityWork == WorkOf(contract.manifest.items)
    && Capable(contract, o.certifiedCapacity) && !Capable(contract, o.certifiedCapacity + 1)
    && o.saturationPpm >= contract.policy.minSaturationPpm
    && o.saturationPpm * o.certifiedCapacity <= o.securityWork * MILLION
    && o.saturationPpm * Potential(contract) < (o.securityWork * MILLION + o.saturationPpm) * BILLION
    && (o.saturationPpm < U32_MAX ==>
          o.securityWork * MILLION < (o.saturationPpm + 1) * o.certifiedCapacity
          && o.securityWork * MILLION * BILLION < (o.saturationPpm + 1) * Potential(contract))
    && o.securityWork * MILLION <= Budget(contract)
  }

  /** Every accepted statement gets an honest report. */
  lemma AcceptedWork(d: CuPowDigests, s: CuPowPublicStatement)
    requires |s.contract.contract.manifest.items| <= U64_MAX && EvaluateCupowRelation(d, s).Ok?
    ensures HonestReport(s.contract.contract, EvaluateCupowRelation(d, s).value)
  {
    OutcomeReported(d, s);
    ReportIsHonest(s.contract.contract, EvaluateCupowRelation(d, s).value);
  }

  lemma ReportIsHonest(contract: CuPowContract, o: CuPowOutcome)
    requires PolicyClause(contract.policy) && DistinctIds(contract.manifest.items)
    requires CapacityClause(contract, o.securityWork) && o.securityWork == WorkOf(contract.manifest.items)
    requires o.certifiedCapacity == CertifiedCapacity(contract) > 0
    requires o.saturationPpm == Clamp32(o.securityWork * MILLION / o.certifiedCapacity)
    ensures HonestReport(contract, o)
  {
    CheckIsClause(contract, o.securityWork);
    CapableExactly(contract, o.certifiedCapacity);
    CapableExactly(contract, o.certifiedCapacity + 1);
    SaturationBounds(o.securityWork, o.certifiedCapacity, contract.policy.minSaturationPpm);
    UnroundedBounds(contract, o.securityWork, o.saturationPpm);
  }
}
