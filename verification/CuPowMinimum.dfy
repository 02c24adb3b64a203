/** For which signed terms every accepted statement meets the minimum of the unrounded rate. */
module CuPowMinimum {
  import opened Integers
  import opened NumberTheory
  import opened Types
  import opened CuPowTypes
  import opened CuPowRelation

  /** The work is below the signed share of what the rate does, fractions of a MAC included. */
  ghost predicate MissesMinimum(contract: CuPowContract, work: int) {
    work * MILLION * BILLION < contract.policy.minSaturationPpm * Potential(contract)
  }

  /** Accepted work never misses it by more than the signed share of one MAC. */
  lemma ShortfallBelowOneMac(contract: CuPowContract, work: int)
    requires PolicyClause(contract.policy) && CapacityClause(contract, work)
    ensures var ppm := contract.policy.minSaturationPpm;
            ppm * Potential(contract) < (work * MILLION + ppm) * BILLION
  {
    var ppm := contract.policy.minSaturationPpm;
    CheckIsClause(contract, work);
    assert CertifiedCapacity(contract) * ppm == ppm * CertifiedCapacity(contract);
    UnroundedBounds(contract, work, ppm);
  }

  // --------------------------------------------------------------- the work there can be

  /** The work of the smallest item; the work of every item is a multiple of it. */
  const UNIT: int := 0x4000_0000

  /** The evaluator's own guard: the rounded-up share of the whole MACs. */
  function Required(contract: CuPowContract): int {
    CeilDiv(CertifiedCapacity(contract) * contract.policy.minSaturationPpm, MILLION)
  }

  /** How many units of work cover it. */
  function LeastUnits(contract: CuPowContract): int {
    CeilDiv(Required(contract), UNIT)
  }

  function LeastWork(contract: CuPowContract): int {
    LeastUnits(contract) * UNIT
  }

  lemma {:induction false} PowerDivides(n: nat, k: nat)
    requires PowerOfTwo(n) && PowerOfTwo(k) && k <= n
    ensures n % k == 0
  {
    if k == 1 {
    } else {
      PowerDivides(n / 2, k / 2);
      var q := (n / 2) / (k / 2);
      assert n / 2 == q * (k / 2);
      assert n == q * k by { assert q * (2 * (k / 2)) == 2 * (q * (k / 2)); }
      ModMultiple(q, k);
    }
  }

  lemma Is1024PowerOfTwo()
    ensures PowerOfTwo(1024) && PowerOfTwo(16384)
  {
    assert PowerOfTwo(2) && PowerOfTwo(4) && PowerOfTwo(8) && PowerOfTwo(16) && PowerOfTwo(32) && PowerOfTwo(64);
    assert PowerOfTwo(128) && PowerOfTwo(256) && PowerOfTwo(512) && PowerOfTwo(1024);
    assert PowerOfTwo(2048) && PowerOfTwo(4096) && PowerOfTwo(8192);
  }

  lemma CubeOfMultiple(a: int)
    ensures Cube(1024 * a) == Cube(a) * UNIT
  {
    assert (1024 * a) * (1024 * a) == 0x10_0000 * (a * a);
  }

  lemma ItemUnits(item: CuPowWorkItem, policy: CuPowPolicy)
    requires PolicyClause(policy) && ItemClause(item, policy)
    ensures Cube(item.n) % UNIT == 0
  {
    Is1024PowerOfTwo();
    PowerDivides(item.n, 1024);
    CubeOfMultiple(item.n / 1024);
    ModMultiple(Cube(item.n / 1024), UNIT);
  }

  lemma AddUnits(x: int, y: int)
    requires x % UNIT == 0 && y % UNIT == 0
    ensures (x + y) % UNIT == 0
  {
  }

  /** Whatever valid items a manifest lists, its work is a whole number of units. */
  lemma {:induction false} WorkUnits(items: seq<CuPowWorkItem>, policy: CuPowPolicy)
    requires PolicyClause(policy) && forall k | 0 <= k < |items| :: ItemClause(items[k], policy)
    ensures WorkOf(items) % UNIT == 0
  {
    if items == [] {
    } else {
      var last := items[|items| - 1];
      WorkUnits(items[..|items| - 1], policy);
      ItemUnits(last, policy);
      AddUnits(CubeOfN(last), WorkOf(items[..|items| - 1]));
    }
  }

  lemma LeastUnitsIs(contract: CuPowContract, units: int)
    ensures LeastUnits(contract) <= units <==> Required(contract) <= units * UNIT
  {
  }

  lemma ClauseAtLeast(contract: CuPowContract, work: int)
    requires PolicyClause(contract.policy) && CapacityClause(contract, work)
    ensures Required(contract) <= work
    ensures forall less: int | Required(contract) <= less <= work :: CapacityClause(contract, less)
  {
    var share := CertifiedCapacity(contract) * contract.policy.minSaturationPpm;
    CheckIsClause(contract, work);
    CeilDivLe(share, work);
    forall less: int | Required(contract) <= less <= work ensures CapacityClause(contract, less) {
      CeilDivLe(share, less);
      CheckIsClause(contract, less);
    }
  }

  // ------------------------------------------------------- statements under given terms

  /** The contract for another workload under the same policy, capacity and times. */
  function ForWorkload(d: CuPowDigests, contract: CuPowContract, manifest: CuPowWorkloadManifest): CuPowContract {
    contract.(manifest := manifest, epoch := contract.epoch.(workloadCommitment := d.workload(manifest)))
  }

  /** Everything the relation asks of the terms, whatever the workload. */
  ghost predicate TermsHold(d: CuPowDigests, contract: CuPowContract) {
    ContractProfile(contract) && PolicyClause(contract.policy) && EpochClause(d, contract)
  }

  function Identity(k: nat): (id: string)
    ensures |id| == k + 1
  {
    seq(k + 1, _ => 'w')
  }

  const SOME_HASH: Hash32 := ZERO_HASH[0 := 1]

  function ItemOf(k: nat, n: u32): CuPowWorkItem {
    CuPowWorkItem(Identity(k), n, SOME_HASH, SOME_HASH, SOME_HASH)
  }

  /** The widest items first, then the narrowest ones. */
  function Items(wide: nat, narrow: nat): (items: seq<CuPowWorkItem>)
    ensures |items| == wide + narrow
    ensures forall k | 0 <= k < |items| :: items[k] == ItemOf(k, if k < wide then 16384 else 1024)
  {
    seq(wide + narrow, k requires 0 <= k => ItemOf(k, if k < wide then 16384 else 1024))
  }

  lemma ItemsDistinct(wide: nat, narrow: nat)
    ensures DistinctIds(Items(wide, narrow))
  {
    var items := Items(wide, narrow);
    forall k | 0 <= k < |items| ensures FreshId(items, k) {
      forall i | 0 <= i < k ensures items[i].operationId != items[k].operationId {
        assert |items[i].operationId| == i + 1 && |items[k].operationId| == k + 1;
      }
    }
  }

  lemma ItemsValid(wide: nat, narrow: nat, policy: CuPowPolicy)
    requires PolicyClause(policy)
    ensures forall k | 0 <= k < wide + narrow :: ItemClause(Items(wide, narrow)[k], policy)
  {
    Is1024PowerOfTwo();
    forall k | 0 <= k < wide + narrow ensures ItemClause(Items(wide, narrow)[k], policy) {
      ItemOfValid(k, if k < wide then 16384 else 1024, policy);
    }
  }

  lemma ItemOfValid(k: nat, n: u32, policy: CuPowPolicy)
    requires PolicyClause(policy) && PowerOfTwo(n) && (n == 1024 || n == 16384)
    ensures ItemClause(ItemOf(k, n), policy)
  {
    assert SOME_HASH[0] != ZERO_HASH[0];
  }

  lemma {:induction false} ItemsWork(wide: nat, narrow: nat)
    ensures WorkOf(Items(wide, narrow)) == (4096 * wide + narrow) * UNIT
  {
    var items := Items(wide, narrow);
    CubesInUnits();
    if narrow > 0 {
      ItemsWork(wide, narrow - 1);
      LastItemWork(items, Items(wide, narrow - 1));
    } else if wide > 0 {
      ItemsWork(wide - 1, 0);
      LastItemWork(items, Items(wide - 1, 0));
    } else {
      assert items == [];
    }
  }

  lemma CubesInUnits()
    ensures Cube(16384) == 4096 * UNIT && Cube(1024) == UNIT
  {
  }

  lemma LastItemWork(items: seq<CuPowWorkItem>, init: seq<CuPowWorkItem>)
    requires items != [] && init == items[..|items| - 1]
    ensures WorkOf(items) == Cube(items[|items| - 1].n) + WorkOf(init)
  {
  }

  /** A manifest of so many units of work. */
  function ManifestOf(units: nat): CuPowWorkloadManifest
    requires units * UNIT <= U128_MAX
  {
    CuPowWorkloadManifest(CUPOW_PROTOCOL_VERSION, "w", Items(units / 4096, units % 4096), units * UNIT)
  }

  function ErasureFor(contract: CuPowContract): ErasureCertificate {
    var epoch := contract.epoch;
    ErasureCertificate(PROTOCOL_VERSION, VastDestroyReplace, epoch.podId, epoch.incarnationId,
                       epoch.incarnationId + "+",
                       epoch.closedAt, epoch.closedAt, epoch.closedAt,
                       contract.capacity.certificate.runnerImageDigest, "image", SOME_HASH)
  }

  /** A statement that does so many units of work under this contract's terms. */
  function StatementOf(d: CuPowDigests, terms: CuPowContract, units: nat): CuPowPublicStatement
    requires units * UNIT <= U128_MAX
  {
    var contract := ForWorkload(d, terms, ManifestOf(units));
    var challenge := CuPowChallenge(CUPOW_PROTOCOL_VERSION, contract.epoch.epochId, d.contract(contract), SOME_HASH,
                                    contract.epoch.openedAt, contract.epoch.closedAt);
    var completion := CuPowCompletion(CUPOW_PROTOCOL_VERSION, contract.epoch.epochId, d.challenge(challenge), SOME_HASH,
                                      SOME_HASH, units * UNIT, contract.epoch.openedAt);
    CuPowPublicStatement(CUPOW_PROTOCOL_VERSION, SignedCuPowContract(contract, []), SignedCuPowChallenge(challenge, []),
                         SignedCuPowCompletion(completion, []), SignedErasureCertificate(ErasureFor(contract), []))
  }

  lemma ManifestHolds(d: CuPowDigests, terms: CuPowContract, units: nat)
    requires PolicyClause(terms.policy) && 0 < units && units * UNIT <= U128_MAX
    ensures ManifestClause(ForWorkload(d, terms, ManifestOf(units)))
    ensures WorkOf(ManifestOf(units).items) == units * UNIT
  {
    ItemsDistinct(units / 4096, units % 4096);
    ItemsValid(units / 4096, units % 4096, terms.policy);
    ItemsWork(units / 4096, units % 4096);
    assert units == 4096 * (units / 4096) + units % 4096;
  }

  lemma IncarnationsDiffer(s: string)
    ensures s != s + "+"
  {
    assert |s + "+"| == |s| + 1;
  }

  lemma StatementSatisfies(d: CuPowDigests, terms: CuPowContract, units: nat)
    requires TermsHold(d, terms) && 0 < units && units * UNIT <= U128_MAX && CapacityClause(terms, units * UNIT)
    ensures Satisfies(d, StatementOf(d, terms, units))
  {
    var s := StatementOf(d, terms, units);
    var contract := s.contract.contract;
    ManifestHolds(d, terms, units);
    IncarnationsDiffer(terms.epoch.incarnationId);
    assert SOME_HASH[0] != ZERO_HASH[0];
    assert CapacityClause(contract, units * UNIT) by {
      SameTermsSameClause(d, terms, ManifestOf(units), units * UNIT);
    }
    assert EpochClause(d, contract) && ErasureClause(contract, s.erasure.certificate);
  }

  lemma SameTermsSameClause(d: CuPowDigests, terms: CuPowContract, manifest: CuPowWorkloadManifest, work: int)
    ensures CapacityClause(ForWorkload(d, terms, manifest), work) <==> CapacityClause(terms, work)
    ensures MissesMinimum(ForWorkload(d, terms, manifest), work) <==> MissesMinimum(terms, work)
  {
    CheckIsClause(terms, work);
    CheckIsClause(ForWorkload(d, terms, manifest), work);
  }

  /** The least work there can be is done by fewer items than a list can hold. */
  lemma LeastUnitsFit(terms: CuPowContract)
    requires PolicyClause(terms.policy) && terms.epoch.openedAt < terms.epoch.closedAt && Capable(terms, 1)
    ensures 0 < LeastUnits(terms) && LeastWork(terms) <= U128_MAX
    ensures LeastUnits(terms) / 4096 + LeastUnits(terms) % 4096 <= U64_MAX
  {
    var certified, ppm := CertifiedCapacity(terms), terms.policy.minSaturationPpm;
    CapableExactly(terms, 1);
    CapacityExact(terms, 0);
    U64Product(terms.capacity.certificate.maxMacsPerSecond, terms.epoch.closedAt - terms.epoch.openedAt);
    MulLe(ppm, MILLION, certified);
    MulLe(1, certified, ppm);
    assert 1 <= Required(terms) <= certified;
  }

  /** Under these terms every accepted statement meets the minimum of the unrounded rate. */
  ghost predicate MinimumKept(d: CuPowDigests, terms: CuPowContract) {
    forall s: CuPowPublicStatement | AcceptedUnder(d, terms, s) ::
      !MissesMinimum(terms, WorkOf(s.contract.contract.manifest.items))
  }

  ghost predicate AcceptedUnder(d: CuPowDigests, terms: CuPowContract, s: CuPowPublicStatement) {
    && s.contract.contract == ForWorkload(d, terms, s.contract.contract.manifest)
    && |s.contract.contract.manifest.items| <= U64_MAX && EvaluateCupowRelation(d, s).Ok?
  }

  lemma LeastWorkAccepted(d: CuPowDigests, terms: CuPowContract)
    requires TermsHold(d, terms) && CapacityClause(terms, LeastWork(terms))
    ensures 0 < LeastUnits(terms) && LeastWork(terms) <= U128_MAX
    ensures var s := StatementOf(d, terms, LeastUnits(terms));
            AcceptedUnder(d, terms, s) && WorkOf(s.contract.contract.manifest.items) == LeastWork(terms)
  {
    LeastUnitsFit(terms);
    var units := LeastUnits(terms);
    ManifestHolds(d, terms, units);
    StatementSatisfies(d, terms, units);
    EvaluatesExactly(d, StatementOf(d, terms, units));
  }

  lemma AcceptedAboveLeast(d: CuPowDigests, terms: CuPowContract, s: CuPowPublicStatement)
    requires PolicyClause(terms.policy) && AcceptedUnder(d, terms, s)
    ensures LeastWork(terms) <= WorkOf(s.contract.contract.manifest.items) && CapacityClause(terms, LeastWork(terms))
  {
    var manifest := s.contract.contract.manifest;
    var work := WorkOf(manifest.items);
    EvaluatesExactly(d, s);
    WorkUnits(manifest.items, terms.policy);
    SameTermsSameClause(d, terms, manifest, work);
    ClauseAtLeast(terms, work);
    assert work == (work / UNIT) * UNIT;
    LeastUnitsIs(terms, work / UNIT);
    LeastUnitsIs(terms, LeastUnits(terms));
  }

  /**
   * The terms keep the minimum if and only if the least work a manifest can do for them, once the evaluator
   * would accept it, covers the signed share of the unrounded rate.  It is known before there is any work.
   */
  lemma MinimumKeptExactly(d: CuPowDigests, terms: CuPowContract)
    requires TermsHold(d, terms)
    ensures MinimumKept(d, terms)
            <==> (CapacityClause(terms, LeastWork(terms)) ==>
                    terms.policy.minSaturationPpm * Potential(terms) <= LeastWork(terms) * MILLION * BILLION)
  {
    if CapacityClause(terms, LeastWork(terms)) {
      LeastWorkAccepted(d, terms);
      assert AcceptedUnder(d, terms, StatementOf(d, terms, LeastUnits(terms)));
    }
    if CapacityClause(terms, LeastWork(terms)) ==> !MissesMinimum(terms, LeastWork(terms)) {
      forall s: CuPowPublicStatement | AcceptedUnder(d, terms, s)
        ensures !MissesMinimum(terms, WorkOf(s.contract.contract.manifest.items))
      {
        AcceptedAboveLeast(d, terms, s);
      }
    }
  }

  // ---------------------------------------------------------------- terms that do not keep it

  function OddRateCertificate(): CuPowCapacityCertificate {
    CuPowCapacityCertificate(CUPOW_PROTOCOL_VERSION, "pod", "old", "gpu", 1, IMAGE_MARK + seq(64, _ => '0'), SOME_HASH,
                             1, 1_000_000, 0, U64_MAX)
  }

  /** One MAC a second for a nanosecond longer than 2^30 seconds, all of it to be used. */
  function OddRateTerms(d: CuPowDigests): CuPowContract {
    var manifest := CuPowWorkloadManifest(CUPOW_PROTOCOL_VERSION, "", [], 0);
    CuPowContract(
      CUPOW_PROTOCOL_VERSION,
      CuPowPolicy(CUPOW_PROTOCOL_VERSION, CUPOW_ARITHMETIC_PROFILE, CUPOW_TRANSCRIPT_PROFILE, 1_073_741_824, 1_000_000,
                  PRODUCTION_MIN_N, PRODUCTION_MAX_N, PRODUCTION_TILE_SIZE),
      CuPowEpoch(CUPOW_PROTOCOL_VERSION, "epoch", "pod", "old", 0, 1_073_741_824_000_000_001, SOME_HASH,
                 d.workload(manifest)),
      SignedCuPowCapacityCertificate(OddRateCertificate(), []),
      manifest)
  }

  lemma OddRateTermsHold(d: CuPowDigests)
    ensures TermsHold(d, OddRateTerms(d))
  {
    var image := IMAGE_MARK + seq(64, _ => '0');
    assert SOME_HASH[0] != ZERO_HASH[0];
    assert image[|image| - 64 - |IMAGE_MARK|..|image| - 64] == IMAGE_MARK && AllHex(image[|image| - 64..]);
    ImageDigestExactly(image);
  }

  /** Such terms exist: under these the evaluator accepts a statement that misses the minimum. */
  lemma MinimumCanBeMissed(d: CuPowDigests) returns (s: CuPowPublicStatement)
    ensures EvaluateCupowRelation(d, s).Ok?
    ensures MissesMinimum(s.contract.contract, WorkOf(s.contract.contract.manifest.items))
  {
    var terms := OddRateTerms(d);
    OddRateTermsHold(d);
    assert Potential(terms) == 1_073_741_824_000_000_001 && Budget(terms) == 1_073_741_824 * MILLION;
    assert CertifiedCapacity(terms) == UNIT && Required(terms) == UNIT && LeastUnits(terms) == 1;
    CheckIsClause(terms, LeastWork(terms));
    LeastWorkAccepted(d, terms);
    s := StatementOf(d, terms, 1);
    SameTermsSameClause(d, terms, s.contract.contract.manifest, LeastWork(terms));
  }
}
