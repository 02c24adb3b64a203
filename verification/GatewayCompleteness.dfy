/** Sealed gateway ledgers against the relation evaluators. */
module GatewayCompleteness {
  import opened Integers
  import opened Types
  import opened Relation
  import opened RelationTheorems
  import opened RelationSemantics
  import opened Gateway
  import P = GatewayProtocol
  import T = GatewayTime

  /** The epoch statement is about the epoch the gateway was configured for. */
  ghost predicate EpochMatches(config: EpochConfig, epoch: EpochStatement) {
    && epoch.protocolVersion == PROTOCOL_VERSION && epoch.openedAt < epoch.closedAt
    && epoch.podId == config.podId && epoch.incarnationId == config.incarnationId && epoch.epochId == config.epochId
    && epoch.openedAt == config.openedAt && epoch.closedAt == config.closedAt
  }

  lemma SealedLeavesFit(config: EpochConfig, ledger: LedgerState, epoch: EpochStatement)
    requires P.SealedLedger(config, ledger) && EpochMatches(config, epoch) && config.programId != ""
    ensures forall k | 0 <= k < |ledger.leaves| ::
              RelationTheorems.LeafFits(ledger.leaves, k, epoch, config.gatewayId)
  {
  }

  /** `validate_gateway` accepts a sealed epoch exactly when its byte counts do not overflow,
      and returns its exact bit totals. */
  lemma SealedValidates(c: Primitives, config: EpochConfig, ledger: LedgerState, sign: GatewayRoot -> Signature,
                        policy: MonitoringPolicy, epoch: EpochStatement, key: PublicKey)
    requires P.SealedLedger(config, ledger) && EpochMatches(config, epoch) && ValidatePolicy(policy).Ok?
    requires config.programId != ""
    requires c.verifyGateway(SealedResponse(c.hasher, sign, config, ledger.leaves).signedRoot, key)
    ensures var r := ValidateGateway(c, policy, epoch, SealedResponse(c.hasher, sign, config, ledger.leaves).signedRoot,
                                     key, ledger.leaves);
            && (r.Ok? <==> TotalsFit(ledger.leaves))
            && (r.Ok? ==> r.value.ingress == 8 * TotalLen(ledger.leaves, Ingress)
                          && r.value.egress == 8 * TotalLen(ledger.leaves, Egress))
  {
    AccountExact(epoch, config.gatewayId, ledger.leaves);
    SealedLeavesFit(config, ledger, epoch);
  }

  // ------------------------------------------------------------------------- pairing

  lemma PairedLeaf(config: EpochConfig, ledger: LedgerState, k: nat) returns (i: nat, j: nat)
    requires P.SealedLedger(config, ledger) && k < |ledger.leaves|
    ensures P.PairAt(ledger.leaves, i, j) && (k == i || k == j)
    ensures P.OwnsExactly(ledger.leaves, ledger.leaves[k].descriptor.taskId, {i, j})
  {
    assert P.PairedOnce(ledger.leaves, ledger.leaves[k].descriptor.taskId);
    i, j :| P.PairAt(ledger.leaves, i, j)
            && P.OwnsExactly(ledger.leaves, ledger.leaves[k].descriptor.taskId, {i, j});
    assert k in {i, j};
  }

  lemma SealedNoRepeat(config: EpochConfig, ledger: LedgerState)
    requires P.SealedLedger(config, ledger)
    ensures NoRepeat(ledger.leaves) && EveryLeafPaired(ledger.leaves)
  {
    var leaves := ledger.leaves;
    forall k | 0 <= k < |leaves|
      ensures FreshAt(leaves, k) && HasPartner(leaves, k)
    {
      var i, j := PairedLeaf(config, ledger, k);
      forall l | 0 <= l < k ensures !SameSlot(leaves[l], leaves[k]) {
        if leaves[l].descriptor.taskId == leaves[k].descriptor.taskId {
          assert l in {i, j};
        }
      }
      assert i in {i, j} && j in {i, j};
      assert leaves[i].descriptor.taskId == leaves[j].descriptor.taskId;
    }
  }

  lemma SealedOrder(config: EpochConfig, ledger: LedgerState, i: nat, j: nat)
    requires P.SealedLedger(config, ledger) && PartnersAt(ledger.leaves, i, j)
    ensures i < j
  {
    var a, b := PairedLeaf(config, ledger, i);
    assert ledger.leaves[j].descriptor.taskId == ledger.leaves[i].descriptor.taskId;
    assert i in {a, b} && j in {a, b};
  }

  lemma SealedProgram(config: EpochConfig, ledger: LedgerState)
    requires P.SealedLedger(config, ledger)
    ensures forall k | 0 <= k < |ledger.leaves| :: ledger.leaves[k].descriptor.programId == config.programId
  {
    forall k | 0 <= k < |ledger.leaves| ensures ledger.leaves[k].descriptor.programId == config.programId {
      assert P.LeafFits(config, ledger.leaves, k);
    }
  }

  /** A sealed ledger has the structure the Task relation asks for; time and sizes are left open. */
  lemma SealedStructure(config: EpochConfig, ledger: LedgerState)
    requires P.SealedLedger(config, ledger)
    ensures NoRepeat(ledger.leaves) && EveryLeafPaired(ledger.leaves) && OrderedInLedger(ledger.leaves)
    ensures forall k | 0 <= k < |ledger.leaves| :: ledger.leaves[k].descriptor.programId == config.programId
  {
    SealedNoRepeat(config, ledger);
    SealedProgram(config, ledger);
    forall i, j | PartnersAt(ledger.leaves, i, j) ensures i < j {
      SealedOrder(config, ledger, i, j);
    }
  }

  // --------------------------------------------------------------- the whole relation

  /** An honest task input built from one sealed epoch: everything but the ledger's own
      order, sizes and counts is as it should be. */
  ghost predicate HonestInput(c: Primitives, config: EpochConfig, ledger: LedgerState, sign: GatewayRoot -> Signature,
                              input: TaskRelationInput)
  {
    && input.leaves == ledger.leaves
    && input.gatewayRoot == SealedResponse(c.hasher, sign, config, ledger.leaves).signedRoot
    && c.verifyGateway(input.gatewayRoot, input.gatewayKey)
    && EpochMatches(config, input.epoch) && ValidatePolicy(input.policy).Ok?
    && c.programCommitment(input.program) == input.epoch.taskProgramCommitment && ProgramValid(input.program)
    && input.policy.task.auxMaxBits == 0 && input.aux == [] && input.epoch.auxCommitment == c.emptyAux
    && input.program.maxCompute <= input.policy.task.maxCompute
    && input.program.programId == config.programId && config.programId != ""
    && |ledger.leaves| <= U64_MAX
  }

  ghost predicate WithinLimits(policy: TaskPolicy, leaves: seq<GatewayLeaf>) {
    TotalsFit(leaves) && |leaves| <= 2 * policy.maxTasks && AllCapped(policy, leaves)
  }

  /** Completeness, with its exact condition: a sealed ledger passes everything before the
      statements if and only if its tasks are ordered in time and within the policy's limits. */
  lemma SealedPairsIff(c: Primitives, config: EpochConfig, ledger: LedgerState, sign: GatewayRoot -> Signature,
                       input: TaskRelationInput)
    requires P.SealedLedger(config, ledger) && HonestInput(c, config, ledger, sign, input)
    ensures PairTasks(c, input).Ok?
            <==> OrderedInTime(ledger.leaves) && WithinLimits(input.policy.task, ledger.leaves)
  {
    SealedValidates(c, config, ledger, sign, input.policy, input.epoch, input.gatewayKey);
    GatewayExact(c, input.policy, input.epoch, input.gatewayRoot, input.gatewayKey, input.leaves);
    SealedStructure(config, ledger);
    PairTasksExact(c, input);
  }

  /** A sealed run is accepted, with the statements derived from it, if and only if no request saw its
      own clock step back and the ledger is within the limits. */
  lemma SealedRunAccepted(c: Primitives, config: EpochConfig, run: P.Run, k: nat, sign: GatewayRoot -> Signature,
                          input: TaskRelationInput)
    requires P.IsRun(config, run) && P.SealsAt(run, k)
    requires HonestInput(c, config, run.states[k].ledger, sign, input)
    ensures AcceptedAsDerived(c, input)
            <==> T.ForwardEach(run.steps[..k]) && WithinLimits(input.policy.task, run.states[k].ledger.leaves)
  {
    P.SealImpliesPaired(config, run, k);
    T.SealedOrderExactly(config, run, k);
    SealedPairsIff(c, config, run.states[k].ledger, sign, input);
    DerivedAcceptance(c, input);
  }

  /** The statement map derived from the input makes the relation accept. */
  ghost predicate AcceptedAsDerived(c: Primitives, input: TaskRelationInput) {
    var derived := SampledZkTorchStatements(c, input.policy, input.epoch, input.program, input.leaves);
    derived.Ok? && EvaluateTaskRelation(c, input.(sampledStatements := derived.value)).Ok?
  }

  lemma DerivedAcceptance(c: Primitives, input: TaskRelationInput)
    ensures AcceptedAsDerived(c, input) <==> PairTasks(c, input).Ok?
  {
    var derived := SampledZkTorchStatements(c, input.policy, input.epoch, input.program, input.leaves);
    if PairTasks(c, input).Ok? {
      DerivedReverifies(c, input);
    } else if derived.Ok? {
      AcceptsExactlyDerived(c, input.(sampledStatements := derived.value));
      PairTasksIgnoresStatements(c, input, derived.value);
    }
  }
}
