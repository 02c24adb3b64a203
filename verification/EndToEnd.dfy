/** What an accepted audit bundle implies, from the proofs down to one ledger. */
module EndToEnd {
  import opened Integers
  import opened Outcomes
  import opened NumberTheory
  import opened Types
  import opened Sampling
  import opened Commitment
  import opened MerklePadding
  import opened Relation
  import opened RelationTheorems
  import opened RelationSemantics
  import V = Verifier
  import opened Gateway
  import P = GatewayProtocol

  /** The witnesses a knowledge extractor finds in the two SP1 proofs of a bundle. */
  datatype Extractor = Extractor(
    pod: AuditBundle -> PodRelationInput,
    task: AuditBundle -> TaskRelationInput)

  /** Soundness of the relation proofs of one bundle: an accepted proof has a witness that the
      guest evaluator accepts and whose public part has the digest the proof was checked for. */
  ghost predicate SoundFor(c: Primitives, x: V.Context, v: V.External, e: Extractor, bundle: AuditBundle) {
    && (V.PodAttested(x, v, bundle) ==>
          EvaluatePodRelation(c, e.pod(bundle)).Ok?
          && x.podDigest(PodPublic(e.pod(bundle))) == x.podDigest(bundle.podStatement))
    && (V.TaskAttested(x, v, bundle) ==>
          EvaluateTaskRelation(c, e.task(bundle)).Ok?
          && x.taskDigest(TaskPublic(e.task(bundle))) == x.taskDigest(bundle.taskStatement))
  }

  /** The digests and hashes evaluated for this bundle do not collide. */
  ghost predicate NoCollisions(c: Primitives, x: V.Context, e: Extractor, bundle: AuditBundle) {
    var p, t := e.pod(bundle), e.task(bundle);
    && (x.podDigest(PodPublic(p)) == x.podDigest(bundle.podStatement) ==> PodPublic(p) == bundle.podStatement)
    && (x.taskDigest(TaskPublic(t)) == x.taskDigest(bundle.taskStatement) ==> TaskPublic(t) == bundle.taskStatement)
    && CollisionFree(c.hasher.sha256, RootInputs(c.hasher, p.leaves) + RootInputs(c.hasher, t.leaves))
    && CanonicalOn(c.hasher, p.leaves + t.leaves)
    && |p.leaves| <= U64_MAX && |t.leaves| <= U64_MAX
  }

  lemma PodAcceptsRoot(c: Primitives, input: PodRelationInput)
    requires EvaluatePodRelation(c, input).Ok?
    ensures ValidateGateway(c, input.policy, input.epoch, input.gatewayRoot, input.gatewayKey, input.leaves).Ok?
  {
  }

  lemma TaskAcceptsRoot(c: Primitives, input: TaskRelationInput)
    requires EvaluateTaskRelation(c, input).Ok?
    ensures PairTasks(c, input).Ok?
    ensures ValidateGateway(c, input.policy, input.epoch, input.gatewayRoot, input.gatewayKey, input.leaves).Ok?
  {
  }

  lemma ValidatedRoot(c: Primitives, policy: MonitoringPolicy, epoch: EpochStatement, signed: SignedGatewayRoot,
                      key: PublicKey, leaves: seq<GatewayLeaf>)
    requires ValidateGateway(c, policy, epoch, signed, key, leaves).Ok?
    ensures signed.statement.leafCount == AsU64(|leaves|) && signed.statement.root == MerkleRoot(c.hasher, leaves)
  {
  }

  /** Two ledgers validated under one signed root are one ledger with one pair of bit totals. */
  lemma OneRootOneLedger(c: Primitives, signed: SignedGatewayRoot,
                         policy1: MonitoringPolicy, epoch1: EpochStatement, key1: PublicKey, xs: seq<GatewayLeaf>,
                         policy2: MonitoringPolicy, epoch2: EpochStatement, key2: PublicKey, ys: seq<GatewayLeaf>)
    requires ValidateGateway(c, policy1, epoch1, signed, key1, xs).Ok?
    requires ValidateGateway(c, policy2, epoch2, signed, key2, ys).Ok?
    requires |xs| <= U64_MAX && |ys| <= U64_MAX
    requires CollisionFree(c.hasher.sha256, RootInputs(c.hasher, xs) + RootInputs(c.hasher, ys))
    requires CanonicalOn(c.hasher, xs + ys)
    ensures xs == ys
    ensures ValidateGateway(c, policy1, epoch1, signed, key1, xs).value
            == ValidateGateway(c, policy2, epoch2, signed, key2, ys).value
  {
    ValidatedRoot(c, policy1, epoch1, signed, key1, xs);
    ValidatedRoot(c, policy2, epoch2, signed, key2, ys);
    ModSmall(|xs|, TWO_64);
    ModSmall(|ys|, TWO_64);
    RootDeterminesLeaves(c.hasher, xs, ys);
    AccountExact(epoch1, signed.statement.gatewayId, xs);
    AccountExact(epoch2, signed.statement.gatewayId, ys);
    AccountedValue(c, policy1, epoch1, signed, key1, xs);
    AccountedValue(c, policy2, epoch2, signed, key2, ys);
  }

  lemma AccountedValue(c: Primitives, policy: MonitoringPolicy, epoch: EpochStatement, signed: SignedGatewayRoot,
                       key: PublicKey, leaves: seq<GatewayLeaf>)
    requires ValidateGateway(c, policy, epoch, signed, key, leaves).Ok?
    ensures AccountFrom(epoch, signed.statement.gatewayId, leaves, 0, Totals(0, 0))
            == ValidateGateway(c, policy, epoch, signed, key, leaves)
  {
  }

  /** The sampled task has exactly one verified proof, for the commitments of its two leaves. */
  ghost predicate BoundProof(x: V.Context, v: V.External, bundle: AuditBundle, leaves: seq<GatewayLeaf>, id: string) {
    exists k, i, j :: BoundProofAt(x, v, bundle, leaves, id, k, i, j)
  }

  ghost predicate BoundProofAt(x: V.Context, v: V.External, bundle: AuditBundle, leaves: seq<GatewayLeaf>, id: string,
                               k: nat, i: nat, j: nat)
  {
    && k < |bundle.taskProofs| && V.ProofAttested(x, v, bundle.taskProofs[k])
    && (forall l | 0 <= l < |bundle.taskProofs| && bundle.taskProofs[l].statement.taskId == id :: l == k)
    && i < |leaves| && j < |leaves|
    && leaves[i].descriptor.taskId == id && leaves[i].descriptor.direction == Ingress
    && leaves[j].descriptor.taskId == id && leaves[j].descriptor.direction == Egress
    && Binds(bundle.taskProofs[k].statement, bundle.taskStatement.epoch, bundle.taskStatement.program,
             leaves[i], leaves[j])
  }

  lemma LeafHasPartner(leaves: seq<GatewayLeaf>, k: nat)
    requires EveryLeafPaired(leaves) && k < |leaves|
    ensures HasPartner(leaves, k)
  {
  }

  lemma PartnersOf(leaves: seq<GatewayLeaf>, k: nat) returns (i: nat, j: nat)
    requires k < |leaves| && HasPartner(leaves, k)
    ensures PartnersAt(leaves, i, j) && leaves[i].descriptor.taskId == leaves[k].descriptor.taskId
  {
    var d := leaves[k].descriptor;
    var l :| 0 <= l < |leaves| && leaves[l].descriptor.taskId == d.taskId
             && leaves[l].descriptor.direction == Opposite(d.direction);
    if d.direction == Ingress { i, j := k, l; } else { i, j := l, k; }
  }

  lemma PartnersBound(c: Primitives, x: V.Context, v: V.External, bundle: AuditBundle, t: TaskRelationInput, id: string,
                      i: nat, j: nat)
    requires StatementsHold(c, t) && TaskPublic(t) == bundle.taskStatement && Chosen(c, t, id)
    requires PartnersAt(t.leaves, i, j) && t.leaves[i].descriptor.taskId == id
    requires V.OneProofEach(bundle.taskStatement.sampledStatements, bundle.taskProofs)
    requires forall k | 0 <= k < |bundle.taskProofs| :: V.ProofAttested(x, v, bundle.taskProofs[k])
    ensures BoundProof(x, v, bundle, t.leaves, id)
  {
    assert id in t.sampledStatements && BoundTo(t, t.sampledStatements[id], i, j);
    assert V.ProvenOnce(t.sampledStatements, bundle.taskProofs, id);
    var k :| V.ProvesAt(t.sampledStatements, bundle.taskProofs, id, k)
             && forall l | 0 <= l < |bundle.taskProofs| && bundle.taskProofs[l].statement.taskId == id :: l == k;
    assert BoundProofAt(x, v, bundle, t.leaves, id, k, i, j);
  }

  lemma ChosenBound(c: Primitives, x: V.Context, v: V.External, bundle: AuditBundle, t: TaskRelationInput, id: string)
    requires StatementsHold(c, t) && EveryLeafPaired(t.leaves)
    requires TaskPublic(t) == bundle.taskStatement && Chosen(c, t, id)
    requires V.OneProofEach(bundle.taskStatement.sampledStatements, bundle.taskProofs)
    requires forall k | 0 <= k < |bundle.taskProofs| :: V.ProofAttested(x, v, bundle.taskProofs[k])
    ensures BoundProof(x, v, bundle, t.leaves, id)
  {
    var k :| 0 <= k < |t.leaves| && t.leaves[k].descriptor.taskId == id;
    LeafHasPartner(t.leaves, k);
    var i, j := PartnersOf(t.leaves, k);
    PartnersBound(c, x, v, bundle, t, id, i, j);
  }

  /** End to end: an accepted bundle speaks about one single ledger.  It satisfies the Pod and the
      Task relation under the audited policy and epoch, the statements are the ones derived from it,
      each task of it drawn below the sampling threshold has exactly one verified proof bound to its leaves'
      commitments, and the assurance of the bundle is the one the Pod relation gives. */
  lemma AcceptedBundleHasOneLedger(c: Primitives, x: V.Context, v: V.External, e: Extractor, bundle: AuditBundle,
                                   auditorKey: PublicKey, gatewayKey: PublicKey)
    requires V.VerifyAuditBundle(x, v, bundle, auditorKey, gatewayKey).Ok?
    requires SoundFor(c, x, v, e, bundle) && NoCollisions(c, x, e, bundle)
    ensures var p, t, contract := e.pod(bundle), e.task(bundle), bundle.auditContract.contract;
            && p.leaves == t.leaves
            && EvaluatePodRelation(c, p).Ok? && EvaluateTaskRelation(c, t).Ok? && PodHolds(c, p) && TaskHolds(c, t)
            && p.policy == t.policy == contract.policy && p.epoch == t.epoch == contract.epoch
            && p.gatewayRoot == t.gatewayRoot && x.gatewayRootSigned(p.gatewayRoot, gatewayKey)
            && EvaluatePodRelation(c, p).value.ingressBits == EvaluateTaskRelation(c, t).value.ingressBits
            && EvaluatePodRelation(c, p).value.egressBits == EvaluateTaskRelation(c, t).value.egressBits
            && SampledZkTorchStatements(c, t.policy, t.epoch, t.program, t.leaves)
               == Ok(bundle.taskStatement.sampledStatements)
            && (forall id | Chosen(c, t, id) :: BoundProof(x, v, bundle, t.leaves, id))
            && V.VerifyAuditBundle(x, v, bundle, auditorKey, gatewayKey).value
               == EvaluatePodRelation(c, p).value.assurance
  {
    V.BundleAcceptedExactly(x, v, bundle, auditorKey, gatewayKey);
    var p, t := e.pod(bundle), e.task(bundle);
    PodAcceptsRoot(c, p);
    TaskAcceptsRoot(c, t);
    OneRootOneLedger(c, p.gatewayRoot, p.policy, p.epoch, p.gatewayKey, p.leaves,
                     t.policy, t.epoch, t.gatewayKey, t.leaves);
    AcceptsExactlyDerived(c, t);
    PodAcceptsExactly(c, p);
    TaskAcceptsExactly(c, t);
    PodOutcomeExactly(c, p);
    TaskOutcomeExactly(c, t);
    V.BundleAssuranceExactly(x, v, bundle, auditorKey, gatewayKey);
    forall id | Chosen(c, t, id) ensures BoundProof(x, v, bundle, t.leaves, id) {
      ChosenBound(c, x, v, bundle, t, id);
    }
  }

  /** One epoch a gateway ran: its configuration and the run of its requests and seals. */
  datatype GatewayEpoch = GatewayEpoch(config: EpochConfig, run: P.Run)

  /** The seal call at position k of this epoch released this statement. */
  ghost predicate Released(h: Hasher, epoch: GatewayEpoch, k: nat, statement: GatewayRoot) {
    && P.IsRun(epoch.config, epoch.run) && P.SealsAt(epoch.run, k)
    && statement == RootStatement(h, epoch.config, epoch.run.states[k].ledger.leaves)
  }

  /** Unforgeability: under the gateway's key verify only statements some seal of its epochs released. */
  ghost predicate OnlySealsSign(h: Hasher, x: V.Context, key: PublicKey, epochs: seq<GatewayEpoch>) {
    forall signed: SignedGatewayRoot | x.gatewayRootSigned(signed, key) :: SomeSealReleased(h, epochs, signed.statement)
  }

  ghost predicate SomeSealReleased(h: Hasher, epochs: seq<GatewayEpoch>, statement: GatewayRoot) {
    exists n, k :: 0 <= n < |epochs| && Released(h, epochs[n], k, statement)
  }

  /** The hashed inputs of these two ledgers do not collide, and their leaves encode canonically. */
  ghost predicate Distinguished(h: Hasher, xs: seq<GatewayLeaf>, ys: seq<GatewayLeaf>) {
    && CollisionFree(h.sha256, RootInputs(h, xs) + RootInputs(h, ys)) && CanonicalOn(h, xs + ys)
    && |xs| <= U64_MAX && |ys| <= U64_MAX
  }

  ghost predicate SealsDistinguished(h: Hasher, epoch: GatewayEpoch, leaves: seq<GatewayLeaf>) {
    forall k: nat | P.SealsIn(epoch.run, k) :: Distinguished(h, leaves, epoch.run.states[k].ledger.leaves)
  }

  /** These are the leaves the seal call at position k of this epoch handed out, and it is this epoch. */
  ghost predicate IsSealOf(epoch: GatewayEpoch, k: nat, epochId: string, leaves: seq<GatewayLeaf>) {
    && P.IsRun(epoch.config, epoch.run) && P.SealsIn(epoch.run, k) && epoch.run.states[k].ledger.leaves == leaves
    && P.SealedLedger(epoch.config, epoch.run.states[k].ledger) && epoch.config.epochId == epochId
  }

  lemma ReleasedLedgerIsValidated(c: Primitives, t: TaskRelationInput, epoch: GatewayEpoch, k: nat)
    requires EvaluateTaskRelation(c, t).Ok? && Released(c.hasher, epoch, k, t.gatewayRoot.statement)
    requires Distinguished(c.hasher, t.leaves, epoch.run.states[k].ledger.leaves)
    ensures t.leaves == epoch.run.states[k].ledger.leaves && P.SealedLedger(epoch.config, epoch.run.states[k].ledger)
  {
    P.SealImpliesPaired(epoch.config, epoch.run, k);
    TaskAcceptsRoot(c, t);
    ValidatedRoot(c, t.policy, t.epoch, t.gatewayRoot, t.gatewayKey, t.leaves);
    ModSmall(|t.leaves|, TWO_64);
    ModSmall(|epoch.run.states[k].ledger.leaves|, TWO_64);
    RootDeterminesLeaves(c.hasher, t.leaves, epoch.run.states[k].ledger.leaves);
  }

  /** From the gateway's key alone: an accepted bundle's one ledger is the sealed ledger of one of the
      gateway's epochs. */
  lemma BundleSpeaksOfSealedLedger(c: Primitives, x: V.Context, v: V.External, e: Extractor, bundle: AuditBundle,
                                   auditorKey: PublicKey, gatewayKey: PublicKey, epochs: seq<GatewayEpoch>)
    returns (n: nat, k: nat)
    requires V.VerifyAuditBundle(x, v, bundle, auditorKey, gatewayKey).Ok?
    requires SoundFor(c, x, v, e, bundle) && NoCollisions(c, x, e, bundle)
    requires OnlySealsSign(c.hasher, x, gatewayKey, epochs)
    requires forall m | 0 <= m < |epochs| :: SealsDistinguished(c.hasher, epochs[m], e.task(bundle).leaves)
    ensures e.pod(bundle).leaves == e.task(bundle).leaves
    ensures n < |epochs| && IsSealOf(epochs[n], k, bundle.podStatement.epoch.epochId, e.task(bundle).leaves)
  {
    AcceptedBundleHasOneLedger(c, x, v, e, bundle, auditorKey, gatewayKey);
    var t := e.task(bundle);
    assert SomeSealReleased(c.hasher, epochs, t.gatewayRoot.statement);
    n, k :| 0 <= n < |epochs| && Released(c.hasher, epochs[n], k, t.gatewayRoot.statement);
    assert SealsDistinguished(c.hasher, epochs[n], t.leaves) && P.SealsIn(epochs[n].run, k);
    ReleasedLedgerIsValidated(c, t, epochs[n], k);
    V.BundleAcceptedExactly(x, v, bundle, auditorKey, gatewayKey);
    ReleasedEpochId(c, t, epochs[n], k);
  }

  lemma ReleasedEpochId(c: Primitives, t: TaskRelationInput, epoch: GatewayEpoch, k: nat)
    requires EvaluateTaskRelation(c, t).Ok? && Released(c.hasher, epoch, k, t.gatewayRoot.statement)
    ensures epoch.config.epochId == t.epoch.epochId
  {
  }
}
