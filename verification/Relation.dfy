/** The Pod and Task relations over a gateway ledger. */
module Relation {
  import opened Integers
  import opened Outcomes
  import opened Types
  import opened Ordering
  import opened Sampling
  import opened Commitment

  datatype RelationError =
    | ProtocolVersion | PolicyInvalid | EpochInvalid | GatewaySignature | GatewayStatement | GatewayRootMismatch
    | Descriptor | Sequence | AccountingOverflow | PodIngress | PodEgress | ErasureSchedule | PodCompute
    | ErasureCertificateInvalid | TaskProgramCommitment | TaskProgramInvalid | AuxiliaryInput | TaskCompleteness
    | TaskOrder | TaskCount | TaskIngress | TaskEgress | TaskCompute | SampleSet | ZkTorchBinding

  type Checked<+T> = Outcome<T, RelationError>

  /** The primitives the relations call and this model leaves uninterpreted. */
  datatype Primitives = Primitives(
    hasher: Hasher,
    verifyGateway: (SignedGatewayRoot, PublicKey) -> bool,
    programCommitment: TaskProgram -> Hash32,
    emptyAux: Hash32,
    draw: DrawFunction)

  function AsU64(n: nat): u64 {
    n % TWO_64
  }

  // ---------------------------------------------------------------- validate_gateway

  function ValidatePolicy(policy: MonitoringPolicy): Checked<()> {
    if policy.protocolVersion != PROTOCOL_VERSION then Err(ProtocolVersion)
    else if policy.pod.eraseIntervalNs == 0 then Err(PolicyInvalid)
    else if !ValidRate(policy.task) then Err(PolicyInvalid)
    else Ok(())
  }

  datatype Totals = Totals(ingress: u64, egress: u64)

  /** The checks of identity and timing on one descriptor. */
  predicate BadDescriptor(d: MessageDescriptor, epoch: EpochStatement, gatewayId: string) {
    || d.protocolVersion != PROTOCOL_VERSION || d.gatewayId != gatewayId
    || d.podId != epoch.podId || d.incarnationId != epoch.incarnationId || d.epochId != epoch.epochId
    || d.startedAt < epoch.openedAt || d.endedAt > epoch.closedAt || d.startedAt > d.endedAt
    || d.taskId == "" || d.programId == ""
  }

  /** One turn of the accounting loop. */
  function AccountLeaf(epoch: EpochStatement, gatewayId: string, leaf: GatewayLeaf, index: nat, totals: Totals)
    : Checked<Totals>
  {
    var d := leaf.descriptor;
    :- Require(!BadDescriptor(d, epoch, gatewayId), Descriptor);
    :- Require(d.sequence == AsU64(index), Sequence);
    var bits: int := d.encodedLen * 8;
    :- Require(bits <= U64_MAX, AccountingOverflow);
    match d.direction
    case Ingress =>
      :- Require(totals.ingress + bits <= U64_MAX, AccountingOverflow);
      Ok(Totals(totals.ingress + bits, totals.egress))
    case Egress =>
      :- Require(totals.egress + bits <= U64_MAX, AccountingOverflow);
      Ok(Totals(totals.ingress, totals.egress + bits))
  }

  function AccountFrom(epoch: EpochStatement, gatewayId: string, leaves: seq<GatewayLeaf>, index: nat, totals: Totals)
    : Checked<Totals>
    requires index <= |leaves|
    decreases |leaves| - index
  {
    if index == |leaves| then Ok(totals)
    else
      var next :- AccountLeaf(epoch, gatewayId, leaves[index], index, totals);
      AccountFrom(epoch, gatewayId, leaves, index + 1, next)
  }

  /** The bit counters of `validate_gateway`. */
  method AccountLeaves(epoch: EpochStatement, gatewayId: string, leaves: seq<GatewayLeaf>) returns (r: Checked<Totals>)
    ensures r == AccountFrom(epoch, gatewayId, leaves, 0, Totals(0, 0))
  {
    var totals := Totals(0, 0);
    for index := 0 to |leaves|
      invariant AccountFrom(epoch, gatewayId, leaves, index, totals)
                == AccountFrom(epoch, gatewayId, leaves, 0, Totals(0, 0))
    {
      var next := AccountLeaf(epoch, gatewayId, leaves[index], index, totals);
      if next.Err? {
        return Err(next.error);
      }
      totals := next.value;
    }
    r := Ok(totals);
  }

  function ValidateGateway(c: Primitives, policy: MonitoringPolicy, epoch: EpochStatement, signed: SignedGatewayRoot,
                           key: PublicKey, leaves: seq<GatewayLeaf>): Checked<Totals>
  {
    var _ :- ValidatePolicy(policy);
    :- Require(epoch.protocolVersion == PROTOCOL_VERSION && epoch.openedAt < epoch.closedAt, EpochInvalid);
    :- Require(c.verifyGateway(signed, key), GatewaySignature);
    var s := signed.statement;
    :- Require(s.protocolVersion == PROTOCOL_VERSION && s.podId == epoch.podId
            && s.incarnationId == epoch.incarnationId && s.epochId == epoch.epochId, GatewayStatement);
    :- Require(s.leafCount == AsU64(|leaves|) && s.root == MerkleRoot(c.hasher, leaves), GatewayRootMismatch);
    AccountFrom(epoch, s.gatewayId, leaves, 0, Totals(0, 0))
  }

  // ------------------------------------------------------------------- pod relation

  function EvaluatePodRelation(c: Primitives, input: PodRelationInput): Checked<RelationOutcome> {
    var totals :- ValidateGateway(c, input.policy, input.epoch, input.gatewayRoot, input.gatewayKey, input.leaves);
    :- Require(totals.ingress <= input.policy.pod.maxIngressBits, PodIngress);
    :- Require(totals.egress <= input.policy.pod.maxEgressBits, PodEgress);
    var duration: int := input.epoch.closedAt - input.epoch.openedAt;
    :- Require(duration <= input.policy.pod.eraseIntervalNs, ErasureSchedule);
    :- Require((input.policy.pod.podCapacityPerHour * duration) / 3_600_000_000_000 <= input.policy.pod.maxCompute,
            PodCompute);
    var e := input.erasure.certificate;
    :- Require(e.protocolVersion == PROTOCOL_VERSION && e.logicalPodId == input.epoch.podId
            && e.oldIncarnationId == input.epoch.incarnationId
            && input.epoch.closedAt <= e.boundaryAt <= e.oldDestroyedAt <= e.newStartedAt
            && e.oldIncarnationId != e.newIncarnationId && e.oldImageDigest != "" && e.newImageDigest != "",
            ErasureCertificateInvalid);
    var assurance :=
      if e.kind == AuditedPhysicalErasure && BoundsPresent(input.policy.pod) then PaperCompliant else Experimental;
    Ok(RelationOutcome(assurance, totals.ingress, totals.egress, 0, []))
  }

  predicate BoundsPresent(policy: PodPolicy) {
    policy.unrecordedChannelBound.Some? && policy.residualStateBound.Some?
  }

  // ----------------------------------------------------------------------- grouping

  datatype TaskLeaves = TaskLeaves(ingress: Option<GatewayLeaf>, egress: Option<GatewayLeaf>)
  {
    function Slot(direction: Direction): Option<GatewayLeaf> {
      match direction
      case Ingress => ingress
      case Egress => egress
    }

    function Put(leaf: GatewayLeaf): TaskLeaves {
      match leaf.descriptor.direction
      case Ingress => TaskLeaves(Some(leaf), egress)
      case Egress => TaskLeaves(ingress, Some(leaf))
    }

    predicate Complete() {
      ingress.Some? && egress.Some?
    }
  }

  /** A BTreeMap: its keys in order, and its entries. */
  datatype Grouped = Grouped(order: seq<string>, entries: map<string, TaskLeaves>)

  const EMPTY_GROUPED := Grouped([], map[])

  /** `entry(task_id).or_insert((None, None))`. */
  function WithEntry(g: Grouped, id: string): (r: Grouped)
    ensures id in r.entries
  {
    if id in g.entries then g
    else Grouped(Insert(g.order, id), g.entries[id := TaskLeaves(None, None)])
  }

  function GroupLeaf(g: Grouped, leaf: GatewayLeaf): Checked<Grouped> {
    var id := leaf.descriptor.taskId;
    var h := WithEntry(g, id);
    :- Require(h.entries[id].Slot(leaf.descriptor.direction).None?, TaskCompleteness);
    Ok(Grouped(h.order, h.entries[id := h.entries[id].Put(leaf)]))
  }

  /** The grouping loop; the deriving side also checks each leaf's epoch. */
  function GroupFrom(leaves: seq<GatewayLeaf>, programId: string, epochId: Option<string>, index: nat, g: Grouped)
    : Checked<Grouped>
    requires index <= |leaves|
    decreases |leaves| - index
  {
    if index == |leaves| then Ok(g)
    else
      var d := leaves[index].descriptor;
      :- Require(d.programId == programId && (epochId.Some? ==> d.epochId == epochId.value), Descriptor);
      var next :- GroupLeaf(g, leaves[index]);
      GroupFrom(leaves, programId, epochId, index + 1, next)
  }

  method GroupLeaves(leaves: seq<GatewayLeaf>, programId: string, epochId: Option<string>) returns (r: Checked<Grouped>)
    ensures r == GroupFrom(leaves, programId, epochId, 0, EMPTY_GROUPED)
  {
    var grouped := EMPTY_GROUPED;
    for index := 0 to |leaves|
      invariant GroupFrom(leaves, programId, epochId, index, grouped)
                == GroupFrom(leaves, programId, epochId, 0, EMPTY_GROUPED)
    {
      var d := leaves[index].descriptor;
      if d.programId != programId || (epochId.Some? && d.epochId != epochId.value) {
        return Err(Descriptor);
      }
      var next := GroupLeaf(grouped, leaves[index]);
      if next.Err? {
        return Err(next.error);
      }
      grouped := next.value;
    }
    r := Ok(grouped);
  }

  predicate AllComplete(g: Grouped) {
    forall id | id in g.entries :: g.entries[id].Complete()
  }

  // --------------------------------------------------------------------- statements

  /** The statement the deriving side builds for one complete task. */
  function ExpectedStatement(epoch: EpochStatement, program: TaskProgram, id: string, pair: TaskLeaves)
    : ZkTorchStatement
    requires pair.Complete()
  {
    ZkTorchStatement(
      PROTOCOL_VERSION, ZKTORCH_VERSION, epoch.epochId, id, program.programId,
      program.architectureDigest, program.tensorSpecDigest, program.modelCommitment, program.setupDigest,
      program.parameters, pair.ingress.value.content.digest, pair.egress.value.content.digest)
  }

  /** The checking side's field-by-field comparison. */
  predicate StatementBound(s: ZkTorchStatement, epoch: EpochStatement, program: TaskProgram, id: string,
                           pair: TaskLeaves)
    requires pair.Complete()
  {
    && s.protocolVersion == PROTOCOL_VERSION && s.epochId == epoch.epochId && s.taskId == id
    && s.programId == program.programId && s.architectureDigest == program.architectureDigest
    && s.tensorSpecDigest == program.tensorSpecDigest && s.modelCommitment == program.modelCommitment
    && s.setupDigest == program.setupDigest && s.parameters == program.parameters
    && s.proofSystemVersion == ZKTORCH_VERSION && s.inputCommitment == pair.ingress.value.content.digest
    && s.outputCommitment == pair.egress.value.content.digest
  }

  predicate ProgramValid(program: TaskProgram) {
    program.protocolVersion == PROTOCOL_VERSION && program.taskListProgram == EXACT_PAIRING_PROGRAM
  }

  function Sampled(c: Primitives, policy: MonitoringPolicy, epoch: EpochStatement, g: Grouped): seq<string> {
    SampledTaskIds(c.draw, epoch.samplingSeed, epoch.epochId, g.order, policy.task)
  }

  /** `sampled_zktorch_statements`. */
  function SampledZkTorchStatements(c: Primitives, policy: MonitoringPolicy, epoch: EpochStatement,
                                    program: TaskProgram, leaves: seq<GatewayLeaf>)
    : Checked<map<string, ZkTorchStatement>>
  {
    var _ :- ValidatePolicy(policy);
    :- Require(ProgramValid(program), TaskProgramInvalid);
    var g :- GroupFrom(leaves, program.programId, Some(epoch.epochId), 0, EMPTY_GROUPED);
    if !AllComplete(g) then Err(TaskCompleteness)
    else
      var sampled := Sampled(c, policy, epoch, g);
      Ok(map id | id in sampled && id in g.entries :: ExpectedStatement(epoch, program, id, g.entries[id]))
  }

  // ------------------------------------------------------------------- task relation

  /** The ingress and the egress leaf of one task. */
  ghost predicate Partners(a: GatewayLeaf, b: GatewayLeaf) {
    a.descriptor.taskId == b.descriptor.taskId && a.descriptor.direction == Ingress && b.descriptor.direction == Egress
  }

  /** The ingress of every task ends before its egress starts. */
  ghost predicate OrderedInTime(leaves: seq<GatewayLeaf>) {
    forall i, j | 0 <= i < |leaves| && 0 <= j < |leaves| && Partners(leaves[i], leaves[j]) ::
      leaves[i].descriptor.endedAt <= leaves[j].descriptor.startedAt
  }

  /** Order and per-task bounds of one complete task. */
  function CheckPair(policy: TaskPolicy, pair: TaskLeaves): Checked<()>
    requires pair.Complete()
  {
    var i, e := pair.ingress.value.descriptor, pair.egress.value.descriptor;
    :- Require(i.sequence < e.sequence && i.endedAt <= e.startedAt, TaskOrder);
    :- Require(i.encodedLen * 8 <= U64_MAX && e.encodedLen * 8 <= U64_MAX, AccountingOverflow);
    :- Require(i.encodedLen * 8 <= policy.maxIngressBits, TaskIngress);
    :- Require(e.encodedLen * 8 <= policy.maxEgressBits, TaskEgress);
    Ok(())
  }

  /** The loop over `grouped.values()`, in key order. */
  function CheckPairs(policy: TaskPolicy, order: seq<string>, entries: map<string, TaskLeaves>): Checked<()>
    requires forall id | id in order :: id in entries && entries[id].Complete()
  {
    if order == [] then Ok(())
    else
      var _ :- CheckPair(policy, entries[order[0]]);
      CheckPairs(policy, order[1..], entries)
  }

  /** The final loop over the sampled ids. */
  function BindStatements(input: TaskRelationInput, entries: map<string, TaskLeaves>, sampled: seq<string>): Checked<()>
    requires forall id | id in sampled :: id in entries && entries[id].Complete()
  {
    if sampled == [] then Ok(())
    else
      var id := sampled[0];
      :- Require(id in input.sampledStatements, SampleSet);
      :- Require(StatementBound(input.sampledStatements[id], input.epoch, input.program, id, entries[id]),
                 ZkTorchBinding);
      BindStatements(input, entries, sampled[1..])
  }

  datatype Paired = Paired(totals: Totals, grouped: Grouped)

  /** Keys in order, each once, and exactly the entries. */
  ghost predicate IsBTree(g: Grouped) {
    Ascending(g.order) && forall id :: id in g.order <==> id in g.entries
  }

  lemma GroupLeafKeepsBTree(g: Grouped, leaf: GatewayLeaf)
    requires IsBTree(g) && GroupLeaf(g, leaf).Ok?
    ensures IsBTree(GroupLeaf(g, leaf).value)
  {
    var id := leaf.descriptor.taskId;
    if id !in g.entries {
      InsertAscending(g.order, id);
    }
  }

  lemma {:induction false} GroupFromKeepsBTree(leaves: seq<GatewayLeaf>, programId: string, epochId: Option<string>,
                                               index: nat, g: Grouped)
    requires index <= |leaves| && IsBTree(g) && GroupFrom(leaves, programId, epochId, index, g).Ok?
    ensures IsBTree(GroupFrom(leaves, programId, epochId, index, g).value)
    decreases |leaves| - index
  {
    if index == |leaves| {
    } else {
      GroupLeafKeepsBTree(g, leaves[index]);
      GroupFromKeepsBTree(leaves, programId, epochId, index + 1, GroupLeaf(g, leaves[index]).value);
    }
  }

  /** Everything `evaluate_task_relation` checks before it looks at the supplied statements. */
  function PairTasks(c: Primitives, input: TaskRelationInput): (r: Checked<Paired>)
    ensures r.Ok? ==> IsBTree(r.value.grouped) && AllComplete(r.value.grouped)
  {
    var totals :- ValidateGateway(c, input.policy, input.epoch, input.gatewayRoot, input.gatewayKey, input.leaves);
    :- Require(c.programCommitment(input.program) == input.epoch.taskProgramCommitment, TaskProgramCommitment);
    :- Require(ProgramValid(input.program), TaskProgramInvalid);
    :- Require(input.policy.task.auxMaxBits == 0 && input.aux == [] && input.epoch.auxCommitment == c.emptyAux,
            AuxiliaryInput);
    :- Require(input.program.maxCompute <= input.policy.task.maxCompute, TaskCompute);
    var g :- GroupFrom(input.leaves, input.program.programId, None, 0, EMPTY_GROUPED);
    GroupFromKeepsBTree(input.leaves, input.program.programId, None, 0, EMPTY_GROUPED);
    if !AllComplete(g) then Err(TaskCompleteness)
    else
      :- Require(AsU64(|g.order|) <= input.policy.task.maxTasks, TaskCount);
      var _ :- CheckPairs(input.policy.task, g.order, g.entries);
      Ok(Paired(totals, g))
  }

  function EvaluateTaskRelation(c: Primitives, input: TaskRelationInput): Checked<RelationOutcome> {
    var p :- PairTasks(c, input);
    var sampled := Sampled(c, input.policy, input.epoch, p.grouped);
    :- Require(input.sampledStatements.Keys == (set id | id in sampled), SampleSet);
    var _ :- BindStatements(input, p.grouped.entries, sampled);
    Ok(RelationOutcome(if BoundsPresent(input.policy.pod) then PaperCompliant else Experimental,
                       p.totals.ingress, p.totals.egress, AsU64(|p.grouped.order|), sampled))
  }
}
