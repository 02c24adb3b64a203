/** Wire types of the protocol crate. */
module Types {
  import opened Integers

  type Hash32 = h: seq<u8> | |h| == 32 witness seq(32, _ => 0)

  const ZERO_HASH: Hash32 := [0, 0, 0, 0, 0, 0, 0, 0, 0, 0, 0, 0, 0, 0, 0, 0,
                              0, 0, 0, 0, 0, 0, 0, 0, 0, 0, 0, 0, 0, 0, 0, 0]

  datatype Option<+T> = None | Some(value: T)

  const PROTOCOL_VERSION := "pocomp.v1"
  const CUPOW_PROTOCOL_VERSION := "pocomp.cupow.v1"
  const CUPOW_ARITHMETIC_PROFILE := "f251-int8-r128.v1"
  const CUPOW_TRANSCRIPT_PROFILE := "zktorch-bn254-kzg-row-commitments-v1"
  const EXACT_PAIRING_PROGRAM := "exact-one-ingress-one-egress.v1"
  const ZKTORCH_VERSION := "63b9c68960f3ca84026d89428dd6d8129e930d53"

  datatype Direction = Ingress | Egress

  datatype CommitmentScheme = ZkTorchKzgBn254V1

  datatype ContentCommitment = ContentCommitment(scheme: CommitmentScheme, digest: Hash32)

  datatype MessageDescriptor = MessageDescriptor(
    protocolVersion: string,
    gatewayId: string,
    podId: string,
    incarnationId: string,
    epochId: string,
    direction: Direction,
    sequence: u64,
    taskId: string,
    programId: string,
    startedAt: u64,
    endedAt: u64,
    encodedLen: u64)

  datatype GatewayLeaf = GatewayLeaf(descriptor: MessageDescriptor, content: ContentCommitment)

  datatype GatewayRoot = GatewayRoot(
    protocolVersion: string,
    gatewayId: string,
    podId: string,
    incarnationId: string,
    epochId: string,
    root: Hash32,
    leafCount: u64)

  type Signature = seq<u8>
  type PublicKey = seq<u8>

  datatype SignedGatewayRoot = SignedGatewayRoot(statement: GatewayRoot, signature: Signature)

  datatype PodPolicy = PodPolicy(
    eraseIntervalNs: u64,
    podCapacityPerHour: u64,
    maxCompute: u64,
    maxIngressBits: u64,
    maxEgressBits: u64,
    unrecordedChannelBound: Option<u64>,
    residualStateBound: Option<u64>)

  datatype TaskPolicy = TaskPolicy(
    maxCompute: u64,
    maxIngressBits: u64,
    maxEgressBits: u64,
    maxTasks: u64,
    sampleNumerator: u64,
    sampleDenominator: u64,
    auxMaxBits: u64)

  datatype MonitoringPolicy = MonitoringPolicy(protocolVersion: string, pod: PodPolicy, task: TaskPolicy)

  datatype ErasureKind = VastDestroyReplace | AuditedPhysicalErasure

  datatype ErasureCertificate = ErasureCertificate(
    protocolVersion: string,
    kind: ErasureKind,
    logicalPodId: string,
    oldIncarnationId: string,
    newIncarnationId: string,
    boundaryAt: u64,
    oldDestroyedAt: u64,
    newStartedAt: u64,
    oldImageDigest: string,
    newImageDigest: string,
    evidenceDigest: Hash32)

  datatype SignedErasureCertificate = SignedErasureCertificate(certificate: ErasureCertificate, signature: Signature)

  datatype EpochStatement = EpochStatement(
    protocolVersion: string,
    epochId: string,
    podId: string,
    incarnationId: string,
    openedAt: u64,
    closedAt: u64,
    initialCommitment: Hash32,
    taskProgramCommitment: Hash32,
    auxCommitment: Hash32,
    samplingSeed: Hash32)

  datatype AuditContract = AuditContract(protocolVersion: string, policy: MonitoringPolicy, epoch: EpochStatement)

  datatype SignedAuditContract = SignedAuditContract(contract: AuditContract, signature: Signature)

  datatype ModelFormat = FixedShapeQuantizedOnnxV1

  datatype ZkTorchParameters = ZkTorchParameters(
    powLenLog: u32, loadedPowLenLog: u32, scaleFactorLog: u32, cqRangeLog: u32, cqRangeLowerLog: u32)

  datatype TaskProgram = TaskProgram(
    protocolVersion: string,
    programId: string,
    taskListProgram: string,
    modelFormat: ModelFormat,
    architectureDigest: Hash32,
    tensorSpecDigest: Hash32,
    modelCommitment: Hash32,
    setupDigest: Hash32,
    parameters: ZkTorchParameters,
    maxCompute: u64)

  datatype ZkTorchStatement = ZkTorchStatement(
    protocolVersion: string,
    proofSystemVersion: string,
    epochId: string,
    taskId: string,
    programId: string,
    architectureDigest: Hash32,
    tensorSpecDigest: Hash32,
    modelCommitment: Hash32,
    setupDigest: Hash32,
    parameters: ZkTorchParameters,
    inputCommitment: Hash32,
    outputCommitment: Hash32)

  datatype PodRelationInput = PodRelationInput(
    policy: MonitoringPolicy,
    epoch: EpochStatement,
    gatewayRoot: SignedGatewayRoot,
    gatewayKey: PublicKey,
    leaves: seq<GatewayLeaf>,
    erasure: SignedErasureCertificate)

  datatype TaskRelationInput = TaskRelationInput(
    policy: MonitoringPolicy,
    epoch: EpochStatement,
    gatewayRoot: SignedGatewayRoot,
    gatewayKey: PublicKey,
    leaves: seq<GatewayLeaf>,
    program: TaskProgram,
    aux: seq<u8>,
    sampledStatements: map<string, ZkTorchStatement>)

  datatype PodPublicStatement = PodPublicStatement(
    policy: MonitoringPolicy,
    epoch: EpochStatement,
    gatewayRoot: SignedGatewayRoot,
    erasure: SignedErasureCertificate)

  datatype TaskPublicStatement = TaskPublicStatement(
    policy: MonitoringPolicy,
    epoch: EpochStatement,
    gatewayRoot: SignedGatewayRoot,
    program: TaskProgram,
    sampledStatements: map<string, ZkTorchStatement>)

  function PodPublic(input: PodRelationInput): PodPublicStatement {
    PodPublicStatement(input.policy, input.epoch, input.gatewayRoot, input.erasure)
  }

  function TaskPublic(input: TaskRelationInput): TaskPublicStatement {
    TaskPublicStatement(input.policy, input.epoch, input.gatewayRoot, input.program, input.sampledStatements)
  }

  datatype Assurance = Experimental | PaperCompliant

  datatype RelationOutcome = RelationOutcome(
    assurance: Assurance,
    ingressBits: u64,
    egressBits: u64,
    taskCount: u64,
    sampledTaskIds: seq<string>)

  datatype ProofArtifact = ProofArtifact(
    backend: string, backendVersion: string, statementDigest: Hash32, proofBytes: seq<u8>)

  datatype TaskProof = TaskProof(statement: ZkTorchStatement, proof: ProofArtifact)

  datatype AuditBundle = AuditBundle(
    protocolVersion: string,
    auditContract: SignedAuditContract,
    podStatement: PodPublicStatement,
    taskStatement: TaskPublicStatement,
    podRelationProof: ProofArtifact,
    taskRelationProof: ProofArtifact,
    taskProofs: seq<TaskProof>)
}
