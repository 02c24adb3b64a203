/** Wire types of the gateway-free cuPOW profile. */
module CuPowTypes {
  import opened Integers
  import opened Types

  datatype CuPowCapacityCertificate = CuPowCapacityCertificate(
    protocolVersion: string,
    podId: string,
    incarnationId: string,
    gpuModel: string,
    gpuCount: u32,
    runnerImageDigest: string,
    runnerBinaryDigest: Hash32,
    maxMacsPerSecond: u64,
    h100eMacsPerHour: u64,
    validFrom: u64,
    validUntil: u64)

  datatype SignedCuPowCapacityCertificate =
    SignedCuPowCapacityCertificate(certificate: CuPowCapacityCertificate, signature: Signature)

  datatype CuPowPolicy = CuPowPolicy(
    protocolVersion: string,
    arithmeticProfile: string,
    transcriptProfile: string,
    cMicroH100Hours: u64,
    minSaturationPpm: u32,
    matrixMinN: u32,
    matrixMaxN: u32,
    tileSize: u32)

  datatype CuPowWorkItem = CuPowWorkItem(
    operationId: string, n: u32, leftCommitment: Hash32, rightCommitment: Hash32, purposeDigest: Hash32)

  datatype CuPowWorkloadManifest = CuPowWorkloadManifest(
    protocolVersion: string, workloadId: string, items: seq<CuPowWorkItem>, securityWork: u128)

  datatype CuPowEpoch = CuPowEpoch(
    protocolVersion: string,
    epochId: string,
    podId: string,
    incarnationId: string,
    openedAt: u64,
    closedAt: u64,
    initialCommitment: Hash32,
    workloadCommitment: Hash32)

  datatype CuPowContract = CuPowContract(
    protocolVersion: string,
    policy: CuPowPolicy,
    epoch: CuPowEpoch,
    capacity: SignedCuPowCapacityCertificate,
    manifest: CuPowWorkloadManifest)

  datatype SignedCuPowContract = SignedCuPowContract(contract: CuPowContract, signature: Signature)

  datatype CuPowChallenge = CuPowChallenge(
    protocolVersion: string, epochId: string, contractDigest: Hash32, seed: Hash32, issuedAt: u64, deadline: u64)

  datatype SignedCuPowChallenge = SignedCuPowChallenge(challenge: CuPowChallenge, signature: Signature)

  datatype CuPowCompletion = CuPowCompletion(
    protocolVersion: string,
    epochId: string,
    challengeDigest: Hash32,
    transcriptRoot: Hash32,
    outputRoot: Hash32,
    securityWork: u128,
    completedAt: u64)

  datatype SignedCuPowCompletion = SignedCuPowCompletion(completion: CuPowCompletion, signature: Signature)

  datatype CuPowPublicStatement = CuPowPublicStatement(
    protocolVersion: string,
    contract: SignedCuPowContract,
    challenge: SignedCuPowChallenge,
    completion: SignedCuPowCompletion,
    erasure: SignedErasureCertificate)

  datatype CuPowAssurance = CalibratedGpuSaturation

  datatype CuPowOutcome = CuPowOutcome(securityWork: u128, certifiedCapacity: u128, saturationPpm: u32)

  datatype CuPowBundle = CuPowBundle(protocolVersion: string, statement: CuPowPublicStatement, proof: ProofArtifact)

  /** The canonical digests, left uninterpreted. */
  datatype CuPowDigests = CuPowDigests(
    workload: CuPowWorkloadManifest -> Hash32,
    contract: CuPowContract -> Hash32,
    challenge: CuPowChallenge -> Hash32,
    statement: CuPowPublicStatement -> Hash32)
}
