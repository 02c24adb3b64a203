/** Fail-closed verification of audit bundles over external proof verifiers. */
module Verifier {
  import opened Integers
  import opened Outcomes
  import opened NumberTheory
  import opened Types
  import opened CuPowTypes

  const SP1_BACKEND := "sp1"
  const SP1_VERSION := "v6.2.2+150e6294959f40dbc3ba42eb21c8eccc14c95bc5"
  const ZKTORCH_BACKEND := "zk-torch"

  datatype VerifyError =
    | WrongProtocolVersion | StatementMismatch | BadGatewaySignature | BadAuditContractSignature
    | BadErasureSignature | UnsupportedBackend | ArtifactBinding | BackendUnavailable | BackendProtocol
    | ProofRejected | TaskProofSet | BadCuPowRelation | BadCuPowCapacitySignature | BadCuPowContractSignature
    | BadCuPowChallengeSignature | BadCuPowCompletionSignature

  type Verified<+T> = Outcome<T, VerifyError>

  datatype PublicStatement =
    | PodStatement(pod: PodPublicStatement)
    | TaskStatement(task: TaskPublicStatement)
    | ZkStatement(zk: ZkTorchStatement)
    | CuPowStatement(cupow: CuPowPublicStatement)

  datatype VerifyRequest = VerifyRequest(
    backend: string, backendVersion: string, statementDigest: Hash32, statement: PublicStatement, proofBytes: seq<u8>)

  /** How the pinned executable answered one request. */
  datatype Answer = Unavailable | Malformed | ExitedWithFailure | Response(verified: bool)

  /** `ExternalProofVerifier`: one executable per pinned backend and version. */
  datatype External = External(commands: map<(string, string), VerifyRequest -> Answer>)

  /** `validate_artifact`. */
  function ValidateArtifact(artifact: ProofArtifact, backend: string, version: string, statement: Hash32): Verified<()>
  {
    if artifact.backend != backend || artifact.backendVersion != version then Err(UnsupportedBackend)
    else if artifact.proofBytes == [] || artifact.statementDigest != statement then Err(ArtifactBinding)
    else Ok(())
  }

  /** `ExternalProofVerifier::verify`. */
  function Verify(v: External, artifact: ProofArtifact, backend: string, version: string, digest: Hash32,
                  statement: PublicStatement): Verified<()>
  {
    var _ :- ValidateArtifact(artifact, backend, version, digest);
    if (backend, version) !in v.commands then Err(UnsupportedBackend)
    else match v.commands[(backend, version)](
        VerifyRequest(artifact.backend, artifact.backendVersion, artifact.statementDigest, statement,
                      artifact.proofBytes))
      case Unavailable => Err(BackendUnavailable)
      case Malformed => Err(BackendProtocol)
      case ExitedWithFailure => Err(ProofRejected)
      case Response(verified) => if verified then Ok(()) else Err(ProofRejected)
  }

  /** The pinned executable for this backend and version, asked about this statement and these bytes,
      answered that it verified them. */
  ghost predicate Attested(v: External, artifact: ProofArtifact, backend: string, version: string, digest: Hash32,
                           statement: PublicStatement)
  {
    && artifact == ProofArtifact(backend, version, digest, artifact.proofBytes) && artifact.proofBytes != []
    && (backend, version) in v.commands
    && v.commands[(backend, version)](VerifyRequest(backend, version, digest, statement, artifact.proofBytes))
       == Response(true)
  }

  lemma VerifiesAttested(v: External, artifact: ProofArtifact, backend: string, version: string, digest: Hash32,
                         statement: PublicStatement)
    ensures Verify(v, artifact, backend, version, digest, statement).Ok?
            <==> Attested(v, artifact, backend, version, digest, statement)
  {
  }

  /** Why an artifact is not accepted: made for another verifier, about something else, no executable pinned for the
      verifier, or how that executable answered. */
  ghost function ArtifactFailure(v: External, artifact: ProofArtifact, backend: string, version: string,
                                 digest: Hash32, statement: PublicStatement): Option<VerifyError>
  {
    if !(artifact.backend == backend && artifact.backendVersion == version) then Some(UnsupportedBackend)
    else if artifact.proofBytes == [] || artifact.statementDigest != digest then Some(ArtifactBinding)
    else if (backend, version) !in v.commands then Some(UnsupportedBackend)
    else
      match v.commands[(backend, version)](VerifyRequest(backend, version, digest, statement, artifact.proofBytes))
      case Unavailable => Some(BackendUnavailable)
      case Malformed => Some(BackendProtocol)
      case ExitedWithFailure => Some(ProofRejected)
      case Response(false) => Some(ProofRejected)
      case Response(true) => None
  }

  lemma VerifyFails(v: External, artifact: ProofArtifact, backend: string, version: string, digest: Hash32,
                    statement: PublicStatement)
    ensures var r, e := Verify(v, artifact, backend, version, digest, statement),
                        ArtifactFailure(v, artifact, backend, version, digest, statement);
            && (r.Err? <==> e.Some?) && (r.Err? ==> r.error == e.value)
  {
  }

  // ------------------------------------------------------------------- task proof set

  function ValidateProofsFrom(expected: map<string, ZkTorchStatement>, proofs: seq<TaskProof>, index: nat,
                              seen: set<string>): Verified<()>
    requires index <= |proofs|
    decreases |proofs| - index
  {
    if index == |proofs| then Ok(())
    else
      var s := proofs[index].statement;
      :- Require(s.taskId !in seen && s.taskId in expected && expected[s.taskId] == s, TaskProofSet);
      ValidateProofsFrom(expected, proofs, index + 1, seen + {s.taskId})
  }

  function TaskProofSetCheck(expected: map<string, ZkTorchStatement>, proofs: seq<TaskProof>): Verified<()> {
    if |proofs| != |expected| then Err(TaskProofSet) else ValidateProofsFrom(expected, proofs, 0, {})
  }

  /** `validate_task_proof_set`, with its mutable `seen` set. */
  method ValidateTaskProofSet(expected: map<string, ZkTorchStatement>, proofs: seq<TaskProof>) returns (r: Verified<()>)
    ensures r == TaskProofSetCheck(expected, proofs)
  {
    if |proofs| != |expected| {
      return Err(TaskProofSet);
    }
    var seen: set<string> := {};
    for index := 0 to |proofs|
      invariant ValidateProofsFrom(expected, proofs, index, seen) == ValidateProofsFrom(expected, proofs, 0, {})
    {
      var s := proofs[index].statement;
      if s.taskId in seen || s.taskId !in expected || expected[s.taskId] != s {
        return Err(TaskProofSet);
      }
      seen := seen + {s.taskId};
    }
    r := Ok(());
  }

  /** Proof k is for the statement expected under this id. */
  ghost predicate ProvesAt(expected: map<string, ZkTorchStatement>, proofs: seq<TaskProof>, id: string, k: nat) {
    k < |proofs| && id in expected && proofs[k].statement == expected[id] && proofs[k].statement.taskId == id
  }

  /** Every expected statement has one proof and every proof is for an expected statement. */
  ghost predicate OneProofEach(expected: map<string, ZkTorchStatement>, proofs: seq<TaskProof>) {
    && (forall k | 0 <= k < |proofs| :: ProvesAt(expected, proofs, proofs[k].statement.taskId, k))
    && (forall j, k | 0 <= j < k < |proofs| :: proofs[j].statement.taskId != proofs[k].statement.taskId)
    && (forall id | id in expected :: ProvenOnce(expected, proofs, id))
  }

  ghost predicate ProvenOnce(expected: map<string, ZkTorchStatement>, proofs: seq<TaskProof>, id: string) {
    exists k :: ProvesAt(expected, proofs, id, k)
                && forall j | 0 <= j < |proofs| && proofs[j].statement.taskId == id :: j == k
  }

  function IdsBefore(proofs: seq<TaskProof>, index: nat): set<string>
    requires index <= |proofs|
  {
    set k | 0 <= k < index :: proofs[k].statement.taskId
  }

  ghost predicate GoodProof(expected: map<string, ZkTorchStatement>, proofs: seq<TaskProof>, k: nat)
    requires k < |proofs|
  {
    proofs[k].statement.taskId !in IdsBefore(proofs, k)
    && ProvesAt(expected, proofs, proofs[k].statement.taskId, k)
  }

  lemma {:induction false} ValidateProofsExact(expected: map<string, ZkTorchStatement>, proofs: seq<TaskProof>,
                                               index: nat)
    requires index <= |proofs|
    ensures ValidateProofsFrom(expected, proofs, index, IdsBefore(proofs, index)).Ok?
            <==> forall k | index <= k < |proofs| :: GoodProof(expected, proofs, k)
    decreases |proofs| - index
  {
    if index == |proofs| {
    } else {
      assert IdsBefore(proofs, index + 1) == IdsBefore(proofs, index) + {proofs[index].statement.taskId};
      if GoodProof(expected, proofs, index) {
        ValidateProofsExact(expected, proofs, index + 1);
      }
    }
  }

  lemma {:induction false} IdsCount(proofs: seq<TaskProof>, index: nat)
    requires index <= |proofs| && forall k | 0 <= k < index :: proofs[k].statement.taskId !in IdsBefore(proofs, k)
    ensures |IdsBefore(proofs, index)| == index
  {
    if index > 0 {
      IdsCount(proofs, index - 1);
      assert IdsBefore(proofs, index) == IdsBefore(proofs, index - 1) + {proofs[index - 1].statement.taskId};
    } else {
      assert IdsBefore(proofs, 0) == {};
    }
  }

  lemma AcceptedProofsCover(expected: map<string, ZkTorchStatement>, proofs: seq<TaskProof>, id: string)
    requires |proofs| == |expected| && id in expected
    requires forall k | 0 <= k < |proofs| :: GoodProof(expected, proofs, k)
    ensures ProvenOnce(expected, proofs, id)
  {
    forall k | 0 <= k < |proofs| ensures proofs[k].statement.taskId !in IdsBefore(proofs, k) {
      assert GoodProof(expected, proofs, k);
    }
    IdsCount(proofs, |proofs|);
    forall x | x in IdsBefore(proofs, |proofs|) ensures x in expected.Keys {
      var k :| 0 <= k < |proofs| && proofs[k].statement.taskId == x;
      assert GoodProof(expected, proofs, k);
    }
    SubsetOfEqualSize(IdsBefore(proofs, |proofs|), expected.Keys);
    assert id in IdsBefore(proofs, |proofs|);
    var k :| 0 <= k < |proofs| && proofs[k].statement.taskId == id;
    assert GoodProof(expected, proofs, k);
    DistinctIds(expected, proofs);
  }

  lemma DistinctIds(expected: map<string, ZkTorchStatement>, proofs: seq<TaskProof>)
    requires forall k | 0 <= k < |proofs| :: GoodProof(expected, proofs, k)
    ensures forall j, k | 0 <= j < k < |proofs| :: proofs[j].statement.taskId != proofs[k].statement.taskId
  {
    forall j, k | 0 <= j < k < |proofs|
      ensures proofs[j].statement.taskId != proofs[k].statement.taskId
    {
      assert GoodProof(expected, proofs, k);
      assert proofs[j].statement.taskId in IdsBefore(proofs, k);
    }
  }

  lemma TaskProofSetSound(expected: map<string, ZkTorchStatement>, proofs: seq<TaskProof>)
    requires TaskProofSetCheck(expected, proofs).Ok?
    ensures OneProofEach(expected, proofs)
  {
    assert IdsBefore(proofs, 0) == {};
    ValidateProofsExact(expected, proofs, 0);
    DistinctIds(expected, proofs);
    forall k | 0 <= k < |proofs| ensures ProvesAt(expected, proofs, proofs[k].statement.taskId, k) {
      assert GoodProof(expected, proofs, k);
    }
    forall id | id in expected ensures ProvenOnce(expected, proofs, id) {
      AcceptedProofsCover(expected, proofs, id);
    }
  }

  lemma TaskProofSetComplete(expected: map<string, ZkTorchStatement>, proofs: seq<TaskProof>)
    requires OneProofEach(expected, proofs)
    ensures TaskProofSetCheck(expected, proofs).Ok?
  {
    assert IdsBefore(proofs, 0) == {};
    forall k | 0 <= k < |proofs| ensures GoodProof(expected, proofs, k) {
      assert ProvesAt(expected, proofs, proofs[k].statement.taskId, k);
      assert forall j | 0 <= j < k :: proofs[j].statement.taskId != proofs[k].statement.taskId;
    }
    ValidateProofsExact(expected, proofs, 0);
    IdsCount(proofs, |proofs|);
    assert IdsBefore(proofs, |proofs|) == expected.Keys by {
      forall x | x in IdsBefore(proofs, |proofs|) ensures x in expected.Keys {
        var k :| 0 <= k < |proofs| && proofs[k].statement.taskId == x;
        assert ProvesAt(expected, proofs, x, k);
      }
      forall id | id in expected.Keys ensures id in IdsBefore(proofs, |proofs|) {
        assert ProvenOnce(expected, proofs, id);
        var k :| ProvesAt(expected, proofs, id, k);
      }
    }
  }

  /** The check accepts exactly the lists with one proof, under its own id, for each expected statement. */
  lemma TaskProofSetExact(expected: map<string, ZkTorchStatement>, proofs: seq<TaskProof>)
    ensures TaskProofSetCheck(expected, proofs).Ok? <==> OneProofEach(expected, proofs)
  {
    if TaskProofSetCheck(expected, proofs).Ok? {
      TaskProofSetSound(expected, proofs);
    }
    if OneProofEach(expected, proofs) {
      TaskProofSetComplete(expected, proofs);
    }
  }

  // ---------------------------------------------------------------------- the bundle

  /** Signature checks and canonical statement digests, left uninterpreted. */
  datatype Context = Context(
    auditContractSigned: (SignedAuditContract, PublicKey) -> bool,
    gatewayRootSigned: (SignedGatewayRoot, PublicKey) -> bool,
    erasureSigned: (SignedErasureCertificate, PublicKey) -> bool,
    podDigest: PodPublicStatement -> Hash32,
    taskDigest: TaskPublicStatement -> Hash32,
    zkDigest: ZkTorchStatement -> Hash32)

  function VerifyTaskProof(x: Context, v: External, proof: TaskProof): Verified<()> {
    Verify(v, proof.proof, ZKTORCH_BACKEND, ZKTORCH_VERSION, x.zkDigest(proof.statement), ZkStatement(proof.statement))
  }

  function VerifyTaskProofs(x: Context, v: External, proofs: seq<TaskProof>): Verified<()> {
    if proofs == [] then Ok(())
    else
      var _ :- VerifyTaskProof(x, v, proofs[0]);
      VerifyTaskProofs(x, v, proofs[1..])
  }

  /** The loop over the task proofs: the first failure is the answer. */
  method VerifyEachTaskProof(x: Context, v: External, proofs: seq<TaskProof>) returns (r: Verified<()>)
    ensures r == VerifyTaskProofs(x, v, proofs)
  {
    for k := 0 to |proofs|
      invariant VerifyTaskProofs(x, v, proofs) == VerifyTaskProofs(x, v, proofs[k..])
    {
      var answer := VerifyTaskProof(x, v, proofs[k]);
      if answer.Err? {
        return answer;
      }
      assert proofs[k..][1..] == proofs[k + 1..];
    }
    r := Ok(());
  }

  function VerifyPodProof(x: Context, v: External, bundle: AuditBundle): Verified<()> {
    Verify(v, bundle.podRelationProof, SP1_BACKEND, SP1_VERSION, x.podDigest(bundle.podStatement),
           PodStatement(bundle.podStatement))
  }

  function VerifyTaskRelationProof(x: Context, v: External, bundle: AuditBundle): Verified<()> {
    Verify(v, bundle.taskRelationProof, SP1_BACKEND, SP1_VERSION, x.taskDigest(bundle.taskStatement),
           TaskStatement(bundle.taskStatement))
  }

  /** `verify_audit_bundle`. */
  function VerifyAuditBundle(x: Context, v: External, bundle: AuditBundle, auditorKey: PublicKey, gatewayKey: PublicKey)
    : Verified<Assurance>
  {
    var pod, task, contract := bundle.podStatement, bundle.taskStatement, bundle.auditContract.contract;
    :- Require(bundle.protocolVersion == PROTOCOL_VERSION, WrongProtocolVersion);
    :- Require(x.auditContractSigned(bundle.auditContract, auditorKey), BadAuditContractSignature);
    :- Require(contract.protocolVersion == PROTOCOL_VERSION && contract.policy == pod.policy
               && contract.epoch == pod.epoch, StatementMismatch);
    :- Require(pod.epoch == task.epoch && pod.gatewayRoot == task.gatewayRoot && pod.policy == task.policy,
               StatementMismatch);
    :- Require(x.gatewayRootSigned(pod.gatewayRoot, gatewayKey), BadGatewaySignature);
    :- Require(x.erasureSigned(pod.erasure, auditorKey), BadErasureSignature);
    var _ :- VerifyPodProof(x, v, bundle);
    var _ :- VerifyTaskRelationProof(x, v, bundle);
    var _ :- TaskProofSetCheck(task.sampledStatements, bundle.taskProofs);
    var _ :- VerifyTaskProofs(x, v, bundle.taskProofs);
    var physical := pod.erasure.certificate.kind == AuditedPhysicalErasure
                    && pod.policy.pod.unrecordedChannelBound.Some? && pod.policy.pod.residualStateBound.Some?;
    Ok(if physical then PaperCompliant else Experimental)
  }

  lemma {:induction false} TaskProofsExact(x: Context, v: External, proofs: seq<TaskProof>)
    ensures VerifyTaskProofs(x, v, proofs).Ok? <==> forall k | 0 <= k < |proofs| :: ProofAttested(x, v, proofs[k])
  {
    if proofs == [] {
    } else {
      VerifiesAttested(v, proofs[0].proof, ZKTORCH_BACKEND, ZKTORCH_VERSION, x.zkDigest(proofs[0].statement),
                       ZkStatement(proofs[0].statement));
      TaskProofsExact(x, v, proofs[1..]);
      assert forall k | 1 <= k < |proofs| :: proofs[k] == proofs[1..][k - 1];
      assert forall k | 0 <= k < |proofs| - 1 :: proofs[1..][k] == proofs[k + 1];
    }
  }

  /** What the bundle's own parts and the two keys must satisfy. */
  ghost predicate PartsAgree(x: Context, bundle: AuditBundle, auditorKey: PublicKey, gatewayKey: PublicKey) {
    var pod, task, contract := bundle.podStatement, bundle.taskStatement, bundle.auditContract.contract;
    && bundle.protocolVersion == contract.protocolVersion == PROTOCOL_VERSION
    && contract.policy == pod.policy == task.policy && contract.epoch == pod.epoch == task.epoch
    && pod.gatewayRoot == task.gatewayRoot
    && x.auditContractSigned(bundle.auditContract, auditorKey) && x.gatewayRootSigned(pod.gatewayRoot, gatewayKey)
    && x.erasureSigned(pod.erasure, auditorKey)
  }

  ghost predicate PodAttested(x: Context, v: External, bundle: AuditBundle) {
    Attested(v, bundle.podRelationProof, SP1_BACKEND, SP1_VERSION, x.podDigest(bundle.podStatement),
             PodStatement(bundle.podStatement))
  }

  ghost predicate TaskAttested(x: Context, v: External, bundle: AuditBundle) {
    Attested(v, bundle.taskRelationProof, SP1_BACKEND, SP1_VERSION, x.taskDigest(bundle.taskStatement),
             TaskStatement(bundle.taskStatement))
  }

  ghost predicate ProofAttested(x: Context, v: External, proof: TaskProof) {
    Attested(v, proof.proof, ZKTORCH_BACKEND, ZKTORCH_VERSION, x.zkDigest(proof.statement),
             ZkStatement(proof.statement))
  }

  /** The pinned executables attested both relation statements, and each expected task statement once. */
  ghost predicate ProofsHold(x: Context, v: External, bundle: AuditBundle) {
    && PodAttested(x, v, bundle) && TaskAttested(x, v, bundle)
    && OneProofEach(bundle.taskStatement.sampledStatements, bundle.taskProofs)
    && forall k | 0 <= k < |bundle.taskProofs| :: ProofAttested(x, v, bundle.taskProofs[k])
  }

  /** A bundle is accepted exactly when its parts agree and the pinned executables attested all its statements. */
  lemma BundleAcceptedExactly(x: Context, v: External, bundle: AuditBundle, auditorKey: PublicKey,
                              gatewayKey: PublicKey)
    ensures VerifyAuditBundle(x, v, bundle, auditorKey, gatewayKey).Ok?
            <==> PartsAgree(x, bundle, auditorKey, gatewayKey) && ProofsHold(x, v, bundle)
  {
    VerifiesAttested(v, bundle.podRelationProof, SP1_BACKEND, SP1_VERSION, x.podDigest(bundle.podStatement),
                     PodStatement(bundle.podStatement));
    VerifiesAttested(v, bundle.taskRelationProof, SP1_BACKEND, SP1_VERSION, x.taskDigest(bundle.taskStatement),
                     TaskStatement(bundle.taskStatement));
    TaskProofSetExact(bundle.taskStatement.sampledStatements, bundle.taskProofs);
    TaskProofsExact(x, v, bundle.taskProofs);
  }

  /** An accepted bundle is called compliant exactly with audited physical erasure and both bounds signed. */
  lemma BundleAssuranceExactly(x: Context, v: External, bundle: AuditBundle, auditorKey: PublicKey,
                               gatewayKey: PublicKey)
    requires VerifyAuditBundle(x, v, bundle, auditorKey, gatewayKey).Ok?
    ensures var pod := bundle.podStatement;
            VerifyAuditBundle(x, v, bundle, auditorKey, gatewayKey).value == PaperCompliant
            <==> pod.erasure.certificate.kind == AuditedPhysicalErasure
                 && pod.policy.pod.unrecordedChannelBound.Some? && pod.policy.pod.residualStateBound.Some?
  {
  }

  // ----------------------------------------------------------------------- refusals

  /** The first task proof from k on that is not accepted, and why. */
  ghost function ProofFailure(x: Context, v: External, proofs: seq<TaskProof>, k: nat): Option<VerifyError>
    requires k <= |proofs|
    decreases |proofs| - k
  {
    if k == |proofs| then None
    else
      var s := proofs[k].statement;
      var here := ArtifactFailure(v, proofs[k].proof, ZKTORCH_BACKEND, ZKTORCH_VERSION, x.zkDigest(s), ZkStatement(s));
      if here.Some? then here else ProofFailure(x, v, proofs, k + 1)
  }

  lemma {:induction false} TaskProofsFail(x: Context, v: External, proofs: seq<TaskProof>, k: nat)
    requires k <= |proofs|
    ensures var r, e := VerifyTaskProofs(x, v, proofs[k..]), ProofFailure(x, v, proofs, k);
            && (r.Err? <==> e.Some?) && (r.Err? ==> r.error == e.value)
    decreases |proofs| - k
  {
    if k == |proofs| {
    } else {
      var s := proofs[k].statement;
      VerifyFails(v, proofs[k].proof, ZKTORCH_BACKEND, ZKTORCH_VERSION, x.zkDigest(s), ZkStatement(s));
      TaskProofsFail(x, v, proofs, k + 1);
      assert proofs[k..][1..] == proofs[k + 1..];
    }
  }

  ghost function PodFailure(x: Context, v: External, bundle: AuditBundle): Option<VerifyError> {
    ArtifactFailure(v, bundle.podRelationProof, SP1_BACKEND, SP1_VERSION, x.podDigest(bundle.podStatement),
                    PodStatement(bundle.podStatement))
  }

  ghost function TaskFailure(x: Context, v: External, bundle: AuditBundle): Option<VerifyError> {
    ArtifactFailure(v, bundle.taskRelationProof, SP1_BACKEND, SP1_VERSION, x.taskDigest(bundle.taskStatement),
                    TaskStatement(bundle.taskStatement))
  }

  /** Disagreeing parts and bad signatures. */
  ghost function PartsFailure(x: Context, bundle: AuditBundle, auditorKey: PublicKey, gatewayKey: PublicKey)
    : Option<VerifyError>
  {
    var pod, task, contract := bundle.podStatement, bundle.taskStatement, bundle.auditContract.contract;
    if bundle.protocolVersion != PROTOCOL_VERSION then Some(WrongProtocolVersion)
    else if !x.auditContractSigned(bundle.auditContract, auditorKey) then Some(BadAuditContractSignature)
    else if !(contract.protocolVersion == PROTOCOL_VERSION && contract.policy == pod.policy == task.policy
              && contract.epoch == pod.epoch == task.epoch && pod.gatewayRoot == task.gatewayRoot)
    then Some(StatementMismatch)
    else if !x.gatewayRootSigned(pod.gatewayRoot, gatewayKey) then Some(BadGatewaySignature)
    else if !x.erasureSigned(pod.erasure, auditorKey) then Some(BadErasureSignature)
    else None
  }

  /** The two relation proofs, then the set of task proofs, then the task proofs in their order. */
  ghost function ProofsFailure(x: Context, v: External, bundle: AuditBundle): Option<VerifyError> {
    if PodFailure(x, v, bundle).Some? then PodFailure(x, v, bundle)
    else if TaskFailure(x, v, bundle).Some? then TaskFailure(x, v, bundle)
    else if !OneProofEach(bundle.taskStatement.sampledStatements, bundle.taskProofs) then Some(TaskProofSet)
    else ProofFailure(x, v, bundle.taskProofs, 0)
  }

  lemma {:induction false} ProofSetErrs(expected: map<string, ZkTorchStatement>, proofs: seq<TaskProof>, index: nat,
                                        seen: set<string>)
    requires index <= |proofs|
    ensures var r := ValidateProofsFrom(expected, proofs, index, seen); r.Err? ==> r.error == TaskProofSet
    decreases |proofs| - index
  {
    if index == |proofs| {
    } else {
      ProofSetErrs(expected, proofs, index + 1, seen + {proofs[index].statement.taskId});
    }
  }

  lemma ProofListFails(x: Context, v: External, expected: map<string, ZkTorchStatement>, proofs: seq<TaskProof>)
    ensures var r := TaskProofSetCheck(expected, proofs);
            && (r.Err? <==> !OneProofEach(expected, proofs)) && (r.Err? ==> r.error == TaskProofSet)
    ensures var r, e := VerifyTaskProofs(x, v, proofs), ProofFailure(x, v, proofs, 0);
            && (r.Err? <==> e.Some?) && (r.Err? ==> r.error == e.value)
  {
    TaskProofSetExact(expected, proofs);
    ProofSetErrs(expected, proofs, 0, {});
    TaskProofsFail(x, v, proofs, 0);
    assert proofs[0..] == proofs;
  }

  lemma RelationProofsFail(x: Context, v: External, bundle: AuditBundle)
    ensures var r, e := VerifyPodProof(x, v, bundle), PodFailure(x, v, bundle);
            && (r.Err? <==> e.Some?) && (r.Err? ==> r.error == e.value)
    ensures var r, e := VerifyTaskRelationProof(x, v, bundle), TaskFailure(x, v, bundle);
            && (r.Err? <==> e.Some?) && (r.Err? ==> r.error == e.value)
  {
    VerifyFails(v, bundle.podRelationProof, SP1_BACKEND, SP1_VERSION, x.podDigest(bundle.podStatement),
                PodStatement(bundle.podStatement));
    VerifyFails(v, bundle.taskRelationProof, SP1_BACKEND, SP1_VERSION, x.taskDigest(bundle.taskStatement),
                TaskStatement(bundle.taskStatement));
  }

  lemma PartsRefuse(x: Context, v: External, bundle: AuditBundle, auditorKey: PublicKey, gatewayKey: PublicKey)
    requires PartsFailure(x, bundle, auditorKey, gatewayKey).Some?
    ensures VerifyAuditBundle(x, v, bundle, auditorKey, gatewayKey)
            == Err(PartsFailure(x, bundle, auditorKey, gatewayKey).value)
  {
  }

  lemma ProofsDecide(x: Context, v: External, bundle: AuditBundle, auditorKey: PublicKey, gatewayKey: PublicKey)
    requires PartsAgree(x, bundle, auditorKey, gatewayKey)
    ensures var r, e := VerifyAuditBundle(x, v, bundle, auditorKey, gatewayKey), ProofsFailure(x, v, bundle);
            && (r.Err? <==> e.Some?) && (r.Err? ==> r.error == e.value)
  {
    RelationProofsFail(x, v, bundle);
    ProofListFails(x, v, bundle.taskStatement.sampledStatements, bundle.taskProofs);
  }

  /** A bundle is refused with the first thing wrong: its parts and signatures before its proofs. */
  lemma BundleRefusesExactly(x: Context, v: External, bundle: AuditBundle, auditorKey: PublicKey,
                             gatewayKey: PublicKey)
    ensures var r, parts, proofs := VerifyAuditBundle(x, v, bundle, auditorKey, gatewayKey),
                                    PartsFailure(x, bundle, auditorKey, gatewayKey), ProofsFailure(x, v, bundle);
            && (parts.Some? ==> r == Err(parts.value)) && (parts.None? && proofs.Some? ==> r == Err(proofs.value))
            && (parts.None? && proofs.None? ==> r.Ok?)
  {
    if PartsFailure(x, bundle, auditorKey, gatewayKey).Some? {
      PartsRefuse(x, v, bundle, auditorKey, gatewayKey);
    } else {
      ProofsDecide(x, v, bundle, auditorKey, gatewayKey);
    }
  }
}
