/** Fail-closed verification of gateway-free cuPOW bundles, and of what the auditor released. */
module CuPowVerifier {
  import opened Integers
  import opened Outcomes
  import opened Types
  import opened CuPowTypes
  import opened Verifier
  import CuPowRelation
  import Auditor

  const CUPOW_ZKTORCH_BACKEND := "zk-torch-cupow"
  const CUPOW_ZKTORCH_VERSION := "63b9c68960f3ca84026d89428dd6d8129e930d53+cupow-v1"

  /** The signature checks of the cuPOW profile, left uninterpreted. */
  datatype CuPowSignatures = CuPowSignatures(
    capacity: (SignedCuPowCapacityCertificate, PublicKey) -> bool,
    contract: (SignedCuPowContract, PublicKey) -> bool,
    challenge: (SignedCuPowChallenge, PublicKey) -> bool,
    completion: (SignedCuPowCompletion, PublicKey) -> bool,
    erasure: (SignedErasureCertificate, PublicKey) -> bool)

  function VerifyCuPowProof(d: CuPowDigests, v: External, bundle: CuPowBundle): Verified<()> {
    Verify(v, bundle.proof, CUPOW_ZKTORCH_BACKEND, CUPOW_ZKTORCH_VERSION, d.statement(bundle.statement),
           CuPowStatement(bundle.statement))
  }

  /** `verify_cupow_bundle`. */
  function VerifyCupowBundle(d: CuPowDigests, g: CuPowSignatures, v: External, bundle: CuPowBundle, key: PublicKey)
    : Verified<CuPowAssurance>
  {
    var s := bundle.statement;
    :- Require(bundle.protocolVersion == CUPOW_PROTOCOL_VERSION && s.protocolVersion == CUPOW_PROTOCOL_VERSION,
               WrongProtocolVersion);
    :- Require(g.capacity(s.contract.contract.capacity, key), BadCuPowCapacitySignature);
    :- Require(g.contract(s.contract, key), BadCuPowContractSignature);
    :- Require(g.challenge(s.challenge, key), BadCuPowChallengeSignature);
    :- Require(g.completion(s.completion, key), BadCuPowCompletionSignature);
    :- Require(g.erasure(s.erasure, key), BadErasureSignature);
    :- Require(CuPowRelation.EvaluateCupowRelation(d, s).Ok?, BadCuPowRelation);
    var _ :- VerifyCuPowProof(d, v, bundle);
    Ok(CalibratedGpuSaturation)
  }

  ghost predicate AllSigned(g: CuPowSignatures, s: CuPowPublicStatement, key: PublicKey) {
    && g.capacity(s.contract.contract.capacity, key) && g.contract(s.contract, key) && g.challenge(s.challenge, key)
    && g.completion(s.completion, key) && g.erasure(s.erasure, key)
  }

  ghost predicate CuPowAttested(d: CuPowDigests, v: External, bundle: CuPowBundle) {
    Attested(v, bundle.proof, CUPOW_ZKTORCH_BACKEND, CUPOW_ZKTORCH_VERSION, d.statement(bundle.statement),
             CuPowStatement(bundle.statement))
  }

  /** Acceptance is exactly: five signatures, the unbounded relation and an attested proof of this statement. */
  lemma AcceptsExactly(d: CuPowDigests, g: CuPowSignatures, v: External, bundle: CuPowBundle, key: PublicKey)
    requires |bundle.statement.contract.contract.manifest.items| <= U64_MAX
    ensures VerifyCupowBundle(d, g, v, bundle, key).Ok?
            <==> bundle.protocolVersion == CUPOW_PROTOCOL_VERSION && AllSigned(g, bundle.statement, key)
                 && CuPowRelation.Satisfies(d, bundle.statement) && CuPowAttested(d, v, bundle)
  {
    CuPowRelation.EvaluatesExactly(d, bundle.statement);
    VerifiesAttested(v, bundle.proof, CUPOW_ZKTORCH_BACKEND, CUPOW_ZKTORCH_VERSION, d.statement(bundle.statement),
                     CuPowStatement(bundle.statement));
  }

  /** Wrong versions and bad signatures. */
  ghost function SignatureFailure(g: CuPowSignatures, bundle: CuPowBundle, key: PublicKey): Option<VerifyError> {
    var s := bundle.statement;
    if !(bundle.protocolVersion == s.protocolVersion == CUPOW_PROTOCOL_VERSION) then Some(WrongProtocolVersion)
    else if !g.capacity(s.contract.contract.capacity, key) then Some(BadCuPowCapacitySignature)
    else if !g.contract(s.contract, key) then Some(BadCuPowContractSignature)
    else if !g.challenge(s.challenge, key) then Some(BadCuPowChallengeSignature)
    else if !g.completion(s.completion, key) then Some(BadCuPowCompletionSignature)
    else if !g.erasure(s.erasure, key) then Some(BadErasureSignature)
    else None
  }

  lemma SignaturesRefuse(d: CuPowDigests, g: CuPowSignatures, v: External, bundle: CuPowBundle, key: PublicKey)
    requires SignatureFailure(g, bundle, key).Some?
    ensures VerifyCupowBundle(d, g, v, bundle, key) == Err(SignatureFailure(g, bundle, key).value)
  {
  }

  /** A bundle is refused for its versions and signatures first, then for the relation, then for its proof. */
  lemma RefusesExactly(d: CuPowDigests, g: CuPowSignatures, v: External, bundle: CuPowBundle, key: PublicKey)
    requires |bundle.statement.contract.contract.manifest.items| <= U64_MAX
    ensures var r, signatures, s := VerifyCupowBundle(d, g, v, bundle, key), SignatureFailure(g, bundle, key),
                                    bundle.statement;
            var proof := ArtifactFailure(v, bundle.proof, CUPOW_ZKTORCH_BACKEND, CUPOW_ZKTORCH_VERSION, d.statement(s),
                                         CuPowStatement(s));
            && (signatures.Some? ==> r == Err(signatures.value))
            && (signatures.None? && !CuPowRelation.Satisfies(d, s) ==> r == Err(BadCuPowRelation))
            && (signatures.None? && CuPowRelation.Satisfies(d, s) ==>
                  if proof.Some? then r == Err(proof.value) else r == Ok(CalibratedGpuSaturation))
  {
    if SignatureFailure(g, bundle, key).Some? {
      SignaturesRefuse(d, g, v, bundle, key);
    } else {
      CuPowRelation.EvaluatesExactly(d, bundle.statement);
      VerifyFails(v, bundle.proof, CUPOW_ZKTORCH_BACKEND, CUPOW_ZKTORCH_VERSION, d.statement(bundle.statement),
                  CuPowStatement(bundle.statement));
    }
  }

  /** Whatever the auditor's signer produces, its key accepts. */
  ghost predicate SignsUnder(signer: Auditor.Signer, g: CuPowSignatures, key: PublicKey) {
    && (forall c: CuPowChallenge :: g.challenge(SignedCuPowChallenge(c, signer.challenge(c)), key))
    && (forall m: CuPowCompletion :: g.completion(SignedCuPowCompletion(m, signer.completion(m)), key))
  }

  /**
   * The receipts of any auditor run that released both always fit: a bundle built from them is accepted exactly
   * when the contract, the erasure certificate and the proof are.
   */
  lemma ReleasedBundleAccepted(a: Auditor.Auditing, calls: seq<Auditor.Call>, g: CuPowSignatures, v: External,
                               bundle: CuPowBundle, key: PublicKey)
    requires SignsUnder(a.signer, g, key) && bundle.statement.contract.contract == a.contract
    requires bundle.protocolVersion == bundle.statement.protocolVersion == CUPOW_PROTOCOL_VERSION
    requires |a.contract.manifest.items| <= U64_MAX
    requires Auditor.Run(a, calls).released
             == [Auditor.ChallengeReceipt(bundle.statement.challenge),
                 Auditor.CompletionReceipt(bundle.statement.completion)]
    ensures VerifyCupowBundle(a.digests, g, v, bundle, key).Ok?
            <==> g.capacity(a.contract.capacity, key) && g.contract(bundle.statement.contract, key)
                 && g.erasure(bundle.statement.erasure, key)
                 && CuPowRelation.ContractClauses(a.digests, a.contract)
                 && CuPowRelation.ErasureClause(a.contract, bundle.statement.erasure.certificate)
                 && CuPowAttested(a.digests, v, bundle)
  {
    var s := bundle.statement;
    AcceptsExactly(a.digests, g, v, bundle, key);
    Auditor.ReleasedPairCompletesStatement(a, calls, s.challenge, s.completion, s.contract, s.erasure);
    Auditor.ReleasesOneExchange(a, calls);
    var released := Auditor.Run(a, calls).released;
    assert released[0].challenge == s.challenge && released[1].completion == s.completion;
    assert s.challenge == SignedCuPowChallenge(s.challenge.challenge, a.signer.challenge(s.challenge.challenge));
    assert s.completion == SignedCuPowCompletion(s.completion.completion, a.signer.completion(s.completion.completion));
  }
}
