/** The cuPOW auditor: one challenge and one completion per contract, whatever the clock and the journal do. */
module Auditor {
  import opened Integers
  import opened Types
  import opened CuPowTypes
  import opened CuPowRelation

  datatype Signer = Signer(challenge: CuPowChallenge -> Signature, completion: CuPowCompletion -> Signature)

  datatype Receipt =
    | ChallengeReceipt(challenge: SignedCuPowChallenge)
    | CompletionReceipt(completion: SignedCuPowCompletion)

  /** How one `append_record` ended: only `Synced` is a success, but a failure may leave text behind. */
  datatype Append = Synced | LineLeft | TornLine | NothingWritten

  datatype Line = Whole(receipt: Receipt) | Torn

  datatype Refusal =
    | AlreadyIssued | OutsideEpoch | ZeroSeed | AlreadyAccepted | NotIssued | OutsideChallenge | WrongCompletion
    | JournalFailed | ClockFailed

  datatype Reply = Released(receipt: Receipt) | Refused(why: Refusal)

  datatype State = State(
    journal: seq<Line>, challenge: Option<SignedCuPowChallenge>, completion: Option<SignedCuPowCompletion>)

  const FRESH: State := State([], None, None)

  /** The fixed part of an auditor process. */
  datatype Auditing = Auditing(digests: CuPowDigests, signer: Signer, contract: CuPowContract)

  function Appended(journal: seq<Line>, receipt: Receipt, how: Append): seq<Line> {
    match how
    case Synced => journal + [Whole(receipt)]
    case LineLeft => journal + [Whole(receipt)]
    case TornLine => journal + [Torn]
    case NothingWritten => journal
  }

  function NewChallenge(a: Auditing, issuedAt: u64, seed: Hash32): SignedCuPowChallenge {
    var challenge := CuPowChallenge(
      CUPOW_PROTOCOL_VERSION, a.contract.epoch.epochId, a.digests.contract(a.contract), seed, issuedAt,
      a.contract.epoch.closedAt);
    SignedCuPowChallenge(challenge, a.signer.challenge(challenge))
  }

  function Stamped(a: Auditing, completion: CuPowCompletion, receivedAt: u64): SignedCuPowCompletion {
    var stamped := completion.(completedAt := receivedAt);
    SignedCuPowCompletion(stamped, a.signer.completion(stamped))
  }

  /** What `issue_challenge_at` does to the state, and what it answers. */
  function Issue(a: Auditing, s: State, issuedAt: u64, seed: Hash32, how: Append): (State, Reply) {
    if s.challenge.Some? then (s, Refused(AlreadyIssued))
    else if !(a.contract.epoch.openedAt <= issuedAt < a.contract.epoch.closedAt) then (s, Refused(OutsideEpoch))
    else if seed == ZERO_HASH then (s, Refused(ZeroSeed))
    else
      var receipt := ChallengeReceipt(NewChallenge(a, issuedAt, seed));
      var journal := Appended(s.journal, receipt, how);
      if how != Synced then (s.(journal := journal), Refused(JournalFailed))
      else (s.(journal := journal, challenge := Some(receipt.challenge)), Released(receipt))
  }

  /** The match check of `accept_completion`. */
  predicate Mismatched(a: Auditing, challenge: CuPowChallenge, completion: CuPowCompletion) {
    || completion.protocolVersion != CUPOW_PROTOCOL_VERSION || completion.epochId != a.contract.epoch.epochId
    || completion.challengeDigest != a.digests.challenge(challenge)
    || completion.securityWork != a.contract.manifest.securityWork
    || completion.transcriptRoot == ZERO_HASH || completion.outputRoot == ZERO_HASH
  }

  /** What `accept_completion` does to the state, and what it answers. */
  function Accept(a: Auditing, s: State, completion: CuPowCompletion, receivedAt: u64, how: Append): (State, Reply) {
    if s.completion.Some? then (s, Refused(AlreadyAccepted))
    else if s.challenge.None? then (s, Refused(NotIssued))
    else
      var challenge := s.challenge.value.challenge;
      if !(challenge.issuedAt <= receivedAt <= challenge.deadline) then (s, Refused(OutsideChallenge))
      else if Mismatched(a, challenge, completion) then (s, Refused(WrongCompletion))
      else
        var receipt := CompletionReceipt(Stamped(a, completion, receivedAt));
        var journal := Appended(s.journal, receipt, how);
        if how != Synced then (s.(journal := journal), Refused(JournalFailed))
        else (s.(journal := journal, completion := Some(receipt.completion)), Released(receipt))
  }

  // ------------------------------------------------------------ what the receipts say

  /** What an append that ended so leaves in the journal. */
  ghost function LeftBehind(receipt: Receipt, how: Append): seq<Line> {
    if how == Synced || how == LineLeft then [Whole(receipt)] else if how == TornLine then [Torn] else []
  }

  ghost predicate InEpoch(contract: CuPowContract, now: u64) {
    contract.epoch.openedAt <= now < contract.epoch.closedAt
  }

  /** The signed challenge puts this seed, at this time and until the epoch closes, to this contract. */
  ghost predicate Challenges(a: Auditing, issuedAt: u64, seed: Hash32, signed: SignedCuPowChallenge) {
    var c := signed.challenge;
    && c.protocolVersion == CUPOW_PROTOCOL_VERSION && c.epochId == a.contract.epoch.epochId
    && c.contractDigest == a.digests.contract(a.contract) && c.seed == seed && c.issuedAt == issuedAt
    && c.deadline == a.contract.epoch.closedAt && signed.signature == a.signer.challenge(c)
  }

  /** The signed completion is the received one, but for the time, which is that of its receipt. */
  ghost predicate Completes(a: Auditing, received: CuPowCompletion, receivedAt: u64, signed: SignedCuPowCompletion) {
    var c := signed.completion;
    && c.protocolVersion == received.protocolVersion && c.epochId == received.epochId
    && c.challengeDigest == received.challengeDigest && c.transcriptRoot == received.transcriptRoot
    && c.outputRoot == received.outputRoot && c.securityWork == received.securityWork
    && c.completedAt == receivedAt && signed.signature == a.signer.completion(c)
  }

  /** Received now, the completion satisfies the relation's clause for this challenge. */
  ghost predicate Timely(a: Auditing, challenge: CuPowChallenge, received: CuPowCompletion, receivedAt: u64) {
    CompletionClause(a.digests, a.contract, challenge, received.(completedAt := receivedAt),
                     a.contract.manifest.securityWork)
  }

  class AuditorState {
    const a: Auditing
    var journal: seq<Line>
    var challenge: Option<SignedCuPowChallenge>
    var completion: Option<SignedCuPowCompletion>

    ghost function Value(): State
      reads this
    {
      State(journal, challenge, completion)
    }

    constructor (a: Auditing)
      ensures this.a == a && Value() == FRESH
    {
      this.a := a;
      journal := [];
      challenge := None;
      completion := None;
    }

    /** `append_record`; how the file system behaves is the caller's parameter. */
    method AppendRecord(receipt: Receipt, how: Append) returns (ok: bool)
      modifies this`journal
      ensures journal == Appended(old(journal), receipt, how) && ok == (how == Synced)
      ensures journal == old(journal) + LeftBehind(receipt, how)
    {
      if how == Synced || how == LineLeft {
        journal := journal + [Whole(receipt)];
      } else if how == TornLine {
        journal := journal + [Torn];
      }
      ok := how == Synced;
    }

    method IssueChallengeAt(issuedAt: u64, seed: Hash32, how: Append) returns (reply: Reply)
      modifies this
      ensures (Value(), reply) == Issue(a, old(Value()), issuedAt, seed, how)
      ensures reply.Released?
              <==> old(challenge).None? && InEpoch(a.contract, issuedAt) && seed != ZERO_HASH && how == Synced
      ensures reply.Released? ==>
                && reply.receipt.ChallengeReceipt? && Challenges(a, issuedAt, seed, reply.receipt.challenge)
                && journal == old(journal) + [Whole(reply.receipt)] && challenge == Some(reply.receipt.challenge)
      ensures reply.Refused? ==>
                && challenge == old(challenge)
                && reply.why == if old(challenge).Some? then AlreadyIssued
                                else if !InEpoch(a.contract, issuedAt) then OutsideEpoch
                                else if seed == ZERO_HASH then ZeroSeed
                                else JournalFailed
      ensures completion == old(completion)
    {
      if challenge.Some? {
        return Refused(AlreadyIssued);
      }
      if issuedAt < a.contract.epoch.openedAt || issuedAt >= a.contract.epoch.closedAt {
        return Refused(OutsideEpoch);
      }
      if seed == ZERO_HASH {
        return Refused(ZeroSeed);
      }
      var signed := NewChallenge(a, issuedAt, seed);
      var written := AppendRecord(ChallengeReceipt(signed), how);
      if !written {
        return Refused(JournalFailed);
      }
      challenge := Some(signed);
      reply := Released(ChallengeReceipt(signed));
    }

    method AcceptCompletion(received: CuPowCompletion, receivedAt: u64, how: Append) returns (reply: Reply)
      modifies this
      ensures (Value(), reply) == Accept(a, old(Value()), received, receivedAt, how)
      ensures reply.Released?
              <==> old(completion).None? && old(challenge).Some?
                   && Timely(a, old(challenge).value.challenge, received, receivedAt) && how == Synced
      ensures reply.Released? ==>
                && reply.receipt.CompletionReceipt? && Completes(a, received, receivedAt, reply.receipt.completion)
                && journal == old(journal) + [Whole(reply.receipt)] && completion == Some(reply.receipt.completion)
      ensures reply.Refused? ==>
                && completion == old(completion)
                && reply.why == if old(completion).Some? then AlreadyAccepted
                                else if old(challenge).None? then NotIssued
                                else if !(old(challenge).value.challenge.issuedAt <= receivedAt
                                          <= old(challenge).value.challenge.deadline) then OutsideChallenge
                                else if !Timely(a, old(challenge).value.challenge, received, receivedAt)
                                then WrongCompletion
                                else JournalFailed
      ensures challenge == old(challenge)
    {
      if completion.Some? {
        return Refused(AlreadyAccepted);
      }
      if challenge.None? {
        return Refused(NotIssued);
      }
      var active := challenge.value.challenge;
      if receivedAt < active.issuedAt || receivedAt > active.deadline {
        return Refused(OutsideChallenge);
      }
      if Mismatched(a, active, received) {
        return Refused(WrongCompletion);
      }
      var signed := Stamped(a, received, receivedAt);
      var written := AppendRecord(CompletionReceipt(signed), how);
      if !written {
        return Refused(JournalFailed);
      }
      completion := Some(signed);
      reply := Released(CompletionReceipt(signed));
    }
  }

  // ---------------------------------------------------------------------- whole runs

  /** One request under the lock; the clock may fail, jump or run backwards. */
  datatype Call =
    | AskChallenge(now: Option<u64>, seed: Hash32, how: Append)
    | AskCompletion(now: Option<u64>, completion: CuPowCompletion, how: Append)

  function Serve(a: Auditing, s: State, call: Call): (State, Reply) {
    if call.now.None? then (s, Refused(ClockFailed))
    else match call
      case AskChallenge(now, seed, how) => Issue(a, s, now.value, seed, how)
      case AskCompletion(now, completion, how) => Accept(a, s, completion, now.value, how)
  }

  datatype Outcome = Outcome(state: State, released: seq<Receipt>)

  function Run(a: Auditing, calls: seq<Call>): Outcome {
    if calls == [] then Outcome(FRESH, [])
    else
      var before := Run(a, calls[..|calls| - 1]);
      var (state, reply) := Serve(a, before.state, calls[|calls| - 1]);
      Outcome(state, if reply.Released? then before.released + [reply.receipt] else before.released)
  }

  ghost predicate GoodChallenge(a: Auditing, signed: SignedCuPowChallenge) {
    ChallengeClause(a.digests, a.contract, signed.challenge) && signed.signature == a.signer.challenge(signed.challenge)
  }

  ghost predicate GoodCompletion(a: Auditing, challenge: CuPowChallenge, signed: SignedCuPowCompletion) {
    && CompletionClause(a.digests, a.contract, challenge, signed.completion, a.contract.manifest.securityWork)
    && signed.signature == a.signer.completion(signed.completion)
  }

  /** Nothing, a challenge, or a challenge and then its completion. */
  ghost predicate OneExchange(a: Auditing, released: seq<Receipt>) {
    || released == []
    || (exists c :: released == [ChallengeReceipt(c)] && GoodChallenge(a, c))
    || (exists c, m :: released == [ChallengeReceipt(c), CompletionReceipt(m)] && GoodChallenge(a, c)
                       && GoodCompletion(a, c.challenge, m))
  }

  ghost predicate Remembers(s: State, released: seq<Receipt>) {
    && |released| <= 2
    && s.challenge == (if |released| >= 1 && released[0].ChallengeReceipt? then Some(released[0].challenge) else None)
    && s.completion
       == (if |released| >= 2 && released[1].CompletionReceipt? then Some(released[1].completion) else None)
  }

  /** Over every run, at most one challenge and one completion leave the auditor, and both are what the
      relation asks. */
  lemma {:induction false} ReleasesOneExchange(a: Auditing, calls: seq<Call>)
    ensures OneExchange(a, Run(a, calls).released) && Remembers(Run(a, calls).state, Run(a, calls).released)
  {
    if calls == [] {
    } else {
      var earlier := calls[..|calls| - 1];
      ReleasesOneExchange(a, earlier);
      var released := Run(a, earlier).released;
      if Serve(a, Run(a, earlier).state, calls[|calls| - 1]).1.Released? {
        ServeExtends(a, Run(a, earlier).state, released, calls[|calls| - 1]);
      }
    }
  }

  lemma ServeExtends(a: Auditing, s: State, released: seq<Receipt>, call: Call)
    requires OneExchange(a, released) && Remembers(s, released) && Serve(a, s, call).1.Released?
    ensures OneExchange(a, released + [Serve(a, s, call).1.receipt])
    ensures Remembers(Serve(a, s, call).0, released + [Serve(a, s, call).1.receipt])
  {
  }

  /** Nor is an exchange refused without cause: timely requests that match release both receipts. */
  lemma ExchangeCompletes(a: Auditing, calls: seq<Call>, issuedAt: u64, seed: Hash32, m: CuPowCompletion,
                          receivedAt: u64)
    requires Run(a, calls).released == [] && seed != ZERO_HASH
    requires a.contract.epoch.openedAt <= issuedAt <= receivedAt <= a.contract.epoch.closedAt
    requires issuedAt < a.contract.epoch.closedAt
    requires Timely(a, NewChallenge(a, issuedAt, seed).challenge, m, receivedAt)
    ensures Run(a, calls + [AskChallenge(Some(issuedAt), seed, Synced),
                            AskCompletion(Some(receivedAt), m, Synced)]).released
            == [ChallengeReceipt(NewChallenge(a, issuedAt, seed)), CompletionReceipt(Stamped(a, m, receivedAt))]
  {
    ReleasesOneExchange(a, calls);
    var one := calls + [AskChallenge(Some(issuedAt), seed, Synced)];
    var two := calls + [AskChallenge(Some(issuedAt), seed, Synced), AskCompletion(Some(receivedAt), m, Synced)];
    assert one[..|calls|] == calls && two[..|one|] == one;
    assert Run(a, one).released == [ChallengeReceipt(NewChallenge(a, issuedAt, seed))];
  }

  // ------------------------------------------------------------- receipts and requests

  ghost predicate ChallengeAsked(a: Auditing, calls: seq<Call>, k: int, signed: SignedCuPowChallenge) {
    && 0 <= k < |calls| && calls[k] == AskChallenge(Some(signed.challenge.issuedAt), signed.challenge.seed, Synced)
    && Challenges(a, signed.challenge.issuedAt, signed.challenge.seed, signed)
  }

  ghost predicate CompletionAsked(a: Auditing, calls: seq<Call>, k: int, signed: SignedCuPowCompletion) {
    && 0 <= k < |calls| && calls[k].AskCompletion? && calls[k].how == Synced
    && calls[k].now == Some(signed.completion.completedAt)
    && Completes(a, calls[k].completion, signed.completion.completedAt, signed)
  }

  ghost predicate Asked(a: Auditing, calls: seq<Call>, receipt: Receipt) {
    match receipt
    case ChallengeReceipt(signed) => exists k :: ChallengeAsked(a, calls, k, signed)
    case CompletionReceipt(signed) => exists k :: CompletionAsked(a, calls, k, signed)
  }

  lemma AskedLater(a: Auditing, calls: seq<Call>, receipt: Receipt)
    requires calls != [] && Asked(a, calls[..|calls| - 1], receipt)
    ensures Asked(a, calls, receipt)
  {
    match receipt
    case ChallengeReceipt(signed) =>
      var k :| ChallengeAsked(a, calls[..|calls| - 1], k, signed);
      assert ChallengeAsked(a, calls, k, signed);
    case CompletionReceipt(signed) =>
      var k :| CompletionAsked(a, calls[..|calls| - 1], k, signed);
      assert CompletionAsked(a, calls, k, signed);
  }

  lemma AskedNow(a: Auditing, calls: seq<Call>, s: State)
    requires calls != [] && Serve(a, s, calls[|calls| - 1]).1.Released?
    ensures Asked(a, calls, Serve(a, s, calls[|calls| - 1]).1.receipt)
  {
    var k := |calls| - 1;
    match Serve(a, s, calls[k]).1.receipt
    case ChallengeReceipt(signed) => assert ChallengeAsked(a, calls, k, signed);
    case CompletionReceipt(signed) => assert CompletionAsked(a, calls, k, signed);
  }

  /** Every released receipt answers a call of the run: it carries that call's seed and time, or its roots, digest
      and work and its time. */
  lemma {:induction false} ReleasedAsAsked(a: Auditing, calls: seq<Call>, receipt: Receipt)
    requires receipt in Run(a, calls).released
    ensures Asked(a, calls, receipt)
  {
    var earlier := calls[..|calls| - 1];
    if receipt in Run(a, earlier).released {
      ReleasedAsAsked(a, earlier, receipt);
      AskedLater(a, calls, receipt);
    } else {
      AskedNow(a, calls, Run(a, earlier).state);
    }
  }

  // --------------------------------------------------------------------- the journal

  /** A receipt that left the auditor was written in full before, and stays written (perhaps after a torn fragment). */
  lemma {:induction false} ReleasedIsJournaled(a: Auditing, calls: seq<Call>, receipt: Receipt)
    requires receipt in Run(a, calls).released
    ensures Whole(receipt) in Run(a, calls).state.journal
  {
    var earlier := calls[..|calls| - 1];
    if receipt in Run(a, earlier).released {
      ReleasedIsJournaled(a, earlier, receipt);
    }
  }

  function Lines(released: seq<Receipt>): seq<Line> {
    seq(|released|, i requires 0 <= i < |released| => Whole(released[i]))
  }

  /** The call passes the clock, time and match checks, so that it comes to writing its receipt. */
  ghost predicate ComesToWrite(a: Auditing, s: State, call: Call) {
    call.now.Some? && match call
    case AskChallenge(now, seed, _) =>
      && s.challenge.None? && seed != ZERO_HASH
      && a.contract.epoch.openedAt <= now.value < a.contract.epoch.closedAt
    case AskCompletion(now, completion, _) =>
      && s.completion.None? && s.challenge.Some?
      && Timely(a, s.challenge.value.challenge, completion, now.value)
  }

  /** Call k came to write its receipt, and the write failed after some text had gone out. */
  ghost predicate LeavesText(a: Auditing, calls: seq<Call>, k: nat)
    requires k < |calls|
  {
    ComesToWrite(a, Run(a, calls[..k]).state, calls[k]) && (calls[k].how == LineLeft || calls[k].how == TornLine)
  }

  ghost predicate Tidy(a: Auditing, calls: seq<Call>) {
    forall k | 0 <= k < |calls| :: !LeavesText(a, calls, k)
  }

  lemma TidyStep(a: Auditing, calls: seq<Call>)
    requires calls != []
    ensures Tidy(a, calls) <==> Tidy(a, calls[..|calls| - 1]) && !LeavesText(a, calls, |calls| - 1)
  {
    var earlier := calls[..|calls| - 1];
    forall k | 0 <= k < |earlier| ensures LeavesText(a, calls, k) <==> LeavesText(a, earlier, k) {
      assert calls[..k] == earlier[..k];
    }
  }

  /** The journal holds at least one line for each released receipt, and more once a failure left text. */
  lemma {:induction false} JournalLength(a: Auditing, calls: seq<Call>)
    ensures |Run(a, calls).released| <= |Run(a, calls).state.journal|
    ensures !Tidy(a, calls) ==> |Run(a, calls).released| < |Run(a, calls).state.journal|
  {
    if calls == [] {
    } else {
      var earlier := calls[..|calls| - 1];
      TidyStep(a, calls);
      JournalLength(a, earlier);
      ServeWrites(a, Run(a, earlier).state, calls[|calls| - 1]);
    }
  }

  lemma ServeWrites(a: Auditing, s: State, call: Call)
    ensures var (t, reply) := Serve(a, s, call);
            && |s.journal| + (if reply.Released? then 1 else 0) <= |t.journal|
            && (ComesToWrite(a, s, call) && (call.how == LineLeft || call.how == TornLine)
                ==> !reply.Released? && |s.journal| < |t.journal|)
  {
  }

  /** The journal is exactly what was released if and only if no failed append left text. */
  lemma {:induction false} JournalExactly(a: Auditing, calls: seq<Call>)
    ensures Run(a, calls).state.journal == Lines(Run(a, calls).released) <==> Tidy(a, calls)
  {
    JournalLength(a, calls);
    if calls != [] && Tidy(a, calls) {
      TidyStep(a, calls);
      JournalExactly(a, calls[..|calls| - 1]);
    }
  }

  /** For example, one failed sync leaves a challenge nobody received before the released one. */
  lemma JournalMayHoldUnreleased(a: Auditing, now: u64, first: Hash32, second: Hash32)
    requires a.contract.epoch.openedAt <= now < a.contract.epoch.closedAt
    requires first != ZERO_HASH && second != ZERO_HASH && first != second
    ensures var calls := [AskChallenge(Some(now), first, LineLeft), AskChallenge(Some(now), second, Synced)];
            var lost := ChallengeReceipt(NewChallenge(a, now, first));
            var kept := ChallengeReceipt(NewChallenge(a, now, second));
            && lost != kept && Run(a, calls).released == [kept]
            && Run(a, calls).state.journal == [Whole(lost), Whole(kept)]
  {
    var calls := [AskChallenge(Some(now), first, LineLeft), AskChallenge(Some(now), second, Synced)];
    assert calls[..1] == [calls[0]] && calls[..1][..0] == [];
    assert Run(a, calls[..1]).released == [];
  }

  // ---------------------------------------------------------------- towards acceptance

  /** With a released pair, only the contract and the erasure certificate are left to be judged. */
  lemma ReleasedPairCompletesStatement(a: Auditing, calls: seq<Call>, c: SignedCuPowChallenge, m: SignedCuPowCompletion,
                                       contract: SignedCuPowContract, erasure: SignedErasureCertificate)
    requires Run(a, calls).released == [ChallengeReceipt(c), CompletionReceipt(m)] && contract.contract == a.contract
    ensures Satisfies(a.digests, CuPowPublicStatement(CUPOW_PROTOCOL_VERSION, contract, c, m, erasure))
            <==> ContractClauses(a.digests, a.contract) && ErasureClause(a.contract, erasure.certificate)
  {
    ReleasesOneExchange(a, calls);
    assert Run(a, calls).released[0].challenge == c && Run(a, calls).released[1].completion == m;
  }
}
