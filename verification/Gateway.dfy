/** The gateway's shared ledger: every lock region of main.rs as one method on a class. */
module Gateway {
  import opened Integers
  import opened Types
  import opened Commitment
  import opened Relation

  datatype EpochConfig = EpochConfig(
    gatewayId: string,
    podId: string,
    incarnationId: string,
    epochId: string,
    programId: string,
    openedAt: u64,
    closedAt: u64)

  /** One line of the journal file: a whole record, or the remains of an interrupted write. */
  datatype JournalLine = Record(leaf: GatewayLeaf) | Torn

  /** How writing and syncing one journal record went. */
  datatype WriteOutcome = Written | FailedBefore | FailedTorn | FailedAfter

  /** The message an append is asked to record. */
  datatype Message = Message(
    taskId: string,
    direction: Direction,
    startedAt: u64,
    endedAt: u64,
    encodedLen: u64,
    content: ContentCommitment)

  /** The ledger's fields and the journal file, as one value. */
  datatype LedgerState = LedgerState(
    isSealed: bool,
    aborted: bool,
    leaves: seq<GatewayLeaf>,
    active: set<string>,
    journal: seq<JournalLine>)

  const EMPTY_LEDGER := LedgerState(false, false, [], {}, [])

  predicate UsesTask(leaves: seq<GatewayLeaf>, taskId: string) {
    exists i | 0 <= i < |leaves| :: leaves[i].descriptor.taskId == taskId
  }

  predicate CanReserve(s: LedgerState, taskId: string) {
    taskId != "" && !s.isSealed && !s.aborted && taskId !in s.active && !UsesTask(s.leaves, taskId)
  }

  predicate InWindow(config: EpochConfig, m: Message) {
    config.openedAt <= m.startedAt <= m.endedAt <= config.closedAt
  }

  function NewLeaf(config: EpochConfig, m: Message, index: nat): GatewayLeaf {
    GatewayLeaf(
      MessageDescriptor(PROTOCOL_VERSION, config.gatewayId, config.podId, config.incarnationId, config.epochId,
                        m.direction, AsU64(index), m.taskId, config.programId, m.startedAt, m.endedAt, m.encodedLen),
      m.content)
  }

  predicate CanAppend(config: EpochConfig, s: LedgerState, m: Message) {
    InWindow(config, m) && !s.isSealed
  }

  function AfterAppend(config: EpochConfig, s: LedgerState, m: Message, outcome: WriteOutcome): LedgerState {
    var leaf := NewLeaf(config, m, |s.leaves|);
    if !CanAppend(config, s, m) then s
    else match outcome
      case Written => s.(leaves := s.leaves + [leaf], journal := s.journal + [Record(leaf)])
      case FailedBefore => s
      case FailedTorn => s.(journal := s.journal + [Torn])
      case FailedAfter => s.(journal := s.journal + [Record(leaf)])
  }

  predicate CanSeal(s: LedgerState) {
    s.active == {} && !s.aborted
  }

  function RootStatement(h: Hasher, config: EpochConfig, leaves: seq<GatewayLeaf>): GatewayRoot {
    GatewayRoot(PROTOCOL_VERSION, config.gatewayId, config.podId, config.incarnationId, config.epochId,
                MerkleRoot(h, leaves), AsU64(|leaves|))
  }

  datatype SealedEpoch = SealedEpoch(signedRoot: SignedGatewayRoot, leaves: seq<GatewayLeaf>)

  function SealedResponse(h: Hasher, sign: GatewayRoot -> Signature, config: EpochConfig, leaves: seq<GatewayLeaf>)
    : SealedEpoch
  {
    var statement := RootStatement(h, config, leaves);
    SealedEpoch(SignedGatewayRoot(statement, sign(statement)), leaves)
  }

  // ------------------------------------------------------- what leaves the lock regions

  /** The leaf says what this message is, field by field, and where it stands in the ledger. */
  ghost predicate RecordsMessage(config: EpochConfig, m: Message, index: nat, leaf: GatewayLeaf) {
    var d := leaf.descriptor;
    && d.protocolVersion == PROTOCOL_VERSION && d.gatewayId == config.gatewayId && d.podId == config.podId
    && d.incarnationId == config.incarnationId && d.epochId == config.epochId && d.programId == config.programId
    && d.direction == m.direction && d.taskId == m.taskId && d.sequence == index % (U64_MAX + 1)
    && d.startedAt == m.startedAt && d.endedAt == m.endedAt && d.encodedLen == m.encodedLen && leaf.content == m.content
  }

  /** What a write with this outcome leaves in the journal. */
  ghost function WrittenLines(leaf: GatewayLeaf, outcome: WriteOutcome): seq<JournalLine> {
    match outcome
    case Written => [Record(leaf)]
    case FailedBefore => []
    case FailedTorn => [Torn]
    case FailedAfter => [Record(leaf)]
  }

  /** The sealed epoch is these leaves, under a signed statement of who sealed what: their root and their number. */
  ghost predicate SealsLeaves(h: Hasher, sign: GatewayRoot -> Signature, config: EpochConfig, leaves: seq<GatewayLeaf>,
                              epoch: SealedEpoch)
  {
    var s := epoch.signedRoot.statement;
    && epoch.leaves == leaves && epoch.signedRoot.signature == sign(s)
    && s.protocolVersion == PROTOCOL_VERSION && s.gatewayId == config.gatewayId && s.podId == config.podId
    && s.incarnationId == config.incarnationId && s.epochId == config.epochId
    && s.root == MerkleRoot(h, leaves) && s.leafCount == |leaves| % (U64_MAX + 1)
  }

  lemma NewLeafRecords(config: EpochConfig, m: Message, index: nat, leaf: GatewayLeaf)
    ensures RecordsMessage(config, m, index, leaf) <==> leaf == NewLeaf(config, m, index)
  {
  }

  lemma SealedResponseSeals(h: Hasher, sign: GatewayRoot -> Signature, config: EpochConfig, leaves: seq<GatewayLeaf>,
                            epoch: SealedEpoch)
    ensures SealsLeaves(h, sign, config, leaves, epoch) <==> epoch == SealedResponse(h, sign, config, leaves)
  {
  }

  class Ledger {
    var isSealed: bool
    var aborted: bool
    var leaves: seq<GatewayLeaf>
    var activeTasks: set<string>
    var journal: seq<JournalLine>

    ghost function State(): LedgerState
      reads this
    {
      LedgerState(isSealed, aborted, leaves, activeTasks, journal)
    }

    constructor ()
      ensures State() == EMPTY_LEDGER
    {
      isSealed, aborted, leaves, activeTasks, journal := false, false, [], {}, [];
    }

    /** `reserve_task`. */
    method ReserveTask(taskId: string) returns (ok: bool)
      modifies this
      ensures ok == CanReserve(old(State()), taskId)
      ensures ok <==> taskId != "" && !isSealed && !aborted && taskId !in old(activeTasks)
                      && forall i | 0 <= i < |leaves| :: leaves[i].descriptor.taskId != taskId
      ensures State() == if ok then old(State()).(active := old(activeTasks) + {taskId}) else old(State())
    {
      if taskId == "" || isSealed || aborted {
        return false;
      }
      if taskId in activeTasks {
        return false;
      }
      for i := 0 to |leaves|
        invariant forall k | 0 <= k < i :: leaves[k].descriptor.taskId != taskId
        invariant State() == old(State())
      {
        if leaves[i].descriptor.taskId == taskId {
          return false;
        }
      }
      activeTasks := activeTasks + {taskId};
      ok := true;
    }

    /** `append_leaf`: journal first, then the ledger. */
    method AppendLeaf(config: EpochConfig, m: Message, outcome: WriteOutcome) returns (ok: bool)
      modifies this
      ensures State() == AfterAppend(config, old(State()), m, outcome)
      ensures ok <==> CanAppend(config, old(State()), m) && outcome == Written
      ensures ok <==> config.openedAt <= m.startedAt <= m.endedAt <= config.closedAt && !isSealed && outcome == Written
      ensures isSealed == old(isSealed) && aborted == old(aborted) && activeTasks == old(activeTasks)
      ensures exists leaf ::
                && RecordsMessage(config, m, |old(leaves)|, leaf)
                && leaves == (if ok then old(leaves) + [leaf] else old(leaves))
                && journal == old(journal)
                              + if config.openedAt <= m.startedAt <= m.endedAt <= config.closedAt && !isSealed
                                then WrittenLines(leaf, outcome) else []
    {
      NewLeafRecords(config, m, |leaves|, NewLeaf(config, m, |leaves|));
      if m.startedAt < config.openedAt || m.endedAt > config.closedAt || m.startedAt > m.endedAt {
        return false;
      }
      if isSealed {
        return false;
      }
      var leaf := NewLeaf(config, m, |leaves|);
      match outcome {
        case FailedBefore => return false;
        case FailedTorn =>
          journal := journal + [Torn];
          return false;
        case FailedAfter =>
          journal := journal + [Record(leaf)];
          return false;
        case Written =>
          journal := journal + [Record(leaf)];
      }
      leaves := leaves + [leaf];
      ok := true;
    }

    /** The last statement of `run_task`. */
    method Release(taskId: string)
      modifies this
      ensures State() == old(State()).(active := old(activeTasks) - {taskId})
    {
      activeTasks := activeTasks - {taskId};
    }

    /** `abort_epoch`. */
    method AbortEpoch(taskId: string)
      modifies this
      ensures State() == old(State()).(active := old(activeTasks) - {taskId}, aborted := true)
    {
      activeTasks := activeTasks - {taskId};
      aborted := true;
    }

    /** `seal`, past its authorization check. */
    method Seal(h: Hasher, sign: GatewayRoot -> Signature, config: EpochConfig) returns (r: Option<SealedEpoch>)
      modifies this
      ensures r.Some? <==> CanSeal(old(State()))
      ensures r.Some? <==> old(activeTasks) == {} && !old(aborted)
      ensures State() == if r.Some? then old(State()).(isSealed := true) else old(State())
      ensures r.Some? ==> r.value == SealedResponse(h, sign, config, leaves)
      ensures r.Some? ==> SealsLeaves(h, sign, config, leaves, r.value)
    {
      if activeTasks != {} || aborted {
        return None;
      }
      isSealed := true;
      var root := ComputeGatewayRoot(h, leaves);
      var statement := GatewayRoot(PROTOCOL_VERSION, config.gatewayId, config.podId, config.incarnationId,
                                   config.epochId, root, AsU64(|leaves|));
      r := Some(SealedEpoch(SignedGatewayRoot(statement, sign(statement)), leaves));
    }
  }
}
