/** What acceptance by the relations means for the ledger and for the statements. */
module RelationTheorems {
  import opened Integers
  import opened Outcomes
  import opened NumberTheory
  import opened Types
  import opened Ordering
  import opened Sampling
  import opened Relation

  // ---------------------------------------------------------------- totals and counts

  function TotalLen(leaves: seq<GatewayLeaf>, direction: Direction): nat {
    if leaves == [] then 0
    else
      var last := leaves[|leaves| - 1].descriptor;
      TotalLen(leaves[..|leaves| - 1], direction) + if last.direction == direction then last.encodedLen else 0
  }

  function CountOf(leaves: seq<GatewayLeaf>, direction: Direction): nat {
    if leaves == [] then 0
    else
      CountOf(leaves[..|leaves| - 1], direction)
      + if leaves[|leaves| - 1].descriptor.direction == direction then 1 else 0
  }

  lemma PrefixStep(leaves: seq<GatewayLeaf>, k: nat, direction: Direction)
    requires k < |leaves|
    ensures TotalLen(leaves[..k + 1], direction)
            == TotalLen(leaves[..k], direction)
               + if leaves[k].descriptor.direction == direction then leaves[k].descriptor.encodedLen else 0
    ensures CountOf(leaves[..k + 1], direction)
            == CountOf(leaves[..k], direction) + if leaves[k].descriptor.direction == direction then 1 else 0
  {
    assert leaves[..k + 1][..k] == leaves[..k];
  }

  lemma {:induction false} TotalLenGrows(leaves: seq<GatewayLeaf>, k: nat, direction: Direction)
    requires k <= |leaves|
    ensures TotalLen(leaves[..k], direction) <= TotalLen(leaves, direction)
    decreases |leaves| - k
  {
    if k == |leaves| {
      assert leaves[..k] == leaves;
    } else {
      PrefixStep(leaves, k, direction);
      TotalLenGrows(leaves, k + 1, direction);
    }
  }

  // ------------------------------------------------------------------ the accounting

  /** The message is of this gateway, pod, incarnation and epoch, and lies within the epoch. */
  ghost predicate DescriptorFits(d: MessageDescriptor, epoch: EpochStatement, gatewayId: string) {
    && d.protocolVersion == PROTOCOL_VERSION && d.gatewayId == gatewayId
    && d.podId == epoch.podId && d.incarnationId == epoch.incarnationId && d.epochId == epoch.epochId
    && epoch.openedAt <= d.startedAt <= d.endedAt <= epoch.closedAt
    && d.taskId != "" && d.programId != ""
  }

  ghost predicate LeafFits(leaves: seq<GatewayLeaf>, k: nat, epoch: EpochStatement, gatewayId: string)
    requires k < |leaves|
  {
    DescriptorFits(leaves[k].descriptor, epoch, gatewayId) && leaves[k].descriptor.sequence == AsU64(k)
  }

  function BitTotals(leaves: seq<GatewayLeaf>, k: nat): (int, int)
    requires k <= |leaves|
  {
    (8 * TotalLen(leaves[..k], Ingress), 8 * TotalLen(leaves[..k], Egress))
  }

  lemma {:induction false} AccountFromExact(epoch: EpochStatement, gatewayId: string, leaves: seq<GatewayLeaf>,
                                            index: nat, totals: Totals)
    requires index <= |leaves| && (totals.ingress, totals.egress) == BitTotals(leaves, index)
    ensures AccountFrom(epoch, gatewayId, leaves, index, totals).Ok?
            <==> (forall k | index <= k < |leaves| :: LeafFits(leaves, k, epoch, gatewayId))
                 && 8 * TotalLen(leaves, Ingress) <= U64_MAX && 8 * TotalLen(leaves, Egress) <= U64_MAX
    ensures var r := AccountFrom(epoch, gatewayId, leaves, index, totals);
            r.Ok? ==> r.value.ingress == 8 * TotalLen(leaves, Ingress) && r.value.egress == 8 * TotalLen(leaves, Egress)
    decreases |leaves| - index
  {
    if index == |leaves| {
      assert leaves[..index] == leaves;
    } else {
      PrefixStep(leaves, index, Ingress);
      PrefixStep(leaves, index, Egress);
      TotalLenGrows(leaves, index + 1, Ingress);
      TotalLenGrows(leaves, index + 1, Egress);
      var next := AccountLeaf(epoch, gatewayId, leaves[index], index, totals);
      if next.Ok? {
        assert LeafFits(leaves, index, epoch, gatewayId);
        AccountFromExact(epoch, gatewayId, leaves, index + 1, next.value);
      } else if LeafFits(leaves, index, epoch, gatewayId) {
        var direction := leaves[index].descriptor.direction;
        assert 8 * TotalLen(leaves[..index + 1], direction) > U64_MAX;
      }
    }
  }

  /** The accounting accepts exactly the well-described ledgers whose exact totals fit in u64,
      and returns those exact totals. */
  lemma AccountExact(epoch: EpochStatement, gatewayId: string, leaves: seq<GatewayLeaf>)
    ensures AccountFrom(epoch, gatewayId, leaves, 0, Totals(0, 0)).Ok?
            <==> (forall k | 0 <= k < |leaves| :: LeafFits(leaves, k, epoch, gatewayId))
                 && 8 * TotalLen(leaves, Ingress) <= U64_MAX && 8 * TotalLen(leaves, Egress) <= U64_MAX
    ensures var r := AccountFrom(epoch, gatewayId, leaves, 0, Totals(0, 0));
            r.Ok? ==> r.value.ingress == 8 * TotalLen(leaves, Ingress) && r.value.egress == 8 * TotalLen(leaves, Egress)
  {
    assert leaves[..0] == [];
    AccountFromExact(epoch, gatewayId, leaves, 0, Totals(0, 0));
  }

  // -------------------------------------------------------------------- the grouping

  ghost predicate SameSlot(a: GatewayLeaf, b: GatewayLeaf) {
    a.descriptor.taskId == b.descriptor.taskId && a.descriptor.direction == b.descriptor.direction
  }

  ghost predicate FreshAt(leaves: seq<GatewayLeaf>, k: nat)
    requires k < |leaves|
  {
    forall i | 0 <= i < k :: !SameSlot(leaves[i], leaves[k])
  }

  /** No task has two leaves of one direction. */
  ghost predicate NoRepeat(leaves: seq<GatewayLeaf>) {
    forall k | 0 <= k < |leaves| :: FreshAt(leaves, k)
  }

  function SlotOf(g: Grouped, leaf: GatewayLeaf): Option<GatewayLeaf> {
    var d := leaf.descriptor;
    if d.taskId in g.entries then g.entries[d.taskId].Slot(d.direction) else None
  }

  ghost function Filled(g: Grouped, direction: Direction): set<string> {
    set id | id in g.entries && g.entries[id].Slot(direction).Some?
  }

  /** Every leaf is in its own slot. */
  ghost predicate Slotted(g: Grouped, leaves: seq<GatewayLeaf>) {
    forall k | 0 <= k < |leaves| :: SlotOf(g, leaves[k]) == Some(leaves[k])
  }

  /** Every slot holds one of the leaves. */
  ghost predicate Sourced(g: Grouped, leaves: seq<GatewayLeaf>) {
    forall id, direction | id in Filled(g, direction) ::
      FromLeaf(g.entries[id].Slot(direction).value, leaves, id, direction)
  }

  ghost predicate Populated(g: Grouped) {
    forall id | id in g.entries :: id in Filled(g, Ingress) || id in Filled(g, Egress)
  }

  ghost predicate Counted(g: Grouped, leaves: seq<GatewayLeaf>) {
    |Filled(g, Ingress)| == CountOf(leaves, Ingress) && |Filled(g, Egress)| == CountOf(leaves, Egress)
  }

  /** The grouping holds every leaf in its own slot and nothing else. */
  ghost predicate Holds(g: Grouped, leaves: seq<GatewayLeaf>) {
    Slotted(g, leaves) && Sourced(g, leaves) && Populated(g) && Counted(g, leaves)
  }

  ghost predicate FromLeaf(leaf: GatewayLeaf, leaves: seq<GatewayLeaf>, id: string, direction: Direction) {
    leaf in leaves && leaf.descriptor.taskId == id && leaf.descriptor.direction == direction
  }

  lemma FilledAfter(g: Grouped, leaf: GatewayLeaf, direction: Direction)
    requires GroupLeaf(g, leaf).Ok?
    ensures var d, after := leaf.descriptor, GroupLeaf(g, leaf).value;
            Filled(after, direction)
            == if d.direction == direction then Filled(g, direction) + {d.taskId} else Filled(g, direction)
    ensures leaf.descriptor.taskId !in Filled(g, leaf.descriptor.direction)
  {
  }

  lemma GroupLeafFresh(g: Grouped, leaves: seq<GatewayLeaf>, leaf: GatewayLeaf)
    requires Slotted(g, leaves) && Sourced(g, leaves)
    ensures GroupLeaf(g, leaf).Ok? <==> forall k | 0 <= k < |leaves| :: !SameSlot(leaves[k], leaf)
  {
    var d := leaf.descriptor;
    if GroupLeaf(g, leaf).Ok? {
      forall k | 0 <= k < |leaves| ensures !SameSlot(leaves[k], leaf) {
        assert SlotOf(g, leaves[k]) == Some(leaves[k]);
      }
    } else {
      assert d.taskId in Filled(g, d.direction);
      var earlier := g.entries[d.taskId].Slot(d.direction).value;
      assert FromLeaf(earlier, leaves, d.taskId, d.direction);
      var k :| 0 <= k < |leaves| && leaves[k] == earlier;
      assert SameSlot(leaves[k], leaf);
    }
  }

  lemma GroupLeafSlotted(g: Grouped, leaves: seq<GatewayLeaf>, leaf: GatewayLeaf)
    requires Slotted(g, leaves) && GroupLeaf(g, leaf).Ok?
    ensures Slotted(GroupLeaf(g, leaf).value, leaves + [leaf])
  {
  }

  lemma GroupLeafSourced(g: Grouped, leaves: seq<GatewayLeaf>, leaf: GatewayLeaf)
    requires Sourced(g, leaves) && GroupLeaf(g, leaf).Ok?
    ensures Sourced(GroupLeaf(g, leaf).value, leaves + [leaf])
  {
    var after, all, d := GroupLeaf(g, leaf).value, leaves + [leaf], leaf.descriptor;
    forall id, direction | id in Filled(after, direction)
      ensures FromLeaf(after.entries[id].Slot(direction).value, all, id, direction)
    {
      FilledAfter(g, leaf, direction);
      if id == d.taskId && direction == d.direction {
        assert all[|leaves|] == leaf;
      } else {
        var earlier := g.entries[id].Slot(direction).value;
        assert FromLeaf(earlier, leaves, id, direction);
        assert earlier in all;
      }
    }
  }

  lemma GroupLeafCounted(g: Grouped, leaves: seq<GatewayLeaf>, leaf: GatewayLeaf)
    requires Populated(g) && Counted(g, leaves) && GroupLeaf(g, leaf).Ok?
    ensures Populated(GroupLeaf(g, leaf).value) && Counted(GroupLeaf(g, leaf).value, leaves + [leaf])
  {
    FilledAfter(g, leaf, Ingress);
    FilledAfter(g, leaf, Egress);
    assert (leaves + [leaf])[..|leaves|] == leaves;
    var after := GroupLeaf(g, leaf).value;
    forall id | id in after.entries ensures id in Filled(after, Ingress) || id in Filled(after, Egress) {
      if id != leaf.descriptor.taskId {
        assert id in g.entries;
      }
    }
  }

  lemma GroupLeafHolds(g: Grouped, leaves: seq<GatewayLeaf>, leaf: GatewayLeaf)
    requires Holds(g, leaves) && GroupLeaf(g, leaf).Ok?
    ensures Holds(GroupLeaf(g, leaf).value, leaves + [leaf])
  {
    GroupLeafSlotted(g, leaves, leaf);
    GroupLeafSourced(g, leaves, leaf);
    GroupLeafCounted(g, leaves, leaf);
  }

  ghost predicate ProgramFits(d: MessageDescriptor, programId: string, epochId: Option<string>) {
    d.programId == programId && (epochId.Some? ==> d.epochId == epochId.value)
  }

  ghost predicate GroupsAt(leaves: seq<GatewayLeaf>, k: nat, programId: string, epochId: Option<string>)
    requires k < |leaves|
  {
    ProgramFits(leaves[k].descriptor, programId, epochId) && FreshAt(leaves, k)
  }

  lemma GroupStepExact(leaves: seq<GatewayLeaf>, index: nat, g: Grouped)
    requires index < |leaves| && Holds(g, leaves[..index])
    ensures GroupLeaf(g, leaves[index]).Ok? <==> FreshAt(leaves, index)
    ensures GroupLeaf(g, leaves[index]).Ok? ==> Holds(GroupLeaf(g, leaves[index]).value, leaves[..index + 1])
  {
    GroupLeafFresh(g, leaves[..index], leaves[index]);
    assert leaves[..index + 1] == leaves[..index] + [leaves[index]];
    if GroupLeaf(g, leaves[index]).Ok? {
      GroupLeafHolds(g, leaves[..index], leaves[index]);
    }
    if FreshAt(leaves, index) {
      forall k | 0 <= k < index ensures !SameSlot(leaves[..index][k], leaves[index]) {
        assert leaves[..index][k] == leaves[k];
      }
    }
    if forall k | 0 <= k < index :: !SameSlot(leaves[..index][k], leaves[index]) {
      forall k | 0 <= k < index ensures !SameSlot(leaves[k], leaves[index]) {
        assert leaves[..index][k] == leaves[k];
      }
    }
  }

  ghost predicate GroupsFrom(leaves: seq<GatewayLeaf>, index: nat, programId: string, epochId: Option<string>)
    requires index <= |leaves|
    decreases |leaves| - index
  {
    index < |leaves| ==>
      GroupsAt(leaves, index, programId, epochId) && GroupsFrom(leaves, index + 1, programId, epochId)
  }

  lemma {:induction false} GroupsFromAll(leaves: seq<GatewayLeaf>, index: nat, programId: string,
                                         epochId: Option<string>)
    requires index <= |leaves|
    ensures GroupsFrom(leaves, index, programId, epochId)
            <==> forall k | index <= k < |leaves| :: GroupsAt(leaves, k, programId, epochId)
    decreases |leaves| - index
  {
    if index == |leaves| {
    } else {
      GroupsFromAll(leaves, index + 1, programId, epochId);
    }
  }

  lemma GroupFromUnfolds(leaves: seq<GatewayLeaf>, programId: string, epochId: Option<string>, index: nat, g: Grouped)
    requires index < |leaves|
    ensures GroupFrom(leaves, programId, epochId, index, g)
            == if !ProgramFits(leaves[index].descriptor, programId, epochId) then Err(Descriptor)
               else if GroupLeaf(g, leaves[index]).Err? then Err(GroupLeaf(g, leaves[index]).error)
               else GroupFrom(leaves, programId, epochId, index + 1, GroupLeaf(g, leaves[index]).value)
  {
  }

  lemma {:induction false} GroupFromExact(leaves: seq<GatewayLeaf>, programId: string, epochId: Option<string>,
                                          index: nat, g: Grouped)
    requires index <= |leaves| && Holds(g, leaves[..index])
    ensures GroupFrom(leaves, programId, epochId, index, g).Ok? <==> GroupsFrom(leaves, index, programId, epochId)
    ensures var r := GroupFrom(leaves, programId, epochId, index, g); r.Ok? ==> Holds(r.value, leaves)
    decreases |leaves| - index
  {
    if index == |leaves| {
      assert leaves[..index] == leaves;
    } else {
      GroupFromUnfolds(leaves, programId, epochId, index, g);
      GroupStepExact(leaves, index, g);
      var step := GroupLeaf(g, leaves[index]);
      if step.Ok? {
        GroupFromExact(leaves, programId, epochId, index + 1, step.value);
      }
    }
  }

  /** Grouping succeeds exactly when the program fits and no direction of a task repeats. */
  lemma GroupExact(leaves: seq<GatewayLeaf>, programId: string, epochId: Option<string>)
    ensures GroupFrom(leaves, programId, epochId, 0, EMPTY_GROUPED).Ok?
            <==> (forall k | 0 <= k < |leaves| :: ProgramFits(leaves[k].descriptor, programId, epochId))
                 && NoRepeat(leaves)
    ensures var r := GroupFrom(leaves, programId, epochId, 0, EMPTY_GROUPED); r.Ok? ==> Holds(r.value, leaves)
  {
    assert leaves[..0] == [];
    assert Filled(EMPTY_GROUPED, Ingress) == {} && Filled(EMPTY_GROUPED, Egress) == {};
    GroupFromExact(leaves, programId, epochId, 0, EMPTY_GROUPED);
    GroupsFromAll(leaves, 0, programId, epochId);
    if (forall k | 0 <= k < |leaves| :: ProgramFits(leaves[k].descriptor, programId, epochId)) && NoRepeat(leaves) {
      assert forall k | 0 <= k < |leaves| :: GroupsAt(leaves, k, programId, epochId);
    }
    if forall k | 0 <= k < |leaves| :: GroupsAt(leaves, k, programId, epochId) {
      forall k | 0 <= k < |leaves|
        ensures ProgramFits(leaves[k].descriptor, programId, epochId) && FreshAt(leaves, k)
      {
        assert GroupsAt(leaves, k, programId, epochId);
      }
    }
  }

  function Opposite(direction: Direction): Direction {
    match direction
    case Ingress => Egress
    case Egress => Ingress
  }

  /** Every leaf has a partner of the other direction. */
  ghost predicate EveryLeafPaired(leaves: seq<GatewayLeaf>) {
    forall i | 0 <= i < |leaves| :: HasPartner(leaves, i)
  }

  ghost predicate HasPartner(leaves: seq<GatewayLeaf>, i: nat)
    requires i < |leaves|
  {
    var d := leaves[i].descriptor;
    exists j | 0 <= j < |leaves| ::
      leaves[j].descriptor.taskId == d.taskId && leaves[j].descriptor.direction == Opposite(d.direction)
  }

  lemma CompleteIsPaired(g: Grouped, leaves: seq<GatewayLeaf>, i: nat)
    requires Slotted(g, leaves) && Sourced(g, leaves) && AllComplete(g) && i < |leaves|
    ensures HasPartner(leaves, i)
  {
    var d := leaves[i].descriptor;
    var other := Opposite(d.direction);
    assert SlotOf(g, leaves[i]) == Some(leaves[i]);
    assert g.entries[d.taskId].Complete();
    assert d.taskId in Filled(g, other);
    var partner := g.entries[d.taskId].Slot(other).value;
    assert FromLeaf(partner, leaves, d.taskId, other);
    var j :| 0 <= j < |leaves| && leaves[j] == partner;
  }

  lemma EntryHasLeaf(g: Grouped, leaves: seq<GatewayLeaf>, id: string) returns (i: nat)
    requires Sourced(g, leaves) && Populated(g) && id in g.entries
    ensures i < |leaves| && leaves[i].descriptor.taskId == id
  {
    var direction := if id in Filled(g, Ingress) then Ingress else Egress;
    assert id in Filled(g, direction);
    var leaf := g.entries[id].Slot(direction).value;
    assert FromLeaf(leaf, leaves, id, direction);
    i :| 0 <= i < |leaves| && leaves[i] == leaf;
  }

  lemma PartnersComplete(g: Grouped, leaves: seq<GatewayLeaf>, i: nat, j: nat)
    requires Slotted(g, leaves) && i < |leaves| && j < |leaves|
    requires leaves[j].descriptor.taskId == leaves[i].descriptor.taskId
    requires leaves[j].descriptor.direction == Opposite(leaves[i].descriptor.direction)
    ensures var id := leaves[i].descriptor.taskId; id in g.entries && g.entries[id].Complete()
  {
  }

  lemma PairedIsComplete(g: Grouped, leaves: seq<GatewayLeaf>, id: string)
    requires Slotted(g, leaves) && Sourced(g, leaves) && Populated(g) && EveryLeafPaired(leaves) && id in g.entries
    ensures g.entries[id].Complete()
  {
    var i := EntryHasLeaf(g, leaves, id);
    var d := leaves[i].descriptor;
    assert HasPartner(leaves, i);
    var j :| 0 <= j < |leaves| && leaves[j].descriptor.taskId == d.taskId
             && leaves[j].descriptor.direction == Opposite(d.direction);
    PartnersComplete(g, leaves, i, j);
  }

  lemma CompleteIffPaired(g: Grouped, leaves: seq<GatewayLeaf>)
    requires Holds(g, leaves)
    ensures AllComplete(g) <==> EveryLeafPaired(leaves)
  {
    if AllComplete(g) {
      forall i | 0 <= i < |leaves| ensures HasPartner(leaves, i) {
        CompleteIsPaired(g, leaves, i);
      }
    }
    if EveryLeafPaired(leaves) {
      forall id | id in g.entries ensures g.entries[id].Complete() {
        PairedIsComplete(g, leaves, id);
      }
    }
  }

  // ---------------------------------------------------- statements: derive and re-check

  lemma {:induction false} BindExact(input: TaskRelationInput, entries: map<string, TaskLeaves>, sampled: seq<string>)
    requires forall id | id in sampled :: id in entries && entries[id].Complete()
    ensures BindStatements(input, entries, sampled).Ok?
            <==> forall id | id in sampled ::
                   id in input.sampledStatements
                   && input.sampledStatements[id] == ExpectedStatement(input.epoch, input.program, id, entries[id])
  {
    if sampled == [] {
    } else {
      assert sampled == [sampled[0]] + sampled[1..];
      BindExact(input, entries, sampled[1..]);
    }
  }

  lemma {:induction false} EpochCheckIsRedundant(leaves: seq<GatewayLeaf>, programId: string, epochId: string,
                                                 index: nat, g: Grouped)
    requires index <= |leaves| && forall k | 0 <= k < |leaves| :: leaves[k].descriptor.epochId == epochId
    ensures GroupFrom(leaves, programId, Some(epochId), index, g) == GroupFrom(leaves, programId, None, index, g)
    decreases |leaves| - index
  {
    if index < |leaves| && GroupLeaf(g, leaves[index]).Ok? {
      EpochCheckIsRedundant(leaves, programId, epochId, index + 1, GroupLeaf(g, leaves[index]).value);
    }
  }

  lemma ValidatedLeavesFit(c: Primitives, policy: MonitoringPolicy, epoch: EpochStatement, signed: SignedGatewayRoot,
                           key: PublicKey, leaves: seq<GatewayLeaf>)
    requires ValidateGateway(c, policy, epoch, signed, key, leaves).Ok?
    ensures forall k | 0 <= k < |leaves| :: LeafFits(leaves, k, epoch, signed.statement.gatewayId)
  {
    AccountExact(epoch, signed.statement.gatewayId, leaves);
  }

  function DerivedMap(epoch: EpochStatement, program: TaskProgram, g: Grouped, sampled: seq<string>)
    : map<string, ZkTorchStatement>
    requires AllComplete(g)
  {
    map id | id in sampled && id in g.entries :: ExpectedStatement(epoch, program, id, g.entries[id])
  }

  lemma ValidatedEpochIds(c: Primitives, policy: MonitoringPolicy, epoch: EpochStatement, signed: SignedGatewayRoot,
                          key: PublicKey, leaves: seq<GatewayLeaf>)
    requires ValidateGateway(c, policy, epoch, signed, key, leaves).Ok?
    ensures forall k | 0 <= k < |leaves| :: leaves[k].descriptor.epochId == epoch.epochId
  {
    ValidatedLeavesFit(c, policy, epoch, signed, key, leaves);
    forall k | 0 <= k < |leaves| ensures leaves[k].descriptor.epochId == epoch.epochId {
      assert LeafFits(leaves, k, epoch, signed.statement.gatewayId);
    }
  }

  /** The deriving side succeeds on every ledger the checking side gets as far as its statements on. */
  lemma DerivationAfterPairing(c: Primitives, input: TaskRelationInput)
    requires PairTasks(c, input).Ok?
    ensures var g := PairTasks(c, input).value.grouped;
            var sampled := Sampled(c, input.policy, input.epoch, g);
            SampledZkTorchStatements(c, input.policy, input.epoch, input.program, input.leaves)
            == Ok(DerivedMap(input.epoch, input.program, g, sampled))
  {
    PairingHeader(c, input);
    ValidatedEpochIds(c, input.policy, input.epoch, input.gatewayRoot, input.gatewayKey, input.leaves);
    EpochCheckIsRedundant(input.leaves, input.program.programId, input.epoch.epochId, 0, EMPTY_GROUPED);
    DerivedFrom(c, input.policy, input.epoch, input.program, input.leaves, PairTasks(c, input).value.grouped);
  }

  lemma PairingHeader(c: Primitives, input: TaskRelationInput)
    requires PairTasks(c, input).Ok?
    ensures ValidateGateway(c, input.policy, input.epoch, input.gatewayRoot, input.gatewayKey, input.leaves).Ok?
    ensures ValidatePolicy(input.policy).Ok? && ProgramValid(input.program)
    ensures GroupFrom(input.leaves, input.program.programId, None, 0, EMPTY_GROUPED)
            == Ok(PairTasks(c, input).value.grouped)
  {
  }

  lemma DerivedFrom(c: Primitives, policy: MonitoringPolicy, epoch: EpochStatement, program: TaskProgram,
                    leaves: seq<GatewayLeaf>, g: Grouped)
    requires ValidatePolicy(policy).Ok? && ProgramValid(program) && AllComplete(g)
    requires GroupFrom(leaves, program.programId, Some(epoch.epochId), 0, EMPTY_GROUPED) == Ok(g)
    ensures SampledZkTorchStatements(c, policy, epoch, program, leaves)
            == Ok(DerivedMap(epoch, program, g, Sampled(c, policy, epoch, g)))
  {
  }

  lemma BindsDerivedMap(input: TaskRelationInput, g: Grouped, sampled: seq<string>)
    requires AllComplete(g) && forall id | id in sampled :: id in g.entries
    ensures input.sampledStatements.Keys == (set id | id in sampled) && BindStatements(input, g.entries, sampled).Ok?
            <==> input.sampledStatements == DerivedMap(input.epoch, input.program, g, sampled)
  {
    var derived := DerivedMap(input.epoch, input.program, g, sampled);
    BindExact(input, g.entries, sampled);
    assert derived.Keys == set id | id in sampled;
  }

  lemma AcceptsWhenBound(c: Primitives, input: TaskRelationInput)
    requires PairTasks(c, input).Ok?
    ensures var g := PairTasks(c, input).value.grouped;
            var sampled := Sampled(c, input.policy, input.epoch, g);
            EvaluateTaskRelation(c, input).Ok?
            <==> input.sampledStatements.Keys == (set id | id in sampled)
                 && BindStatements(input, g.entries, sampled).Ok?
  {
  }

  /** Once the earlier checks pass, the relation accepts the supplied statements if and only if
      they are the ones derived from the same policy, epoch, program and leaves. */
  lemma AcceptsExactlyDerived(c: Primitives, input: TaskRelationInput)
    ensures EvaluateTaskRelation(c, input).Ok?
            <==> PairTasks(c, input).Ok?
                 && SampledZkTorchStatements(c, input.policy, input.epoch, input.program, input.leaves)
                    == Ok(input.sampledStatements)
  {
    if PairTasks(c, input).Ok? {
      var g := PairTasks(c, input).value.grouped;
      DerivationAfterPairing(c, input);
      AcceptsWhenBound(c, input);
      BindsDerivedMap(input, g, Sampled(c, input.policy, input.epoch, g));
    }
  }

  /** The earlier checks do not read the statements, so deriving always re-verifies. */
  lemma DerivedReverifies(c: Primitives, input: TaskRelationInput)
    requires PairTasks(c, input).Ok?
    ensures var derived := SampledZkTorchStatements(c, input.policy, input.epoch, input.program, input.leaves);
            derived.Ok? && EvaluateTaskRelation(c, input.(sampledStatements := derived.value)).Ok?
  {
    var derived := SampledZkTorchStatements(c, input.policy, input.epoch, input.program, input.leaves);
    DerivationAfterPairing(c, input);
    var honest := input.(sampledStatements := derived.value);
    PairTasksIgnoresStatements(c, input, derived.value);
    AcceptsExactlyDerived(c, honest);
  }

  lemma PairTasksIgnoresStatements(c: Primitives, input: TaskRelationInput, statements: map<string, ZkTorchStatement>)
    ensures PairTasks(c, input.(sampledStatements := statements)) == PairTasks(c, input)
  {
  }

  /** Raising the sampling rate only adds entries to the derived map. */
  lemma DerivedMapMonotone(c: Primitives, p: MonitoringPolicy, q: MonitoringPolicy, epoch: EpochStatement,
                           program: TaskProgram, leaves: seq<GatewayLeaf>)
    requires RateAtMost(p.task, q.task)
    requires SampledZkTorchStatements(c, p, epoch, program, leaves).Ok? && ValidatePolicy(q).Ok?
    ensures SampledZkTorchStatements(c, q, epoch, program, leaves).Ok?
    ensures var few, many := SampledZkTorchStatements(c, p, epoch, program, leaves).value,
                             SampledZkTorchStatements(c, q, epoch, program, leaves).value;
            forall id | id in few :: id in many && many[id] == few[id]
  {
    var g := GroupFrom(leaves, program.programId, Some(epoch.epochId), 0, EMPTY_GROUPED).value;
    forall id | id in Sampled(c, p, epoch, g) ensures id in Sampled(c, q, epoch, g) {
      SelectionMonotone(p.task, q.task, c.draw(epoch.samplingSeed, epoch.epochId, id));
    }
  }

  // --------------------------------------------------------------------- conservation

  lemma {:induction false} CheckPairsEach(policy: TaskPolicy, order: seq<string>, entries: map<string, TaskLeaves>)
    requires forall id | id in order :: id in entries && entries[id].Complete()
    ensures CheckPairs(policy, order, entries).Ok? <==> forall id | id in order :: CheckPair(policy, entries[id]).Ok?
  {
    if order == [] {
    } else {
      assert order == [order[0]] + order[1..];
      CheckPairsEach(policy, order[1..], entries);
    }
  }

  lemma {:induction false} AscendingLength(order: seq<string>)
    requires Ascending(order)
    ensures |set id | id in order| == |order|
  {
    if order == [] {
      assert (set id | id in order) == {};
    } else {
      var n := |order| - 1;
      AscendingLength(order[..n]);
      var last := order[n];
      forall i | 0 <= i < n ensures order[i] != last {
        Trichotomy(order[i], last);
      }
      assert (set id | id in order) == (set id | id in order[..n]) + {last};
    }
  }

  lemma {:induction false} CappedTotal(leaves: seq<GatewayLeaf>, direction: Direction, cap: nat)
    requires forall k | 0 <= k < |leaves| && leaves[k].descriptor.direction == direction ::
               8 * leaves[k].descriptor.encodedLen <= cap
    ensures 8 * TotalLen(leaves, direction) <= CountOf(leaves, direction) * cap
  {
    if leaves == [] {
    } else {
      var n := |leaves| - 1;
      CappedTotal(leaves[..n], direction, cap);
      if leaves[n].descriptor.direction == direction {
        assert (CountOf(leaves[..n], direction) + 1) * cap == CountOf(leaves[..n], direction) * cap + cap;
      }
    }
  }

  lemma {:induction false} CountsAddUp(leaves: seq<GatewayLeaf>)
    ensures CountOf(leaves, Ingress) + CountOf(leaves, Egress) == |leaves|
  {
    if leaves == [] {
    } else {
      CountsAddUp(leaves[..|leaves| - 1]);
    }
  }

  lemma PairedCounts(g: Grouped, leaves: seq<GatewayLeaf>)
    requires Holds(g, leaves) && IsBTree(g) && AllComplete(g)
    ensures CountOf(leaves, Ingress) == |g.order| && CountOf(leaves, Egress) == |g.order| && |leaves| == 2 * |g.order|
  {
    AscendingLength(g.order);
    assert Filled(g, Ingress) == (set id | id in g.order);
    assert Filled(g, Egress) == (set id | id in g.order);
    CountsAddUp(leaves);
  }

  lemma LeavesCapped(policy: TaskPolicy, g: Grouped, leaves: seq<GatewayLeaf>, k: nat)
    requires Holds(g, leaves) && IsBTree(g) && AllComplete(g) && CheckPairs(policy, g.order, g.entries).Ok?
    requires k < |leaves|
    ensures leaves[k].descriptor.direction == Ingress ==> 8 * leaves[k].descriptor.encodedLen <= policy.maxIngressBits
    ensures leaves[k].descriptor.direction == Egress ==> 8 * leaves[k].descriptor.encodedLen <= policy.maxEgressBits
  {
    CheckPairsEach(policy, g.order, g.entries);
    var id := leaves[k].descriptor.taskId;
    assert SlotOf(g, leaves[k]) == Some(leaves[k]);
    assert id in g.order && CheckPair(policy, g.entries[id]).Ok?;
  }

  lemma PairingParts(c: Primitives, input: TaskRelationInput)
    requires PairTasks(c, input).Ok?
    ensures var p := PairTasks(c, input).value;
            && AccountFrom(input.epoch, input.gatewayRoot.statement.gatewayId, input.leaves, 0, Totals(0, 0))
               == Ok(p.totals)
            && GroupFrom(input.leaves, input.program.programId, None, 0, EMPTY_GROUPED) == Ok(p.grouped)
            && AsU64(|p.grouped.order|) <= input.policy.task.maxTasks
            && CheckPairs(input.policy.task, p.grouped.order, p.grouped.entries).Ok?
  {
  }

  /** Pairing conserves leaves and bits and bounds both directions by the task count. */
  lemma PairedTotals(c: Primitives, input: TaskRelationInput)
    requires PairTasks(c, input).Ok? && |input.leaves| <= U64_MAX
    ensures var p, policy := PairTasks(c, input).value, input.policy.task;
            var count := |p.grouped.order|;
            && count == AsU64(count) <= policy.maxTasks
            && |input.leaves| == 2 * count
            && p.totals.ingress + p.totals.egress
               == 8 * (TotalLen(input.leaves, Ingress) + TotalLen(input.leaves, Egress))
            && p.totals.ingress <= count * policy.maxIngressBits <= policy.maxTasks * policy.maxIngressBits
            && p.totals.egress <= count * policy.maxEgressBits <= policy.maxTasks * policy.maxEgressBits
  {
    PairingParts(c, input);
    var p, policy := PairTasks(c, input).value, input.policy.task;
    AccountExact(input.epoch, input.gatewayRoot.statement.gatewayId, input.leaves);
    GroupExact(input.leaves, input.program.programId, None);
    LedgerBounds(policy, p.grouped, input.leaves);
    ModSmall(|p.grouped.order|, TWO_64);
    MulLe(|p.grouped.order|, policy.maxTasks, policy.maxIngressBits);
    MulLe(|p.grouped.order|, policy.maxTasks, policy.maxEgressBits);
  }

  /** On acceptance the leaf count is twice the task count, all bits are counted once, and each
      direction's total is within the task count, hence the task limit, times its per-task cap. */
  lemma AcceptedTotals(c: Primitives, input: TaskRelationInput)
    requires EvaluateTaskRelation(c, input).Ok? && |input.leaves| <= U64_MAX
    ensures var o, policy := EvaluateTaskRelation(c, input).value, input.policy.task;
            && |input.leaves| == 2 * o.taskCount && o.taskCount <= policy.maxTasks
            && o.ingressBits + o.egressBits == 8 * (TotalLen(input.leaves, Ingress) + TotalLen(input.leaves, Egress))
            && o.ingressBits <= o.taskCount * policy.maxIngressBits <= policy.maxTasks * policy.maxIngressBits
            && o.egressBits <= o.taskCount * policy.maxEgressBits <= policy.maxTasks * policy.maxEgressBits
  {
    PairedTotals(c, input);
  }

  lemma LedgerBounds(policy: TaskPolicy, g: Grouped, leaves: seq<GatewayLeaf>)
    requires Holds(g, leaves) && IsBTree(g) && AllComplete(g) && CheckPairs(policy, g.order, g.entries).Ok?
    ensures |leaves| == 2 * |g.order|
    ensures 8 * TotalLen(leaves, Ingress) <= |g.order| * policy.maxIngressBits
    ensures 8 * TotalLen(leaves, Egress) <= |g.order| * policy.maxEgressBits
  {
    PairedCounts(g, leaves);
    forall k | 0 <= k < |leaves|
      ensures leaves[k].descriptor.direction == Ingress ==> 8 * leaves[k].descriptor.encodedLen <= policy.maxIngressBits
      ensures leaves[k].descriptor.direction == Egress ==> 8 * leaves[k].descriptor.encodedLen <= policy.maxEgressBits
    {
      LeavesCapped(policy, g, leaves, k);
    }
    CappedTotal(leaves, Ingress, policy.maxIngressBits);
    CappedTotal(leaves, Egress, policy.maxEgressBits);
  }
}
