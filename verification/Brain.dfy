/** The brain as the object the source defines: five tables and a counter, updated in place. Each method is
    proved against the store function of the same name. */
module Brain {
  import opened Wrappers
  import opened BrainTypes
  import opened BranchChain
  import opened RowSelection
  import opened BrainReads
  import opened BrainWrites
  import opened BrainMerge

  class Brain {
    var facts: seq<Fact>
    var beliefs: seq<Belief>
    var transactions: seq<Tx>
    var branches: seq<Branch>
    var nextTx: TxId
    var txBranch: map<TxId, string>

    function Snapshot(): Store
      reads this
    {
      Store(facts, beliefs, transactions, branches, nextTx, txBranch)
    }

    constructor ()
      ensures Snapshot() == NewStore()
      ensures branches == [Branch("main", "main", None, 0, false)] && nextTx == 1
      ensures facts == [] && beliefs == [] && transactions == [] && txBranch == map[]
    {
      facts, beliefs, transactions := [], [], [];
      branches := [MAIN_ROW];
      nextTx := 1;
      txBranch := map[];
    }

    method AllocTx(branch: string, action: TxAction, refs: seq<string>, clock: Clock)
      returns (r: Result<(TxId, Time), Error>)
      modifies this
      ensures match BrainWrites.AllocTx(old(Snapshot()), branch, action, refs, clock)
              case Err(e) => Snapshot() == old(Snapshot()) && r == Err(e)
              case Ok(s) => Snapshot() == s && r == Ok((old(nextTx), clock(old(nextTx))))
    {
      if !LiveBranch(branches, branch) {
        return Err(UnknownBranch);
      }
      if SESSION_CLOSED_FACT_ID !in refs && IsSessionClosed(facts) {
        return Err(SessionClosed);
      }
      if nextTx >= TX_MAX {
        return Err(TxIdsExhausted);
      }
      var txId := nextTx;
      nextTx := nextTx + 1;
      var txTime := clock(txId);
      var parent := if transactions == [] then None else Some(transactions[|transactions| - 1].txId);
      transactions := transactions + [Tx(txId, txTime, action, refs, parent, branch)];
      txBranch := txBranch[txId := branch];
      return Ok((txId, txTime));
    }

    /** `branch_ancestors`: follow parents for at most 257 rows. */
    method BranchAncestors(branch: string) returns (chain: seq<string>)
      ensures chain == Ancestors(branches, branch)
    {
      hide FirstRow, Walk;
      chain := [];
      var cur := Some(branch);
      var guard := 0;
      ghost var rest := Walk(branches, branch, CHAIN_LIMIT);
      while cur.Some?
        invariant guard <= CHAIN_LIMIT
        invariant Walk(branches, branch, CHAIN_LIMIT) == chain + rest
        invariant rest == if cur.Some? then Walk(branches, cur.value, CHAIN_LIMIT - guard) else []
        decreases cur.Some?, CHAIN_LIMIT - guard
      {
        var id := cur.value;
        WalkStep(branches, id, CHAIN_LIMIT - guard);
        cur := None;
        if guard > 256 {
          break;
        }
        guard := guard + 1;
        var k := FirstRow(branches, id);
        if k == |branches| {
          break;
        }
        if branches[k].archived {
          break;
        }
        assert rest[0] == id == branches[k].branchId;
        rest := rest[1..];
        chain := chain + [branches[k].branchId];
        cur := branches[k].parentBranchId;
      }
      if chain == [] {
        chain := [branch];
      }
    }

    method AssertFact(branch: string, claim: Claim, clock: Clock) returns (out: Outcome)
      modifies this
      ensures (Snapshot(), out) == BrainWrites.AssertFact(old(Snapshot()), branch, claim, clock)
    {
      hide LiveBranch, IsSessionClosed, ValidPredicateName;
      if !ValidPredicateName(claim.pred) {
        return Err(InvalidPredicate);
      }
      var tx := AllocTx(branch, AssertFactAction, [claim.factId], clock);
      if tx.Err? {
        return Err(tx.error);
      }
      var (txId, txTime) := tx.value;
      var validFrom := OrElse(claim.validFrom, txTime);
      var closeAt := CloseAt(validFrom, txTime);
      ghost var a := Snapshot();
      var i := 0;
      while i < |facts|
        invariant 0 <= i <= |facts| == |a.facts|
        invariant Snapshot() == a.(facts := facts)
        invariant forall k :: 0 <= k < i ==> facts[k] == ClosedBy(a, a.facts[k], branch, claim.factId, txId, closeAt)
        invariant forall k :: i <= k < |facts| ==> facts[k] == a.facts[k]
      {
        var f := facts[i];
        if f.factId == claim.factId && f.revokedByTx.None? && f.supersededByTx.None? && f.validTo.None?
           && f.createdByTx in txBranch && txBranch[f.createdByTx] == branch
        {
          facts := facts[i := f.(supersededByTx := Some(txId), validTo := Some(closeAt))];
        }
        i := i + 1;
      }
      assert facts == CloseOpenRows(a, branch, claim.factId, txId, closeAt);
      facts := facts + [Fact(claim.factId, claim.pred, claim.value, txTime, txId, None, None, claim.provenance,
                             validFrom, claim.validTo)];
      return Ok(txId);
    }

    method RetractFact(branch: string, id: string, clock: Clock) returns (out: Outcome)
      modifies this
      ensures (Snapshot(), out) == BrainWrites.RetractFact(old(Snapshot()), branch, id, clock)
    {
      var found := FindFact(Snapshot(), FactsOnBranch(Snapshot(), branch), id);
      if found.None? {
        return Err(NoActiveFact);
      }
      assert found.value.row < |facts|;
      var head := facts[found.value.row];
      var tx := AllocTx(branch, RetractFactAction, [id], clock);
      if tx.Err? {
        return Err(tx.error);
      }
      var (txId, txTime) := tx.value;
      if !(head.createdByTx in txBranch && txBranch[head.createdByTx] == branch) {
        facts := facts + [Tombstone(head, txId, txTime)];
        return Ok(txId);
      }
      StampRows(branch, id, txId, txTime);
      return Ok(txId);
    }

    /** The stamping loop of `retract_fact`. */
    method StampRows(branch: string, id: string, txId: TxId, txTime: Time)
      modifies this`facts
      ensures facts == RetractRows(old(Snapshot()), branch, id, txId, txTime)
    {
      ghost var a := Snapshot();
      var i := 0;
      while i < |facts|
        invariant 0 <= i <= |facts| == |a.facts|
        invariant forall k :: 0 <= k < i ==> facts[k] == RetractedBy(a, a.facts[k], branch, id, txId, txTime)
        invariant forall k :: i <= k < |facts| ==> facts[k] == a.facts[k]
      {
        var f := facts[i];
        if f.factId == id && f.revokedByTx.None? && f.supersededByTx.None?
           && f.createdByTx in txBranch && txBranch[f.createdByTx] == branch
        {
          facts := facts[i := f.(revokedByTx := Some(txId), validTo := Some(txTime))];
        }
        i := i + 1;
      }
      assert facts == RetractRows(a, branch, id, txId, txTime);
    }

    /** The stamping loop of `retract_fact_exact`. */
    method StampExactRows(branch: string, id: string, pred: string, value: FactValue, txId: TxId, txTime: Time)
      modifies this`facts
      ensures facts == RetractRowsExactly(old(Snapshot()), branch, id, pred, value, txId, txTime)
    {
      ghost var a := Snapshot();
      var i := 0;
      while i < |facts|
        invariant 0 <= i <= |facts| == |a.facts|
        invariant forall k :: 0 <= k < i ==>
                    facts[k] == RetractedExactlyBy(a, a.facts[k], branch, id, pred, value, txId, txTime)
        invariant forall k :: i <= k < |facts| ==> facts[k] == a.facts[k]
      {
        var f := facts[i];
        if f.revokedByTx.None? && f.factId == id && f.pred == pred && f.value == value
           && f.createdByTx in txBranch && txBranch[f.createdByTx] == branch
        {
          var revoked := f.(revokedByTx := Some(txId));
          if f.validTo.None? {
            revoked := revoked.(validTo := Some(txTime));
          }
          facts := facts[i := revoked];
        }
        i := i + 1;
      }
      assert facts == RetractRowsExactly(a, branch, id, pred, value, txId, txTime);
    }

    method RetractFactExact(branch: string, id: string, pred: string, value: FactValue, clock: Clock)
      returns (out: Outcome)
      modifies this
      ensures (Snapshot(), out) == BrainWrites.RetractFactExact(old(Snapshot()), branch, id, pred, value, clock)
    {
      var found := FindTuple(Snapshot(), FactsOnBranch(Snapshot(), branch), id, pred, value);
      if found.None? {
        return Err(NoActiveFact);
      }
      assert found.value.row < |facts|;
      var head := facts[found.value.row];
      var tx := AllocTx(branch, RetractFactAction, [id], clock);
      if tx.Err? {
        return Err(tx.error);
      }
      var (txId, txTime) := tx.value;
      ghost var a := Snapshot();
      if !(head.createdByTx in txBranch && txBranch[head.createdByTx] == branch) {
        facts := facts + [Tombstone(head, txId, txTime)];
        return Ok(txId);
      }
      StampExactRows(branch, id, pred, value, txId, txTime);
      return Ok(txId);
    }

    method ReviseBelief(branch: string, rev: Revision, clock: Clock) returns (out: Outcome)
      modifies this
      ensures (Snapshot(), out) == BrainWrites.ReviseBelief(old(Snapshot()), branch, rev, clock)
    {
      var supportedBy := SupportFor(Snapshot(), branch, rev);
      var tx := AllocTx(branch, ReviseBeliefAction, [rev.beliefId], clock);
      if tx.Err? {
        return Err(tx.error);
      }
      var (txId, txTime) := tx.value;
      beliefs := beliefs + [Belief(rev.beliefId, rev.claimText, Active, supportedBy, txId,
                                   OrElse(rev.validFrom, txTime), rev.validTo, rev.rationale)];
      return Ok(txId);
    }

    method RevokeBelief(branch: string, id: string, clock: Clock) returns (out: Outcome)
      modifies this
      ensures (Snapshot(), out) == BrainWrites.RevokeBelief(old(Snapshot()), branch, id, clock)
    {
      var found := FindBelief(Snapshot(), BeliefsOnBranch(Snapshot(), branch), id);
      if found.None? {
        return Err(NoActiveBelief);
      }
      assert found.value.row < |beliefs|;
      var active := beliefs[found.value.row];
      var tx := AllocTx(branch, RevokeBeliefAction, [id], clock);
      if tx.Err? {
        return Err(tx.error);
      }
      var (txId, txTime) := tx.value;
      beliefs := beliefs + [Belief(id, active.claimText, Revoked, active.supportedBy, txId, active.validFrom,
                                   Some(txTime), active.rationale)];
      return Ok(txId);
    }

    method CreateBranch(parent: string, id: string, name: string, clock: Clock) returns (out: Outcome)
      modifies this
      ensures (Snapshot(), out) == BrainWrites.CreateBranch(old(Snapshot()), parent, id, name, clock)
    {
      if !LiveBranch(branches, parent) {
        return Err(UnknownBranch);
      }
      if LiveBranch(branches, id) {
        return Err(BranchTaken);
      }
      var tx := AllocTx(parent, CreateBranchAction, [id], clock);
      if tx.Err? {
        return Err(tx.error);
      }
      branches := branches + [Branch(id, name, Some(parent), tx.value.0, false)];
      return Ok(tx.value.0);
    }

    method ArchiveBranch(id: string) returns (out: Outcome)
      modifies this
      ensures (Snapshot(), out) == BrainWrites.ArchiveBranch(old(Snapshot()), id)
    {
      if id == MAIN_BRANCH {
        return Err(CannotArchiveMain);
      }
      var k := FirstRow(branches, id);
      if k == |branches| {
        return Err(UnknownBranch);
      }
      branches := branches[k := branches[k].(archived := true)];
      return Ok(k);
    }

    /** One round of the merge loop. */
    method MergeRow(f: Fact, plan: MergePlan, p: Progress, clock: Clock) returns (r: Result<Progress, Error>)
      modifies this
      ensures (Snapshot(), r) == MergeOne(old(Snapshot()), f, plan, p, clock)
    {
      if f.createdByTx in txBranch && txBranch[f.createdByTx] in plan.targetChain {
        return Ok(p);
      }
      if f.factId !in plan.targetView {
        var out := AssertFact(plan.target, CopyOf(f, plan.source), clock);
        if out.Err? {
          return Err(out.error);
        }
        return Ok(p.(added := p.added + [f.factId]));
      }
      var targetFact := plan.targetView[f.factId];
      if targetFact.value == f.value {
        return Ok(p);
      }
      match plan.policy
      case LastWriterWins =>
        var out := RetractFact(plan.target, f.factId, clock);
        if out.Err? {
          return Err(out.error);
        }
        out := AssertFact(plan.target, CopyOf(f, plan.source), clock);
        if out.Err? {
          return Err(out.error);
        }
        return Ok(p.(added := p.added + [f.factId]));
      case KeepTarget =>
        return Ok(p);
      case Manual =>
        return Ok(p.(conflicts := p.conflicts + [Conflict(f.factId, f.pred, f.value, targetFact.value)]));
    }

    method MergeBranch(source: string, target: string, policy: MergePolicy, clock: Clock)
      returns (r: Result<MergeResult, Error>)
      modifies this
      ensures (Snapshot(), r) == BrainMerge.MergeBranch(old(Snapshot()), source, target, policy, clock)
    {
      if !LiveBranch(branches, source) {
        return Err(SourceNotFound);
      }
      if !LiveBranch(branches, target) {
        return Err(TargetNotFound);
      }
      ghost var s := Snapshot();
      var plan := PlanMerge(Snapshot(), source, target, policy);
      var todo := Clones(Snapshot(), FactsOnBranch(Snapshot(), source));
      var added: seq<string> := [];
      var conflicts: seq<Conflict> := [];
      for i := 0 to |todo|
        invariant MergeFirst(s, todo, i, plan, clock) == (Snapshot(), Ok(Progress(added, conflicts)))
      {
        var step := MergeRow(todo[i], plan, Progress(added, conflicts), clock);
        if step.Err? {
          RefusalEndsTheLoop(s, todo, i + 1, |todo|, plan, clock);
          return Err(step.error);
        }
        added, conflicts := step.value.added, step.value.conflicts;
      }
      var tx := AllocTx(target, MergeAction, [source, target], clock);
      if tx.Err? {
        return Err(tx.error);
      }
      return Ok(MergeResult(added, conflicts, tx.value.0));
    }
  }
}
