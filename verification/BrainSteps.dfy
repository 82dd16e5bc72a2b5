/** Every call keeps the invariant, and what one call may change: only rows of its own branch, only by
    first-time stamps of its own transaction, and at most one appended row per table. */
module BrainSteps {
  import opened Wrappers
  import opened BrainTypes
  import opened BranchChain
  import opened RowSelection
  import opened BrainReads
  import opened BrainWrites
  import opened BrainInvariant
  import opened FactHeads

  /** Row `f'` is row `f`, possibly stamped for the first time by `tx`; its content is untouched. */
  predicate StampedBy(f: Fact, f': Fact, tx: TxId) {
    && f' == f.(supersededByTx := f'.supersededByTx, revokedByTx := f'.revokedByTx, validTo := f'.validTo)
    && (f'.supersededByTx == f.supersededByTx || (f.supersededByTx.None? && f'.supersededByTx == Some(tx)))
    && (f'.revokedByTx == f.revokedByTx || (f.revokedByTx.None? && f'.revokedByTx == Some(tx)))
  }

  /** The one-transaction step from `s` to `s'` written on `branch`. */
  ghost predicate Extends(s: Store, s': Store, branch: string) {
    && s'.nextTx == s.nextTx + 1
    && s'.txBranch == s.txBranch[s.nextTx := branch]
    && |s'.transactions| == |s.transactions| + 1 && s.transactions <= s'.transactions
    && |s.facts| <= |s'.facts| <= |s.facts| + 1
    && (forall i :: 0 <= i < |s.facts| ==>
          || s'.facts[i] == s.facts[i]
          || (WrittenOn(s, s.facts[i], branch) && StampedBy(s.facts[i], s'.facts[i], s.nextTx)))
    && (|s.facts| < |s'.facts| ==> s'.facts[|s.facts|].createdByTx == s.nextTx)
    && |s'.beliefs| <= |s.beliefs| + 1 && s.beliefs <= s'.beliefs
    && (|s.beliefs| < |s'.beliefs| ==> s'.beliefs[|s.beliefs|].createdByTx == s.nextTx)
    && s.branches <= s'.branches && |s'.branches| <= |s.branches| + 1
  }

  /** The live row of an id is the branch's own newest version, or the branch holds no version at all. */
  lemma LocalOrInherited(s: Store, branch: string, id: string, i: nat)
    requires LiveRow(s, branch, id) == Some(i)
    ensures if WrittenOn(s, s.facts[i], branch) then Local(s, branch, id) == Some(i)
            else Local(s, branch, id).None?
  {
    var chain := Ancestors(s.branches, branch);
    assert Nearest(s, chain, id) == Some(i);
    if Local(s, branch, id).None? {
      assert !IsVersion(s, branch, id, i);
    }
  }

  /** A found head is the live row of its id. */
  lemma FoundIsLive(s: Store, branch: string, r: RowRef, id: string)
    requires Inv(s)
    requires r in FactsOnBranch(s, branch) && s.facts[r.row].factId == id
    ensures LiveRow(s, branch, id) == Some(r.row)
    ensures s.facts[r.row].revokedByTx.None?
    ensures if WrittenOn(s, s.facts[r.row], branch) then Local(s, branch, id) == Some(r.row)
            else Local(s, branch, id).None?
  {
    ViewIsLiveRows(s, branch);
    assert LiveRow(s, branch, r.id) == Some(r.row);
    LocalOrInherited(s, branch, id, r.row);
  }

  /** Allocating is itself a step of the branch. */
  lemma AllocExtends(s: Store, branch: string, action: TxAction, refs: seq<string>, clock: Clock)
    requires AllocTx(s, branch, action, refs, clock).Ok?
    ensures Extends(s, AllocTx(s, branch, action, refs, clock).value, branch)
  {
    hide IsSessionClosed, LiveBranch, StampedBy;
  }

  lemma NewFactsKeepInv(a: Store, facts': seq<Fact>)
    requires Inv(a) && FactsOk(a.(facts := facts'))
    ensures Inv(a.(facts := facts'))
  {
    hide FactsOk, WellFormed;
  }

  /** An accepted assertion closes the open rows of its chain and appends a row that may follow them. */
  lemma AssertShape(s: Store, branch: string, claim: Claim, clock: Clock)
    requires Inv(s) && AssertFact(s, branch, claim, clock).1.Ok?
    ensures var alloc := AllocTx(s, branch, AssertFactAction, [claim.factId], clock);
            var s' := AssertFact(s, branch, claim, clock).0;
            var f := FactOf(claim, s.nextTx, clock(s.nextTx));
            && alloc.Ok? && s' == alloc.value.(facts := s'.facts)
            && MayAppend(alloc.value, f, branch) && IsAppended(alloc.value, s'.facts, f, branch)
  {
    AllocEffect(s, branch, AssertFactAction, [claim.factId], clock);
    hide Inv, IsSessionClosed, LiveBranch, WrittenOn;
  }

  lemma AssertStep(s: Store, branch: string, claim: Claim, clock: Clock)
    requires Inv(s)
    ensures var (s', out) := AssertFact(s, branch, claim, clock);
            if out.Ok? then Inv(s') && Extends(s, s', branch) else s' == s
  {
    var (s', out) := AssertFact(s, branch, claim, clock);
    if out.Ok? {
      AssertShape(s, branch, claim, clock);
      AllocKeepsInv(s, branch, AssertFactAction, [claim.factId], clock);
      AllocExtends(s, branch, AssertFactAction, [claim.factId], clock);
      var a := AllocTx(s, branch, AssertFactAction, [claim.factId], clock).value;
      var f := FactOf(claim, s.nextTx, clock(s.nextTx));
      WrittenOnBeforeAlloc(s, a, branch);
      hide Inv, FactsOk, MayAppend, AssertFact, AllocTx;
      AssertKeepsFactsOk(a, s'.facts, f, branch);
    }
  }

  lemma AssertKeepsFactsOk(a: Store, facts': seq<Fact>, f: Fact, branch: string)
    requires Inv(a) && MayAppend(a, f, branch) && IsAppended(a, facts', f, branch)
    ensures Inv(a.(facts := facts'))
  {
    hide FactsOk, MayAppend, IsAppended;
    AppendingKeepsFactsOk(a, facts', f, branch);
    NewFactsKeepInv(a, facts');
  }

  lemma WrittenBefore(s: Store, i: nat)
    requires Inv(s) && i < |s.facts|
    ensures s.facts[i].createdByTx in s.txBranch && s.facts[i].createdByTx != s.nextTx
  {
    assert RowOk(s, i);
  }

  lemma WrittenOnBeforeAlloc(s: Store, a: Store, branch: string)
    requires Inv(s)
    requires a.facts == s.facts && a.txBranch == s.txBranch[s.nextTx := branch]
    ensures forall i :: 0 <= i < |s.facts| ==> s.facts[i].createdByTx < s.nextTx
    ensures forall i, b :: 0 <= i < |s.facts| ==> WrittenOn(a, s.facts[i], b) == WrittenOn(s, s.facts[i], b)
  {
    forall i | 0 <= i < |s.facts|
      ensures s.facts[i].createdByTx < s.nextTx
    {
      assert RowOk(s, i);
    }
  }

  /** A tombstone may follow the rows of a branch that holds no version of the fact. */
  lemma TombstoneMayFollow(s: Store, a: Store, branch: string, i: nat, clock: Clock)
    requires Inv(s) && i < |s.facts|
    requires AllocTx(s, branch, RetractFactAction, [s.facts[i].factId], clock) == Ok(a)
    requires Local(s, branch, s.facts[i].factId).None?
    ensures MayAppend(a, Tombstone(s.facts[i], s.nextTx, clock(s.nextTx)), branch)
  {
    var f := Tombstone(s.facts[i], s.nextTx, clock(s.nextTx));
    AllocEffect(s, branch, RetractFactAction, [s.facts[i].factId], clock);
    WrittenOnBeforeAlloc(s, a, branch);
    assert RowOk(s, i);
    forall k | 0 <= k < |a.facts| && WrittenOn(a, a.facts[k], branch)
      ensures a.facts[k].factId != f.factId
    {
      assert !IsVersion(s, branch, f.factId, k);
    }
  }

  lemma TombstoneStep(s: Store, a: Store, branch: string, i: nat, clock: Clock)
    requires Inv(s) && i < |s.facts|
    requires AllocTx(s, branch, RetractFactAction, [s.facts[i].factId], clock) == Ok(a)
    requires Local(s, branch, s.facts[i].factId).None?
    ensures var s' := a.(facts := a.facts + [Tombstone(s.facts[i], s.nextTx, clock(s.nextTx))]);
            Inv(s') && Extends(s, s', branch)
  {
    var f := Tombstone(s.facts[i], s.nextTx, clock(s.nextTx));
    AllocKeepsInv(s, branch, RetractFactAction, [s.facts[i].factId], clock);
    AllocExtends(s, branch, RetractFactAction, [s.facts[i].factId], clock);
    TombstoneMayFollow(s, a, branch, i, clock);
    assert IsAppended(a, a.facts + [f], f, branch);
    hide FactsOk, LogOk, BeliefsOk, WellFormed, MayAppend, IsAppended, Local;
    AppendingKeepsFactsOk(a, a.facts + [f], f, branch);
    NewFactsKeepInv(a, a.facts + [f]);
  }

  /** The table `facts'` only revokes rows of `branch`. */
  ghost predicate OnlyRevokes(a: Store, facts': seq<Fact>, branch: string, tx: TxId) {
    && |facts'| == |a.facts|
    && forall i :: 0 <= i < |facts'| ==>
         || facts'[i] == a.facts[i]
         || (RevokedBy(a.facts[i], facts'[i], tx) && WrittenOn(a, a.facts[i], branch))
  }

  lemma RevokingStep(s: Store, a: Store, facts': seq<Fact>, branch: string, ids: seq<string>, clock: Clock)
    requires Inv(s)
    requires AllocTx(s, branch, RetractFactAction, ids, clock) == Ok(a)
    requires OnlyRevokes(a, facts', branch, s.nextTx)
    ensures var s' := a.(facts := facts'); Inv(s') && Extends(s, s', branch)
  {
    AllocEffect(s, branch, RetractFactAction, ids, clock);
    AllocKeepsInv(s, branch, RetractFactAction, ids, clock);
    AllocExtends(s, branch, RetractFactAction, ids, clock);
    WrittenOnBeforeAlloc(s, a, branch);
    hide FactsOk, LogOk, BeliefsOk, WellFormed, IsSessionClosed, LiveBranch, WrittenOn;
    RevokingKeepsFactsOk(a, facts', branch, s.nextTx);
    NewFactsKeepInv(a, facts');
  }

  lemma RetractRowsRevoke(a: Store, branch: string, id: string, tx: TxId, txTime: Time)
    ensures OnlyRevokes(a, RetractRows(a, branch, id, tx, txTime), branch, tx)
  {
    hide WrittenOn;
  }

  lemma RetractRowsExactlyRevoke(
    a: Store, branch: string, id: string, pred: string, value: FactValue, tx: TxId, txTime: Time)
    requires Inv(a)
    ensures OnlyRevokes(a, RetractRowsExactly(a, branch, id, pred, value, tx, txTime), branch, tx)
  {
    var facts' := RetractRowsExactly(a, branch, id, pred, value, tx, txTime);
    forall i | 0 <= i < |a.facts|
      ensures a.facts[i].supersededByTx.Some? ==> a.facts[i].validTo.Some?
    {
      assert SupersededByNext(a, i);
    }
    hide Inv, WrittenOn, HoldsTuple;
  }

  /** What a retraction that goes through has found and done. */
  lemma RetractShape(s: Store, branch: string, id: string, clock: Clock)
    requires RetractFact(s, branch, id, clock).1.Ok?
    ensures var found := FindFact(s, FactsOnBranch(s, branch), id);
            var alloc := AllocTx(s, branch, RetractFactAction, [id], clock);
            && found.Some? && alloc.Ok?
            && found.value in FactsOnBranch(s, branch) && s.facts[found.value.row].factId == id
            && RetractFact(s, branch, id, clock).0
               == alloc.value.(facts := if WrittenOn(alloc.value, s.facts[found.value.row], branch)
                                        then RetractRows(alloc.value, branch, id, s.nextTx, clock(s.nextTx))
                                        else s.facts + [Tombstone(s.facts[found.value.row], s.nextTx, clock(s.nextTx))])
            && alloc.value.facts == s.facts && alloc.value.branches == s.branches
            && alloc.value.txBranch == s.txBranch[s.nextTx := branch]
  {
    hide FactsOnBranch, IsSessionClosed, LiveBranch, RetractRows, Tombstone, WrittenOn;
  }

  lemma RetractStep(s: Store, branch: string, id: string, clock: Clock)
    requires Inv(s)
    ensures var (s', out) := RetractFact(s, branch, id, clock);
            if out.Ok? then Inv(s') && Extends(s, s', branch) else s' == s
  {
    var (s', out) := RetractFact(s, branch, id, clock);
    if out.Ok? {
      RetractShape(s, branch, id, clock);
      hide RetractFact, AllocTx, FactsOnBranch, Inv, Extends, WrittenOn, RetractRows, Tombstone, OnlyRevokes, Local;
      var r := FindFact(s, FactsOnBranch(s, branch), id).value;
      var a := AllocTx(s, branch, RetractFactAction, [id], clock).value;
      FoundIsLive(s, branch, r, id);
      WrittenOnBeforeAlloc(s, a, branch);
      if WrittenOn(a, s.facts[r.row], branch) {
        RetractRowsRevoke(a, branch, id, s.nextTx, clock(s.nextTx));
        RevokingStep(s, a, s'.facts, branch, [id], clock);
      } else {
        TombstoneStep(s, a, branch, r.row, clock);
      }
    }
  }

  /** What an exact retraction that goes through has found and done. */
  lemma RetractExactShape(s: Store, branch: string, id: string, pred: string, value: FactValue, clock: Clock)
    requires RetractFactExact(s, branch, id, pred, value, clock).1.Ok?
    ensures var found := FindTuple(s, FactsOnBranch(s, branch), id, pred, value);
            var alloc := AllocTx(s, branch, RetractFactAction, [id], clock);
            && found.Some? && alloc.Ok?
            && found.value in FactsOnBranch(s, branch) && HoldsTuple(s.facts[found.value.row], id, pred, value)
            && RetractFactExact(s, branch, id, pred, value, clock).0
               == alloc.value.(facts :=
                    if WrittenOn(alloc.value, s.facts[found.value.row], branch)
                    then RetractRowsExactly(alloc.value, branch, id, pred, value, s.nextTx, clock(s.nextTx))
                    else s.facts + [Tombstone(s.facts[found.value.row], s.nextTx, clock(s.nextTx))])
            && alloc.value.facts == s.facts && alloc.value.branches == s.branches
            && alloc.value.txBranch == s.txBranch[s.nextTx := branch]
  {
    hide FactsOnBranch, IsSessionClosed, LiveBranch, RetractRowsExactly, Tombstone, WrittenOn, HoldsTuple;
  }

  lemma RetractExactStep(s: Store, branch: string, id: string, pred: string, value: FactValue, clock: Clock)
    requires Inv(s)
    ensures var (s', out) := RetractFactExact(s, branch, id, pred, value, clock);
            if out.Ok? then Inv(s') && Extends(s, s', branch) else s' == s
  {
    var (s', out) := RetractFactExact(s, branch, id, pred, value, clock);
    if out.Ok? {
      RetractExactShape(s, branch, id, pred, value, clock);
      hide RetractFactExact, AllocTx, FactsOnBranch, Inv, Extends, WrittenOn, RetractRowsExactly, Tombstone,
        OnlyRevokes, Local;
      var r := FindTuple(s, FactsOnBranch(s, branch), id, pred, value).value;
      var a := AllocTx(s, branch, RetractFactAction, [id], clock).value;
      FoundIsLive(s, branch, r, id);
      WrittenOnBeforeAlloc(s, a, branch);
      if WrittenOn(a, s.facts[r.row], branch) {
        AllocKeepsInv(s, branch, RetractFactAction, [id], clock);
        RetractRowsExactlyRevoke(a, branch, id, pred, value, s.nextTx, clock(s.nextTx));
        RevokingStep(s, a, s'.facts, branch, [id], clock);
      } else {
        TombstoneStep(s, a, branch, r.row, clock);
      }
    }
  }

  lemma BeliefStep(s: Store, branch: string, action: TxAction, id: string, clock: Clock, b: Belief)
    requires Inv(s)
    requires AllocTx(s, branch, action, [id], clock).Ok?
    requires b.createdByTx == s.nextTx
    ensures var a := AllocTx(s, branch, action, [id], clock).value;
            var s' := a.(beliefs := a.beliefs + [b]);
            Inv(s') && Extends(s, s', branch)
  {
    AllocEffect(s, branch, action, [id], clock);
    AllocKeepsInv(s, branch, action, [id], clock);
    var a := AllocTx(s, branch, action, [id], clock).value;
    BeliefMayFollow(a, b);
    hide Inv, IsSessionClosed, LiveBranch;
  }

  lemma BeliefMayFollow(a: Store, b: Belief)
    requires Inv(a) && b.createdByTx in a.txBranch
    requires forall i :: 0 <= i < |a.beliefs| ==> a.beliefs[i].createdByTx < b.createdByTx
    ensures Inv(a.(beliefs := a.beliefs + [b]))
  {
    var s' := a.(beliefs := a.beliefs + [b]);
    FactsOkSurvives(a, s');
    hide FactsOk, WellFormed;
  }

  lemma ReviseStep(s: Store, branch: string, rev: Revision, clock: Clock)
    requires Inv(s)
    ensures var (s', out) := ReviseBelief(s, branch, rev, clock);
            if out.Ok? then Inv(s') && Extends(s, s', branch) else s' == s
  {
    var (s', out) := ReviseBelief(s, branch, rev, clock);
    if out.Ok? {
      BeliefStep(s, branch, ReviseBeliefAction, rev.beliefId, clock, s'.beliefs[|s.beliefs|]);
    }
  }

  lemma RevokeStep(s: Store, branch: string, id: string, clock: Clock)
    requires Inv(s)
    ensures var (s', out) := RevokeBelief(s, branch, id, clock);
            if out.Ok? then Inv(s') && Extends(s, s', branch) else s' == s
  {
    var (s', out) := RevokeBelief(s, branch, id, clock);
    if out.Ok? {
      BeliefStep(s, branch, RevokeBeliefAction, id, clock, s'.beliefs[|s.beliefs|]);
    }
  }

  /** A branch with a known parent may be added. */
  lemma BranchMayFollow(a: Store, row: Branch)
    requires Inv(a) && row.parentBranchId.Some? && KnownBranch(a.branches, row.parentBranchId.value)
    ensures Inv(a.(branches := a.branches + [row]))
  {
    var s' := a.(branches := a.branches + [row]);
    AppendKeepsWellFormed(a.branches, row);
    FactsOkSurvives(a, s');
    forall tx | tx in s'.txBranch
      ensures KnownBranch(s'.branches, s'.txBranch[tx])
    {
      FirstRowOfAppended(a.branches, row, s'.txBranch[tx]);
    }
    hide FactsOk, WellFormed, FirstRow;
  }

  lemma CreateStep(s: Store, parent: string, id: string, name: string, clock: Clock)
    requires Inv(s)
    ensures var (s', out) := CreateBranch(s, parent, id, name, clock);
            if out.Ok? then Inv(s') && Extends(s, s', parent) else s' == s
  {
    var (s', out) := CreateBranch(s, parent, id, name, clock);
    if out.Ok? {
      AllocKeepsInv(s, parent, CreateBranchAction, [id], clock);
      AllocExtends(s, parent, CreateBranchAction, [id], clock);
      LiveBranchIsKnown(s.branches, parent);
      hide Inv, IsSessionClosed, StampedBy, FirstRow;
      BranchMayFollow(AllocTx(s, parent, CreateBranchAction, [id], clock).value,
                      Branch(id, name, Some(parent), s.nextTx, false));
    }
  }

  lemma LogStep(s: Store, source: string, target: string, clock: Clock)
    requires Inv(s)
    ensures var (s', out) := LogMerge(s, source, target, clock);
            if out.Ok? then Inv(s') && Extends(s, s', target) else s' == s
  {
    if LogMerge(s, source, target, clock).1.Ok? {
      AllocEffect(s, target, MergeAction, [source, target], clock);
      AllocKeepsInv(s, target, MergeAction, [source, target], clock);
    }
  }

  lemma ArchiveStep(s: Store, id: string)
    requires Inv(s)
    ensures var (s', out) := ArchiveBranch(s, id);
            && Inv(s')
            && s' == s.(branches := s'.branches)
            && (out.Err? ==> s' == s)
  {
    var (s', out) := ArchiveBranch(s, id);
    if out.Ok? {
      ArchiveKeepsWellFormed(s.branches, out.value);
      FactsOkSurvives(s, s');
      forall tx | tx in s'.txBranch
        ensures KnownBranch(s'.branches, s'.txBranch[tx])
      {
        FirstRowOfArchived(s.branches, out.value, s'.txBranch[tx]);
      }
    }
  }

  lemma StepCommits(s: Store, op: Op, clock: Clock)
    ensures Step(s, op, clock).1.Ok? && !op.ArchiveOp? ==> Step(s, op, clock).1.value == s.nextTx
  {
    hide FactsOnBranch, BeliefsOnBranch, IsSessionClosed, LiveBranch, SupportFor;
  }

  /** Every call keeps the invariant. A refused call changes nothing; any other call but `archive_branch`
      is a one-transaction step on the branch it names. */
  lemma StepEffect(s: Store, op: Op, clock: Clock)
    requires Inv(s)
    ensures var (s', out) := Step(s, op, clock);
            && Inv(s')
            && (out.Err? ==> s' == s)
            && (out.Ok? && !op.ArchiveOp? ==> Extends(s, s', op.branch) && out.value == s.nextTx)
            && (op.ArchiveOp? ==> s' == s.(branches := s'.branches))
  {
    StepCommits(s, op, clock);
    hide Inv, Extends, AssertFact, RetractFact, RetractFactExact, ReviseBelief, RevokeBelief, CreateBranch, LogMerge,
         ArchiveBranch;
    match op
    case Assert(b, claim) => AssertStep(s, b, claim, clock);
    case Retract(b, id) => RetractStep(s, b, id, clock);
    case RetractExact(b, id, pred, value) => RetractExactStep(s, b, id, pred, value, clock);
    case Revise(b, rev) => ReviseStep(s, b, rev, clock);
    case Revoke(b, id) => RevokeStep(s, b, id, clock);
    case Create(parent, id, name) => CreateStep(s, parent, id, name, clock);
    case Log(source, target) => LogStep(s, source, target, clock);
    case ArchiveOp(id) => ArchiveStep(s, id);
  }

  lemma OtherStepsKeepFacts(s: Store, op: Op, clock: Clock)
    requires op.Revise? || op.Revoke? || op.Create? || op.Log? || op.ArchiveOp?
    ensures Step(s, op, clock).0.facts == s.facts
  {
  }

  lemma OtherStepsKeepBranches(s: Store, op: Op, clock: Clock)
    requires !op.Create? && !op.ArchiveOp?
    ensures Step(s, op, clock).0.branches == s.branches
  {
    hide FactsOnBranch, BeliefsOnBranch, IsSessionClosed, LiveBranch;
  }

  /** The invariant holds in every store reachable from a new brain. */
  lemma {:induction false} RunKeepsInv(s: Store, ops: seq<Op>, clock: Clock)
    requires Inv(s)
    ensures Inv(Run(s, ops, clock))
    decreases |ops|
  {
    if ops == [] {
    } else {
      StepEffect(s, ops[0], clock);
      RunKeepsInv(Step(s, ops[0], clock).0, ops[1..], clock);
    }
  }
}
