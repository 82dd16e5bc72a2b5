/** What a fact write does to the newest local versions: it touches the chain of one id on one branch. */
module ChainEffects {
  import opened Wrappers
  import opened BrainTypes
  import opened BranchChain
  import opened RowSelection
  import opened BrainReads
  import opened BrainWrites
  import opened BrainInvariant
  import opened FactHeads
  import opened BrainSteps

  /** The newest version of `id` on `branch` is the same row with the same fields. */
  ghost predicate LocalSame(s: Store, s': Store, branch: string, id: string) {
    && Local(s', branch, id) == Local(s, branch, id)
    && |s.facts| <= |s'.facts|
    && (Local(s, branch, id).Some? ==> s'.facts[Local(s, branch, id).value] == s.facts[Local(s, branch, id).value])
  }

  /** The step from `s` to `s'` leaves every chain but that of `id` on `branch` alone, and creates no branch. */
  ghost predicate OnlyTouches(s: Store, s': Store, branch: string, id: string) {
    && Extends(s, s', branch)
    && s'.branches == s.branches
    && forall b, x :: b != branch || x != id ==> LocalSame(s, s', b, x)
  }

  lemma LocalKept(s: Store, s': Store, writer: string, branch: string, id: string)
    requires Inv(s) && Extends(s, s', writer)
    requires |s'.facts| > |s.facts| ==> writer != branch || s'.facts[|s.facts|].factId != id
    requires forall i :: 0 <= i < |s.facts| && IsVersion(s, branch, id, i) ==> s'.facts[i] == s.facts[i]
    ensures LocalSame(s, s', branch, id)
  {
    hide Inv;
    forall i | 0 <= i < |s.facts|
      ensures IsVersion(s', branch, id, i) <==> IsVersion(s, branch, id, i)
    {
      WrittenBefore(s, i);
    }
  }

  /** Appending a version makes it the newest one. */
  lemma AppendedIsNewest(s: Store, s': Store, branch: string)
    requires Inv(s) && Extends(s, s', branch) && |s'.facts| > |s.facts|
    ensures Local(s', branch, s'.facts[|s.facts|].factId) == Some(|s.facts|)
  {
    assert IsVersion(s', branch, s'.facts[|s.facts|].factId, |s.facts|);
  }

  /** Stamping rows in place keeps the newest version newest. */
  lemma StampedStaysNewest(s: Store, s': Store, branch: string, id: string)
    requires Inv(s) && Extends(s, s', branch) && |s'.facts| == |s.facts|
    ensures Local(s', branch, id) == Local(s, branch, id)
  {
    hide Inv;
    forall i | 0 <= i < |s.facts|
      ensures IsVersion(s', branch, id, i) <==> IsVersion(s, branch, id, i)
    {
      WrittenBefore(s, i);
    }
  }

  /** Rows changed and appended by the step all belong to the chain of `id` on `branch`. */
  ghost predicate ChangesChain(s: Store, s': Store, branch: string, id: string) {
    && |s.facts| <= |s'.facts|
    && (|s'.facts| > |s.facts| ==> s'.facts[|s.facts|].factId == id)
    && forall i :: 0 <= i < |s.facts| && (s.facts[i].factId != id || !WrittenOn(s, s.facts[i], branch)) ==>
         s'.facts[i] == s.facts[i]
  }

  lemma ChangingTouches(s: Store, s': Store, branch: string, id: string)
    requires Inv(s) && Extends(s, s', branch) && s'.branches == s.branches
    requires ChangesChain(s, s', branch, id)
    ensures OnlyTouches(s, s', branch, id)
  {
    forall b, x | b != branch || x != id
      ensures LocalSame(s, s', b, x)
    {
      LocalKept(s, s', branch, b, x);
    }
  }

  lemma AssertChangesChain(s: Store, branch: string, claim: Claim, clock: Clock)
    requires Inv(s) && AssertFact(s, branch, claim, clock).1.Ok?
    ensures var s' := AssertFact(s, branch, claim, clock).0;
            && ChangesChain(s, s', branch, claim.factId)
            && s'.branches == s.branches
            && |s'.facts| == |s.facts| + 1
            && s'.facts[|s.facts|] == FactOf(claim, s.nextTx, clock(s.nextTx))
  {
    WrittenOnBeforeAlloc(s, AllocTx(s, branch, AssertFactAction, [claim.factId], clock).value, branch);
  }

  /** An assertion touches its own chain, and its row becomes the newest version. */
  lemma AssertTouches(s: Store, branch: string, claim: Claim, clock: Clock)
    requires Inv(s) && AssertFact(s, branch, claim, clock).1.Ok?
    ensures var s' := AssertFact(s, branch, claim, clock).0;
            && OnlyTouches(s, s', branch, claim.factId)
            && Local(s', branch, claim.factId) == Some(|s.facts|)
            && s'.facts[|s.facts|] == FactOf(claim, s.nextTx, clock(s.nextTx))
  {
    var s' := AssertFact(s, branch, claim, clock).0;
    AssertStep(s, branch, claim, clock);
    AssertChangesChain(s, branch, claim, clock);
    ChangingTouches(s, s', branch, claim.factId);
    AppendedIsNewest(s, s', branch);
  }

  lemma NextIsVersion(s: Store, branch: string, id: string, i: nat, j: nat)
    requires i < |s.facts| && IsVersion(s, branch, id, i) && IsNext(s, i, j)
    ensures IsVersion(s, branch, id, j)
  {
  }

  lemma NewestIsUnsuperseded(s: Store, branch: string, id: string)
    requires Inv(s) && Local(s, branch, id).Some?
    ensures s.facts[Local(s, branch, id).value].supersededByTx.None?
  {
    var i := Local(s, branch, id).value;
    assert SupersededByNext(s, i);
    if s.facts[i].supersededByTx.Some? {
      var j: nat :| ClosedByVersion(s, i, j);
      NextIsVersion(s, branch, id, i, j);
    }
  }

  /** Only the chain of `id` changed, and the row appended to it, or else its newest version, is revoked. */
  ghost predicate RetractsChain(s: Store, s': Store, branch: string, id: string) {
    && ChangesChain(s, s', branch, id)
    && s'.branches == s.branches
    && (|s'.facts| > |s.facts| ==> s'.facts[|s.facts|].revokedByTx.Some?)
    && (|s'.facts| == |s.facts| ==>
          Local(s, branch, id).Some? && s'.facts[Local(s, branch, id).value].revokedByTx.Some?)
  }

  lemma TombstoneRetracts(s: Store, s': Store, branch: string, id: string, i: nat, tx: TxId, txTime: Time)
    requires i < |s.facts| && s.facts[i].factId == id && s'.branches == s.branches
    requires s'.facts == s.facts + [Tombstone(s.facts[i], tx, txTime)]
    ensures RetractsChain(s, s', branch, id)
  {
    hide Local, WrittenOn;
  }

  /** What both stamping loops do to row `i`. */
  ghost predicate RetractsRow(s: Store, facts': seq<Fact>, branch: string, id: string, i: nat)
    requires i < |s.facts| == |facts'|
  {
    if s.facts[i].factId != id || !WrittenOn(s, s.facts[i], branch) then facts'[i] == s.facts[i]
    else Local(s, branch, id) == Some(i) ==> facts'[i].revokedByTx.Some?
  }

  lemma StampingRetracts(s: Store, s': Store, branch: string, id: string)
    requires Local(s, branch, id).Some? && s'.branches == s.branches && |s'.facts| == |s.facts|
    requires forall i :: 0 <= i < |s.facts| ==> RetractsRow(s, s'.facts, branch, id, i)
    ensures RetractsChain(s, s', branch, id)
  {
    hide WrittenOn, Local;
    var i := Local(s, branch, id).value;
    assert RetractsRow(s, s'.facts, branch, id, i) && IsVersion(s, branch, id, i);
    assert forall k :: 0 <= k < |s.facts| && (s.facts[k].factId != id || !WrittenOn(s, s.facts[k], branch)) ==>
        RetractsRow(s, s'.facts, branch, id, k) && s'.facts[k] == s.facts[k];
  }

  lemma SameWriter(s: Store, a: Store, branch: string, i: nat)
    requires Inv(s) && i < |s.facts|
    requires a.facts == s.facts && a.txBranch == s.txBranch[s.nextTx := branch]
    ensures WrittenOn(a, s.facts[i], branch) == WrittenOn(s, s.facts[i], branch)
  {
    WrittenOnBeforeAlloc(s, a, branch);
  }

  lemma StampedRows(s: Store, a: Store, branch: string, id: string, tx: TxId, txTime: Time)
    requires Inv(s) && a.facts == s.facts && a.txBranch == s.txBranch[s.nextTx := branch]
    ensures forall i :: 0 <= i < |s.facts| ==>
              RetractsRow(s, RetractRows(a, branch, id, tx, txTime), branch, id, i)
  {
    WrittenOnBeforeAlloc(s, a, branch);
    if Local(s, branch, id).Some? {
      NewestIsUnsuperseded(s, branch, id);
    }
    hide Inv, WrittenOn, Local;
  }

  lemma ExactlyStampedRows(
    s: Store, a: Store, branch: string, id: string, pred: string, value: FactValue, tx: TxId, txTime: Time)
    requires Inv(s) && a.facts == s.facts && a.txBranch == s.txBranch[s.nextTx := branch]
    requires Local(s, branch, id).Some? && HoldsTuple(s.facts[Local(s, branch, id).value], id, pred, value)
    ensures forall i :: 0 <= i < |s.facts| ==>
              RetractsRow(s, RetractRowsExactly(a, branch, id, pred, value, tx, txTime), branch, id, i)
  {
    WrittenOnBeforeAlloc(s, a, branch);
    hide Inv, WrittenOn, Local;
  }

  lemma RetractChangesChain(s: Store, branch: string, id: string, clock: Clock)
    requires Inv(s) && RetractFact(s, branch, id, clock).1.Ok?
    ensures RetractsChain(s, RetractFact(s, branch, id, clock).0, branch, id)
  {
    RetractShape(s, branch, id, clock);
    hide RetractFact, AllocTx, Inv, FactsOnBranch, FindFact, LiveRow, Local, RetractRows, WrittenOn, Tombstone,
      RetractsChain, RetractsRow;
    var r := FindFact(s, FactsOnBranch(s, branch), id).value;
    FoundIsLive(s, branch, r, id);
    var s' := RetractFact(s, branch, id, clock).0;
    var a := AllocTx(s, branch, RetractFactAction, [id], clock).value;
    SameWriter(s, a, branch, r.row);
    if WrittenOn(s, s.facts[r.row], branch) {
      StampedRows(s, a, branch, id, s.nextTx, clock(s.nextTx));
      StampingRetracts(s, s', branch, id);
    } else {
      TombstoneRetracts(s, s', branch, id, r.row, s.nextTx, clock(s.nextTx));
    }
  }

  lemma RetractExactChangesChain(s: Store, branch: string, id: string, pred: string, value: FactValue, clock: Clock)
    requires Inv(s) && RetractFactExact(s, branch, id, pred, value, clock).1.Ok?
    ensures RetractsChain(s, RetractFactExact(s, branch, id, pred, value, clock).0, branch, id)
  {
    RetractExactShape(s, branch, id, pred, value, clock);
    hide RetractFactExact, AllocTx, Inv, FactsOnBranch, FindTuple, LiveRow, Local, RetractRowsExactly, WrittenOn,
      Tombstone, RetractsChain, RetractsRow, HoldsTuple;
    var r := FindTuple(s, FactsOnBranch(s, branch), id, pred, value).value;
    FoundIsLive(s, branch, r, id);
    var s' := RetractFactExact(s, branch, id, pred, value, clock).0;
    var a := AllocTx(s, branch, RetractFactAction, [id], clock).value;
    SameWriter(s, a, branch, r.row);
    if WrittenOn(s, s.facts[r.row], branch) {
      ExactlyStampedRows(s, a, branch, id, pred, value, s.nextTx, clock(s.nextTx));
      StampingRetracts(s, s', branch, id);
    } else {
      TombstoneRetracts(s, s', branch, id, r.row, s.nextTx, clock(s.nextTx));
    }
  }

  /** The branch's newest version of `id` is revoked. */
  ghost predicate HeadRevoked(s: Store, branch: string, id: string) {
    Local(s, branch, id).Some? && s.facts[Local(s, branch, id).value].revokedByTx.Some?
  }

  lemma RevokedHead(s: Store, s': Store, branch: string, id: string)
    requires Inv(s) && Extends(s, s', branch) && RetractsChain(s, s', branch, id)
    ensures OnlyTouches(s, s', branch, id) && HeadRevoked(s', branch, id)
  {
    ChangingTouches(s, s', branch, id);
    if |s'.facts| > |s.facts| {
      AppendedIsNewest(s, s', branch);
    } else {
      StampedStaysNewest(s, s', branch, id);
    }
  }

  /** A retraction touches its own chain and leaves its newest version revoked. */
  lemma RetractTouches(s: Store, branch: string, id: string, clock: Clock)
    requires Inv(s) && RetractFact(s, branch, id, clock).1.Ok?
    ensures var s' := RetractFact(s, branch, id, clock).0;
            OnlyTouches(s, s', branch, id) && HeadRevoked(s', branch, id)
  {
    RetractStep(s, branch, id, clock);
    RetractChangesChain(s, branch, id, clock);
    RevokedHead(s, RetractFact(s, branch, id, clock).0, branch, id);
  }

  lemma RetractExactTouches(s: Store, branch: string, id: string, pred: string, value: FactValue, clock: Clock)
    requires Inv(s) && RetractFactExact(s, branch, id, pred, value, clock).1.Ok?
    ensures var s' := RetractFactExact(s, branch, id, pred, value, clock).0;
            OnlyTouches(s, s', branch, id) && HeadRevoked(s', branch, id)
  {
    RetractExactStep(s, branch, id, pred, value, clock);
    RetractExactChangesChain(s, branch, id, pred, value, clock);
    RevokedHead(s, RetractFactExact(s, branch, id, pred, value, clock).0, branch, id);
  }

  /** A step on another fact opens no session-close marker. */
  lemma StaysOpen(s: Store, s': Store, branch: string, id: string)
    requires ChangesChain(s, s', branch, id) && Extends(s, s', branch)
    requires id != SESSION_CLOSED_FACT_ID && !IsSessionClosed(s.facts)
    ensures !IsSessionClosed(s'.facts)
  {
    forall i | 0 <= i < |s'.facts| && s'.facts[i].factId == SESSION_CLOSED_FACT_ID
      ensures !s'.facts[i].Unstamped()
    {
      assert s'.facts[i] == s.facts[i];
    }
  }
}
