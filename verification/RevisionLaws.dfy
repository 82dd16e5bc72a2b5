/** What revising and revoking a belief writes, and where it shows. */
module RevisionLaws {
  import opened Wrappers
  import opened BrainTypes
  import opened BranchChain
  import opened RowSelection
  import opened BrainReads
  import opened BrainWrites
  import opened BrainInvariant
  import opened BrainSteps
  import opened AnswerLaws

  /** The support a belief with that id shows on the branch, if one shows. */
  ghost predicate ShownSupport(s: Store, branch: string, id: string, support: seq<string>) {
    exists r :: r in BeliefsOnBranch(s, branch)
                && s.beliefs[r.row].beliefId == id && s.beliefs[r.row].supportedBy == support
  }

  /** The fields of a revision's row: what was given, or else the support that showed before and the time. */
  ghost predicate IsRevision(s: Store, b: Belief, branch: string, rev: Revision, clock: Clock) {
    && b.beliefId == rev.beliefId && b.claimText == rev.claimText && b.rationale == rev.rationale
    && b.status == Active && b.createdByTx == s.nextTx
    && b.validFrom == (match rev.validFrom case Some(from) => from case None => clock(s.nextTx))
    && b.validTo == rev.validTo
    && (match rev.supportedBy
        case Some(ids) => b.supportedBy == ids
        case None =>
          || ShownSupport(s, branch, rev.beliefId, b.supportedBy)
          || (b.supportedBy == [] && forall ids :: !ShownSupport(s, branch, rev.beliefId, ids)))
  }

  /** The step appends one belief row, written by a transaction of `branch`, and changes nothing else but the log. */
  ghost predicate AppendsBelief(s: Store, s': Store, branch: string) {
    && |s'.beliefs| == |s.beliefs| + 1 && s.beliefs <= s'.beliefs
    && s'.facts == s.facts && s'.branches == s.branches
    && s'.txBranch == s.txBranch[s.nextTx := branch] && s'.nextTx == s.nextTx + 1
    && s'.beliefs[|s.beliefs|].createdByTx == s.nextTx < TX_MAX
  }

  lemma SupportIs(s: Store, branch: string, rev: Revision)
    requires rev.supportedBy.None?
    ensures var support := SupportFor(s, branch, rev);
            || ShownSupport(s, branch, rev.beliefId, support)
            || (support == [] && forall ids :: !ShownSupport(s, branch, rev.beliefId, ids))
  {
    hide BeliefsOnBranch;
    var found := FindBelief(s, BeliefsOnBranch(s, branch), rev.beliefId);
    if found.Some? {
      assert found.value in BeliefsOnBranch(s, branch);
    }
  }

  /** An accepted revision appends exactly this row. */
  lemma RevisionWrites(s: Store, branch: string, rev: Revision, clock: Clock)
    requires ReviseBelief(s, branch, rev, clock).1.Ok?
    ensures var s' := ReviseBelief(s, branch, rev, clock).0;
            AppendsBelief(s, s', branch) && IsRevision(s, s'.beliefs[|s.beliefs|], branch, rev, clock)
  {
    if rev.supportedBy.None? {
      SupportIs(s, branch, rev);
    }
    hide BeliefsOnBranch, IsSessionClosed, LiveBranch, ShownSupport;
  }

  /** The row of a revocation: a visible belief with that id, now revoked and ended. */
  ghost predicate IsRevocation(s: Store, b: Belief, branch: string, id: string, clock: Clock) {
    && b.beliefId == id && b.status == Revoked && b.createdByTx == s.nextTx && b.validTo == Some(clock(s.nextTx))
    && exists r :: r in BeliefsOnBranch(s, branch) && s.beliefs[r.row].beliefId == id
                   && b.claimText == s.beliefs[r.row].claimText && b.rationale == s.beliefs[r.row].rationale
                   && b.supportedBy == s.beliefs[r.row].supportedBy && b.validFrom == s.beliefs[r.row].validFrom
  }

  /** A revocation is accepted only for a visible belief, and appends its copy. */
  lemma RevocationWrites(s: Store, branch: string, id: string, clock: Clock)
    ensures var (s', out) := RevokeBelief(s, branch, id, clock);
            && (out == Err(NoActiveBelief)
                <==> forall r :: r in BeliefsOnBranch(s, branch) ==> s.beliefs[r.row].beliefId != id)
            && (out.Ok? ==> AppendsBelief(s, s', branch) && IsRevocation(s, s'.beliefs[|s.beliefs|], branch, id, clock))
  {
    hide BeliefsOnBranch, IsSessionClosed, LiveBranch;
    var found := FindBelief(s, BeliefsOnBranch(s, branch), id);
    if found.Some? {
      assert found.value in BeliefsOnBranch(s, branch);
    }
  }

  // ----- Where the new row shows -----

  /** Along the writer's own chain, the new row comes before every other. */
  lemma NewestOfAll(s: Store, s': Store, branch: string, chain: seq<string>, j: nat)
    requires Inv(s) && AppendsBelief(s, s', branch) && chain != [] && chain[0] == branch
    requires j < |s.beliefs| && SeenBy(s', chain, TX_MAX, s'.beliefs[j].createdByTx)
    ensures Before(s', chain, s.nextTx, s'.beliefs[j].createdByTx)
  {
    assert s'.beliefs[j] == s.beliefs[j];
    CommittedBelief(s, j);
  }

  lemma CommittedBelief(s: Store, j: nat)
    requires Inv(s) && j < |s.beliefs|
    ensures s.beliefs[j].createdByTx < s.nextTx
  {
    hide FactsOk, WellFormed;
  }

  lemma NewIsSeen(s: Store, s': Store, branch: string, chain: seq<string>)
    requires AppendsBelief(s, s', branch) && branch in chain
    ensures SeenBy(s', chain, TX_MAX, s'.beliefs[|s.beliefs|].createdByTx)
  {
  }

  lemma NewSpeaksFirst(s: Store, s': Store, branch: string, chain: seq<string>)
    requires Inv(s) && AppendsBelief(s, s', branch) && chain != [] && chain[0] == branch
    ensures Speaks(s', chain, TX_MAX, None, |s.beliefs|)
    ensures s'.beliefs[|s.beliefs|].status == Active ==> Listed(s', chain, TX_MAX, None, |s.beliefs|)
  {
    hide SeenBy, Before, Inv, AppendsBelief;
    assert |s'.beliefs| == |s.beliefs| + 1 && s'.beliefs[|s.beliefs|].createdByTx == s.nextTx by {
      AppendsOne(s, s', branch);
    }
    NewIsSeen(s, s', branch, chain);
    forall j | 0 <= j < |s.beliefs| && SeenBy(s', chain, TX_MAX, s'.beliefs[j].createdByTx)
      ensures Before(s', chain, s.nextTx, s'.beliefs[j].createdByTx)
    {
      NewestOfAll(s, s', branch, chain, j);
    }
    hide InEffect;
    assert InEffect(s'.beliefs[|s.beliefs|], None) by {
      NoTimeIsNoTest(s'.beliefs[|s.beliefs|]);
    }
  }

  lemma NoTimeIsNoTest(b: Belief)
    ensures InEffect(b, None)
  {
  }

  lemma AppendsOne(s: Store, s': Store, branch: string)
    requires AppendsBelief(s, s', branch)
    ensures |s'.beliefs| == |s.beliefs| + 1 && s'.beliefs[|s.beliefs|].createdByTx == s.nextTx
    ensures s'.branches == s.branches
  {
  }

  /** A listed row before which nothing seen comes heads the list. */
  lemma LeaderIsFirst(s: Store, branch: string, i: nat)
    requires Inv(s) && i < |s.beliefs| && Listed(s, Ancestors(s.branches, branch), TX_MAX, None, i)
    requires forall j :: 0 <= j < |s.beliefs| && j != i
                         && SeenBy(s, Ancestors(s.branches, branch), TX_MAX, s.beliefs[j].createdByTx) ==>
               Before(s, Ancestors(s.branches, branch), s.beliefs[i].createdByTx, s.beliefs[j].createdByTx)
    ensures BeliefsOnBranch(s, branch) != []
    ensures BeliefsOnBranch(s, branch)[0] == BeliefRef(s, Ancestors(s.branches, branch), i)
  {
    var chain := Ancestors(s.branches, branch);
    var rs := BeliefsOnBranch(s, branch);
    BeliefViewIs(s, branch, TX_MAX);
    var r := BeliefRef(s, chain, i);
    assert r in rs && rs[0] in rs;
    var k :| 0 <= k < |rs| && rs[k] == r;
    var j := rs[0].row;
    hide Inv, BeliefsOnBranch, Ancestors;
    assert rs[0] == BeliefRef(s, chain, j) && Listed(s, chain, TX_MAX, None, j);
    if j != i {
      BeforeIsPrecedes(s, BeliefKeys(s.beliefs), chain, TX_MAX, i, j);
    }
  }

  /** After an accepted revision the branch's list of beliefs starts with its row. */
  lemma RevisionShowsFirst(s: Store, branch: string, rev: Revision, clock: Clock)
    requires Inv(s) && ReviseBelief(s, branch, rev, clock).1.Ok?
    ensures var s' := ReviseBelief(s, branch, rev, clock).0;
            var rs := BeliefsOnBranch(s', branch);
            rs != [] && rs[0] == RowRef(|s.beliefs|, rev.beliefId, 0, s.nextTx)
  {
    var s' := ReviseBelief(s, branch, rev, clock).0;
    var chain := Ancestors(s'.branches, branch);
    RevisionWrites(s, branch, rev, clock);
    ReviseStep(s, branch, rev, clock);
    hide ReviseBelief, BeliefsOnBranch, Ancestors, Inv, Listed, Before;
    NewSpeaksFirst(s, s', branch, chain);
    forall j | 0 <= j < |s'.beliefs| && j != |s.beliefs| && SeenBy(s', chain, TX_MAX, s'.beliefs[j].createdByTx)
      ensures Before(s', chain, s'.beliefs[|s.beliefs|].createdByTx, s'.beliefs[j].createdByTx)
    {
      NewestOfAll(s, s', branch, chain, j);
    }
    LeaderIsFirst(s', branch, |s.beliefs|);
  }

  /** No row of the id was written nearer than `branch` along the chain. */
  ghost predicate NoneNearer(s: Store, chain: seq<string>, branch: string, id: string) {
    forall j :: 0 <= j < |s.beliefs| && s.beliefs[j].beliefId == id
                && SeenBy(s, chain, TX_MAX, s.beliefs[j].createdByTx) ==>
      Position(chain, branch).Some?
      && Depth(s.txBranch, s.beliefs[j].createdByTx, chain).value >= Position(chain, branch).value
  }

  lemma InheritedSpeaks(s: Store, s': Store, branch: string, chain: seq<string>)
    requires Inv(s) && AppendsBelief(s, s', branch) && branch in chain
    requires NoneNearer(s, chain, branch, s'.beliefs[|s.beliefs|].beliefId)
    ensures Speaks(s', chain, TX_MAX, None, |s.beliefs|)
  {
    NewIsSeen(s, s', branch, chain);
    var n := |s.beliefs|;
    forall j | 0 <= j < |s'.beliefs| && j != n && s'.beliefs[j].beliefId == s'.beliefs[n].beliefId
               && SeenBy(s', chain, TX_MAX, s'.beliefs[j].createdByTx)
      ensures Before(s', chain, s'.beliefs[n].createdByTx, s'.beliefs[j].createdByTx)
    {
      assert s'.beliefs[j] == s.beliefs[j];
      CommittedBelief(s, j);
      assert SeenBy(s, chain, TX_MAX, s.beliefs[j].createdByTx);
    }
    hide Inv;
  }

  /** A branch that inherits from `branch`, with no nearer row of the id, shows the revision too, unless a nearer or
      newer belief makes the same claim there. */
  lemma RevisionIsInherited(s: Store, branch: string, rev: Revision, clock: Clock, heir: string)
    requires Inv(s) && ReviseBelief(s, branch, rev, clock).1.Ok?
    requires branch in Ancestors(s.branches, heir)
    requires NoneNearer(s, Ancestors(s.branches, heir), branch, rev.beliefId)
    ensures var s' := ReviseBelief(s, branch, rev, clock).0;
            var chain := Ancestors(s.branches, heir);
            BeliefRef(s', chain, |s.beliefs|) in BeliefsOnBranch(s', heir)
            <==> forall j: nat :: (j != |s.beliefs| && Speaks(s', chain, TX_MAX, None, j)
                                   && s'.beliefs[j].status == Active && s'.beliefs[j].claimText == rev.claimText) ==>
                   Before(s', chain, s.nextTx, s'.beliefs[j].createdByTx)
  {
    var s' := ReviseBelief(s, branch, rev, clock).0;
    var chain := Ancestors(s.branches, heir);
    RevisionWrites(s, branch, rev, clock);
    ReviseStep(s, branch, rev, clock);
    hide ReviseBelief, Ancestors, Inv, Before, SeenBy, NoneNearer;
    InheritedSpeaks(s, s', branch, chain);
    BeliefViewIs(s', heir, TX_MAX);
    hide Speaks, StrictlyOrdered, BeliefRef;
  }
}
