/** What each call answers and writes, by the fields of the rows: which condition refuses it, and what is in the log
    and in the tables afterwards. */
module WriteLaws {
  import opened Wrappers
  import opened BrainTypes
  import opened BranchChain
  import opened RowSelection
  import opened BrainReads
  import opened BrainWrites
  import opened BrainInvariant
  import opened BrainSteps
  import opened BrainMerge
  import Text

  // ----- Refusals -----

  /** The Unicode White_Space characters. */
  const WHITESPACE :=
    "\t\n\U{0B}\U{0C}\r \U{85}\U{A0}\U{1680}\U{2000}\U{2001}\U{2002}\U{2003}\U{2004}\U{2005}\U{2006}"
    + "\U{2007}\U{2008}\U{2009}\U{200A}\U{2028}\U{2029}\U{202F}\U{205F}\U{3000}"

  lemma WhitespaceIs(c: char)
    ensures Text.IsWhitespace(c) <==> c in WHITESPACE
    ensures Text.IsAsciiWhitespace(c) <==> c in "\t\n\U{0C}\r "
  {
  }

  /** A predicate name is refused when it is empty or holds whitespace or a quote. */
  predicate BadName(name: string) {
    name == "" || exists c :: c in name && (c in WHITESPACE || c in "'\"")
  }

  lemma BadNameIff(name: string)
    ensures BadName(name) <==> !ValidPredicateName(name)
  {
    forall c
      ensures Text.IsWhitespace(c) <==> c in WHITESPACE
    {
      WhitespaceIs(c);
    }
    hide Text.IsWhitespace;
    if i :| 0 <= i < |name| && (Text.IsWhitespace(name[i]) || name[i] == '\'' || name[i] == '"') {
      assert name[i] in name && name[i] in "'\"" <==> name[i] == '\'' || name[i] == '"';
    }
  }

  /** Why a write on `branch` that refers to `refs` is refused, in the order in which it is looked at. */
  ghost function WriteError(s: Store, branch: string, refs: seq<string>): Option<Error> {
    if forall k :: 0 <= k < |s.branches| ==> s.branches[k].branchId != branch || s.branches[k].archived
    then Some(UnknownBranch)
    else if "session/closed_at" !in refs
            && exists i :: 0 <= i < |s.facts| && s.facts[i].factId == "session/closed_at"
                           && s.facts[i].revokedByTx.None? && s.facts[i].supersededByTx.None?
    then Some(SessionClosed)
    else if s.nextTx >= 0xFFFF_FFFF_FFFF_FFFF then Some(TxIdsExhausted)
    else None
  }

  /** A call with that error, if any, and otherwise the next transaction id. */
  function Answer(s: Store, error: Option<Error>): Outcome {
    match error case Some(e) => Err(e) case None => Ok(s.nextTx)
  }

  lemma LiveBranchIs(bs: seq<Branch>, id: string)
    ensures LiveBranch(bs, id)
            <==> !forall k :: 0 <= k < |bs| ==> bs[k].branchId != id || bs[k].archived
  {
  }

  lemma AllocOutcome(s: Store, branch: string, action: TxAction, refs: seq<string>, clock: Clock)
    ensures var r := AllocTx(s, branch, action, refs, clock);
            match WriteError(s, branch, refs) case Some(e) => r == Err(e) case None => r.Ok?
  {
    LiveBranchIs(s.branches, branch);
    hide LiveBranch;
  }

  lemma AssertOutcome(s: Store, branch: string, claim: Claim, clock: Clock)
    ensures AssertFact(s, branch, claim, clock).1
            == if BadName(claim.pred) then Err(InvalidPredicate) else Answer(s, WriteError(s, branch, [claim.factId]))
  {
    BadNameIff(claim.pred);
    AllocOutcome(s, branch, AssertFactAction, [claim.factId], clock);
    hide BadName, ValidPredicateName, AllocTx, WriteError;
  }

  lemma RetractOutcome(s: Store, branch: string, id: string, clock: Clock)
    ensures RetractFact(s, branch, id, clock).1
            == if forall r :: r in FactsOnBranch(s, branch) ==> s.facts[r.row].factId != id then Err(NoActiveFact)
               else Answer(s, WriteError(s, branch, [id]))
  {
    AllocOutcome(s, branch, RetractFactAction, [id], clock);
    hide AllocTx, WriteError, FactsOnBranch;
  }

  lemma RetractExactOutcome(s: Store, branch: string, id: string, pred: string, value: FactValue, clock: Clock)
    ensures RetractFactExact(s, branch, id, pred, value, clock).1
            == if forall r :: r in FactsOnBranch(s, branch) ==>
                       s.facts[r.row].factId != id || s.facts[r.row].pred != pred || s.facts[r.row].value != value
               then Err(NoActiveFact) else Answer(s, WriteError(s, branch, [id]))
  {
    AllocOutcome(s, branch, RetractFactAction, [id], clock);
    hide AllocTx, WriteError, FactsOnBranch;
    var found := FindTuple(s, FactsOnBranch(s, branch), id, pred, value);
    assert forall x :: x in FactsOnBranch(s, branch) ==>
        (HoldsTuple(s.facts[x.row], id, pred, value)
         <==> s.facts[x.row].factId == id && s.facts[x.row].pred == pred && s.facts[x.row].value == value);
    hide HoldsTuple;
  }

  lemma ReviseOutcome(s: Store, branch: string, rev: Revision, clock: Clock)
    ensures ReviseBelief(s, branch, rev, clock).1 == Answer(s, WriteError(s, branch, [rev.beliefId]))
  {
    AllocOutcome(s, branch, ReviseBeliefAction, [rev.beliefId], clock);
    hide AllocTx, WriteError;
  }

  lemma RevokeOutcome(s: Store, branch: string, id: string, clock: Clock)
    ensures RevokeBelief(s, branch, id, clock).1
            == if forall r :: r in BeliefsOnBranch(s, branch) ==> s.beliefs[r.row].beliefId != id
               then Err(NoActiveBelief)
               else Answer(s, WriteError(s, branch, [id]))
  {
    AllocOutcome(s, branch, RevokeBeliefAction, [id], clock);
    hide AllocTx, WriteError, BeliefsOnBranch;
  }

  lemma CreateOutcome(s: Store, parent: string, id: string, name: string, clock: Clock)
    ensures CreateBranch(s, parent, id, name, clock).1
            == if forall k :: 0 <= k < |s.branches| ==> s.branches[k].branchId != parent || s.branches[k].archived
               then Err(UnknownBranch)
               else if exists k :: 0 <= k < |s.branches| && s.branches[k].branchId == id && !s.branches[k].archived
               then Err(BranchTaken)
               else Answer(s, WriteError(s, parent, [id]))
  {
    LiveBranchIs(s.branches, parent);
    LiveBranchIs(s.branches, id);
    AllocOutcome(s, parent, CreateBranchAction, [id], clock);
    hide AllocTx, LiveBranch, WriteError;
  }

  lemma LogOutcome(s: Store, source: string, target: string, clock: Clock)
    ensures LogMerge(s, source, target, clock).1 == Answer(s, WriteError(s, target, [source, target]))
  {
    AllocOutcome(s, target, MergeAction, [source, target], clock);
    hide AllocTx, WriteError;
  }

  /** A merge is refused for a source that is not live, then for such a target, and writes nothing then. */
  lemma MergeOutcome(s: Store, source: string, target: string, policy: MergePolicy, clock: Clock)
    ensures var (s', r) := MergeBranch(s, source, target, policy, clock);
            var noSource :=
              forall k :: 0 <= k < |s.branches| ==> s.branches[k].branchId != source || s.branches[k].archived;
            var noTarget :=
              forall k :: 0 <= k < |s.branches| ==> s.branches[k].branchId != target || s.branches[k].archived;
            && (noSource ==> s' == s && r == Err(SourceNotFound))
            && (!noSource && noTarget ==> s' == s && r == Err(TargetNotFound))
  {
    LiveBranchIs(s.branches, source);
    LiveBranchIs(s.branches, target);
    hide LiveBranch, MergeFirst, PlanMerge, LogMerge, FactsOnBranch;
  }

  // ----- The log -----

  /** One log entry more, linked to the last one, and nothing else about transactions. */
  ghost predicate Commits(s: Store, s': Store, action: TxAction, refs: seq<string>, branch: string, clock: Clock) {
    && s'.transactions
       == s.transactions
          + [Tx(s.nextTx, clock(s.nextTx), action, refs, if s.nextTx <= 1 then None else Some(s.nextTx - 1), branch)]
    && s'.txBranch == s.txBranch[s.nextTx := branch]
    && s'.nextTx == s.nextTx + 1
  }

  lemma AllocCommits(s: Store, branch: string, action: TxAction, refs: seq<string>, clock: Clock)
    requires Inv(s) && AllocTx(s, branch, action, refs, clock).Ok?
    ensures var a := AllocTx(s, branch, action, refs, clock).value;
            && Commits(s, a, action, refs, branch, clock)
            && a.facts == s.facts && a.beliefs == s.beliefs && a.branches == s.branches
  {
    hide FactsOk, BeliefsOk, WellFormed, LiveBranch, IsSessionClosed;
  }

  // ----- The tables -----

  /** Written on the branch, by the index of transactions. */
  predicate On(s: Store, f: Fact, branch: string) {
    f.createdByTx in s.txBranch && s.txBranch[f.createdByTx] == branch
  }

  /** The row of an assertion: the claim, valid from now unless it says otherwise, without stamps. */
  predicate IsAsserted(f: Fact, claim: Claim, tx: TxId, now: Time) {
    && f.factId == claim.factId && f.pred == claim.pred && f.value == claim.value && f.provenance == claim.provenance
    && f.createdAt == now && f.createdByTx == tx && f.supersededByTx.None? && f.revokedByTx.None?
    && f.validFrom == (match claim.validFrom case Some(from) => from case None => now)
    && f.validTo == claim.validTo
  }

  /** The row with a supersede stamp, closed when its successor begins, or now if that is later. */
  function Superseded(f: Fact, tx: TxId, now: Time, from: Time): Fact {
    f.(supersededByTx := Some(tx), validTo := Some(if Text.Less(from, now) then from else now))
  }

  /** An accepted assertion appends the claim and supersedes exactly the open rows of its id on its branch. */
  lemma AssertWrites(s: Store, branch: string, claim: Claim, clock: Clock)
    requires Inv(s) && AssertFact(s, branch, claim, clock).1.Ok?
    ensures var s' := AssertFact(s, branch, claim, clock).0;
            var tx, now, n := s.nextTx, clock(s.nextTx), |s.facts|;
            && Commits(s, s', AssertFactAction, [claim.factId], branch, clock)
            && s'.beliefs == s.beliefs && s'.branches == s.branches
            && |s'.facts| == n + 1 && IsAsserted(s'.facts[n], claim, tx, now)
            && forall i :: 0 <= i < n ==>
                 var f := s.facts[i];
                 s'.facts[i] == if f.factId == claim.factId && f.revokedByTx.None? && f.supersededByTx.None?
                                   && f.validTo.None? && On(s, f, branch)
                                then Superseded(f, tx, now, s'.facts[n].validFrom) else f
  {
    AllocCommits(s, branch, AssertFactAction, [claim.factId], clock);
    var a := AllocTx(s, branch, AssertFactAction, [claim.factId], clock).value;
    forall i | 0 <= i < |s.facts|
      ensures On(s, s.facts[i], branch) <==> WrittenOn(a, s.facts[i], branch)
    {
      assert RowOk(s, i);
    }
    hide Inv, AllocTx, WrittenOn, On, ValidPredicateName, Commits;
  }

  /** The row that hides an inherited fact: its content, created and revoked now. */
  predicate IsTombstoneOf(f: Fact, head: Fact, tx: TxId, now: Time) {
    && f.factId == head.factId && f.pred == head.pred && f.value == head.value && f.provenance == head.provenance
    && f.createdAt == now && f.createdByTx == tx && f.supersededByTx.None? && f.revokedByTx == Some(tx)
    && f.validFrom == head.validFrom && f.validTo == Some(now)
  }

  /** What a retraction of the shown row `head` does: `stamped` to each row, or a tombstone if `head` is inherited. */
  ghost predicate Retracts(s: Store, s': Store, head: Fact, branch: string, clock: Clock, stamped: Fact -> Fact) {
    && s'.beliefs == s.beliefs && s'.branches == s.branches
    && if On(s, head, branch)
       then |s'.facts| == |s.facts| && forall i :: 0 <= i < |s.facts| ==> s'.facts[i] == stamped(s.facts[i])
       else |s'.facts| == |s.facts| + 1 && s'.facts[..|s.facts|] == s.facts
            && IsTombstoneOf(s'.facts[|s.facts|], head, s.nextTx, clock(s.nextTx))
  }

  /** `retract_fact` revokes and ends every unstamped row of the id on the branch. */
  function Revoked(s: Store, branch: string, id: string, clock: Clock): Fact -> Fact {
    (f: Fact) =>
      if f.factId == id && f.revokedByTx.None? && f.supersededByTx.None? && On(s, f, branch)
      then f.(revokedByTx := Some(s.nextTx), validTo := Some(clock(s.nextTx))) else f
  }

  /** `retract_fact_exact` revokes every unrevoked row of the tuple on the branch, and ends those without an end. */
  function RevokedExactly(s: Store, branch: string, id: string, pred: string, value: FactValue, clock: Clock)
    : Fact -> Fact
  {
    (f: Fact) =>
      if f.factId == id && f.pred == pred && f.value == value && f.revokedByTx.None? && On(s, f, branch)
      then f.(revokedByTx := Some(s.nextTx),
              validTo := Some(match f.validTo case Some(end) => end case None => clock(s.nextTx)))
      else f
  }

  lemma OnBeforeAlloc(s: Store, a: Store, branch: string, i: nat)
    requires Inv(s) && i < |s.facts| && a.txBranch == s.txBranch[s.nextTx := branch]
    ensures On(s, s.facts[i], branch) <==> WrittenOn(a, s.facts[i], branch)
  {
    assert RowOk(s, i);
  }

  lemma StampIs(s: Store, a: Store, branch: string, id: string, clock: Clock, i: nat)
    requires i < |s.facts| && (On(s, s.facts[i], branch) <==> WrittenOn(a, s.facts[i], branch))
    ensures RetractedBy(a, s.facts[i], branch, id, s.nextTx, clock(s.nextTx))
            == Revoked(s, branch, id, clock)(s.facts[i])
  {
    hide On, WrittenOn;
  }

  lemma RetractWrites(s: Store, branch: string, id: string, clock: Clock) returns (r: RowRef)
    requires Inv(s) && RetractFact(s, branch, id, clock).1.Ok?
    ensures r in FactsOnBranch(s, branch) && s.facts[r.row].factId == id
    ensures var s' := RetractFact(s, branch, id, clock).0;
            && Commits(s, s', RetractFactAction, [id], branch, clock)
            && Retracts(s, s', s.facts[r.row], branch, clock, Revoked(s, branch, id, clock))
  {
    r := FindFact(s, FactsOnBranch(s, branch), id).value;
    RetractShape(s, branch, id, clock);
    AllocCommits(s, branch, RetractFactAction, [id], clock);
    hide FactsOnBranch, Inv, AllocTx, RetractFact, Revoked, RetractedBy, On, WrittenOn;
    var a := AllocTx(s, branch, RetractFactAction, [id], clock).value;
    forall i | 0 <= i < |s.facts|
      ensures On(s, s.facts[i], branch) <==> WrittenOn(a, s.facts[i], branch)
      ensures RetractedBy(a, s.facts[i], branch, id, s.nextTx, clock(s.nextTx))
              == Revoked(s, branch, id, clock)(s.facts[i])
    {
      OnBeforeAlloc(s, a, branch, i);
      StampIs(s, a, branch, id, clock, i);
    }
  }

  lemma ExactStampIs(
    s: Store, a: Store, branch: string, id: string, pred: string, value: FactValue, clock: Clock, i: nat)
    requires i < |s.facts| && (On(s, s.facts[i], branch) <==> WrittenOn(a, s.facts[i], branch))
    ensures RetractedExactlyBy(a, s.facts[i], branch, id, pred, value, s.nextTx, clock(s.nextTx))
            == RevokedExactly(s, branch, id, pred, value, clock)(s.facts[i])
  {
    hide On, WrittenOn;
  }

  lemma RetractExactWrites(s: Store, branch: string, id: string, pred: string, value: FactValue, clock: Clock)
    returns (r: RowRef)
    requires Inv(s) && RetractFactExact(s, branch, id, pred, value, clock).1.Ok?
    ensures r in FactsOnBranch(s, branch)
    ensures s.facts[r.row].factId == id && s.facts[r.row].pred == pred && s.facts[r.row].value == value
    ensures var s' := RetractFactExact(s, branch, id, pred, value, clock).0;
            && Commits(s, s', RetractFactAction, [id], branch, clock)
            && Retracts(s, s', s.facts[r.row], branch, clock, RevokedExactly(s, branch, id, pred, value, clock))
  {
    r := FindTuple(s, FactsOnBranch(s, branch), id, pred, value).value;
    RetractExactShape(s, branch, id, pred, value, clock);
    AllocCommits(s, branch, RetractFactAction, [id], clock);
    hide FactsOnBranch, Inv, AllocTx, RetractFactExact, RevokedExactly, RetractedExactlyBy, On, WrittenOn;
    var a := AllocTx(s, branch, RetractFactAction, [id], clock).value;
    forall i | 0 <= i < |s.facts|
      ensures On(s, s.facts[i], branch) <==> WrittenOn(a, s.facts[i], branch)
      ensures RetractedExactlyBy(a, s.facts[i], branch, id, pred, value, s.nextTx, clock(s.nextTx))
              == RevokedExactly(s, branch, id, pred, value, clock)(s.facts[i])
    {
      OnBeforeAlloc(s, a, branch, i);
      ExactStampIs(s, a, branch, id, pred, value, clock, i);
    }
  }

  /** Revisions and revocations log themselves; what they append is in `RevisionLaws`. */
  lemma BeliefWritesCommit(s: Store, branch: string, rev: Revision, id: string, clock: Clock)
    requires Inv(s)
    ensures var (s', out) := ReviseBelief(s, branch, rev, clock);
            out.Ok? ==> Commits(s, s', ReviseBeliefAction, [rev.beliefId], branch, clock)
    ensures var (s', out) := RevokeBelief(s, branch, id, clock);
            out.Ok? ==> Commits(s, s', RevokeBeliefAction, [id], branch, clock)
  {
    if ReviseBelief(s, branch, rev, clock).1.Ok? {
      AllocCommits(s, branch, ReviseBeliefAction, [rev.beliefId], clock);
    }
    if RevokeBelief(s, branch, id, clock).1.Ok? {
      AllocCommits(s, branch, RevokeBeliefAction, [id], clock);
    }
    hide Inv, AllocTx, Commits, BeliefsOnBranch;
  }

  lemma CreateWrites(s: Store, parent: string, id: string, name: string, clock: Clock)
    requires Inv(s) && CreateBranch(s, parent, id, name, clock).1.Ok?
    ensures var s' := CreateBranch(s, parent, id, name, clock).0;
            && Commits(s, s', CreateBranchAction, [id], parent, clock)
            && s'.facts == s.facts && s'.beliefs == s.beliefs
            && s'.branches == s.branches + [Branch(id, name, Some(parent), s.nextTx, false)]
  {
    AllocCommits(s, parent, CreateBranchAction, [id], clock);
    hide Inv, AllocTx, Commits, LiveBranch;
  }

  lemma LogWrites(s: Store, source: string, target: string, clock: Clock)
    requires Inv(s) && LogMerge(s, source, target, clock).1.Ok?
    ensures var s' := LogMerge(s, source, target, clock).0;
            && Commits(s, s', MergeAction, [source, target], target, clock)
            && s'.facts == s.facts && s'.beliefs == s.beliefs && s'.branches == s.branches
  {
    AllocCommits(s, target, MergeAction, [source, target], clock);
    hide Inv, AllocTx, Commits;
  }

  /** A finished merge answers with its own transaction, the last in the log. */
  lemma MergeLogsLast(s: Store, source: string, target: string, policy: MergePolicy, clock: Clock)
    requires MergeBranch(s, source, target, policy, clock).1.Ok?
    ensures var (s', r) := MergeBranch(s, source, target, policy, clock);
            && s'.nextTx == r.value.txId + 1 && s'.transactions != []
            && var last := s'.transactions[|s'.transactions| - 1];
               && last.txId == r.value.txId && last.txTime == clock(r.value.txId)
               && last.action == MergeAction && last.refs == [source, target] && last.branchId == target
  {
    hide MergeFirst, PlanMerge, FactsOnBranch, LiveBranch, IsSessionClosed;
  }

  /** Archiving marks the first row of the id, unless it is `main` or has none, and logs nothing. */
  lemma ArchiveWrites(s: Store, id: string, k: nat)
    requires k <= |s.branches| && forall j :: 0 <= j < k ==> s.branches[j].branchId != id
    requires k < |s.branches| ==> s.branches[k].branchId == id
    ensures ArchiveBranch(s, id)
            == if id == "main" then (s, Err(CannotArchiveMain))
               else if k == |s.branches| then (s, Err(UnknownBranch))
               else (s.(branches := s.branches[k := s.branches[k].(archived := true)]), Ok(k))
  {
    assert FirstRow(s.branches, id) == k;
  }
}
