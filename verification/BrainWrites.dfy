/** The write side of the brain as functions from store to store. A refused call reports its error;
    everything but a merge then leaves the store as it was. */
module BrainWrites {
  import opened Wrappers
  import opened BrainTypes
  import opened BranchChain
  import opened RowSelection
  import opened BrainReads
  import Text

  type Outcome = Result<TxId, Error>

  /** `alloc_tx`: every mutation passes here. */
  function AllocTx(s: Store, branch: string, action: TxAction, refs: seq<string>, clock: Clock): Result<Store, Error> {
    if !LiveBranch(s.branches, branch) then Err(UnknownBranch)
    else if SESSION_CLOSED_FACT_ID !in refs && IsSessionClosed(s.facts) then Err(SessionClosed)
    else if s.nextTx >= TX_MAX then Err(TxIdsExhausted)
    else
      var parent := if s.transactions == [] then None else Some(s.transactions[|s.transactions| - 1].txId);
      var tx := Tx(s.nextTx, clock(s.nextTx), action, refs, parent, branch);
      Ok(s.(transactions := s.transactions + [tx],
            txBranch := s.txBranch[s.nextTx := branch],
            nextTx := s.nextTx + 1))
  }

  function OrElse(t: Option<Time>, default: Time): Time {
    if t.Some? then t.value else default
  }

  /** The earlier of the new row's `valid_from` and its transaction time. */
  function CloseAt(validFrom: Time, txTime: Time): Time {
    if Text.Less(validFrom, txTime) then validFrom else txTime
  }

  function FactOf(claim: Claim, tx: TxId, txTime: Time): Fact {
    Fact(claim.factId, claim.pred, claim.value, txTime, tx, None, None, claim.provenance,
         OrElse(claim.validFrom, txTime), claim.validTo)
  }

  /** What `assert_fact` does to one older row. */
  function ClosedBy(s: Store, f: Fact, branch: string, id: string, tx: TxId, closeAt: Time): Fact {
    if f.factId == id && f.OpenEnded() && WrittenOn(s, f, branch)
    then f.(supersededByTx := Some(tx), validTo := Some(closeAt))
    else f
  }

  function CloseOpenRows(s: Store, branch: string, id: string, tx: TxId, closeAt: Time): (facts: seq<Fact>)
    ensures |facts| == |s.facts|
    ensures forall i :: 0 <= i < |facts| ==> facts[i] == ClosedBy(s, s.facts[i], branch, id, tx, closeAt)
  {
    seq(|s.facts|, i requires 0 <= i < |s.facts| => ClosedBy(s, s.facts[i], branch, id, tx, closeAt))
  }

  function AssertFact(s: Store, branch: string, claim: Claim, clock: Clock): (Store, Outcome) {
    if !ValidPredicateName(claim.pred) then (s, Err(InvalidPredicate))
    else match AllocTx(s, branch, AssertFactAction, [claim.factId], clock)
      case Err(e) => (s, Err(e))
      case Ok(a) =>
        var f := FactOf(claim, s.nextTx, clock(s.nextTx));
        var closed := CloseOpenRows(a, branch, claim.factId, s.nextTx, CloseAt(f.validFrom, f.createdAt));
        (a.(facts := closed + [f]), Ok(s.nextTx))
  }

  /** The row that hides an inherited fact on one branch: the head again, but born and revoked in `tx`. */
  function Tombstone(head: Fact, tx: TxId, txTime: Time): Fact {
    head.(createdAt := txTime, createdByTx := tx, supersededByTx := None, revokedByTx := Some(tx),
          validTo := Some(txTime))
  }

  /** What `retract_fact` does to one row. */
  function RetractedBy(s: Store, f: Fact, branch: string, id: string, tx: TxId, txTime: Time): Fact {
    if f.factId == id && f.Unstamped() && WrittenOn(s, f, branch)
    then f.(revokedByTx := Some(tx), validTo := Some(txTime))
    else f
  }

  function RetractRows(s: Store, branch: string, id: string, tx: TxId, txTime: Time): (facts: seq<Fact>)
    ensures |facts| == |s.facts|
    ensures forall i :: 0 <= i < |facts| ==> facts[i] == RetractedBy(s, s.facts[i], branch, id, tx, txTime)
  {
    seq(|s.facts|, i requires 0 <= i < |s.facts| => RetractedBy(s, s.facts[i], branch, id, tx, txTime))
  }

  function RetractFact(s: Store, branch: string, id: string, clock: Clock): (Store, Outcome) {
    match FindFact(s, FactsOnBranch(s, branch), id)
    case None => (s, Err(NoActiveFact))
    case Some(r) =>
      var head := s.facts[r.row];
      match AllocTx(s, branch, RetractFactAction, [id], clock)
      case Err(e) => (s, Err(e))
      case Ok(a) =>
        var facts := if WrittenOn(a, head, branch)
                     then RetractRows(a, branch, id, s.nextTx, clock(s.nextTx))
                     else a.facts + [Tombstone(head, s.nextTx, clock(s.nextTx))];
        (a.(facts := facts), Ok(s.nextTx))
  }

  /** What `retract_fact_exact` does to one row. */
  function RetractedExactlyBy(
    s: Store, f: Fact, branch: string, id: string, pred: string, value: FactValue, tx: TxId, txTime: Time): Fact
  {
    if f.revokedByTx.None? && HoldsTuple(f, id, pred, value) && WrittenOn(s, f, branch)
    then f.(revokedByTx := Some(tx), validTo := if f.validTo.None? then Some(txTime) else f.validTo)
    else f
  }

  function RetractRowsExactly(
    s: Store, branch: string, id: string, pred: string, value: FactValue, tx: TxId, txTime: Time): (facts: seq<Fact>)
    ensures |facts| == |s.facts|
    ensures forall i :: 0 <= i < |facts| ==>
              facts[i] == RetractedExactlyBy(s, s.facts[i], branch, id, pred, value, tx, txTime)
  {
    seq(|s.facts|, i requires 0 <= i < |s.facts| =>
      RetractedExactlyBy(s, s.facts[i], branch, id, pred, value, tx, txTime))
  }

  function RetractFactExact(s: Store, branch: string, id: string, pred: string, value: FactValue, clock: Clock)
    : (Store, Outcome)
  {
    match FindTuple(s, FactsOnBranch(s, branch), id, pred, value)
    case None => (s, Err(NoActiveFact))
    case Some(r) =>
      var head := s.facts[r.row];
      match AllocTx(s, branch, RetractFactAction, [id], clock)
      case Err(e) => (s, Err(e))
      case Ok(a) =>
        var facts := if WrittenOn(a, head, branch)
                     then RetractRowsExactly(a, branch, id, pred, value, s.nextTx, clock(s.nextTx))
                     else a.facts + [Tombstone(head, s.nextTx, clock(s.nextTx))];
        (a.(facts := facts), Ok(s.nextTx))
  }

  /** The support a revision ends up with: its own, or that of the visible belief with its id, or none. */
  function SupportFor(s: Store, branch: string, rev: Revision): seq<string> {
    match rev.supportedBy
    case Some(ids) => ids
    case None =>
      match FindBelief(s, BeliefsOnBranch(s, branch), rev.beliefId)
      case Some(r) => s.beliefs[r.row].supportedBy
      case None => []
  }

  function ReviseBelief(s: Store, branch: string, rev: Revision, clock: Clock): (Store, Outcome) {
    match AllocTx(s, branch, ReviseBeliefAction, [rev.beliefId], clock)
    case Err(e) => (s, Err(e))
    case Ok(a) =>
      var b := Belief(rev.beliefId, rev.claimText, Active, SupportFor(s, branch, rev), s.nextTx,
                      OrElse(rev.validFrom, clock(s.nextTx)), rev.validTo, rev.rationale);
      (a.(beliefs := a.beliefs + [b]), Ok(s.nextTx))
  }

  function RevokeBelief(s: Store, branch: string, id: string, clock: Clock): (Store, Outcome) {
    match FindBelief(s, BeliefsOnBranch(s, branch), id)
    case None => (s, Err(NoActiveBelief))
    case Some(r) =>
      match AllocTx(s, branch, RevokeBeliefAction, [id], clock)
      case Err(e) => (s, Err(e))
      case Ok(a) =>
        var b := s.beliefs[r.row].(beliefId := id, status := Revoked, createdByTx := s.nextTx,
                                   validTo := Some(clock(s.nextTx)));
        (a.(beliefs := a.beliefs + [b]), Ok(s.nextTx))
  }

  function CreateBranch(s: Store, parent: string, id: string, name: string, clock: Clock): (Store, Outcome) {
    if !LiveBranch(s.branches, parent) then (s, Err(UnknownBranch))
    else if LiveBranch(s.branches, id) then (s, Err(BranchTaken))
    else match AllocTx(s, parent, CreateBranchAction, [id], clock)
      case Err(e) => (s, Err(e))
      case Ok(a) => (a.(branches := a.branches + [Branch(id, name, Some(parent), s.nextTx, false)]), Ok(s.nextTx))
  }

  /** The transaction that records a finished merge. */
  function LogMerge(s: Store, source: string, target: string, clock: Clock): (Store, Outcome) {
    match AllocTx(s, target, MergeAction, [source, target], clock)
    case Err(e) => (s, Err(e))
    case Ok(a) => (a, Ok(s.nextTx))
  }

  /** `archive_branch`; it allocates no transaction and answers with the row it marked. */
  function ArchiveBranch(s: Store, id: string): (Store, Outcome) {
    if id == MAIN_BRANCH then (s, Err(CannotArchiveMain))
    else
      var k := FirstRow(s.branches, id);
      if k == |s.branches| then (s, Err(UnknownBranch))
      else (s.(branches := Archive(s.branches, k)), Ok(k))
  }

  // ----- Runs -----

  /** One call on the brain. Merges are sequences of these calls. */
  datatype Op =
    | Assert(branch: string, claim: Claim)
    | Retract(branch: string, id: string)
    | RetractExact(branch: string, id: string, pred: string, value: FactValue)
    | Revise(branch: string, revision: Revision)
    | Revoke(branch: string, id: string)
    | Create(branch: string, id: string, name: string)
    | Log(source: string, branch: string)
    | ArchiveOp(branch: string)

  function Step(s: Store, op: Op, clock: Clock): (Store, Outcome) {
    match op
    case Assert(b, claim) => AssertFact(s, b, claim, clock)
    case Retract(b, id) => RetractFact(s, b, id, clock)
    case RetractExact(b, id, pred, value) => RetractFactExact(s, b, id, pred, value, clock)
    case Revise(b, rev) => ReviseBelief(s, b, rev, clock)
    case Revoke(b, id) => RevokeBelief(s, b, id, clock)
    case Create(parent, id, name) => CreateBranch(s, parent, id, name, clock)
    case Log(source, target) => LogMerge(s, source, target, clock)
    case ArchiveOp(id) => ArchiveBranch(s, id)
  }

  function Run(s: Store, ops: seq<Op>, clock: Clock): Store
    decreases |ops|
  {
    if ops == [] then s else Run(Step(s, ops[0], clock).0, ops[1..], clock)
  }

  lemma {:induction false} RunConcat(s: Store, xs: seq<Op>, ys: seq<Op>, clock: Clock)
    ensures Run(s, xs + ys, clock) == Run(Run(s, xs, clock), ys, clock)
    decreases |xs|
  {
    if xs == [] {
      assert xs + ys == ys;
    } else {
      assert (xs + ys)[1..] == xs[1..] + ys;
      RunConcat(Step(s, xs[0], clock).0, xs[1..], ys, clock);
    }
  }
}
