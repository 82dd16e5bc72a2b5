/** A short run in which a close marker with an explicit end keeps the session closed behind the layered map. */
module MarkerRuns {
  import opened Wrappers
  import opened BrainTypes
  import opened BranchChain
  import opened RowSelection
  import opened BrainReads
  import opened BrainWrites
  import opened BrainInvariant
  import opened FactHeads
  import opened BrainSteps
  import opened Bitemporal
  import opened LayeredModel
  import opened LayeredRuns

  const MARKER := SESSION_CLOSED_FACT_ID
  const ENDING := Claim(MARKER, "p", I64(1), "", None, Some("9"))
  const FRESH := Claim(MARKER, "p", I64(2), "", None, None)
  const REOPEN := RetractExact(MAIN_BRANCH, MARKER, "p", I64(2))

  /** A store on `main` alone that matches the layered map. */
  ghost predicate Ready(s: Store, l: Layered, facts: seq<Fact>, tx: TxId) {
    && Refines(s, l) && s.branches == [MAIN_ROW] && s.nextTx == tx < 10 && MAIN_BRANCH in l.path
    && s.facts == facts
    && (forall i :: 0 <= i < |facts| ==> WrittenOn(s, facts[i], MAIN_BRANCH))
  }

  /** A marker may be asserted whether or not the session is closed; rows with an explicit end stay as they are. */
  lemma MarkerRows(s: Store, facts: seq<Fact>, tx: TxId, claim: Claim, clock: Clock)
    requires s.branches == [MAIN_ROW] && s.nextTx == tx < 10 && s.facts == facts
    requires claim.factId == MARKER && claim.pred == "p"
    requires forall i :: 0 <= i < |facts| ==> facts[i].validTo.Some?
    ensures var (s', out) := AssertFact(s, MAIN_BRANCH, claim, clock);
            && out == Ok(tx) && s'.facts == facts + [FactOf(claim, tx, clock(tx))]
            && s'.branches == s.branches && s'.nextTx == tx + 1 && s'.txBranch == s.txBranch[tx := MAIN_BRANCH]
  {
    assert ValidPredicateName("p");
    assert LiveBranch(s.branches, MAIN_BRANCH) by {
      assert s.branches[0].branchId == MAIN_BRANCH;
    }
    hide LiveBranch, IsSessionClosed, ValidPredicateName;
    var a := AllocTx(s, MAIN_BRANCH, AssertFactAction, [claim.factId], clock).value;
    var f := FactOf(claim, tx, clock(tx));
    assert CloseOpenRows(a, MAIN_BRANCH, MARKER, tx, CloseAt(f.validFrom, f.createdAt)) == facts;
  }

  lemma AssertMarker(s: Store, l: Layered, facts: seq<Fact>, tx: TxId, claim: Claim, clock: Clock)
    requires Ready(s, l, facts, tx) && tx < 9 && claim.factId == MARKER && claim.pred == "p"
    requires forall i :: 0 <= i < |facts| ==> facts[i].validTo.Some? && facts[i].createdByTx < tx
    ensures var s' := AssertFact(s, MAIN_BRANCH, claim, clock).0;
            var l' := LayeredStep(l, Assert(MAIN_BRANCH, claim), tx, clock(tx));
            Ready(s', l', facts + [FactOf(claim, tx, clock(tx))], tx + 1)
  {
    hide Refines, AssertFact, Inv;
    MarkerRows(s, facts, tx, claim, clock);
    StepRefines(s, l, Assert(MAIN_BRANCH, claim), clock);
  }

  function BothRows(clock: Clock): seq<Fact> {
    [FactOf(ENDING, 1, clock(1)), FactOf(FRESH, 2, clock(2))]
  }

  function BothCells(clock: Clock): Layered {
    LayeredStep(LayeredStep(EMPTY, Assert(MAIN_BRANCH, ENDING), 1, clock(1)), Assert(MAIN_BRANCH, FRESH), 2, clock(2))
  }

  lemma BothAsserted(clock: Clock)
    ensures var s := Step(Step(NewStore(), Assert(MAIN_BRANCH, ENDING), clock).0, Assert(MAIN_BRANCH, FRESH), clock).0;
            Ready(s, BothCells(clock), BothRows(clock), 3)
  {
    NewStoreRefines();
    hide Refines, AssertFact, LayeredStep;
    AssertMarker(NewStore(), EMPTY, [], 1, ENDING, clock);
    var s := AssertFact(NewStore(), MAIN_BRANCH, ENDING, clock).0;
    assert [] + [FactOf(ENDING, 1, clock(1))] == [FactOf(ENDING, 1, clock(1))];
    var l := LayeredStep(EMPTY, Assert(MAIN_BRANCH, ENDING), 1, clock(1));
    AssertMarker(s, l, [FactOf(ENDING, 1, clock(1))], 2, FRESH, clock);
    assert [FactOf(ENDING, 1, clock(1))] + [FactOf(FRESH, 2, clock(2))] == BothRows(clock);
  }

  lemma BothShown(clock: Clock)
    ensures View(BothCells(clock), MAIN_BRANCH, MARKER) == Some(FactOf(FRESH, 2, clock(2)))
    ensures !Closed(LayeredStep(BothCells(clock), REOPEN, 3, clock(3)))
  {
  }

  lemma ReopenGoesThrough(s: Store, clock: Clock)
    requires Ready(s, BothCells(clock), BothRows(clock), 3)
    ensures RetractFactExact(s, MAIN_BRANCH, MARKER, "p", I64(2), clock).1.Ok?
  {
    BothShown(clock);
    MainMayRetract(s);
    hide Refines, FactsOnBranch, View, BothCells, AllocTx;
    RetractExactRefusedIff(s, BothCells(clock), MAIN_BRANCH, MARKER, "p", I64(2), clock);
  }

  /** The exact retraction hits the newer row alone. */
  lemma EndingRowStays(s: Store, clock: Clock)
    requires Ready(s, BothCells(clock), BothRows(clock), 3)
    ensures var (s', out) := RetractFactExact(s, MAIN_BRANCH, MARKER, "p", I64(2), clock);
            out.Ok? && |s'.facts| >= 2 && s'.facts[0] == FactOf(ENDING, 1, clock(1))
  {
    ReopenGoesThrough(s, clock);
    assert Inv(s);
    hide Refines, Inv, BothCells, RetractFactExact;
    RetractionEffect(s, REOPEN, clock, 0);
  }

  lemma MainMayRetract(s: Store)
    requires s.branches == [MAIN_ROW] && s.nextTx < 10
    ensures KnownBranch(s.branches, MAIN_BRANCH)
    ensures forall clock: Clock :: AllocTx(s, MAIN_BRANCH, RetractFactAction, [MARKER], clock).Ok?
  {
    assert s.branches[0].branchId == MAIN_BRANCH;
    assert LiveBranch(s.branches, MAIN_BRANCH);
  }

  /** After `closed_at` was asserted with an end, asserted again and the newer one retracted exactly, the store is
      closed and the layered map is not. */
  lemma EndingMarkerDiffers(clock: Clock)
    ensures var ops := [Assert(MAIN_BRANCH, ENDING), Assert(MAIN_BRANCH, FRESH), REOPEN];
            IsSessionClosed(Run(NewStore(), ops, clock).facts) && !Closed(OwnRun(EMPTY, 1, ops, clock))
  {
    hide Step, Run, OwnRun, LayeredStep, View, BothCells, IsSessionClosed;
    BothAsserted(clock);
    BothShown(clock);
    var s := Step(Step(NewStore(), Assert(MAIN_BRANCH, ENDING), clock).0, Assert(MAIN_BRANCH, FRESH), clock).0;
    EndingRowStays(s, clock);
    hide Ready, Closed, BothRows;
    ThreeCalls(clock);
    OwnThreeCalls(clock);
    StillClosed(s, clock);
  }

  lemma StillClosed(s: Store, clock: Clock)
    requires var (s', out) := RetractFactExact(s, MAIN_BRANCH, MARKER, "p", I64(2), clock);
             |s'.facts| >= 2 && s'.facts[0] == FactOf(ENDING, 1, clock(1))
    ensures IsSessionClosed(Step(s, REOPEN, clock).0.facts)
  {
    hide RetractFactExact;
    assert Step(s, REOPEN, clock).0.facts[0].Unstamped();
  }

  lemma ThreeCalls(clock: Clock)
    ensures var ops := [Assert(MAIN_BRANCH, ENDING), Assert(MAIN_BRANCH, FRESH), REOPEN];
            var s1 := Step(NewStore(), ops[0], clock).0;
            Run(NewStore(), ops, clock) == Step(Step(s1, ops[1], clock).0, REOPEN, clock).0
  {
    hide Step;
    var ops := [Assert(MAIN_BRANCH, ENDING), Assert(MAIN_BRANCH, FRESH), REOPEN];
    assert ops[1..] == [Assert(MAIN_BRANCH, FRESH), REOPEN] && ops[1..][1..] == [REOPEN] && [REOPEN][1..] == [];
    var s2 := Step(Step(NewStore(), ops[0], clock).0, ops[1], clock).0;
    assert Run(s2, [REOPEN], clock) == Step(s2, REOPEN, clock).0;
  }

  lemma OwnStarts(l: Layered, tx: TxId, op: Op, rest: seq<Op>, clock: Clock)
    requires IsLayeredOp(op) && (forall x :: x in rest ==> IsLayeredOp(x)) && Accepts(l, op)
    ensures OwnRun(l, tx, [op] + rest, clock) == OwnRun(LayeredStep(l, op, tx, clock(tx)), tx + 1, rest, clock)
  {
    hide Accepts, LayeredStep;
    assert ([op] + rest)[0] == op && ([op] + rest)[1..] == rest;
  }

  lemma OwnThreeCalls(clock: Clock)
    ensures var ops := [Assert(MAIN_BRANCH, ENDING), Assert(MAIN_BRANCH, FRESH), REOPEN];
            OwnRun(EMPTY, 1, ops, clock) == LayeredStep(BothCells(clock), REOPEN, 3, clock(3))
  {
    assert ValidPredicateName("p");
    hide ValidPredicateName, View, Closed, OwnRun;
    BothShown(clock);
    var one, two := Assert(MAIN_BRANCH, ENDING), Assert(MAIN_BRANCH, FRESH);
    NothingClosed();
    var l1 := LayeredStep(EMPTY, one, 1, clock(1));
    OwnStarts(EMPTY, 1, one, [two, REOPEN], clock);
    OwnStarts(l1, 2, two, [REOPEN], clock);
    OwnStarts(BothCells(clock), 3, REOPEN, [], clock);
    NothingLeft(LayeredStep(BothCells(clock), REOPEN, 3, clock(3)), 4, clock);
    assert [one] + [two, REOPEN] == [one, two, REOPEN];
    assert [two] + [REOPEN] == [two, REOPEN] && [REOPEN] + [] == [REOPEN];
  }

  lemma NothingLeft(l: Layered, tx: TxId, clock: Clock)
    ensures OwnRun(l, tx, [], clock) == l
  {
  }

  lemma NothingClosed()
    ensures !Closed(EMPTY)
  {
  }
}
