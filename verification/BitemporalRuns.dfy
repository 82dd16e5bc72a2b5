/** Short runs in which a retraction changes a past bitemporal answer, or might have. */
module BitemporalRuns {
  import opened Wrappers
  import opened BrainTypes
  import opened BranchChain
  import opened RowSelection
  import opened BrainReads
  import opened BrainWrites
  import opened BrainInvariant
  import opened FactHeads
  import opened BrainSteps
  import opened TimeTravel
  import opened Bitemporal
  import opened ExactRetraction
  import Text

  /** Everything happens within one second. */
  const ONE_SECOND: Clock := (_: TxId) => "1"

  const ENDED := Claim("f", "p", I64(1), "", None, Some("2"))
  const PLAIN := Claim("f", "p", I64(1), "", None, None)
  const LATER := Claim("f", "p", I64(1), "", Some("3"), None)

  const RETRACT := Retract(MAIN_BRANCH, "f")
  const RETRACT_EXACT := RetractExact(MAIN_BRANCH, "f", "p", I64(1))

  /** An open, unbranched store in which the newest version of `f`, row `i`, is live. */
  ghost predicate Ready(s: Store, i: nat) {
    && Inv(s) && s.branches == [MAIN_ROW] && s.nextTx < 10
    && (forall k :: 0 <= k < |s.facts| ==> s.facts[k].factId == "f")
    && Local(s, MAIN_BRANCH, "f") == Some(i) && i < |s.facts| && s.facts[i].revokedByTx.None?
  }

  lemma MainChain()
    ensures Ancestors([MAIN_ROW], MAIN_BRANCH) == [MAIN_BRANCH]
  {
    assert FirstRow([MAIN_ROW], MAIN_BRANCH) == 0;
  }

  lemma HeadIsLive(s: Store, i: nat)
    requires Ready(s, i)
    ensures LiveRow(s, MAIN_BRANCH, "f") == Some(i)
    ensures exists r :: r in FactsOnBranch(s, MAIN_BRANCH) && r.row == i && r.id == "f"
  {
    MainChain();
    var chain := Ancestors(s.branches, MAIN_BRANCH);
    assert chain == [MAIN_BRANCH] && Nearest(s, chain, "f") == Some(i);
    assert LiveRow(s, MAIN_BRANCH, "f") == Some(i);
    hide FactsOnBranch, Inv, LiveRow, Nearest, Local, Ancestors;
    ViewIsLiveRows(s, MAIN_BRANCH);
    var r := RefTo(s, chain, i);
    assert r in FactsOnBranch(s, MAIN_BRANCH) && r.row == i && r.id == "f";
  }

  lemma MayRetract(s: Store, i: nat)
    requires Ready(s, i)
    ensures RetractFact(s, MAIN_BRANCH, "f", ONE_SECOND).1.Ok?
    ensures s.facts[i].pred == "p" && s.facts[i].value == I64(1) ==>
              RetractFactExact(s, MAIN_BRANCH, "f", "p", I64(1), ONE_SECOND).1.Ok?
  {
    HeadIsLive(s, i);
    var r :| r in FactsOnBranch(s, MAIN_BRANCH) && r.row == i && r.id == "f";
    assert s.facts[r.row].factId == "f";
    MainIsOpen(s, RetractFactAction);
    hide FactsOnBranch, Inv, AllocTx, Local;
  }

  lemma MainIsOpen(s: Store, action: TxAction)
    requires s.branches == [MAIN_ROW] && s.nextTx < 10
    requires forall k :: 0 <= k < |s.facts| ==> s.facts[k].factId == "f"
    ensures AllocTx(s, MAIN_BRANCH, action, ["f"], ONE_SECOND).Ok?
  {
    assert !IsSessionClosed(s.facts);
    assert s.branches[0].branchId == MAIN_BRANCH && LiveBranch(s.branches, MAIN_BRANCH);
  }

  lemma FirstAssertion(claim: Claim)
    requires claim.factId == "f" && claim.pred == "p"
    ensures var (s, out) := AssertFact(NewStore(), MAIN_BRANCH, claim, ONE_SECOND);
            && out.Ok? && Ready(s, 0)
            && s.facts == [FactOf(claim, 1, "1")] && s.nextTx == 2
            && s.txBranch == map[1 := MAIN_BRANCH]
  {
    var s0 := NewStore();
    MainIsOpen(s0, AssertFactAction);
    assert ValidPredicateName("p");
    NewStoreOk();
    AssertStep(s0, MAIN_BRANCH, claim, ONE_SECOND);
    hide Inv, Extends, LiveBranch, IsSessionClosed, ValidPredicateName;
    var s := AssertFact(s0, MAIN_BRANCH, claim, ONE_SECOND).0;
    assert s.facts == [FactOf(claim, 1, "1")];
    assert IsVersion(s, MAIN_BRANCH, "f", 0);
  }

  lemma OneStep(s: Store, op: Op)
    ensures Run(s, [op], ONE_SECOND) == Step(s, op, ONE_SECOND).0
  {
  }

  lemma OneMoreStep(s: Store, ops: seq<Op>, op: Op)
    ensures Run(s, ops + [op], ONE_SECOND) == Step(Run(s, ops, ONE_SECOND), op, ONE_SECOND).0
  {
    RunConcat(s, ops, [op], ONE_SECOND);
    OneStep(Run(s, ops, ONE_SECOND), op);
  }

  /** Assert `f` with the explicit end "2" and retract it: as of the assertion, `f` was not valid at "2", and
      after the retraction it was. */
  lemma OverwrittenEndRun()
    ensures var s := Run(NewStore(), [Assert(MAIN_BRANCH, ENDED)], ONE_SECOND);
            var s' := Run(NewStore(), [Assert(MAIN_BRANCH, ENDED)] + [RETRACT], ONE_SECOND);
            1 in s.txBranch && FactsBitemporal(s', 1, "2") != FactsBitemporal(s, 1, "2")
  {
    var s := AssertFact(NewStore(), MAIN_BRANCH, ENDED, ONE_SECOND).0;
    OneStep(NewStore(), Assert(MAIN_BRANCH, ENDED));
    OneMoreStep(NewStore(), [Assert(MAIN_BRANCH, ENDED)], RETRACT);
    FirstAssertion(ENDED);
    MayRetract(s, 0);
    assert LaterOf("1", "2") == "2";
    assert WrittenOn(s, s.facts[0], MAIN_BRANCH);
    hide Ready, AssertFact, RetractFact, FactsBitemporal, Run;
    assert Inv(s) by {
      FirstAssertion(ENDED);
    }
    OverwrittenEndShows(s, RETRACT, ONE_SECOND, 0);
  }

  // ----- Exact retraction within the second -----

  /** `f` asserted twice in one second, the second time by `second`. */
  ghost predicate AssertedTwice(s: Store, second: Claim) {
    && Ready(s, 1) && s.nextTx == 3 && s.txBranch == map[1 := MAIN_BRANCH, 2 := MAIN_BRANCH]
    && s.facts == [FactOf(PLAIN, 1, "1").(supersededByTx := Some(2), validTo := Some("1")), FactOf(second, 2, "1")]
  }

  lemma SecondAssertion(s: Store, second: Claim)
    requires second == PLAIN || second == LATER
    requires Ready(s, 0) && s.facts == [FactOf(PLAIN, 1, "1")] && s.nextTx == 2 && s.txBranch == map[1 := MAIN_BRANCH]
    ensures AssertedTwice(AssertFact(s, MAIN_BRANCH, second, ONE_SECOND).0, second)
  {
    MainIsOpen(s, AssertFactAction);
    assert ValidPredicateName("p");
    AssertStep(s, MAIN_BRANCH, second, ONE_SECOND);
    hide Inv, Extends, LiveBranch, IsSessionClosed, ValidPredicateName;
    var s' := AssertFact(s, MAIN_BRANCH, second, ONE_SECOND).0;
    assert CloseAt("3", "1") == "1" && CloseAt("1", "1") == "1";
    assert s'.facts[0] == FactOf(PLAIN, 1, "1").(supersededByTx := Some(2), validTo := Some("1"));
    assert s'.facts[1] == FactOf(second, 2, "1");
    assert IsVersion(s', MAIN_BRANCH, "f", 1);
  }

  const OWN := RowRef(0, "f", 0, 1)

  /** Before the retraction the first row reads closed at "1". */
  lemma NotShownBefore(s: Store)
    requires AssertedTwice(s, LATER)
    ensures OWN !in FactsBitemporal(s, 2, "2")
  {
    var chain := Ancestors(s.branches, MAIN_BRANCH);
    var live := Ids(LiveFacts(s, MAIN_BRANCH, 2));
    hide Inv, LiveFacts, Ancestors, NewestRows, Local;
    NotKept(s, BitemporalKeys(s, live, chain, 2, "2"), chain, 2, OWN);
  }

  lemma StillLiveThen(s: Store, s': Store)
    requires AssertedTwice(s, LATER) && Later(s, s')
    ensures "f" in Ids(LiveFacts(s', MAIN_BRANCH, 2)) && Ancestors(s'.branches, MAIN_BRANCH) == [MAIN_BRANCH]
  {
    MainChain();
    HeadIsLive(s, 1);
    hide FactsOnBranch, LiveFacts, Ancestors;
    SameChainOfTx(s, s', 2);
    LatestIsNow(s, MAIN_BRANCH);
    FactsAsOfStable(s, s', 2);
    var r :| r in FactsOnBranch(s, MAIN_BRANCH) && r.row == 1 && r.id == "f";
    assert r in LiveFacts(s', MAIN_BRANCH, 2);
  }

  /** What decides the answer afterwards. */
  ghost predicate Reopened(s: Store) {
    && Inv(s) && |s.facts| == 2 && |s.branches| == 1
    && 1 in s.txBranch && s.txBranch[1] == MAIN_BRANCH && 2 in s.txBranch && s.txBranch[2] == MAIN_BRANCH
    && s.facts[0].factId == "f" && s.facts[0].createdByTx == 1 && s.facts[0].validFrom == "1"
    && s.facts[0].revokedByTx == Some(3) && ValidToAsOf(s, s.facts[0], 2).None?
    && s.facts[1].factId == "f" && s.facts[1].validFrom == "3"
  }

  lemma ShownAfter(s: Store)
    requires Reopened(s) && "f" in Ids(LiveFacts(s, MAIN_BRANCH, 2))
    requires Ancestors(s.branches, MAIN_BRANCH) == [MAIN_BRANCH]
    ensures OWN in FactsBitemporal(s, 2, "2")
  {
    var chain := [MAIN_BRANCH];
    var live := Ids(LiveFacts(s, MAIN_BRANCH, 2));
    var keys := BitemporalKeys(s, live, chain, 2, "2");
    assert Rising(s);
    hide Inv, LiveFacts, Ancestors, NewestRows, ValidToAsOf;
    assert keys[0] == Key("f", 1, true) && !keys[1].keep;
    NewestRowsSelects(s.txBranch, keys, chain, 2);
    assert Denotes(s.txBranch, keys, chain, 2, OWN);
    assert IsHead(s.txBranch, keys, chain, 2, OWN);
  }

  lemma ExactRetractionReopens(s: Store)
    requires AssertedTwice(s, LATER)
    ensures var s' := RetractFactExact(s, MAIN_BRANCH, "f", "p", I64(1), ONE_SECOND).0;
            Reopened(s') && Later(s, s')
  {
    MayRetract(s, 1);
    TargetsOfExact(s);
    ExactAddsNothing(s);
    hide RetractFactExact, AssertedTwice, Inv, RetractsLocally, Targeted, ValidToAsOf;
    StepEffect(s, RETRACT_EXACT, ONE_SECOND);
    ExtendingIsLater(s, Step(s, RETRACT_EXACT, ONE_SECOND).0, MAIN_BRANCH);
    StampedReadsOpen(s, RETRACT_EXACT, ONE_SECOND, 0);
    RetractionEffect(s, RETRACT_EXACT, ONE_SECOND, 0);
    RetractionEffect(s, RETRACT_EXACT, ONE_SECOND, 1);
    RowsReopened(s, Step(s, RETRACT_EXACT, ONE_SECOND).0);
  }

  lemma TargetsOfExact(s: Store)
    requires AssertedTwice(s, LATER)
    ensures Inv(s) && |s.facts| == 2 && s.nextTx == 3 && s.facts[0].createdByTx == 1
    ensures s.facts[0].validTo == Some("1")
    ensures RetractsLocally(s, RETRACT_EXACT) && Targeted(s, RETRACT_EXACT, 0) && Targeted(s, RETRACT_EXACT, 1)
  {
    hide Inv, Local;
    assert WrittenOn(s, s.facts[0], MAIN_BRANCH) && WrittenOn(s, s.facts[1], MAIN_BRANCH);
  }

  lemma RowsReopened(s: Store, s': Store)
    requires AssertedTwice(s, LATER) && Inv(s') && Extends(s, s', MAIN_BRANCH)
    requires |s'.facts| == 2 && s'.branches == s.branches
    requires RowAfterRetraction(s, s', RETRACT_EXACT, ONE_SECOND, 0) && ValidToAsOf(s', s'.facts[0], 2).None?
    requires RowAfterRetraction(s, s', RETRACT_EXACT, ONE_SECOND, 1)
    ensures Reopened(s')
  {
    TargetsOfExact(s);
    hide Inv, ValidToAsOf, RetractsLocally, Targeted;
  }

  lemma ExactAddsNothing(s: Store)
    requires AssertedTwice(s, LATER) && RetractFactExact(s, MAIN_BRANCH, "f", "p", I64(1), ONE_SECOND).1.Ok?
    ensures var s' := RetractFactExact(s, MAIN_BRANCH, "f", "p", I64(1), ONE_SECOND).0;
            |s'.facts| == 2 && s'.branches == s.branches
  {
    assert WrittenOn(s, s.facts[0], MAIN_BRANCH) && WrittenOn(s, s.facts[1], MAIN_BRANCH);
    hide FactsOnBranch, Inv;
  }

  /** Assert `f` twice within one second, the second time from "3" on, and retract it exactly: as of the second
      assertion `f` was not valid at "2", and after the retraction the first row is. */
  lemma ExactRetractionRun()
    ensures var ops := [Assert(MAIN_BRANCH, PLAIN)] + [Assert(MAIN_BRANCH, LATER)];
            var s, s' := Run(NewStore(), ops, ONE_SECOND), Run(NewStore(), ops + [RETRACT_EXACT], ONE_SECOND);
            2 in s.txBranch && FactsBitemporal(s', 2, "2") != FactsBitemporal(s, 2, "2")
  {
    hide Ready, AssertFact, RetractFactExact, FactsBitemporal, Run, LiveFacts, Ancestors, Reopened;
    var first := [Assert(MAIN_BRANCH, PLAIN)];
    OneStep(NewStore(), Assert(MAIN_BRANCH, PLAIN));
    OneMoreStep(NewStore(), first, Assert(MAIN_BRANCH, LATER));
    OneMoreStep(NewStore(), first + [Assert(MAIN_BRANCH, LATER)], RETRACT_EXACT);
    FirstAssertion(PLAIN);
    var s1 := AssertFact(NewStore(), MAIN_BRANCH, PLAIN, ONE_SECOND).0;
    SecondAssertion(s1, LATER);
    ExactRetractionShows(AssertFact(s1, MAIN_BRANCH, LATER, ONE_SECOND).0);
  }

  lemma ExactRetractionShows(s: Store)
    requires AssertedTwice(s, LATER)
    ensures var s' := RetractFactExact(s, MAIN_BRANCH, "f", "p", I64(1), ONE_SECOND).0;
            2 in s.txBranch && FactsBitemporal(s', 2, "2") != FactsBitemporal(s, 2, "2")
  {
    hide Ready, RetractFactExact, FactsBitemporal, LiveFacts, Ancestors, Reopened;
    ExactRetractionReopens(s);
    var s' := RetractFactExact(s, MAIN_BRANCH, "f", "p", I64(1), ONE_SECOND).0;
    NotShownBefore(s);
    StillLiveThen(s, s');
    ShownAfter(s');
  }

  // ----- Exact retraction that meets its own time and changes nothing -----

  /** The second assertion holds whenever the first one reopens, and is newer. */
  lemma SecondCovers(s: Store, t: TxId, ts: Time)
    requires AssertedTwice(s, PLAIN) && t in s.txBranch
    ensures !Uncovered(s, RETRACT_EXACT, ONE_SECOND, 0, t, ts)
  {
    MainChain();
    hide Inv, LiveFacts, Ancestors, Local;
    if Reopens(s, RETRACT_EXACT, ONE_SECOND, 0, t, ts) {
      assert ChainOf(s, t) == [MAIN_BRANCH] && t == 2;
      assert IsEligible(s.txBranch, AnswerKeys(s, t, ts)[1], ChainOf(s, t), t);
      assert !Precedes(RefTo(s, ChainOf(s, t), 0), RefTo(s, ChainOf(s, t), 1));
    }
  }

  /** Assert `f` twice alike within one second and retract it exactly: the first row reads open afterwards, and
      every past answer stays the same. */
  lemma CoveredRetraction(s: Store)
    requires AssertedTwice(s, PLAIN)
    ensures !CloseSafe(s, RETRACT_EXACT, ONE_SECOND) && KeepsAnswers(s, RETRACT_EXACT, ONE_SECOND)
    ensures var s' := RetractFactExact(s, MAIN_BRANCH, "f", "p", I64(1), ONE_SECOND).0;
            forall t: TxId, ts: Time :: t in s.txBranch ==> FactsBitemporal(s', t, ts) == FactsBitemporal(s, t, ts)
  {
    hide Inv, Local, FactsBitemporal, Uncovered, LiveFacts;
    MayRetract(s, 1);
    assert WrittenOn(s, s.facts[0], MAIN_BRANCH) && Targeted(s, RETRACT_EXACT, 0);
    forall i, t, ts | 0 <= i < |s.facts| && t in s.txBranch
      ensures !Uncovered(s, RETRACT_EXACT, ONE_SECOND, i, t, ts)
    {
      if i == 0 {
        SecondCovers(s, t, ts);
      } else {
        OpenIsNoOwnTime(s, i, t, ts);
      }
    }
    hide AssertedTwice, RetractFactExact, CloseSafe;
    ExactKeepsAnswersIff(s, RETRACT_EXACT, ONE_SECOND);
  }

  lemma OpenIsNoOwnTime(s: Store, i: nat, t: TxId, ts: Time)
    requires i < |s.facts| && s.facts[i].validTo.None?
    ensures !Uncovered(s, RETRACT_EXACT, ONE_SECOND, i, t, ts)
  {
  }

  lemma CoveredRun()
    ensures var ops := [Assert(MAIN_BRANCH, PLAIN)] + [Assert(MAIN_BRANCH, PLAIN)];
            var s, s' := Run(NewStore(), ops, ONE_SECOND), Run(NewStore(), ops + [RETRACT_EXACT], ONE_SECOND);
            && !CloseSafe(s, RETRACT_EXACT, ONE_SECOND)
            && forall t: TxId, ts: Time :: t in s.txBranch ==> FactsBitemporal(s', t, ts) == FactsBitemporal(s, t, ts)
  {
    hide Ready, AssertFact, RetractFactExact, FactsBitemporal, Run, CloseSafe, KeepsAnswers, AssertedTwice;
    var first := [Assert(MAIN_BRANCH, PLAIN)];
    OneStep(NewStore(), Assert(MAIN_BRANCH, PLAIN));
    OneMoreStep(NewStore(), first, Assert(MAIN_BRANCH, PLAIN));
    OneMoreStep(NewStore(), first + [Assert(MAIN_BRANCH, PLAIN)], RETRACT_EXACT);
    FirstAssertion(PLAIN);
    var s1 := AssertFact(NewStore(), MAIN_BRANCH, PLAIN, ONE_SECOND).0;
    SecondAssertion(s1, PLAIN);
    CoveredRetraction(AssertFact(s1, MAIN_BRANCH, PLAIN, ONE_SECOND).0);
  }
}
