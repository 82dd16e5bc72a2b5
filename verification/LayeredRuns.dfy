/** The layered map run by itself. It decides which calls are refused, for want of a branch or a fact or because
    the session is closed, and still shows what the fact store shows. */
module LayeredRuns {
  import opened Wrappers
  import opened BrainTypes
  import opened BranchChain
  import opened RowSelection
  import opened BrainReads
  import opened BrainWrites
  import opened BrainInvariant
  import opened FactHeads
  import opened BrainSteps
  import opened ChainEffects
  import opened Bitemporal
  import opened LayeredModel

  /** The calls the layered map is about. */
  predicate IsLayeredOp(op: Op) {
    op.Assert? || op.Retract? || op.RetractExact? || op.Create?
  }

  // ----- The session-close marker -----

  /** Some branch's cell for the close marker is live. */
  predicate Closed(l: Layered) {
    exists k :: k in l.cells && k.1 == SESSION_CLOSED_FACT_ID && l.cells[k].Live?
  }

  /** No row of the close marker is open with an explicit end. */
  ghost predicate MarkersPlain(s: Store) {
    forall i :: 0 <= i < |s.facts| && s.facts[i].factId == SESSION_CLOSED_FACT_ID && s.facts[i].Unstamped() ==>
      s.facts[i].validTo.None?
  }

  /** The call does not assert the close marker with an explicit end. */
  predicate PlainMarker(op: Op) {
    op.Assert? && op.claim.factId == SESSION_CLOSED_FACT_ID ==> op.claim.validTo.None?
  }

  /** An open marker row is the newest version on its branch, so its cell is live. */
  lemma ClosedShows(s: Store, l: Layered)
    requires Refines(s, l) && MarkersPlain(s) && IsSessionClosed(s.facts)
    ensures Closed(l)
  {
    var i :| 0 <= i < |s.facts| && s.facts[i].factId == SESSION_CLOSED_FACT_ID && s.facts[i].Unstamped();
    var b := WriterOf(s, i);
    OpenIsLocal(s, b, i);
    assert CellMatches(s, l, b, SESSION_CLOSED_FACT_ID);
    assert (b, SESSION_CLOSED_FACT_ID) in l.cells && l.cells[(b, SESSION_CLOSED_FACT_ID)].Live?;
  }

  lemma WriterOf(s: Store, i: nat) returns (b: string)
    requires Inv(s) && i < |s.facts|
    ensures WrittenOn(s, s.facts[i], b)
  {
    assert RowOk(s, i);
    b := s.txBranch[s.facts[i].createdByTx];
  }

  lemma OpenIsLocal(s: Store, b: string, i: nat)
    requires Inv(s) && i < |s.facts| && s.facts[i].OpenEnded() && WrittenOn(s, s.facts[i], b)
    ensures Local(s, b, s.facts[i].factId) == Some(i)
  {
    assert OpenIsNewest(s, i) && IsVersion(s, b, s.facts[i].factId, i);
    hide Inv;
    forall j | i < j < |s.facts|
      ensures !IsVersion(s, b, s.facts[i].factId, j)
    {
      assert !SameChain(s, i, j);
    }
  }

  lemma ShownIsClosed(s: Store, l: Layered)
    requires Refines(s, l) && Closed(l)
    ensures IsSessionClosed(s.facts)
  {
    var k :| k in l.cells && k.1 == SESSION_CLOSED_FACT_ID && l.cells[k].Live?;
    assert CellMatches(s, l, k.0, k.1) && k == (k.0, k.1);
    NewestIsUnsuperseded(s, k.0, k.1);
  }

  /** The session is closed in the store exactly when it is in the layered map. */
  lemma ClosedIff(s: Store, l: Layered)
    requires Refines(s, l) && MarkersPlain(s)
    ensures IsSessionClosed(s.facts) <==> Closed(l)
  {
    hide Refines, MarkersPlain, IsSessionClosed, Closed;
    if IsSessionClosed(s.facts) {
      ClosedShows(s, l);
    }
    if Closed(l) {
      ShownIsClosed(s, l);
    }
  }

  /** A row keeps its id in a step. */
  lemma SameId(s: Store, s': Store, branch: string, i: nat)
    requires Extends(s, s', branch) && i < |s.facts|
    ensures s'.facts[i].factId == s.facts[i].factId
  {
  }

  lemma MarkersStayPlain(s: Store, op: Op, clock: Clock)
    requires Inv(s) && MarkersPlain(s) && IsLayeredOp(op) && PlainMarker(op)
    ensures MarkersPlain(Step(s, op, clock).0)
  {
    hide Inv, Step, Extends, ChangesChain;
    var (s', out) := Step(s, op, clock);
    StepEffect(s, op, clock);
    if out.Ok? {
      forall i | 0 <= i < |s'.facts| && s'.facts[i].factId == SESSION_CLOSED_FACT_ID && s'.facts[i].Unstamped()
        ensures s'.facts[i].validTo.None?
      {
        MarkerRowAfter(s, op, clock, i);
      }
    }
  }

  lemma MarkerRowAfter(s: Store, op: Op, clock: Clock, i: nat)
    requires Inv(s) && IsLayeredOp(op) && PlainMarker(op) && Step(s, op, clock).1.Ok?
    requires var s' := Step(s, op, clock).0;
             i < |s'.facts| && s'.facts[i].factId == SESSION_CLOSED_FACT_ID && s'.facts[i].Unstamped()
    ensures var s' := Step(s, op, clock).0;
            s'.facts[i].validTo.None? || (i < |s.facts| && s'.facts[i] == s.facts[i])
  {
    hide Inv, Step, Extends, AssertFact;
    if op.Assert? && op.claim.factId != SESSION_CLOSED_FACT_ID {
      OtherRowAfter(s, op, clock, i);
    } else {
      UnstampedAfter(s, op, clock, i);
    }
  }

  lemma OtherRowAfter(s: Store, op: Op, clock: Clock, i: nat)
    requires Inv(s) && op.Assert? && Step(s, op, clock).1.Ok?
    requires var s' := Step(s, op, clock).0; i < |s'.facts| && s'.facts[i].factId != op.claim.factId
    ensures i < |s.facts| && Step(s, op, clock).0.facts[i] == s.facts[i]
  {
    hide Inv, AssertFact, Extends;
    AssertChangesChain(s, op.branch, op.claim, clock);
    StepEffect(s, op, clock);
    if i < |s.facts| {
      SameId(s, Step(s, op, clock).0, op.branch, i);
    }
  }

  // ----- Refusals -----

  /** What a call writes into the log as its reference. */
  function RefOf(op: Op): string
    requires IsLayeredOp(op)
  {
    if op.Assert? then op.claim.factId else op.id
  }

  /** Whether the layered map lets a call through. */
  predicate Accepts(l: Layered, op: Op)
    requires IsLayeredOp(op)
  {
    && op.branch in l.path
    && (Closed(l) ==> RefOf(op) == SESSION_CLOSED_FACT_ID)
    && match op
       case Assert(_, claim) => ValidPredicateName(claim.pred)
       case Retract(b, id) => View(l, b, id).Some?
       case RetractExact(b, id, pred, value) =>
         View(l, b, id).Some? && HoldsTuple(View(l, b, id).value, id, pred, value)
       case Create(_, id, _) => id !in l.path
  }

  /** With ids left, the store refuses exactly the calls the layered map refuses. */
  lemma AcceptedIff(s: Store, l: Layered, op: Op, clock: Clock)
    requires Refines(s, l) && MarkersPlain(s) && IsLayeredOp(op) && s.nextTx < TX_MAX
    ensures Step(s, op, clock).1.Ok? <==> Accepts(l, op)
  {
    hide Refines, View, FactsOnBranch, IsSessionClosed, LiveBranch, Closed, MarkersPlain;
    LiveIsPath(s, l, op.branch);
    ClosedIff(s, l);
    match op
    case Assert(_, _) =>
    case Retract(b, id) =>
      if b in l.path {
        FoundIffShown(s, l, b, id);
      }
    case RetractExact(b, id, pred, value) =>
      if b in l.path {
        TupleFoundIffShown(s, l, b, id, pred, value);
      }
    case Create(_, id, _) =>
      LiveIsPath(s, l, id);
  }

  // ----- Runs -----

  /** The layered map run by itself: it decides which calls happen, and counts them. */
  function OwnRun(l: Layered, tx: TxId, ops: seq<Op>, clock: Clock): Layered
    requires forall op :: op in ops ==> IsLayeredOp(op)
    decreases |ops|
  {
    if ops == [] then l
    else if Accepts(l, ops[0]) then OwnRun(LayeredStep(l, ops[0], tx, clock(tx)), tx + 1, ops[1..], clock)
    else OwnRun(l, tx, ops[1..], clock)
  }

  /** No branch is created deeper than the ancestor walk covers. */
  predicate OwnDepths(l: Layered, tx: TxId, ops: seq<Op>, clock: Clock)
    requires forall op :: op in ops ==> IsLayeredOp(op)
    decreases |ops|
  {
    if ops == [] then true
    else
      && (ops[0].Create? && ops[0].branch in l.path ==> |l.path[ops[0].branch]| < CHAIN_LIMIT)
      && if Accepts(l, ops[0]) then OwnDepths(LayeredStep(l, ops[0], tx, clock(tx)), tx + 1, ops[1..], clock)
         else OwnDepths(l, tx, ops[1..], clock)
  }

  lemma OwnStepRefines(s: Store, l: Layered, op: Op, clock: Clock)
    requires Refines(s, l) && MarkersPlain(s) && IsLayeredOp(op) && PlainMarker(op) && s.nextTx < TX_MAX
    requires op.Create? && op.branch in l.path ==> |l.path[op.branch]| < CHAIN_LIMIT
    ensures var s' := Step(s, op, clock).0;
            && MarkersPlain(s')
            && Refines(s', if Accepts(l, op) then LayeredStep(l, op, s.nextTx, clock(s.nextTx)) else l)
            && s'.nextTx == s.nextTx + (if Accepts(l, op) then 1 else 0)
  {
    assert Inv(s);
    hide Refines, Inv, Step, Accepts, MarkersPlain, LayeredStep, PlainMarker;
    AcceptedIff(s, l, op, clock);
    StepRefines(s, l, op, clock);
    StepEffect(s, op, clock);
    MarkersStayPlain(s, op, clock);
  }

  lemma {:induction false} OwnRunRefines(s: Store, l: Layered, ops: seq<Op>, clock: Clock)
    requires Refines(s, l) && MarkersPlain(s) && s.nextTx + |ops| <= TX_MAX
    requires forall op :: op in ops ==> IsLayeredOp(op) && PlainMarker(op)
    requires OwnDepths(l, s.nextTx, ops, clock)
    ensures Refines(Run(s, ops, clock), OwnRun(l, s.nextTx, ops, clock))
    decreases |ops|
  {
    hide Refines, MarkersPlain, Step, LayeredStep, Accepts, PlainMarker;
    if ops == [] {
    } else {
      OwnStepRefines(s, l, ops[0], clock);
      OwnRunRefines(Step(s, ops[0], clock).0,
                    if Accepts(l, ops[0]) then LayeredStep(l, ops[0], s.nextTx, clock(s.nextTx)) else l,
                    ops[1..], clock);
    }
  }

  /** Refinement in full: the layered map run by itself, deciding every refusal, shows on every branch exactly
      what the store shows after the same calls, as long as a close marker gets no explicit end and ids last. */
  lemma BrainRefinesOwnRun(ops: seq<Op>, clock: Clock, branch: string)
    requires forall op :: op in ops ==> IsLayeredOp(op) && PlainMarker(op)
    requires 1 + |ops| <= TX_MAX && OwnDepths(EMPTY, 1, ops, clock)
    requires KnownBranch(Run(NewStore(), ops, clock).branches, branch)
    ensures ShowsExactly(Run(NewStore(), ops, clock), OwnRun(EMPTY, 1, ops, clock), branch)
  {
    NewStoreRefines();
    assert MarkersPlain(NewStore());
    hide Refines, ShowsExactly, OwnRun, OwnDepths, Run;
    OwnRunRefines(NewStore(), EMPTY, ops, clock);
    RefinedViews(Run(NewStore(), ops, clock), OwnRun(EMPTY, 1, ops, clock), branch);
  }
}
