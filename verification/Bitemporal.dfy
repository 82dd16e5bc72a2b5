/** Valid time as known at a past transaction. Closing a row overwrites its end of validity in place;
    `valid_to_as_of` undoes that for earlier transactions, exactly when no explicit end was overwritten. */
module Bitemporal {
  import opened Wrappers
  import opened BrainTypes
  import opened BranchChain
  import opened RowSelection
  import opened BrainReads
  import opened BrainWrites
  import opened BrainInvariant
  import opened FactHeads
  import opened BrainSteps
  import opened TimeTravel
  import Text

  lemma {:induction false} TimeOfLogged(txs: seq<Tx>, tx: TxId, k: nat)
    requires forall i :: 0 <= i < |txs| ==> txs[i].txId == k + i
    ensures TimeOf(txs, tx) == if k <= tx < k + |txs| then Some(txs[tx - k].txTime) else None
  {
    if txs == [] {
    } else {
      TimeOfLogged(txs[1..], tx, k + 1);
    }
  }

  lemma LoggedTime(s: Store, tx: TxId)
    requires LogOk(s)
    ensures TimeOf(s.transactions, tx) == if tx in s.txBranch then Some(s.transactions[tx - 1].txTime) else None
  {
    TimeOfLogged(s.transactions, tx, 1);
  }

  /** At every transaction `t` that could see row `i` in `s`, its end of validity reads the same in `s'`. */
  ghost predicate SameReadings(s: Store, s': Store, i: nat)
    requires i < |s.facts| && i < |s'.facts|
  {
    forall t: TxId :: s.facts[i].createdByTx <= t < s.nextTx ==>
      ValidToAsOf(s', s'.facts[i], t) == ValidToAsOf(s, s.facts[i], t)
  }

  ghost predicate ReadingsKept(s: Store, s': Store)
    requires |s.facts| <= |s'.facts|
  {
    forall i :: 0 <= i < |s.facts| ==> SameReadings(s, s', i)
  }

  lemma SameLoggedTime(s: Store, s': Store, tx: TxId)
    requires LogOk(s) && LogOk(s') && s.transactions <= s'.transactions
    requires tx in s.txBranch
    ensures TimeOf(s'.transactions, tx) == TimeOf(s.transactions, tx)
  {
    LoggedTime(s, tx);
    LoggedTime(s', tx);
    assert s'.transactions[tx - 1] == s.transactions[tx - 1];
  }

  lemma UnchangedReadings(s: Store, s': Store, i: nat)
    requires LogOk(s) && LogOk(s') && s.transactions <= s'.transactions
    requires i < |s.facts| && RowOk(s, i)
    requires i < |s'.facts| && s'.facts[i] == s.facts[i]
    ensures SameReadings(s, s', i)
  {
    if s.facts[i].revokedByTx.Some? {
      SameLoggedTime(s, s', s.facts[i].revokedByTx.value);
    }
  }

  /** A supersede stamp on an open row reads open before it. */
  lemma SupersededReadings(s: Store, s': Store, branch: string, i: nat, closeAt: Time)
    requires Inv(s) && Inv(s') && Extends(s, s', branch)
    requires i < |s.facts| && s.facts[i].OpenEnded()
    requires s'.facts[i] == s.facts[i].(supersededByTx := Some(s.nextTx), validTo := Some(closeAt))
    ensures SameReadings(s, s', i)
  {
  }

  /** A retraction stamp by the step's transaction: the earlier readings survive exactly when the row was
      open, or keeps an end other than the retraction time. */
  lemma RevokedReadings(s: Store, s': Store, branch: string, i: nat)
    requires Inv(s) && Inv(s') && Extends(s, s', branch)
    requires i < |s.facts| && RevokedBy(s.facts[i], s'.facts[i], s.nextTx)
    requires s.facts[i].validTo.None? ==> s'.facts[i].validTo == Some(s'.transactions[s.nextTx - 1].txTime)
    ensures SameReadings(s, s', i)
            <==> || s.facts[i].validTo.None?
                 || (s'.facts[i].validTo == s.facts[i].validTo
                     && s.facts[i].validTo != Some(s'.transactions[s.nextTx - 1].txTime))
  {
    hide Inv, Extends, TimeOf, ValidToAsOf, RevokedBy, SameReadings;
    StepTimeLogged(s, s', branch);
    var f, f' := s.facts[i], s'.facts[i];
    var now := s'.transactions[s.nextTx - 1].txTime;
    var t := LastStamp(s, i);
    if f.validTo.None? || (f'.validTo == f.validTo && f.validTo != Some(now)) {
      forall u: TxId | f.createdByTx <= u < s.nextTx
        ensures ValidToAsOf(s', f', u) == ValidToAsOf(s, f, u)
      {
        RevokedReading(s, s', f, f', u, now);
      }
      SameAtAll(s, s', i);
    } else {
      RevokedReading(s, s', f, f', t, now);
      DifferentOnce(s, s', i, t);
    }
  }

  lemma StepTimeLogged(s: Store, s': Store, branch: string)
    requires Inv(s) && Inv(s') && Extends(s, s', branch)
    ensures |s.facts| <= |s'.facts| && |s'.transactions| == s.nextTx > 0
    ensures TimeOf(s'.transactions, s.nextTx) == Some(s'.transactions[s.nextTx - 1].txTime)
  {
    hide FactsOk, BeliefsOk, WellFormed;
    LoggedTime(s', s.nextTx);
  }

  lemma SameAtAll(s: Store, s': Store, i: nat)
    requires i < |s.facts| && i < |s'.facts|
    requires forall u: TxId :: s.facts[i].createdByTx <= u < s.nextTx ==>
               ValidToAsOf(s', s'.facts[i], u) == ValidToAsOf(s, s.facts[i], u)
    ensures SameReadings(s, s', i)
  {
  }

  lemma DifferentOnce(s: Store, s': Store, i: nat, t: TxId)
    requires i < |s.facts| && i < |s'.facts| && s.facts[i].createdByTx <= t < s.nextTx
    requires ValidToAsOf(s', s'.facts[i], t) != ValidToAsOf(s, s.facts[i], t)
    ensures !SameReadings(s, s', i)
  {
  }

  /** How the end of a row reads at `u` without and with the retraction stamp of a later transaction. */
  lemma RevokedReading(s: Store, s': Store, f: Fact, f': Fact, u: TxId, now: Time)
    requires RevokedBy(f, f', s.nextTx) && u < s.nextTx
    requires TimeOf(s'.transactions, s.nextTx) == Some(now)
    ensures var supersededLater := f.supersededByTx.Some? && f.supersededByTx.value > u;
            && ValidToAsOf(s, f, u) == (if supersededLater then None else f.validTo)
            && ValidToAsOf(s', f', u) == (if supersededLater || f'.validTo == Some(now) then None else f'.validTo)
            && f'.validTo.Some? && (f.supersededByTx.Some? ==> f'.validTo == f.validTo)
  {
  }

  /** The transaction that superseded the row, or else created it. */
  lemma LastStamp(s: Store, i: nat) returns (t: TxId)
    requires Inv(s) && i < |s.facts|
    ensures t == if s.facts[i].supersededByTx.Some? then s.facts[i].supersededByTx.value else s.facts[i].createdByTx
    ensures s.facts[i].createdByTx <= t < s.nextTx
  {
    var f := s.facts[i];
    assert RowOk(s, i) && SupersededByNext(s, i);
    t := if f.supersededByTx.Some? then f.supersededByTx.value else f.createdByTx;
    if f.supersededByTx.Some? {
      var j: nat :| ClosedByVersion(s, i, j);
      assert RowOk(s, j) && Rising(s);
    }
  }

  // ----- Which calls keep past readings -----

  /** The rows a retraction is about to stamp on its own branch. */
  predicate Targeted(s: Store, op: Op, i: nat)
    requires i < |s.facts| && (op.Retract? || op.RetractExact?)
  {
    && WrittenOn(s, s.facts[i], op.branch)
    && match op
       case Retract(_, id) => s.facts[i].factId == id && s.facts[i].Unstamped()
       case RetractExact(_, id, pred, value) => s.facts[i].revokedByTx.None? && HoldsTuple(s.facts[i], id, pred, value)
  }

  /** The branch of a retraction holds a version of the fact itself, so no tombstone is needed. */
  predicate RetractsLocally(s: Store, op: Op)
    requires op.Retract? || op.RetractExact?
  {
    Local(s, op.branch, op.id).Some?
  }

  /** Stamping row `i` would not change any past reading of it. */
  predicate SafeToStamp(s: Store, op: Op, clock: Clock, i: nat)
    requires i < |s.facts| && (op.Retract? || op.RetractExact?)
  {
    if op.Retract? then s.facts[i].validTo.None? else s.facts[i].validTo != Some(clock(s.nextTx))
  }

  /** The test a caller can make before a call: a local retraction must not overwrite an explicit end, and
      an exact one must not meet an end that happens to equal its own transaction time. */
  predicate CloseSafe(s: Store, op: Op, clock: Clock) {
    (op.Retract? || op.RetractExact?) && RetractsLocally(s, op) ==>
      forall i :: 0 <= i < |s.facts| && Targeted(s, op, i) ==> SafeToStamp(s, op, clock, i)
  }

  lemma AllocatedTime(s: Store, op: Op, clock: Clock)
    requires Inv(s) && Step(s, op, clock).1.Ok? && !op.ArchiveOp?
    ensures var s' := Step(s, op, clock).0;
            |s'.transactions| == s.nextTx && s'.transactions[s.nextTx - 1].txTime == clock(s.nextTx)
  {
    hide FactsOk, BeliefsOk, FactsOnBranch, BeliefsOnBranch;
  }

  lemma StepIsTimed(s: Store, op: Op, clock: Clock)
    requires Inv(s) && Step(s, op, clock).1.Ok? && !op.ArchiveOp?
    ensures TimeOf(Step(s, op, clock).0.transactions, s.nextTx) == Some(clock(s.nextTx))
  {
    StepEffect(s, op, clock);
    AllocatedTime(s, op, clock);
    LoggedTime(Step(s, op, clock).0, s.nextTx);
  }

  /** A retraction revokes and closes row `i` if it targets it on its own branch, and otherwise leaves it. */
  ghost predicate RowAfterRetraction(s: Store, s': Store, op: Op, clock: Clock, i: nat)
    requires (op.Retract? || op.RetractExact?) && i < |s.facts|
  {
    && |s.facts| <= |s'.facts|
    && (if RetractsLocally(s, op) && Targeted(s, op, i)
        then RevokedBy(s.facts[i], s'.facts[i], s.nextTx)
             && s'.facts[i].validTo == (if op.Retract? || s.facts[i].validTo.None? then Some(clock(s.nextTx))
                                        else s.facts[i].validTo)
        else s'.facts[i] == s.facts[i])
  }

  lemma RetractEffect(s: Store, b: string, id: string, clock: Clock, i: nat)
    requires Inv(s) && RetractFact(s, b, id, clock).1.Ok? && i < |s.facts|
    ensures RowAfterRetraction(s, RetractFact(s, b, id, clock).0, Retract(b, id), clock, i)
  {
    assert SupersededByNext(s, i);
    var r := FindFact(s, FactsOnBranch(s, b), id).value;
    FoundIsLive(s, b, r, id);
    WrittenOnBeforeAlloc(s, AllocTx(s, b, RetractFactAction, [id], clock).value, b);
  }

  lemma RetractExactEffect(s: Store, b: string, id: string, pred: string, value: FactValue, clock: Clock, i: nat)
    requires Inv(s) && RetractFactExact(s, b, id, pred, value, clock).1.Ok? && i < |s.facts|
    ensures RowAfterRetraction(
              s, RetractFactExact(s, b, id, pred, value, clock).0, RetractExact(b, id, pred, value), clock, i)
  {
    assert SupersededByNext(s, i);
    var r := FindTuple(s, FactsOnBranch(s, b), id, pred, value).value;
    FoundIsLive(s, b, r, id);
    WrittenOnBeforeAlloc(s, AllocTx(s, b, RetractFactAction, [id], clock).value, b);
  }

  /** What a successful retraction does to each row. */
  lemma RetractionEffect(s: Store, op: Op, clock: Clock, i: nat)
    requires Inv(s) && (op.Retract? || op.RetractExact?)
    requires Step(s, op, clock).1.Ok? && i < |s.facts|
    ensures RowAfterRetraction(s, Step(s, op, clock).0, op, clock, i)
  {
    hide RowAfterRetraction, Inv, RetractFact, RetractFactExact;
    match op {
      case Retract(b, id) => RetractEffect(s, b, id, clock, i);
      case RetractExact(b, id, pred, value) => RetractExactEffect(s, b, id, pred, value, clock, i);
    }
  }

  lemma RetractedRowReadings(s: Store, op: Op, clock: Clock, i: nat)
    requires Inv(s) && (op.Retract? || op.RetractExact?)
    requires Step(s, op, clock).1.Ok? && i < |s.facts|
    ensures var s' := Step(s, op, clock).0;
            && |s.facts| <= |s'.facts|
            && (SameReadings(s, s', i)
                <==> (RetractsLocally(s, op) && Targeted(s, op, i) ==> SafeToStamp(s, op, clock, i)))
  {
    var s' := Step(s, op, clock).0;
    StepEffect(s, op, clock);
    AllocatedTime(s, op, clock);
    RetractionEffect(s, op, clock, i);
    if RetractsLocally(s, op) && Targeted(s, op, i) {
      RevokedReadings(s, s', op.branch, i);
    } else {
      assert RowOk(s, i);
      UnchangedReadings(s, s', i);
    }
  }

  /** A successful retraction keeps every past reading of every row if and only if it is close-safe. */
  lemma RetractionKeepsReadingsIff(s: Store, op: Op, clock: Clock)
    requires Inv(s) && (op.Retract? || op.RetractExact?)
    requires Step(s, op, clock).1.Ok?
    ensures var s' := Step(s, op, clock).0;
            |s.facts| <= |s'.facts| && (ReadingsKept(s, s') <==> CloseSafe(s, op, clock))
  {
    var s' := Step(s, op, clock).0;
    StepEffect(s, op, clock);
    forall i | 0 <= i < |s.facts|
      ensures SameReadings(s, s', i)
              <==> (RetractsLocally(s, op) && Targeted(s, op, i) ==> SafeToStamp(s, op, clock, i))
    {
      RetractedRowReadings(s, op, clock, i);
    }
  }

  lemma AssertKeepsReadings(s: Store, branch: string, claim: Claim, clock: Clock)
    requires Inv(s)
    requires AssertFact(s, branch, claim, clock).1.Ok?
    ensures var s' := AssertFact(s, branch, claim, clock).0;
            |s.facts| <= |s'.facts| && ReadingsKept(s, s')
  {
    var s' := AssertFact(s, branch, claim, clock).0;
    AssertStep(s, branch, claim, clock);
    var a := AllocTx(s, branch, AssertFactAction, [claim.factId], clock).value;
    var f := FactOf(claim, s.nextTx, clock(s.nextTx));
    forall i | 0 <= i < |s.facts|
      ensures SameReadings(s, s', i)
    {
      assert s'.facts[i] == ClosedBy(a, s.facts[i], branch, claim.factId, s.nextTx, CloseAt(f.validFrom, f.createdAt));
      if s'.facts[i] == s.facts[i] {
        assert RowOk(s, i);
        UnchangedReadings(s, s', i);
      } else {
        SupersededReadings(s, s', branch, i, CloseAt(f.validFrom, f.createdAt));
      }
    }
  }

  lemma StepKeepsReadings(s: Store, op: Op, clock: Clock)
    requires Inv(s) && !op.ArchiveOp?
    requires CloseSafe(s, op, clock)
    ensures var s' := Step(s, op, clock).0;
            |s.facts| <= |s'.facts| && ReadingsKept(s, s')
  {
    var (s', out) := Step(s, op, clock);
    StepEffect(s, op, clock);
    if out.Ok? {
      if op.Assert? {
        AssertKeepsReadings(s, op.branch, op.claim, clock);
      } else if op.Retract? || op.RetractExact? {
        RetractionKeepsReadingsIff(s, op, clock);
      } else {
        OtherStepsKeepFacts(s, op, clock);
        forall i | 0 <= i < |s.facts|
          ensures SameReadings(s, s', i)
        {
          assert RowOk(s, i);
          UnchangedReadings(s, s', i);
        }
      }
    }
  }

  /** Every retraction of the run is close-safe when it comes. */
  predicate RunCloseSafe(s: Store, ops: seq<Op>, clock: Clock)
    decreases |ops|
  {
    ops == [] || (CloseSafe(s, ops[0], clock) && RunCloseSafe(Step(s, ops[0], clock).0, ops[1..], clock))
  }

  lemma ReadingsTransitive(s: Store, s': Store, s'': Store)
    requires Later(s, s') && Later(s', s'')
    requires ReadingsKept(s, s') && ReadingsKept(s', s'')
    ensures |s.facts| <= |s''.facts| && ReadingsKept(s, s'')
  {
    forall i | 0 <= i < |s.facts|
      ensures SameReadings(s, s'', i)
    {
      assert SameReadings(s, s', i) && SameReadings(s', s'', i) && AgedInto(s.facts[i], s'.facts[i], s.nextTx);
    }
  }

  lemma {:induction false} RunKeepsReadings(s: Store, ops: seq<Op>, clock: Clock)
    requires Inv(s)
    requires forall op :: op in ops ==> !op.ArchiveOp?
    requires RunCloseSafe(s, ops, clock)
    ensures var s' := Run(s, ops, clock); Later(s, s') && ReadingsKept(s, s')
    decreases |ops|
  {
    RunIsLater(s, ops, clock);
    if ops == [] {
    } else {
      var s' := Step(s, ops[0], clock).0;
      StepKeepsReadings(s, ops[0], clock);
      RunIsLater(s, [ops[0]], clock);
      assert Run(s, [ops[0]], clock) == s';
      StepEffect(s, ops[0], clock);
      RunKeepsReadings(s', ops[1..], clock);
      ReadingsTransitive(s, s', Run(s', ops[1..], clock));
    }
  }

  lemma SameKeep(s: Store, s': Store, i: nat, live: set<string>, chain: seq<string>, t: TxId, ts: Time)
    requires Inv(s) && Later(s, s') && ReadingsKept(s, s') && t < s.nextTx && i < |s.facts|
    ensures s'.facts[i].factId == s.facts[i].factId && s'.facts[i].createdByTx == s.facts[i].createdByTx
    ensures s.facts[i].createdByTx <= t ==>
              KeepBitemporal(s', s'.facts[i], live, chain, t, ts) == KeepBitemporal(s, s.facts[i], live, chain, t, ts)
  {
    assert AgedInto(s.facts[i], s'.facts[i], s.nextTx) && SameReadings(s, s', i);
    SameRevokedInView(s, s', i, t, chain);
    hide Inv, ValidToAsOf, IsValidAt, RevokedInView;
  }

  /** Readings kept, the bitemporal answers at committed transactions are kept. */
  lemma SameBitemporal(s: Store, s': Store, t: TxId, ts: Time)
    requires Inv(s) && Later(s, s') && ReadingsKept(s, s')
    requires t in s.txBranch
    ensures FactsBitemporal(s', t, ts) == FactsBitemporal(s, t, ts)
  {
    SameChainOfTx(s, s', t);
    FactsAsOfStable(s, s', t);
    hide Ancestors, LiveFacts, NewestRows, ValidToAsOf, IsValidAt;
    var branch := TxBranchOrMain(s, t);
    var chain := Ancestors(s.branches, branch);
    var live := Ids(LiveFacts(s, branch, t));
    var keys, keys' := BitemporalKeys(s, live, chain, t, ts), BitemporalKeys(s', live, chain, t, ts);
    forall i | 0 <= i < |keys|
      ensures keys[i].tx == keys'[i].tx && (keys[i].tx <= t ==> keys[i] == keys'[i])
    {
      SameKeep(s, s', i, live, chain, t, ts);
    }
    SameEligible(s, s', keys, keys', chain, t);
  }

  /** Bitemporal stability: along a run of close-safe calls, `facts_bitemporal(t, ts)` keeps its answer for
      every committed `t` and every `ts`. */
  lemma BitemporalStable(s: Store, ops: seq<Op>, clock: Clock, t: TxId, ts: Time)
    requires Inv(s) && t in s.txBranch
    requires forall op :: op in ops ==> !op.ArchiveOp?
    requires RunCloseSafe(s, ops, clock)
    ensures FactsBitemporal(Run(s, ops, clock), t, ts) == FactsBitemporal(s, t, ts)
  {
    RunKeepsReadings(s, ops, clock);
    SameBitemporal(s, Run(s, ops, clock), t, ts);
  }

  /** On its own branch and as of its own transaction, a kept row is the newest one of its id. */
  lemma HeadAtCreation(s: Store, keys: seq<Key>, chain: seq<string>, i: nat)
    requires Inv(s) && i < |s.facts| && |keys| == |s.facts|
    requires forall k :: 0 <= k < |keys| ==> keys[k].id == s.facts[k].factId && keys[k].tx == s.facts[k].createdByTx
    requires keys[i].keep
    requires chain != [] && WrittenOn(s, s.facts[i], chain[0])
    ensures RowRef(i, keys[i].id, 0, keys[i].tx) in NewestRows(s.txBranch, keys, chain, keys[i].tx)
  {
    var t := keys[i].tx;
    var own := RowRef(i, keys[i].id, 0, t);
    assert Rising(s);
    NewestRowsSelects(s.txBranch, keys, chain, t);
    assert Denotes(s.txBranch, keys, chain, t, own);
    forall x | Denotes(s.txBranch, keys, chain, t, x) && x.id == own.id && x.row != own.row
      ensures Precedes(own, x)
    {
    }
    assert IsHead(s.txBranch, keys, chain, t, own);
  }

  lemma LiveAtCreation(s: Store, i: nat)
    requires Inv(s) && i < |s.facts| && s.facts[i].revokedByTx.None?
    ensures var t := s.facts[i].createdByTx;
            t in s.txBranch && s.facts[i].factId in Ids(LiveFacts(s, s.txBranch[t], t))
  {
    assert RowOk(s, i);
    var t := s.facts[i].createdByTx;
    var chain := Ancestors(s.branches, s.txBranch[t]);
    var keys := FactKeys(s.facts);
    HeadAtCreation(s, keys, chain, i);
    var rs := NewestRows(s.txBranch, keys, chain, t);
    DropRevokedMembers(s, rs, t, chain);
    assert RowRef(i, keys[i].id, 0, t) in LiveFacts(s, s.txBranch[t], t);
  }

  /** The later of two times. */
  function LaterOf(a: Time, b: Time): (t: Time)
    ensures !Text.Less(t, a) && !Text.Less(t, b)
  {
    Text.LessIrreflexive(a);
    Text.LessIrreflexive(b);
    if Text.Less(a, b) then
      (if Text.Less(b, a) then (Text.LessTransitive(a, b, a); b) else b)
    else a
  }

  /** A later store still holds the row, with its id, start and writer. */
  lemma SameRowLater(s: Store, s': Store, i: nat)
    requires Inv(s) && Later(s, s') && i < |s.facts| && s.facts[i].revokedByTx.None?
    ensures var t := s.facts[i].createdByTx;
            && t in s.txBranch && t < s.nextTx && i < |s'.facts|
            && s.facts[i].factId in Ids(LiveFacts(s, TxBranchOrMain(s, t), t))
            && s'.facts[i].factId == s.facts[i].factId && s'.facts[i].validFrom == s.facts[i].validFrom
            && s'.facts[i].createdByTx == t && WrittenOn(s', s'.facts[i], TxBranchOrMain(s, t))
  {
    LiveAtCreation(s, i);
    RowsAreCommitted(s, i);
    assert AgedInto(s.facts[i], s'.facts[i], s.nextTx);
    assert TxBranch(s', s.facts[i].createdByTx) == TxBranch(s, s.facts[i].createdByTx);
    hide Inv, LiveFacts;
  }

  /** A row whose end reads `x` in `s` and open in `s'`, as of the transaction that wrote it, shows in the
      answer of `s'` at times from `x` on, and not in that of `s`. */
  lemma ReopenedShows(s: Store, s': Store, i: nat)
    requires Inv(s) && Inv(s') && Later(s, s')
    requires i < |s.facts| && s.facts[i].Unstamped() && s.facts[i].validTo.Some?
    requires ValidToAsOf(s', s'.facts[i], s.facts[i].createdByTx).None?
    ensures var t := s.facts[i].createdByTx;
            var ts := LaterOf(s.facts[i].validFrom, s.facts[i].validTo.value);
            && t in s.txBranch
            && FactsBitemporal(s', t, ts) != FactsBitemporal(s, t, ts)
  {
    var f := s.facts[i];
    var t, ts := f.createdByTx, LaterOf(f.validFrom, f.validTo.value);
    SameRowLater(s, s', i);
    SameChainOfTx(s, s', t);
    FactsAsOfStable(s, s', t);
    hide Inv, Later, Ancestors, LiveFacts, NewestRows, RevokedInView;
    var branch := TxBranchOrMain(s, t);
    var chain := Ancestors(s.branches, branch);
    var live := Ids(LiveFacts(s, branch, t));
    var keys, keys' := BitemporalKeys(s, live, chain, t, ts), BitemporalKeys(s', live, chain, t, ts);
    var own := RowRef(i, f.factId, 0, t);
    NotKept(s, keys, chain, t, own);
    SameRevokedInView(s, s', i, t, chain);
    HeadAtCreation(s', keys', chain, i);
    assert own in FactsBitemporal(s', t, ts);
  }

  /** Before it came, the retraction had not closed the row. */
  lemma OverwrittenEndReadsOpen(s: Store, op: Op, clock: Clock, i: nat)
    requires Inv(s) && op.Retract? && Step(s, op, clock).1.Ok? && RetractsLocally(s, op)
    requires i < |s.facts| && Targeted(s, op, i)
    ensures var s' := Step(s, op, clock).0;
            i < |s'.facts| && ValidToAsOf(s', s'.facts[i], s.facts[i].createdByTx).None?
  {
    RetractionEffect(s, op, clock, i);
    RowsAreCommitted(s, i);
    StepIsTimed(s, op, clock);
  }

  /** A retraction that overwrites an explicit end changes a past answer. */
  lemma OverwrittenEndShows(s: Store, op: Op, clock: Clock, i: nat)
    requires Inv(s) && op.Retract? && Step(s, op, clock).1.Ok? && RetractsLocally(s, op)
    requires i < |s.facts| && Targeted(s, op, i) && s.facts[i].validTo.Some?
    ensures var t := s.facts[i].createdByTx;
            var ts := LaterOf(s.facts[i].validFrom, s.facts[i].validTo.value);
            && t in s.txBranch
            && FactsBitemporal(Step(s, op, clock).0, t, ts) != FactsBitemporal(s, t, ts)
  {
    var s' := Step(s, op, clock).0;
    OverwrittenEndReadsOpen(s, op, clock, i);
    StepEffect(s, op, clock);
    ExtendingIsLater(s, s', op.branch);
    ReopenedShows(s, s', i);
  }

  /** So does an exact retraction of a row that was never superseded and whose explicit end is the retraction's
      own time. */
  lemma OwnTimeEndShows(s: Store, op: Op, clock: Clock, i: nat)
    requires Inv(s) && op.RetractExact? && Step(s, op, clock).1.Ok? && RetractsLocally(s, op)
    requires i < |s.facts| && Targeted(s, op, i) && s.facts[i].supersededByTx.None?
    requires s.facts[i].validTo == Some(clock(s.nextTx))
    ensures var t := s.facts[i].createdByTx;
            var ts := LaterOf(s.facts[i].validFrom, s.facts[i].validTo.value);
            && t in s.txBranch
            && FactsBitemporal(Step(s, op, clock).0, t, ts) != FactsBitemporal(s, t, ts)
  {
    var s' := Step(s, op, clock).0;
    StampedReadsOpen(s, op, clock, i);
    StepEffect(s, op, clock);
    ExtendingIsLater(s, s', op.branch);
    hide Inv, Step, FactsBitemporal;
    ReopenedShows(s, s', i);
  }

  /** A row closed at the retraction's own time reads open from its last stamp before on. */
  lemma StampedReadsOpen(s: Store, op: Op, clock: Clock, i: nat)
    requires Inv(s) && op.RetractExact? && Step(s, op, clock).1.Ok? && RetractsLocally(s, op)
    requires i < |s.facts| && Targeted(s, op, i) && s.facts[i].validTo == Some(clock(s.nextTx))
    ensures var s' := Step(s, op, clock).0;
            && i < |s'.facts|
            && forall t: TxId :: s.facts[i].createdByTx <= t < s.nextTx ==> ValidToAsOf(s', s'.facts[i], t).None?
  {
    hide Step;
    RetractionEffect(s, op, clock, i);
    RowsAreCommitted(s, i);
    StepIsTimed(s, op, clock);
  }

  lemma NotKept(s: Store, keys: seq<Key>, chain: seq<string>, t: TxId, r: RowRef)
    requires r.row < |keys| && !keys[r.row].keep
    ensures r !in NewestRows(s.txBranch, keys, chain, t)
  {
    var el := Eligible(s.txBranch, keys, chain, t);
    FirstPerIdMembers(Sort(el), {});
    SortMembers(el, r);
    EligibleIsExact(s.txBranch, keys, chain, t, r);
  }

  /** `retract_fact` keeps every past bitemporal answer if and only if it overwrites no explicit end. */
  lemma RetractKeepsAnswersIff(s: Store, branch: string, id: string, clock: Clock)
    requires Inv(s)
    requires RetractFact(s, branch, id, clock).1.Ok?
    ensures (forall t: TxId, ts: Time :: t in s.txBranch ==>
               FactsBitemporal(RetractFact(s, branch, id, clock).0, t, ts) == FactsBitemporal(s, t, ts))
            <==> CloseSafe(s, Retract(branch, id), clock)
  {
    var op := Retract(branch, id);
    var s' := RetractFact(s, branch, id, clock).0;
    StepEffect(s, op, clock);
    ExtendingIsLater(s, s', branch);
    hide Inv, Extends, Later, FactsBitemporal, RetractFact;
    if CloseSafe(s, op, clock) {
      RetractionKeepsReadingsIff(s, op, clock);
      forall t: TxId, ts: Time | t in s.txBranch
        ensures FactsBitemporal(s', t, ts) == FactsBitemporal(s, t, ts)
      {
        SameBitemporal(s, s', t, ts);
      }
    } else {
      var i :| 0 <= i < |s.facts| && Targeted(s, op, i) && !SafeToStamp(s, op, clock, i);
      OverwrittenEndShows(s, op, clock, i);
    }
  }

  // ----- Agreement with current knowledge -----

  /** The rows of the current view, read at the latest transaction. */
  lemma LiveAtLatest(s: Store, branch: string, r: RowRef)
    requires Inv(s) && r in FactsOnBranch(s, branch)
    ensures var t, chain := s.nextTx - 1, Ancestors(s.branches, branch);
            && IsHead(s.txBranch, FactKeys(s.facts), chain, t, r)
            && !RevokedInView(s, s.facts[r.row], t, chain)
            && r.id in Ids(LiveFacts(s, branch, t))
  {
    hide NewestRows, Ancestors, IsHead, RevokedInView;
    var t, chain := s.nextTx - 1, Ancestors(s.branches, branch);
    LatestIsNow(s, branch);
    FactKeysDistinct(s);
    hide Inv, FactsOnBranch;
    NewestRowsSelects(s.txBranch, FactKeys(s.facts), chain, t);
    DropRevokedMembers(s, NewestRows(s.txBranch, FactKeys(s.facts), chain, t), t, chain);
  }

  lemma ValidNowIsShown(s: Store, ts: Time, r: RowRef)
    requires Inv(s) && s.nextTx - 1 in s.txBranch
    requires r in FactsOnBranch(s, s.txBranch[s.nextTx - 1])
    requires IsValidAt(s.facts[r.row].validFrom, s.facts[r.row].validTo, ts)
    ensures r in FactsBitemporal(s, s.nextTx - 1, ts)
  {
    hide Inv, FactsOnBranch, LiveFacts, NewestRows, Ancestors, IsHead, IsValidAt, ValidToAsOf, RevokedInView;
    var t := s.nextTx - 1;
    var chain := Ancestors(s.branches, s.txBranch[t]);
    var live := Ids(LiveFacts(s, s.txBranch[t], t));
    LiveAtLatest(s, s.txBranch[t], r);
    HeadNamesRow(s, chain, t, r);
    LatestReading(s, r.row);
    HeadOfKept(s, BitemporalKeys(s, live, chain, t, ts), chain, t, r);
  }

  /** At the latest transaction, the bitemporal view contains every row its branch shows as valid now. */
  lemma LatestContainsValidNow(s: Store, ts: Time)
    requires Inv(s) && s.nextTx > 1
    ensures var t := s.nextTx - 1;
            && t in s.txBranch
            && forall r :: r in FactsValidAtOnBranch(s, s.txBranch[t], ts) ==> r in FactsBitemporal(s, t, ts)
  {
    var t := s.nextTx - 1;
    assert t in s.txBranch;
    hide Inv, FactsOnBranch, FactsBitemporal, IsValidAt;
    forall r | r in FactsValidAtOnBranch(s, s.txBranch[t], ts)
      ensures r in FactsBitemporal(s, t, ts)
    {
      ValidNowIsShown(s, ts, r);
    }
  }

  lemma HeadNamesRow(s: Store, chain: seq<string>, t: TxId, r: RowRef)
    requires IsHead(s.txBranch, FactKeys(s.facts), chain, t, r)
    ensures r.row < |s.facts| && r.id == s.facts[r.row].factId
  {
  }

  lemma LatestReading(s: Store, i: nat)
    requires Inv(s) && i < |s.facts|
    ensures ValidToAsOf(s, s.facts[i], s.nextTx - 1) == s.facts[i].validTo
  {
    assert RowOk(s, i) && SupersededByNext(s, i);
    if s.facts[i].supersededByTx.Some? {
      var j: nat :| ClosedByVersion(s, i, j);
      RowsAreCommitted(s, j);
    }
  }

  /** The newest of all rows of an id is also the newest of any selection of them that keeps it. */
  lemma HeadOfKept(s: Store, keys: seq<Key>, chain: seq<string>, t: TxId, r: RowRef)
    requires Inv(s) && |keys| == |s.facts|
    requires forall k :: 0 <= k < |keys| ==> keys[k].id == s.facts[k].factId && keys[k].tx == s.facts[k].createdByTx
    requires IsHead(s.txBranch, FactKeys(s.facts), chain, t, r)
    requires keys[r.row].keep
    ensures r in NewestRows(s.txBranch, keys, chain, t)
  {
    assert Rising(s);
    NewestRowsSelects(s.txBranch, keys, chain, t);
    forall x | Denotes(s.txBranch, keys, chain, t, x) && x.id == r.id && x.row != r.row
      ensures Precedes(r, x)
    {
      assert Denotes(s.txBranch, FactKeys(s.facts), chain, t, x);
    }
    assert IsHead(s.txBranch, keys, chain, t, r);
  }

  // ----- Runs without explicit ends -----

  predicate PlainOp(op: Op) {
    op.Assert? ==> op.claim.validTo.None?
  }

  /** No unstamped row has an end. */
  ghost predicate PlainRows(s: Store) {
    forall i :: 0 <= i < |s.facts| && s.facts[i].Unstamped() ==> s.facts[i].validTo.None?
  }

  /** The log was timed by `clock`. */
  ghost predicate TimedLog(s: Store, clock: Clock) {
    forall i :: 0 <= i < |s.transactions| ==> s.transactions[i].txTime == clock(i + 1)
  }

  ghost predicate PlainStore(s: Store, clock: Clock) {
    PlainRows(s) && TimedLog(s, clock)
  }

  ghost predicate StrictlyIncreasing(clock: Clock) {
    forall i: nat, j: nat :: i < j ==> Text.Less(clock(i), clock(j))
  }

  lemma ClosedBeforeNow(clock: Clock, validFrom: Time, w: TxId, u: TxId)
    requires StrictlyIncreasing(clock) && w < u
    ensures CloseAt(validFrom, clock(w)) != clock(u)
  {
    assert Text.Less(clock(w), clock(u));
    Text.LessIrreflexive(clock(u));
    if Text.Less(validFrom, clock(w)) {
      Text.LessTransitive(validFrom, clock(w), clock(u));
    }
  }

  lemma PlainIsCloseSafe(s: Store, op: Op, clock: Clock)
    requires Inv(s) && PlainStore(s, clock) && (op.RetractExact? ==> StrictlyIncreasing(clock))
    ensures CloseSafe(s, op, clock)
  {
    if op.RetractExact? {
      forall i | 0 <= i < |s.facts| && Targeted(s, op, i)
        ensures s.facts[i].validTo != Some(clock(s.nextTx))
      {
        if s.facts[i].supersededByTx.Some? {
          assert SupersededByNext(s, i);
          var j: nat :| ClosedByVersion(s, i, j);
          assert RowOk(s, j);
          ClosedBeforeNow(clock, s.facts[j].validFrom, s.facts[j].createdByTx, s.nextTx);
        }
      }
    }
  }

  lemma UnstampedAfterRetract(s: Store, op: Op, clock: Clock, i: nat)
    requires Inv(s) && (op.Retract? || op.RetractExact?) && Step(s, op, clock).1.Ok?
    requires var s' := Step(s, op, clock).0; i < |s'.facts| && s'.facts[i].Unstamped()
    ensures i < |s.facts| && Step(s, op, clock).0.facts[i] == s.facts[i]
  {
    if i < |s.facts| {
      hide Inv, Step;
      RetractionEffect(s, op, clock, i);
    } else {
      hide Inv, FactsOnBranch, IsSessionClosed, LiveBranch;
    }
  }

  lemma UnstampedAfterAssert(s: Store, branch: string, claim: Claim, clock: Clock, i: nat)
    requires Inv(s) && AssertFact(s, branch, claim, clock).1.Ok? && claim.validTo.None?
    requires var s' := AssertFact(s, branch, claim, clock).0; i < |s'.facts| && s'.facts[i].Unstamped()
    ensures var s' := AssertFact(s, branch, claim, clock).0;
            s'.facts[i].validTo.None? || (i < |s.facts| && s'.facts[i] == s.facts[i])
  {
  }

  /** A plain step leaves each unstamped row as it was, or open. */
  lemma UnstampedAfter(s: Store, op: Op, clock: Clock, i: nat)
    requires Inv(s) && PlainOp(op) && Step(s, op, clock).1.Ok?
    requires var s' := Step(s, op, clock).0; i < |s'.facts| && s'.facts[i].Unstamped()
    ensures var s' := Step(s, op, clock).0;
            s'.facts[i].validTo.None? || (i < |s.facts| && s'.facts[i] == s.facts[i])
  {
    if op.Assert? {
      UnstampedAfterAssert(s, op.branch, op.claim, clock, i);
    } else if op.Retract? || op.RetractExact? {
      UnstampedAfterRetract(s, op, clock, i);
    } else {
      OtherStepsKeepFacts(s, op, clock);
    }
  }

  lemma TimedStep(s: Store, op: Op, clock: Clock)
    requires Inv(s) && TimedLog(s, clock)
    ensures TimedLog(Step(s, op, clock).0, clock)
  {
    hide Step, Inv;
    var (s', out) := Step(s, op, clock);
    StepEffect(s, op, clock);
    if out.Ok? && !op.ArchiveOp? {
      AllocatedTime(s, op, clock);
    }
  }

  lemma PlainStep(s: Store, op: Op, clock: Clock)
    requires Inv(s) && PlainRows(s) && PlainOp(op)
    ensures PlainRows(Step(s, op, clock).0)
  {
    var (s', out) := Step(s, op, clock);
    StepEffect(s, op, clock);
    if out.Ok? {
      forall i | 0 <= i < |s'.facts| && s'.facts[i].Unstamped()
        ensures s'.facts[i].validTo.None?
      {
        UnstampedAfter(s, op, clock, i);
      }
    }
  }

  lemma {:induction false} PlainRun(s: Store, ops: seq<Op>, clock: Clock)
    requires Inv(s) && PlainStore(s, clock)
    requires forall op :: op in ops ==> PlainOp(op)
    ensures PlainStore(Run(s, ops, clock), clock)
    decreases |ops|
  {
    hide Inv, Step, PlainRows, TimedLog, PlainOp;
    if ops == [] {
    } else {
      TimedStep(s, ops[0], clock);
      PlainStep(s, ops[0], clock);
      StepEffect(s, ops[0], clock);
      PlainRun(Step(s, ops[0], clock).0, ops[1..], clock);
    }
  }

  /** Only an exact retraction needs the clock to have moved on. */
  lemma {:induction false} PlainRunIsCloseSafe(s: Store, ops: seq<Op>, clock: Clock)
    requires Inv(s) && PlainStore(s, clock)
    requires forall op :: op in ops ==> PlainOp(op) && (op.RetractExact? ==> StrictlyIncreasing(clock))
    ensures RunCloseSafe(s, ops, clock)
    decreases |ops|
  {
    hide Inv, Step, PlainRows, TimedLog, PlainOp, CloseSafe, StrictlyIncreasing;
    if ops == [] {
    } else {
      PlainIsCloseSafe(s, ops[0], clock);
      TimedStep(s, ops[0], clock);
      PlainStep(s, ops[0], clock);
      StepEffect(s, ops[0], clock);
      PlainRunIsCloseSafe(Step(s, ops[0], clock).0, ops[1..], clock);
    }
  }

  /** Without explicit ends, from a new brain on, no later call changes any bitemporal answer; if there are exact
      retractions among them, the clock has to increase strictly. */
  lemma PlainHistoryIsStable(before: seq<Op>, after: seq<Op>, clock: Clock, t: TxId, ts: Time)
    requires forall op :: op in after && op.RetractExact? ==> StrictlyIncreasing(clock)
    requires forall op :: op in before + after ==> PlainOp(op)
    requires forall op :: op in after ==> !op.ArchiveOp?
    requires t in Run(NewStore(), before, clock).txBranch
    ensures FactsBitemporal(Run(NewStore(), before + after, clock), t, ts)
            == FactsBitemporal(Run(NewStore(), before, clock), t, ts)
  {
    var s := Run(NewStore(), before, clock);
    NewStoreOk();
    RunKeepsInv(NewStore(), before, clock);
    forall op | op in before || op in after
      ensures PlainOp(op)
    {
      assert op in before + after;
    }
    PlainRun(NewStore(), before, clock);
    hide PlainOp, StrictlyIncreasing, FactsBitemporal, Inv, PlainStore;
    PlainRunIsCloseSafe(s, after, clock);
    RunConcat(NewStore(), before, after, clock);
    BitemporalStable(s, after, clock, t, ts);
  }
}
