/** When an exact retraction changes a past bitemporal answer. It keeps explicit ends, but a row that ended at the
    retraction's own time reads open afterwards. Such a row shows in a past answer only where no nearer or newer row
    of its id covers it, and that can be tested before the call. */
module ExactRetraction {
  import opened Wrappers
  import opened BrainTypes
  import opened BranchChain
  import opened RowSelection
  import opened BrainReads
  import opened BrainWrites
  import opened BrainInvariant
  import opened FactHeads
  import opened BrainSteps
  import opened TimeTravel
  import opened Bitemporal
  import Text

  /** The chain along which a transaction sees rows. */
  function ChainOf(s: Store, t: TxId): seq<string> {
    Ancestors(s.branches, TxBranchOrMain(s, t))
  }

  /** The keys by which `facts_bitemporal(t, ts)` selects. */
  function AnswerKeys(s: Store, t: TxId, ts: Time): (keys: seq<Key>)
    ensures |keys| == |s.facts|
  {
    BitemporalKeys(s, Ids(LiveFacts(s, TxBranchOrMain(s, t), t)), ChainOf(s, t), t, ts)
  }

  /** The exact retraction `op` stamps row `i`, which already ends at the retraction's own time. */
  predicate MeetsOwnTime(s: Store, op: Op, clock: Clock, i: nat)
    requires i < |s.facts| && op.RetractExact?
  {
    RetractsLocally(s, op) && Targeted(s, op, i) && s.facts[i].validTo == Some(clock(s.nextTx))
  }

  /** At `t`, row `i` reads closed by the time `ts`, and will read open once `op` has stamped it. */
  predicate Reopens(s: Store, op: Op, clock: Clock, i: nat, t: TxId, ts: Time)
    requires i < |s.facts| && op.RetractExact?
  {
    var f := s.facts[i];
    && MeetsOwnTime(s, op, clock, i)
    && f.createdByTx <= t && (f.supersededByTx.Some? ==> f.supersededByTx.value <= t)
    && op.id in Ids(LiveFacts(s, TxBranchOrMain(s, t), t))
    && !Text.Less(ts, f.validFrom) && !Text.Less(ts, clock(s.nextTx))
  }

  /** Row `i` reopens on a branch that `t` sees, and comes before every row of its id that `t` sees valid at `ts`. */
  predicate Uncovered(s: Store, op: Op, clock: Clock, i: nat, t: TxId, ts: Time)
    requires i < |s.facts| && op.RetractExact?
  {
    && Reopens(s, op, clock, i, t, ts) && op.branch in ChainOf(s, t)
    && forall j :: 0 <= j < |s.facts| && s.facts[j].factId == op.id
                   && IsEligible(s.txBranch, AnswerKeys(s, t, ts)[j], ChainOf(s, t), t) ==>
         Precedes(RefTo(s, ChainOf(s, t), i), RefTo(s, ChainOf(s, t), j))
  }

  // ----- One answer -----

  lemma LocalAddsNothing(s: Store, op: Op, clock: Clock)
    requires Inv(s) && op.RetractExact? && Step(s, op, clock).1.Ok? && RetractsLocally(s, op)
    ensures |Step(s, op, clock).0.facts| == |s.facts|
  {
    RetractExactShape(s, op.branch, op.id, op.pred, op.value, clock);
    hide RetractFactExact, AllocTx, Inv, FactsOnBranch, Local, WrittenOn, Tombstone;
    var r := FindTuple(s, FactsOnBranch(s, op.branch), op.id, op.pred, op.value).value;
    var a := AllocTx(s, op.branch, RetractFactAction, [op.id], clock).value;
    FoundIsLive(s, op.branch, r, op.id);
    WrittenOnBeforeAlloc(s, a, op.branch);
  }

  /** Before the call, an unrevoked row that ends at `now` reads open up to its supersede stamp. */
  lemma OwnTimeReading(s: Store, f: Fact, t: TxId, now: Time, ts: Time)
    requires f.revokedByTx.None? && f.validTo == Some(now)
    ensures IsValidAt(f.validFrom, None, ts) && !IsValidAt(f.validFrom, ValidToAsOf(s, f, t), ts)
            <==> && (f.supersededByTx.Some? ==> f.supersededByTx.value <= t)
                 && !Text.Less(ts, f.validFrom) && !Text.Less(ts, now)
  {
  }

  /** The keep test of row `i`, before and after. */
  lemma KeepAfter(s: Store, op: Op, clock: Clock, i: nat, t: TxId, ts: Time)
    requires Inv(s) && op.RetractExact? && Step(s, op, clock).1.Ok?
    requires i < |s.facts| && t in s.txBranch && s.facts[i].createdByTx <= t
    ensures var s' := Step(s, op, clock).0;
            var live := Ids(LiveFacts(s, TxBranchOrMain(s, t), t));
            && i < |s'.facts|
            && KeepBitemporal(s', s'.facts[i], live, ChainOf(s, t), t, ts)
               == (KeepBitemporal(s, s.facts[i], live, ChainOf(s, t), t, ts) || Reopens(s, op, clock, i, t, ts))
            && (Reopens(s, op, clock, i, t, ts) ==> !KeepBitemporal(s, s.facts[i], live, ChainOf(s, t), t, ts))
  {
    var s' := Step(s, op, clock).0;
    var live := Ids(LiveFacts(s, TxBranchOrMain(s, t), t));
    StepEffect(s, op, clock);
    ExtendingIsLater(s, s', op.branch);
    SameRevokedInView(s, s', i, t, ChainOf(s, t));
    assert AgedInto(s.facts[i], s'.facts[i], s.nextTx);
    hide Step, Inv, Extends, Later, RevokedInView, LiveFacts, Ancestors;
    if MeetsOwnTime(s, op, clock, i) {
      StampedReadsOpen(s, op, clock, i);
      OwnTimeReading(s, s.facts[i], t, clock(s.nextTx), ts);
    } else {
      RetractedRowReadings(s, op, clock, i);
    }
  }

  /** The key of row `i` before and after: what reopens is kept, and nothing else is newly kept. */
  ghost predicate KeyGains(s: Store, op: Op, clock: Clock, keys: seq<Key>, keys': seq<Key>, i: nat, t: TxId, ts: Time)
    requires i < |s.facts| == |keys| == |keys'| && op.RetractExact?
  {
    var opens := Reopens(s, op, clock, i, t, ts);
    && keys'[i].id == keys[i].id == s.facts[i].factId
    && keys'[i].tx == keys[i].tx == s.facts[i].createdByTx
    && (keys[i].tx <= t ==> keys'[i].keep == (keys[i].keep || opens) && (opens ==> !keys[i].keep))
  }

  ghost predicate KeysGain(s: Store, op: Op, clock: Clock, keys: seq<Key>, keys': seq<Key>, t: TxId, ts: Time)
    requires op.RetractExact?
  {
    |keys| == |keys'| == |s.facts| && forall i :: 0 <= i < |s.facts| ==> KeyGains(s, op, clock, keys, keys', i, t, ts)
  }

  lemma KeyAfter(s: Store, op: Op, clock: Clock, i: nat, t: TxId, ts: Time)
    requires Inv(s) && op.RetractExact? && Step(s, op, clock).1.Ok? && t in s.txBranch
    requires |Step(s, op, clock).0.facts| == |s.facts| && i < |s.facts|
    ensures KeyGains(s, op, clock, AnswerKeys(s, t, ts), AnswerKeys(Step(s, op, clock).0, t, ts), i, t, ts)
  {
    var s' := Step(s, op, clock).0;
    StepEffect(s, op, clock);
    ExtendingIsLater(s, s', op.branch);
    SameChainOfTx(s, s', t);
    FactsAsOfStable(s, s', t);
    assert AgedInto(s.facts[i], s'.facts[i], s.nextTx);
    hide Step, Inv, Extends, Later, LiveFacts, Ancestors, KeepBitemporal, Reopens;
    if s.facts[i].createdByTx <= t {
      KeepAfter(s, op, clock, i, t, ts);
    }
  }

  lemma KeysAfter(s: Store, op: Op, clock: Clock, t: TxId, ts: Time)
    requires Inv(s) && op.RetractExact? && Step(s, op, clock).1.Ok? && t in s.txBranch
    requires |Step(s, op, clock).0.facts| == |s.facts|
    ensures KeysGain(s, op, clock, AnswerKeys(s, t, ts), AnswerKeys(Step(s, op, clock).0, t, ts), t, ts)
  {
    hide KeyGains, Inv, Step, AnswerKeys;
    forall i | 0 <= i < |s.facts|
      ensures KeyGains(s, op, clock, AnswerKeys(s, t, ts), AnswerKeys(Step(s, op, clock).0, t, ts), i, t, ts)
    {
      KeyAfter(s, op, clock, i, t, ts);
    }
  }

  lemma GainingRelaxes(s: Store, op: Op, clock: Clock, keys: seq<Key>, keys': seq<Key>, t: TxId, ts: Time)
    requires Inv(s) && op.RetractExact? && KeysGain(s, op, clock, keys, keys', t, ts)
    ensures Relaxes(keys, keys', t)
  {
    FactKeysDistinct(s);
    hide Inv, Reopens;
    forall i | 0 <= i < |keys|
      ensures keys[i].tx == FactKeys(s.facts)[i].tx
      ensures keys'[i].id == keys[i].id && keys'[i].tx == keys[i].tx
      ensures keys[i].keep && keys[i].tx <= t ==> keys'[i].keep
    {
      assert KeyGains(s, op, clock, keys, keys', i, t, ts);
    }
  }

  lemma TargetOnChain(s: Store, op: Op, clock: Clock, i: nat, chain: seq<string>)
    requires op.RetractExact? && i < |s.facts| && MeetsOwnTime(s, op, clock, i)
    ensures Depth(s.txBranch, s.facts[i].createdByTx, chain).Some? <==> op.branch in chain
    ensures s.facts[i].factId == op.id
  {
  }

  lemma RefOfKey(s: Store, keys: seq<Key>, chain: seq<string>, i: nat)
    requires i < |s.facts| == |keys| && keys[i].id == s.facts[i].factId && keys[i].tx == s.facts[i].createdByTx
    ensures KeyRef(s.txBranch, keys, chain, i) == RefTo(s, chain, i)
  {
  }

  lemma NewcomerIsUncovered(s: Store, op: Op, clock: Clock, keys': seq<Key>, i: nat, t: TxId, ts: Time)
    requires op.RetractExact? && KeysGain(s, op, clock, AnswerKeys(s, t, ts), keys', t, ts)
    ensures Newcomer(s.txBranch, AnswerKeys(s, t, ts), keys', ChainOf(s, t), t, i)
            <==> i < |s.facts| && Uncovered(s, op, clock, i, t, ts)
  {
    hide AnswerKeys, ChainOf, MeetsOwnTime, KeyRef, RefTo, Depth;
    if i < |s.facts| {
      var keys, chain := AnswerKeys(s, t, ts), ChainOf(s, t);
      assert KeyGains(s, op, clock, keys, keys', i, t, ts);
      forall j | 0 <= j < |s.facts|
        ensures KeyRef(s.txBranch, keys, chain, j) == RefTo(s, chain, j) && keys[j].id == s.facts[j].factId
      {
        assert KeyGains(s, op, clock, keys, keys', j, t, ts);
        RefOfKey(s, keys, chain, j);
      }
      hide KeysGain, Precedes;
      if MeetsOwnTime(s, op, clock, i) {
        TargetOnChain(s, op, clock, i, chain);
      }
    }
  }

  /** One past answer survives an exact retraction if and only if no row is uncovered in it. */
  lemma AnswerKeptIff(s: Store, op: Op, clock: Clock, t: TxId, ts: Time)
    requires Inv(s) && op.RetractExact? && Step(s, op, clock).1.Ok? && t in s.txBranch
    ensures FactsBitemporal(Step(s, op, clock).0, t, ts) == FactsBitemporal(s, t, ts)
            <==> forall i :: 0 <= i < |s.facts| ==> !Uncovered(s, op, clock, i, t, ts)
  {
    var s' := Step(s, op, clock).0;
    StepEffect(s, op, clock);
    ExtendingIsLater(s, s', op.branch);
    if RetractsLocally(s, op) {
      LocalAddsNothing(s, op, clock);
      SameChainOfTx(s, s', t);
      hide Step, Inv, Extends, Uncovered, Newcomer, NewestRows, Ancestors, LiveFacts;
      var keys, keys' := AnswerKeys(s, t, ts), AnswerKeys(s', t, ts);
      KeysAfter(s, op, clock, t, ts);
      assert t < s.nextTx by {
        CommittedIsPast(s, t);
      }
      SameEligible(s, s', keys', keys', ChainOf(s, t), t);
      hide BitemporalKeys, AnswerKeys, Later, Relaxes, KeysGain;
      GainingRelaxes(s, op, clock, keys, keys', t, ts);
      SelectionKeptIff(s.txBranch, keys, keys', ChainOf(s, t), t);
      forall i: nat
        ensures Newcomer(s.txBranch, keys, keys', ChainOf(s, t), t, i)
                <==> i < |s.facts| && Uncovered(s, op, clock, i, t, ts)
      {
        NewcomerIsUncovered(s, op, clock, keys', i, t, ts);
      }
    } else {
      hide Step, Inv, Extends, Later, FactsBitemporal;
      RetractionKeepsReadingsIff(s, op, clock);
      SameBitemporal(s, s', t, ts);
    }
  }

  lemma CommittedIsPast(s: Store, t: TxId)
    requires Inv(s) && t in s.txBranch
    ensures t < s.nextTx
  {
  }

  // ----- All answers -----

  /** The times at which an answer may have to be looked at for row `i`: when it first could show, and when a row
      that covers it may stop. */
  function TestTimes(s: Store, clock: Clock, i: nat): set<Time>
    requires i < |s.facts|
  {
    {LaterOf(s.facts[i].validFrom, clock(s.nextTx))}
    + set j | 0 <= j < |s.facts| && s.facts[j].validTo.Some? :: s.facts[j].validTo.value
  }

  /** The test a caller can make before an exact retraction; every range in it is finite. */
  predicate KeepsAnswers(s: Store, op: Op, clock: Clock)
    requires op.RetractExact?
  {
    forall i, t, ts | 0 <= i < |s.facts| && t in s.txBranch && ts in TestTimes(s, clock, i) ::
      !Uncovered(s, op, clock, i, t, ts)
  }

  /** The latest time not after `ts` among `start` and the ends of the first `n` rows. */
  lemma {:induction false} LatestTest(s: Store, start: Time, ts: Time, n: nat) returns (c: Time)
    requires n <= |s.facts| && !Text.Less(ts, start)
    ensures c == start || exists j :: 0 <= j < n && s.facts[j].validTo == Some(c)
    ensures !Text.Less(ts, c) && !Text.Less(c, start)
    ensures forall j :: 0 <= j < n && s.facts[j].validTo.Some? && !Text.Less(ts, s.facts[j].validTo.value) ==>
              !Text.Less(c, s.facts[j].validTo.value)
  {
    hide Text.Less;
    if n == 0 {
      c := start;
      Text.LessIrreflexive(start);
    } else {
      c := LatestTest(s, start, ts, n - 1);
      var end := s.facts[n - 1].validTo;
      if end.Some? && !Text.Less(ts, end.value) && Text.Less(c, end.value) {
        LaterTest(s, c, end.value, start, n - 1);
        c := end.value;
      }
    }
  }

  /** A later time is not before what an earlier one is not before. */
  lemma LaterTest(s: Store, c: Time, c': Time, start: Time, n: nat)
    requires n <= |s.facts| && Text.Less(c, c') && !Text.Less(c, start)
    ensures !Text.Less(c', c') && !Text.Less(c', start)
    ensures forall j :: 0 <= j < n && s.facts[j].validTo.Some? && !Text.Less(c, s.facts[j].validTo.value) ==>
              !Text.Less(c', s.facts[j].validTo.value)
  {
    hide Text.Less;
    Text.LessIrreflexive(c');
    Text.LessIsNotGreater(c, c');
    Text.NotLessTransitive(start, c, c');
    forall j | 0 <= j < n && s.facts[j].validTo.Some? && !Text.Less(c, s.facts[j].validTo.value)
      ensures !Text.Less(c', s.facts[j].validTo.value)
    {
      Text.NotLessTransitive(s.facts[j].validTo.value, c, c');
    }
  }

  /** A row valid at `c` is still valid at `ts` unless it ended in between. */
  lemma StillValid(s: Store, f: Fact, t: TxId, c: Time, ts: Time)
    requires !Text.Less(ts, c) && IsValidAt(f.validFrom, ValidToAsOf(s, f, t), c)
    requires f.validTo.Some? && !Text.Less(ts, f.validTo.value) ==> !Text.Less(c, f.validTo.value)
    ensures IsValidAt(f.validFrom, ValidToAsOf(s, f, t), ts)
  {
    hide Text.Less;
    Text.NotLessTransitive(f.validFrom, c, ts);
  }

  /** A row that is uncovered at some time is uncovered at a test time. */
  lemma UncoveredAtTestTime(s: Store, op: Op, clock: Clock, i: nat, t: TxId, ts: Time)
    requires op.RetractExact? && i < |s.facts| && Uncovered(s, op, clock, i, t, ts)
    ensures exists c :: c in TestTimes(s, clock, i) && Uncovered(s, op, clock, i, t, c)
  {
    var f, now := s.facts[i], clock(s.nextTx);
    var start := LaterOf(f.validFrom, now);
    assert !Text.Less(ts, start);
    var c := LatestTest(s, start, ts, |s.facts|);
    assert c in TestTimes(s, clock, i);
    hide Text.Less, LaterOf, TestTimes, MeetsOwnTime, LiveFacts, ChainOf, ValidToAsOf, Precedes, RefTo;
    Text.NotLessTransitive(f.validFrom, start, c);
    Text.NotLessTransitive(now, start, c);
    var keys, keys' := AnswerKeys(s, t, c), AnswerKeys(s, t, ts);
    forall j | 0 <= j < |s.facts| && IsEligible(s.txBranch, keys[j], ChainOf(s, t), t)
      ensures IsEligible(s.txBranch, keys'[j], ChainOf(s, t), t)
    {
      StillValid(s, s.facts[j], t, c, ts);
    }
    assert Uncovered(s, op, clock, i, t, c);
  }

  /** An exact retraction keeps every past bitemporal answer if and only if the test before it succeeds. */
  lemma ExactKeepsAnswersIff(s: Store, op: Op, clock: Clock)
    requires Inv(s) && op.RetractExact? && Step(s, op, clock).1.Ok?
    ensures (forall t: TxId, ts: Time :: t in s.txBranch ==>
               FactsBitemporal(Step(s, op, clock).0, t, ts) == FactsBitemporal(s, t, ts))
            <==> KeepsAnswers(s, op, clock)
  {
    hide Inv, Step, FactsBitemporal, Uncovered, TestTimes;
    if KeepsAnswers(s, op, clock) {
      forall t: TxId, ts: Time | t in s.txBranch
        ensures FactsBitemporal(Step(s, op, clock).0, t, ts) == FactsBitemporal(s, t, ts)
      {
        AnswerKeptIff(s, op, clock, t, ts);
        forall i | 0 <= i < |s.facts|
          ensures !Uncovered(s, op, clock, i, t, ts)
        {
          if Uncovered(s, op, clock, i, t, ts) {
            UncoveredAtTestTime(s, op, clock, i, t, ts);
          }
        }
      }
    } else {
      var i, t, ts :| 0 <= i < |s.facts| && t in s.txBranch && ts in TestTimes(s, clock, i)
                      && Uncovered(s, op, clock, i, t, ts);
      AnswerKeptIff(s, op, clock, t, ts);
    }
  }
}
