/** Branch isolation: a write on one branch is invisible on every branch whose chain does not contain it. */
module Isolation {
  import opened Wrappers
  import opened BrainTypes
  import opened BranchChain
  import opened RowSelection
  import opened BrainReads
  import opened BrainWrites
  import opened BrainInvariant
  import opened FactHeads
  import opened BrainSteps
  import opened TimeTravel

  /** Every stamp on a row comes from a transaction of the row's own branch. */
  lemma StampsAreLocal(s: Store, i: nat)
    requires Inv(s) && i < |s.facts|
    ensures var f := s.facts[i];
            && TxBranch(s, f.createdByTx).Some?
            && (f.revokedByTx.Some? ==> TxBranch(s, f.revokedByTx.value) == TxBranch(s, f.createdByTx))
            && (f.supersededByTx.Some? ==> TxBranch(s, f.supersededByTx.value) == TxBranch(s, f.createdByTx))
  {
    assert RowOk(s, i) && SupersededByNext(s, i);
    if s.facts[i].supersededByTx.Some? {
      var j: nat :| ClosedByVersion(s, i, j);
      assert SameChain(s, i, j);
    }
  }

  /** Rows off the chain do not matter to a selection. */
  lemma {:induction false} EligibleElsewhere(
    txBranch: map<TxId, string>, txBranch': map<TxId, string>, keys: seq<Key>, keys': seq<Key>,
    chain: seq<string>, asOf: TxId)
    requires |keys| <= |keys'|
    requires forall i :: 0 <= i < |keys| ==>
               keys[i] == keys'[i] && Depth(txBranch', keys[i].tx, chain) == Depth(txBranch, keys[i].tx, chain)
    requires forall i :: |keys| <= i < |keys'| ==> Depth(txBranch', keys'[i].tx, chain).None?
    ensures Eligible(txBranch', keys', chain, asOf) == Eligible(txBranch, keys, chain, asOf)
    decreases |keys'|
  {
    if keys' == [] {
    } else {
      var n := |keys'| - 1;
      var shorter := if |keys| == |keys'| then keys[..n] else keys;
      EligibleElsewhere(txBranch, txBranch', shorter, keys'[..n], chain, asOf);
    }
  }

  lemma {:induction false} DropRevokedElsewhere(s: Store, s': Store, rs: seq<RowRef>, asOf: TxId, chain: seq<string>)
    requires InFacts(s, rs) && InFacts(s', rs)
    requires forall r :: r in rs ==>
               RevokedInView(s', s'.facts[r.row], asOf, chain) == RevokedInView(s, s.facts[r.row], asOf, chain)
    ensures DropRevoked(s', rs, asOf, chain) == DropRevoked(s, rs, asOf, chain)
  {
    if rs == [] {
    } else {
      assert rs[0] in rs;
      DropRevokedElsewhere(s, s', rs[1..], asOf, chain);
    }
  }

  /** A row written on a chain without `writer` is untouched, and as revoked in view as before. */
  lemma RowElsewhere(s: Store, s': Store, writer: string, chain: seq<string>, i: nat)
    requires Extends(s, s', writer) && writer !in chain
    requires LogOk(s) && i < |s.facts| && RowOk(s, i)
    requires Depth(s.txBranch, s.facts[i].createdByTx, chain).Some?
    ensures s'.facts[i] == s.facts[i]
    ensures RevokedInView(s', s'.facts[i], TX_MAX, chain) == RevokedInView(s, s.facts[i], TX_MAX, chain)
  {
  }

  lemma SelectionElsewhere(s: Store, s': Store, writer: string, chain: seq<string>)
    requires Inv(s) && Extends(s, s', writer) && writer !in chain
    ensures NewestRows(s'.txBranch, FactKeys(s'.facts), chain, TX_MAX)
            == NewestRows(s.txBranch, FactKeys(s.facts), chain, TX_MAX)
  {
    var keys, keys' := FactKeys(s.facts), FactKeys(s'.facts);
    hide Inv, Position;
    forall i | 0 <= i < |keys|
      ensures keys[i] == keys'[i] && Depth(s'.txBranch, keys[i].tx, chain) == Depth(s.txBranch, keys[i].tx, chain)
    {
      WrittenBefore(s, i);
    }
    EligibleElsewhere(s.txBranch, s'.txBranch, keys, keys', chain, TX_MAX);
  }

  /** A step on `writer` leaves the view of a known branch alone when `writer` is not on its chain. */
  lemma ViewElsewhere(s: Store, s': Store, writer: string, branch: string)
    requires Inv(s) && Extends(s, s', writer)
    requires KnownBranch(s.branches, branch) && writer !in Ancestors(s.branches, branch)
    ensures FactsOnBranch(s', branch) == FactsOnBranch(s, branch)
    ensures forall r :: r in FactsOnBranch(s, branch) ==> s'.facts[r.row] == s.facts[r.row]
  {
    ExtendingIsLater(s, s', writer);
    var chain := Ancestors(s.branches, branch);
    var keys := FactKeys(s.facts);
    SelectionElsewhere(s, s', writer, chain);
    var rs := NewestRows(s.txBranch, keys, chain, TX_MAX);
    forall r | r in rs
      ensures s'.facts[r.row] == s.facts[r.row]
      ensures RevokedInView(s', s'.facts[r.row], TX_MAX, chain) == RevokedInView(s, s.facts[r.row], TX_MAX, chain)
    {
      SelectedIsOnChain(s, keys, chain, r);
      assert RowOk(s, r.row);
      RowElsewhere(s, s', writer, chain, r.row);
    }
    DropRevokedElsewhere(s, s', rs, TX_MAX, chain);
    DropRevokedMembers(s, rs, TX_MAX, chain);
  }

  lemma SelectedIsOnChain(s: Store, keys: seq<Key>, chain: seq<string>, r: RowRef)
    requires r in NewestRows(s.txBranch, keys, chain, TX_MAX)
    ensures r.row < |keys| && Depth(s.txBranch, keys[r.row].tx, chain).Some?
  {
    var el := Eligible(s.txBranch, keys, chain, TX_MAX);
    FirstPerIdMembers(Sort(el), {});
    SortMembers(el, r);
    EligibleIsExact(s.txBranch, keys, chain, TX_MAX, r);
  }

  lemma BeliefRowsElsewhere(s: Store, s': Store, writer: string, chain: seq<string>)
    requires Inv(s) && Extends(s, s', writer) && writer !in chain
    ensures s.beliefs <= s'.beliefs
    ensures forall i :: 0 <= i < |s.beliefs| ==>
              Depth(s'.txBranch, s.beliefs[i].createdByTx, chain) == Depth(s.txBranch, s.beliefs[i].createdByTx, chain)
    ensures forall i :: |s.beliefs| <= i < |s'.beliefs| ==> Depth(s'.txBranch, s'.beliefs[i].createdByTx, chain).None?
  {
    hide FactsOk, WellFormed;
    forall i | 0 <= i < |s.beliefs|
      ensures Depth(s'.txBranch, s.beliefs[i].createdByTx, chain) == Depth(s.txBranch, s.beliefs[i].createdByTx, chain)
    {
      assert s.beliefs[i].createdByTx in s.txBranch;
    }
  }

  lemma BeliefViewElsewhere(s: Store, s': Store, writer: string, branch: string)
    requires Inv(s) && Extends(s, s', writer)
    requires Ancestors(s'.branches, branch) == Ancestors(s.branches, branch)
    requires writer !in Ancestors(s.branches, branch)
    ensures BeliefsOnBranch(s', branch) == BeliefsOnBranch(s, branch)
  {
    var chain := Ancestors(s.branches, branch);
    var keys, keys' := BeliefKeys(s.beliefs), BeliefKeys(s'.beliefs);
    BeliefRowsElsewhere(s, s', writer, chain);
    hide Inv, Extends, Ancestors, Depth;
    EligibleElsewhere(s.txBranch, s'.txBranch, keys, keys', chain, TX_MAX);
    SameActiveBeliefs(s.beliefs, s'.beliefs, NewestRows(s.txBranch, keys, chain, TX_MAX), {});
  }

  /** Branch isolation, one call: rows written on other branches stay identical in all fields, and the
      views of every branch whose chain does not contain the written branch are unchanged. */
  lemma WritesAreIsolated(s: Store, op: Op, clock: Clock, branch: string)
    requires Inv(s) && !op.ArchiveOp?
    requires KnownBranch(s.branches, branch) && op.branch !in Ancestors(s.branches, branch)
    ensures var s' := Step(s, op, clock).0;
            && Inv(s')
            && |s.facts| <= |s'.facts|
            && (forall i :: 0 <= i < |s.facts| && !WrittenOn(s, s.facts[i], op.branch) ==> s'.facts[i] == s.facts[i])
            && s.beliefs <= s'.beliefs
            && FactsOnBranch(s', branch) == FactsOnBranch(s, branch)
            && BeliefsOnBranch(s', branch) == BeliefsOnBranch(s, branch)
            && (forall r :: r in FactsOnBranch(s, branch) ==> s'.facts[r.row] == s.facts[r.row])
            && KnownBranch(s'.branches, branch)
            && Ancestors(s'.branches, branch) == Ancestors(s.branches, branch)
  {
    StepEffect(s, op, clock);
    if Step(s, op, clock).1.Ok? {
      ExtendingIsLater(s, Step(s, op, clock).0, op.branch);
      ViewElsewhere(s, Step(s, op, clock).0, op.branch, branch);
      BeliefViewElsewhere(s, Step(s, op, clock).0, op.branch, branch);
    }
  }

  /** Branch isolation, whole runs: however much is written off its chain, a branch shows the same rows. */
  lemma {:induction false} RunsAreIsolated(s: Store, ops: seq<Op>, clock: Clock, branch: string)
    requires Inv(s) && KnownBranch(s.branches, branch)
    requires forall op :: op in ops ==> !op.ArchiveOp? && op.branch !in Ancestors(s.branches, branch)
    ensures var s' := Run(s, ops, clock);
            && |s.facts| <= |s'.facts|
            && FactsOnBranch(s', branch) == FactsOnBranch(s, branch)
            && BeliefsOnBranch(s', branch) == BeliefsOnBranch(s, branch)
            && forall r :: r in FactsOnBranch(s, branch) ==> s'.facts[r.row] == s.facts[r.row]
    decreases |ops|
  {
    if ops == [] {
    } else {
      WritesAreIsolated(s, ops[0], clock, branch);
      RunsAreIsolated(Step(s, ops[0], clock).0, ops[1..], clock, branch);
    }
  }
}
