/** The invariant of every reachable store: the transaction log, the version chains of the fact table, and
    the belief table. Every call keeps it, whatever the clock says. */
module BrainInvariant {
  import opened Wrappers
  import opened BrainTypes
  import opened BranchChain
  import opened RowSelection
  import opened BrainReads
  import opened BrainWrites
  import Text

  ghost predicate KnownBranch(bs: seq<Branch>, id: string) {
    FirstRow(bs, id) < |bs|
  }

  /** Ids are dense, each entry points at its predecessor, and every transaction's branch has a row. */
  ghost predicate LogOk(s: Store) {
    && s.nextTx == |s.transactions| + 1 <= TX_MAX
    && (forall i :: 0 <= i < |s.transactions| ==>
          && s.transactions[i].txId == i + 1
          && s.transactions[i].parentTxId == if i == 0 then None else Some(i))
    && (forall tx :: tx in s.txBranch <==> 1 <= tx < s.nextTx)
    && (forall tx :: tx in s.txBranch ==>
          s.txBranch[tx] == s.transactions[tx - 1].branchId && KnownBranch(s.branches, s.txBranch[tx]))
  }

  /** Rows `i` and `j` are versions of the same fact on the same branch. */
  ghost predicate SameChain(s: Store, i: nat, j: nat)
    requires i < |s.facts| && j < |s.facts|
  {
    s.facts[i].factId == s.facts[j].factId && TxBranch(s, s.facts[i].createdByTx) == TxBranch(s, s.facts[j].createdByTx)
  }

  /** Each transaction creates at most one fact row, in log order. */
  ghost predicate Rising(s: Store) {
    forall i, j :: 0 <= i < j < |s.facts| ==> s.facts[i].createdByTx < s.facts[j].createdByTx
  }

  /** A row is dated by its transaction, and a retraction stamp comes from a transaction of its own branch. */
  ghost predicate RowOk(s: Store, i: nat)
    requires i < |s.facts|
  {
    var f := s.facts[i];
    && f.createdByTx in s.txBranch
    && 1 <= f.createdByTx <= |s.transactions|
    && f.createdAt == s.transactions[f.createdByTx - 1].txTime
    && ValidPredicateName(f.pred)
    && (f.revokedByTx.Some? ==>
          && f.createdByTx <= f.revokedByTx.value
          && f.validTo.Some?
          && f.revokedByTx.value in s.txBranch
          && s.txBranch[f.revokedByTx.value] == s.txBranch[f.createdByTx])
  }

  /** Row `j` is the very next version after row `i`. */
  ghost predicate IsNext(s: Store, i: nat, j: nat)
    requires i < |s.facts|
  {
    && i < j < |s.facts|
    && SameChain(s, i, j)
    && forall k :: i < k < j ==> !SameChain(s, i, k)
  }

  /** Version `i` was superseded and closed by version `j`. */
  ghost predicate ClosedByVersion(s: Store, i: nat, j: nat)
    requires i < |s.facts|
  {
    && IsNext(s, i, j)
    && s.facts[i].supersededByTx == Some(s.facts[j].createdByTx)
    && s.facts[i].validTo == Some(CloseAt(s.facts[j].validFrom, s.facts[j].createdAt))
  }

  /** A supersede stamp names the very next version, and the row was closed at the earlier of that
      version's valid-from and transaction times. */
  ghost predicate SupersededByNext(s: Store, i: nat)
    requires i < |s.facts|
  {
    s.facts[i].supersededByTx.Some? ==> exists j: nat :: ClosedByVersion(s, i, j)
  }

  /** An open-ended row is the newest version of its chain. */
  ghost predicate OpenIsNewest(s: Store, i: nat)
    requires i < |s.facts|
  {
    s.facts[i].OpenEnded() ==> forall j :: i < j < |s.facts| ==> !SameChain(s, i, j)
  }

  predicate IsTombstone(f: Fact) {
    f.revokedByTx == Some(f.createdByTx)
  }

  /** A tombstone is the first version of its chain. */
  ghost predicate TombstoneIsFirst(s: Store, i: nat)
    requires i < |s.facts|
  {
    IsTombstone(s.facts[i]) ==> forall j :: 0 <= j < i ==> !SameChain(s, j, i)
  }

  ghost predicate FactsOk(s: Store) {
    && Rising(s)
    && (forall i :: 0 <= i < |s.facts| ==> RowOk(s, i))
    && (forall i :: 0 <= i < |s.facts| ==> SupersededByNext(s, i))
    && (forall i :: 0 <= i < |s.facts| ==> OpenIsNewest(s, i))
    && (forall i :: 0 <= i < |s.facts| ==> TombstoneIsFirst(s, i))
  }

  ghost predicate BeliefsOk(s: Store) {
    && (forall i :: 0 <= i < |s.beliefs| ==> s.beliefs[i].createdByTx in s.txBranch)
    && (forall i, j :: 0 <= i < j < |s.beliefs| ==> s.beliefs[i].createdByTx < s.beliefs[j].createdByTx)
  }

  ghost predicate Inv(s: Store) {
    && WellFormed(s.branches)
    && LogOk(s)
    && FactsOk(s)
    && BeliefsOk(s)
  }

  lemma NewStoreOk()
    ensures Inv(NewStore())
  {
  }

  // ----- What the invariant says about a version chain -----

  /** Per branch and fact id there is at most one open-ended row; it is the newest version, and the newest
      version is never superseded. */
  lemma NewestVersion(s: Store, i: nat, j: nat)
    requires Inv(s)
    requires i < |s.facts| && j < |s.facts| && SameChain(s, i, j)
    ensures s.facts[i].OpenEnded() && s.facts[j].OpenEnded() ==> i == j
    ensures s.facts[i].OpenEnded() ==> j <= i
    ensures s.facts[i].supersededByTx.Some? ==> exists k :: i < k < |s.facts| && SameChain(s, i, k)
  {
    assert OpenIsNewest(s, i) && OpenIsNewest(s, j) && SupersededByNext(s, i) && SameChain(s, j, i);
  }

  // ----- Preservation -----

  /** Row `k` keeps its place in its chain and its dates. */
  ghost predicate SamePlace(s: Store, s': Store, k: nat)
    requires k < |s.facts| && k < |s'.facts|
  {
    var f, f' := s.facts[k], s'.facts[k];
    && f'.factId == f.factId && f'.createdByTx == f.createdByTx
    && TxBranch(s', f'.createdByTx) == TxBranch(s, f.createdByTx)
    && f'.validFrom == f.validFrom && f'.createdAt == f.createdAt
  }

  ghost predicate AllInPlace(s: Store, s': Store) {
    |s.facts| == |s'.facts| && forall k :: 0 <= k < |s.facts| ==> SamePlace(s, s', k)
  }

  /** The chain conditions of row `i` survive when every row keeps its place and row `i` gains no supersede
      stamp, does not open, and does not turn into a tombstone. */
  lemma ChainConditionsSurvive(s: Store, s': Store, i: nat)
    requires AllInPlace(s, s') && i < |s.facts|
    requires SupersededByNext(s, i) && OpenIsNewest(s, i) && TombstoneIsFirst(s, i)
    requires var f, f' := s.facts[i], s'.facts[i];
             && f'.supersededByTx == f.supersededByTx
             && (f.supersededByTx.Some? ==> f'.validTo == f.validTo)
             && (f'.OpenEnded() ==> f.OpenEnded())
             && (IsTombstone(f') ==> IsTombstone(f))
    ensures SupersededByNext(s', i) && OpenIsNewest(s', i) && TombstoneIsFirst(s', i)
  {
    forall j, k | 0 <= j < |s.facts| && 0 <= k < |s.facts|
      ensures SameChain(s', j, k) == SameChain(s, j, k)
    {
      assert SamePlace(s, s', j) && SamePlace(s, s', k);
    }
    if s.facts[i].supersededByTx.Some? {
      var j: nat :| ClosedByVersion(s, i, j);
      assert SamePlace(s, s', j);
      assert IsNext(s', i, j) && ClosedByVersion(s', i, j);
    }
  }

  lemma LiveBranchIsKnown(bs: seq<Branch>, id: string)
    requires LiveBranch(bs, id)
    ensures KnownBranch(bs, id)
  {
  }

  /** A successful allocation extends the log by one entry; the rows are all older. */
  lemma AllocEffect(s: Store, branch: string, action: TxAction, refs: seq<string>, clock: Clock)
    requires Inv(s)
    requires AllocTx(s, branch, action, refs, clock).Ok?
    ensures var a := AllocTx(s, branch, action, refs, clock).value;
            && LogOk(a)
            && TxBranch(a, s.nextTx) == Some(branch)
            && (forall i :: 0 <= i < |s.facts| ==> s.facts[i].createdByTx < s.nextTx)
            && (forall i :: 0 <= i < |s.beliefs| ==> s.beliefs[i].createdByTx < s.nextTx)
            && a.transactions[s.nextTx - 1].txTime == clock(s.nextTx)
  {
    LiveBranchIsKnown(s.branches, branch);
    forall i | 0 <= i < |s.facts|
      ensures s.facts[i].createdByTx < s.nextTx
    {
      assert RowOk(s, i);
    }
  }

  /** The fact part of the invariant survives any growth of the log. */
  lemma FactsOkSurvives(s: Store, s': Store)
    requires FactsOk(s)
    requires s'.facts == s.facts && s.transactions <= s'.transactions
    requires forall tx :: tx in s.txBranch ==> tx in s'.txBranch && s'.txBranch[tx] == s.txBranch[tx]
    ensures FactsOk(s')
  {
    forall i | 0 <= i < |s.facts|
      ensures RowOk(s', i) && SamePlace(s, s', i)
    {
      assert RowOk(s, i);
    }
    assert AllInPlace(s, s');
    forall i | 0 <= i < |s.facts|
      ensures SupersededByNext(s', i) && OpenIsNewest(s', i) && TombstoneIsFirst(s', i)
    {
      assert SupersededByNext(s, i) && OpenIsNewest(s, i) && TombstoneIsFirst(s, i);
      ChainConditionsSurvive(s, s', i);
    }
    assert Rising(s');
  }

  lemma AllocKeepsInv(s: Store, branch: string, action: TxAction, refs: seq<string>, clock: Clock)
    requires Inv(s)
    requires AllocTx(s, branch, action, refs, clock).Ok?
    ensures Inv(AllocTx(s, branch, action, refs, clock).value)
  {
    var a := AllocTx(s, branch, action, refs, clock).value;
    AllocEffect(s, branch, action, refs, clock);
    FactsOkSurvives(s, a);
  }

  /** Row `f'` is row `f` with the stamps a retraction by `tx` may leave: an unrevoked row becomes revoked,
      and a superseded row keeps its end of validity. */
  ghost predicate RevokedBy(f: Fact, f': Fact, tx: TxId) {
    && f.revokedByTx.None?
    && f'.validTo.Some?
    && (f.supersededByTx.Some? ==> f'.validTo == f.validTo)
    && f' == f.(revokedByTx := Some(tx), validTo := f'.validTo)
  }

  lemma RevokingKeepsFactsOk(a: Store, facts': seq<Fact>, branch: string, tx: TxId)
    requires FactsOk(a)
    requires TxBranch(a, tx) == Some(branch)
    requires |facts'| == |a.facts|
    requires forall i :: 0 <= i < |facts'| ==> a.facts[i].createdByTx < tx
    requires forall i :: 0 <= i < |facts'| ==>
               facts'[i] == a.facts[i] || (RevokedBy(a.facts[i], facts'[i], tx) && WrittenOn(a, a.facts[i], branch))
    ensures FactsOk(a.(facts := facts'))
  {
    var s := a.(facts := facts');
    assert forall k :: 0 <= k < |s.facts| ==> SamePlace(a, s, k);
    assert AllInPlace(a, s);
    forall i | 0 <= i < |s.facts|
      ensures RowOk(s, i)
    {
      assert RowOk(a, i);
    }
    forall i | 0 <= i < |s.facts|
      ensures SupersededByNext(s, i) && OpenIsNewest(s, i) && TombstoneIsFirst(s, i)
    {
      assert SupersededByNext(a, i) && OpenIsNewest(a, i) && TombstoneIsFirst(a, i);
      ChainConditionsSurvive(a, s, i);
    }
    assert Rising(s);
  }

  /** `f` may follow the rows of `a`: it is the row of the newest transaction, and a tombstone only when
      its branch holds no version of the fact yet. */
  ghost predicate MayAppend(a: Store, f: Fact, branch: string) {
    && f.createdByTx in a.txBranch && a.txBranch[f.createdByTx] == branch
    && 1 <= f.createdByTx <= |a.transactions|
    && f.createdAt == a.transactions[f.createdByTx - 1].txTime
    && f.supersededByTx.None? && ValidPredicateName(f.pred)
    && (forall i :: 0 <= i < |a.facts| ==> a.facts[i].createdByTx < f.createdByTx)
    && (f.revokedByTx.Some? ==>
          && IsTombstone(f) && f.validTo.Some?
          && forall i :: 0 <= i < |a.facts| && WrittenOn(a, a.facts[i], branch) ==> a.facts[i].factId != f.factId)
  }

  /** The table after closing the open rows of `f`'s chain and appending `f`. */
  ghost predicate IsAppended(a: Store, facts': seq<Fact>, f: Fact, branch: string) {
    && |facts'| == |a.facts| + 1
    && facts'[|a.facts|] == f
    && forall i :: 0 <= i < |a.facts| ==>
         facts'[i] == ClosedBy(a, a.facts[i], branch, f.factId, f.createdByTx, CloseAt(f.validFrom, f.createdAt))
  }

  lemma AppendingKeepsSupersedes(a: Store, facts': seq<Fact>, f: Fact, branch: string, i: nat)
    requires FactsOk(a) && MayAppend(a, f, branch) && IsAppended(a, facts', f, branch)
    requires i < |a.facts|
    ensures SupersededByNext(a.(facts := facts'), i)
  {
    var s := a.(facts := facts');
    var n := |a.facts|;
    assert forall j, k :: 0 <= j < n && 0 <= k < n ==> SameChain(a, j, k) == SameChain(s, j, k);
    if a.facts[i].supersededByTx.Some? {
      assert SupersededByNext(a, i) && s.facts[i] == a.facts[i];
      var j: nat :| ClosedByVersion(a, i, j);
      assert IsNext(s, i, j) && ClosedByVersion(s, i, j);
    } else if s.facts[i].supersededByTx.Some? {
      assert OpenIsNewest(a, i);
      assert IsNext(s, i, n) && ClosedByVersion(s, i, n);
    }
  }

  lemma AppendingKeepsOpenRows(a: Store, facts': seq<Fact>, f: Fact, branch: string, i: nat)
    requires FactsOk(a) && MayAppend(a, f, branch) && IsAppended(a, facts', f, branch)
    requires i < |a.facts|
    ensures var s := a.(facts := facts'); RowOk(s, i) && OpenIsNewest(s, i)
  {
    var s := a.(facts := facts');
    assert RowOk(a, i) && OpenIsNewest(a, i);
    if s.facts[i].OpenEnded() {
      assert s.facts[i] == a.facts[i];
      forall j | i < j < |s.facts|
        ensures !SameChain(s, i, j)
      {
        assert j < |a.facts| ==> !SameChain(a, i, j);
      }
    }
  }

  lemma AppendingKeepsTombstones(a: Store, facts': seq<Fact>, f: Fact, branch: string)
    requires FactsOk(a) && MayAppend(a, f, branch) && IsAppended(a, facts', f, branch)
    ensures var s := a.(facts := facts');
            forall i :: 0 <= i < |facts'| ==> TombstoneIsFirst(s, i)
  {
    var s := a.(facts := facts');
    var n := |a.facts|;
    assert forall j, k :: 0 <= j < n && 0 <= k < n ==> SameChain(a, j, k) == SameChain(s, j, k);
    forall i | 0 <= i < n
      ensures TombstoneIsFirst(s, i)
    {
      assert TombstoneIsFirst(a, i);
    }
  }

  /** Appending a version keeps the invariant: every older open row of its chain has been closed by it. */
  lemma AppendingKeepsFactsOk(a: Store, facts': seq<Fact>, f: Fact, branch: string)
    requires FactsOk(a) && MayAppend(a, f, branch) && IsAppended(a, facts', f, branch)
    ensures FactsOk(a.(facts := facts'))
  {
    var s := a.(facts := facts');
    var n := |a.facts|;
    forall i | 0 <= i < n
      ensures RowOk(s, i) && SupersededByNext(s, i) && OpenIsNewest(s, i)
    {
      AppendingKeepsSupersedes(a, facts', f, branch, i);
      AppendingKeepsOpenRows(a, facts', f, branch, i);
    }
    AppendingKeepsTombstones(a, facts', f, branch);
    assert RowOk(s, n) && SupersededByNext(s, n) && OpenIsNewest(s, n);
    assert Rising(s);
  }
}
