/** Time travel: the rows serve every past transaction, so a later run may stamp and append but never change
    what an earlier transaction sees. */
module TimeTravel {
  import opened Wrappers
  import opened BrainTypes
  import opened BranchChain
  import opened RowSelection
  import opened BrainReads
  import opened BrainWrites
  import opened BrainInvariant
  import opened FactHeads
  import opened BrainSteps

  /** Row `f'` is row `f` some transactions later: same content, and stamps set only by transactions from
      `next` on. */
  ghost predicate AgedInto(f: Fact, f': Fact, next: TxId) {
    && f' == f.(supersededByTx := f'.supersededByTx, revokedByTx := f'.revokedByTx, validTo := f'.validTo)
    && (f'.supersededByTx == f.supersededByTx
        || (f.supersededByTx.None? && f'.supersededByTx.Some? && f'.supersededByTx.value >= next))
    && (f'.revokedByTx == f.revokedByTx
        || (f.revokedByTx.None? && f'.revokedByTx.Some? && f'.revokedByTx.value >= next))
  }

  /** `s'` is reached from `s` by calls other than `archive_branch`. */
  ghost predicate Later(s: Store, s': Store) {
    && s.nextTx <= s'.nextTx
    && (forall tx: TxId :: tx < s.nextTx ==> TxBranch(s', tx) == TxBranch(s, tx))
    && s.transactions <= s'.transactions
    && |s.facts| <= |s'.facts|
    && (forall i :: 0 <= i < |s.facts| ==> AgedInto(s.facts[i], s'.facts[i], s.nextTx))
    && (forall i :: |s.facts| <= i < |s'.facts| ==> s'.facts[i].createdByTx >= s.nextTx)
    && s.beliefs <= s'.beliefs
    && (forall i :: |s.beliefs| <= i < |s'.beliefs| ==> s'.beliefs[i].createdByTx >= s.nextTx)
    && (forall b :: KnownBranch(s.branches, b) ==>
          KnownBranch(s'.branches, b) && Ancestors(s'.branches, b) == Ancestors(s.branches, b))
  }

  lemma ExtendingIsLater(s: Store, s': Store, branch: string)
    requires Inv(s) && Extends(s, s', branch)
    ensures Later(s, s')
  {
    if |s'.branches| > |s.branches| {
      var row := s'.branches[|s.branches|];
      assert s'.branches == s.branches + [row];
      forall b | KnownBranch(s.branches, b)
        ensures KnownBranch(s'.branches, b) && Ancestors(s'.branches, b) == Ancestors(s.branches, b)
      {
        FirstRowOfAppended(s.branches, row, b);
        WalkOfAppended(s.branches, row, b, CHAIN_LIMIT);
      }
    } else {
      assert s'.branches == s.branches;
    }
  }

  lemma LaterReflexive(s: Store)
    ensures Later(s, s)
  {
  }

  lemma LaterTransitive(s: Store, s': Store, s'': Store)
    requires Later(s, s') && Later(s', s'')
    ensures Later(s, s'')
  {
    forall i | |s.facts| <= i < |s''.facts|
      ensures s''.facts[i].createdByTx >= s.nextTx
    {
      assert i < |s'.facts| ==> AgedInto(s'.facts[i], s''.facts[i], s'.nextTx);
    }
    forall i | 0 <= i < |s.facts|
      ensures AgedInto(s.facts[i], s''.facts[i], s.nextTx)
    {
      assert AgedInto(s.facts[i], s'.facts[i], s.nextTx) && AgedInto(s'.facts[i], s''.facts[i], s'.nextTx);
    }
  }

  lemma {:induction false} RunIsLater(s: Store, ops: seq<Op>, clock: Clock)
    requires Inv(s)
    requires forall op :: op in ops ==> !op.ArchiveOp?
    ensures Later(s, Run(s, ops, clock))
    decreases |ops|
  {
    if ops == [] {
    } else {
      var s' := Step(s, ops[0], clock).0;
      StepEffect(s, ops[0], clock);
      if Step(s, ops[0], clock).1.Ok? {
        ExtendingIsLater(s, s', ops[0].branch);
      }
      RunIsLater(s', ops[1..], clock);
      LaterTransitive(s, s', Run(s', ops[1..], clock));
    }
  }

  /** The rows a past transaction can see, whatever was appended or indexed since. */
  lemma SameEligible(s: Store, s': Store, keys: seq<Key>, keys': seq<Key>, chain: seq<string>, t: TxId)
    requires Later(s, s') && t < s.nextTx
    requires |keys| <= |keys'|
    requires forall i :: 0 <= i < |keys| ==> keys[i].tx == keys'[i].tx && (keys[i].tx <= t ==> keys[i] == keys'[i])
    requires forall i :: |keys| <= i < |keys'| ==> keys'[i].tx >= s.nextTx
    ensures NewestRows(s'.txBranch, keys', chain, t) == NewestRows(s.txBranch, keys, chain, t)
  {
    forall tx: TxId | tx <= t
      ensures (tx in s.txBranch <==> tx in s'.txBranch) && (tx in s.txBranch ==> s.txBranch[tx] == s'.txBranch[tx])
    {
      assert TxBranch(s', tx) == TxBranch(s, tx);
    }
    EligibleIgnoresLaterRows(s.txBranch, s'.txBranch, keys, keys', chain, t);
  }

  lemma SameRevokedInView(s: Store, s': Store, i: nat, t: TxId, chain: seq<string>)
    requires Inv(s) && Later(s, s') && t < s.nextTx && i < |s.facts|
    ensures RevokedInView(s', s'.facts[i], t, chain) == RevokedInView(s, s.facts[i], t, chain)
  {
    assert RowOk(s, i) && AgedInto(s.facts[i], s'.facts[i], s.nextTx);
    var rev := s.facts[i].revokedByTx;
    assert rev.Some? ==> TxBranch(s', rev.value) == TxBranch(s, rev.value);
  }

  lemma {:induction false} SameDropRevoked(s: Store, s': Store, rs: seq<RowRef>, t: TxId, chain: seq<string>)
    requires Inv(s) && Later(s, s') && t < s.nextTx
    requires InFacts(s, rs)
    ensures InFacts(s', rs)
    ensures DropRevoked(s', rs, t, chain) == DropRevoked(s, rs, t, chain)
  {
    if rs == [] {
    } else {
      SameRevokedInView(s, s', rs[0].row, t, chain);
      SameDropRevoked(s, s', rs[1..], t, chain);
    }
  }

  lemma SameChainOfTx(s: Store, s': Store, t: TxId)
    requires Inv(s) && Later(s, s') && t in s.txBranch
    ensures TxBranchOrMain(s', t) == TxBranchOrMain(s, t)
    ensures Ancestors(s'.branches, TxBranchOrMain(s, t)) == Ancestors(s.branches, TxBranchOrMain(s, t))
  {
    assert TxBranch(s', t) == TxBranch(s, t);
    assert KnownBranch(s.branches, s.txBranch[t]);
  }

  /** `facts_as_of(t)` gives the same rows in the same order in every later store. */
  lemma FactsAsOfStable(s: Store, s': Store, t: TxId)
    requires Inv(s) && Later(s, s') && t in s.txBranch
    ensures FactsAsOf(s', t) == FactsAsOf(s, t)
  {
    SameChainOfTx(s, s', t);
    var chain := Ancestors(s.branches, TxBranchOrMain(s, t));
    var keys, keys' := FactKeys(s.facts), FactKeys(s'.facts);
    forall i | 0 <= i < |keys|
      ensures keys[i] == keys'[i]
    {
      assert AgedInto(s.facts[i], s'.facts[i], s.nextTx);
    }
    SameEligible(s, s', keys, keys', chain, t);
    SameDropRevoked(s, s', NewestRows(s.txBranch, keys, chain, t), t, chain);
  }

  lemma {:induction false} EligibleAtLatest(
    txBranch: map<TxId, string>, keys: seq<Key>, chain: seq<string>, t: TxId, t': TxId)
    requires t <= t' && forall i :: 0 <= i < |keys| ==> keys[i].tx <= t
    ensures Eligible(txBranch, keys, chain, t) == Eligible(txBranch, keys, chain, t')
  {
    if keys == [] {
    } else {
      EligibleAtLatest(txBranch, keys[..|keys| - 1], chain, t, t');
    }
  }

  lemma {:induction false} DropRevokedAtLatest(s: Store, rs: seq<RowRef>, t: TxId, chain: seq<string>)
    requires Inv(s) && t == s.nextTx - 1
    requires InFacts(s, rs)
    ensures DropRevoked(s, rs, t, chain) == DropRevoked(s, rs, TX_MAX, chain)
  {
    if rs == [] {
    } else {
      assert RowOk(s, rs[0].row);
      DropRevokedAtLatest(s, rs[1..], t, chain);
    }
  }

  lemma NewestAtLatest(s: Store, chain: seq<string>)
    requires Inv(s)
    ensures NewestRows(s.txBranch, FactKeys(s.facts), chain, s.nextTx - 1)
            == NewestRows(s.txBranch, FactKeys(s.facts), chain, TX_MAX)
  {
    var keys := FactKeys(s.facts);
    forall i | 0 <= i < |keys|
      ensures keys[i].tx <= s.nextTx - 1
    {
      RowsAreCommitted(s, i);
    }
    EligibleAtLatest(s.txBranch, keys, chain, s.nextTx - 1, TX_MAX);
  }

  /** As of the latest transaction, a branch shows what it shows now. */
  lemma LatestIsNow(s: Store, branch: string)
    requires Inv(s)
    ensures LiveFacts(s, branch, s.nextTx - 1) == FactsOnBranch(s, branch)
  {
    var chain := Ancestors(s.branches, branch);
    NewestAtLatest(s, chain);
    DropRevokedAtLatest(s, NewestRows(s.txBranch, FactKeys(s.facts), chain, TX_MAX), s.nextTx - 1, chain);
  }

  /** Time travel: for the transaction `t` committed last in `s`, and every later run without
      `archive_branch`, `facts_as_of(t)` selects the rows `facts_on_branch` of `t`'s branch listed right
      after `t`, in the same order and with the same content. */
  lemma FactsAsOfIsThePast(s: Store, ops: seq<Op>, clock: Clock)
    requires Inv(s) && s.nextTx > 1
    requires forall op :: op in ops ==> !op.ArchiveOp?
    ensures var t := s.nextTx - 1;
            var s' := Run(s, ops, clock);
            && t in s.txBranch
            && FactsAsOf(s', t) == FactsOnBranch(s, s.txBranch[t])
            && |s.facts| <= |s'.facts|
            && forall i :: 0 <= i < |s.facts| ==> AgedInto(s.facts[i], s'.facts[i], s.nextTx)
  {
    RunIsLater(s, ops, clock);
    FactsAsOfStable(s, Run(s, ops, clock), s.nextTx - 1);
    LatestIsNow(s, s.txBranch[s.nextTx - 1]);
  }

  // ----- Beliefs -----

  lemma {:induction false} SameActiveBeliefs(bs: seq<Belief>, bs': seq<Belief>, rs: seq<RowRef>, seen: set<string>)
    requires bs <= bs'
    requires forall i :: 0 <= i < |rs| ==> rs[i].row < |bs|
    ensures ActiveBeliefs(bs', rs, seen) == ActiveBeliefs(bs, rs, seen)
  {
    if rs == [] {
    } else {
      SameActiveBeliefs(bs, bs', rs[1..], seen);
      SameActiveBeliefs(bs, bs', rs[1..], seen + {bs[rs[0].row].claimText});
    }
  }

  lemma {:induction false} SameKeepValid(bs: seq<Belief>, bs': seq<Belief>, rs: seq<RowRef>, ts: Time)
    requires bs <= bs'
    requires forall i :: 0 <= i < |rs| ==> rs[i].row < |bs|
    ensures KeepValidBeliefs(bs', rs, ts) == KeepValidBeliefs(bs, rs, ts)
  {
    if rs == [] {
    } else {
      SameKeepValid(bs, bs', rs[1..], ts);
    }
  }

  lemma SameBeliefKeys(s: Store, s': Store, t: TxId, ts: Time)
    requires Inv(s) && Later(s, s') && t in s.txBranch
    ensures s.beliefs <= s'.beliefs
    ensures var chain := Ancestors(s.branches, TxBranchOrMain(s, t));
            && NewestRows(s'.txBranch, BeliefKeys(s'.beliefs), chain, t)
               == NewestRows(s.txBranch, BeliefKeys(s.beliefs), chain, t)
            && NewestRows(s'.txBranch, BeliefKeysInEffect(s'.beliefs, ts), chain, t)
               == NewestRows(s.txBranch, BeliefKeysInEffect(s.beliefs, ts), chain, t)
  {
    hide NewestRows, Ancestors;
    var chain := Ancestors(s.branches, TxBranchOrMain(s, t));
    SameEligible(s, s', BeliefKeys(s.beliefs), BeliefKeys(s'.beliefs), chain, t);
    SameEligible(s, s', BeliefKeysInEffect(s.beliefs, ts), BeliefKeysInEffect(s'.beliefs, ts), chain, t);
  }

  /** Belief rows never change, so `beliefs_as_of(t)` and `beliefs_bitemporal(t, ts)` give the same rows in
      every later store. */
  lemma BeliefTimeTravel(s: Store, s': Store, t: TxId, ts: Time)
    requires Inv(s) && Later(s, s') && t in s.txBranch
    ensures s.beliefs <= s'.beliefs
    ensures BeliefsAsOf(s', t) == BeliefsAsOf(s, t)
    ensures BeliefsBitemporal(s', t, ts) == BeliefsBitemporal(s, t, ts)
  {
    SameChainOfTx(s, s', t);
    SameBeliefKeys(s, s', t, ts);
    hide Inv, Later, Ancestors, NewestRows;
    var chain := Ancestors(s.branches, TxBranchOrMain(s, t));
    SameActiveBeliefs(s.beliefs, s'.beliefs, NewestRows(s.txBranch, BeliefKeys(s.beliefs), chain, t), {});
    var heads := NewestRows(s.txBranch, BeliefKeysInEffect(s.beliefs, ts), chain, t);
    SameActiveBeliefs(s.beliefs, s'.beliefs, heads, {});
    SameKeepValid(s.beliefs, s'.beliefs, ActiveBeliefs(s.beliefs, heads, {}), ts);
  }

  /** A belief view keeps active heads whose claim is not in `seen`. */
  lemma {:induction false} ActiveBeliefsMembers(bs: seq<Belief>, rs: seq<RowRef>, seen: set<string>)
    requires forall i :: 0 <= i < |rs| ==> rs[i].row < |bs|
    ensures forall r :: r in ActiveBeliefs(bs, rs, seen) ==>
              r in rs && bs[r.row].status == Active && bs[r.row].claimText !in seen
  {
    if rs == [] {
    } else {
      ActiveBeliefsMembers(bs, rs[1..], seen);
      ActiveBeliefsMembers(bs, rs[1..], seen + {bs[rs[0].row].claimText});
    }
  }

  ghost predicate DistinctIds(rs: seq<RowRef>) {
    forall i, j :: 0 <= i < j < |rs| ==> rs[i].id != rs[j].id
  }

  ghost predicate DistinctClaims(bs: seq<Belief>, rs: seq<RowRef>)
    requires forall i :: 0 <= i < |rs| ==> rs[i].row < |bs|
  {
    forall i, j :: 0 <= i < j < |rs| ==> bs[rs[i].row].claimText != bs[rs[j].row].claimText
  }

  lemma DistinctTail(rs: seq<RowRef>)
    requires rs != [] && DistinctIds(rs)
    ensures DistinctIds(rs[1..]) && forall r :: r in rs[1..] ==> r.id != rs[0].id
  {
    assert forall i :: 0 <= i < |rs| - 1 ==> rs[1..][i] == rs[i + 1];
  }

  lemma DistinctClaimsTail(bs: seq<Belief>, rs: seq<RowRef>)
    requires forall i :: 0 <= i < |rs| ==> rs[i].row < |bs|
    requires rs != [] && DistinctClaims(bs, rs)
    ensures DistinctClaims(bs, rs[1..])
    ensures forall r :: r in rs[1..] ==> r.row < |bs| && bs[r.row].claimText != bs[rs[0].row].claimText
  {
    assert forall i :: 0 <= i < |rs| - 1 ==> rs[1..][i] == rs[i + 1];
  }

  lemma DistinctCons(bs: seq<Belief>, first: RowRef, tail: seq<RowRef>)
    requires first.row < |bs| && forall i :: 0 <= i < |tail| ==> tail[i].row < |bs|
    requires DistinctIds(tail) && DistinctClaims(bs, tail)
    requires forall r :: r in tail ==> r.id != first.id && bs[r.row].claimText != bs[first.row].claimText
    ensures DistinctIds([first] + tail) && DistinctClaims(bs, [first] + tail)
  {
    var rs := [first] + tail;
    assert rs[0] == first && forall i :: 0 < i < |rs| ==> rs[i] == tail[i - 1] && rs[i] in tail;
  }

  /** It keeps at most one row per claim text, and repeats an id only if the heads do. */
  lemma {:induction false} ActiveBeliefsUnique(bs: seq<Belief>, rs: seq<RowRef>, seen: set<string>)
    requires forall i :: 0 <= i < |rs| ==> rs[i].row < |bs|
    requires DistinctIds(rs)
    ensures DistinctIds(ActiveBeliefs(bs, rs, seen))
    ensures DistinctClaims(bs, ActiveBeliefs(bs, rs, seen))
  {
    if rs == [] {
    } else {
      DistinctTail(rs);
      var b := bs[rs[0].row];
      var keep := b.status == Active && b.claimText !in seen;
      var seen' := if keep then seen + {b.claimText} else seen;
      var tail := ActiveBeliefs(bs, rs[1..], seen');
      assert ActiveBeliefs(bs, rs, seen) == if keep then [rs[0]] + tail else tail;
      hide ActiveBeliefs, DistinctIds, DistinctClaims;
      ActiveBeliefsUnique(bs, rs[1..], seen');
      ActiveBeliefsMembers(bs, rs[1..], seen');
      if keep {
        DistinctCons(bs, rs[0], tail);
      }
    }
  }

  /** No active claim is dropped unless another row shows the same claim. */
  lemma {:induction false} ActiveBeliefsComplete(bs: seq<Belief>, rs: seq<RowRef>, seen: set<string>, r: RowRef)
    requires forall i :: 0 <= i < |rs| ==> rs[i].row < |bs|
    requires r in rs && bs[r.row].status == Active && bs[r.row].claimText !in seen
    ensures exists x :: x in ActiveBeliefs(bs, rs, seen) && bs[x.row].claimText == bs[r.row].claimText
  {
    var out := ActiveBeliefs(bs, rs, seen);
    var b := bs[rs[0].row];
    if b.status == Active && b.claimText !in seen {
      assert out[0] == rs[0] && rs[0] in out;
      if b.claimText != bs[r.row].claimText {
        assert r in rs[1..];
        ActiveBeliefsComplete(bs, rs[1..], seen + {b.claimText}, r);
        var x :| x in ActiveBeliefs(bs, rs[1..], seen + {b.claimText}) && bs[x.row].claimText == bs[r.row].claimText;
        assert x in out;
      }
    } else {
      assert r in rs[1..];
      ActiveBeliefsComplete(bs, rs[1..], seen, r);
    }
  }

  lemma BeliefKeysDistinct(s: Store)
    requires Inv(s)
    ensures forall i, j :: 0 <= i < j < |s.beliefs| ==> BeliefKeys(s.beliefs)[i].tx != BeliefKeys(s.beliefs)[j].tx
  {
  }

  lemma BeliefHead(s: Store, keys: seq<Key>, chain: seq<string>, asOf: TxId, r: RowRef)
    requires Inv(s)
    requires keys == BeliefKeys(s.beliefs)
    requires r in NewestRows(s.txBranch, keys, chain, asOf)
    ensures IsHead(s.txBranch, keys, chain, asOf, r)
    ensures r.row < |s.beliefs| && r.id == s.beliefs[r.row].beliefId
  {
    BeliefKeysDistinct(s);
    NewestRowsSelects(s.txBranch, keys, chain, asOf);
  }

  /** A view holds at most one belief per belief id and at most one per claim text. */
  lemma BeliefViewIsUnique(s: Store, branch: string, asOf: TxId)
    requires Inv(s)
    ensures DistinctIds(BeliefsAt(s, branch, asOf))
    ensures DistinctClaims(s.beliefs, BeliefsAt(s, branch, asOf))
    ensures forall r :: r in BeliefsAt(s, branch, asOf) ==> r.id == s.beliefs[r.row].beliefId
  {
    var chain := Ancestors(s.branches, branch);
    var keys := BeliefKeys(s.beliefs);
    var rs := NewestRows(s.txBranch, keys, chain, asOf);
    BeliefKeysDistinct(s);
    NewestRowsSelects(s.txBranch, keys, chain, asOf);
    ActiveBeliefsUnique(s.beliefs, rs, {});
    ActiveBeliefsMembers(s.beliefs, rs, {});
    forall r | r in BeliefsAt(s, branch, asOf)
      ensures r.id == s.beliefs[r.row].beliefId
    {
      BeliefHead(s, keys, chain, asOf, r);
    }
  }

  lemma {:induction false} KeepValidMembers(bs: seq<Belief>, rs: seq<RowRef>, ts: Time)
    requires forall i :: 0 <= i < |rs| ==> rs[i].row < |bs|
    ensures forall r :: r in KeepValidBeliefs(bs, rs, ts) ==>
              r in rs && IsValidAt(bs[r.row].validFrom, bs[r.row].validTo, ts)
  {
    if rs == [] {
    } else {
      KeepValidMembers(bs, rs[1..], ts);
    }
  }

  lemma {:induction false} KeepValidUnique(bs: seq<Belief>, rs: seq<RowRef>, ts: Time)
    requires forall i :: 0 <= i < |rs| ==> rs[i].row < |bs|
    requires DistinctIds(rs) && DistinctClaims(bs, rs)
    ensures DistinctIds(KeepValidBeliefs(bs, rs, ts)) && DistinctClaims(bs, KeepValidBeliefs(bs, rs, ts))
  {
    if rs == [] {
    } else {
      DistinctTail(rs);
      DistinctClaimsTail(bs, rs);
      var tail := KeepValidBeliefs(bs, rs[1..], ts);
      assert KeepValidBeliefs(bs, rs, ts) == [rs[0]] + tail || KeepValidBeliefs(bs, rs, ts) == tail;
      hide KeepValidBeliefs, DistinctIds, DistinctClaims;
      KeepValidUnique(bs, rs[1..], ts);
      KeepValidMembers(bs, rs[1..], ts);
      DistinctCons(bs, rs[0], tail);
    }
  }

  /** The answer of `beliefs_bitemporal`, too, holds at most one belief per belief id and one per claim text. */
  lemma BitemporalBeliefsAreUnique(s: Store, tx: TxId, ts: Time)
    requires Inv(s)
    ensures DistinctIds(BeliefsBitemporal(s, tx, ts))
    ensures DistinctClaims(s.beliefs, BeliefsBitemporal(s, tx, ts))
    ensures forall r :: r in BeliefsBitemporal(s, tx, ts) ==> r.id == s.beliefs[r.row].beliefId
  {
    var chain := Ancestors(s.branches, TxBranchOrMain(s, tx));
    var keys := BeliefKeysInEffect(s.beliefs, ts);
    var heads := NewestRows(s.txBranch, keys, chain, tx);
    HeadsInEffect(s, chain, tx, ts);
    hide Inv, NewestRows, Ancestors, IsHead, DistinctIds, DistinctClaims, IsValidAt, ActiveBeliefs, KeepValidBeliefs;
    ActiveBeliefsUnique(s.beliefs, heads, {});
    ActiveBeliefsMembers(s.beliefs, heads, {});
    KeepValidUnique(s.beliefs, ActiveBeliefs(s.beliefs, heads, {}), ts);
    KeepValidMembers(s.beliefs, ActiveBeliefs(s.beliefs, heads, {}), ts);
    forall r | r in BeliefsBitemporal(s, tx, ts)
      ensures r.id == s.beliefs[r.row].beliefId
    {
      HeadId(s, keys, chain, tx, r);
    }
  }

  lemma HeadsInEffect(s: Store, chain: seq<string>, tx: TxId, ts: Time)
    requires Inv(s)
    ensures var keys := BeliefKeysInEffect(s.beliefs, ts);
            var heads := NewestRows(s.txBranch, keys, chain, tx);
            DistinctIds(heads) && forall r :: r in heads ==> IsHead(s.txBranch, keys, chain, tx, r)
  {
    BeliefKeysDistinct(s);
    hide Inv, NewestRows, IsHead;
    NewestRowsSelects(s.txBranch, BeliefKeysInEffect(s.beliefs, ts), chain, tx);
  }

  lemma HeadId(s: Store, keys: seq<Key>, chain: seq<string>, asOf: TxId, r: RowRef)
    requires |keys| == |s.beliefs| && forall i :: 0 <= i < |keys| ==> keys[i].id == s.beliefs[i].beliefId
    requires IsHead(s.txBranch, keys, chain, asOf, r)
    ensures r.row < |s.beliefs| && r.id == s.beliefs[r.row].beliefId
  {
  }

  /** Belief row `i` is the newest one for `id` written on `branch`, and it is a revocation. */
  ghost predicate RevokedHere(s: Store, branch: string, id: string, i: nat) {
    && i < |s.beliefs|
    && s.beliefs[i].beliefId == id && s.beliefs[i].status == Revoked
    && TxBranch(s, s.beliefs[i].createdByTx) == Some(branch)
    && forall j :: i < j < |s.beliefs| && TxBranch(s, s.beliefs[j].createdByTx) == Some(branch) ==>
         s.beliefs[j].beliefId != id
  }

  /** While the newest local row is a revocation, no claim of the id shows, inherited or earlier. */
  lemma RevokedIsHidden(s: Store, branch: string, id: string, i: nat)
    requires Inv(s) && RevokedHere(s, branch, id, i)
    ensures forall r :: r in BeliefsOnBranch(s, branch) ==> s.beliefs[r.row].beliefId != id
  {
    var chain := Ancestors(s.branches, branch);
    var keys := BeliefKeys(s.beliefs);
    var rs := NewestRows(s.txBranch, keys, chain, TX_MAX);
    ActiveBeliefsMembers(s.beliefs, rs, {});
    var own := RowRef(i, id, 0, s.beliefs[i].createdByTx);
    assert chain[0] == branch;
    assert Denotes(s.txBranch, keys, chain, TX_MAX, own);
    forall r | r in BeliefsOnBranch(s, branch)
      ensures s.beliefs[r.row].beliefId != id
    {
      BeliefHead(s, keys, chain, TX_MAX, r);
      assert r.id == id && r.row != i ==> Precedes(r, own);
    }
  }

  lemma RevokeHides(s: Store, branch: string, id: string, clock: Clock)
    requires Inv(s)
    requires RevokeBelief(s, branch, id, clock).1.Ok?
    ensures RevokedHere(RevokeBelief(s, branch, id, clock).0, branch, id, |s.beliefs|)
  {
    hide Inv, BeliefsOnBranch, IsSessionClosed, LiveBranch;
  }

  /** Only revisions and revocations append a belief row, and they append one for the id they name. */
  lemma AppendedBelief(s: Store, op: Op, clock: Clock)
    requires Inv(s)
    ensures var s' := Step(s, op, clock).0;
            |s'.beliefs| > |s.beliefs| ==>
              if op.Revise? then s'.beliefs[|s.beliefs|].beliefId == op.revision.beliefId
              else && op.Revoke? && s'.beliefs[|s.beliefs|].beliefId == op.id
                   && FindBelief(s, BeliefsOnBranch(s, op.branch), op.id).Some?
  {
    match op
    case Revise(b, rev) => RevisionAppends(s, b, rev, clock);
    case Revoke(b, id) => RevocationAppends(s, b, id, clock);
    case _ => OtherStepsKeepBeliefs(s, op, clock);
  }

  lemma OtherStepsKeepBeliefs(s: Store, op: Op, clock: Clock)
    requires !op.Revise? && !op.Revoke?
    ensures Step(s, op, clock).0.beliefs == s.beliefs
  {
    hide FactsOnBranch, IsSessionClosed, LiveBranch;
  }

  lemma RevisionAppends(s: Store, branch: string, rev: Revision, clock: Clock)
    ensures var s' := ReviseBelief(s, branch, rev, clock).0;
            |s'.beliefs| > |s.beliefs| ==> s'.beliefs[|s.beliefs|].beliefId == rev.beliefId
  {
    hide SupportFor, IsSessionClosed, LiveBranch;
  }

  lemma RevocationAppends(s: Store, branch: string, id: string, clock: Clock)
    ensures var s' := RevokeBelief(s, branch, id, clock).0;
            |s'.beliefs| > |s.beliefs| ==>
              s'.beliefs[|s.beliefs|].beliefId == id && FindBelief(s, BeliefsOnBranch(s, branch), id).Some?
  {
    hide BeliefsOnBranch, IsSessionClosed, LiveBranch;
  }

  lemma StepKeepsRevoked(s: Store, op: Op, clock: Clock, branch: string, id: string, i: nat)
    requires Inv(s) && RevokedHere(s, branch, id, i)
    requires !(op.Revise? && op.branch == branch && op.revision.beliefId == id)
    ensures RevokedHere(Step(s, op, clock).0, branch, id, i)
  {
    var (s', out) := Step(s, op, clock);
    StepEffect(s, op, clock);
    if out.Ok? && !op.ArchiveOp? {
      RevokedIsHidden(s, branch, id, i);
      AppendedBelief(s, op, clock);
      ExtendingKeepsRevoked(s, s', op.branch, branch, id, i);
    }
  }

  lemma BeliefWrittenBefore(s: Store, j: nat)
    requires Inv(s) && j < |s.beliefs|
    ensures s.beliefs[j].createdByTx in s.txBranch && s.beliefs[j].createdByTx != s.nextTx
  {
    hide FactsOk, WellFormed;
  }

  lemma ExtendingKeepsRevoked(s: Store, s': Store, writer: string, branch: string, id: string, i: nat)
    requires Inv(s) && RevokedHere(s, branch, id, i) && Extends(s, s', writer)
    requires |s'.beliefs| > |s.beliefs| && writer == branch ==> s'.beliefs[|s.beliefs|].beliefId != id
    ensures RevokedHere(s', branch, id, i)
  {
    hide Inv, WrittenOn, StampedBy;
    forall j | 0 <= j < |s.beliefs|
      ensures s'.beliefs[j] == s.beliefs[j]
      ensures TxBranch(s', s'.beliefs[j].createdByTx) == TxBranch(s, s.beliefs[j].createdByTx)
    {
      BeliefWrittenBefore(s, j);
    }
  }

  /** A revoked belief stays out of its branch's view, with no earlier or inherited claim resurfacing, until
      it is revised on that branch. */
  lemma {:induction false} RevokedStaysOut(s: Store, ops: seq<Op>, clock: Clock, branch: string, id: string, i: nat)
    requires Inv(s) && RevokedHere(s, branch, id, i)
    requires forall op :: op in ops ==> !(op.Revise? && op.branch == branch && op.revision.beliefId == id)
    ensures var s' := Run(s, ops, clock);
            forall r :: r in BeliefsOnBranch(s', branch) ==> s'.beliefs[r.row].beliefId != id
    decreases |ops|
  {
    if ops == [] {
      RevokedIsHidden(s, branch, id, i);
    } else {
      StepEffect(s, ops[0], clock);
      StepKeepsRevoked(s, ops[0], clock, branch, id, i);
      RevokedStaysOut(Step(s, ops[0], clock).0, ops[1..], clock, branch, id, i);
    }
  }
}
