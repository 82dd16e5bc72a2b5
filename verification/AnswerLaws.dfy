/** Which rows the valid-time, bitemporal and belief views list, by the fields of the rows. */
module AnswerLaws {
  import opened Wrappers
  import opened BrainTypes
  import opened BranchChain
  import opened RowSelection
  import opened BrainReads
  import opened BrainWrites
  import opened BrainInvariant
  import opened FactHeads
  import opened TimeTravel
  import opened Bitemporal
  import Text

  // ----- Rows along a chain -----

  /** A row of transaction `tx` is visible along the chain as of `asOf`. */
  predicate SeenBy(s: Store, chain: seq<string>, asOf: TxId, tx: TxId) {
    tx <= asOf && tx in s.txBranch && s.txBranch[tx] in chain
  }

  /** `a` was written nearer than `b`, or equally near and later. */
  predicate Before(s: Store, chain: seq<string>, a: TxId, b: TxId) {
    var near, far := Depth(s.txBranch, a, chain), Depth(s.txBranch, b, chain);
    near.Some? && far.Some? && (near.value < far.value || (near.value == far.value && a > b))
  }

  /** The reference under which a chain lists belief row `i`. */
  function BeliefRef(s: Store, chain: seq<string>, i: nat): RowRef
    requires i < |s.beliefs|
  {
    KeyRef(s.txBranch, BeliefKeys(s.beliefs), chain, i)
  }

  lemma SeenIsEligible(s: Store, keys: seq<Key>, chain: seq<string>, asOf: TxId, i: nat)
    requires i < |keys|
    ensures Denotes(s.txBranch, keys, chain, asOf, KeyRef(s.txBranch, keys, chain, i))
            <==> SeenBy(s, chain, asOf, keys[i].tx) && keys[i].keep
  {
  }

  lemma BeforeIsPrecedes(s: Store, keys: seq<Key>, chain: seq<string>, asOf: TxId, i: nat, j: nat)
    requires i < |keys| && j < |keys| && SeenBy(s, chain, asOf, keys[i].tx) && SeenBy(s, chain, asOf, keys[j].tx)
    ensures Precedes(KeyRef(s.txBranch, keys, chain, i), KeyRef(s.txBranch, keys, chain, j))
            <==> Before(s, chain, keys[i].tx, keys[j].tx)
  {
  }

  /** Row `i` is kept and comes before every other kept row of its id. */
  ghost predicate Leads(s: Store, keys: seq<Key>, chain: seq<string>, asOf: TxId, i: nat) {
    && i < |keys| && SeenBy(s, chain, asOf, keys[i].tx) && keys[i].keep
    && forall j :: 0 <= j < |keys| && j != i && keys[j].id == keys[i].id
                   && SeenBy(s, chain, asOf, keys[j].tx) && keys[j].keep ==>
         Before(s, chain, keys[i].tx, keys[j].tx)
  }

  lemma HeadLeads(s: Store, keys: seq<Key>, chain: seq<string>, asOf: TxId, i: nat)
    requires i < |keys|
    ensures IsHead(s.txBranch, keys, chain, asOf, KeyRef(s.txBranch, keys, chain, i))
            <==> Leads(s, keys, chain, asOf, i)
  {
    hide Depth, Precedes, Before;
    var r := KeyRef(s.txBranch, keys, chain, i);
    SeenIsEligible(s, keys, chain, asOf, i);
    forall j | 0 <= j < |keys|
      ensures Denotes(s.txBranch, keys, chain, asOf, KeyRef(s.txBranch, keys, chain, j))
              <==> SeenBy(s, chain, asOf, keys[j].tx) && keys[j].keep
    {
      SeenIsEligible(s, keys, chain, asOf, j);
    }
    forall x | Denotes(s.txBranch, keys, chain, asOf, x)
      ensures x == KeyRef(s.txBranch, keys, chain, x.row)
    {
      DenotesItsKey(s, keys, chain, asOf, x);
    }
    forall j | 0 <= j < |keys| && SeenBy(s, chain, asOf, keys[i].tx) && SeenBy(s, chain, asOf, keys[j].tx)
      ensures Precedes(r, KeyRef(s.txBranch, keys, chain, j)) <==> Before(s, chain, keys[i].tx, keys[j].tx)
    {
      BeforeIsPrecedes(s, keys, chain, asOf, i, j);
    }
  }

  lemma DenotesItsKey(s: Store, keys: seq<Key>, chain: seq<string>, asOf: TxId, x: RowRef)
    requires Denotes(s.txBranch, keys, chain, asOf, x)
    ensures x == KeyRef(s.txBranch, keys, chain, x.row)
  {
  }

  /** What a selection lists. */
  lemma SelectionIs(s: Store, keys: seq<Key>, chain: seq<string>, asOf: TxId)
    requires forall i, j :: 0 <= i < j < |keys| ==> keys[i].tx != keys[j].tx
    ensures var rs := NewestRows(s.txBranch, keys, chain, asOf);
            && StrictlyOrdered(rs)
            && (forall i :: 0 <= i < |keys| ==>
                  (KeyRef(s.txBranch, keys, chain, i) in rs <==> Leads(s, keys, chain, asOf, i)))
            && (forall r :: r in rs ==> r.row < |keys| && r == KeyRef(s.txBranch, keys, chain, r.row))
  {
    hide NewestRows, IsHead, Leads, Denotes;
    NewestRowsSelects(s.txBranch, keys, chain, asOf);
    var rs := NewestRows(s.txBranch, keys, chain, asOf);
    forall i | 0 <= i < |keys|
      ensures KeyRef(s.txBranch, keys, chain, i) in rs <==> Leads(s, keys, chain, asOf, i)
    {
      HeadLeads(s, keys, chain, asOf, i);
    }
    forall r | r in rs
      ensures r.row < |keys| && r == KeyRef(s.txBranch, keys, chain, r.row)
    {
      HeadIsItsKey(s, keys, chain, asOf, r);
    }
  }

  lemma HeadIsItsKey(s: Store, keys: seq<Key>, chain: seq<string>, asOf: TxId, r: RowRef)
    requires IsHead(s.txBranch, keys, chain, asOf, r)
    ensures r.row < |keys| && r == KeyRef(s.txBranch, keys, chain, r.row)
  {
  }

  // ----- Bitemporal facts -----

  /** As far as `t` knows, the row's validity ended by `ts`: a stamp of a later transaction had not set the end. */
  predicate EndedBy(s: Store, f: Fact, t: TxId, ts: Time) {
    && f.validTo.Some? && !Text.Less(ts, f.validTo.value)
    && !(f.supersededByTx.Some? && f.supersededByTx.value > t)
    && !(f.revokedByTx.Some? && f.revokedByTx.value > t && f.revokedByTx.value <= |s.transactions|
         && s.transactions[f.revokedByTx.value - 1].txTime == f.validTo.value)
  }

  /** Row `i` may answer at `(t, ts)`: visible to `t`, of an id listed as of `t`, not yet revoked, and valid. */
  ghost predicate Answers(s: Store, chain: seq<string>, t: TxId, ts: Time, i: nat) {
    && i < |s.facts|
    && var f := s.facts[i];
       && SeenBy(s, chain, t, f.createdByTx)
       && (exists x :: x in FactsAsOf(s, t) && x.id == f.factId)
       && (f.revokedByTx.Some? ==> f.revokedByTx.value > t)
       && !Text.Less(ts, f.validFrom) && !EndedBy(s, f, t, ts)
  }

  lemma ReadingIs(s: Store, i: nat, t: TxId, ts: Time)
    requires Inv(s) && i < |s.facts|
    ensures var f := s.facts[i];
            IsValidAt(f.validFrom, ValidToAsOf(s, f, t), ts) <==> !Text.Less(ts, f.validFrom) && !EndedBy(s, f, t, ts)
  {
    assert RowOk(s, i);
    var f := s.facts[i];
    if f.revokedByTx.Some? {
      LoggedTime(s, f.revokedByTx.value);
    }
    hide FactsOk, BeliefsOk, TimeOf;
  }

  lemma RevokedIs(s: Store, i: nat, t: TxId, chain: seq<string>)
    requires Inv(s) && i < |s.facts| && SeenBy(s, chain, t, s.facts[i].createdByTx)
    ensures RevokedInView(s, s.facts[i], t, chain)
            <==> s.facts[i].revokedByTx.Some? && s.facts[i].revokedByTx.value <= t
  {
    assert RowOk(s, i);
  }

  lemma KeepIs(s: Store, t: TxId, ts: Time, i: nat)
    requires Inv(s) && t in s.txBranch && i < |s.facts|
    ensures var branch := s.txBranch[t];
            var chain := Ancestors(s.branches, branch);
            var keys := BitemporalKeys(s, Ids(LiveFacts(s, branch, t)), chain, t, ts);
            SeenBy(s, chain, t, keys[i].tx) && keys[i].keep <==> Answers(s, chain, t, ts, i)
  {
    var branch := s.txBranch[t];
    var chain := Ancestors(s.branches, branch);
    if SeenBy(s, chain, t, s.facts[i].createdByTx) {
      ReadingIs(s, i, t, ts);
      RevokedIs(s, i, t, chain);
    }
    hide Inv, LiveFacts, Ancestors, IsValidAt, ValidToAsOf, EndedBy, RevokedInView;
  }

  /** Row `i` answers: it may, and comes before every other row of its id that may. */
  ghost predicate FirstAnswer(s: Store, chain: seq<string>, t: TxId, ts: Time, i: nat) {
    && Answers(s, chain, t, ts, i)
    && forall j: nat :: j != i && Answers(s, chain, t, ts, j) && s.facts[j].factId == s.facts[i].factId ==>
         Before(s, chain, s.facts[i].createdByTx, s.facts[j].createdByTx)
  }

  /** The keys of an answer, by what they keep. */
  ghost predicate AnswerKeysOf(s: Store, keys: seq<Key>, chain: seq<string>, t: TxId, ts: Time) {
    && |keys| == |s.facts|
    && forall i :: 0 <= i < |keys| ==>
         keys[i].id == s.facts[i].factId && keys[i].tx == s.facts[i].createdByTx
         && (SeenBy(s, chain, t, keys[i].tx) && keys[i].keep <==> Answers(s, chain, t, ts, i))
  }

  lemma LeadingAnswers(s: Store, keys: seq<Key>, chain: seq<string>, t: TxId, ts: Time, i: nat)
    requires AnswerKeysOf(s, keys, chain, t, ts) && i < |keys|
    ensures Leads(s, keys, chain, t, i) <==> FirstAnswer(s, chain, t, ts, i)
    ensures KeyRef(s.txBranch, keys, chain, i) == RefTo(s, chain, i)
  {
    assert forall j: nat :: Answers(s, chain, t, ts, j) ==> j < |s.facts|;
    hide Answers, Before, SeenBy;
  }

  lemma AnswerKeysAre(s: Store, t: TxId, ts: Time)
    requires Inv(s) && t in s.txBranch
    ensures var chain := Ancestors(s.branches, s.txBranch[t]);
            AnswerKeysOf(s, BitemporalKeys(s, Ids(LiveFacts(s, s.txBranch[t], t)), chain, t, ts), chain, t, ts)
  {
    hide Inv, LiveFacts, Ancestors, KeepBitemporal, SeenBy, Answers;
    forall i | 0 <= i < |s.facts|
      ensures var chain := Ancestors(s.branches, s.txBranch[t]);
              var keys := BitemporalKeys(s, Ids(LiveFacts(s, s.txBranch[t], t)), chain, t, ts);
              SeenBy(s, chain, t, keys[i].tx) && keys[i].keep <==> Answers(s, chain, t, ts, i)
    {
      KeepIs(s, t, ts, i);
    }
  }

  lemma FactTxsDistinct(s: Store, keys: seq<Key>)
    requires Inv(s) && |keys| == |s.facts| && forall i :: 0 <= i < |keys| ==> keys[i].tx == s.facts[i].createdByTx
    ensures forall i, j :: 0 <= i < j < |keys| ==> keys[i].tx != keys[j].tx
  {
    assert Rising(s);
  }

  lemma BeliefTxsDistinct(s: Store, keys: seq<Key>)
    requires Inv(s) && |keys| == |s.beliefs| && forall i :: 0 <= i < |keys| ==> keys[i].tx == s.beliefs[i].createdByTx
    ensures forall i, j :: 0 <= i < j < |keys| ==> keys[i].tx != keys[j].tx
  {
    hide FactsOk, WellFormed;
  }

  /** `facts_bitemporal(t, ts)` lists, in view order, exactly the rows that may answer and before which no other such
      row of their id comes. */
  lemma BitemporalAnswerIs(s: Store, t: TxId, ts: Time)
    requires Inv(s) && t in s.txBranch
    ensures var chain := Ancestors(s.branches, s.txBranch[t]);
            var rs := FactsBitemporal(s, t, ts);
            && StrictlyOrdered(rs)
            && (forall r :: r in rs ==> r == RefTo(s, chain, r.row))
            && (forall i :: 0 <= i < |s.facts| ==> (RefTo(s, chain, i) in rs <==> FirstAnswer(s, chain, t, ts, i)))
  {
    var branch := s.txBranch[t];
    var chain := Ancestors(s.branches, branch);
    var keys := BitemporalKeys(s, Ids(LiveFacts(s, branch, t)), chain, t, ts);
    AnswerKeysAre(s, t, ts);
    FactTxsDistinct(s, keys);
    hide Inv, LiveFacts, Ancestors, NewestRows, KeepBitemporal, Leads, FirstAnswer, AnswerKeysOf, StrictlyOrdered,
      RefTo;
    SelectionIs(s, keys, chain, t);
    forall i | 0 <= i < |s.facts|
      ensures KeyRef(s.txBranch, keys, chain, i) == RefTo(s, chain, i)
      ensures Leads(s, keys, chain, t, i) <==> FirstAnswer(s, chain, t, ts, i)
    {
      LeadingAnswers(s, keys, chain, t, ts, i);
    }
    hide KeyRef;
  }

  /** `facts_valid_at_on_branch` lists, in view order, exactly the rows of the view whose interval holds the time. */
  lemma ValidAtIs(s: Store, branch: string, ts: Time)
    requires Inv(s)
    ensures var rs := FactsValidAtOnBranch(s, branch, ts);
            && StrictlyOrdered(rs)
            && forall r :: r in rs
                           <==> && r in FactsOnBranch(s, branch)
                                && !Text.Less(ts, s.facts[r.row].validFrom)
                                && (s.facts[r.row].validTo.None? || Text.Less(ts, s.facts[r.row].validTo.value))
  {
    ViewIsOrdered(s, branch);
    hide FactsOnBranch, Text.Less, Inv;
    KeptInOrder(s, FactsOnBranch(s, branch), ts);
  }

  lemma {:induction false} KeptInOrder(s: Store, rs: seq<RowRef>, ts: Time)
    requires InFacts(s, rs) && StrictlyOrdered(rs)
    ensures StrictlyOrdered(KeepValidFacts(s, rs, ts))
  {
    hide Precedes, IsValidAt;
    if rs == [] {
    } else {
      KeptInOrder(s, rs[1..], ts);
      var tail := KeepValidFacts(s, rs[1..], ts);
      forall k | 0 <= k < |tail|
        ensures Precedes(rs[0], tail[k])
      {
        assert tail[k] in tail && tail[k] in rs[1..];
      }
    }
  }

  /** A transaction that is not in the log is asked on `main`. */
  lemma UnknownTxReadsMain(s: Store, t: TxId)
    requires t !in s.txBranch
    ensures FactsAsOf(s, t) == LiveFacts(s, "main", t) && BeliefsAsOf(s, t) == BeliefsAt(s, "main", t)
  {
    hide LiveFacts, BeliefsAt;
  }

  /** The rows a branch shows as of a transaction: nearest and newest of their id, and not revoked by then. */
  lemma LiveFactsAre(s: Store, branch: string, asOf: TxId)
    requires Inv(s)
    ensures var chain := Ancestors(s.branches, branch);
            var rs := LiveFacts(s, branch, asOf);
            && StrictlyOrdered(rs)
            && (forall r :: r in rs ==> r == RefTo(s, chain, r.row))
            && (forall i :: 0 <= i < |s.facts| ==> (RefTo(s, chain, i) in rs <==> LiveThen(s, chain, asOf, i)))
  {
    var chain := Ancestors(s.branches, branch);
    var keys := FactKeys(s.facts);
    var heads := NewestRows(s.txBranch, keys, chain, asOf);
    FactKeysDistinct(s);
    hide NewestRows, Ancestors, RevokedInView, StrictlyOrdered, DropRevoked, Leads, NewestOfId, SeenBy, RefTo, KeyRef,
      Inv;
    SelectionIs(s, keys, chain, asOf);
    DropRevokedOrdered(s, heads, asOf, chain);
    DropRevokedIsExact(s, heads, asOf, chain);
    forall i | 0 <= i < |s.facts|
      ensures RefTo(s, chain, i) in LiveFacts(s, branch, asOf) <==> LiveThen(s, chain, asOf, i)
    {
      LeadingIsNewest(s, chain, asOf, i);
      if SeenBy(s, chain, asOf, s.facts[i].createdByTx) {
        RevokedIs(s, i, asOf, chain);
      }
    }
    forall r | r in heads
      ensures r == RefTo(s, chain, r.row)
    {
      LeadingIsNewest(s, chain, asOf, r.row);
    }
    hide LiveThen;
  }

  /** Row `i` is visible, not revoked by then, and before every other visible row of its id. */
  ghost predicate LiveThen(s: Store, chain: seq<string>, asOf: TxId, i: nat)
    requires i < |s.facts|
  {
    && SeenBy(s, chain, asOf, s.facts[i].createdByTx)
    && (s.facts[i].revokedByTx.Some? ==> s.facts[i].revokedByTx.value > asOf)
    && NewestOfId(s, chain, asOf, i)
  }

  /** Row `i` comes before every other row of its id that is visible as of `asOf`. */
  ghost predicate NewestOfId(s: Store, chain: seq<string>, asOf: TxId, i: nat)
    requires i < |s.facts|
  {
    forall j :: 0 <= j < |s.facts| && j != i && s.facts[j].factId == s.facts[i].factId
                && SeenBy(s, chain, asOf, s.facts[j].createdByTx) ==>
      Before(s, chain, s.facts[i].createdByTx, s.facts[j].createdByTx)
  }

  lemma LeadingIsNewest(s: Store, chain: seq<string>, asOf: TxId, i: nat)
    requires i < |s.facts|
    ensures Leads(s, FactKeys(s.facts), chain, asOf, i)
            <==> SeenBy(s, chain, asOf, s.facts[i].createdByTx) && NewestOfId(s, chain, asOf, i)
    ensures KeyRef(s.txBranch, FactKeys(s.facts), chain, i) == RefTo(s, chain, i) && RefTo(s, chain, i).row == i
  {
    hide Before, SeenBy;
  }

  // ----- Beliefs -----

  /** With a time, only rows in effect by then count. */
  predicate InEffect(b: Belief, until: Option<Time>) {
    until.Some? ==> !Text.Less(until.value, b.validFrom)
  }

  /** Row `i` speaks for its belief id: visible, in effect, and before every other such row of the id. */
  ghost predicate Speaks(s: Store, chain: seq<string>, asOf: TxId, until: Option<Time>, i: nat) {
    && i < |s.beliefs| && SeenBy(s, chain, asOf, s.beliefs[i].createdByTx) && InEffect(s.beliefs[i], until)
    && forall j :: 0 <= j < |s.beliefs| && j != i && s.beliefs[j].beliefId == s.beliefs[i].beliefId
                   && SeenBy(s, chain, asOf, s.beliefs[j].createdByTx) && InEffect(s.beliefs[j], until) ==>
         Before(s, chain, s.beliefs[i].createdByTx, s.beliefs[j].createdByTx)
  }

  /** Row `i` is listed: it speaks for its id, is active, and comes before every other such row of its claim. */
  ghost predicate Listed(s: Store, chain: seq<string>, asOf: TxId, until: Option<Time>, i: nat) {
    && Speaks(s, chain, asOf, until, i) && s.beliefs[i].status == Active
    && forall j: nat :: (j != i && Speaks(s, chain, asOf, until, j) && s.beliefs[j].status == Active
                         && s.beliefs[j].claimText == s.beliefs[i].claimText) ==>
         Before(s, chain, s.beliefs[i].createdByTx, s.beliefs[j].createdByTx)
  }

  lemma {:induction false} ActiveAre(bs: seq<Belief>, rs: seq<RowRef>, seen: set<string>, r: RowRef)
    requires StrictlyOrdered(rs) && forall i :: 0 <= i < |rs| ==> rs[i].row < |bs|
    ensures r in ActiveBeliefs(bs, rs, seen)
            <==> && r in rs && bs[r.row].status == Active && bs[r.row].claimText !in seen
                 && forall x :: x in rs && x != r && bs[x.row].status == Active
                                && bs[x.row].claimText == bs[r.row].claimText ==>
                      Precedes(r, x)
  {
    if rs == [] {
    } else {
      var first, tail := rs[0], rs[1..];
      assert rs == [first] + tail;
      forall x | x in tail
        ensures Precedes(first, x) && !Precedes(x, first) && x != first
      {
        var k :| 0 <= k < |tail| && tail[k] == x;
        assert rs[k + 1] == x;
      }
      assert StrictlyOrdered(tail);
      hide Precedes, StrictlyOrdered;
      if bs[first.row].status == Active && bs[first.row].claimText !in seen {
        ActiveAre(bs, tail, seen + {bs[first.row].claimText}, r);
      } else {
        ActiveAre(bs, tail, seen, r);
      }
    }
  }

  lemma {:induction false} ActiveInOrder(bs: seq<Belief>, rs: seq<RowRef>, seen: set<string>)
    requires StrictlyOrdered(rs) && forall i :: 0 <= i < |rs| ==> rs[i].row < |bs|
    ensures StrictlyOrdered(ActiveBeliefs(bs, rs, seen))
  {
    if rs == [] {
    } else {
      var seen' := seen + {bs[rs[0].row].claimText};
      ActiveInOrder(bs, rs[1..], seen);
      ActiveInOrder(bs, rs[1..], seen');
      ActiveBeliefsMembers(bs, rs[1..], seen');
      var tail := ActiveBeliefs(bs, rs[1..], seen');
      forall k | 0 <= k < |tail|
        ensures Precedes(rs[0], tail[k])
      {
        assert tail[k] in tail && tail[k] in rs[1..];
      }
    }
  }

  /** The keys of either belief view. */
  ghost predicate KeysOf(s: Store, keys: seq<Key>, until: Option<Time>) {
    && |keys| == |s.beliefs|
    && forall i :: 0 <= i < |keys| ==>
         keys[i].id == s.beliefs[i].beliefId && keys[i].tx == s.beliefs[i].createdByTx
         && (keys[i].keep <==> InEffect(s.beliefs[i], until))
  }

  lemma LeadingSpeaks(s: Store, keys: seq<Key>, chain: seq<string>, asOf: TxId, until: Option<Time>, i: nat)
    requires KeysOf(s, keys, until)
    ensures Leads(s, keys, chain, asOf, i) <==> Speaks(s, chain, asOf, until, i)
    ensures i < |keys| ==> KeyRef(s.txBranch, keys, chain, i) == BeliefRef(s, chain, i)
  {
    hide InEffect, Before, SeenBy;
  }

  /** The rows that speak for their ids, in view order. */
  ghost predicate SpeakersIn(s: Store, rs: seq<RowRef>, chain: seq<string>, asOf: TxId, until: Option<Time>) {
    && StrictlyOrdered(rs)
    && (forall r :: r in rs ==> r.row < |s.beliefs| && r == BeliefRef(s, chain, r.row))
    && forall i :: 0 <= i < |s.beliefs| ==> (BeliefRef(s, chain, i) in rs <==> Speaks(s, chain, asOf, until, i))
  }

  lemma SpeakersAre(s: Store, keys: seq<Key>, chain: seq<string>, asOf: TxId, until: Option<Time>)
    requires Inv(s) && KeysOf(s, keys, until)
    ensures SpeakersIn(s, NewestRows(s.txBranch, keys, chain, asOf), chain, asOf, until)
  {
    BeliefTxsDistinct(s, keys);
    hide Inv, NewestRows, Leads, Speaks, StrictlyOrdered, InEffect, KeyRef, BeliefRef, SeenBy, Before;
    SelectionIs(s, keys, chain, asOf);
    forall i | 0 <= i < |s.beliefs|
      ensures Leads(s, keys, chain, asOf, i) <==> Speaks(s, chain, asOf, until, i)
      ensures KeyRef(s.txBranch, keys, chain, i) == BeliefRef(s, chain, i)
    {
      LeadingSpeaks(s, keys, chain, asOf, until, i);
    }
  }

  lemma ListedAmong(s: Store, rs: seq<RowRef>, chain: seq<string>, asOf: TxId, until: Option<Time>, i: nat)
    requires SpeakersIn(s, rs, chain, asOf, until) && i < |s.beliefs|
    ensures BeliefRef(s, chain, i) in ActiveBeliefs(s.beliefs, rs, {}) <==> Listed(s, chain, asOf, until, i)
  {
    var r := BeliefRef(s, chain, i);
    ActiveAre(s.beliefs, rs, {}, r);
    forall j | 0 <= j < |s.beliefs| && Speaks(s, chain, asOf, until, i) && Speaks(s, chain, asOf, until, j)
      ensures Precedes(r, BeliefRef(s, chain, j))
              <==> Before(s, chain, s.beliefs[i].createdByTx, s.beliefs[j].createdByTx)
    {
      BeforeIsPrecedes(s, BeliefKeys(s.beliefs), chain, asOf, i, j);
    }
    assert forall j :: 0 <= j < |s.beliefs| ==> BeliefRef(s, chain, j).row == j;
    assert forall j: nat :: Speaks(s, chain, asOf, until, j) ==> j < |s.beliefs| && BeliefRef(s, chain, j) in rs;
    hide Speaks, Precedes, Before, ActiveBeliefs, StrictlyOrdered, BeliefRef;
  }

  /** A belief view lists, in view order, exactly the listed rows. */
  lemma BeliefViewIs(s: Store, branch: string, asOf: TxId)
    requires Inv(s)
    ensures var chain := Ancestors(s.branches, branch);
            var rs := BeliefsAt(s, branch, asOf);
            && StrictlyOrdered(rs)
            && (forall r :: r in rs ==> r == BeliefRef(s, chain, r.row))
            && (forall i :: 0 <= i < |s.beliefs| ==>
                  (BeliefRef(s, chain, i) in rs <==> Listed(s, chain, asOf, None, i)))
  {
    var chain := Ancestors(s.branches, branch);
    var keys := BeliefKeys(s.beliefs);
    var heads := NewestRows(s.txBranch, keys, chain, asOf);
    assert KeysOf(s, keys, None);
    hide Inv, NewestRows, Ancestors, BeliefRef, KeysOf;
    SpeakersAre(s, keys, chain, asOf, None);
    ActiveInOrder(s.beliefs, heads, {});
    ActiveBeliefsMembers(s.beliefs, heads, {});
    hide StrictlyOrdered, Listed, Speaks;
    forall i | 0 <= i < |s.beliefs|
      ensures BeliefRef(s, chain, i) in BeliefsAt(s, branch, asOf) <==> Listed(s, chain, asOf, None, i)
    {
      ListedAmong(s, heads, chain, asOf, None, i);
    }
  }

  lemma {:induction false} KeptBeliefs(bs: seq<Belief>, rs: seq<RowRef>, ts: Time)
    requires StrictlyOrdered(rs) && forall i :: 0 <= i < |rs| ==> rs[i].row < |bs|
    ensures StrictlyOrdered(KeepValidBeliefs(bs, rs, ts))
    ensures forall r :: r in KeepValidBeliefs(bs, rs, ts)
                        <==> r in rs && IsValidAt(bs[r.row].validFrom, bs[r.row].validTo, ts)
  {
    hide Precedes, IsValidAt;
    if rs == [] {
    } else {
      KeptBeliefs(bs, rs[1..], ts);
      assert rs == [rs[0]] + rs[1..];
      var tail := KeepValidBeliefs(bs, rs[1..], ts);
      forall k | 0 <= k < |tail|
        ensures Precedes(rs[0], tail[k])
      {
        assert tail[k] in tail && tail[k] in rs[1..];
      }
    }
  }

  /** `beliefs_bitemporal(t, ts)` lists those that are listed among the rows in effect by `ts` and have not ended. */
  lemma BitemporalBeliefsAre(s: Store, t: TxId, ts: Time)
    requires Inv(s) && t in s.txBranch
    ensures var chain := Ancestors(s.branches, s.txBranch[t]);
            var rs := BeliefsBitemporal(s, t, ts);
            && StrictlyOrdered(rs)
            && (forall r :: r in rs ==> r == BeliefRef(s, chain, r.row))
            && (forall i :: 0 <= i < |s.beliefs| ==>
                  (BeliefRef(s, chain, i) in rs
                   <==> && Listed(s, chain, t, Some(ts), i)
                        && (s.beliefs[i].validTo.None? || Text.Less(ts, s.beliefs[i].validTo.value))))
  {
    var chain := Ancestors(s.branches, s.txBranch[t]);
    var keys := BeliefKeysInEffect(s.beliefs, ts);
    var heads := NewestRows(s.txBranch, keys, chain, t);
    assert KeysOf(s, keys, Some(ts));
    hide Inv, NewestRows, Ancestors, BeliefRef, KeysOf;
    SpeakersAre(s, keys, chain, t, Some(ts));
    ActiveInOrder(s.beliefs, heads, {});
    ActiveBeliefsMembers(s.beliefs, heads, {});
    var active := ActiveBeliefs(s.beliefs, heads, {});
    KeptBeliefs(s.beliefs, active, ts);
    hide StrictlyOrdered, ActiveBeliefs, KeepValidBeliefs;
    forall i | 0 <= i < |s.beliefs|
      ensures BeliefRef(s, chain, i) in active <==> Listed(s, chain, t, Some(ts), i)
      ensures Listed(s, chain, t, Some(ts), i) ==> !Text.Less(ts, s.beliefs[i].validFrom)
      ensures BeliefRef(s, chain, i).row == i
    {
      ListedAmong(s, heads, chain, t, Some(ts), i);
      RowOfBeliefRef(s, chain, i);
    }
    hide Listed, Speaks, SpeakersIn, Text.Less;
  }

  lemma RowOfBeliefRef(s: Store, chain: seq<string>, i: nat)
    requires i < |s.beliefs|
    ensures BeliefRef(s, chain, i).row == i
  {
  }
}
