/** The read side of the brain: views of facts and beliefs per branch, as of a transaction, and at a
    valid time. A `Vec<&Row>` of the source is a sequence of row references here. */
module BrainReads {
  import opened Wrappers
  import opened BrainTypes
  import opened BranchChain
  import opened RowSelection
  import Text

  function FactKeys(facts: seq<Fact>): (keys: seq<Key>)
    ensures |keys| == |facts|
    ensures forall i :: 0 <= i < |facts| ==> keys[i] == Key(facts[i].factId, facts[i].createdByTx, true)
  {
    seq(|facts|, i requires 0 <= i < |facts| => Key(facts[i].factId, facts[i].createdByTx, true))
  }

  function FactKeysOf(facts: seq<Fact>, id: string): (keys: seq<Key>)
    ensures |keys| == |facts|
    ensures forall i :: 0 <= i < |facts| ==>
              keys[i] == Key(facts[i].factId, facts[i].createdByTx, facts[i].factId == id)
  {
    seq(|facts|, i requires 0 <= i < |facts| => Key(facts[i].factId, facts[i].createdByTx, facts[i].factId == id))
  }

  ghost predicate InFacts(s: Store, rs: seq<RowRef>) {
    forall i :: 0 <= i < |rs| ==> rs[i].row < |s.facts|
  }

  ghost predicate InBeliefs(s: Store, rs: seq<RowRef>) {
    forall i :: 0 <= i < |rs| ==> rs[i].row < |s.beliefs|
  }

  /** `fact_revoked_in_view` */
  predicate RevokedInView(s: Store, f: Fact, asOf: TxId, chain: seq<string>) {
    && f.revokedByTx.Some?
    && f.revokedByTx.value <= asOf
    && Depth(s.txBranch, f.revokedByTx.value, chain).Some?
  }

  function DropRevoked(s: Store, rs: seq<RowRef>, asOf: TxId, chain: seq<string>): (out: seq<RowRef>)
    requires InFacts(s, rs)
    ensures InFacts(s, out)
  {
    if rs == [] then []
    else
      var tail := DropRevoked(s, rs[1..], asOf, chain);
      if RevokedInView(s, s.facts[rs[0].row], asOf, chain) then tail else [rs[0]] + tail
  }

  function LiveFacts(s: Store, branch: string, asOf: TxId): (rs: seq<RowRef>)
    ensures InFacts(s, rs)
  {
    var chain := Ancestors(s.branches, branch);
    DropRevoked(s, NewestRows(s.txBranch, FactKeys(s.facts), chain, asOf), asOf, chain)
  }

  function FactsOnBranch(s: Store, branch: string): (rs: seq<RowRef>)
    ensures InFacts(s, rs)
  {
    LiveFacts(s, branch, TX_MAX)
  }

  /** The row that decides `id` on `branch`, and whether the fact is active there. */
  function FactHead(s: Store, branch: string, id: string): Option<(RowRef, bool)> {
    var chain := Ancestors(s.branches, branch);
    var rs := NewestRows(s.txBranch, FactKeysOf(s.facts, id), chain, TX_MAX);
    if rs == [] then None
    else
      var head := rs[|rs| - 1];
      Some((head, !RevokedInView(s, s.facts[head.row], TX_MAX, chain)))
  }

  function TxBranchOrMain(s: Store, tx: TxId): string {
    if tx in s.txBranch then s.txBranch[tx] else MAIN_BRANCH
  }

  function FactsAsOf(s: Store, tx: TxId): (rs: seq<RowRef>)
    ensures InFacts(s, rs)
  {
    LiveFacts(s, TxBranchOrMain(s, tx), tx)
  }

  /** `find` for a fact id in a view. */
  function FindFact(s: Store, rs: seq<RowRef>, id: string): (r: Option<RowRef>)
    requires InFacts(s, rs)
    ensures r.Some? ==> r.value in rs && s.facts[r.value.row].factId == id
    ensures r.None? ==> forall x :: x in rs ==> s.facts[x.row].factId != id
  {
    if rs == [] then None
    else if s.facts[rs[0].row].factId == id then Some(rs[0])
    else FindFact(s, rs[1..], id)
  }

  /** Row `f` holds exactly this (id, predicate, value). */
  predicate HoldsTuple(f: Fact, id: string, pred: string, value: FactValue) {
    f.factId == id && f.pred == pred && f.value == value
  }

  function FindTuple(s: Store, rs: seq<RowRef>, id: string, pred: string, value: FactValue): (r: Option<RowRef>)
    requires InFacts(s, rs)
    ensures r.Some? ==> r.value in rs && HoldsTuple(s.facts[r.value.row], id, pred, value)
    ensures r.None? ==> forall x :: x in rs ==> !HoldsTuple(s.facts[x.row], id, pred, value)
  {
    if rs == [] then None
    else if HoldsTuple(s.facts[rs[0].row], id, pred, value) then Some(rs[0])
    else FindTuple(s, rs[1..], id, pred, value)
  }

  // ----- Valid time -----

  /** `[validFrom, validTo)` contains `ts`. */
  predicate IsValidAt(validFrom: Time, validTo: Option<Time>, ts: Time) {
    !Text.Less(ts, validFrom) && (validTo.None? || Text.Less(ts, validTo.value))
  }

  function KeepValidFacts(s: Store, rs: seq<RowRef>, ts: Time): (out: seq<RowRef>)
    requires InFacts(s, rs)
    ensures InFacts(s, out)
    ensures forall r :: r in out <==> r in rs && IsValidAt(s.facts[r.row].validFrom, s.facts[r.row].validTo, ts)
  {
    if rs == [] then []
    else
      var f := s.facts[rs[0].row];
      var tail := KeepValidFacts(s, rs[1..], ts);
      assert rs == [rs[0]] + rs[1..];
      if IsValidAt(f.validFrom, f.validTo, ts) then [rs[0]] + tail else tail
  }

  function FactsValidAtOnBranch(s: Store, branch: string, ts: Time): (rs: seq<RowRef>)
    ensures InFacts(s, rs)
  {
    KeepValidFacts(s, FactsOnBranch(s, branch), ts)
  }

  /** The logged time of a transaction: the first log entry with that id. */
  function TimeOf(txs: seq<Tx>, tx: TxId): Option<Time> {
    if txs == [] then None
    else if txs[0].txId == tx then Some(txs[0].txTime)
    else TimeOf(txs[1..], tx)
  }

  /** `valid_to_as_of`: a close stamped by a later transaction had not happened yet. */
  function ValidToAsOf(s: Store, f: Fact, asOf: TxId): Option<Time> {
    var supersededLater := f.supersededByTx.Some? && f.supersededByTx.value > asOf;
    var retractStampedLater :=
      && f.revokedByTx.Some? && f.revokedByTx.value > asOf
      && TimeOf(s.transactions, f.revokedByTx.value).Some?
      && f.validTo == TimeOf(s.transactions, f.revokedByTx.value);
    if supersededLater || retractStampedLater then None else f.validTo
  }

  function Ids(rs: seq<RowRef>): (ids: set<string>) {
    set r | r in rs :: r.id
  }

  predicate KeepBitemporal(s: Store, f: Fact, live: set<string>, chain: seq<string>, asOf: TxId, ts: Time) {
    && f.factId in live
    && !RevokedInView(s, f, asOf, chain)
    && IsValidAt(f.validFrom, ValidToAsOf(s, f, asOf), ts)
  }

  function BitemporalKeys(s: Store, live: set<string>, chain: seq<string>, asOf: TxId, ts: Time): (keys: seq<Key>)
    ensures |keys| == |s.facts|
    ensures forall i :: 0 <= i < |keys| ==>
              keys[i] == Key(s.facts[i].factId, s.facts[i].createdByTx,
                             KeepBitemporal(s, s.facts[i], live, chain, asOf, ts))
  {
    seq(|s.facts|, i requires 0 <= i < |s.facts| =>
      Key(s.facts[i].factId, s.facts[i].createdByTx, KeepBitemporal(s, s.facts[i], live, chain, asOf, ts)))
  }

  function FactsBitemporal(s: Store, tx: TxId, ts: Time): (rs: seq<RowRef>)
    ensures InFacts(s, rs)
  {
    var branch := TxBranchOrMain(s, tx);
    var chain := Ancestors(s.branches, branch);
    var live := Ids(LiveFacts(s, branch, tx));
    NewestRows(s.txBranch, BitemporalKeys(s, live, chain, tx, ts), chain, tx)
  }

  // ----- Beliefs -----

  function BeliefKeys(beliefs: seq<Belief>): (keys: seq<Key>)
    ensures |keys| == |beliefs|
    ensures forall i :: 0 <= i < |keys| ==> keys[i] == Key(beliefs[i].beliefId, beliefs[i].createdByTx, true)
  {
    seq(|beliefs|, i requires 0 <= i < |beliefs| => Key(beliefs[i].beliefId, beliefs[i].createdByTx, true))
  }

  function BeliefKeysInEffect(beliefs: seq<Belief>, ts: Time): (keys: seq<Key>)
    ensures |keys| == |beliefs|
    ensures forall i :: 0 <= i < |keys| ==>
              keys[i] == Key(beliefs[i].beliefId, beliefs[i].createdByTx, !Text.Less(ts, beliefs[i].validFrom))
  {
    seq(|beliefs|, i requires 0 <= i < |beliefs| =>
      Key(beliefs[i].beliefId, beliefs[i].createdByTx, !Text.Less(ts, beliefs[i].validFrom)))
  }

  /** `active_beliefs`: the active heads, one per claim text, first wins. */
  function ActiveBeliefs(beliefs: seq<Belief>, rs: seq<RowRef>, seen: set<string>): (out: seq<RowRef>)
    requires forall i :: 0 <= i < |rs| ==> rs[i].row < |beliefs|
    ensures forall i :: 0 <= i < |out| ==> out[i].row < |beliefs|
  {
    if rs == [] then []
    else
      var b := beliefs[rs[0].row];
      if b.status == Active && b.claimText !in seen
      then [rs[0]] + ActiveBeliefs(beliefs, rs[1..], seen + {b.claimText})
      else ActiveBeliefs(beliefs, rs[1..], seen)
  }

  function BeliefsAt(s: Store, branch: string, asOf: TxId): (rs: seq<RowRef>)
    ensures InBeliefs(s, rs)
  {
    var chain := Ancestors(s.branches, branch);
    ActiveBeliefs(s.beliefs, NewestRows(s.txBranch, BeliefKeys(s.beliefs), chain, asOf), {})
  }

  function BeliefsOnBranch(s: Store, branch: string): (rs: seq<RowRef>)
    ensures InBeliefs(s, rs)
  {
    BeliefsAt(s, branch, TX_MAX)
  }

  function BeliefsAsOf(s: Store, tx: TxId): (rs: seq<RowRef>)
    ensures InBeliefs(s, rs)
  {
    BeliefsAt(s, TxBranchOrMain(s, tx), tx)
  }

  function KeepValidBeliefs(beliefs: seq<Belief>, rs: seq<RowRef>, ts: Time): (out: seq<RowRef>)
    requires forall i :: 0 <= i < |rs| ==> rs[i].row < |beliefs|
    ensures forall i :: 0 <= i < |out| ==> out[i].row < |beliefs|
  {
    if rs == [] then []
    else
      var b := beliefs[rs[0].row];
      var tail := KeepValidBeliefs(beliefs, rs[1..], ts);
      if IsValidAt(b.validFrom, b.validTo, ts) then [rs[0]] + tail else tail
  }

  function BeliefsBitemporal(s: Store, tx: TxId, ts: Time): (rs: seq<RowRef>)
    ensures InBeliefs(s, rs)
  {
    var chain := Ancestors(s.branches, TxBranchOrMain(s, tx));
    var heads := NewestRows(s.txBranch, BeliefKeysInEffect(s.beliefs, ts), chain, tx);
    KeepValidBeliefs(s.beliefs, ActiveBeliefs(s.beliefs, heads, {}), ts)
  }

  function FindBelief(s: Store, rs: seq<RowRef>, id: string): (r: Option<RowRef>)
    requires InBeliefs(s, rs)
    ensures r.Some? ==> r.value in rs && s.beliefs[r.value.row].beliefId == id
    ensures r.None? ==> forall x :: x in rs ==> s.beliefs[x.row].beliefId != id
  {
    if rs == [] then None
    else if s.beliefs[rs[0].row].beliefId == id then Some(rs[0])
    else FindBelief(s, rs[1..], id)
  }

  /** An active (neither revoked nor superseded) `session/closed_at` row on any branch. */
  predicate IsSessionClosed(facts: seq<Fact>) {
    exists i :: 0 <= i < |facts| && facts[i].factId == SESSION_CLOSED_FACT_ID && facts[i].Unstamped()
  }
}
