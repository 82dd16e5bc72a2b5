/** What a merge does to the views of its two branches. */
module MergeViews {
  import opened Wrappers
  import opened BrainTypes
  import opened BranchChain
  import opened RowSelection
  import opened BrainReads
  import opened BrainWrites
  import opened BrainMerge
  import opened BrainInvariant
  import opened FactHeads
  import opened BrainSteps
  import opened ChainEffects
  import opened TimeTravel

  /** `branch` shows the same row with the same fields for `id`. */
  ghost predicate SameLive(s: Store, s': Store, branch: string, id: string) {
    && LiveRow(s', branch, id) == LiveRow(s, branch, id)
    && |s.facts| <= |s'.facts|
    && (LiveRow(s, branch, id).Some? ==>
          s'.facts[LiveRow(s, branch, id).value] == s.facts[LiveRow(s, branch, id).value])
  }

  ghost predicate SameView(s: Store, s': Store, branch: string) {
    forall id :: SameLive(s, s', branch, id)
  }

  /** Along `chain`, the row deciding `id` comes before `branch`. */
  predicate Shields(s: Store, chain: seq<string>, branch: string, id: string) {
    chain != [] ==>
      chain[0] != branch && (Local(s, chain[0], id).Some? || Shields(s, chain[1..], branch, id))
  }

  lemma {:induction false} NearestKept(s: Store, s': Store, chain: seq<string>, id: string, branch: string, x: string)
    requires OnlyTouches(s, s', branch, x)
    requires id != x || Shields(s, chain, branch, x)
    ensures Nearest(s', chain, id) == Nearest(s, chain, id)
    ensures Nearest(s, chain, id).Some? ==>
              s'.facts[Nearest(s, chain, id).value] == s.facts[Nearest(s, chain, id).value]
  {
    if chain == [] {
    } else {
      assert LocalSame(s, s', chain[0], id);
      if Local(s, chain[0], id).None? {
        NearestKept(s, s', chain[1..], id, branch, x);
      }
    }
  }

  /** A write keeps every view in which the written id is decided before the written branch. */
  lemma ShieldedView(s: Store, s': Store, viewer: string, branch: string, x: string)
    requires OnlyTouches(s, s', branch, x)
    requires Shields(s, Ancestors(s.branches, viewer), branch, x)
    ensures SameView(s, s', viewer)
  {
    forall id
      ensures SameLive(s, s', viewer, id)
    {
      NearestKept(s, s', Ancestors(s.branches, viewer), id, branch, x);
    }
  }

  /** A write on `branch` changes its own view only at the written id. */
  lemma OwnView(s: Store, s': Store, branch: string, x: string)
    requires OnlyTouches(s, s', branch, x) && Local(s', branch, x).Some?
    ensures forall id :: id != x ==> SameLive(s, s', branch, id)
    ensures var i := Local(s', branch, x).value;
            LiveRow(s', branch, x) == if s'.facts[i].revokedByTx.Some? then None else Some(i)
  {
    var chain := Ancestors(s.branches, branch);
    assert chain[0] == branch;
    forall id | id != x
      ensures SameLive(s, s', branch, id)
    {
      NearestKept(s, s', chain, id, branch, x);
    }
  }

  lemma {:induction false} ShieldsFrom(s: Store, chain: seq<string>, branch: string, id: string, p: nat)
    requires p < |chain| && Local(s, chain[p], id).Some?
    requires forall q :: 0 <= q <= p ==> chain[q] != branch
    ensures Shields(s, chain, branch, id)
  {
    if p > 0 && Local(s, chain[0], id).None? {
      ShieldsFrom(s, chain[1..], branch, id, p - 1);
    }
  }

  /** A source row that is not on the target's chain is decided before the target is reached: the target's
      part of the source chain belongs to the target's own chain. */
  lemma SourceShields(s: Store, source: string, target: string, id: string)
    requires Inv(s) && LiveRow(s, source, id).Some?
    requires s.facts[LiveRow(s, source, id).value].createdByTx in s.txBranch
    requires s.txBranch[s.facts[LiveRow(s, source, id).value].createdByTx] !in Ancestors(s.branches, target)
    ensures Shields(s, Ancestors(s.branches, source), target, id)
  {
    var chain := Ancestors(s.branches, source);
    var p := NearestPosition(s, chain, id);
    forall k | 0 <= k <= p
      ensures chain[k] != target
    {
      ChainSuffix(s.branches, source, k);
      assert chain[p] == chain[k..][p - k];
    }
    ShieldsFrom(s, chain, target, id, p);
  }

  lemma SameLiveTransitive(s: Store, s': Store, s'': Store, branch: string, id: string)
    requires SameLive(s, s', branch, id) && SameLive(s', s'', branch, id)
    ensures SameLive(s, s'', branch, id)
  {
  }

  lemma SameViewTransitive(s: Store, s': Store, s'': Store, branch: string)
    requires SameView(s, s', branch) && SameView(s', s'', branch)
    ensures SameView(s, s'', branch)
  {
    forall id
      ensures SameLive(s, s'', branch, id)
    {
      assert SameLive(s, s', branch, id) && SameLive(s', s'', branch, id);
    }
  }

  // ----- The plan of a merge -----

  /** The plan was made in `s0`, and `s` is a later store with the same branches. */
  ghost predicate Underway(s0: Store, s: Store, plan: MergePlan) {
    && Inv(s0) && Inv(s)
    && s.branches == s0.branches && Later(s0, s)
    && plan == PlanMerge(s0, plan.source, plan.target, plan.policy)
    && SameView(s0, s, plan.source)
  }

  /** `f` is the source's row for its id, as it was when the plan was made. */
  ghost predicate FromSource(s0: Store, plan: MergePlan, f: Fact) {
    var h := LiveRow(s0, plan.source, f.factId);
    h.Some? && s0.facts[h.value] == f
  }

  lemma SameOnTargetChain(s0: Store, s: Store, plan: MergePlan, f: Fact)
    requires Underway(s0, s, plan) && FromSource(s0, plan, f)
    ensures f.createdByTx in s.txBranch
    ensures OnTargetChain(s, f, plan) == OnTargetChain(s0, f, plan)
  {
    RowsAreCommitted(s0, LiveRow(s0, plan.source, f.factId).value);
    assert RowOk(s0, LiveRow(s0, plan.source, f.factId).value);
    assert TxBranch(s, f.createdByTx) == TxBranch(s0, f.createdByTx);
  }

  /** The plan's target map is the target's view. */
  lemma TargetViewIsLive(s0: Store, plan: MergePlan, id: string)
    requires Inv(s0) && plan == PlanMerge(s0, plan.source, plan.target, plan.policy)
    ensures id in plan.targetView <==> LiveRow(s0, plan.target, id).Some?
    ensures id in plan.targetView ==> plan.targetView[id] == s0.facts[LiveRow(s0, plan.target, id).value]
  {
    hide Inv, FactsOnBranch, LiveRow, Ancestors;
    var v := FactsOnBranch(s0, plan.target);
    ViewIsLiveRows(s0, plan.target);
    var rows := Clones(s0, v);
    if id in plan.targetView {
      var k :| 0 <= k < |rows| && rows[k] == plan.targetView[id];
      assert v[k] in v && rows[k] == s0.facts[v[k].row];
      assert LiveRow(s0, plan.target, v[k].id) == Some(v[k].row);
    }
    if LiveRow(s0, plan.target, id).Some? {
      var r := RefTo(s0, Ancestors(s0.branches, plan.target), LiveRow(s0, plan.target, id).value);
      var k :| 0 <= k < |v| && v[k] == r;
      assert rows[k] in rows && rows[k].factId == id;
    }
  }

  lemma RowsComeFromSource(s0: Store, plan: MergePlan, k: nat)
    requires Inv(s0) && k < |FactsOnBranch(s0, plan.source)|
    ensures FromSource(s0, plan, Clones(s0, FactsOnBranch(s0, plan.source))[k])
  {
    var v := FactsOnBranch(s0, plan.source);
    ViewIsLiveRows(s0, plan.source);
    assert v[k] in v;
    assert LiveRow(s0, plan.source, v[k].id) == Some(v[k].row);
  }

  lemma SourceRowsDistinct(s0: Store, plan: MergePlan, j: nat, k: nat)
    requires Inv(s0) && j < k < |FactsOnBranch(s0, plan.source)|
    ensures var todo := Clones(s0, FactsOnBranch(s0, plan.source)); todo[j].factId != todo[k].factId
  {
    var v := FactsOnBranch(s0, plan.source);
    ViewIsLiveRows(s0, plan.source);
    assert v[j] in v && v[k] in v;
    assert LiveRow(s0, plan.source, v[j].id) == Some(v[j].row) && LiveRow(s0, plan.source, v[k].id) == Some(v[k].row);
    assert v[j].id != v[k].id;
  }

  // ----- One write of a merge -----

  /** A write of a shielded id on the target keeps the merge underway. */
  lemma WriteStaysUnderway(s0: Store, s: Store, s': Store, plan: MergePlan, x: string)
    requires Underway(s0, s, plan) && Inv(s')
    requires OnlyTouches(s, s', plan.target, x)
    requires Shields(s, Ancestors(s.branches, plan.source), plan.target, x)
    ensures Underway(s0, s', plan)
    ensures Shields(s', Ancestors(s.branches, plan.source), plan.target, x)
  {
    ExtendingIsLater(s, s', plan.target);
    LaterTransitive(s0, s, s');
    ShieldedView(s, s', plan.source, plan.target, x);
    SameViewTransitive(s0, s, s', plan.source);
    ShieldsKept(s, s', Ancestors(s.branches, plan.source), plan.target, x);
  }

  lemma {:induction false} ShieldsKept(s: Store, s': Store, chain: seq<string>, branch: string, x: string)
    requires OnlyTouches(s, s', branch, x) && Shields(s, chain, branch, x)
    ensures Shields(s', chain, branch, x)
  {
    if chain == [] {
    } else {
      assert LocalSame(s, s', chain[0], x);
      if Local(s, chain[0], x).None? {
        ShieldsKept(s, s', chain[1..], branch, x);
      }
    }
  }

  lemma FromSourceShields(s0: Store, s: Store, plan: MergePlan, f: Fact)
    requires Underway(s0, s, plan) && FromSource(s0, plan, f) && !OnTargetChain(s, f, plan)
    ensures Shields(s, Ancestors(s.branches, plan.source), plan.target, f.factId)
  {
    SameOnTargetChain(s0, s, plan, f);
    assert SameLive(s0, s, plan.source, f.factId);
    SourceShields(s, plan.source, plan.target, f.factId);
  }

  /** Row `row` is a copy of the source row `f`: its content and valid time, without its stamps. */
  predicate IsCopy(row: Fact, f: Fact, source: string) {
    && row.factId == f.factId && row.pred == f.pred && row.value == f.value
    && row.validFrom == f.validFrom && row.validTo == f.validTo
    && row.provenance == "merged-from:" + source
    && row.supersededByTx.None? && row.revokedByTx.None?
  }

  /** The target shows, for `f`'s id, a copy of `f`. */
  ghost predicate ShowsCopy(s: Store, plan: MergePlan, f: Fact) {
    var h := LiveRow(s, plan.target, f.factId);
    h.Some? && IsCopy(s.facts[h.value], f, plan.source)
  }

  lemma CopyWrite(s0: Store, s: Store, plan: MergePlan, f: Fact, clock: Clock)
    requires Underway(s0, s, plan)
    requires Shields(s, Ancestors(s.branches, plan.source), plan.target, f.factId)
    ensures var (s', out) := AssertFact(s, plan.target, CopyOf(f, plan.source), clock);
            && Underway(s0, s', plan)
            && (out.Err? ==> s' == s)
            && (out.Ok? ==> ShowsCopy(s', plan, f) && forall id :: id != f.factId ==> SameLive(s, s', plan.target, id))
  {
    var (s', out) := AssertFact(s, plan.target, CopyOf(f, plan.source), clock);
    AssertStep(s, plan.target, CopyOf(f, plan.source), clock);
    if out.Ok? {
      AssertTouches(s, plan.target, CopyOf(f, plan.source), clock);
      WriteStaysUnderway(s0, s, s', plan, f.factId);
      OwnView(s, s', plan.target, f.factId);
    }
  }

  lemma RetractWrite(s0: Store, s: Store, plan: MergePlan, id: string, clock: Clock)
    requires Underway(s0, s, plan)
    requires Shields(s, Ancestors(s.branches, plan.source), plan.target, id)
    ensures var (s', out) := RetractFact(s, plan.target, id, clock);
            && Underway(s0, s', plan)
            && Shields(s', Ancestors(s.branches, plan.source), plan.target, id)
            && (out.Err? ==> s' == s)
            && (out.Ok? ==> forall x :: x != id ==> SameLive(s, s', plan.target, x))
  {
    var (s', out) := RetractFact(s, plan.target, id, clock);
    RetractStep(s, plan.target, id, clock);
    if out.Ok? {
      RetractTouches(s, plan.target, id, clock);
      WriteStaysUnderway(s0, s, s', plan, id);
      OwnView(s, s', plan.target, id);
    }
  }

  // ----- One round and the whole loop -----

  /** The round for `f` writes `f` to the target. */
  predicate Copies(s: Store, f: Fact, plan: MergePlan) {
    && !OnTargetChain(s, f, plan)
    && (f.factId !in plan.targetView
        || (plan.targetView[f.factId].value != f.value && plan.policy == LastWriterWins))
  }

  /** The round for `f` reports a conflict. */
  predicate Reports(s: Store, f: Fact, plan: MergePlan) {
    && !OnTargetChain(s, f, plan)
    && f.factId in plan.targetView && plan.targetView[f.factId].value != f.value
    && plan.policy == Manual
  }

  lemma RoundStaysUnderway(s0: Store, s: Store, f: Fact, plan: MergePlan, p: Progress, clock: Clock)
    requires Underway(s0, s, plan) && FromSource(s0, plan, f)
    ensures Underway(s0, MergeOne(s, f, plan, p, clock).0, plan)
  {
    hide Underway, FromSource, AssertFact, RetractFact, MergeOne, Copies;
    if !Copies(s, f, plan) {
      IdleRound(s, f, plan, p, clock);
    } else if f.factId in plan.targetView {
      ReplaceRound(s0, s, f, plan, p, clock);
    } else {
      CopyRound(s0, s, f, plan, p, clock);
    }
  }

  lemma IdleRound(s: Store, f: Fact, plan: MergePlan, p: Progress, clock: Clock)
    requires !Copies(s, f, plan)
    ensures MergeOne(s, f, plan, p, clock).0 == s
  {
    hide AssertFact, RetractFact;
  }

  lemma CopyRound(s0: Store, s: Store, f: Fact, plan: MergePlan, p: Progress, clock: Clock)
    requires Underway(s0, s, plan) && FromSource(s0, plan, f)
    requires Copies(s, f, plan) && f.factId !in plan.targetView
    ensures var (s', r) := MergeOne(s, f, plan, p, clock);
            && Underway(s0, s', plan)
            && (r.Ok? ==> ShowsCopy(s', plan, f) && forall id :: id != f.factId ==> SameLive(s, s', plan.target, id))
  {
    hide AssertFact, RetractFact, Underway, FromSource, SameLive, ShowsCopy;
    FromSourceShields(s0, s, plan, f);
    CopyWrite(s0, s, plan, f, clock);
  }

  lemma SameViewReflexive(s: Store, branch: string)
    ensures SameView(s, s, branch)
  {
    hide LiveRow;
  }

  /** `s'` shows a copy of `f` if the round copied it, and is unchanged elsewhere. */
  ghost predicate RoundDone(s: Store, s': Store, f: Fact, plan: MergePlan) {
    && (forall id :: id != f.factId ==> SameLive(s, s', plan.target, id))
    && (if Copies(s, f, plan) then ShowsCopy(s', plan, f) else s' == s)
  }

  lemma RoundEffect(s0: Store, s: Store, f: Fact, plan: MergePlan, p: Progress, clock: Clock)
    requires Underway(s0, s, plan) && FromSource(s0, plan, f)
    requires MergeOne(s, f, plan, p, clock).1.Ok?
    ensures RoundDone(s, MergeOne(s, f, plan, p, clock).0, f, plan)
  {
    hide Underway, FromSource, LiveRow, SameLive, ShowsCopy, MergeOne, Copies;
    if !Copies(s, f, plan) {
      IdleRound(s, f, plan, p, clock);
      SameViewReflexive(s, plan.target);
    } else if f.factId in plan.targetView {
      ReplaceRound(s0, s, f, plan, p, clock);
    } else {
      CopyRound(s0, s, f, plan, p, clock);
    }
  }

  /** The report after the round for `f`. */
  function Reported(s: Store, f: Fact, plan: MergePlan, p: Progress): Progress {
    if Copies(s, f, plan) then p.(added := p.added + [f.factId])
    else if Reports(s, f, plan) then
      p.(conflicts := p.conflicts + [Conflict(f.factId, f.pred, f.value, plan.targetView[f.factId].value)])
    else p
  }

  lemma RoundReport(s: Store, f: Fact, plan: MergePlan, p: Progress, clock: Clock)
    requires MergeOne(s, f, plan, p, clock).1.Ok?
    ensures MergeOne(s, f, plan, p, clock).1.value == Reported(s, f, plan, p)
  {
  }

  lemma ReplaceRound(s0: Store, s: Store, f: Fact, plan: MergePlan, p: Progress, clock: Clock)
    requires Underway(s0, s, plan) && FromSource(s0, plan, f)
    requires Copies(s, f, plan) && f.factId in plan.targetView
    ensures var (s', r) := MergeOne(s, f, plan, p, clock);
            && Underway(s0, s', plan)
            && (r.Ok? ==>
                  && (forall id :: id != f.factId ==> SameLive(s, s', plan.target, id))
                  && ShowsCopy(s', plan, f))
  {
    FromSourceShields(s0, s, plan, f);
    RetractWrite(s0, s, plan, f.factId, clock);
    var (s1, out) := RetractFact(s, plan.target, f.factId, clock);
    if out.Ok? {
      CopyWrite(s0, s1, plan, f, clock);
      var (s2, out2) := AssertFact(s1, plan.target, CopyOf(f, plan.source), clock);
      if out2.Ok? {
        forall id | id != f.factId
          ensures SameLive(s, s2, plan.target, id)
        {
          SameLiveTransitive(s, s1, s2, plan.target, id);
        }
      }
    }
  }

  lemma UnderwayAtStart(s0: Store, plan: MergePlan)
    requires Inv(s0) && plan == PlanMerge(s0, plan.source, plan.target, plan.policy)
    ensures Underway(s0, s0, plan)
  {
    LaterReflexive(s0);
  }

  lemma {:induction false} LoopStaysUnderway(s0: Store, todo: seq<Fact>, n: nat, plan: MergePlan, clock: Clock)
    requires Inv(s0) && plan == PlanMerge(s0, plan.source, plan.target, plan.policy)
    requires todo == Clones(s0, FactsOnBranch(s0, plan.source)) && n <= |todo|
    ensures Underway(s0, MergeFirst(s0, todo, n, plan, clock).0, plan)
  {
    hide MergeOne, Inv, Underway, PlanMerge, FactsOnBranch;
    if n == 0 {
      UnderwayAtStart(s0, plan);
    } else {
      LoopStaysUnderway(s0, todo, n - 1, plan, clock);
      var (s, r) := MergeFirst(s0, todo, n - 1, plan, clock);
      if r.Ok? {
        RowsComeFromSource(s0, plan, n - 1);
        RoundStaysUnderway(s0, s, todo[n - 1], plan, r.value, clock);
      }
    }
  }

  /** `id` is among the first `n` source rows. */
  predicate Handled(todo: seq<Fact>, n: nat, id: string)
    requires n <= |todo|
  {
    exists k :: 0 <= k < n && todo[k].factId == id
  }

  /** What the target shows for `id` after `n` rounds: a copy of the source row if that round copied it, and
      otherwise what it showed before. */
  ghost predicate TargetCell(s0: Store, s: Store, todo: seq<Fact>, n: nat, plan: MergePlan, id: string)
    requires n <= |todo|
  {
    var h := LiveRow(s0, plan.source, id);
    if Handled(todo, n, id) && h.Some? && Copies(s0, s0.facts[h.value], plan)
    then ShowsCopy(s, plan, s0.facts[h.value])
    else SameLive(s0, s, plan.target, id)
  }

  /** The report after `n` rounds: the copied ids and the conflicts, in view order. */
  function Report(s0: Store, todo: seq<Fact>, n: nat, plan: MergePlan): Progress
    requires n <= |todo|
  {
    if n == 0 then Progress([], [])
    else Reported(s0, todo[n - 1], plan, Report(s0, todo, n - 1, plan))
  }

  lemma {:induction false} LoopReport(s0: Store, todo: seq<Fact>, n: nat, plan: MergePlan, clock: Clock)
    requires Inv(s0) && plan == PlanMerge(s0, plan.source, plan.target, plan.policy)
    requires todo == Clones(s0, FactsOnBranch(s0, plan.source)) && n <= |todo|
    requires MergeFirst(s0, todo, n, plan, clock).1.Ok?
    ensures MergeFirst(s0, todo, n, plan, clock).1.value == Report(s0, todo, n, plan)
  {
    hide MergeOne, Inv, Underway, PlanMerge, FactsOnBranch;
    if n == 0 {
    } else {
      var (s1, r1) := MergeFirst(s0, todo, n - 1, plan, clock);
      LoopReport(s0, todo, n - 1, plan, clock);
      LoopStaysUnderway(s0, todo, n - 1, plan, clock);
      RowsComeFromSource(s0, plan, n - 1);
      LastReport(s0, s1, todo[n - 1], plan, r1.value, clock);
    }
  }

  lemma LastReport(s0: Store, s: Store, f: Fact, plan: MergePlan, p: Progress, clock: Clock)
    requires Underway(s0, s, plan) && FromSource(s0, plan, f)
    requires MergeOne(s, f, plan, p, clock).1.Ok?
    ensures MergeOne(s, f, plan, p, clock).1.value == Reported(s0, f, plan, p)
  {
    RoundReport(s, f, plan, p, clock);
    SameOnTargetChain(s0, s, plan, f);
  }

  lemma CellAtStart(s0: Store, todo: seq<Fact>, plan: MergePlan, id: string)
    ensures TargetCell(s0, s0, todo, 0, plan, id)
  {
  }

  lemma {:induction false} LoopTarget(s0: Store, todo: seq<Fact>, n: nat, plan: MergePlan, clock: Clock, id: string)
    requires Inv(s0) && plan == PlanMerge(s0, plan.source, plan.target, plan.policy)
    requires todo == Clones(s0, FactsOnBranch(s0, plan.source)) && n <= |todo|
    requires MergeFirst(s0, todo, n, plan, clock).1.Ok?
    ensures TargetCell(s0, MergeFirst(s0, todo, n, plan, clock).0, todo, n, plan, id)
  {
    hide MergeOne, Inv, Underway, PlanMerge, FactsOnBranch, TargetCell;
    if n == 0 {
      CellAtStart(s0, todo, plan, id);
    } else {
      var (s1, r1) := MergeFirst(s0, todo, n - 1, plan, clock);
      LoopTarget(s0, todo, n - 1, plan, clock, id);
      LoopStaysUnderway(s0, todo, n - 1, plan, clock);
      RowsComeFromSource(s0, plan, n - 1);
      CellAfterLast(s0, s1, todo, n, plan, r1.value, clock, id);
    }
  }

  lemma CellAfterLast(
    s0: Store, s: Store, todo: seq<Fact>, n: nat, plan: MergePlan, p: Progress, clock: Clock, id: string)
    requires 0 < n <= |todo| && Underway(s0, s, plan)
    requires todo == Clones(s0, FactsOnBranch(s0, plan.source))
    requires FromSource(s0, plan, todo[n - 1])
    requires TargetCell(s0, s, todo, n - 1, plan, id)
    requires MergeOne(s, todo[n - 1], plan, p, clock).1.Ok?
    ensures TargetCell(s0, MergeOne(s, todo[n - 1], plan, p, clock).0, todo, n, plan, id)
  {
    LastRound(s0, s, todo[n - 1], plan, p, clock);
    CellAfterRound(s0, s, MergeOne(s, todo[n - 1], plan, p, clock).0, todo, n, plan, id);
  }

  lemma LastRound(s0: Store, s: Store, f: Fact, plan: MergePlan, p: Progress, clock: Clock)
    requires Underway(s0, s, plan) && FromSource(s0, plan, f)
    requires MergeOne(s, f, plan, p, clock).1.Ok?
    ensures RoundDone(s, MergeOne(s, f, plan, p, clock).0, f, plan)
    ensures Copies(s, f, plan) == Copies(s0, f, plan)
  {
    RoundEffect(s0, s, f, plan, p, clock);
    SameOnTargetChain(s0, s, plan, f);
  }

  /** The round for another id leaves the cell alone. */
  lemma CellAfterOtherRound(s0: Store, s1: Store, s2: Store, todo: seq<Fact>, n: nat, plan: MergePlan, id: string)
    requires 0 < n <= |todo| && todo[n - 1].factId != id
    requires TargetCell(s0, s1, todo, n - 1, plan, id)
    requires SameLive(s1, s2, plan.target, id)
    ensures TargetCell(s0, s2, todo, n, plan, id)
  {
    if Handled(todo, n, id) {
      var k :| 0 <= k < n && todo[k].factId == id;
      assert k < n - 1;
    }
    if Handled(todo, n - 1, id) {
      var k :| 0 <= k < n - 1 && todo[k].factId == id;
      assert k < n;
    }
  }

  lemma CellAfterRound(s0: Store, s1: Store, s2: Store, todo: seq<Fact>, n: nat, plan: MergePlan, id: string)
    requires 0 < n <= |todo| && Inv(s0)
    requires todo == Clones(s0, FactsOnBranch(s0, plan.source))
    requires FromSource(s0, plan, todo[n - 1])
    requires TargetCell(s0, s1, todo, n - 1, plan, id)
    requires RoundDone(s1, s2, todo[n - 1], plan) && Copies(s1, todo[n - 1], plan) == Copies(s0, todo[n - 1], plan)
    ensures TargetCell(s0, s2, todo, n, plan, id)
  {
    if id == todo[n - 1].factId {
      NotYetHandled(s0, todo, n, plan);
      assert Handled(todo, n, id);
    } else {
      CellAfterOtherRound(s0, s1, s2, todo, n, plan, id);
    }
  }

  // ----- Theorems -----

  lemma LogKeepsViews(s: Store, source: string, target: string, clock: Clock, branch: string)
    requires Inv(s) && LogMerge(s, source, target, clock).1.Ok?
    ensures SameView(s, LogMerge(s, source, target, clock).0, branch)
  {
    var s' := LogMerge(s, source, target, clock).0;
    LogStep(s, source, target, clock);
    forall b, x
      ensures LocalSame(s, s', b, x)
    {
      LocalKept(s, s', target, b, x);
    }
    forall id
      ensures SameLive(s, s', branch, id)
    {
      NearestAllSame(s, s', Ancestors(s.branches, branch), id);
    }
  }

  lemma {:induction false} NearestAllSame(s: Store, s': Store, chain: seq<string>, id: string)
    requires forall b :: LocalSame(s, s', b, id)
    ensures Nearest(s', chain, id) == Nearest(s, chain, id)
    ensures Nearest(s, chain, id).Some? ==>
              s'.facts[Nearest(s, chain, id).value] == s.facts[Nearest(s, chain, id).value]
  {
    if chain == [] {
    } else {
      assert LocalSame(s, s', chain[0], id);
      NearestAllSame(s, s', chain[1..], id);
    }
  }

  /** A merge never changes the source branch's own view, whether it finishes or is refused halfway, and
      even when the target is an ancestor of the source. */
  lemma MergeKeepsSource(s: Store, source: string, target: string, policy: MergePolicy, clock: Clock)
    requires Inv(s)
    ensures var s' := MergeBranch(s, source, target, policy, clock).0;
            && Inv(s') && s'.branches == s.branches && Later(s, s')
            && SameView(s, s', source)
  {
    LaterReflexive(s);
    hide Inv, Later, SameView, FactsOnBranch, LiveBranch, LogMerge, MergeFirst;
    if LiveBranch(s.branches, source) && LiveBranch(s.branches, target) {
      var plan := PlanMerge(s, source, target, policy);
      var todo := Clones(s, FactsOnBranch(s, source));
      var (s1, r) := MergeFirst(s, todo, |todo|, plan, clock);
      LoopStaysUnderway(s, todo, |todo|, plan, clock);
      if r.Ok? {
        LogStaysUnderway(s, s1, plan, clock);
      }
    } else {
      SameViewReflexive(s, source);
    }
  }

  lemma LogStaysUnderway(s0: Store, s: Store, plan: MergePlan, clock: Clock)
    requires Underway(s0, s, plan)
    ensures Underway(s0, LogMerge(s, plan.source, plan.target, clock).0, plan)
  {
    hide Inv, Later, SameView, PlanMerge, LiveBranch, IsSessionClosed;
    LogStep(s, plan.source, plan.target, clock);
    if LogMerge(s, plan.source, plan.target, clock).1.Ok? {
      var s' := LogMerge(s, plan.source, plan.target, clock).0;
      ExtendingIsLater(s, s', plan.target);
      LaterTransitive(s0, s, s');
      LogKeepsViews(s, plan.source, plan.target, clock, plan.source);
      SameViewTransitive(s0, s, s', plan.source);
    }
  }

  /** The source shows a row for `id` that was not written on the target's chain, and under the policy it
      replaces what the target shows, or the target shows nothing. */
  ghost predicate Overrides(s: Store, source: string, target: string, policy: MergePolicy, id: string) {
    var h, t := LiveRow(s, source, id), LiveRow(s, target, id);
    && h.Some?
    && TxBranchOrMain(s, s.facts[h.value].createdByTx) !in Ancestors(s.branches, target)
    && (t.None? || (policy == LastWriterWins && s.facts[t.value].value != s.facts[h.value].value))
  }

  lemma OverridesIsCopies(s: Store, plan: MergePlan, id: string)
    requires Inv(s) && plan == PlanMerge(s, plan.source, plan.target, plan.policy)
    ensures var h := LiveRow(s, plan.source, id);
            Overrides(s, plan.source, plan.target, plan.policy, id) <==> h.Some? && Copies(s, s.facts[h.value], plan)
  {
    TargetViewIsLive(s, plan, id);
    if LiveRow(s, plan.source, id).Some? {
      assert RowOk(s, LiveRow(s, plan.source, id).value);
    }
  }

  /** Merge result: after a merge that finishes, the target shows a copy of the source row for exactly the
      overridden ids, and for every other id the very row it showed before. Under `KeepTarget` and `Manual`
      only ids the target lacked are overridden, so no existing id changes; under no policy is an id lost.
      The report lists the copied ids and, under `Manual`, the differing values. */
  lemma MergeResultView(s: Store, source: string, target: string, policy: MergePolicy, clock: Clock)
    requires Inv(s)
    requires MergeBranch(s, source, target, policy, clock).1.Ok?
    ensures var (s', r) := MergeBranch(s, source, target, policy, clock);
            var plan := PlanMerge(s, source, target, policy);
            var todo := Clones(s, FactsOnBranch(s, source));
            && (forall id ::
                  if Overrides(s, source, target, policy, id)
                  then ShowsCopy(s', plan, s.facts[LiveRow(s, source, id).value])
                  else SameLive(s, s', target, id))
            && (forall id :: LiveRow(s, target, id).Some? ==> LiveRow(s', target, id).Some?)
            && r.value.added == Report(s, todo, |todo|, plan).added
            && r.value.conflicts == Report(s, todo, |todo|, plan).conflicts
  {
    var plan := PlanMerge(s, source, target, policy);
    var todo := Clones(s, FactsOnBranch(s, source));
    var s1 := MergeFirst(s, todo, |todo|, plan, clock).0;
    var s' := MergeBranch(s, source, target, policy, clock).0;
    LoopStaysUnderway(s, todo, |todo|, plan, clock);
    LoopReport(s, todo, |todo|, plan, clock);
    LogKeepsViews(s1, source, target, clock, target);
    forall id
      ensures if Overrides(s, source, target, policy, id)
              then ShowsCopy(s', plan, s.facts[LiveRow(s, source, id).value])
              else SameLive(s, s', target, id)
    {
      LoopTarget(s, todo, |todo|, plan, clock, id);
      assert SameLive(s1, s', target, id);
      OverridesIsCopies(s, plan, id);
      if LiveRow(s, source, id).Some? {
        EverySourceRowIsHandled(s, source, id);
      }
    }
    forall id | LiveRow(s, target, id).Some?
      ensures LiveRow(s', target, id).Some?
    {
      assert SameLive(s, s', target, id) || ShowsCopy(s', plan, s.facts[LiveRow(s, source, id).value]);
    }
  }

  lemma EverySourceRowIsHandled(s: Store, source: string, id: string)
    requires Inv(s) && LiveRow(s, source, id).Some?
    ensures var todo := Clones(s, FactsOnBranch(s, source)); Handled(todo, |todo|, id)
  {
    var v := FactsOnBranch(s, source);
    ViewIsLiveRows(s, source);
    var r := RefTo(s, Ancestors(s.branches, source), LiveRow(s, source, id).value);
    var k :| 0 <= k < |v| && v[k] == r;
    assert Clones(s, v)[k].factId == id;
  }

  /** The same live rows make the same list, in the same order. */
  lemma SameViewSameList(s: Store, s': Store, branch: string)
    requires Inv(s) && Inv(s') && Later(s, s') && s'.branches == s.branches
    requires SameView(s, s', branch)
    ensures FactsOnBranch(s', branch) == FactsOnBranch(s, branch)
    ensures forall r :: r in FactsOnBranch(s, branch) ==> s'.facts[r.row] == s.facts[r.row]
  {
    ViewIsOrdered(s, branch);
    ViewIsOrdered(s', branch);
    forall r
      ensures r in FactsOnBranch(s', branch) <==> r in FactsOnBranch(s, branch)
      ensures r in FactsOnBranch(s, branch) ==> s'.facts[r.row] == s.facts[r.row]
    {
      InView(s, branch, r);
      InView(s', branch, r);
      assert SameLive(s, s', branch, r.id);
      if LiveRow(s, branch, r.id) == Some(r.row) {
        RowsAreCommitted(s, r.row);
        assert TxBranch(s', s.facts[r.row].createdByTx) == TxBranch(s, s.facts[r.row].createdByTx);
      }
    }
    OrderIsUnique(FactsOnBranch(s', branch), FactsOnBranch(s, branch));
  }

  /** The source view after a merge, as a list: the same rows in the same order, with the same fields. */
  lemma MergeKeepsSourceList(s: Store, source: string, target: string, policy: MergePolicy, clock: Clock)
    requires Inv(s)
    ensures var s' := MergeBranch(s, source, target, policy, clock).0;
            && |s.facts| <= |s'.facts|
            && FactsOnBranch(s', source) == FactsOnBranch(s, source)
            && forall r :: r in FactsOnBranch(s, source) ==> s'.facts[r.row] == s.facts[r.row]
  {
    MergeKeepsSource(s, source, target, policy, clock);
    SameViewSameList(s, MergeBranch(s, source, target, policy, clock).0, source);
  }

  // ----- Merging twice -----

  /** After a finished merge, no source row is due for copying any more. */
  lemma NothingLeftToCopy(s: Store, source: string, target: string, policy: MergePolicy, clock: Clock, f: Fact)
    requires Inv(s) && MergeBranch(s, source, target, policy, clock).1.Ok?
    requires var s' := MergeBranch(s, source, target, policy, clock).0;
             FromSource(s', PlanMerge(s', source, target, policy), f)
    ensures var s' := MergeBranch(s, source, target, policy, clock).0;
            !Copies(s', f, PlanMerge(s', source, target, policy))
  {
    var s' := MergeBranch(s, source, target, policy, clock).0;
    var plan' := PlanMerge(s', source, target, policy);
    MergeKeepsSource(s, source, target, policy, clock);
    MergeResultView(s, source, target, policy, clock);
    assert SameLive(s, s', source, f.factId);
    var i := LiveRow(s, source, f.factId).value;
    assert s.facts[i] == f;
    RowsAreCommitted(s, i);
    assert RowOk(s, i);
    assert TxBranch(s', f.createdByTx) == TxBranch(s, f.createdByTx);
    TargetViewIsLive(s', plan', f.factId);
    if Overrides(s, source, target, policy, f.factId) {
      assert ShowsCopy(s', PlanMerge(s, source, target, policy), f);
    } else {
      assert SameLive(s, s', target, f.factId);
    }
  }

  lemma {:induction false} QuietLoop(s: Store, todo: seq<Fact>, n: nat, plan: MergePlan, clock: Clock)
    requires n <= |todo| && forall k :: 0 <= k < |todo| ==> !Copies(s, todo[k], plan)
    ensures MergeFirst(s, todo, n, plan, clock).0 == s
    ensures MergeFirst(s, todo, n, plan, clock).1.Ok?
    ensures MergeFirst(s, todo, n, plan, clock).1.value.added == []
  {
    if n == 0 {
    } else {
      QuietLoop(s, todo, n - 1, plan, clock);
      assert !Copies(s, todo[n - 1], plan);
    }
  }

  /** Under every policy, an identical second merge adds nothing and writes no fact row, so it leaves the
      target view alone; it can only be refused for want of transaction ids. */
  lemma SecondMergeAddsNothing(s: Store, source: string, target: string, policy: MergePolicy, clock: Clock)
    requires Inv(s) && MergeBranch(s, source, target, policy, clock).1.Ok?
    ensures var s1 := MergeBranch(s, source, target, policy, clock).0;
            var (s2, r2) := MergeBranch(s1, source, target, policy, clock);
            && s2.facts == s1.facts
            && SameView(s1, s2, target)
            && (r2.Ok? ==> r2.value.added == [])
            && (r2.Err? ==> r2.error == TxIdsExhausted && s2 == s1)
  {
    var s1 := MergeBranch(s, source, target, policy, clock).0;
    MergeKeepsSource(s, source, target, policy, clock);
    hide Inv, Later, SameView, Copies, FromSource, MergeFirst, FactsOnBranch, AllocTx, LiveBranch;
    var plan := PlanMerge(s1, source, target, policy);
    var todo := Clones(s1, FactsOnBranch(s1, source));
    forall k | 0 <= k < |todo|
      ensures !Copies(s1, todo[k], plan)
    {
      RowsComeFromSource(s1, plan, k);
      NothingLeftToCopy(s, source, target, policy, clock, todo[k]);
    }
    QuietLoop(s1, todo, |todo|, plan, clock);
    FinishedMergeIsOpen(s, source, target, policy, clock);
    QuietMerge(s1, source, target, policy, clock);
    hide MergeBranch, LogMerge;
    if LogMerge(s1, source, target, clock).1.Ok? {
      LogKeepsViews(s1, source, target, clock, target);
    } else {
      SameViewReflexive(s1, target);
    }
  }

  /** A merge whose loop does nothing only logs itself. */
  lemma QuietMerge(s: Store, source: string, target: string, policy: MergePolicy, clock: Clock)
    requires LiveBranch(s.branches, source) && LiveBranch(s.branches, target)
    requires var todo := Clones(s, FactsOnBranch(s, source));
             var (s', r) := MergeFirst(s, todo, |todo|, PlanMerge(s, source, target, policy), clock);
             s' == s && r.Ok? && r.value.added == []
    ensures var (s', r) := MergeBranch(s, source, target, policy, clock);
            var (s2, out) := LogMerge(s, source, target, clock);
            && s' == s2 && s'.facts == s.facts
            && (r.Ok? <==> out.Ok?) && (r.Ok? ==> r.value.added == [])
            && (out.Err? ==> r.error == out.error && s' == s)
  {
    hide MergeFirst, FactsOnBranch, PlanMerge, LiveBranch, IsSessionClosed;
  }

  /** A merge that finished leaves a store in which its closing transaction could be logged again. */
  lemma FinishedMergeIsOpen(s: Store, source: string, target: string, policy: MergePolicy, clock: Clock)
    requires Inv(s) && MergeBranch(s, source, target, policy, clock).1.Ok?
    ensures var s1 := MergeBranch(s, source, target, policy, clock).0;
            && LiveBranch(s1.branches, source) && LiveBranch(s1.branches, target)
            && (LogMerge(s1, source, target, clock).1.Err? ==>
                  LogMerge(s1, source, target, clock).1.error == TxIdsExhausted)
  {
    MergeKeepsSource(s, source, target, policy, clock);
    hide MergeBranch, LogMerge, LiveBranch, Inv, Later, SameView;
    var s' := LoggedAtEnd(s, source, target, policy, clock);
    LoggedStaysOpen(s', source, target, clock);
  }

  /** A finished merge was between live branches, and its last step was to log itself. */
  lemma LoggedAtEnd(s: Store, source: string, target: string, policy: MergePolicy, clock: Clock) returns (s': Store)
    requires MergeBranch(s, source, target, policy, clock).1.Ok?
    ensures LiveBranch(s.branches, source) && LiveBranch(s.branches, target)
    ensures LogMerge(s', source, target, clock).1.Ok?
    ensures MergeBranch(s, source, target, policy, clock).0 == LogMerge(s', source, target, clock).0
  {
    hide MergeFirst, FactsOnBranch, PlanMerge, LogMerge, LiveBranch;
    var todo := Clones(s, FactsOnBranch(s, source));
    s' := MergeFirst(s, todo, |todo|, PlanMerge(s, source, target, policy), clock).0;
  }

  lemma LoggedStaysOpen(s: Store, source: string, target: string, clock: Clock)
    requires LogMerge(s, source, target, clock).1.Ok?
    ensures var s1 := LogMerge(s, source, target, clock).0;
            && s1.branches == s.branches
            && (LogMerge(s1, source, target, clock).1.Err? ==>
                  LogMerge(s1, source, target, clock).1.error == TxIdsExhausted)
  {
    hide IsSessionClosed, LiveBranch;
  }

  // ----- When a merge finishes -----

  /** While no close marker is open, no live row is one. */
  lemma LiveIsNoMarker(s: Store, branch: string, id: string)
    requires Inv(s) && LiveRow(s, branch, id).Some? && !IsSessionClosed(s.facts)
    ensures id != SESSION_CLOSED_FACT_ID
  {
    var chain := Ancestors(s.branches, branch);
    var p := NearestPosition(s, chain, id);
    NewestIsUnsuperseded(s, chain[p], id);
  }

  /** Room for the two writes of a round on an open, live target. */
  predicate CanWrite(s: Store, plan: MergePlan, room: nat) {
    LiveBranch(s.branches, plan.target) && !IsSessionClosed(s.facts) && s.nextTx + room < TX_MAX
  }

  lemma CopySucceeds(s: Store, plan: MergePlan, f: Fact, room: nat, clock: Clock)
    requires Inv(s) && CanWrite(s, plan, room + 1)
    requires ValidPredicateName(f.pred) && f.factId != SESSION_CLOSED_FACT_ID
    ensures var (s', out) := AssertFact(s, plan.target, CopyOf(f, plan.source), clock);
            out.Ok? && CanWrite(s', plan, room)
  {
    var s' := AssertFact(s, plan.target, CopyOf(f, plan.source), clock).0;
    AssertStep(s, plan.target, CopyOf(f, plan.source), clock);
    AssertChangesChain(s, plan.target, CopyOf(f, plan.source), clock);
    StaysOpen(s, s', plan.target, f.factId);
  }

  lemma RetractSucceeds(s: Store, plan: MergePlan, id: string, room: nat, clock: Clock)
    requires Inv(s) && CanWrite(s, plan, room + 1)
    requires LiveRow(s, plan.target, id).Some? && id != SESSION_CLOSED_FACT_ID
    ensures var (s', out) := RetractFact(s, plan.target, id, clock);
            out.Ok? && CanWrite(s', plan, room)
  {
    var s' := RetractFact(s, plan.target, id, clock).0;
    ViewIsLiveRows(s, plan.target);
    assert RefTo(s, Ancestors(s.branches, plan.target), LiveRow(s, plan.target, id).value)
           in FactsOnBranch(s, plan.target);
    RetractStep(s, plan.target, id, clock);
    RetractChangesChain(s, plan.target, id, clock);
    StaysOpen(s, s', plan.target, id);
  }

  lemma ReplaceSucceeds(s: Store, f: Fact, plan: MergePlan, room: nat, clock: Clock)
    requires Inv(s) && LiveRow(s, plan.target, f.factId).Some?
    requires CanWrite(s, plan, room + 2)
    requires ValidPredicateName(f.pred) && f.factId != SESSION_CLOSED_FACT_ID
    ensures var (s1, out1) := RetractFact(s, plan.target, f.factId, clock);
            var (s2, out2) := AssertFact(s1, plan.target, CopyOf(f, plan.source), clock);
            out1.Ok? && out2.Ok? && CanWrite(s2, plan, room)
  {
    RetractSucceeds(s, plan, f.factId, room + 1, clock);
    RetractStep(s, plan.target, f.factId, clock);
    CopySucceeds(RetractFact(s, plan.target, f.factId, clock).0, plan, f, room, clock);
  }

  lemma RoundSucceeds(s: Store, f: Fact, plan: MergePlan, p: Progress, room: nat, clock: Clock)
    requires Inv(s) && (f.factId in plan.targetView ==> LiveRow(s, plan.target, f.factId).Some?)
    requires CanWrite(s, plan, room + 2)
    requires ValidPredicateName(f.pred) && f.factId != SESSION_CLOSED_FACT_ID
    ensures var (s', r) := MergeOne(s, f, plan, p, clock);
            r.Ok? && CanWrite(s', plan, room)
  {
    if Copies(s, f, plan) {
      if f.factId in plan.targetView {
        ReplaceSucceeds(s, f, plan, room, clock);
      } else {
        CopySucceeds(s, plan, f, room + 1, clock);
      }
    }
  }

  lemma RoundMayRun(s0: Store, s: Store, f: Fact, plan: MergePlan)
    requires Underway(s0, s, plan) && FromSource(s0, plan, f)
    requires SameLive(s0, s, plan.target, f.factId)
    ensures ValidPredicateName(f.pred)
    ensures f.factId in plan.targetView ==> LiveRow(s, plan.target, f.factId).Some?
  {
    assert RowOk(s0, LiveRow(s0, plan.source, f.factId).value);
    TargetViewIsLive(s0, plan, f.factId);
  }

  lemma {:induction false} LoopSucceeds(s0: Store, todo: seq<Fact>, n: nat, plan: MergePlan, room: nat, clock: Clock)
    requires Inv(s0) && plan == PlanMerge(s0, plan.source, plan.target, plan.policy)
    requires todo == Clones(s0, FactsOnBranch(s0, plan.source)) && n <= |todo|
    requires CanWrite(s0, plan, 2 * n + room)
    ensures MergeFirst(s0, todo, n, plan, clock).1.Ok?
    ensures CanWrite(MergeFirst(s0, todo, n, plan, clock).0, plan, room)
  {
    hide MergeOne, Inv, PlanMerge, FactsOnBranch, CanWrite, Underway, TargetCell;
    if n == 0 {
    } else {
      LoopSucceeds(s0, todo, n - 1, plan, room + 2, clock);
      LoopStaysUnderway(s0, todo, n - 1, plan, clock);
      LoopTarget(s0, todo, n - 1, plan, clock, todo[n - 1].factId);
      var (s, r) := MergeFirst(s0, todo, n - 1, plan, clock);
      NextRoundSucceeds(s0, s, todo, n, plan, r.value, 2 * n + room, room, clock);
    }
  }

  lemma NextRoundSucceeds(s0: Store, s: Store, todo: seq<Fact>, n: nat, plan: MergePlan, p: Progress,
                          room0: nat, room: nat, clock: Clock)
    requires 0 < n <= |todo| && todo == Clones(s0, FactsOnBranch(s0, plan.source)) && Underway(s0, s, plan)
    requires TargetCell(s0, s, todo, n - 1, plan, todo[n - 1].factId)
    requires CanWrite(s0, plan, room0) && CanWrite(s, plan, room + 2)
    ensures var (s', r) := MergeOne(s, todo[n - 1], plan, p, clock);
            r.Ok? && CanWrite(s', plan, room)
  {
    var f := todo[n - 1];
    NextRowIsUntouched(s0, s, todo, n, plan);
    hide MergeOne, FactsOnBranch, Later, PlanMerge, Inv, LiveRow, SameView, SameLive, FromSource, TargetCell;
    NextRowIsNoMarker(s0, plan, f, room0);
    RoundMayRun(s0, s, f, plan);
    hide CanWrite;
    RoundSucceeds(s, f, plan, p, room, clock);
  }

  lemma NextRowIsUntouched(s0: Store, s: Store, todo: seq<Fact>, n: nat, plan: MergePlan)
    requires Inv(s0) && 0 < n <= |todo| && todo == Clones(s0, FactsOnBranch(s0, plan.source))
    requires TargetCell(s0, s, todo, n - 1, plan, todo[n - 1].factId)
    ensures FromSource(s0, plan, todo[n - 1]) && SameLive(s0, s, plan.target, todo[n - 1].factId)
  {
    hide FactsOnBranch, Inv, LiveRow, Handled, Copies, SameLive, ShowsCopy;
    NotYetHandled(s0, todo, n, plan);
    RowsComeFromSource(s0, plan, n - 1);
  }

  lemma NextRowIsNoMarker(s0: Store, plan: MergePlan, f: Fact, room: nat)
    requires Inv(s0) && FromSource(s0, plan, f) && CanWrite(s0, plan, room)
    ensures f.factId != SESSION_CLOSED_FACT_ID
  {
    hide Inv, LiveRow, LiveBranch;
    LiveIsNoMarker(s0, plan.source, f.factId);
  }

  lemma NotYetHandled(s0: Store, todo: seq<Fact>, n: nat, plan: MergePlan)
    requires Inv(s0) && 0 < n <= |todo| && todo == Clones(s0, FactsOnBranch(s0, plan.source))
    ensures !Handled(todo, n - 1, todo[n - 1].factId)
  {
    forall k | 0 <= k < n - 1
      ensures todo[k].factId != todo[n - 1].factId
    {
      SourceRowsDistinct(s0, plan, k, n - 1);
    }
  }

  /** With no session-close marker open, live branches and enough transaction ids, every merge finishes. */
  lemma MergeFinishes(s: Store, source: string, target: string, policy: MergePolicy, clock: Clock)
    requires Inv(s) && !IsSessionClosed(s.facts)
    requires LiveBranch(s.branches, source) && LiveBranch(s.branches, target)
    requires s.nextTx + 2 * |FactsOnBranch(s, source)| < TX_MAX
    ensures MergeBranch(s, source, target, policy, clock).1.Ok?
  {
    var todo := Clones(s, FactsOnBranch(s, source));
    LoopSucceeds(s, todo, |todo|, PlanMerge(s, source, target, policy), 0, clock);
  }
}
