/** A merge is a run of assertions, retractions and one log entry on its target, so what holds of every run
    holds of merges; and its report is exact. */
module MergeRuns {
  import opened Wrappers
  import opened BrainTypes
  import opened BranchChain
  import opened RowSelection
  import opened BrainReads
  import opened BrainWrites
  import opened BrainMerge
  import opened BrainInvariant
  import opened FactHeads
  import opened MergeViews

  predicate WritesTarget(op: Op, target: string) {
    (op.Assert? || op.Retract? || op.Log?) && op.branch == target
  }

  lemma RunOne(s: Store, op: Op, clock: Clock)
    ensures Run(s, [op], clock) == Step(s, op, clock).0
  {
  }

  lemma RunTwo(s: Store, op: Op, op': Op, clock: Clock)
    ensures Run(s, [op, op'], clock) == Step(Step(s, op, clock).0, op', clock).0
  {
    assert [op, op'] == [op] + [op'];
    RunConcat(s, [op], [op'], clock);
    RunOne(s, op, clock);
    RunOne(Step(s, op, clock).0, op', clock);
  }

  /** The calls a round makes. */
  function RoundOps(s: Store, f: Fact, plan: MergePlan, clock: Clock): (ops: seq<Op>)
    ensures forall op :: op in ops ==> WritesTarget(op, plan.target)
  {
    var copy := Assert(plan.target, CopyOf(f, plan.source));
    var retract := Retract(plan.target, f.factId);
    if !Copies(s, f, plan) then []
    else if f.factId !in plan.targetView then [copy]
    else if RetractFact(s, plan.target, f.factId, clock).1.Err? then [retract]
    else [retract, copy]
  }

  lemma RoundIsARun(s: Store, f: Fact, plan: MergePlan, p: Progress, clock: Clock)
    ensures MergeOne(s, f, plan, p, clock).0 == Run(s, RoundOps(s, f, plan, clock), clock)
  {
    var copy := Assert(plan.target, CopyOf(f, plan.source));
    var retract := Retract(plan.target, f.factId);
    RunOne(s, copy, clock);
    RunOne(s, retract, clock);
    RunTwo(s, retract, copy, clock);
    if !Copies(s, f, plan) {
      assert MergeOne(s, f, plan, p, clock).0 == s;
    } else if f.factId !in plan.targetView {
      assert MergeOne(s, f, plan, p, clock).0 == AssertFact(s, plan.target, CopyOf(f, plan.source), clock).0;
    } else if RetractFact(s, plan.target, f.factId, clock).1.Err? {
      assert MergeOne(s, f, plan, p, clock).0 == RetractFact(s, plan.target, f.factId, clock).0;
    }
  }

  lemma {:induction false} LoopIsARun(s: Store, todo: seq<Fact>, n: nat, plan: MergePlan, clock: Clock)
    returns (ops: seq<Op>)
    requires n <= |todo|
    ensures MergeFirst(s, todo, n, plan, clock).0 == Run(s, ops, clock)
    ensures forall op :: op in ops ==> WritesTarget(op, plan.target)
  {
    ops := [];
    if n == 0 {
    } else {
      ops := LoopIsARun(s, todo, n - 1, plan, clock);
      var (s', r) := MergeFirst(s, todo, n - 1, plan, clock);
      if r.Ok? {
        var last := RoundOps(s', todo[n - 1], plan, clock);
        RoundIsARun(s', todo[n - 1], plan, r.value, clock);
        RunConcat(s, ops, last, clock);
        ops := ops + last;
      }
    }
  }

  /** Every merge, finished or refused halfway, is a run of writes on its target. */
  lemma MergeIsARun(s: Store, source: string, target: string, policy: MergePolicy, clock: Clock) returns (ops: seq<Op>)
    ensures MergeBranch(s, source, target, policy, clock).0 == Run(s, ops, clock)
    ensures forall op :: op in ops ==> WritesTarget(op, target)
  {
    hide MergeFirst, FactsOnBranch, LogMerge;
    ops := [];
    if LiveBranch(s.branches, source) && LiveBranch(s.branches, target) {
      var plan := PlanMerge(s, source, target, policy);
      var todo := Clones(s, FactsOnBranch(s, source));
      assert plan.target == target;
      hide PlanMerge;
      ops := LoopIsARun(s, todo, |todo|, plan, clock);
      var (s', r) := MergeFirst(s, todo, |todo|, plan, clock);
      if r.Ok? {
        RunConcat(s, ops, [Log(source, target)], clock);
        RunOne(s', Log(source, target), clock);
        assert Step(s', Log(source, target), clock) == LogMerge(s', source, target, clock);
        ops := ops + [Log(source, target)];
      }
    }
  }

  // ----- The report -----

  lemma {:induction false} AddedMembers(s: Store, todo: seq<Fact>, n: nat, plan: MergePlan, id: string)
    requires n <= |todo|
    ensures id in Report(s, todo, n, plan).added
            <==> exists k :: 0 <= k < n && todo[k].factId == id && Copies(s, todo[k], plan)
  {
    if n == 0 {
    } else {
      AddedMembers(s, todo, n - 1, plan, id);
      if todo[n - 1].factId == id && Copies(s, todo[n - 1], plan) {
        assert id in Report(s, todo, n, plan).added;
      }
    }
  }

  function ConflictOf(f: Fact, plan: MergePlan): Conflict
    requires f.factId in plan.targetView
  {
    Conflict(f.factId, f.pred, f.value, plan.targetView[f.factId].value)
  }

  lemma {:induction false} ConflictMembers(s: Store, todo: seq<Fact>, n: nat, plan: MergePlan, c: Conflict)
    requires n <= |todo|
    ensures c in Report(s, todo, n, plan).conflicts
            <==> exists k :: 0 <= k < n && Reports(s, todo[k], plan) && c == ConflictOf(todo[k], plan)
  {
    if n == 0 {
    } else {
      ConflictMembers(s, todo, n - 1, plan, c);
      if Reports(s, todo[n - 1], plan) && c == ConflictOf(todo[n - 1], plan) {
        assert c in Report(s, todo, n, plan).conflicts;
      }
    }
  }

  /** Both branches show `id`, the source's row was not written on the target's chain, and the values differ. */
  ghost predicate Differs(s: Store, source: string, target: string, id: string) {
    var h, t := LiveRow(s, source, id), LiveRow(s, target, id);
    && h.Some? && t.Some?
    && TxBranchOrMain(s, s.facts[h.value].createdByTx) !in Ancestors(s.branches, target)
    && s.facts[t.value].value != s.facts[h.value].value
  }

  lemma SourceRowAt(s: Store, plan: MergePlan, id: string) returns (k: nat)
    requires Inv(s) && LiveRow(s, plan.source, id).Some?
    ensures var todo := Clones(s, FactsOnBranch(s, plan.source));
            k < |todo| && todo[k] == s.facts[LiveRow(s, plan.source, id).value]
  {
    var todo := Clones(s, FactsOnBranch(s, plan.source));
    EverySourceRowIsHandled(s, plan.source, id);
    k :| 0 <= k < |todo| && todo[k].factId == id;
    RowsComeFromSource(s, plan, k);
  }

  /** A finished merge reports as added exactly the ids it overrode, and as conflicts, under `Manual` alone,
      exactly the differing ids with both values. */
  lemma MergeReportIsExact(s: Store, source: string, target: string, policy: MergePolicy, clock: Clock)
    requires Inv(s) && MergeBranch(s, source, target, policy, clock).1.Ok?
    ensures var r := MergeBranch(s, source, target, policy, clock).1.value;
            && (forall id :: id in r.added <==> Overrides(s, source, target, policy, id))
            && (forall c :: c in r.conflicts <==>
                  && policy == Manual && Differs(s, source, target, c.factId)
                  && c == Conflict(c.factId, s.facts[LiveRow(s, source, c.factId).value].pred,
                                   s.facts[LiveRow(s, source, c.factId).value].value,
                                   s.facts[LiveRow(s, target, c.factId).value].value))
  {
    var plan := PlanMerge(s, source, target, policy);
    var todo := Clones(s, FactsOnBranch(s, source));
    var r := MergeBranch(s, source, target, policy, clock).1.value;
    MergeResultView(s, source, target, policy, clock);
    forall id
      ensures id in r.added <==> Overrides(s, source, target, policy, id)
    {
      AddedMembers(s, todo, |todo|, plan, id);
      AddedIsOverridden(s, plan, id);
    }
    forall c
      ensures c in r.conflicts <==>
              && policy == Manual && Differs(s, source, target, c.factId)
              && c == Conflict(c.factId, s.facts[LiveRow(s, source, c.factId).value].pred,
                               s.facts[LiveRow(s, source, c.factId).value].value,
                               s.facts[LiveRow(s, target, c.factId).value].value)
    {
      ConflictMembers(s, todo, |todo|, plan, c);
      ConflictIsDifference(s, plan, c);
    }
  }

  lemma AddedIsOverridden(s: Store, plan: MergePlan, id: string)
    requires Inv(s) && plan == PlanMerge(s, plan.source, plan.target, plan.policy)
    ensures var todo := Clones(s, FactsOnBranch(s, plan.source));
            (exists k :: 0 <= k < |todo| && todo[k].factId == id && Copies(s, todo[k], plan))
            <==> Overrides(s, plan.source, plan.target, plan.policy, id)
  {
    var todo := Clones(s, FactsOnBranch(s, plan.source));
    OverridesIsCopies(s, plan, id);
    forall k | 0 <= k < |todo| && todo[k].factId == id
      ensures FromSource(s, plan, todo[k])
    {
      RowsComeFromSource(s, plan, k);
    }
    if LiveRow(s, plan.source, id).Some? {
      var k := SourceRowAt(s, plan, id);
    }
  }

  lemma ConflictIsDifference(s: Store, plan: MergePlan, c: Conflict)
    requires Inv(s) && plan == PlanMerge(s, plan.source, plan.target, plan.policy)
    ensures var todo := Clones(s, FactsOnBranch(s, plan.source));
            (exists k :: 0 <= k < |todo| && Reports(s, todo[k], plan) && c == ConflictOf(todo[k], plan))
            <==> && plan.policy == Manual && Differs(s, plan.source, plan.target, c.factId)
                 && c == Conflict(c.factId, s.facts[LiveRow(s, plan.source, c.factId).value].pred,
                                  s.facts[LiveRow(s, plan.source, c.factId).value].value,
                                  s.facts[LiveRow(s, plan.target, c.factId).value].value)
  {
    hide FactsOnBranch, LiveRow, Inv, PlanMerge, Reports, Differs;
    var todo := Clones(s, FactsOnBranch(s, plan.source));
    forall k | 0 <= k < |todo| && todo[k].factId == c.factId
      ensures FromSource(s, plan, todo[k])
      ensures Reports(s, todo[k], plan) <==> plan.policy == Manual && Differs(s, plan.source, plan.target, c.factId)
      ensures Reports(s, todo[k], plan) ==> c.factId in plan.targetView && LiveRow(s, plan.target, c.factId).Some?
      ensures Reports(s, todo[k], plan) ==>
                plan.targetView[c.factId].value == s.facts[LiveRow(s, plan.target, c.factId).value].value
    {
      RowsComeFromSource(s, plan, k);
      ReportsIsDiffers(s, plan, todo[k]);
    }
    if LiveRow(s, plan.source, c.factId).Some? {
      var k := SourceRowAt(s, plan, c.factId);
    } else {
      NoSourceNoDifference(s, plan.source, plan.target, c.factId);
    }
  }

  lemma NoSourceNoDifference(s: Store, source: string, target: string, id: string)
    requires LiveRow(s, source, id).None?
    ensures !Differs(s, source, target, id)
  {
  }

  lemma ReportsIsDiffers(s: Store, plan: MergePlan, f: Fact)
    requires Inv(s) && plan == PlanMerge(s, plan.source, plan.target, plan.policy) && FromSource(s, plan, f)
    ensures Reports(s, f, plan) ==> f.factId in plan.targetView && LiveRow(s, plan.target, f.factId).Some?
    ensures Reports(s, f, plan) ==>
              plan.targetView[f.factId].value == s.facts[LiveRow(s, plan.target, f.factId).value].value
    ensures Reports(s, f, plan) <==> plan.policy == Manual && Differs(s, plan.source, plan.target, f.factId)
  {
    TargetViewIsLive(s, plan, f.factId);
    assert RowOk(s, LiveRow(s, plan.source, f.factId).value);
    hide FactsOnBranch, LiveRow, Inv, Ancestors;
  }
}
