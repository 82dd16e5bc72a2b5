/** `merge_branch`: copy the source branch's view into the target branch under a conflict policy. */
module BrainMerge {
  import opened Wrappers
  import opened BrainTypes
  import opened BranchChain
  import opened RowSelection
  import opened BrainReads
  import opened BrainWrites

  datatype MergePolicy = LastWriterWins | KeepTarget | Manual

  datatype Conflict = Conflict(factId: string, pred: string, sourceValue: FactValue, targetValue: FactValue)

  datatype MergeResult = MergeResult(added: seq<string>, conflicts: seq<Conflict>, txId: TxId)

  /** What a merge fixes before it writes: the branches, the policy, the target's chain and its view. */
  datatype MergePlan = MergePlan(
    source: string,
    target: string,
    policy: MergePolicy,
    targetChain: seq<string>,
    targetView: map<string, Fact>)

  /** What a merge has reported so far. */
  datatype Progress = Progress(added: seq<string>, conflicts: seq<Conflict>)

  /** The cloned rows of a view. */
  function Clones(s: Store, rs: seq<RowRef>): (facts: seq<Fact>)
    requires InFacts(s, rs)
    ensures |facts| == |rs|
    ensures forall i :: 0 <= i < |rs| ==> facts[i] == s.facts[rs[i].row]
  {
    seq(|rs|, i requires 0 <= i < |rs| => s.facts[rs[i].row])
  }

  /** The map from fact id to row that collecting a view builds; a later row replaces an earlier one. */
  function ById(facts: seq<Fact>): (m: map<string, Fact>)
    ensures forall id :: id in m ==> m[id] in facts && m[id].factId == id
    ensures forall f :: f in facts ==> f.factId in m
  {
    if facts == [] then map[]
    else
      var last := facts[|facts| - 1];
      assert facts == facts[..|facts| - 1] + [last];
      ById(facts[..|facts| - 1])[last.factId := last]
  }

  function PlanMerge(s: Store, source: string, target: string, policy: MergePolicy): MergePlan {
    MergePlan(source, target, policy, Ancestors(s.branches, target), ById(Clones(s, FactsOnBranch(s, target))))
  }

  /** The claim by which a merge re-asserts a source row on the target. */
  function CopyOf(f: Fact, source: string): Claim {
    Claim(f.factId, f.pred, f.value, "merged-from:" + source, Some(f.validFrom), f.validTo)
  }

  /** `tx_on_branches` for the transaction that wrote `f`. */
  predicate OnTargetChain(s: Store, f: Fact, plan: MergePlan) {
    f.createdByTx in s.txBranch && s.txBranch[f.createdByTx] in plan.targetChain
  }

  /** One round of the merge loop. */
  function MergeOne(s: Store, f: Fact, plan: MergePlan, p: Progress, clock: Clock): (Store, Result<Progress, Error>) {
    if OnTargetChain(s, f, plan) then (s, Ok(p))
    else if f.factId !in plan.targetView then
      match AssertFact(s, plan.target, CopyOf(f, plan.source), clock)
      case (s', Err(e)) => (s', Err(e))
      case (s', Ok(_)) => (s', Ok(p.(added := p.added + [f.factId])))
    else if plan.targetView[f.factId].value == f.value then (s, Ok(p))
    else match plan.policy
      case LastWriterWins =>
        (match RetractFact(s, plan.target, f.factId, clock)
         case (s', Err(e)) => (s', Err(e))
         case (s', Ok(_)) =>
           match AssertFact(s', plan.target, CopyOf(f, plan.source), clock)
           case (s'', Err(e)) => (s'', Err(e))
           case (s'', Ok(_)) => (s'', Ok(p.(added := p.added + [f.factId]))))
      case KeepTarget => (s, Ok(p))
      case Manual =>
        (s, Ok(p.(conflicts := p.conflicts + [Conflict(f.factId, f.pred, f.value, plan.targetView[f.factId].value)])))
  }

  /** The merge loop over the first `n` source rows; the first refused write ends it. */
  function MergeFirst(s: Store, todo: seq<Fact>, n: nat, plan: MergePlan, clock: Clock)
    : (Store, Result<Progress, Error>)
    requires n <= |todo|
  {
    if n == 0 then (s, Ok(Progress([], [])))
    else match MergeFirst(s, todo, n - 1, plan, clock)
      case (s', Err(e)) => (s', Err(e))
      case (s', Ok(p)) => MergeOne(s', todo[n - 1], plan, p, clock)
  }

  /** `merge_branch`. A refused write leaves the writes before it in place. */
  function MergeBranch(s: Store, source: string, target: string, policy: MergePolicy, clock: Clock)
    : (Store, Result<MergeResult, Error>)
  {
    if !LiveBranch(s.branches, source) then (s, Err(SourceNotFound))
    else if !LiveBranch(s.branches, target) then (s, Err(TargetNotFound))
    else
      var todo := Clones(s, FactsOnBranch(s, source));
      match MergeFirst(s, todo, |todo|, PlanMerge(s, source, target, policy), clock)
      case (s', Err(e)) => (s', Err(e))
      case (s', Ok(p)) =>
        match LogMerge(s', source, target, clock)
        case (s'', Err(e)) => (s'', Err(e))
        case (s'', Ok(tx)) => (s'', Ok(MergeResult(p.added, p.conflicts, tx)))
  }

  /** Once a write was refused, no later round changes anything. */
  lemma {:induction false} RefusalEndsTheLoop(s: Store, todo: seq<Fact>, n: nat, m: nat, plan: MergePlan, clock: Clock)
    requires n <= m <= |todo|
    requires MergeFirst(s, todo, n, plan, clock).1.Err?
    ensures MergeFirst(s, todo, m, plan, clock) == MergeFirst(s, todo, n, plan, clock)
    decreases m
  {
    if n < m {
      RefusalEndsTheLoop(s, todo, n, m - 1, plan, clock);
    }
  }
}
