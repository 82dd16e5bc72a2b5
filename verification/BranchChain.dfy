/** The branch table and the ancestor chain of a branch. */
module BranchChain {
  import opened Wrappers
  import opened BrainTypes

  /** `branch_ancestors` gives up after this many rows. */
  const CHAIN_LIMIT: nat := 257

  predicate LiveBranch(bs: seq<Branch>, id: string) {
    exists k :: 0 <= k < |bs| && bs[k].branchId == id && !bs[k].archived
  }

  /** Index of the first row with the given id, or the table's length when there is none. */
  function FirstRow(bs: seq<Branch>, id: string): (k: nat)
    ensures k <= |bs|
    ensures k < |bs| ==> bs[k].branchId == id
    ensures forall j :: 0 <= j < k ==> bs[j].branchId != id
  {
    if bs == [] then 0
    else if bs[0].branchId == id then 0
    else
      var rest := FirstRow(bs[1..], id);
      assert forall j :: 0 < j < 1 + rest ==> bs[j] == bs[1..][j - 1];
      1 + rest
  }

  /** The parent pointer followed from `id`: `None` at a missing or archived row, or at a root. */
  function Walk(bs: seq<Branch>, id: string, fuel: nat): seq<string>
    decreases |bs| + fuel
  {
    var k := FirstRow(bs, id);
    if fuel == 0 || k == |bs| || bs[k].archived then []
    else [id] + match bs[k].parentBranchId
                case None => []
                case Some(p) => Walk(bs, p, fuel - 1)
  }

  /** `branch_ancestors`: `[id, parent, grandparent, ...]`, or just `[id]` when the walk finds nothing. */
  function Ancestors(bs: seq<Branch>, id: string): (chain: seq<string>)
    ensures chain != [] && chain[0] == id
  {
    var chain := Walk(bs, id, CHAIN_LIMIT);
    if chain == [] then [id] else chain
  }

  /** What every reachable branch table satisfies: it starts with a live, parentless `main`, and
      every parent has a row further up the table. */
  ghost predicate WellFormed(bs: seq<Branch>) {
    && bs != []
    && bs[0].branchId == MAIN_BRANCH && !bs[0].archived && bs[0].parentBranchId.None?
    && forall k :: 0 <= k < |bs| ==> ParentAbove(bs, k)
  }

  ghost predicate ParentAbove(bs: seq<Branch>, k: nat)
    requires k < |bs|
  {
    bs[k].parentBranchId.Some? ==> FirstRow(bs, bs[k].parentBranchId.value) < k
  }

  /** The chain without the guard: parents until a root, an archived row or a missing row. */
  ghost function Lineage(bs: seq<Branch>, id: string): seq<string>
    requires WellFormed(bs)
    decreases FirstRow(bs, id)
  {
    var k := FirstRow(bs, id);
    if k == |bs| || bs[k].archived then []
    else
      assert ParentAbove(bs, k);
      [id] + match bs[k].parentBranchId
             case None => []
             case Some(p) => Lineage(bs, p)
  }

  lemma WalkStep(bs: seq<Branch>, id: string, fuel: nat)
    ensures var k := FirstRow(bs, id);
            Walk(bs, id, fuel)
            == if fuel == 0 || k == |bs| || bs[k].archived then []
               else if bs[k].parentBranchId.None? then [id]
               else [id] + Walk(bs, bs[k].parentBranchId.value, fuel - 1)
  {
    hide FirstRow;
  }

  lemma LineageStep(bs: seq<Branch>, id: string)
    requires WellFormed(bs)
    ensures var k := FirstRow(bs, id);
            Lineage(bs, id)
            == if k == |bs| || bs[k].archived then []
               else if bs[k].parentBranchId.None? then [id]
               else [id] + Lineage(bs, bs[k].parentBranchId.value)
  {
    hide FirstRow, WellFormed;
  }

  /** The first `n` entries of `full`. */
  function Cut(full: seq<string>, n: nat): seq<string> {
    if |full| <= n then full else full[..n]
  }

  lemma CutCons(x: string, full: seq<string>, n: nat)
    ensures Cut([x] + full, n + 1) == [x] + Cut(full, n)
  {
  }

  /** The guard only truncates: following parents always ends by itself. */
  lemma {:induction false} WalkTruncatesLineage(bs: seq<Branch>, id: string, fuel: nat)
    requires WellFormed(bs)
    ensures Walk(bs, id, fuel) == Cut(Lineage(bs, id), fuel)
    decreases fuel
  {
    hide FirstRow, WellFormed, Walk, Lineage;
    var k := FirstRow(bs, id);
    WalkStep(bs, id, fuel);
    LineageStep(bs, id);
    if fuel != 0 && k < |bs| && !bs[k].archived && bs[k].parentBranchId.Some? {
      hide Cut;
      WalkTruncatesLineage(bs, bs[k].parentBranchId.value, fuel - 1);
      CutCons(id, Lineage(bs, bs[k].parentBranchId.value), fuel - 1);
    }
  }

  /** First-row indices strictly decrease along `chain`, starting below `top`. */
  ghost predicate Descends(bs: seq<Branch>, chain: seq<string>, top: nat) {
    && (forall i :: 0 <= i < |chain| ==> FirstRow(bs, chain[i]) < top)
    && (forall i, j :: 0 <= i < j < |chain| ==> FirstRow(bs, chain[j]) < FirstRow(bs, chain[i]))
  }

  /** Along a lineage the first-row index strictly decreases, so no branch occurs twice. */
  lemma {:induction false} LineageDescends(bs: seq<Branch>, id: string)
    requires WellFormed(bs)
    ensures Descends(bs, Lineage(bs, id), FirstRow(bs, id) + 1)
    ensures Descends(bs, Lineage(bs, id), |bs|)
    decreases FirstRow(bs, id)
  {
    var k := FirstRow(bs, id);
    if k < |bs| && !bs[k].archived {
      match bs[k].parentBranchId {
        case None =>
          DescendsFrom(bs, id, [], 0);
        case Some(p) =>
          assert ParentAbove(bs, k);
          LineageDescends(bs, p);
          DescendsFrom(bs, id, Lineage(bs, p), FirstRow(bs, p) + 1);
      }
    }
  }

  lemma DescendsFrom(bs: seq<Branch>, id: string, rest: seq<string>, top: nat)
    requires Descends(bs, rest, top) && top <= FirstRow(bs, id) < |bs|
    ensures Descends(bs, [id] + rest, FirstRow(bs, id) + 1) && Descends(bs, [id] + rest, |bs|)
  {
    hide FirstRow;
    var full := [id] + rest;
    assert full[0] == id && forall i :: 0 < i < |full| ==> full[i] == rest[i - 1];
  }

  /** The lineage of any branch on a lineage is the rest of that lineage. */
  lemma {:induction false} LineageSuffix(bs: seq<Branch>, id: string, i: nat)
    requires WellFormed(bs)
    requires i < |Lineage(bs, id)|
    ensures Lineage(bs, Lineage(bs, id)[i]) == Lineage(bs, id)[i..]
    decreases i
  {
    if i == 0 {
    } else {
      var k := FirstRow(bs, id);
      assert ParentAbove(bs, k);
      var p := bs[k].parentBranchId.value;
      assert Lineage(bs, id) == [id] + Lineage(bs, p);
      LineageSuffix(bs, p, i - 1);
    }
  }

  lemma CutOfSuffix(full: seq<string>, n: nat, i: nat)
    requires i < |Cut(full, n)|
    ensures Cut(full, n)[i] == full[i]
    ensures Cut(full, n)[i..] <= Cut(full[i..], n)
    ensures |full| <= n ==> Cut(full, n)[i..] == Cut(full[i..], n)
  {
    if |full| > n {
      assert full[..n][i..] == full[i..][..n - i];
    }
  }

  lemma ChainIsCutLineage(bs: seq<Branch>, id: string)
    requires WellFormed(bs)
    ensures Ancestors(bs, id) == if Lineage(bs, id) == [] then [id] else Cut(Lineage(bs, id), CHAIN_LIMIT)
  {
    WalkTruncatesLineage(bs, id, CHAIN_LIMIT);
    hide Walk, Lineage, FirstRow, WellFormed;
    assert Lineage(bs, id) != [] ==> Cut(Lineage(bs, id), CHAIN_LIMIT) != [];
  }

  /** A chain has no repeats, and its branches all have rows unless it is the one-element fallback. */
  lemma ChainHasNoRepeats(bs: seq<Branch>, id: string)
    requires WellFormed(bs)
    ensures var chain := Ancestors(bs, id);
            && |chain| <= 257
            && (forall i, j :: 0 <= i < j < |chain| ==> chain[i] != chain[j])
            && chain == if |Lineage(bs, id)| == 0 then [id]
                        else if |Lineage(bs, id)| <= 257 then Lineage(bs, id)
                        else Lineage(bs, id)[..257]
  {
    ChainIsCutLineage(bs, id);
    LineageDescends(bs, id);
    hide Ancestors, Lineage, FirstRow, WellFormed;
  }

  /** From any position on, a chain is a prefix of that ancestor's own chain; it is all of it when the
      guard cut nothing off. */
  lemma ChainSuffix(bs: seq<Branch>, id: string, i: nat)
    requires WellFormed(bs)
    requires i < |Ancestors(bs, id)|
    ensures Ancestors(bs, id)[i..] <= Ancestors(bs, Ancestors(bs, id)[i])
    ensures |Lineage(bs, id)| <= CHAIN_LIMIT
            ==> Ancestors(bs, id)[i..] == Ancestors(bs, Ancestors(bs, id)[i])
  {
    hide Ancestors, Lineage, FirstRow, WellFormed, Cut;
    var chain, full := Ancestors(bs, id), Lineage(bs, id);
    ChainIsCutLineage(bs, id);
    if full == [] {
      assert i == 0 && chain[i] == id && chain[i..] == chain;
    } else {
      CutOfSuffix(full, CHAIN_LIMIT, i);
      CutIsShorter(full, CHAIN_LIMIT);
      LineageSuffix(bs, id, i);
      ChainIsCutLineage(bs, full[i]);
    }
  }

  lemma CutIsShorter(full: seq<string>, n: nat)
    ensures |Cut(full, n)| <= |full|
  {
  }

  /** Appending a row leaves the first rows of known ids where they were. */
  lemma {:induction false} FirstRowOfAppended(bs: seq<Branch>, b: Branch, id: string)
    ensures FirstRow(bs, id) < |bs| ==> FirstRow(bs + [b], id) == FirstRow(bs, id)
    ensures FirstRow(bs, id) == |bs| ==> FirstRow(bs + [b], id) == if b.branchId == id then |bs| else |bs| + 1
  {
    if bs != [] && bs[0].branchId != id {
      assert (bs + [b])[1..] == bs[1..] + [b];
      FirstRowOfAppended(bs[1..], b, id);
    }
  }

  lemma SameRow(bs: seq<Branch>, b: Branch, id: string)
    requires FirstRow(bs, id) < |bs|
    ensures FirstRow(bs + [b], id) == FirstRow(bs, id) && (bs + [b])[FirstRow(bs, id)] == bs[FirstRow(bs, id)]
  {
    hide FirstRow;
    FirstRowOfAppended(bs, b, id);
  }

  lemma ParentHasRow(bs: seq<Branch>, k: nat)
    requires WellFormed(bs) && k < |bs| && bs[k].parentBranchId.Some?
    ensures FirstRow(bs, bs[k].parentBranchId.value) < |bs|
  {
    hide FirstRow;
    assert ParentAbove(bs, k);
  }

  /** Appending a row leaves the chain of every branch that already has a row unchanged. */
  lemma {:induction false} WalkOfAppended(bs: seq<Branch>, b: Branch, id: string, fuel: nat)
    requires WellFormed(bs)
    requires FirstRow(bs, id) < |bs|
    ensures Walk(bs + [b], id, fuel) == Walk(bs, id, fuel)
    decreases fuel
  {
    hide FirstRow, WellFormed, Walk;
    var k, bs' := FirstRow(bs, id), bs + [b];
    SameRow(bs, b, id);
    WalkStep(bs, id, fuel);
    WalkStep(bs', id, fuel);
    if fuel != 0 && !bs[k].archived && bs[k].parentBranchId.Some? {
      ParentHasRow(bs, k);
      WalkOfAppended(bs, b, bs[k].parentBranchId.value, fuel - 1);
    }
  }

  lemma AppendKeepsWellFormed(bs: seq<Branch>, b: Branch)
    requires WellFormed(bs)
    requires b.parentBranchId.Some? ==> FirstRow(bs, b.parentBranchId.value) < |bs|
    ensures WellFormed(bs + [b])
  {
    var bs' := bs + [b];
    forall k | 0 <= k < |bs'|
      ensures ParentAbove(bs', k)
    {
      if bs'[k].parentBranchId.Some? {
        FirstRowOfAppended(bs, b, bs'[k].parentBranchId.value);
        if k < |bs| {
          assert ParentAbove(bs, k) && bs'[k] == bs[k];
        }
      }
    }
  }

  /** A branch created under a never-used id extends its parent's chain by itself, exactly when the guard
      leaves room for one more row and the parent's first row is not archived. */
  lemma ChainOfNewBranch(bs: seq<Branch>, b: Branch)
    requires WellFormed(bs)
    requires FirstRow(bs, b.branchId) == |bs| && !b.archived
    requires b.parentBranchId.Some?
    requires FirstRow(bs, b.parentBranchId.value) < |bs|
    ensures Ancestors(bs + [b], b.branchId) == [b.branchId] + Ancestors(bs, b.parentBranchId.value)
            <==> !bs[FirstRow(bs, b.parentBranchId.value)].archived
                 && |Lineage(bs, b.parentBranchId.value)| < CHAIN_LIMIT
  {
    var p := b.parentBranchId.value;
    NewBranchWalk(bs, b, CHAIN_LIMIT);
    ChainIsCutLineage(bs, p);
    LineageIsEmpty(bs, p);
    hide Walk, Lineage, FirstRow, WellFormed;
  }

  /** The walk from a new branch is one step to its parent. */
  lemma NewBranchWalk(bs: seq<Branch>, b: Branch, fuel: nat)
    requires WellFormed(bs) && fuel > 0
    requires FirstRow(bs, b.branchId) == |bs| && !b.archived
    requires b.parentBranchId.Some?
    requires FirstRow(bs, b.parentBranchId.value) < |bs|
    ensures Walk(bs + [b], b.branchId, fuel) == [b.branchId] + Cut(Lineage(bs, b.parentBranchId.value), fuel - 1)
  {
    hide Lineage, FirstRow, WellFormed, Walk;
    var bs' := bs + [b];
    assert bs'[|bs|] == b;
    FirstRowOfAppended(bs, b, b.branchId);
    WalkStep(bs', b.branchId, fuel);
    WalkOfAppended(bs, b, b.parentBranchId.value, fuel - 1);
    WalkTruncatesLineage(bs, b.parentBranchId.value, fuel - 1);
  }

  lemma LineageIsEmpty(bs: seq<Branch>, id: string)
    requires WellFormed(bs) && FirstRow(bs, id) < |bs|
    ensures Lineage(bs, id) == [] <==> bs[FirstRow(bs, id)].archived
  {
    hide FirstRow, WellFormed;
  }

  /** The table after `archive_branch` marked row `k`. */
  function Archive(bs: seq<Branch>, k: nat): seq<Branch>
    requires k < |bs|
  {
    bs[k := bs[k].(archived := true)]
  }

  lemma {:induction false} FirstRowOfArchived(bs: seq<Branch>, k: nat, id: string)
    requires k < |bs|
    ensures FirstRow(Archive(bs, k), id) == FirstRow(bs, id)
  {
    var bs' := Archive(bs, k);
    var i, j := FirstRow(bs, id), FirstRow(bs', id);
    assert |bs'| == |bs| && forall n :: 0 <= n < |bs| ==> bs'[n].branchId == bs[n].branchId;
    assert i < |bs| ==> bs'[i].branchId == id;
    assert j < |bs| ==> bs[j].branchId == id;
  }

  lemma ArchiveKeepsWellFormed(bs: seq<Branch>, k: nat)
    requires WellFormed(bs)
    requires k < |bs| && bs[k].branchId != MAIN_BRANCH
    ensures WellFormed(Archive(bs, k))
  {
    var bs' := Archive(bs, k);
    forall i | 0 <= i < |bs'|
      ensures ParentAbove(bs', i)
    {
      assert ParentAbove(bs, i);
      if bs'[i].parentBranchId.Some? {
        FirstRowOfArchived(bs, k, bs'[i].parentBranchId.value);
      }
    }
  }
}
