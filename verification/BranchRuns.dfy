/** A short run after which a new branch does not show its parent. */
module BranchRuns {
  import opened Wrappers
  import opened BrainTypes
  import opened BranchChain
  import opened BrainReads
  import opened BrainWrites

  function Row(id: string, parent: string, tx: TxId, archived: bool): Branch {
    Branch(id, id, Some(parent), tx, archived)
  }

  const CREATE_B := Create(MAIN_BRANCH, "b", "b")
  const ARCHIVE_B := ArchiveOp("b")
  const CREATE_C := Create("b", "c", "c")

  /** The table with `b` created, archived, created again, and `c` created under it. */
  const REUSED := [MAIN_ROW, Row("b", MAIN_BRANCH, 1, true), Row("b", MAIN_BRANCH, 2, false), Row("c", "b", 3, false)]

  /** A store without facts whose table is `bs`, about to commit transaction `tx`. */
  predicate At(s: Store, bs: seq<Branch>, tx: TxId) {
    s.branches == bs && s.facts == [] && s.nextTx == tx
  }

  lemma CreateAt(s: Store, bs: seq<Branch>, parent: string, id: string, tx: TxId, clock: Clock)
    requires At(s, bs, tx) && tx < 10 && LiveBranch(bs, parent) && !LiveBranch(bs, id)
    ensures At(Step(s, Create(parent, id, id), clock).0, bs + [Row(id, parent, tx, false)], tx + 1)
  {
    assert !IsSessionClosed(s.facts);
    hide LiveBranch, IsSessionClosed;
  }

  lemma ArchiveAt(s: Store, bs: seq<Branch>, id: string, k: nat, tx: TxId, clock: Clock)
    requires At(s, bs, tx) && id != MAIN_BRANCH && k < |bs| && FirstRow(bs, id) == k
    ensures At(Step(s, ArchiveOp(id), clock).0, bs[k := bs[k].(archived := true)], tx)
  {
  }

  lemma RunStarts(s: Store, op: Op, rest: seq<Op>, clock: Clock)
    ensures Run(s, [op] + rest, clock) == Run(Step(s, op, clock).0, rest, clock)
  {
    hide Step;
    assert ([op] + rest)[0] == op && ([op] + rest)[1..] == rest;
  }

  lemma RunEnds(s: Store, clock: Clock)
    ensures Run(s, [], clock) == s
  {
  }

  lemma RunFour(s: Store, a: Op, b: Op, c: Op, d: Op, clock: Clock)
    ensures var s1 := Step(s, a, clock).0;
            var s2 := Step(s1, b, clock).0;
            var s3 := Step(s2, c, clock).0;
            Run(s, [a, b, c, d], clock) == Step(s3, d, clock).0
  {
    var s1 := Step(s, a, clock).0;
    var s2 := Step(s1, b, clock).0;
    var s3 := Step(s2, c, clock).0;
    hide Step, Run;
    RunEnds(Step(s3, d, clock).0, clock);
    RunStarts(s, a, [b, c, d], clock);
    RunStarts(s1, b, [c, d], clock);
    RunStarts(s2, c, [d], clock);
    RunStarts(s3, d, [], clock);
    assert [a] + [b, c, d] == [a, b, c, d] && [b] + [c, d] == [b, c, d] && [c] + [d] == [c, d] && [d] + [] == [d];
  }

  lemma ReusedTable(clock: Clock)
    ensures Run(NewStore(), [CREATE_B, ARCHIVE_B, CREATE_B, CREATE_C], clock).branches == REUSED
  {
    var main := [MAIN_ROW];
    var first := main + [Row("b", MAIN_BRANCH, 1, false)];
    var archived := first[1 := Row("b", MAIN_BRANCH, 1, true)];
    var again := archived + [Row("b", MAIN_BRANCH, 2, false)];
    var s1 := Step(NewStore(), CREATE_B, clock).0;
    var s2 := Step(s1, ARCHIVE_B, clock).0;
    var s3 := Step(s2, CREATE_B, clock).0;
    assert LiveBranch(main, MAIN_BRANCH) by {
      assert main[0].branchId == MAIN_BRANCH;
    }
    assert LiveBranch(archived, MAIN_BRANCH) by {
      assert archived[0].branchId == MAIN_BRANCH;
    }
    assert LiveBranch(again, "b") by {
      assert again[2].branchId == "b";
    }
    assert FirstRow(first, "b") == 1;
    hide Step, LiveBranch, FirstRow, Run;
    assert !LiveBranch(main, "b") && !LiveBranch(archived, "b") && !LiveBranch(again, "c") by {
      NotLive(main, "b");
      NotLive(archived, "b");
      NotLive(again, "c");
    }
    CreateAt(NewStore(), main, MAIN_BRANCH, "b", 1, clock);
    ArchiveAt(s1, first, "b", 1, 2, clock);
    CreateAt(s2, archived, MAIN_BRANCH, "b", 2, clock);
    CreateAt(s3, again, "b", "c", 3, clock);
    RunFour(NewStore(), CREATE_B, ARCHIVE_B, CREATE_B, CREATE_C, clock);
  }

  lemma NotLive(bs: seq<Branch>, id: string)
    requires forall k :: 0 <= k < |bs| ==> bs[k].branchId != id || bs[k].archived
    ensures !LiveBranch(bs, id)
  {
  }

  /** Re-using the id of an archived branch as a parent: the parent's first row is the archived one, so the chain
      of the new branch stops before it. */
  lemma ReusedParentIsCutOff(clock: Clock)
    ensures var bs := Run(NewStore(), [CREATE_B, ARCHIVE_B, CREATE_B, CREATE_C], clock).branches;
            && LiveBranch(bs, "b") && LiveBranch(bs, "c")
            && Ancestors(bs, "c") == ["c"]
            && Ancestors(bs, "c") != ["c"] + Ancestors(bs, "b")
  {
    ReusedTable(clock);
    ReusedChains();
    hide Run;
    assert REUSED[2].branchId == "b" && REUSED[3].branchId == "c";
  }

  lemma ReusedChains()
    ensures Ancestors(REUSED, "b") == ["b"] && Ancestors(REUSED, "c") == ["c"]
  {
    assert REUSED[1].branchId == "b" && REUSED[3].branchId == "c";
    assert FirstRow(REUSED, "b") == 1 && FirstRow(REUSED, "c") == 3;
    hide FirstRow, Walk;
    WalkStep(REUSED, "b", CHAIN_LIMIT);
    WalkStep(REUSED, "b", CHAIN_LIMIT - 1);
    WalkStep(REUSED, "c", CHAIN_LIMIT);
  }
}
