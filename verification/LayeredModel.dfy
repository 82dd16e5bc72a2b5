/** The branches as layers: each branch holds a local map from fact id to a live row or a deletion mark, and
    the nearest layer on the way to the root decides. The fact store refines this map. */
module LayeredModel {
  import opened Wrappers
  import opened BrainTypes
  import opened BranchChain
  import opened RowSelection
  import opened BrainReads
  import opened BrainWrites
  import opened BrainInvariant
  import opened FactHeads
  import opened BrainSteps
  import opened ChainEffects

  datatype Cell = Dead | Live(row: Fact)

  /** `path` lists the layers of a branch, nearest first. */
  datatype Layered = Layered(path: map<string, seq<string>>, cells: map<(string, string), Cell>)

  const EMPTY := Layered(map[MAIN_BRANCH := [MAIN_BRANCH]], map[])

  function See(cells: map<(string, string), Cell>, path: seq<string>, id: string): Option<Fact> {
    if path == [] then None
    else if (path[0], id) in cells then
      match cells[(path[0], id)]
      case Dead => None
      case Live(row) => Some(row)
    else See(cells, path[1..], id)
  }

  function View(l: Layered, branch: string, id: string): Option<Fact> {
    if branch in l.path then See(l.cells, l.path[branch], id) else None
  }

  /** The effect of a call that committed as transaction `tx` at time `txTime`. */
  function LayeredStep(l: Layered, op: Op, tx: TxId, txTime: Time): Layered {
    match op
    case Assert(b, claim) =>
      var validFrom := match claim.validFrom case Some(from) => from case None => txTime;
      var row := Fact(claim.factId, claim.pred, claim.value, txTime, tx, None, None, claim.provenance, validFrom,
                      claim.validTo);
      l.(cells := l.cells[(b, claim.factId) := Live(row)])
    case Retract(b, id) => l.(cells := l.cells[(b, id) := Dead])
    case RetractExact(b, id, _, _) => l.(cells := l.cells[(b, id) := Dead])
    case Create(parent, id, _) => if parent in l.path then l.(path := l.path[id := [id] + l.path[parent]]) else l
    case _ => l
  }

  /** The layered map after a run, in step with the store: refused calls do nothing. */
  function LayeredRun(s: Store, l: Layered, ops: seq<Op>, clock: Clock): Layered
    decreases |ops|
  {
    if ops == [] then l
    else
      var (s', out) := Step(s, ops[0], clock);
      LayeredRun(s', if out.Ok? then LayeredStep(l, ops[0], out.value, clock(out.value)) else l, ops[1..], clock)
  }

  /** Every branch the run creates lies within the depth the ancestor walk covers. */
  predicate DepthsAllowed(s: Store, l: Layered, ops: seq<Op>, clock: Clock)
    decreases |ops|
  {
    ops != [] ==>
      var (s', out) := Step(s, ops[0], clock);
      && (ops[0].Create? && ops[0].branch in l.path ==> |l.path[ops[0].branch]| < CHAIN_LIMIT)
      && DepthsAllowed(s', if out.Ok? then LayeredStep(l, ops[0], out.value, clock(out.value)) else l, ops[1..], clock)
  }

  // ----- The refinement relation -----

  ghost predicate CellMatches(s: Store, l: Layered, branch: string, id: string) {
    match Local(s, branch, id)
    case None => (branch, id) !in l.cells
    case Some(i) =>
      && (branch, id) in l.cells
      && l.cells[(branch, id)] == if s.facts[i].revokedByTx.Some? then Dead else Live(s.facts[i])
  }

  ghost predicate PathsMatch(bs: seq<Branch>, path: map<string, seq<string>>) {
    && (forall k :: 0 <= k < |bs| ==> !bs[k].archived)
    && (forall b :: b in path <==> KnownBranch(bs, b))
    && (forall b :: b in path ==> PathMatches(bs, path[b], b))
  }

  ghost predicate PathMatches(bs: seq<Branch>, path: seq<string>, b: string) {
    path == Ancestors(bs, b) && (WellFormed(bs) ==> |Lineage(bs, b)| == |path| <= CHAIN_LIMIT)
  }

  ghost predicate Refines(s: Store, l: Layered) {
    && Inv(s)
    && PathsMatch(s.branches, l.path)
    && forall b, id :: CellMatches(s, l, b, id)
  }

  lemma NewStoreRefines()
    ensures Refines(NewStore(), EMPTY)
  {
    var bs := NewStore().branches;
    assert Lineage(bs, MAIN_BRANCH) == [MAIN_BRANCH];
    WalkTruncatesLineage(bs, MAIN_BRANCH, CHAIN_LIMIT);
    forall b
      ensures b in EMPTY.path <==> KnownBranch(bs, b)
    {
      assert bs[0].branchId == MAIN_BRANCH;
    }
  }

  // ----- Each call refines its layered step -----

  /** Cells of untouched chains keep matching. */
  lemma CellKept(s: Store, s': Store, l: Layered, l': Layered, branch: string, id: string)
    requires CellMatches(s, l, branch, id) && LocalSame(s, s', branch, id)
    requires (branch, id) in l.cells <==> (branch, id) in l'.cells
    requires (branch, id) in l.cells ==> l.cells[(branch, id)] == l'.cells[(branch, id)]
    ensures CellMatches(s', l', branch, id)
  {
  }

  /** A step that touches one chain refines the update of that one cell. */
  lemma CellUpdated(s: Store, s': Store, l: Layered, branch: string, id: string, cell: Cell)
    requires Refines(s, l) && Inv(s') && OnlyTouches(s, s', branch, id)
    requires var h := Local(s', branch, id);
             h.Some? && cell == if s'.facts[h.value].revokedByTx.Some? then Dead else Live(s'.facts[h.value])
    ensures Refines(s', l.(cells := l.cells[(branch, id) := cell]))
  {
    hide Inv, PathsMatch, Local, Extends;
    var l' := l.(cells := l.cells[(branch, id) := cell]);
    forall b, x
      ensures CellMatches(s', l', b, x)
    {
      assert CellMatches(s, l, b, x);
      if b != branch || x != id {
        assert LocalSame(s, s', b, x);
        CellKept(s, s', l, l', b, x);
      }
    }
  }

  lemma AssertRefines(s: Store, l: Layered, branch: string, claim: Claim, clock: Clock)
    requires Refines(s, l)
    requires AssertFact(s, branch, claim, clock).1.Ok?
    ensures Refines(AssertFact(s, branch, claim, clock).0,
                    LayeredStep(l, Assert(branch, claim), s.nextTx, clock(s.nextTx)))
  {
    AssertStep(s, branch, claim, clock);
    AssertTouches(s, branch, claim, clock);
    CellUpdated(s, AssertFact(s, branch, claim, clock).0, l, branch, claim.factId,
                Live(FactOf(claim, s.nextTx, clock(s.nextTx))));
  }

  lemma RetractionRefines(s: Store, l: Layered, op: Op, clock: Clock)
    requires Refines(s, l) && (op.Retract? || op.RetractExact?)
    requires Step(s, op, clock).1.Ok?
    ensures Refines(Step(s, op, clock).0, LayeredStep(l, op, s.nextTx, clock(s.nextTx)))
  {
    StepEffect(s, op, clock);
    if op.Retract? {
      RetractTouches(s, op.branch, op.id, clock);
    } else {
      RetractExactTouches(s, op.branch, op.id, op.pred, op.value, clock);
    }
    CellUpdated(s, Step(s, op, clock).0, l, op.branch, op.id, Dead);
  }

  lemma SameFactsKeepCells(s: Store, s': Store, l: Layered, writer: string)
    requires Inv(s) && Extends(s, s', writer) && s'.facts == s.facts
    requires forall b, id :: CellMatches(s, l, b, id)
    ensures forall b, id :: CellMatches(s', l, b, id)
  {
    forall b, id
      ensures CellMatches(s', l, b, id)
    {
      assert CellMatches(s, l, b, id);
      LocalKept(s, s', writer, b, id);
      CellKept(s, s', l, l, b, id);
    }
  }

  lemma CreateRefines(s: Store, l: Layered, parent: string, id: string, name: string, clock: Clock)
    requires Refines(s, l)
    requires CreateBranch(s, parent, id, name, clock).1.Ok?
    requires parent in l.path ==> |l.path[parent]| < CHAIN_LIMIT
    ensures Refines(CreateBranch(s, parent, id, name, clock).0,
                    LayeredStep(l, Create(parent, id, name), s.nextTx, clock(s.nextTx)))
  {
    hide CreateBranch, Extends, CellMatches, PathsMatch;
    CreateStep(s, parent, id, name, clock);
    CreateShape(s, parent, id, name, clock);
    assert WellFormed(s.branches);
    hide Inv;
    BranchAdded(s, CreateBranch(s, parent, id, name, clock).0, l, Branch(id, name, Some(parent), s.nextTx, false));
  }

  /** A store with one more branch, and nothing else changed that matters, refines the map with an empty layer
      for it. */
  lemma BranchAdded(s: Store, s': Store, l: Layered, row: Branch)
    requires Refines(s, l) && Inv(s') && row.parentBranchId.Some? && Extends(s, s', row.parentBranchId.value)
    requires s'.facts == s.facts && s'.branches == s.branches + [row]
    requires !row.archived && LiveBranch(s.branches, row.parentBranchId.value) && !LiveBranch(s.branches, row.branchId)
    requires row.parentBranchId.value in l.path ==> |l.path[row.parentBranchId.value]| < CHAIN_LIMIT
    ensures var p := row.parentBranchId.value;
            p in l.path && Refines(s', l.(path := l.path[row.branchId := [row.branchId] + l.path[p]]))
  {
    var p := row.parentBranchId.value;
    assert KnownBranch(s.branches, p) && p in l.path;
    PathsAfterCreate(s.branches, l.path, row);
    hide Inv, Extends, CellMatches, PathsMatch;
    SameFactsKeepCells(s, s', l, p);
    CellsOnly(s', l, l.(path := l.path[row.branchId := [row.branchId] + l.path[p]]));
  }

  lemma CreateShape(s: Store, parent: string, id: string, name: string, clock: Clock)
    requires CreateBranch(s, parent, id, name, clock).1.Ok?
    ensures var s' := CreateBranch(s, parent, id, name, clock).0;
            && s'.facts == s.facts
            && s'.branches == s.branches + [Branch(id, name, Some(parent), s.nextTx, false)]
            && LiveBranch(s.branches, parent) && !LiveBranch(s.branches, id)
  {
  }

  /** Only the cells decide whether they match. */
  lemma CellsOnly(s: Store, l: Layered, l': Layered)
    requires l'.cells == l.cells && forall b, id :: CellMatches(s, l, b, id)
    ensures forall b, id :: CellMatches(s, l', b, id)
  {
    forall b, id
      ensures CellMatches(s, l', b, id)
    {
      assert CellMatches(s, l, b, id);
    }
  }

  lemma PathsAfterCreate(bs: seq<Branch>, path: map<string, seq<string>>, row: Branch)
    requires WellFormed(bs) && PathsMatch(bs, path)
    requires !row.archived && row.parentBranchId.Some? && KnownBranch(bs, row.parentBranchId.value)
    requires !LiveBranch(bs, row.branchId)
    requires |path[row.parentBranchId.value]| < CHAIN_LIMIT
    ensures var p := row.parentBranchId.value;
            p in path && PathsMatch(bs + [row], path[row.branchId := [row.branchId] + path[p]])
  {
    var p, id := row.parentBranchId.value, row.branchId;
    var bs' := bs + [row];
    var path' := path[id := [id] + path[p]];
    LiveOnly(bs, path, id);
    LiveOnly(bs, path, p);
    AppendKeepsWellFormed(bs, row);
    assert PathMatches(bs, path[p], p);
    NewPathMatches(bs, path[p], row);
    hide PathMatches, WellFormed, FirstRow, LiveBranch, Ancestors;
    forall b
      ensures b in path' <==> KnownBranch(bs', b)
      ensures b in path' ==> PathMatches(bs', path'[b], b)
    {
      PathAfterCreate(bs, path, row, b);
    }
  }

  lemma PathAfterCreate(bs: seq<Branch>, path: map<string, seq<string>>, row: Branch, b: string)
    requires WellFormed(bs) && WellFormed(bs + [row]) && PathsMatch(bs, path)
    ensures KnownBranch(bs + [row], b) <==> b in path || b == row.branchId
    ensures b in path ==> PathMatches(bs + [row], path[b], b)
  {
    hide PathMatches, WellFormed, FirstRow;
    FirstRowOfAppended(bs, row, b);
    if KnownBranch(bs, b) {
      PathKept(bs, row, path[b], b);
    }
  }

  /** Without archived rows, known branches are the live ones. */
  lemma LiveOnly(bs: seq<Branch>, path: map<string, seq<string>>, id: string)
    requires PathsMatch(bs, path)
    ensures KnownBranch(bs, id) <==> LiveBranch(bs, id)
    ensures KnownBranch(bs, id) ==> !bs[FirstRow(bs, id)].archived
  {
    hide PathMatches;
  }

  lemma NewPathMatches(bs: seq<Branch>, path: seq<string>, row: Branch)
    requires WellFormed(bs) && WellFormed(bs + [row]) && !KnownBranch(bs, row.branchId) && !row.archived
    requires row.parentBranchId.Some? && KnownBranch(bs, row.parentBranchId.value)
    requires !bs[FirstRow(bs, row.parentBranchId.value)].archived
    requires PathMatches(bs, path, row.parentBranchId.value) && |path| < CHAIN_LIMIT
    ensures PathMatches(bs + [row], [row.branchId] + path, row.branchId)
  {
    var p, id, bs' := row.parentBranchId.value, row.branchId, bs + [row];
    ChainOfNewBranch(bs, row);
    FirstRowOfAppended(bs, row, id);
    LineageOfAppended(bs, row, p);
    hide WellFormed, Ancestors;
    assert bs'[|bs|] == row;
    assert Lineage(bs', id) == [id] + Lineage(bs', p);
  }

  lemma PathKept(bs: seq<Branch>, row: Branch, path: seq<string>, b: string)
    requires WellFormed(bs) && WellFormed(bs + [row]) && KnownBranch(bs, b) && PathMatches(bs, path, b)
    ensures PathMatches(bs + [row], path, b)
  {
    WalkOfAppended(bs, row, b, CHAIN_LIMIT);
    LineageOfAppended(bs, row, b);
  }

  lemma {:induction false} LineageOfAppended(bs: seq<Branch>, row: Branch, id: string)
    requires WellFormed(bs) && WellFormed(bs + [row]) && KnownBranch(bs, id)
    ensures Lineage(bs + [row], id) == Lineage(bs, id)
    decreases FirstRow(bs, id)
  {
    FirstRowOfAppended(bs, row, id);
    var k := FirstRow(bs, id);
    assert (bs + [row])[k] == bs[k];
    if !bs[k].archived && bs[k].parentBranchId.Some? {
      assert ParentAbove(bs, k);
      LineageOfAppended(bs, row, bs[k].parentBranchId.value);
    }
  }

  lemma QuietRefines(s: Store, l: Layered, op: Op, clock: Clock)
    requires Refines(s, l) && (op.Revise? || op.Revoke? || op.Log?)
    requires Step(s, op, clock).1.Ok?
    ensures Refines(Step(s, op, clock).0, l)
  {
    var s' := Step(s, op, clock).0;
    StepEffect(s, op, clock);
    OtherStepsKeepBranches(s, op, clock);
    OtherStepsKeepFacts(s, op, clock);
    SameFactsKeepCells(s, s', l, op.branch);
  }

  lemma StepRefines(s: Store, l: Layered, op: Op, clock: Clock)
    requires Refines(s, l) && !op.ArchiveOp?
    requires op.Create? && op.branch in l.path ==> |l.path[op.branch]| < CHAIN_LIMIT
    ensures var (s', out) := Step(s, op, clock);
            Refines(s', if out.Ok? then LayeredStep(l, op, out.value, clock(out.value)) else l)
  {
    var (s', out) := Step(s, op, clock);
    StepEffect(s, op, clock);
    if out.Ok? {
      match op
      case Assert(b, claim) => AssertRefines(s, l, b, claim, clock);
      case Retract(_, _) => RetractionRefines(s, l, op, clock);
      case RetractExact(_, _, _, _) => RetractionRefines(s, l, op, clock);
      case Create(parent, id, name) => CreateRefines(s, l, parent, id, name, clock);
      case _ => QuietRefines(s, l, op, clock);
    }
  }

  lemma {:induction false} RunRefines(s: Store, l: Layered, ops: seq<Op>, clock: Clock)
    requires Refines(s, l)
    requires forall op :: op in ops ==> !op.ArchiveOp?
    requires DepthsAllowed(s, l, ops, clock)
    ensures Refines(Run(s, ops, clock), LayeredRun(s, l, ops, clock))
    decreases |ops|
  {
    if ops == [] {
    } else {
      var (s', out) := Step(s, ops[0], clock);
      var l' := if out.Ok? then LayeredStep(l, ops[0], out.value, clock(out.value)) else l;
      StepRefines(s, l, ops[0], clock);
      RunRefines(s', l', ops[1..], clock);
    }
  }

  // ----- What refinement means for the views -----

  lemma {:induction false} SeeIsNearest(s: Store, l: Layered, path: seq<string>, id: string)
    requires Refines(s, l)
    ensures var h := Nearest(s, path, id);
            See(l.cells, path, id)
            == (if h.None? || s.facts[h.value].revokedByTx.Some? then None else Some(s.facts[h.value]))
  {
    if path == [] {
    } else {
      assert CellMatches(s, l, path[0], id);
      SeeIsNearest(s, l, path[1..], id);
    }
  }

  /** `facts_on_branch` shows exactly the rows the layered map shows, each id once. */
  ghost predicate ShowsExactly(s: Store, l: Layered, branch: string) {
    var v := FactsOnBranch(s, branch);
    && (forall i, j :: 0 <= i < j < |v| ==> v[i].id != v[j].id)
    && (forall r :: r in v ==> View(l, branch, r.id) == Some(s.facts[r.row]) && s.facts[r.row].factId == r.id)
    && (forall id :: View(l, branch, id).Some? ==> exists r :: r in v && r.id == id)
  }

  function RowAt(s: Store, h: Option<nat>): Option<Fact>
    requires h.Some? ==> h.value < |s.facts|
  {
    if h.None? then None else Some(s.facts[h.value])
  }

  /** The layered map shows the content of the live row. */
  lemma ViewIsLive(s: Store, l: Layered, branch: string, id: string)
    requires Refines(s, l) && KnownBranch(s.branches, branch)
    ensures View(l, branch, id) == RowAt(s, LiveRow(s, branch, id))
  {
    assert PathMatches(s.branches, l.path[branch], branch);
    SeeIsNearest(s, l, l.path[branch], id);
  }

  lemma RefinedViews(s: Store, l: Layered, branch: string)
    requires Refines(s, l) && KnownBranch(s.branches, branch)
    ensures ShowsExactly(s, l, branch)
  {
    assert Inv(s);
    hide Refines, Inv, FactsOnBranch, LiveRow, View, Ancestors;
    ViewIsLiveRows(s, branch);
    forall r | r in FactsOnBranch(s, branch)
      ensures View(l, branch, r.id) == Some(s.facts[r.row]) && s.facts[r.row].factId == r.id
    {
      ViewIsLive(s, l, branch, r.id);
    }
    forall id | View(l, branch, id).Some?
      ensures exists r :: r in FactsOnBranch(s, branch) && r.id == id
    {
      ViewIsLive(s, l, branch, id);
      assert RefTo(s, Ancestors(s.branches, branch), LiveRow(s, branch, id).value).id == id;
    }
  }

  /** Refinement: after every run of calls from a new brain, every branch shows exactly what the layered map
      shows after the same run. */
  lemma BrainRefinesLayers(ops: seq<Op>, clock: Clock, branch: string)
    requires forall op :: op in ops ==> !op.ArchiveOp?
    requires DepthsAllowed(NewStore(), EMPTY, ops, clock)
    requires KnownBranch(Run(NewStore(), ops, clock).branches, branch)
    ensures ShowsExactly(Run(NewStore(), ops, clock), LayeredRun(NewStore(), EMPTY, ops, clock), branch)
  {
    NewStoreRefines();
    RunRefines(NewStore(), EMPTY, ops, clock);
    RefinedViews(Run(NewStore(), ops, clock), LayeredRun(NewStore(), EMPTY, ops, clock), branch);
  }

  // ----- What the layered map says of refusals -----

  lemma LiveIsPath(s: Store, l: Layered, branch: string)
    requires Refines(s, l)
    ensures branch in l.path <==> LiveBranch(s.branches, branch)
    ensures branch in l.path <==> KnownBranch(s.branches, branch)
  {
  }

  lemma FoundIffShown(s: Store, l: Layered, branch: string, id: string)
    requires Refines(s, l) && KnownBranch(s.branches, branch)
    ensures var found := FindFact(s, FactsOnBranch(s, branch), id);
            View(l, branch, id) == if found.None? then None else Some(s.facts[found.value.row])
  {
    ViewIsLive(s, l, branch, id);
    ViewIsLiveRows(s, branch);
    var found := FindFact(s, FactsOnBranch(s, branch), id);
    if found.Some? {
      FoundIsLive(s, branch, found.value, id);
    }
  }

  lemma TupleFoundIffShown(s: Store, l: Layered, branch: string, id: string, pred: string, value: FactValue)
    requires Refines(s, l) && KnownBranch(s.branches, branch)
    ensures var shown := View(l, branch, id);
            FindTuple(s, FactsOnBranch(s, branch), id, pred, value).Some?
            <==> shown.Some? && HoldsTuple(shown.value, id, pred, value)
  {
    assert Inv(s);
    hide Refines, Inv, LiveRow, View, FactsOnBranch;
    FoundIffShown(s, l, branch, id);
    ViewIsLiveRows(s, branch);
    var rs := FactsOnBranch(s, branch);
    var tuple, fact := FindTuple(s, rs, id, pred, value), FindFact(s, rs, id);
    if tuple.Some? {
      FoundIsLive(s, branch, tuple.value, id);
      FoundIsLive(s, branch, fact.value, id);
    }
  }

  /** `retract_fact` finds nothing to retract exactly when the layered map shows nothing. */
  lemma RetractRefusedIff(s: Store, l: Layered, branch: string, id: string, clock: Clock)
    requires Refines(s, l) && KnownBranch(s.branches, branch)
    ensures RetractFact(s, branch, id, clock).1 == Err(NoActiveFact) <==> View(l, branch, id).None?
  {
    hide Refines, View, FactsOnBranch;
    FoundIffShown(s, l, branch, id);
  }

  /** `retract_fact_exact` finds nothing to retract exactly when the layered map does not show that tuple. */
  lemma RetractExactRefusedIff(
    s: Store, l: Layered, branch: string, id: string, pred: string, value: FactValue, clock: Clock)
    requires Refines(s, l) && KnownBranch(s.branches, branch)
    ensures var shown := View(l, branch, id);
            RetractFactExact(s, branch, id, pred, value, clock).1 == Err(NoActiveFact)
            <==> !(shown.Some? && HoldsTuple(shown.value, id, pred, value))
  {
    hide Refines, View, FactsOnBranch;
    TupleFoundIffShown(s, l, branch, id, pred, value);
  }

  // ----- New branches in the store itself -----

  lemma {:induction false} SameNearest(s: Store, s': Store, writer: string, chain: seq<string>, id: string)
    requires Inv(s) && Extends(s, s', writer) && s'.facts == s.facts
    ensures Nearest(s', chain, id) == Nearest(s, chain, id)
  {
    if chain == [] {
    } else {
      LocalKept(s, s', writer, chain[0], id);
      SameNearest(s, s', writer, chain[1..], id);
    }
  }

  /** No row was written on a branch whose id was never used. */
  lemma UnusedHoldsNothing(s: Store, branch: string, id: string)
    requires Inv(s) && !KnownBranch(s.branches, branch)
    ensures Local(s, branch, id).None?
  {
    forall i | 0 <= i < |s.facts|
      ensures !IsVersion(s, branch, id, i)
    {
      assert RowOk(s, i);
    }
  }

  /** A branch created under a never-used id, below a parent that was never archived and within the depth the
      walk covers, shows exactly its parent's rows, and the parent still shows them. */
  lemma NewBranchShowsParent(s: Store, parent: string, id: string, name: string, clock: Clock, factId: string)
    requires Inv(s) && CreateBranch(s, parent, id, name, clock).1.Ok?
    requires !KnownBranch(s.branches, id) && KnownBranch(s.branches, parent)
    requires !s.branches[FirstRow(s.branches, parent)].archived && |Lineage(s.branches, parent)| < CHAIN_LIMIT
    ensures var s' := CreateBranch(s, parent, id, name, clock).0;
            && s'.facts == s.facts
            && LiveRow(s', id, factId) == LiveRow(s, parent, factId)
            && LiveRow(s', parent, factId) == LiveRow(s, parent, factId)
  {
    var s' := CreateBranch(s, parent, id, name, clock).0;
    var row := Branch(id, name, Some(parent), s.nextTx, false);
    CreateStep(s, parent, id, name, clock);
    CreateShape(s, parent, id, name, clock);
    ChainOfNewBranch(s.branches, row);
    WalkOfAppended(s.branches, row, parent, CHAIN_LIMIT);
    var chain := Ancestors(s.branches, parent);
    assert Ancestors(s'.branches, id) == [id] + chain && ([id] + chain)[1..] == chain;
    UnusedHoldsNothing(s, id, factId);
    hide Inv, CreateBranch, Ancestors;
    SameNearest(s, s', parent, [id] + chain, factId);
    SameNearest(s, s', parent, chain, factId);
  }
}
