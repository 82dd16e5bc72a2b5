/** The row that decides a fact on a branch, per id: the newest local version on the nearest branch of the
    chain that holds one. The sorted and deduplicated views of the read side select exactly these rows. */
module FactHeads {
  import opened Wrappers
  import opened BrainTypes
  import opened BranchChain
  import opened RowSelection
  import opened BrainReads
  import opened BrainWrites
  import opened BrainInvariant

  /** Row `i` is a version of `id` written on `branch`. */
  predicate IsVersion(s: Store, branch: string, id: string, i: nat)
    requires i < |s.facts|
  {
    s.facts[i].factId == id && WrittenOn(s, s.facts[i], branch)
  }

  /** The newest version of `id` among the first `n` rows written on `branch`. */
  function LocalHead(s: Store, branch: string, id: string, n: nat): (h: Option<nat>)
    requires n <= |s.facts|
    ensures h.Some? ==> h.value < n && IsVersion(s, branch, id, h.value)
                        && forall k :: h.value < k < n ==> !IsVersion(s, branch, id, k)
    ensures h.None? ==> forall k :: 0 <= k < n ==> !IsVersion(s, branch, id, k)
  {
    if n == 0 then None
    else if IsVersion(s, branch, id, n - 1) then Some(n - 1)
    else LocalHead(s, branch, id, n - 1)
  }

  function Local(s: Store, branch: string, id: string): (h: Option<nat>)
    ensures h.Some? ==> h.value < |s.facts| && IsVersion(s, branch, id, h.value)
    ensures h.None? ==> forall k :: 0 <= k < |s.facts| ==> !IsVersion(s, branch, id, k)
  {
    LocalHead(s, branch, id, |s.facts|)
  }

  /** The deciding row of `id` as seen along `chain`. */
  function Nearest(s: Store, chain: seq<string>, id: string): (h: Option<nat>)
    ensures h.Some? ==> h.value < |s.facts| && s.facts[h.value].factId == id
  {
    if chain == [] then None
    else if Local(s, chain[0], id).Some? then Local(s, chain[0], id)
    else Nearest(s, chain[1..], id)
  }

  /** The live row of `id` on `branch`: the deciding row, unless it is revoked. */
  function LiveRow(s: Store, branch: string, id: string): (h: Option<nat>)
    ensures h.Some? ==> h.value < |s.facts| && s.facts[h.value].factId == id
  {
    match Nearest(s, Ancestors(s.branches, branch), id)
    case None => None
    case Some(i) => if s.facts[i].revokedByTx.Some? then None else Some(i)
  }

  lemma {:induction false} NearestPosition(s: Store, chain: seq<string>, id: string) returns (p: nat)
    ensures Nearest(s, chain, id).Some? ==> p < |chain| && Local(s, chain[p], id) == Nearest(s, chain, id)
    ensures Nearest(s, chain, id).None? ==> p == |chain|
    ensures forall q :: 0 <= q < p ==> Local(s, chain[q], id).None?
  {
    if chain == [] || Local(s, chain[0], id).Some? {
      p := 0;
    } else {
      var q := NearestPosition(s, chain[1..], id);
      p := q + 1;
    }
  }

  lemma FactKeysDistinct(s: Store)
    requires Inv(s)
    ensures forall i, j :: 0 <= i < j < |s.facts| ==> FactKeys(s.facts)[i].tx != FactKeys(s.facts)[j].tx
  {
    assert Rising(s);
  }

  lemma RowsAreCommitted(s: Store, i: nat)
    requires Inv(s) && i < |s.facts|
    ensures s.facts[i].createdByTx < s.nextTx <= TX_MAX
  {
    assert RowOk(s, i);
  }

  /** The reference under which a chain selects row `i`. */
  function RefTo(s: Store, chain: seq<string>, i: nat): RowRef
    requires i < |s.facts|
  {
    var f := s.facts[i];
    var d := Depth(s.txBranch, f.createdByTx, chain);
    RowRef(i, f.factId, if d.Some? then d.value else 0, f.createdByTx)
  }

  /** A version of the deciding row's id is that row, or comes after it in sort order. */
  lemma NearestComesFirst(s: Store, chain: seq<string>, id: string, asOf: TxId, x: RowRef)
    requires Inv(s)
    requires Denotes(s.txBranch, FactKeys(s.facts), chain, asOf, x) && x.id == id
    ensures Nearest(s, chain, id).Some?
    ensures var i := Nearest(s, chain, id).value;
            && Depth(s.txBranch, s.facts[i].createdByTx, chain).Some?
            && (x.row == i || Precedes(RefTo(s, chain, i), x))
  {
    var p := NearestPosition(s, chain, id);
    assert chain[x.depth] == s.txBranch[x.tx];
    assert IsVersion(s, chain[x.depth], id, x.row);
    assert p <= x.depth;
    var i := Nearest(s, chain, id).value;
    var d := Position(chain, chain[p]).value;
    assert d == p;
    if p == x.depth && x.row < i {
      assert Rising(s);
    }
  }

  /** Once every row is old enough, the newest row per id is the deciding row. */
  lemma NewestIsNearest(s: Store, chain: seq<string>, asOf: TxId, r: RowRef)
    requires Inv(s)
    requires s.nextTx - 1 <= asOf
    ensures r in NewestRows(s.txBranch, FactKeys(s.facts), chain, asOf)
            <==> Nearest(s, chain, r.id) == Some(r.row) && r == RefTo(s, chain, r.row)
  {
    var keys := FactKeys(s.facts);
    FactKeysDistinct(s);
    NewestRowsSelects(s.txBranch, keys, chain, asOf);
    if IsHead(s.txBranch, keys, chain, asOf, r) {
      NearestComesFirst(s, chain, r.id, asOf, r);
      var i := Nearest(s, chain, r.id).value;
      RowsAreCommitted(s, i);
      assert Denotes(s.txBranch, keys, chain, asOf, RefTo(s, chain, i));
      assert r.row == i;
    }
    if Nearest(s, chain, r.id) == Some(r.row) && r == RefTo(s, chain, r.row) {
      var p := NearestPosition(s, chain, r.id);
      RowsAreCommitted(s, r.row);
      assert Denotes(s.txBranch, keys, chain, asOf, r);
      forall x | Denotes(s.txBranch, keys, chain, asOf, x) && x.id == r.id && x.row != r.row
        ensures Precedes(r, x)
      {
        NearestComesFirst(s, chain, r.id, asOf, x);
      }
    }
  }

  lemma DropRevokedStep(s: Store, rs: seq<RowRef>, asOf: TxId, chain: seq<string>)
    requires InFacts(s, rs) && rs != []
    ensures rs == [rs[0]] + rs[1..] && InFacts(s, rs[1..])
    ensures var tail := DropRevoked(s, rs[1..], asOf, chain);
            DropRevoked(s, rs, asOf, chain)
            == if RevokedInView(s, s.facts[rs[0].row], asOf, chain) then tail else [rs[0]] + tail
  {
    hide RevokedInView;
  }

  lemma {:induction false} DropRevokedIsExact(s: Store, rs: seq<RowRef>, asOf: TxId, chain: seq<string>)
    requires InFacts(s, rs)
    ensures forall r :: r in DropRevoked(s, rs, asOf, chain) <==>
                        r in rs && !RevokedInView(s, s.facts[r.row], asOf, chain)
  {
    hide RevokedInView;
    if rs == [] {
    } else {
      hide DropRevoked;
      DropRevokedStep(s, rs, asOf, chain);
      DropRevokedIsExact(s, rs[1..], asOf, chain);
    }
  }

  lemma {:induction false} DropRevokedDistinct(s: Store, rs: seq<RowRef>, asOf: TxId, chain: seq<string>)
    requires InFacts(s, rs) && forall i, j :: 0 <= i < j < |rs| ==> rs[i].id != rs[j].id
    ensures var out := DropRevoked(s, rs, asOf, chain);
            forall i, j :: 0 <= i < j < |out| ==> out[i].id != out[j].id
  {
    hide RevokedInView;
    if rs == [] {
    } else {
      hide DropRevoked;
      DropRevokedStep(s, rs, asOf, chain);
      DropRevokedDistinct(s, rs[1..], asOf, chain);
      DropRevokedIsExact(s, rs[1..], asOf, chain);
      var tail := DropRevoked(s, rs[1..], asOf, chain);
      forall k | 0 <= k < |tail|
        ensures tail[k].id != rs[0].id
      {
        assert tail[k] in tail && tail[k] in rs[1..];
      }
    }
  }

  lemma DropRevokedMembers(s: Store, rs: seq<RowRef>, asOf: TxId, chain: seq<string>)
    requires InFacts(s, rs)
    ensures var out := DropRevoked(s, rs, asOf, chain);
            && (forall r :: r in out <==> r in rs && !RevokedInView(s, s.facts[r.row], asOf, chain))
            && ((forall i, j :: 0 <= i < j < |rs| ==> rs[i].id != rs[j].id)
                ==> forall i, j :: 0 <= i < j < |out| ==> out[i].id != out[j].id)
  {
    hide RevokedInView, DropRevoked;
    DropRevokedIsExact(s, rs, asOf, chain);
    if forall i, j :: 0 <= i < j < |rs| ==> rs[i].id != rs[j].id {
      DropRevokedDistinct(s, rs, asOf, chain);
    }
  }

  /** On a chain, a selected row is revoked in view exactly when it carries a retraction stamp. */
  lemma RevokedOnChain(s: Store, chain: seq<string>, asOf: TxId, i: nat)
    requires Inv(s) && i < |s.facts|
    requires s.nextTx - 1 <= asOf
    requires Depth(s.txBranch, s.facts[i].createdByTx, chain).Some?
    ensures RevokedInView(s, s.facts[i], asOf, chain) <==> s.facts[i].revokedByTx.Some?
  {
    assert RowOk(s, i);
  }

  /** `facts_on_branch` is the map from ids to live rows: it lists, once each, exactly the live row of
      every id that has one. */
  lemma ViewIsLiveRows(s: Store, branch: string)
    requires Inv(s)
    ensures forall r :: r in FactsOnBranch(s, branch) ==> LiveRow(s, branch, r.id) == Some(r.row)
    ensures forall id :: LiveRow(s, branch, id).Some? ==>
              RefTo(s, Ancestors(s.branches, branch), LiveRow(s, branch, id).value) in FactsOnBranch(s, branch)
    ensures var v := FactsOnBranch(s, branch); forall i, j :: 0 <= i < j < |v| ==> v[i].id != v[j].id
  {
    var chain := Ancestors(s.branches, branch);
    var rs := NewestRows(s.txBranch, FactKeys(s.facts), chain, TX_MAX);
    FactKeysDistinct(s);
    NewestRowsSelects(s.txBranch, FactKeys(s.facts), chain, TX_MAX);
    DropRevokedMembers(s, rs, TX_MAX, chain);
    forall r | r in rs
      ensures Nearest(s, chain, r.id) == Some(r.row) && r == RefTo(s, chain, r.row)
      ensures RevokedInView(s, s.facts[r.row], TX_MAX, chain) <==> s.facts[r.row].revokedByTx.Some?
    {
      NewestIsNearest(s, chain, TX_MAX, r);
      assert Denotes(s.txBranch, FactKeys(s.facts), chain, TX_MAX, r);
      RevokedOnChain(s, chain, TX_MAX, r.row);
    }
    forall id | LiveRow(s, branch, id).Some?
      ensures RefTo(s, chain, LiveRow(s, branch, id).value) in FactsOnBranch(s, branch)
    {
      NewestIsNearest(s, chain, TX_MAX, RefTo(s, chain, LiveRow(s, branch, id).value));
    }
  }

  /** `fact_head` answers with the same deciding row, active exactly when `facts_on_branch` lists it. */
  lemma FactHeadAgrees(s: Store, branch: string, id: string)
    requires Inv(s)
    ensures FactHead(s, branch, id).None? <==> Nearest(s, Ancestors(s.branches, branch), id).None?
    ensures FactHead(s, branch, id).Some? ==>
              var chain, r := Ancestors(s.branches, branch), FactHead(s, branch, id).value.0;
              && Nearest(s, chain, id) == Some(r.row) && r == RefTo(s, chain, r.row)
              && (FactHead(s, branch, id).value.1 <==> r in FactsOnBranch(s, branch))
  {
    var chain := Ancestors(s.branches, branch);
    var keys, one := FactKeys(s.facts), FactKeysOf(s.facts, id);
    FactKeysDistinct(s);
    NewestRowsSelects(s.txBranch, one, chain, TX_MAX);
    NewestRowsSelects(s.txBranch, keys, chain, TX_MAX);
    forall x
      ensures Denotes(s.txBranch, one, chain, TX_MAX, x) <==> Denotes(s.txBranch, keys, chain, TX_MAX, x) && x.id == id
    {
    }
    forall r
      ensures r in NewestRows(s.txBranch, one, chain, TX_MAX)
              <==> r.id == id && r in NewestRows(s.txBranch, keys, chain, TX_MAX)
    {
      assert IsHead(s.txBranch, one, chain, TX_MAX, r) <==> r.id == id && IsHead(s.txBranch, keys, chain, TX_MAX, r);
    }
    DropRevokedMembers(s, NewestRows(s.txBranch, keys, chain, TX_MAX), TX_MAX, chain);
    match FactHead(s, branch, id) {
      case Some((r, active)) =>
        NewestIsNearest(s, chain, TX_MAX, r);
      case None =>
        if Nearest(s, chain, id).Some? {
          NewestIsNearest(s, chain, TX_MAX, RefTo(s, chain, Nearest(s, chain, id).value));
        }
    }
  }

  lemma OrderedTail(rs: seq<RowRef>)
    requires StrictlyOrdered(rs) && rs != []
    ensures StrictlyOrdered(rs[1..])
    ensures forall x :: x in rs[1..] ==> Precedes(rs[0], x)
  {
    hide Precedes;
    forall x | x in rs[1..]
      ensures Precedes(rs[0], x)
    {
      var k :| 0 <= k < |rs[1..]| && rs[1..][k] == x;
      assert rs[k + 1] == x;
    }
  }

  lemma OrderedCons(r: RowRef, tail: seq<RowRef>)
    requires StrictlyOrdered(tail) && forall x :: x in tail ==> Precedes(r, x)
    ensures StrictlyOrdered([r] + tail)
  {
    hide Precedes;
  }

  lemma {:induction false} DropRevokedOrdered(s: Store, rs: seq<RowRef>, asOf: TxId, chain: seq<string>)
    requires InFacts(s, rs) && StrictlyOrdered(rs)
    ensures StrictlyOrdered(DropRevoked(s, rs, asOf, chain))
  {
    if rs == [] {
    } else {
      hide StrictlyOrdered, Precedes, RevokedInView;
      OrderedTail(rs);
      DropRevokedOrdered(s, rs[1..], asOf, chain);
      DropRevokedMembers(s, rs[1..], asOf, chain);
      OrderedCons(rs[0], DropRevoked(s, rs[1..], asOf, chain));
    }
  }

  /** Views are listed nearest branch first, newest transaction first. */
  lemma ViewIsOrdered(s: Store, branch: string)
    requires Inv(s)
    ensures StrictlyOrdered(FactsOnBranch(s, branch))
  {
    var chain := Ancestors(s.branches, branch);
    FactKeysDistinct(s);
    NewestRowsSelects(s.txBranch, FactKeys(s.facts), chain, TX_MAX);
    DropRevokedOrdered(s, NewestRows(s.txBranch, FactKeys(s.facts), chain, TX_MAX), TX_MAX, chain);
  }

  /** The view as a set: a reference is listed exactly when it refers to the live row of its id. */
  lemma InView(s: Store, branch: string, r: RowRef)
    requires Inv(s)
    ensures r in FactsOnBranch(s, branch)
            <==> LiveRow(s, branch, r.id) == Some(r.row) && r == RefTo(s, Ancestors(s.branches, branch), r.row)
  {
    ViewIsLiveRows(s, branch);
    var chain := Ancestors(s.branches, branch);
    if r in FactsOnBranch(s, branch) {
      DropRevokedMembers(s, NewestRows(s.txBranch, FactKeys(s.facts), chain, TX_MAX), TX_MAX, chain);
      NewestIsNearest(s, chain, TX_MAX, r);
    }
  }
}
