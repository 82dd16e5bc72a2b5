/** `newest_rows`: filter the rows a branch chain can see, sort them by (depth, newest transaction),
    and keep the first row of each id. */
module RowSelection {
  import opened Wrappers
  import opened BrainTypes

  /** What selection looks at in one table row: its id, its creating transaction, and whether it passes
      the caller's `keep` test. */
  datatype Key = Key(id: string, tx: TxId, keep: bool)

  /** A reference to a table row together with the keys it is sorted by. */
  datatype RowRef = RowRef(row: nat, id: string, depth: nat, tx: TxId)

  function Position(chain: seq<string>, branch: string): (p: Option<nat>)
    ensures p.Some? ==> p.value < |chain| && chain[p.value] == branch
                        && forall i :: 0 <= i < p.value ==> chain[i] != branch
    ensures p.None? ==> branch !in chain
  {
    if chain == [] then None
    else if chain[0] == branch then Some(0)
    else match Position(chain[1..], branch)
      case None => None
      case Some(p) =>
        assert forall i :: 0 < i < 1 + p ==> chain[i] == chain[1..][i - 1];
        Some(1 + p)
  }

  /** `branch_depth_of_tx`, with `None` for `usize::MAX`. */
  function Depth(txBranch: map<TxId, string>, tx: TxId, chain: seq<string>): Option<nat> {
    if tx in txBranch then Position(chain, txBranch[tx]) else None
  }

  predicate IsEligible(txBranch: map<TxId, string>, k: Key, chain: seq<string>, asOf: TxId) {
    k.tx <= asOf && Depth(txBranch, k.tx, chain).Some? && k.keep
  }

  /** The rows written on `chain` at or before `asOf` that pass `keep`, in table order. */
  function Eligible(txBranch: map<TxId, string>, keys: seq<Key>, chain: seq<string>, asOf: TxId): seq<RowRef> {
    if keys == [] then []
    else
      var n := |keys| - 1;
      var init := Eligible(txBranch, keys[..n], chain, asOf);
      var k := keys[n];
      if IsEligible(txBranch, k, chain, asOf)
      then init + [RowRef(n, k.id, Depth(txBranch, k.tx, chain).value, k.tx)]
      else init
  }

  /** The sort order: closest branch first, then newest transaction. */
  predicate Precedes(a: RowRef, b: RowRef) {
    a.depth < b.depth || (a.depth == b.depth && a.tx > b.tx)
  }

  /** Insertion of a row that came before all of `sorted` in the table, as a stable sort places it. */
  function Insert(r: RowRef, sorted: seq<RowRef>): seq<RowRef> {
    if sorted == [] then [r]
    else if Precedes(sorted[0], r) then [sorted[0]] + Insert(r, sorted[1..])
    else [r] + sorted
  }

  /** Stable sort by (depth, reversed tx). */
  function Sort(rs: seq<RowRef>): seq<RowRef> {
    if rs == [] then [] else Insert(rs[0], Sort(rs[1..]))
  }

  /** `retain(|r| seen.insert(id))`: keep the first row of each id not already in `seen`. */
  function FirstPerId(rs: seq<RowRef>, seen: set<string>): seq<RowRef> {
    if rs == [] then []
    else if rs[0].id in seen then FirstPerId(rs[1..], seen)
    else [rs[0]] + FirstPerId(rs[1..], seen + {rs[0].id})
  }

  function NewestRows(txBranch: map<TxId, string>, keys: seq<Key>, chain: seq<string>, asOf: TxId): (rs: seq<RowRef>)
    ensures forall i :: 0 <= i < |rs| ==> rs[i].row < |keys|
  {
    NewestRowsInTable(txBranch, keys, chain, asOf);
    FirstPerId(Sort(Eligible(txBranch, keys, chain, asOf)), {})
  }

  lemma NewestRowsInTable(txBranch: map<TxId, string>, keys: seq<Key>, chain: seq<string>, asOf: TxId)
    ensures forall r :: r in FirstPerId(Sort(Eligible(txBranch, keys, chain, asOf)), {}) ==> r.row < |keys|
  {
    var el := Eligible(txBranch, keys, chain, asOf);
    var rs := FirstPerId(Sort(el), {});
    FirstPerIdMembers(Sort(el), {});
    forall r | r in rs
      ensures r.row < |keys|
    {
      SortMembers(el, r);
      EligibleIsExact(txBranch, keys, chain, asOf, r);
    }
  }

  // ----- What is selected -----

  /** The reference row `i` would have. */
  predicate Denotes(txBranch: map<TxId, string>, keys: seq<Key>, chain: seq<string>, asOf: TxId, r: RowRef) {
    && r.row < |keys|
    && IsEligible(txBranch, keys[r.row], chain, asOf)
    && r == RowRef(r.row, keys[r.row].id, Depth(txBranch, keys[r.row].tx, chain).value, keys[r.row].tx)
  }

  lemma {:induction false} EligibleIsExact(
    txBranch: map<TxId, string>, keys: seq<Key>, chain: seq<string>, asOf: TxId, r: RowRef)
    ensures r in Eligible(txBranch, keys, chain, asOf) <==> Denotes(txBranch, keys, chain, asOf, r)
  {
    if keys == [] {
    } else {
      var n := |keys| - 1;
      EligibleIsExact(txBranch, keys[..n], chain, asOf, r);
      if r.row < n {
        assert keys[..n][r.row] == keys[r.row];
      }
    }
  }

  lemma {:induction false} InsertMembers(r: RowRef, sorted: seq<RowRef>, x: RowRef)
    ensures x in Insert(r, sorted) <==> x == r || x in sorted
  {
    if sorted != [] && Precedes(sorted[0], r) {
      InsertMembers(r, sorted[1..], x);
      assert sorted == [sorted[0]] + sorted[1..];
    }
  }

  lemma {:induction false} SortMembers(rs: seq<RowRef>, x: RowRef)
    ensures x in Sort(rs) <==> x in rs
  {
    if rs == [] {
    } else {
      SortMembers(rs[1..], x);
      InsertMembers(rs[0], Sort(rs[1..]), x);
      assert rs == [rs[0]] + rs[1..];
    }
  }

  /** No later row strictly precedes an earlier one. */
  ghost predicate Ordered(rs: seq<RowRef>) {
    forall i, j :: 0 <= i < j < |rs| ==> !Precedes(rs[j], rs[i])
  }

  lemma {:induction false} InsertOrdered(r: RowRef, sorted: seq<RowRef>)
    requires Ordered(sorted)
    ensures Ordered(Insert(r, sorted))
  {
    if sorted != [] && Precedes(sorted[0], r) {
      InsertOrdered(r, sorted[1..]);
      var rest := Insert(r, sorted[1..]);
      forall j | 0 <= j < |rest|
        ensures !Precedes(rest[j], sorted[0])
      {
        InsertMembers(r, sorted[1..], rest[j]);
      }
    }
  }

  lemma {:induction false} SortOrdered(rs: seq<RowRef>)
    ensures Ordered(Sort(rs))
  {
    if rs == [] {
    } else {
      SortOrdered(rs[1..]);
      InsertOrdered(rs[0], Sort(rs[1..]));
    }
  }

  /** Membership after deduplication: unseen id, and no equal id earlier in the list. */
  lemma {:induction false} FirstPerIdMembers(rs: seq<RowRef>, seen: set<string>)
    ensures forall x :: x in FirstPerId(rs, seen) ==> x in rs && x.id !in seen
    ensures forall j :: 0 <= j < |rs| && rs[j].id !in seen && (forall i :: 0 <= i < j ==> rs[i].id != rs[j].id)
              ==> rs[j] in FirstPerId(rs, seen)
  {
    if rs == [] {
    } else {
      var seen' := if rs[0].id in seen then seen else seen + {rs[0].id};
      FirstPerIdMembers(rs[1..], seen');
      forall j | 0 < j < |rs| && rs[j].id !in seen && (forall i :: 0 <= i < j ==> rs[i].id != rs[j].id)
        ensures rs[j] in FirstPerId(rs, seen)
      {
        assert rs[0].id != rs[j].id && rs[1..][j - 1] == rs[j];
        assert forall i :: 0 <= i < j - 1 ==> rs[1..][i].id == rs[i + 1].id;
      }
    }
  }

  /** After deduplication every id occurs once, every kept row comes no later than any row of its id, and
      the rows keep their order. */
  lemma FirstPerIdOrder(rs: seq<RowRef>, seen: set<string>)
    requires Ordered(rs)
    ensures var out := FirstPerId(rs, seen);
            && Ordered(out)
            && (forall i, j :: 0 <= i < j < |out| ==> out[i].id != out[j].id)
            && (forall x, y :: x in out && y in rs && y.id == x.id ==> !Precedes(y, x))
  {
    hide Precedes, FirstPerId;
    FirstPerIdOrdered(rs, seen);
    FirstPerIdLeast(rs, seen);
  }

  /** No id occurs twice. */
  ghost predicate OnePerId(rs: seq<RowRef>) {
    forall i, j :: 0 <= i < j < |rs| ==> rs[i].id != rs[j].id
  }

  lemma OrderedCons(first: RowRef, tail: seq<RowRef>)
    requires Ordered(tail) && OnePerId(tail)
    requires forall y :: y in tail ==> !Precedes(y, first) && y.id != first.id
    ensures Ordered([first] + tail) && OnePerId([first] + tail)
  {
    hide Precedes;
    var rs := [first] + tail;
    assert forall j :: 0 < j < |rs| ==> rs[j] == tail[j - 1] && rs[j] in tail;
  }

  lemma OrderedTail(rs: seq<RowRef>)
    requires rs != [] && Ordered(rs)
    ensures Ordered(rs[1..]) && forall y :: y in rs[1..] ==> !Precedes(y, rs[0])
  {
    hide Precedes;
  }

  lemma {:induction false} FirstPerIdOrdered(rs: seq<RowRef>, seen: set<string>)
    requires Ordered(rs)
    ensures Ordered(FirstPerId(rs, seen)) && OnePerId(FirstPerId(rs, seen))
  {
    if rs == [] {
    } else {
      var tail := rs[1..];
      assert FirstPerId(rs, seen) == if rs[0].id in seen then FirstPerId(tail, seen)
                                     else [rs[0]] + FirstPerId(tail, seen + {rs[0].id});
      hide Precedes, FirstPerId, Ordered, OnePerId;
      OrderedTail(rs);
      if rs[0].id in seen {
        FirstPerIdOrdered(tail, seen);
      } else {
        FirstPerIdOrdered(tail, seen + {rs[0].id});
        FirstPerIdMembers(tail, seen + {rs[0].id});
        OrderedCons(rs[0], FirstPerId(tail, seen + {rs[0].id}));
      }
    }
  }

  lemma {:induction false} FirstPerIdLeast(rs: seq<RowRef>, seen: set<string>)
    requires Ordered(rs)
    ensures forall x, y :: x in FirstPerId(rs, seen) && y in rs && y.id == x.id ==> !Precedes(y, x)
  {
    if rs == [] {
    } else {
      var tail := rs[1..];
      assert Ordered(tail) && forall y :: y in tail ==> !Precedes(y, rs[0]);
      assert rs == [rs[0]] + tail;
      assert FirstPerId(rs, seen) == if rs[0].id in seen then FirstPerId(tail, seen)
                                     else [rs[0]] + FirstPerId(tail, seen + {rs[0].id});
      hide Precedes, FirstPerId;
      if rs[0].id in seen {
        FirstPerIdLeast(tail, seen);
        FirstPerIdMembers(tail, seen);
      } else {
        FirstPerIdLeast(tail, seen + {rs[0].id});
        FirstPerIdMembers(tail, seen + {rs[0].id});
      }
    }
  }

  /** Sorting and deduplicating refines per-id selection: when every transaction creates at most one row,
      a row is selected exactly when it is eligible and every other eligible row of its id is deeper, or
      equally deep and older. The selection holds one row per id and is in sort order. */
  lemma {:induction false} NewestRowsSelects(
    txBranch: map<TxId, string>, keys: seq<Key>, chain: seq<string>, asOf: TxId)
    requires forall i, j :: 0 <= i < j < |keys| ==> keys[i].tx != keys[j].tx
    ensures var out := NewestRows(txBranch, keys, chain, asOf);
            && (forall r :: r in out <==> IsHead(txBranch, keys, chain, asOf, r))
            && (forall i, j :: 0 <= i < j < |out| ==> out[i].id != out[j].id)
            && (forall i, j :: 0 <= i < j < |out| ==> Precedes(out[i], out[j]))
  {
    var el := Eligible(txBranch, keys, chain, asOf);
    var sorted := Sort(el);
    var out := NewestRows(txBranch, keys, chain, asOf);
    SortOrdered(el);
    FirstPerIdOrder(sorted, {});
    FirstPerIdMembers(sorted, {});
    forall r
      ensures r in sorted <==> Denotes(txBranch, keys, chain, asOf, r)
    {
      SortMembers(el, r);
      EligibleIsExact(txBranch, keys, chain, asOf, r);
    }
    forall i, j | 0 <= i < j < |out|
      ensures Precedes(out[i], out[j])
    {
      assert out[i] in sorted && out[j] in sorted;
      assert out[i].row != out[j].row;
    }
    forall r
      ensures r in out <==> IsHead(txBranch, keys, chain, asOf, r)
    {
      if r in out {
        assert r in sorted;
      } else if IsHead(txBranch, keys, chain, asOf, r) {
        assert r in sorted;
        HeadComesFirst(sorted, {}, r);
      }
    }
  }

  /** `r` is eligible, and every other eligible row of the same id comes strictly after it. */
  ghost predicate IsHead(txBranch: map<TxId, string>, keys: seq<Key>, chain: seq<string>, asOf: TxId, r: RowRef) {
    && Denotes(txBranch, keys, chain, asOf, r)
    && forall x :: Denotes(txBranch, keys, chain, asOf, x) && x.id == r.id && x.row != r.row ==> Precedes(r, x)
  }

  lemma {:induction false} HeadComesFirst(sorted: seq<RowRef>, seen: set<string>, r: RowRef)
    requires Ordered(sorted) && r in sorted && r.id !in seen
    requires forall x :: x in sorted && x.id == r.id && x != r ==> Precedes(r, x)
    ensures r in FirstPerId(sorted, seen)
  {
    if sorted[0] != r {
      var j :| 0 <= j < |sorted| && sorted[j] == r;
      assert !Precedes(sorted[j], sorted[0]);
      assert r == sorted[1..][j - 1];
      HeadComesFirst(sorted[1..], if sorted[0].id in seen then seen else seen + {sorted[0].id}, r);
    }
  }

  /** Selection as of `asOf` sees neither rows nor keep-tests of later transactions. */
  lemma {:induction false} EligibleIgnoresLaterRows(
    txBranch: map<TxId, string>, txBranch': map<TxId, string>, keys: seq<Key>, keys': seq<Key>,
    chain: seq<string>, asOf: TxId)
    requires |keys| <= |keys'|
    requires forall i :: 0 <= i < |keys| ==> keys[i].tx == keys'[i].tx
    requires forall i :: 0 <= i < |keys| && keys[i].tx <= asOf ==> keys[i] == keys'[i]
    requires forall i :: |keys| <= i < |keys'| ==> keys'[i].tx > asOf
    requires forall tx :: tx <= asOf ==> (tx in txBranch <==> tx in txBranch')
    requires forall tx :: tx <= asOf && tx in txBranch ==> txBranch[tx] == txBranch'[tx]
    ensures Eligible(txBranch', keys', chain, asOf) == Eligible(txBranch, keys, chain, asOf)
    decreases |keys'|
  {
    if keys' == [] {
    } else {
      var n := |keys'| - 1;
      var shorter := if |keys| == |keys'| then keys[..n] else keys;
      EligibleIgnoresLaterRows(txBranch, txBranch', shorter, keys'[..n], chain, asOf);
    }
  }

  /** Each row strictly precedes the next ones. */
  ghost predicate StrictlyOrdered(rs: seq<RowRef>) {
    forall i, j :: 0 <= i < j < |rs| ==> Precedes(rs[i], rs[j])
  }

  lemma FirstIsMember(rs: seq<RowRef>)
    requires rs != []
    ensures rs[0] in rs
  {
  }

  /** A strictly ordered list is determined by its members. */
  lemma {:induction false} OrderIsUnique(xs: seq<RowRef>, ys: seq<RowRef>)
    requires StrictlyOrdered(xs) && StrictlyOrdered(ys)
    requires forall r :: r in xs <==> r in ys
    ensures xs == ys
  {
    if ys != [] {
      FirstIsMember(ys);
    }
    if xs == [] {
    } else {
      FirstIsMember(xs);
      assert xs[0] == ys[0];
      forall r
        ensures r in xs[1..] <==> r in ys[1..]
      {
        assert r in xs[1..] <==> r in xs && r != xs[0];
        assert r in ys[1..] <==> r in ys && r != ys[0];
      }
      OrderIsUnique(xs[1..], ys[1..]);
    }
  }

  // ----- When relaxing the keep test changes the selection -----

  /** The reference of row `i` as sorted along `chain`. */
  function KeyRef(txBranch: map<TxId, string>, keys: seq<Key>, chain: seq<string>, i: nat): RowRef
    requires i < |keys|
  {
    var d := Depth(txBranch, keys[i].tx, chain);
    RowRef(i, keys[i].id, if d.Some? then d.value else 0, keys[i].tx)
  }

  /** `keys'` are the keys of the same rows under a weaker keep test, as far as `asOf` can see. */
  ghost predicate Relaxes(keys: seq<Key>, keys': seq<Key>, asOf: TxId) {
    && |keys| == |keys'|
    && (forall i, j :: 0 <= i < j < |keys| ==> keys[i].tx != keys[j].tx)
    && forall i :: 0 <= i < |keys| ==>
         && keys'[i].id == keys[i].id && keys'[i].tx == keys[i].tx
         && (keys[i].keep && keys[i].tx <= asOf ==> keys'[i].keep)
  }

  /** Row `i` is eligible only under `keys'`, and comes before every row of its id eligible under `keys`. */
  ghost predicate Newcomer(
    txBranch: map<TxId, string>, keys: seq<Key>, keys': seq<Key>, chain: seq<string>, asOf: TxId, i: nat)
    requires |keys| == |keys'|
  {
    && i < |keys| && IsEligible(txBranch, keys'[i], chain, asOf) && !keys[i].keep
    && forall j :: 0 <= j < |keys| && keys[j].id == keys[i].id && IsEligible(txBranch, keys[j], chain, asOf) ==>
         Precedes(KeyRef(txBranch, keys, chain, i), KeyRef(txBranch, keys, chain, j))
  }

  lemma {:induction false} FirstPerIdCovers(rs: seq<RowRef>, seen: set<string>, r: RowRef)
    requires r in rs && r.id !in seen
    ensures exists h :: h in FirstPerId(rs, seen) && h.id == r.id
  {
    if rs[0].id == r.id {
      assert rs[0] in FirstPerId(rs, seen);
    } else {
      var seen' := if rs[0].id in seen then seen else seen + {rs[0].id};
      assert rs == [rs[0]] + rs[1..];
      FirstPerIdCovers(rs[1..], seen', r);
    }
  }

  /** Every eligible row's id is selected. */
  lemma HeadExists(txBranch: map<TxId, string>, keys: seq<Key>, chain: seq<string>, asOf: TxId, r: RowRef)
    requires Denotes(txBranch, keys, chain, asOf, r)
    ensures exists h :: h in NewestRows(txBranch, keys, chain, asOf) && h.id == r.id
  {
    var el := Eligible(txBranch, keys, chain, asOf);
    EligibleIsExact(txBranch, keys, chain, asOf, r);
    SortMembers(el, r);
    FirstPerIdCovers(Sort(el), {}, r);
  }

  lemma DenotesRelaxed(
    txBranch: map<TxId, string>, keys: seq<Key>, keys': seq<Key>, chain: seq<string>, asOf: TxId, r: RowRef)
    requires Relaxes(keys, keys', asOf)
    ensures Denotes(txBranch, keys, chain, asOf, r)
            <==> Denotes(txBranch, keys', chain, asOf, r) && keys[r.row].keep
    ensures Denotes(txBranch, keys', chain, asOf, r) ==> r == KeyRef(txBranch, keys, chain, r.row)
  {
  }

  /** Two eligible rows are ordered one way or the other. */
  lemma OneComesFirst(
    txBranch: map<TxId, string>, keys: seq<Key>, chain: seq<string>, asOf: TxId, x: RowRef, y: RowRef)
    requires forall i, j :: 0 <= i < j < |keys| ==> keys[i].tx != keys[j].tx
    requires Denotes(txBranch, keys, chain, asOf, x) && Denotes(txBranch, keys, chain, asOf, y)
    ensures x == y || Precedes(x, y) || Precedes(y, x)
  {
  }

  /** A newcomer's id has another selected row afterwards. */
  lemma NewcomerShows(
    txBranch: map<TxId, string>, keys: seq<Key>, keys': seq<Key>, chain: seq<string>, asOf: TxId, i: nat)
    requires Relaxes(keys, keys', asOf) && Newcomer(txBranch, keys, keys', chain, asOf, i)
    ensures NewestRows(txBranch, keys', chain, asOf) != NewestRows(txBranch, keys, chain, asOf)
  {
    var r := KeyRef(txBranch, keys, chain, i);
    assert Denotes(txBranch, keys', chain, asOf, r);
    HeadExists(txBranch, keys', chain, asOf, r);
    var h :| h in NewestRows(txBranch, keys', chain, asOf) && h.id == r.id;
    hide NewestRows, Depth;
    NewestRowsSelects(txBranch, keys, chain, asOf);
    NewestRowsSelects(txBranch, keys', chain, asOf);
    DenotesRelaxed(txBranch, keys, keys', chain, asOf, h);
    if h in NewestRows(txBranch, keys, chain, asOf) {
      assert false;
    }
  }

  lemma OldHeadStays(
    txBranch: map<TxId, string>, keys: seq<Key>, keys': seq<Key>, chain: seq<string>, asOf: TxId, r: RowRef)
    requires Relaxes(keys, keys', asOf)
    requires forall i: nat :: !Newcomer(txBranch, keys, keys', chain, asOf, i)
    requires IsHead(txBranch, keys, chain, asOf, r)
    ensures IsHead(txBranch, keys', chain, asOf, r)
  {
    hide Depth;
    DenotesRelaxed(txBranch, keys, keys', chain, asOf, r);
    forall x | Denotes(txBranch, keys', chain, asOf, x) && x.id == r.id && x.row != r.row
      ensures Precedes(r, x)
    {
      DenotesRelaxed(txBranch, keys, keys', chain, asOf, x);
      OneComesFirst(txBranch, keys', chain, asOf, r, x);
      if !Precedes(r, x) {
        BeforeHeadIsNewcomer(txBranch, keys, keys', chain, asOf, r, x);
      }
    }
  }

  /** What comes before the old head comes before all that is eligible under `keys`. */
  lemma BeforeHeadIsNewcomer(
    txBranch: map<TxId, string>, keys: seq<Key>, keys': seq<Key>, chain: seq<string>, asOf: TxId, r: RowRef, x: RowRef)
    requires Relaxes(keys, keys', asOf)
    requires IsHead(txBranch, keys, chain, asOf, r)
    requires Denotes(txBranch, keys', chain, asOf, x) && x.id == r.id && x.row != r.row && Precedes(x, r)
    ensures Newcomer(txBranch, keys, keys', chain, asOf, x.row)
  {
    hide Depth;
    DenotesRelaxed(txBranch, keys, keys', chain, asOf, x);
    forall j | 0 <= j < |keys| && keys[j].id == x.id && IsEligible(txBranch, keys[j], chain, asOf)
      ensures Precedes(x, KeyRef(txBranch, keys, chain, j))
    {
      assert Denotes(txBranch, keys, chain, asOf, KeyRef(txBranch, keys, chain, j));
    }
  }

  lemma NewHeadWasThere(
    txBranch: map<TxId, string>, keys: seq<Key>, keys': seq<Key>, chain: seq<string>, asOf: TxId, r: RowRef)
    requires Relaxes(keys, keys', asOf)
    requires forall i: nat :: !Newcomer(txBranch, keys, keys', chain, asOf, i)
    requires IsHead(txBranch, keys', chain, asOf, r)
    ensures IsHead(txBranch, keys, chain, asOf, r)
  {
    hide Depth;
    forall x | Denotes(txBranch, keys, chain, asOf, x)
      ensures Denotes(txBranch, keys', chain, asOf, x)
    {
      DenotesRelaxed(txBranch, keys, keys', chain, asOf, x);
    }
    DenotesRelaxed(txBranch, keys, keys', chain, asOf, r);
    if !keys[r.row].keep {
      NewHeadIsNewcomer(txBranch, keys, keys', chain, asOf, r);
    }
  }

  /** A head that only the weaker test keeps is a newcomer. */
  lemma NewHeadIsNewcomer(
    txBranch: map<TxId, string>, keys: seq<Key>, keys': seq<Key>, chain: seq<string>, asOf: TxId, r: RowRef)
    requires Relaxes(keys, keys', asOf)
    requires IsHead(txBranch, keys', chain, asOf, r) && !keys[r.row].keep
    ensures Newcomer(txBranch, keys, keys', chain, asOf, r.row)
  {
    hide Depth;
    DenotesRelaxed(txBranch, keys, keys', chain, asOf, r);
    forall j | 0 <= j < |keys| && keys[j].id == r.id && IsEligible(txBranch, keys[j], chain, asOf)
      ensures Precedes(r, KeyRef(txBranch, keys, chain, j))
    {
      assert Denotes(txBranch, keys', chain, asOf, KeyRef(txBranch, keys, chain, j));
    }
  }

  /** Relaxing the keep test changes the selection if and only if there is a newcomer. */
  lemma SelectionKeptIff(
    txBranch: map<TxId, string>, keys: seq<Key>, keys': seq<Key>, chain: seq<string>, asOf: TxId)
    requires Relaxes(keys, keys', asOf)
    ensures NewestRows(txBranch, keys', chain, asOf) == NewestRows(txBranch, keys, chain, asOf)
            <==> forall i: nat :: !Newcomer(txBranch, keys, keys', chain, asOf, i)
  {
    hide NewestRows, IsHead, Newcomer;
    if i: nat :| Newcomer(txBranch, keys, keys', chain, asOf, i) {
      NewcomerShows(txBranch, keys, keys', chain, asOf, i);
    } else {
      NewestRowsSelects(txBranch, keys, chain, asOf);
      NewestRowsSelects(txBranch, keys', chain, asOf);
      var was, now := NewestRows(txBranch, keys, chain, asOf), NewestRows(txBranch, keys', chain, asOf);
      forall r
        ensures r in now <==> r in was
      {
        if r in was {
          OldHeadStays(txBranch, keys, keys', chain, asOf, r);
        } else if r in now {
          NewHeadWasThere(txBranch, keys, keys', chain, asOf, r);
        }
      }
      OrderIsUnique(now, was);
    }
  }
}
