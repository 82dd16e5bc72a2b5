/** Which query columns hold interned ids: the fixpoint over Datalog rules of `find_columns_are_ids`. */
module RuleColumns {
  import opened Wrappers
  import opened RayfallSyntax

  /** How text reads as a number (`parse::<f64>`) or as a column index (`parse::<usize>`). */
  datatype Lexicon = Lexicon(isNumber: string -> bool, columnOf: string -> Option<nat>)

  /** A rule `((name args...) body...)`. */
  datatype RuleClause = RuleClause(name: string, args: seq<Expr>, body: seq<Expr>)

  /** Per rule name, which head columns are known to hold ids. */
  type Columns = map<string, seq<bool>>

  /** Whether a column of a relation holds ids. */
  type ColumnTest = (string, nat) -> bool

  predicate IsVar(name: string) {
    name != "" && name[0] == '?'
  }

  /** The variable an expression is, if any. */
  function VarOf(e: Expr): set<string> {
    if e.Symbol? && IsVar(e.name) then {e.name} else {}
  }

  predicate IsCompareOp(name: string) {
    name == "<" || name == "<=" || name == ">" || name == ">=" || name == "=" || name == "!=" || name == "between"
  }

  predicate IsAggregateOp(name: string) {
    name == "count" || name == "sum" || name == "min" || name == "max" || name == "avg"
  }

  /** A body relation call, as opposed to a triple pattern. */
  predicate IsRelation(name: string, lex: Lexicon) {
    !IsVar(name) && name != "_" && !lex.isNumber(name)
  }

  predicate IsEdbIdColumn(rel: string, col: nat) {
    !(rel == "facts_i64" && col == 2)
  }

  predicate Flag(cols: Columns, name: string, i: nat) {
    name in cols && i < |cols[name]| && cols[name][i]
  }

  /** Known rule names are looked up; every other name is read as an EDB. */
  function Reader(cols: Columns): ColumnTest {
    (rel: string, col: nat) => if rel in cols then Flag(cols, rel, col) else IsEdbIdColumn(rel, col)
  }

  // ----- Variables a body binds to ids -----

  predicate IsIdColumn(e: Expr, rel: string, test: ColumnTest, lex: Lexicon) {
    e.Symbol? && lex.columnOf(e.name).Some? && test(rel, lex.columnOf(e.name).value)
  }

  /** Position of the symbol `by`, or the length. */
  function ByPosition(args: seq<Expr>): (p: nat)
    ensures p <= |args|
  {
    if args == [] || args[0] == Symbol("by") then 0 else 1 + ByPosition(args[1..])
  }

  /** Group keys: complete pairs `?key column`. */
  function KeyVars(keys: seq<Expr>, rel: string, test: ColumnTest, lex: Lexicon): set<string> {
    if |keys| < 2 then {}
    else (if IsIdColumn(keys[1], rel, test, lex) then VarOf(keys[0]) else {}) + KeyVars(keys[2..], rel, test, lex)
  }

  function AggregateVars(op: string, args: seq<Expr>, test: ColumnTest, lex: Lexicon): set<string> {
    if |args| < 2 || !args[1].Symbol? then {}
    else
      var rel := args[1].name;
      var byAt := ByPosition(args);
      var result := if (op == "min" || op == "max") && byAt != 2 && |args| > 2 && IsIdColumn(args[2], rel, test, lex)
                    then VarOf(args[0]) else {};
      result + (if byAt < |args| then KeyVars(args[byAt + 1..], rel, test, lex) else {})
  }

  /** Arguments of a relation call from column `col` on. */
  function CallVars(rel: string, args: seq<Expr>, col: nat, test: ColumnTest): set<string> {
    if args == [] then {}
    else (if test(rel, col) then VarOf(args[0]) else {}) + CallVars(rel, args[1..], col + 1, test)
  }

  function AllVars(es: seq<Expr>): set<string> {
    if es == [] then {} else VarOf(es[0]) + AllVars(es[1..])
  }

  /** `collect_id_vars`, as the set it adds. */
  function IdVarsOfAtom(atom: Expr, test: ColumnTest, lex: Lexicon): set<string>
    decreases atom, 0
  {
    if !atom.List? || atom.items == [] then {}
    else
      var head, args := atom.items[0], atom.items[1..];
      if !head.Symbol? then AllVars(atom.items)
      else if head.name == "not" then {}
      else if head.name == "and" || head.name == "or" then IdVars(args, test, lex)
      else if IsCompareOp(head.name) then {}
      else if IsAggregateOp(head.name) then AggregateVars(head.name, args, test, lex)
      else if IsRelation(head.name, lex) then CallVars(head.name, args, 0, test)
      else AllVars(atom.items)
  }

  function IdVars(body: seq<Expr>, test: ColumnTest, lex: Lexicon): set<string>
    decreases body, 1
  {
    if body == [] then {} else IdVarsOfAtom(body[0], test, lex) + IdVars(body[1..], test, lex)
  }

  predicate TermIsId(term: Expr, ids: set<string>, lex: Lexicon) {
    match term
    case Symbol(name) => if IsVar(name) then name in ids else !lex.isNumber(name)
    case List(_) => false
    case _ => true
  }

  // ----- The fixpoint -----

  function Padded(flags: seq<bool>, n: nat): (r: seq<bool>)
    ensures |r| >= n && |r| >= |flags|
    ensures forall i :: 0 <= i < |r| ==> r[i] == (i < |flags| && flags[i])
  {
    flags + seq(if |flags| < n then n - |flags| else 0, _ => false)
  }

  /** The head columns of `rule` once its id arguments are flagged. */
  function Flagged(before: seq<bool>, rule: RuleClause, ids: set<string>, lex: Lexicon): (r: seq<bool>)
    requires |before| >= |rule.args|
    ensures |r| == |before|
    ensures forall i :: 0 <= i < |r| ==> r[i] == (before[i] || (i < |rule.args| && TermIsId(rule.args[i], ids, lex)))
  {
    seq(|before|, i requires 0 <= i < |before| => before[i] || (i < |rule.args| && TermIsId(rule.args[i], ids, lex)))
  }

  /** One rule: its id arguments flip their columns. Says whether any flipped. */
  function ApplyRule(cols: Columns, rule: RuleClause, lex: Lexicon): (Columns, bool) {
    var ids := IdVars(rule.body, Reader(cols), lex);
    var before := Padded(if rule.name in cols then cols[rule.name] else [], |rule.args|);
    var after := Flagged(before, rule, ids, lex);
    (cols[rule.name := after], after != before)
  }

  /** The first `n` rules, in order. */
  function Pass(cols: Columns, rules: seq<RuleClause>, n: nat, lex: Lexicon): (Columns, bool)
    requires n <= |rules|
  {
    if n == 0 then (cols, false)
    else
      var (c1, b1) := Pass(cols, rules, n - 1, lex);
      var (c2, b2) := ApplyRule(c1, rules[n - 1], lex);
      (c2, b1 || b2)
  }

  /** The (rule, argument) slots whose flag is not set. */
  ghost function Unset(rules: seq<RuleClause>, cols: Columns): set<(nat, nat)> {
    set k: nat, i: nat | k < |rules| && i < |rules[k].args| && !Flag(cols, rules[k].name, i) :: (k, i)
  }

  /** Flags only flip from false to true. */
  ghost predicate FlagsGrow(cols: Columns, cols': Columns) {
    forall name, i: nat :: Flag(cols, name, i) ==> Flag(cols', name, i)
  }

  lemma ApplyGrows(cols: Columns, rules: seq<RuleClause>, k: nat, lex: Lexicon)
    requires k < |rules|
    ensures var (cols', changed) := ApplyRule(cols, rules[k], lex);
            && FlagsGrow(cols, cols')
            && (changed ==> exists i: nat :: i < |rules[k].args|
                                             && !Flag(cols, rules[k].name, i) && Flag(cols', rules[k].name, i))
            && (!changed ==> FlagsGrow(cols', cols))
  {
    var rule := rules[k];
    var ids := IdVars(rule.body, Reader(cols), lex);
    var before := Padded(if rule.name in cols then cols[rule.name] else [], |rule.args|);
    var after := Flagged(before, rule, ids, lex);
    if after != before {
      var i :| 0 <= i < |after| && after[i] != before[i];
      assert !Flag(cols, rule.name, i) && Flag(cols[rule.name := after], rule.name, i);
    }
  }

  /** One more flag leaves one slot fewer unset. */
  lemma FlagsShrinkUnset(rules: seq<RuleClause>, cols: Columns, cols': Columns)
    requires FlagsGrow(cols, cols')
    ensures Unset(rules, cols') <= Unset(rules, cols)
  {
  }

  lemma ApplyShrinksUnset(cols: Columns, rules: seq<RuleClause>, k: nat, lex: Lexicon)
    requires k < |rules|
    ensures FlagsGrow(cols, ApplyRule(cols, rules[k], lex).0)
    ensures Unset(rules, ApplyRule(cols, rules[k], lex).0) <= Unset(rules, cols)
    ensures ApplyRule(cols, rules[k], lex).1 ==> Unset(rules, ApplyRule(cols, rules[k], lex).0) < Unset(rules, cols)
  {
    var (cols', changed) := ApplyRule(cols, rules[k], lex);
    ApplyGrows(cols, rules, k, lex);
    FlagsShrinkUnset(rules, cols, cols');
    if changed {
      var i: nat :| i < |rules[k].args| && !Flag(cols, rules[k].name, i) && Flag(cols', rules[k].name, i);
      assert (k, i) in Unset(rules, cols) && (k, i) !in Unset(rules, cols');
    }
  }

  /** Flags only grow in a pass, and a pass that reports a change leaves fewer slots unset. */
  lemma {:induction false} PassGrows(cols: Columns, rules: seq<RuleClause>, n: nat, lex: Lexicon)
    requires n <= |rules|
    ensures FlagsGrow(cols, Pass(cols, rules, n, lex).0)
    ensures Unset(rules, Pass(cols, rules, n, lex).0) <= Unset(rules, cols)
    ensures Pass(cols, rules, n, lex).1 ==> Unset(rules, Pass(cols, rules, n, lex).0) < Unset(rules, cols)
  {
    hide ApplyRule;
    if n == 0 {
    } else {
      PassGrows(cols, rules, n - 1, lex);
      ApplyShrinksUnset(Pass(cols, rules, n - 1, lex).0, rules, n - 1, lex);
    }
  }

  /** Passes until one flips nothing; each other pass leaves fewer unset slots. */
  function Settle(cols: Columns, rules: seq<RuleClause>, lex: Lexicon): Columns
    decreases Unset(rules, cols)
  {
    var (cols', changed) := Pass(cols, rules, |rules|, lex);
    PassGrows(cols, rules, |rules|, lex);
    if changed then Settle(cols', rules, lex) else cols'
  }

  // ----- Monotonicity -----

  /** The relations whose columns an atom asks about. */
  function Called(atom: Expr, lex: Lexicon): set<string>
    decreases atom, 0
  {
    if !atom.List? || atom.items == [] || !atom.items[0].Symbol? then {}
    else
      var name, args := atom.items[0].name, atom.items[1..];
      if name == "not" then {}
      else if name == "and" || name == "or" then AllCalled(args, lex)
      else if IsCompareOp(name) then {}
      else if IsAggregateOp(name) then (if |args| >= 2 && args[1].Symbol? then {args[1].name} else {})
      else if IsRelation(name, lex) then {name}
      else {}
  }

  function AllCalled(body: seq<Expr>, lex: Lexicon): set<string>
    decreases body, 1
  {
    if body == [] then {} else Called(body[0], lex) + AllCalled(body[1..], lex)
  }

  ghost predicate ImpliesOn(rels: set<string>, f: ColumnTest, g: ColumnTest) {
    forall rel: string, col: nat :: rel in rels && f(rel, col) ==> g(rel, col)
  }

  lemma {:induction false} KeyVarsMonotone(keys: seq<Expr>, rel: string, f: ColumnTest, g: ColumnTest, lex: Lexicon)
    requires ImpliesOn({rel}, f, g)
    ensures KeyVars(keys, rel, f, lex) <= KeyVars(keys, rel, g, lex)
  {
    if |keys| >= 2 {
      KeyVarsMonotone(keys[2..], rel, f, g, lex);
    }
  }

  lemma {:induction false} CallVarsMonotone(rel: string, args: seq<Expr>, col: nat, f: ColumnTest, g: ColumnTest)
    requires ImpliesOn({rel}, f, g)
    ensures CallVars(rel, args, col, f) <= CallVars(rel, args, col, g)
  {
    if args == [] {
    } else {
      CallVarsMonotone(rel, args[1..], col + 1, f, g);
    }
  }

  /** Knowing fewer id columns among the relations an atom calls binds no more variables. */
  lemma {:induction false} AtomMonotone(atom: Expr, f: ColumnTest, g: ColumnTest, lex: Lexicon)
    requires ImpliesOn(Called(atom, lex), f, g)
    ensures IdVarsOfAtom(atom, f, lex) <= IdVarsOfAtom(atom, g, lex)
    decreases atom, 0
  {
    if atom.List? && atom.items != [] && atom.items[0].Symbol? {
      var name, args := atom.items[0].name, atom.items[1..];
      if name == "and" || name == "or" {
        BodyMonotone(args, f, g, lex);
      } else if IsAggregateOp(name) {
        if |args| >= 2 && args[1].Symbol? && ByPosition(args) < |args| {
          KeyVarsMonotone(args[ByPosition(args) + 1..], args[1].name, f, g, lex);
        }
      } else if IsRelation(name, lex) && !IsCompareOp(name) && name != "not" {
        assert Called(atom, lex) == {name};
        CallVarsMonotone(name, args, 0, f, g);
      }
    }
  }

  lemma {:induction false} BodyMonotone(body: seq<Expr>, f: ColumnTest, g: ColumnTest, lex: Lexicon)
    requires ImpliesOn(AllCalled(body, lex), f, g)
    ensures IdVars(body, f, lex) <= IdVars(body, g, lex)
    decreases body, 1
  {
    if body == [] {
    } else {
      AtomMonotone(body[0], f, g, lex);
      BodyMonotone(body[1..], f, g, lex);
    }
  }

  // ----- Closed sets of columns -----

  function Heads(rules: seq<RuleClause>): set<string> {
    set k | 0 <= k < |rules| :: rules[k].name
  }

  /** Rule heads are looked up in `x`; every other name is an EDB. */
  ghost function SetReader(rules: seq<RuleClause>, x: iset<(string, nat)>): ColumnTest {
    (rel: string, col: nat) => if rel in Heads(rules) then (rel, col) in x else IsEdbIdColumn(rel, col)
  }

  /** Argument `i` of rule `k` is an id when the columns in `x` are. */
  ghost predicate Derives(rules: seq<RuleClause>, x: iset<(string, nat)>, lex: Lexicon, k: nat, i: nat)
    requires k < |rules| && i < |rules[k].args|
  {
    TermIsId(rules[k].args[i], IdVars(rules[k].body, SetReader(rules, x), lex), lex)
  }

  /** Every rule's consequences are in the set. */
  ghost predicate Closed(rules: seq<RuleClause>, x: iset<(string, nat)>, lex: Lexicon) {
    forall k: nat, i: nat | k < |rules| && i < |rules[k].args| ::
      Derives(rules, x, lex, k, i) ==> (rules[k].name, i) in x
  }

  ghost function FlagSet(cols: Columns): iset<(string, nat)> {
    iset name: string, i: nat | Flag(cols, name, i) :: (name, i)
  }

  lemma TermMonotone(term: Expr, ids: set<string>, ids': set<string>, lex: Lexicon)
    requires ids <= ids' && TermIsId(term, ids, lex)
    ensures TermIsId(term, ids', lex)
  {
  }

  /** More columns derive more. */
  lemma DerivesMonotone(
    rules: seq<RuleClause>, x: iset<(string, nat)>, y: iset<(string, nat)>, lex: Lexicon, k: nat, i: nat)
    requires x <= y && k < |rules| && i < |rules[k].args| && Derives(rules, x, lex, k, i)
    ensures Derives(rules, y, lex, k, i)
  {
    BodyMonotone(rules[k].body, SetReader(rules, x), SetReader(rules, y), lex);
    TermMonotone(rules[k].args[i], IdVars(rules[k].body, SetReader(rules, x), lex),
                 IdVars(rules[k].body, SetReader(rules, y), lex), lex);
  }

  // ----- The settled table is closed -----

  lemma HeadsOfPrefix(rules: seq<RuleClause>, n: nat)
    requires n < |rules|
    ensures Heads(rules[..n + 1]) == Heads(rules[..n]) + {rules[n].name}
  {
    var shorter, longer := rules[..n], rules[..n + 1];
    assert longer == shorter + [rules[n]];
    forall name | name in Heads(shorter)
      ensures name in Heads(longer)
    {
      var k :| 0 <= k < |shorter| && shorter[k].name == name;
      assert longer[k].name == name;
    }
    assert longer[n].name in Heads(longer);
  }

  lemma ApplyNames(cols: Columns, rule: RuleClause, lex: Lexicon)
    ensures ApplyRule(cols, rule, lex).0.Keys == cols.Keys + {rule.name}
  {
    hide IdVars;
  }

  lemma HeadsOfNone(rules: seq<RuleClause>)
    ensures Heads(rules[..0]) == {}
  {
  }

  lemma {:induction false} PassNames(cols: Columns, rules: seq<RuleClause>, n: nat, lex: Lexicon)
    requires n <= |rules|
    ensures Pass(cols, rules, n, lex).0.Keys == cols.Keys + Heads(rules[..n])
  {
    hide Heads, ApplyRule;
    if n > 0 {
      PassNames(cols, rules, n - 1, lex);
      ApplyNames(Pass(cols, rules, n - 1, lex).0, rules[n - 1], lex);
      HeadsOfPrefix(rules, n - 1);
    } else {
      HeadsOfNone(rules);
    }
  }

  /** After `n` rules at least their heads are named, and only rule heads. */
  lemma PassKeys(cols: Columns, rules: seq<RuleClause>, n: nat, lex: Lexicon)
    requires n <= |rules| && cols.Keys <= Heads(rules)
    ensures Heads(rules[..n]) <= Pass(cols, rules, n, lex).0.Keys <= Heads(rules)
    ensures cols.Keys <= Pass(cols, rules, n, lex).0.Keys
    ensures n == |rules| ==> Pass(cols, rules, n, lex).0.Keys == Heads(rules)
  {
    PassNames(cols, rules, n, lex);
    assert rules[..|rules|] == rules;
  }

  /** A rule whose consequences are already flagged, as the table stands. */
  ghost predicate Satisfied(cols: Columns, rule: RuleClause, lex: Lexicon) {
    forall i: nat :: i < |rule.args| && TermIsId(rule.args[i], IdVars(rule.body, Reader(cols), lex), lex)
                     ==> Flag(cols, rule.name, i)
  }

  /** Adding names and unset columns can only make the table's readings stricter. */
  lemma SatisfiedKept(cols: Columns, cols': Columns, rule: RuleClause, lex: Lexicon)
    requires Satisfied(cols, rule, lex)
    requires cols.Keys <= cols'.Keys && FlagsGrow(cols, cols') && FlagsGrow(cols', cols)
    ensures Satisfied(cols', rule, lex)
  {
    assert ImpliesOn(AllCalled(rule.body, lex), Reader(cols'), Reader(cols)) by {
      forall rel: string, col: nat | Reader(cols')(rel, col)
        ensures Reader(cols)(rel, col)
      {
        assert Flag(cols', rel, col) ==> Flag(cols, rel, col);
      }
    }
    BodyMonotone(rule.body, Reader(cols'), Reader(cols), lex);
  }

  lemma ApplySatisfies(cols: Columns, rule: RuleClause, lex: Lexicon)
    requires !ApplyRule(cols, rule, lex).1
    ensures Satisfied(ApplyRule(cols, rule, lex).0, rule, lex)
  {
    var ids := IdVars(rule.body, Reader(cols), lex);
    var before := Padded(if rule.name in cols then cols[rule.name] else [], |rule.args|);
    assert before == Flagged(before, rule, ids, lex);
    forall i: nat | i < |rule.args| && TermIsId(rule.args[i], ids, lex)
      ensures Flag(cols, rule.name, i)
    {
      assert before[i];
    }
    assert Satisfied(cols, rule, lex);
    ApplyGrows(cols, [rule], 0, lex);
    SatisfiedKept(cols, ApplyRule(cols, rule, lex).0, rule, lex);
  }

  /** The same flags, perhaps with more names. */
  ghost predicate SameFlags(cols: Columns, cols': Columns) {
    cols.Keys <= cols'.Keys && FlagsGrow(cols, cols') && FlagsGrow(cols', cols)
  }

  lemma QuietApplySameFlags(cols: Columns, rule: RuleClause, lex: Lexicon)
    requires !ApplyRule(cols, rule, lex).1
    ensures SameFlags(cols, ApplyRule(cols, rule, lex).0)
  {
    ApplyGrows(cols, [rule], 0, lex);
  }

  /** Nothing changes from any point of a quiet pass to its end. */
  lemma {:induction false} QuietPassSameFlags(cols: Columns, rules: seq<RuleClause>, m: nat, n: nat, lex: Lexicon)
    requires m <= n <= |rules| && !Pass(cols, rules, n, lex).1
    ensures !Pass(cols, rules, m, lex).1
    ensures SameFlags(Pass(cols, rules, m, lex).0, Pass(cols, rules, n, lex).0)
  {
    hide ApplyRule;
    if m < n {
      QuietPassSameFlags(cols, rules, m, n - 1, lex);
      QuietApplySameFlags(Pass(cols, rules, n - 1, lex).0, rules[n - 1], lex);
    }
  }

  /** After a pass that flips nothing every rule is satisfied. */
  lemma QuietPassSatisfies(cols: Columns, rules: seq<RuleClause>, lex: Lexicon, k: nat)
    requires k < |rules| && !Pass(cols, rules, |rules|, lex).1
    ensures Satisfied(Pass(cols, rules, |rules|, lex).0, rules[k], lex)
  {
    hide ApplyRule, Satisfied;
    QuietPassSameFlags(cols, rules, k + 1, |rules|, lex);
    ApplySatisfies(Pass(cols, rules, k, lex).0, rules[k], lex);
    SatisfiedKept(Pass(cols, rules, k + 1, lex).0, Pass(cols, rules, |rules|, lex).0, rules[k], lex);
  }

  lemma SameReading(cols: Columns, rules: seq<RuleClause>, lex: Lexicon, k: nat, i: nat)
    requires cols.Keys == Heads(rules) && k < |rules| && i < |rules[k].args|
    ensures Derives(rules, FlagSet(cols), lex, k, i)
            <==> TermIsId(rules[k].args[i], IdVars(rules[k].body, Reader(cols), lex), lex)
  {
    var f, g := SetReader(rules, FlagSet(cols)), Reader(cols);
    BodyMonotone(rules[k].body, f, g, lex);
    BodyMonotone(rules[k].body, g, f, lex);
  }

  lemma SatisfiedIsClosed(cols: Columns, rules: seq<RuleClause>, lex: Lexicon)
    requires cols.Keys == Heads(rules)
    requires forall k :: 0 <= k < |rules| ==> Satisfied(cols, rules[k], lex)
    ensures Closed(rules, FlagSet(cols), lex)
  {
    forall k: nat, i: nat | k < |rules| && i < |rules[k].args| && Derives(rules, FlagSet(cols), lex, k, i)
      ensures (rules[k].name, i) in FlagSet(cols)
    {
      SameReading(cols, rules, lex, k, i);
      assert Satisfied(cols, rules[k], lex);
    }
  }

  lemma QuietIsClosed(cols: Columns, rules: seq<RuleClause>, lex: Lexicon)
    requires cols.Keys <= Heads(rules) && !Pass(cols, rules, |rules|, lex).1
    ensures Closed(rules, FlagSet(Pass(cols, rules, |rules|, lex).0), lex)
  {
    PassKeys(cols, rules, |rules|, lex);
    forall k | 0 <= k < |rules|
      ensures Satisfied(Pass(cols, rules, |rules|, lex).0, rules[k], lex)
    {
      QuietPassSatisfies(cols, rules, lex, k);
    }
    SatisfiedIsClosed(Pass(cols, rules, |rules|, lex).0, rules, lex);
  }

  /** The settled table names exactly the rule heads, and is closed under every rule. */
  lemma {:induction false} SettledIsClosed(cols: Columns, rules: seq<RuleClause>, lex: Lexicon)
    requires cols.Keys <= Heads(rules)
    ensures Settle(cols, rules, lex).Keys == Heads(rules)
    ensures Closed(rules, FlagSet(Settle(cols, rules, lex)), lex)
    decreases Unset(rules, cols)
  {
    var cols' := Pass(cols, rules, |rules|, lex).0;
    PassGrows(cols, rules, |rules|, lex);
    PassKeys(cols, rules, |rules|, lex);
    if Pass(cols, rules, |rules|, lex).1 {
      SettledIsClosed(cols', rules, lex);
    } else {
      QuietIsClosed(cols, rules, lex);
    }
  }

  // ----- The least fixpoint -----

  /** One round of rules from `x`. */
  ghost function Round(rules: seq<RuleClause>, lex: Lexicon, x: iset<(string, nat)>): iset<(string, nat)> {
    iset k: nat, i: nat | k < |rules| && i < |rules[k].args| && Derives(rules, x, lex, k, i) :: (rules[k].name, i)
  }

  /** What follows in `n` rounds from nothing. */
  ghost function Stage(rules: seq<RuleClause>, lex: Lexicon, n: nat): iset<(string, nat)> {
    if n == 0 then iset{} else Round(rules, lex, Stage(rules, lex, n - 1))
  }

  /** Every closed set contains the least fixpoint. */
  lemma {:induction false} ClosedContainsStages(rules: seq<RuleClause>, x: iset<(string, nat)>, lex: Lexicon, n: nat)
    requires Closed(rules, x, lex)
    ensures Stage(rules, lex, n) <= x
  {
    if n == 0 {
    } else {
      ClosedContainsStages(rules, x, lex, n - 1);
      var y := Stage(rules, lex, n - 1);
      forall k: nat, i: nat | k < |rules| && i < |rules[k].args| && Derives(rules, y, lex, k, i)
        ensures (rules[k].name, i) in x
      {
        DerivesMonotone(rules, y, x, lex, k, i);
      }
    }
  }

  /** Every rule head called in a body has an earlier rule. */
  predicate Stratified(rules: seq<RuleClause>, lex: Lexicon) {
    forall k, rel :: 0 <= k < |rules| && rel in AllCalled(rules[k].body, lex) && rel in Heads(rules)
                     ==> rel in Heads(rules[..k])
  }

  /** Every rule head the body calls is already in the table. */
  ghost predicate HeadsKnown(cols: Columns, rules: seq<RuleClause>, body: seq<Expr>, lex: Lexicon) {
    forall rel :: rel in AllCalled(body, lex) && rel in Heads(rules) ==> rel in cols
  }

  lemma KnownReadsWithin(cols: Columns, rules: seq<RuleClause>, body: seq<Expr>, lex: Lexicon, c: iset<(string, nat)>)
    requires HeadsKnown(cols, rules, body, lex) && cols.Keys <= Heads(rules) && FlagSet(cols) <= c
    ensures IdVars(body, Reader(cols), lex) <= IdVars(body, SetReader(rules, c), lex)
  {
    forall rel: string, col: nat | rel in AllCalled(body, lex) && Reader(cols)(rel, col)
      ensures SetReader(rules, c)(rel, col)
    {
      if rel in cols {
        assert (rel, col) in FlagSet(cols);
      }
    }
    BodyMonotone(body, Reader(cols), SetReader(rules, c), lex);
  }

  /** A rule whose called heads are known adds nothing a closed set lacks. */
  lemma ApplyStaysWithin(cols: Columns, rules: seq<RuleClause>, k: nat, lex: Lexicon, c: iset<(string, nat)>)
    requires k < |rules| && HeadsKnown(cols, rules, rules[k].body, lex) && Closed(rules, c, lex)
    requires cols.Keys <= Heads(rules) && FlagSet(cols) <= c
    ensures FlagSet(ApplyRule(cols, rules[k], lex).0) <= c
  {
    var rule := rules[k];
    var ids := IdVars(rule.body, Reader(cols), lex);
    var cols' := ApplyRule(cols, rule, lex).0;
    KnownReadsWithin(cols, rules, rule.body, lex, c);
    forall name, i: nat | Flag(cols', name, i)
      ensures (name, i) in c
    {
      if Flag(cols, name, i) {
        assert (name, i) in FlagSet(cols);
      } else {
        assert name == rule.name && i < |rule.args| && TermIsId(rule.args[i], ids, lex);
        TermMonotone(rule.args[i], ids, IdVars(rule.body, SetReader(rules, c), lex), lex);
        assert Derives(rules, c, lex, k, i);
      }
    }
  }

  /** Rule `n` of a pass finds every head it calls in the table. */
  ghost predicate KnownInPass(cols: Columns, rules: seq<RuleClause>, n: nat, lex: Lexicon)
    requires n < |rules|
  {
    HeadsKnown(Pass(cols, rules, n, lex).0, rules, rules[n].body, lex)
  }

  lemma PassStepStaysWithin(cols: Columns, rules: seq<RuleClause>, n: nat, lex: Lexicon, c: iset<(string, nat)>)
    requires n < |rules| && Closed(rules, c, lex) && cols.Keys <= Heads(rules)
    requires KnownInPass(cols, rules, n, lex) && FlagSet(Pass(cols, rules, n, lex).0) <= c
    ensures FlagSet(Pass(cols, rules, n + 1, lex).0) <= c
  {
    PassKeys(cols, rules, n, lex);
    ApplyStaysWithin(Pass(cols, rules, n, lex).0, rules, n, lex, c);
  }

  lemma {:induction false} PassStaysWithin(
    cols: Columns, rules: seq<RuleClause>, n: nat, lex: Lexicon, c: iset<(string, nat)>)
    requires n <= |rules| && Closed(rules, c, lex) && cols.Keys <= Heads(rules) && FlagSet(cols) <= c
    requires forall m :: 0 <= m < n ==> KnownInPass(cols, rules, m, lex)
    ensures FlagSet(Pass(cols, rules, n, lex).0) <= c
  {
    if n == 0 {
    } else {
      PassStaysWithin(cols, rules, n - 1, lex, c);
      PassStepStaysWithin(cols, rules, n - 1, lex, c);
    }
  }

  /** Once every rule head is named, no later pass leaves a closed set. */
  lemma {:induction false} SettleStaysWithin(
    cols: Columns, rules: seq<RuleClause>, lex: Lexicon, c: iset<(string, nat)>)
    requires Closed(rules, c, lex) && cols.Keys == Heads(rules) && FlagSet(cols) <= c
    ensures FlagSet(Settle(cols, rules, lex)) <= c
    decreases Unset(rules, cols)
  {
    PassGrows(cols, rules, |rules|, lex);
    PassKeys(cols, rules, |rules|, lex);
    forall m | 0 <= m < |rules|
      ensures KnownInPass(cols, rules, m, lex)
    {
      PassKeys(cols, rules, m, lex);
    }
    PassStaysWithin(cols, rules, |rules|, lex, c);
    if Pass(cols, rules, |rules|, lex).1 {
      SettleStaysWithin(Pass(cols, rules, |rules|, lex).0, rules, lex, c);
    }
  }

  lemma {:induction false} SettleGrows(cols: Columns, rules: seq<RuleClause>, lex: Lexicon)
    ensures FlagsGrow(cols, Settle(cols, rules, lex))
    decreases Unset(rules, cols)
  {
    PassGrows(cols, rules, |rules|, lex);
    if Pass(cols, rules, |rules|, lex).1 {
      SettleGrows(Pass(cols, rules, |rules|, lex).0, rules, lex);
    }
  }

  /** What the first pass flags. */
  ghost function FirstPass(rules: seq<RuleClause>, lex: Lexicon): iset<(string, nat)> {
    FlagSet(Pass(map[], rules, |rules|, lex).0)
  }

  /** Only the first pass can overshoot: the result keeps within a closed set exactly when that pass does. */
  lemma OnlyFirstPassOvershoots(rules: seq<RuleClause>, lex: Lexicon, c: iset<(string, nat)>)
    requires Closed(rules, c, lex)
    ensures FlagSet(Settle(map[], rules, lex)) <= c <==> FirstPass(rules, lex) <= c
  {
    var first := Pass(map[], rules, |rules|, lex).0;
    PassKeys(map[], rules, |rules|, lex);
    PassGrows(map[], rules, |rules|, lex);
    if Pass(map[], rules, |rules|, lex).1 {
      FirstPassIsKept(rules, lex);
      if FirstPass(rules, lex) <= c {
        SettleStaysWithin(first, rules, lex, c);
      }
    }
  }

  lemma FirstPassIsKept(rules: seq<RuleClause>, lex: Lexicon)
    ensures FirstPass(rules, lex) <= FlagSet(Settle(map[], rules, lex))
  {
    var first := Pass(map[], rules, |rules|, lex).0;
    PassGrows(map[], rules, |rules|, lex);
    if Pass(map[], rules, |rules|, lex).1 {
      SettleGrows(first, rules, lex);
    }
    var last := Settle(map[], rules, lex);
    assert FlagsGrow(first, last);
    forall name, i: nat | Flag(first, name, i)
      ensures Flag(last, name, i)
    {
    }
  }

  /** When every called head has an earlier rule, the first pass reads none as an EDB. */
  lemma StratifiedFirstPass(rules: seq<RuleClause>, lex: Lexicon, c: iset<(string, nat)>)
    requires Stratified(rules, lex) && Closed(rules, c, lex)
    ensures FirstPass(rules, lex) <= c
  {
    forall m | 0 <= m < |rules|
      ensures KnownInPass(map[], rules, m, lex)
    {
      PassKeys(map[], rules, m, lex);
      assert forall rel :: rel in AllCalled(rules[m].body, lex) && rel in Heads(rules) ==> rel in Heads(rules[..m]);
    }
    PassStaysWithin(map[], rules, |rules|, lex, c);
  }

  /** The rule columns of a query: never less than the least fixpoint. */
  lemma RuleColumnsContainLeast(rules: seq<RuleClause>, lex: Lexicon, n: nat)
    ensures Closed(rules, FlagSet(Settle(map[], rules, lex)), lex)
    ensures Stage(rules, lex, n) <= FlagSet(Settle(map[], rules, lex))
  {
    SettledIsClosed(map[], rules, lex);
    ClosedContainsStages(rules, FlagSet(Settle(map[], rules, lex)), lex, n);
  }

  lemma RoundIsClosed(rules: seq<RuleClause>, lex: Lexicon, x: iset<(string, nat)>)
    requires Closed(rules, x, lex)
    ensures Round(rules, lex, x) <= x && Closed(rules, Round(rules, lex, x), lex)
  {
    var y := Round(rules, lex, x);
    assert y <= x;
    forall k: nat, i: nat | k < |rules| && i < |rules[k].args| && Derives(rules, y, lex, k, i)
      ensures (rules[k].name, i) in y
    {
      DerivesMonotone(rules, y, x, lex, k, i);
    }
  }

  /** When every called head has an earlier rule, the rule columns are the least closed set, hence a fixpoint. */
  lemma RuleColumnsAreLeast(rules: seq<RuleClause>, lex: Lexicon)
    requires Stratified(rules, lex)
    ensures var x := FlagSet(Settle(map[], rules, lex));
            && Closed(rules, x, lex)
            && (forall c :: Closed(rules, c, lex) ==> x <= c)
            && x == Round(rules, lex, x)
  {
    var x := FlagSet(Settle(map[], rules, lex));
    SettledIsClosed(map[], rules, lex);
    forall c | Closed(rules, c, lex)
      ensures x <= c
    {
      StratifiedFirstPass(rules, lex, c);
      OnlyFirstPassOvershoots(rules, lex, c);
    }
    RoundIsClosed(rules, lex, x);
  }

  /** Without an earlier rule the analysis overshoots: a rule that only calls itself reads itself as an EDB
      in the first pass, although nothing is derivable. */
  lemma SelfCallOvershoots(lex: Lexicon)
    requires !lex.isNumber("p")
    ensures var rules := [RuleClause("p", [Symbol("?x")], [List([Symbol("p"), Symbol("?x")])])];
            && Flag(Settle(map[], rules, lex), "p", 0)
            && Closed(rules, iset{}, lex)
  {
    var x := Symbol("?x");
    var atom := List([Symbol("p"), x]);
    var rule := RuleClause("p", [x], [atom]);
    var rules := [rule];
    assert atom.items[1..] == [x] && [x][1..] == [] && [atom][1..] == [];
    assert IdVarsOfAtom(atom, Reader(map[]), lex) == CallVars("p", [x], 0, Reader(map[]));
    assert "?x" in IdVars([atom], Reader(map[]), lex);
    var (cols, changed) := Pass(map[], rules, 1, lex);
    assert Pass(map[], rules, 0, lex) == (map[], false);
    assert Flag(cols, "p", 0);
    PassGrows(map[], rules, 1, lex);
    SettleGrows(cols, rules, lex);
    var none := SetReader(rules, iset{});
    assert rules[0].name in Heads(rules);
    assert IdVarsOfAtom(atom, none, lex) == CallVars("p", [x], 0, none) == {};
  }
}
