/** `find_columns_are_ids` as the loops the source runs, and what its answer means for a query. */
module FindColumns {
  import opened Wrappers
  import opened RayfallSyntax
  import opened RuleColumns

  // ----- The loops -----

  method CollectKeyVars(keys: seq<Expr>, rel: string, test: ColumnTest, lex: Lexicon, out: set<string>)
    returns (r: set<string>)
    ensures r == out + KeyVars(keys, rel, test, lex)
  {
    r := out;
    var i := 0;
    while i + 2 <= |keys|
      invariant 0 <= i <= |keys|
      invariant r + KeyVars(keys[i..], rel, test, lex) == out + KeyVars(keys, rel, test, lex)
    {
      assert keys[i..][0] == keys[i] && keys[i..][1] == keys[i + 1] && keys[i..][2..] == keys[i + 2..];
      if IsIdColumn(keys[i + 1], rel, test, lex) {
        r := r + VarOf(keys[i]);
      }
      i := i + 2;
    }
  }

  method CollectCallVars(rel: string, args: seq<Expr>, test: ColumnTest, out: set<string>) returns (r: set<string>)
    ensures r == out + CallVars(rel, args, 0, test)
  {
    r := out;
    var col := 0;
    while col < |args|
      invariant 0 <= col <= |args|
      invariant r + CallVars(rel, args[col..], col, test) == out + CallVars(rel, args, 0, test)
    {
      assert args[col..][0] == args[col] && args[col..][1..] == args[col + 1..];
      if test(rel, col) {
        r := r + VarOf(args[col]);
      }
      col := col + 1;
    }
  }

  method CollectAllVars(es: seq<Expr>, out: set<string>) returns (r: set<string>)
    ensures r == out + AllVars(es)
  {
    r := out;
    var i := 0;
    while i < |es|
      invariant 0 <= i <= |es|
      invariant r + AllVars(es[i..]) == out + AllVars(es)
    {
      assert es[i..][0] == es[i] && es[i..][1..] == es[i + 1..];
      r := r + VarOf(es[i]);
      i := i + 1;
    }
  }

  method CollectAggregateVars(op: string, args: seq<Expr>, test: ColumnTest, lex: Lexicon, out: set<string>)
    returns (r: set<string>)
    ensures r == out + AggregateVars(op, args, test, lex)
  {
    r := out;
    if |args| < 2 || !args[1].Symbol? {
      return;
    }
    var rel := args[1].name;
    var byAt := ByPosition(args);
    if (op == "min" || op == "max") && byAt != 2 && |args| > 2 && IsIdColumn(args[2], rel, test, lex) {
      r := r + VarOf(args[0]);
    }
    if byAt < |args| {
      r := CollectKeyVars(args[byAt + 1..], rel, test, lex, r);
    }
  }

  /** `collect_id_vars`: adds the variables an atom binds to ids. */
  method CollectIdVars(atom: Expr, test: ColumnTest, lex: Lexicon, out: set<string>) returns (r: set<string>)
    ensures r == out + IdVarsOfAtom(atom, test, lex)
    decreases atom, 0
  {
    r := out;
    if !atom.List? || atom.items == [] {
      return;
    }
    var head, args := atom.items[0], atom.items[1..];
    if !head.Symbol? {
      r := CollectAllVars(atom.items, r);
    } else if head.name == "not" {
    } else if head.name == "and" || head.name == "or" {
      r := CollectBody(args, test, lex, r);
    } else if IsCompareOp(head.name) {
    } else if IsAggregateOp(head.name) {
      r := CollectAggregateVars(head.name, args, test, lex, r);
    } else if IsRelation(head.name, lex) {
      r := CollectCallVars(head.name, args, test, r);
    } else {
      r := CollectAllVars(atom.items, r);
    }
  }

  /** `id_vars` */
  method CollectBody(body: seq<Expr>, test: ColumnTest, lex: Lexicon, out: set<string>) returns (r: set<string>)
    ensures r == out + IdVars(body, test, lex)
    decreases body, 1
  {
    r := out;
    var i := 0;
    while i < |body|
      invariant 0 <= i <= |body|
      invariant r + IdVars(body[i..], test, lex) == out + IdVars(body, test, lex)
    {
      assert body[i..][0] == body[i] && body[i..][1..] == body[i + 1..];
      r := CollectIdVars(body[i], test, lex, r);
      i := i + 1;
    }
  }

  method FlagArguments(before: seq<bool>, args: seq<Expr>, ids: set<string>, lex: Lexicon)
    returns (flags: seq<bool>, changed: bool)
    requires |args| <= |before|
    ensures |flags| == |before|
    ensures forall j :: 0 <= j < |flags| ==> flags[j] == (before[j] || (j < |args| && TermIsId(args[j], ids, lex)))
    ensures changed <==> flags != before
  {
    flags, changed := before, false;
    var i := 0;
    while i < |args|
      invariant 0 <= i <= |args| && |flags| == |before|
      invariant forall j :: 0 <= j < |flags| ==> flags[j] == (before[j] || (j < i && TermIsId(args[j], ids, lex)))
      invariant changed <==> flags != before
    {
      if !flags[i] && TermIsId(args[i], ids, lex) {
        flags := flags[i := true];
        changed := true;
        assert flags[i] != before[i];
      }
      i := i + 1;
    }
  }

  method FlagRule(cols: Columns, rule: RuleClause, lex: Lexicon) returns (cols': Columns, changed: bool)
    ensures cols' == ApplyRule(cols, rule, lex).0
    ensures changed == ApplyRule(cols, rule, lex).1
  {
    var ids := CollectBody(rule.body, Reader(cols), lex, {});
    assert ids == IdVars(rule.body, Reader(cols), lex);
    var before := Padded(if rule.name in cols then cols[rule.name] else [], |rule.args|);
    var flags;
    flags, changed := FlagArguments(before, rule.args, ids, lex);
    assert flags == Flagged(before, rule, ids, lex);
    cols' := cols[rule.name := flags];
  }

  lemma PassStarts(start: Columns, rules: seq<RuleClause>, lex: Lexicon)
    ensures Pass(start, rules, 0, lex) == (start, false)
  {
  }

  lemma PassContinues(start: Columns, rules: seq<RuleClause>, k: nat, lex: Lexicon)
    requires k < |rules|
    ensures var (cols, changed) := Pass(start, rules, k, lex);
            var (cols', flipped) := ApplyRule(cols, rules[k], lex);
            Pass(start, rules, k + 1, lex) == (cols', changed || flipped)
  {
    hide ApplyRule;
  }

  method RunPass(start: Columns, rules: seq<RuleClause>, lex: Lexicon) returns (cols: Columns, changed: bool)
    ensures cols == Pass(start, rules, |rules|, lex).0
    ensures changed == Pass(start, rules, |rules|, lex).1
  {
    hide Pass, ApplyRule;
    cols, changed := start, false;
    PassStarts(start, rules, lex);
    var k := 0;
    while k < |rules|
      invariant 0 <= k <= |rules|
      invariant cols == Pass(start, rules, k, lex).0
      invariant changed == Pass(start, rules, k, lex).1
    {
      PassContinues(start, rules, k, lex);
      var flipped;
      cols, flipped := FlagRule(cols, rules[k], lex);
      changed := changed || flipped;
      k := k + 1;
    }
  }

  /** Passes over all rules until one flips nothing. */
  method SettleRuleColumns(rules: seq<RuleClause>, lex: Lexicon) returns (cols: Columns)
    ensures cols == Settle(map[], rules, lex)
  {
    cols := map[];
    var changed := true;
    while changed
      invariant changed ==> Settle(cols, rules, lex) == Settle(map[], rules, lex)
      invariant !changed ==> cols == Settle(map[], rules, lex)
      decreases changed, Unset(rules, cols)
    {
      PassGrows(cols, rules, |rules|, lex);
      cols, changed := RunPass(cols, rules, lex);
    }
  }

  // ----- The query -----

  predicate IsClause(e: Expr, name: string) {
    e.List? && e.items != [] && e.items[0] == Symbol(name)
  }

  /** What follows the head of the first clause with that name. */
  function Clause(parts: seq<Expr>, name: string): seq<Expr> {
    if parts == [] then []
    else if IsClause(parts[0], name) then parts[0].items[1..]
    else Clause(parts[1..], name)
  }

  function PartsOf(query: Expr): seq<Expr> {
    if query.List? then query.items else []
  }

  /** `((name arg...) body...)`; anything else in the clause is ignored. */
  predicate IsRule(e: Expr) {
    && e.List? && e.items != []
    && e.items[0].List? && e.items[0].items != [] && e.items[0].items[0].Symbol?
  }

  function RulesOf(es: seq<Expr>): seq<RuleClause> {
    if es == [] then []
    else if IsRule(es[0]) then
      [RuleClause(es[0].items[0].items[0].name, es[0].items[0].items[1..], es[0].items[1..])] + RulesOf(es[1..])
    else RulesOf(es[1..])
  }

  function QueryRules(query: Expr): seq<RuleClause> {
    RulesOf(Clause(PartsOf(query), "rules"))
  }

  /** Whether a find term is an id when rule columns read as `test` says. */
  predicate TermUnder(query: Expr, term: Expr, test: ColumnTest, lex: Lexicon) {
    TermIsId(term, IdVars(Clause(PartsOf(query), "where"), test, lex), lex)
  }

  /** The table `find_columns_are_ids` ends with. */
  function Table(query: Expr, lex: Lexicon): Columns {
    Settle(map[], QueryRules(query), lex)
  }

  method FindColumnsAreIds(source: string, lex: Lexicon) returns (r: Result<seq<bool>, ParseError>)
    ensures match ParseOne(source)
            case Err(e) => r == Err(e)
            case Ok(query) =>
              var terms := Clause(PartsOf(query), "find");
              && r.Ok? && |r.value| == |terms|
              && forall j :: 0 <= j < |terms| ==>
                   r.value[j] == TermUnder(query, terms[j], Reader(Table(query, lex)), lex)
  {
    hide IdVars, Settle, TermIsId, Clause, RulesOf, Reader, ParseOne;
    var parsed := ParseOne(source);
    if parsed.Err? {
      return Err(parsed.error);
    }
    var parts := PartsOf(parsed.value);
    var cols := SettleRuleColumns(RulesOf(Clause(parts, "rules")), lex);
    var ids := CollectBody(Clause(parts, "where"), Reader(cols), lex, {});
    assert ids == IdVars(Clause(parts, "where"), Reader(cols), lex);
    var terms := Clause(parts, "find");
    var out := [];
    var i := 0;
    while i < |terms|
      invariant 0 <= i <= |terms| && |out| == i
      invariant forall j :: 0 <= j < i ==> out[j] == TermIsId(terms[j], ids, lex)
    {
      out := out + [TermIsId(terms[i], ids, lex)];
      i := i + 1;
    }
    return Ok(out);
  }

  /** A column that holds ids by what the rules derive is never reported as a number. */
  lemma NoIdIsMissed(query: Expr, term: Expr, lex: Lexicon, n: nat)
    requires TermUnder(query, term, SetReader(QueryRules(query), Stage(QueryRules(query), lex, n)), lex)
    ensures TermUnder(query, term, Reader(Table(query, lex)), lex)
  {
    var rules, body := QueryRules(query), Clause(PartsOf(query), "where");
    RuleColumnsContainLeast(rules, lex, n);
    SettledIsClosed(map[], rules, lex);
    var f, g := SetReader(rules, Stage(rules, lex, n)), Reader(Table(query, lex));
    BodyMonotone(body, f, g, lex);
    TermMonotone(term, IdVars(body, f, lex), IdVars(body, g, lex), lex);
  }

  /** When every called head has an earlier rule, the answer is the one of any least closed set. */
  lemma AnswerIsLeast(query: Expr, term: Expr, lex: Lexicon, least: iset<(string, nat)>)
    requires Stratified(QueryRules(query), lex)
    requires Closed(QueryRules(query), least, lex)
    requires forall c :: Closed(QueryRules(query), c, lex) ==> least <= c
    ensures TermUnder(query, term, Reader(Table(query, lex)), lex)
            <==> TermUnder(query, term, SetReader(QueryRules(query), least), lex)
  {
    var rules, body, cols := QueryRules(query), Clause(PartsOf(query), "where"), Table(query, lex);
    RuleColumnsAreLeast(rules, lex);
    SettledIsClosed(map[], rules, lex);
    assert FlagSet(cols) == least;
    SameReadings(cols, rules, body, lex);
  }

  lemma SameReadings(cols: Columns, rules: seq<RuleClause>, body: seq<Expr>, lex: Lexicon)
    requires cols.Keys == Heads(rules)
    ensures IdVars(body, Reader(cols), lex) == IdVars(body, SetReader(rules, FlagSet(cols)), lex)
  {
    BodyMonotone(body, Reader(cols), SetReader(rules, FlagSet(cols)), lex);
    BodyMonotone(body, SetReader(rules, FlagSet(cols)), Reader(cols), lex);
  }
}
