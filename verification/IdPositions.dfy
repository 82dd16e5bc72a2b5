/** In which places of a query body a variable is bound to an interned id. */
module IdPositions {
  import opened Wrappers
  import opened RayfallSyntax
  import opened RuleColumns
  import opened FindColumns

  // ----- The atoms a body asks -----

  /** `atom` stands in the body, perhaps within `and` or `or`. Nothing within `not` is reached. */
  predicate Reached(body: seq<Expr>, atom: Expr)
    decreases body, 1
  {
    exists i :: 0 <= i < |body| && (body[i] == atom || ReachedWithin(body[i], atom))
  }

  predicate ReachedWithin(e: Expr, atom: Expr)
    decreases e, 0
  {
    && e.List? && e.items != [] && (e.items[0] == Symbol("and") || e.items[0] == Symbol("or"))
    && Reached(e.items[1..], atom)
  }

  // ----- The places in one atom -----

  /** The words with a meaning of their own at the head of an atom. */
  const KEYWORDS: set<string> :=
    {"not", "and", "or", "<", "<=", ">", ">=", "=", "!=", "between", "count", "sum", "min", "max", "avg"}

  predicate IsVariable(name: string) {
    name != "" && name[0] == '?'
  }

  /** Anything else at the head makes the atom a pattern of slots that all hold ids. */
  predicate IsPattern(head: Expr, lex: Lexicon) {
    head.Symbol? ==>
      head.name !in KEYWORDS && (IsVariable(head.name) || head.name == "_" || lex.isNumber(head.name))
  }

  predicate IsCall(head: Expr, lex: Lexicon) {
    && head.Symbol? && head.name !in KEYWORDS
    && !IsVariable(head.name) && head.name != "_" && !lex.isNumber(head.name)
  }

  /** A symbol that names a column which holds ids. */
  predicate NamesIdColumn(e: Expr, rel: string, test: ColumnTest, lex: Lexicon) {
    e.Symbol? && match lex.columnOf(e.name)
                 case None => false
                 case Some(col) => test(rel, col)
  }

  /** `by` first stands at `b`. */
  predicate FirstBy(args: seq<Expr>, b: nat) {
    b < |args| && args[b] == Symbol("by") && forall i :: 0 <= i < b ==> args[i] != Symbol("by")
  }

  /** `(min ?v rel col ...)` and `(max ?v rel col ...)` over an id column. */
  predicate IsIdResult(items: seq<Expr>, v: string, test: ColumnTest, lex: Lexicon) {
    && |items| > 3 && (items[0] == Symbol("min") || items[0] == Symbol("max"))
    && items[1] == Symbol(v) && items[2].Symbol? && NamesIdColumn(items[3], items[2].name, test, lex)
    && !FirstBy(items[1..], 2)
  }

  /** `?v col` is complete pair `k` after `by` at `b`, and the column holds ids. */
  predicate IsIdKey(args: seq<Expr>, b: nat, k: nat, v: string, test: ColumnTest, lex: Lexicon) {
    && |args| >= 2 && args[1].Symbol? && FirstBy(args, b) && b + 2 * k + 2 < |args|
    && args[b + 2 * k + 1] == Symbol(v) && NamesIdColumn(args[b + 2 * k + 2], args[1].name, test, lex)
  }

  const AGGREGATES: set<string> := {"count", "sum", "min", "max", "avg"}

  /** `v` stands in an id place of the atom. */
  ghost predicate InIdPlace(atom: Expr, v: string, test: ColumnTest, lex: Lexicon) {
    && IsVariable(v) && atom.List? && atom.items != []
    && var items := atom.items;
       || (IsPattern(items[0], lex) && Symbol(v) in items)
       || (IsCall(items[0], lex)
           && exists c: nat :: c + 1 < |items| && items[c + 1] == Symbol(v) && test(items[0].name, c))
       || IsIdResult(items, v, test, lex)
       || (items[0].Symbol? && items[0].name in AGGREGATES
           && exists b: nat, k: nat :: IsIdKey(items[1..], b, k, v, test, lex))
  }

  // ----- The scan finds exactly these places -----

  lemma {:induction false} AllVarsAre(es: seq<Expr>, v: string)
    ensures v in AllVars(es) <==> IsVariable(v) && Symbol(v) in es
  {
    if es == [] {
    } else {
      AllVarsAre(es[1..], v);
      assert es == [es[0]] + es[1..];
    }
  }

  lemma {:induction false} CallVarsAre(rel: string, args: seq<Expr>, col: nat, test: ColumnTest, v: string)
    ensures v in CallVars(rel, args, col, test)
            <==> IsVariable(v) && exists c: nat :: c < |args| && args[c] == Symbol(v) && test(rel, col + c)
  {
    if args == [] {
    } else {
      CallVarsAre(rel, args[1..], col + 1, test, v);
      if c: nat :| c < |args| && args[c] == Symbol(v) && test(rel, col + c) {
        if c > 0 {
          assert args[1..][c - 1] == Symbol(v) && test(rel, col + 1 + (c - 1));
        }
      }
      if c: nat :| c < |args[1..]| && args[1..][c] == Symbol(v) && test(rel, col + 1 + c) {
        assert args[c + 1] == Symbol(v) && test(rel, col + (c + 1));
      }
      if args[0] == Symbol(v) && test(rel, col) {
        assert test(rel, col + 0);
      }
    }
  }

  /** `?v col` is complete pair `k`. */
  predicate KeyAt(keys: seq<Expr>, k: nat, rel: string, v: string, test: ColumnTest, lex: Lexicon) {
    2 * k + 1 < |keys| && keys[2 * k] == Symbol(v) && NamesIdColumn(keys[2 * k + 1], rel, test, lex)
  }

  lemma {:induction false} KeyVarsAre(keys: seq<Expr>, rel: string, test: ColumnTest, lex: Lexicon, v: string)
    ensures v in KeyVars(keys, rel, test, lex)
            <==> IsVariable(v) && exists k: nat :: KeyAt(keys, k, rel, v, test, lex)
  {
    if |keys| < 2 {
    } else {
      KeyVarsAre(keys[2..], rel, test, lex, v);
      if k: nat :| KeyAt(keys, k, rel, v, test, lex) {
        if k > 0 {
          assert keys[2..][2 * (k - 1)] == keys[2 * k] && keys[2..][2 * (k - 1) + 1] == keys[2 * k + 1];
          assert KeyAt(keys[2..], k - 1, rel, v, test, lex);
        }
      }
      if k: nat :| KeyAt(keys[2..], k, rel, v, test, lex) {
        assert keys[2..][2 * k] == keys[2 * (k + 1)] && keys[2..][2 * k + 1] == keys[2 * (k + 1) + 1];
        assert KeyAt(keys, k + 1, rel, v, test, lex);
      }
      if keys[0] == Symbol(v) && NamesIdColumn(keys[1], rel, test, lex) {
        assert KeyAt(keys, 0, rel, v, test, lex);
      }
    }
  }

  lemma {:induction false} ByPositionIsFirst(args: seq<Expr>, b: nat)
    ensures FirstBy(args, b) <==> b == ByPosition(args) < |args|
  {
    if args == [] || args[0] == Symbol("by") {
    } else {
      if b > 0 {
        ByPositionIsFirst(args[1..], b - 1);
        assert FirstBy(args, b) <==> FirstBy(args[1..], b - 1) by {
          FirstByShifts(args, b);
        }
      }
    }
  }

  lemma FirstByShifts(args: seq<Expr>, b: nat)
    requires args != [] && args[0] != Symbol("by") && b > 0
    ensures FirstBy(args, b) <==> FirstBy(args[1..], b - 1)
  {
    assert forall i :: 0 <= i < |args| - 1 ==> args[1..][i] == args[i + 1];
    if FirstBy(args[1..], b - 1) {
      forall i | 0 <= i < b
        ensures args[i] != Symbol("by")
      {
        assert i > 0 ==> args[i] == args[1..][i - 1];
      }
    }
  }

  lemma KeysAreIdKeys(args: seq<Expr>, b: nat, keys: seq<Expr>, v: string, test: ColumnTest, lex: Lexicon)
    requires |args| >= 2 && args[1].Symbol? && FirstBy(args, b) && keys == args[b + 1..]
    ensures (exists k: nat :: KeyAt(keys, k, args[1].name, v, test, lex))
            <==> exists k: nat :: IsIdKey(args, b, k, v, test, lex)
  {
    forall k: nat
      ensures KeyAt(keys, k, args[1].name, v, test, lex) <==> IsIdKey(args, b, k, v, test, lex)
    {
      if 2 * k + 1 < |keys| {
        assert keys[2 * k] == args[b + 2 * k + 1] && keys[2 * k + 1] == args[b + 2 * k + 2];
      }
    }
  }

  lemma AggregateVarsAre(items: seq<Expr>, test: ColumnTest, lex: Lexicon, v: string)
    requires items != [] && items[0].Symbol?
    ensures v in AggregateVars(items[0].name, items[1..], test, lex)
            <==> IsVariable(v) && (IsIdResult(items, v, test, lex)
                                   || exists b: nat, k: nat :: IsIdKey(items[1..], b, k, v, test, lex))
  {
    var op, args := items[0].name, items[1..];
    if |args| >= 2 && args[1].Symbol? {
      var b := ByPosition(args);
      ByPositionIsFirst(args, b);
      ByPositionIsFirst(args, 2);
      assert items[2] == args[1] && items[1] == args[0] && (|items| > 3 ==> items[3] == args[2]);
      if b < |args| {
        KeyVarsAre(args[b + 1..], args[1].name, test, lex, v);
        KeysAreIdKeys(args, b, args[b + 1..], v, test, lex);
      }
      forall b': nat, k: nat | IsIdKey(args, b', k, v, test, lex)
        ensures b' == b
      {
        ByPositionIsFirst(args, b');
      }
    }
  }

  lemma HeadKinds(name: string, lex: Lexicon)
    ensures IsCompareOp(name) ==> name in KEYWORDS && name !in AGGREGATES
    ensures IsAggregateOp(name) <==> name in AGGREGATES
    ensures name in KEYWORDS <==> || IsCompareOp(name) || IsAggregateOp(name)
                                  || name == "not" || name == "and" || name == "or"
    ensures IsRelation(name, lex) <==> !IsVariable(name) && name != "_" && !lex.isNumber(name)
  {
  }

  /** What an atom binds, unless it only gathers other atoms. */
  lemma AtomBinds(atom: Expr, test: ColumnTest, lex: Lexicon, v: string)
    requires !(atom.List? && atom.items != [] && (atom.items[0] == Symbol("and") || atom.items[0] == Symbol("or")))
    ensures v in IdVarsOfAtom(atom, test, lex) <==> InIdPlace(atom, v, test, lex)
  {
    if atom.List? && atom.items != [] {
      var items := atom.items;
      AllVarsAre(items, v);
      if items[0].Symbol? {
        HeadKinds(items[0].name, lex);
        AggregateVarsAre(items, test, lex, v);
        CallVarsAre(items[0].name, items[1..], 0, test, v);
        CallPlaces(items, test, v);
      }
    }
  }

  lemma CallPlaces(items: seq<Expr>, test: ColumnTest, v: string)
    requires items != [] && items[0].Symbol?
    ensures (exists c: nat :: c < |items[1..]| && items[1..][c] == Symbol(v) && test(items[0].name, 0 + c))
            <==> exists c: nat :: c + 1 < |items| && items[c + 1] == Symbol(v) && test(items[0].name, c)
  {
    assert forall c: nat :: c < |items[1..]| ==> items[1..][c] == items[c + 1];
  }

  /** A gathering atom is itself no place for ids. */
  lemma GatheringBindsNothing(atom: Expr, test: ColumnTest, lex: Lexicon, v: string)
    requires atom.List? && atom.items != [] && (atom.items[0] == Symbol("and") || atom.items[0] == Symbol("or"))
    ensures !InIdPlace(atom, v, test, lex)
  {
  }

  ghost predicate Binds(body: seq<Expr>, v: string, test: ColumnTest, lex: Lexicon) {
    exists atom :: Reached(body, atom) && InIdPlace(atom, v, test, lex)
  }

  lemma {:induction false} AtomReaches(e: Expr, v: string, test: ColumnTest, lex: Lexicon)
    ensures v in IdVarsOfAtom(e, test, lex)
            <==> exists atom :: (atom == e || ReachedWithin(e, atom)) && InIdPlace(atom, v, test, lex)
    decreases e, 0
  {
    if e.List? && e.items != [] && (e.items[0] == Symbol("and") || e.items[0] == Symbol("or")) {
      GatheringBindsNothing(e, test, lex, v);
      IdVarsAre(e.items[1..], v, test, lex);
    } else {
      AtomBinds(e, test, lex, v);
    }
  }

  /** A body binds a variable to an id exactly in these places of the atoms it asks. */
  lemma {:induction false} IdVarsAre(body: seq<Expr>, v: string, test: ColumnTest, lex: Lexicon)
    ensures v in IdVars(body, test, lex) <==> Binds(body, v, test, lex)
    decreases body, 1
  {
    hide InIdPlace, IdVarsOfAtom, ReachedWithin;
    if body == [] {
    } else {
      AtomReaches(body[0], v, test, lex);
      IdVarsAre(body[1..], v, test, lex);
      assert body[1..] == body[1..];
      forall atom
        ensures Reached(body, atom) <==> atom == body[0] || ReachedWithin(body[0], atom) || Reached(body[1..], atom)
      {
        ReachedSplits(body, atom);
      }
    }
  }

  lemma ReachedSplits(body: seq<Expr>, atom: Expr)
    requires body != []
    ensures Reached(body, atom) <==> atom == body[0] || ReachedWithin(body[0], atom) || Reached(body[1..], atom)
  {
    hide ReachedWithin;
    assert forall i :: 0 <= i < |body| - 1 ==> body[1..][i] == body[i + 1];
    if i :| 0 <= i < |body[1..]| && (body[1..][i] == atom || ReachedWithin(body[1..][i], atom)) {
      assert body[i + 1] == body[1..][i];
    }
    if i :| 0 <= i < |body| && (body[i] == atom || ReachedWithin(body[i], atom)) {
      assert i > 0 ==> body[i] == body[1..][i - 1];
    }
  }

  // ----- What a column reads as -----

  /** A known rule is looked up; of every other relation all columns hold ids but the value of `facts_i64`. */
  lemma ReaderReads(cols: Columns, rel: string, col: nat)
    ensures Reader(cols)(rel, col)
            <==> if rel in cols then col < |cols[rel]| && cols[rel][col] else rel != "facts_i64" || col != 2
  {
  }

  lemma SetReaderReads(rules: seq<RuleClause>, x: iset<(string, nat)>, rel: string, col: nat)
    ensures SetReader(rules, x)(rel, col)
            <==> if exists k :: 0 <= k < |rules| && rules[k].name == rel then (rel, col) in x
                 else rel != "facts_i64" || col != 2
  {
  }

  // ----- The clauses of a query -----

  predicate StartsWith(e: Expr, name: string) {
    e.List? && |e.items| > 0 && e.items[0] == Symbol(name)
  }

  /** The first clause of a name counts. */
  lemma {:induction false} ClauseIsFirst(parts: seq<Expr>, name: string, k: nat)
    requires k <= |parts| && forall i :: 0 <= i < k ==> !StartsWith(parts[i], name)
    requires k < |parts| ==> StartsWith(parts[k], name)
    ensures Clause(parts, name) == if k < |parts| then parts[k].items[1..] else []
  {
    if k > 0 {
      ClauseIsFirst(parts[1..], name, k - 1);
    }
  }

  /** What a form of the rules clause contributes. */
  function RuleIn(e: Expr): Option<RuleClause> {
    match e
    case List(items) =>
      if items == [] then None
      else
        (match items[0]
         case List(head) =>
           if head == [] then None
           else
             (match head[0]
              case Symbol(name) => Some(RuleClause(name, head[1..], items[1..]))
              case _ => None)
         case _ => None)
    case _ => None
  }

  /** The rules are those forms that are one, in order. */
  lemma {:induction false} RulesAreInOrder(before: seq<Expr>, e: Expr, after: seq<Expr>)
    ensures RulesOf(before + [e] + after)
            == RulesOf(before) + (match RuleIn(e) case None => [] case Some(rule) => [rule]) + RulesOf(after)
  {
    var es := before + [e] + after;
    if before == [] {
      assert es[0] == e && es[1..] == after;
    } else {
      assert es[0] == before[0] && es[1..] == before[1..] + [e] + after;
      RulesAreInOrder(before[1..], e, after);
    }
  }

  // ----- The answer -----

  /** A find term is an id: a variable when the body binds it to one, any other symbol unless it is a number, and
      every string and quote. */
  ghost predicate AnswersId(term: Expr, body: seq<Expr>, test: ColumnTest, lex: Lexicon) {
    match term
    case Symbol(name) => if IsVariable(name) then Binds(body, name, test, lex) else !lex.isNumber(name)
    case String(_) => true
    case Quote(_) => true
    case List(_) => false
  }

  /** The answer for a find term, by the places in the body. */
  lemma TermIsIdIff(term: Expr, body: seq<Expr>, test: ColumnTest, lex: Lexicon)
    ensures TermIsId(term, IdVars(body, test, lex), lex) <==> AnswersId(term, body, test, lex)
  {
    hide Binds;
    if term.Symbol? {
      IdVarsAre(body, term.name, test, lex);
    }
  }

  function FactsAtom(): Expr {
    List([Symbol("facts_i64"), Symbol("?e"), Symbol("?a"), Symbol("?v")])
  }

  /** The query that lists the integer facts. */
  function FactsQuery(): Expr {
    List([Symbol("query"), Symbol("main"),
          List([Symbol("find"), Symbol("?e"), Symbol("?a"), Symbol("?v")]),
          List([Symbol("where"), FactsAtom()])])
  }

  lemma FactsClauses(lex: Lexicon)
    ensures Clause(PartsOf(FactsQuery()), "where") == [FactsAtom()]
    ensures Table(FactsQuery(), lex) == map[]
  {
    var parts := PartsOf(FactsQuery());
    assert forall i :: 0 <= i < 4 ==> !StartsWith(parts[i], "rules");
    ClauseIsFirst(parts, "rules", 4);
    ClauseIsFirst(parts, "where", 3);
    assert QueryRules(FactsQuery()) == [];
    assert Pass(map[], [], 0, lex) == (map[], false);
  }

  /** `(query main (find ?e ?a ?v) (where (facts_i64 ?e ?a ?v)))` answers id, id, number. */
  lemma FactsValueIsNumber(lex: Lexicon)
    requires !lex.isNumber("facts_i64")
    ensures var test := Reader(Table(FactsQuery(), lex));
            && TermUnder(FactsQuery(), Symbol("?e"), test, lex)
            && TermUnder(FactsQuery(), Symbol("?a"), test, lex)
            && !TermUnder(FactsQuery(), Symbol("?v"), test, lex)
  {
    FactsClauses(lex);
    hide Clause, Table, PartsOf;
    FactsBinds(lex, "?e");
    FactsBinds(lex, "?a");
    FactsBinds(lex, "?v");
  }

  lemma FactsBinds(lex: Lexicon, v: string)
    requires !lex.isNumber("facts_i64") && IsVariable(v)
    ensures v in IdVars([FactsAtom()], Reader(map[]), lex) <==> v == "?e" || v == "?a"
  {
    var args := [Symbol("?e"), Symbol("?a"), Symbol("?v")];
    var test := Reader(map[]);
    assert IdVars([FactsAtom()], test, lex) == CallVars("facts_i64", args, 0, test) by {
      FactsVars(lex);
    }
    CallVarsAre("facts_i64", args, 0, test, v);
    ReaderReads(map[], "facts_i64", 0);
    ReaderReads(map[], "facts_i64", 1);
    ReaderReads(map[], "facts_i64", 2);
    hide Reader, CallVars, IdVars;
    if v == "?e" {
      assert args[0] == Symbol(v) && test("facts_i64", 0 + 0);
    }
    if v == "?a" {
      assert args[1] == Symbol(v) && test("facts_i64", 0 + 1);
    }
  }

  lemma FactsVars(lex: Lexicon)
    requires !lex.isNumber("facts_i64")
    ensures IdVars([FactsAtom()], Reader(map[]), lex)
            == CallVars("facts_i64", [Symbol("?e"), Symbol("?a"), Symbol("?v")], 0, Reader(map[]))
  {
    hide CallVars;
    var items := FactsAtom().items;
    assert items[1..] == [Symbol("?e"), Symbol("?a"), Symbol("?v")];
    assert [FactsAtom()][1..] == [];
  }
}
