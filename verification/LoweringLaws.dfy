/** What a single form lowers to: which exom it gets, and which argument refuses it. */
module LoweringLaws {
  import opened Wrappers
  import opened RayfallSyntax
  import opened RayfallLowering

  function Headed(head: string, args: seq<Expr>): Expr {
    List([Symbol(head)] + args)
  }

  lemma HeadedLeaf(head: string, args: seq<Expr>, options: Options)
    requires IsLeafHead(head)
    ensures Lower(Headed(head, args), options)
            == match LowerLeaf(head, args, None, options)
               case Err(e) => Err(e)
               case Ok(f) => Ok([f])
  {
    hide LowerLeaf;
    var e := Headed(head, args);
    assert e.items[1..] == args && HeadOf(e) == Some(head);
  }

  // ----- The slash spelling -----

  /** The leftmost `::` becomes a slash, and the rest is rewritten in turn. */
  lemma {:induction false} SlashReplacesFirst(a: string, b: string)
    requires NoDoubleColon(a + ":")
    ensures Slash(a + ("::" + b)) == a + ("/" + Slash(b))
  {
    var s := a + ("::" + b);
    if a == "" {
      assert s == "::" + b && s[2..] == b;
      assert a + ("/" + Slash(b)) == "/" + Slash(b);
    } else {
      assert s[0] == (a + ":")[0] && s[1] == (a + ":")[1];
      assert s[1..] == a[1..] + ("::" + b);
      forall i | 0 <= i < |a[1..] + ":"| - 1
        ensures !((a[1..] + ":")[i] == ':' && (a[1..] + ":")[i + 1] == ':')
      {
        assert (a[1..] + ":")[i] == (a + ":")[i + 1] && (a[1..] + ":")[i + 1] == (a + ":")[i + 2];
      }
      SlashReplacesFirst(a[1..], b);
      assert !((a + ":")[0] == ':' && (a + ":")[0 + 1] == ':');
      assert a + ("/" + Slash(b)) == [a[0]] + (a[1..] + ("/" + Slash(b)));
    }
  }

  // ----- Forms that give no exom -----

  /** A query without an exom gets the query default, whatever the rule default is. */
  lemma QueryByDefault(clauses: seq<Expr>, options: Options)
    requires clauses != [] && !clauses[0].Symbol?
    ensures Lower(Headed("query", clauses), options)
            == match options.queryExom
               case None => Err(MissingExom)
               case Some(exom) => Ok([Query(Slash(exom), clauses)])
  {
    HeadedLeaf("query", clauses, options);
    hide Slash;
  }

  /** A rule without an exom gets the rule default, whatever the query default is. */
  lemma RuleByDefault(clauses: seq<Expr>, options: Options)
    requires clauses != [] && !clauses[0].Symbol?
    ensures Lower(Headed("rule", clauses), options)
            == match options.ruleExom
               case None => Err(MissingExom)
               case Some(exom) => Ok([Rule(Slash(exom), clauses)])
  {
    HeadedLeaf("rule", clauses, options);
    hide Slash;
  }

  /** Fact mutations have no default exom. */
  lemma MutationNeedsExom(head: string, args: seq<Expr>, options: Options)
    requires head == "assert-fact" || head == "retract-fact"
    requires |args| == 3 || (head == "retract-fact" && |args| == 1)
    ensures Lower(Headed(head, args), options) == Err(MissingExom)
  {
    HeadedLeaf(head, args, options);
  }

  // ----- Forms that give one -----

  /** A given exom is taken in its slash spelling, whatever the defaults; what is left must not be empty. */
  lemma GivenExomIsTaken(exom: string, clauses: seq<Expr>, options: Options)
    ensures Lower(Headed("query", [Symbol(exom)] + clauses), options)
            == if clauses == [] then Err(NoClauses) else Ok([Query(Slash(exom), clauses)])
    ensures Lower(Headed("rule", [Symbol(exom)] + clauses), options)
            == if clauses == [] then Err(NoClauses) else Ok([Rule(Slash(exom), clauses)])
  {
    var args := [Symbol(exom)] + clauses;
    assert args[1..] == clauses;
    HeadedLeaf("query", args, options);
    HeadedLeaf("rule", args, options);
    hide Slash;
  }

  lemma NoArgumentsAtAll(options: Options)
    ensures Lower(Headed("query", []), options) == Err(if options.queryExom.None? then MissingExom else NoClauses)
    ensures Lower(Headed("rule", []), options) == Err(if options.ruleExom.None? then MissingExom else NoClauses)
    ensures Lower(Headed("retract-fact", []), options) == Err(WrongArity)
  {
    HeadedLeaf("query", [], options);
    HeadedLeaf("rule", [], options);
    HeadedLeaf("retract-fact", [], options);
  }

  /** The name by which a predicate argument goes: a symbol, quoted or not. */
  function PredicateOf(e: Expr): Option<string> {
    match e
    case Symbol(name) => Some(name)
    case Quote(Symbol(name)) => Some(name)
    case _ => None
  }

  /** What is wrong with the arguments of a mutation, in the order in which they are looked at. */
  function MutationError(exom: Expr, id: Expr, pred: Expr, value: Expr): Option<LowerError> {
    if !exom.Symbol? then Some(ExpectedSymbolArg)
    else if !id.String? then Some(ExpectedStringArg)
    else if PredicateOf(pred).None? then Some(ExpectedPredicateArg)
    else if !value.String? then Some(ExpectedStringArg)
    else None
  }

  /** A mutation with four arguments is refused for the first wrong one, or else takes them in order. */
  lemma MutationTakesArguments(exom: Expr, id: Expr, pred: Expr, value: Expr, options: Options)
    ensures var args := [exom, id, pred, value];
            var error := MutationError(exom, id, pred, value);
            if error.Some?
            then Lower(Headed("assert-fact", args), options) == Err(error.value)
                 && Lower(Headed("retract-fact", args), options) == Err(error.value)
            else
              var name := PredicateOf(pred).value;
              && Lower(Headed("assert-fact", args), options)
                 == Ok([AssertFact(Slash(exom.name), id.text, name, value.text)])
              && Lower(Headed("retract-fact", args), options)
                 == Ok([RetractFact(Slash(exom.name), id.text, Some((name, value.text)))])
  {
    var args := [exom, id, pred, value];
    assert args[1..] == [id, pred, value];
    HeadedLeaf("assert-fact", args, options);
    HeadedLeaf("retract-fact", args, options);
    hide Slash;
  }

  /** A retraction with two arguments is by exom and id. */
  lemma RetractTakesId(exom: Expr, id: Expr, options: Options)
    ensures Lower(Headed("retract-fact", [exom, id]), options)
            == if !exom.Symbol? then Err(ExpectedSymbolArg)
               else if !id.String? then Err(ExpectedStringArg)
               else Ok([RetractFact(Slash(exom.name), id.text, None)])
  {
    HeadedLeaf("retract-fact", [exom, id], options);
    hide Slash;
  }

  lemma WrongNumberOfArguments(args: seq<Expr>, options: Options)
    ensures |args| != 3 && |args| != 4 ==> Lower(Headed("assert-fact", args), options) == Err(WrongArity)
    ensures |args| > 4 ==> Lower(Headed("retract-fact", args), options) == Err(WrongArity)
  {
    HeadedLeaf("assert-fact", args, options);
    HeadedLeaf("retract-fact", args, options);
  }

  // ----- Everything else is refused -----

  lemma OtherHeads(head: string, args: seq<Expr>, options: Options)
    requires head !in {"in-exom", "query", "rule", "assert-fact", "retract-fact"}
    ensures Lower(Headed(head, args), options) == Err(UnsupportedForm(head))
  {
    assert HeadOf(Headed(head, args)) == Some(head);
  }

  lemma NoForms(e: Expr, options: Options)
    ensures !e.List? ==> Lower(e, options) == Err(ExpectedList)
    ensures e.List? && (e.items == [] || !e.items[0].Symbol?) ==> Lower(e, options) == Err(ExpectedHead)
  {
  }

  /** An `in-exom` block needs a name and a body, and holds no block. */
  lemma BlockRefusals(args: seq<Expr>, options: Options)
    ensures |args| < 2 ==> Lower(Headed("in-exom", args), options) == Err(InExomNeedsBody)
    ensures |args| >= 2 && !args[0].Symbol? ==> Lower(Headed("in-exom", args), options) == Err(ExpectedSymbolArg)
    ensures |args| >= 2 && args[0].Symbol? && HeadOf(args[1]) == Some("in-exom") ==>
              Lower(Headed("in-exom", args), options) == Err(UnsupportedNested("in-exom"))
  {
    var e := Headed("in-exom", args);
    assert HeadOf(e) == Some("in-exom");
    assert Lower(e, options) == LowerInExom(e.items, options);
    if |args| >= 2 {
      assert e.items[1] == args[0] && e.items[2..] == args[1..];
    }
  }

  /** What may not stand in a block is refused by its head, or without a name if it has none. */
  lemma BlockChildRefused(exom: string, child: Expr, others: seq<Expr>, options: Options)
    requires HeadOf(child).None? || HeadOf(child).value !in {"query", "rule", "assert-fact", "retract-fact"}
    ensures Lower(Headed("in-exom", [Symbol(exom), child] + others), options)
            == Err(UnsupportedNested(if HeadOf(child).None? then "" else HeadOf(child).value))
  {
    var e := Headed("in-exom", [Symbol(exom), child] + others);
    assert HeadOf(e) == Some("in-exom");
    assert Lower(e, options) == LowerInExom(e.items, options);
    assert e.items[1] == Symbol(exom) && e.items[2..] == [child] + others;
    assert LowerInExom(e.items, options) == LowerChildren([child] + others, exom, options);
    RefusedChild(child, others, exom, options);
  }

  lemma RefusedChild(child: Expr, others: seq<Expr>, exom: string, options: Options)
    requires HeadOf(child).None? || HeadOf(child).value !in {"query", "rule", "assert-fact", "retract-fact"}
    ensures LowerChildren([child] + others, exom, options)
            == Err(UnsupportedNested(if HeadOf(child).None? then "" else HeadOf(child).value))
  {
    hide HeadOf;
    assert ([child] + others)[0] == child;
  }

  /** Within a block every other head is an unsupported nested one, a further block among them. */
  lemma NestedHeads(head: string, args: seq<Expr>, env: string, options: Options)
    requires head !in {"query", "rule", "assert-fact", "retract-fact"}
    ensures LowerWithEnv(Headed(head, args), Some(env), options, true) == Err(UnsupportedNested(head))
  {
    assert HeadOf(Headed(head, args)) == Some(head);
  }
}
