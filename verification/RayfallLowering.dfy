/** Lowering of Rayfall forms to canonical forms, each with an explicit exom. */
module RayfallLowering {
  import opened Wrappers
  import opened Text
  import opened RayfallSyntax

  datatype Form =
    | Query(exom: string, clauses: seq<Expr>)
    | Rule(exom: string, clauses: seq<Expr>)
    | AssertFact(exom: string, factId: string, pred: string, value: string)
    | RetractFact(exom: string, factId: string, tuple: Option<(string, string)>)

  datatype LowerError = ExpectedList | ExpectedHead | UnsupportedForm(head: string) | UnsupportedNested(head: string)
                      | InExomNeedsBody | ExpectedSymbolArg | ExpectedStringArg | ExpectedPredicateArg
                      | MissingExom | ConflictingExom | NoClauses | WrongArity

  datatype Options = Options(queryExom: Option<string>, ruleExom: Option<string>)

  type Lowered = Result<seq<Form>, LowerError>

  // ----- Canonical forms as expressions -----

  function ToExpr(f: Form): Expr {
    match f
    case Query(exom, clauses) => List([Symbol("query"), Symbol(exom)] + clauses)
    case Rule(exom, clauses) => List([Symbol("rule"), Symbol(exom)] + clauses)
    case AssertFact(exom, id, pred, value) =>
      List([Symbol("assert-fact"), Symbol(exom), String(id), Quote(Symbol(pred)), String(value)])
    case RetractFact(exom, id, None) => List([Symbol("retract-fact"), Symbol(exom), String(id)])
    case RetractFact(exom, id, Some((pred, value))) =>
      List([Symbol("retract-fact"), Symbol(exom), String(id), Quote(Symbol(pred)), String(value)])
  }

  function EmitForm(f: Form): string {
    Emit(ToExpr(f))
  }

  // ----- Lowering -----

  /** `replace("::", "/")` */
  function Slash(name: string): string {
    if name == "" then ""
    else if |name| >= 2 && name[0] == ':' && name[1] == ':' then "/" + Slash(name[2..])
    else [name[0]] + Slash(name[1..])
  }

  function ResolveExom(explicit: Option<string>, env: Option<string>, default: Option<string>)
    : Result<string, LowerError>
  {
    if env.Some? then
      if explicit.Some? && Slash(explicit.value) != Slash(env.value) then Err(ConflictingExom)
      else Ok(Slash(env.value))
    else if explicit.Some? then Ok(Slash(explicit.value))
    else if default.Some? then Ok(Slash(default.value))
    else Err(MissingExom)
  }

  function ExplicitExom(args: seq<Expr>): Option<string> {
    if args != [] && args[0].Symbol? then Some(args[0].name) else None
  }

  /** The exom and clauses of a `query` or `rule`. */
  function LowerClauses(args: seq<Expr>, env: Option<string>, default: Option<string>)
    : Result<(string, seq<Expr>), LowerError>
  {
    var explicit := ExplicitExom(args);
    var exom := ResolveExom(explicit, env, default);
    var clauses := if explicit.Some? then args[1..] else args;
    if exom.Err? then Err(exom.error)
    else if clauses == [] then Err(NoClauses)
    else Ok((exom.value, clauses))
  }

  function PredicateName(e: Expr): Result<string, LowerError> {
    if e.Quote? && e.inner.Symbol? then Ok(e.inner.name)
    else if e.Symbol? then Ok(e.name)
    else Err(ExpectedPredicateArg)
  }

  function LowerMutation(args: seq<Expr>, env: Option<string>): Result<(string, string, string, string), LowerError> {
    if |args| != 3 && |args| != 4 then Err(WrongArity)
    else if |args| == 4 && !args[0].Symbol? then Err(ExpectedSymbolArg)
    else
      var explicit := if |args| == 4 then Some(args[0].name) else None;
      var rest := if |args| == 4 then args[1..] else args;
      var exom := ResolveExom(explicit, env, None);
      if exom.Err? then Err(exom.error)
      else if !rest[0].String? then Err(ExpectedStringArg)
      else if PredicateName(rest[1]).Err? then Err(PredicateName(rest[1]).error)
      else if !rest[2].String? then Err(ExpectedStringArg)
      else Ok((exom.value, rest[0].text, PredicateName(rest[1]).value, rest[2].text))
  }

  function LowerRetract(args: seq<Expr>, env: Option<string>): Result<Form, LowerError> {
    if |args| > 2 then
      match LowerMutation(args, env)
      case Err(e) => Err(e)
      case Ok((exom, id, pred, value)) => Ok(RetractFact(exom, id, Some((pred, value))))
    else if |args| == 0 then Err(WrongArity)
    else if |args| == 2 && !args[0].Symbol? then Err(ExpectedSymbolArg)
    else
      var explicit := if |args| == 2 then Some(args[0].name) else None;
      var id := args[|args| - 1];
      var exom := ResolveExom(explicit, env, None);
      if exom.Err? then Err(exom.error)
      else if !id.String? then Err(ExpectedStringArg)
      else Ok(RetractFact(exom.value, id.text, None))
  }

  predicate IsLeafHead(head: string) {
    head == "query" || head == "rule" || head == "assert-fact" || head == "retract-fact"
  }

  function LowerLeaf(head: string, args: seq<Expr>, env: Option<string>, options: Options): Result<Form, LowerError>
    requires IsLeafHead(head)
  {
    if head == "query" then
      match LowerClauses(args, env, options.queryExom)
      case Err(e) => Err(e)
      case Ok((exom, clauses)) => Ok(Query(exom, clauses))
    else if head == "rule" then
      match LowerClauses(args, env, options.ruleExom)
      case Err(e) => Err(e)
      case Ok((exom, clauses)) => Ok(Rule(exom, clauses))
    else if head == "assert-fact" then
      match LowerMutation(args, env)
      case Err(e) => Err(e)
      case Ok((exom, id, pred, value)) => Ok(AssertFact(exom, id, pred, value))
    else LowerRetract(args, env)
  }

  function HeadOf(e: Expr): Option<string> {
    if e.List? && e.items != [] && e.items[0].Symbol? then Some(e.items[0].name) else None
  }

  function LowerWithEnv(e: Expr, env: Option<string>, options: Options, insideInExom: bool): Lowered
    decreases e, 0
  {
    if !e.List? then Err(ExpectedList)
    else if HeadOf(e).None? then Err(ExpectedHead)
    else
      var head := HeadOf(e).value;
      if head == "in-exom" then
        if insideInExom then Err(UnsupportedNested(head)) else LowerInExom(e.items, options)
      else if IsLeafHead(head) then
        match LowerLeaf(head, e.items[1..], env, options)
        case Err(err) => Err(err)
        case Ok(f) => Ok([f])
      else if env.Some? then Err(UnsupportedNested(head))
      else Err(UnsupportedForm(head))
  }

  function LowerInExom(items: seq<Expr>, options: Options): Lowered
    decreases items, 1
  {
    if |items| < 3 then Err(InExomNeedsBody)
    else if !items[1].Symbol? then Err(ExpectedSymbolArg)
    else LowerChildren(items[2..], items[1].name, options)
  }

  function LowerChildren(children: seq<Expr>, exom: string, options: Options): Lowered
    decreases children, 0
  {
    if children == [] then Ok([])
    else if HeadOf(children[0]).None? then Err(UnsupportedNested(""))
    else if !IsLeafHead(HeadOf(children[0]).value) then Err(UnsupportedNested(HeadOf(children[0]).value))
    else
      var first := LowerWithEnv(children[0], Some(exom), options, true);
      if first.Err? then first
      else
        var others := LowerChildren(children[1..], exom, options);
        if others.Err? then others else Ok(first.value + others.value)
  }

  /** `lower_top_level` */
  function Lower(e: Expr, options: Options): Lowered {
    LowerWithEnv(e, None, options, false)
  }

  // ----- The slash spelling -----

  predicate NoDoubleColon(s: string) {
    forall i :: 0 <= i < |s| - 1 ==> !(s[i] == ':' && s[i + 1] == ':')
  }

  lemma {:induction false} SlashHasNoDoubleColon(name: string)
    ensures NoDoubleColon(Slash(name))
    ensures Slash(name) != "" && Slash(name)[0] == ':' ==> name[0] == ':' && !(|name| >= 2 && name[1] == ':')
    ensures name != "" ==> Slash(name) != ""
  {
    if name == "" {
    } else {
      if |name| >= 2 && name[0] == ':' && name[1] == ':' {
        SlashHasNoDoubleColon(name[2..]);
      } else {
        SlashHasNoDoubleColon(name[1..]);
      }
    }
  }

  lemma {:induction false} SlashKeepsSlashed(name: string)
    requires NoDoubleColon(name)
    ensures Slash(name) == name
  {
    if name == "" {
    } else {
      forall i | 0 <= i < |name[1..]| - 1
        ensures !(name[1..][i] == ':' && name[1..][i + 1] == ':')
      {
        assert name[1..][i] == name[i + 1] && name[1..][i + 1] == name[i + 2];
      }
      SlashKeepsSlashed(name[1..]);
      assert |name| >= 2 ==> !(name[0] == ':' && name[0 + 1] == ':');
      assert name == [name[0]] + name[1..];
    }
  }

  /** Rewriting `::` to `/` once is enough. */
  lemma {:induction false} SlashIdempotent(name: string)
    ensures Slash(Slash(name)) == Slash(name)
  {
    SlashHasNoDoubleColon(name);
    SlashKeepsSlashed(Slash(name));
  }

  lemma {:induction false} SlashChars(name: string)
    ensures forall i :: 0 <= i < |Slash(name)| ==> Slash(name)[i] == '/' || Slash(name)[i] in name
  {
    if name == "" {
    } else {
      var rest := if |name| >= 2 && name[0] == ':' && name[1] == ':' then name[2..] else name[1..];
      SlashChars(rest);
      assert forall c :: c in rest ==> c in name;
    }
  }

  lemma {:induction false} SlashOfSymbol(name: string)
    requires IsSymbolName(name)
    ensures IsSymbolName(Slash(name))
  {
    SlashChars(name);
    SlashHasNoDoubleColon(name);
  }

  // ----- Canonical forms survive printing, parsing and lowering -----

  predicate IsExom(name: string) {
    IsSymbolName(name) && Slash(name) == name
  }

  predicate AllPrintable(es: seq<Expr>) {
    forall x :: x in es ==> Printable(x)
  }

  /** A canonical form that text can carry. */
  predicate Canonical(f: Form) {
    && IsExom(f.exom)
    && match f
       case Query(_, clauses) => clauses != [] && AllPrintable(clauses)
       case Rule(_, clauses) => clauses != [] && AllPrintable(clauses)
       case AssertFact(_, _, pred, _) => IsSymbolName(pred)
       case RetractFact(_, _, tuple) => tuple.Some? ==> IsSymbolName(tuple.value.0)
  }

  predicate SymbolIfGiven(name: Option<string>) {
    name.Some? ==> IsSymbolName(name.value)
  }

  lemma ResolvedIsExom(explicit: Option<string>, env: Option<string>, default: Option<string>)
    requires SymbolIfGiven(explicit) && SymbolIfGiven(env) && SymbolIfGiven(default)
    requires ResolveExom(explicit, env, default).Ok?
    ensures IsExom(ResolveExom(explicit, env, default).value)
  {
    var source := if env.Some? then env.value else if explicit.Some? then explicit.value else default.value;
    SlashOfSymbol(source);
    SlashIdempotent(source);
  }

  lemma LeafIsCanonical(head: string, args: seq<Expr>, env: Option<string>, options: Options)
    requires IsLeafHead(head) && AllPrintable(args)
    requires SymbolIfGiven(env) && SymbolIfGiven(options.queryExom) && SymbolIfGiven(options.ruleExom)
    requires LowerLeaf(head, args, env, options).Ok?
    ensures Canonical(LowerLeaf(head, args, env, options).value)
  {
    var explicit := ExplicitExom(args);
    assert args != [] ==> args[0] in args;
    if head == "query" {
      ResolvedIsExom(explicit, env, options.queryExom);
    } else if head == "rule" {
      ResolvedIsExom(explicit, env, options.ruleExom);
    } else if head == "assert-fact" || |args| > 2 {
      MutationIsCanonical(args, env);
    } else {
      ResolvedIsExom(if |args| == 2 then Some(args[0].name) else None, env, None);
    }
  }

  lemma MutationIsCanonical(args: seq<Expr>, env: Option<string>)
    requires AllPrintable(args) && SymbolIfGiven(env)
    requires LowerMutation(args, env).Ok?
    ensures IsExom(LowerMutation(args, env).value.0) && IsSymbolName(LowerMutation(args, env).value.2)
  {
    var p := if |args| == 4 then args[2] else args[1];
    assert args[0] in args && p in args;
    assert p.Quote? ==> Printable(p.inner);
    ResolvedIsExom(if |args| == 4 then Some(args[0].name) else None, env, None);
  }

  /** Whatever lowering accepts from parsed source is canonical. */
  lemma {:induction false} LoweredIsCanonical(e: Expr, env: Option<string>, options: Options, inside: bool)
    requires Printable(e)
    requires SymbolIfGiven(env) && SymbolIfGiven(options.queryExom) && SymbolIfGiven(options.ruleExom)
    requires LowerWithEnv(e, env, options, inside).Ok?
    ensures forall f :: f in LowerWithEnv(e, env, options, inside).value ==> Canonical(f)
    decreases e, 0
  {
    var head := HeadOf(e).value;
    assert forall i :: 0 <= i < |e.items| ==> e.items[i] in e.items;
    if head == "in-exom" {
      ChildrenAreCanonical(e.items[2..], e.items[1].name, options);
    } else {
      LeafIsCanonical(head, e.items[1..], env, options);
    }
  }

  lemma {:induction false} ChildrenAreCanonical(children: seq<Expr>, exom: string, options: Options)
    requires AllPrintable(children) && IsSymbolName(exom)
    requires SymbolIfGiven(options.queryExom) && SymbolIfGiven(options.ruleExom)
    requires LowerChildren(children, exom, options).Ok?
    ensures forall f :: f in LowerChildren(children, exom, options).value ==> Canonical(f)
    decreases children, 0
  {
    if children == [] {
    } else {
      LoweredIsCanonical(children[0], Some(exom), options, true);
      ChildrenAreCanonical(children[1..], exom, options);
    }
  }

  lemma CanonicalIsPrintable(f: Form)
    requires Canonical(f)
    ensures Printable(ToExpr(f))
  {
    KeywordsAreNames();
    hide IsSymbolName;
    match f {
      case Query(exom, clauses) => HeadedIsPrintable("query", exom, clauses);
      case Rule(exom, clauses) => HeadedIsPrintable("rule", exom, clauses);
      case AssertFact(exom, id, pred, value) =>
        assert Printable(Symbol(pred));
        HeadedIsPrintable("assert-fact", exom, [String(id), Quote(Symbol(pred)), String(value)]);
        assert ToExpr(f).items
            == [Symbol("assert-fact"), Symbol(exom)] + [String(id), Quote(Symbol(pred)), String(value)];
      case RetractFact(exom, id, None) =>
        HeadedIsPrintable("retract-fact", exom, [String(id)]);
        assert ToExpr(f).items
            == [Symbol("retract-fact"), Symbol(exom)] + [String(id)];
      case RetractFact(exom, id, Some((pred, value))) =>
        assert Printable(Symbol(pred));
        HeadedIsPrintable("retract-fact", exom, [String(id), Quote(Symbol(pred)), String(value)]);
        assert ToExpr(f).items
            == [Symbol("retract-fact"), Symbol(exom)] + [String(id), Quote(Symbol(pred)), String(value)];
    }
  }

  lemma KeywordsAreNames()
    ensures IsSymbolName("query") && IsSymbolName("rule") && IsSymbolName("assert-fact") && IsSymbolName("retract-fact")
  {
  }

  lemma HeadedIsPrintable(keyword: string, exom: string, rest: seq<Expr>)
    requires IsSymbolName(keyword) && IsSymbolName(exom) && forall x :: x in rest ==> Printable(x)
    ensures Printable(List([Symbol(keyword), Symbol(exom)] + rest))
  {
    hide IsSymbolName;
    var items := [Symbol(keyword), Symbol(exom)] + rest;
    assert forall x :: x in items ==> x == Symbol(keyword) || x == Symbol(exom) || x in rest;
  }

  lemma CanonicalLowersToItself(f: Form, options: Options)
    requires Canonical(f)
    ensures Lower(ToExpr(f), options) == Ok([f])
  {
    var e := ToExpr(f);
    var args := e.items[1..];
    assert args[0] == Symbol(f.exom);
    assert LowerLeaf(HeadOf(e).value, args, None, options) == Ok(f) by {
      match f {
        case Query(_, clauses) => assert args[1..] == clauses;
        case Rule(_, clauses) => assert args[1..] == clauses;
        case AssertFact(_, _, _, _) =>
        case RetractFact(_, _, _) =>
      }
    }
  }

  /** A canonical form prints to text that parses back to its expression and lowers back to itself, whatever
      the default exoms. */
  lemma CanonicalRoundTrip(f: Form, options: Options)
    requires Canonical(f)
    ensures ParseOne(EmitForm(f)) == Ok(ToExpr(f))
    ensures Lower(ToExpr(f), options) == Ok([f])
  {
    CanonicalIsPrintable(f);
    PrintedFormParses(ToExpr(f));
    CanonicalLowersToItself(f, options);
  }

  /** Every form lowered from an accepted source, with well-formed default exoms, prints to text that parses
      and lowers back to exactly that form. */
  lemma LoweredRoundTrip(source: string, k: nat, options: Options, f: Form, options': Options)
    requires ParseForms(source).Ok? && k < |ParseForms(source).value|
    requires SymbolIfGiven(options.queryExom) && SymbolIfGiven(options.ruleExom)
    requires Lower(ParseForms(source).value[k], options).Ok?
    requires f in Lower(ParseForms(source).value[k], options).value
    ensures ParseOne(EmitForm(f)).Ok?
    ensures Lower(ParseOne(EmitForm(f)).value, options') == Ok([f])
  {
    ParsedFormsPrintable(source);
    LoweredIsCanonical(ParseForms(source).value[k], None, options, false);
    CanonicalRoundTrip(f, options');
  }

  // ----- in-exom is its children with the exom made explicit -----

  /** The child leaves out its exom argument. */
  predicate OmitsExom(head: string, args: seq<Expr>) {
    if head == "query" || head == "rule" then ExplicitExom(args).None?
    else if head == "assert-fact" then |args| == 3
    else |args| == 1 || |args| == 3
  }

  predicate IsChild(e: Expr) {
    HeadOf(e).Some? && IsLeafHead(HeadOf(e).value)
  }

  /** The child with `exom` put in where it leaves its exom out. */
  function MakeExplicit(e: Expr, exom: string): Expr
    requires IsChild(e)
  {
    if OmitsExom(HeadOf(e).value, e.items[1..]) then List([e.items[0], Symbol(exom)] + e.items[1..]) else e
  }

  /** An exom the child does give spells `exom`. */
  predicate Agrees(e: Expr, exom: string)
    requires IsChild(e)
  {
    var args := e.items[1..];
    OmitsExom(HeadOf(e).value, args) || (args != [] && args[0].Symbol? ==> Slash(args[0].name) == Slash(exom))
  }

  lemma LeafMadeExplicit(head: string, args: seq<Expr>, exom: string, options: Options)
    requires IsLeafHead(head) && OmitsExom(head, args)
    ensures LowerLeaf(head, [Symbol(exom)] + args, None, options) == LowerLeaf(head, args, Some(exom), options)
  {
    var args' := [Symbol(exom)] + args;
    assert args'[0] == Symbol(exom) && args'[1..] == args;
  }

  lemma LeafAlreadyExplicit(head: string, args: seq<Expr>, exom: string, options: Options)
    requires IsLeafHead(head) && !OmitsExom(head, args)
    ensures (args != [] && args[0].Symbol? ==> Slash(args[0].name) == Slash(exom)) ==>
              LowerLeaf(head, args, Some(exom), options) == LowerLeaf(head, args, None, options)
    ensures args != [] && args[0].Symbol? && Slash(args[0].name) != Slash(exom) ==>
              LowerLeaf(head, args, Some(exom), options).Err?
  {
  }

  /** One child: lowered inside the block as its explicit form is outside, unless its own exom conflicts. */
  lemma ChildMadeExplicit(e: Expr, exom: string, options: Options)
    requires IsChild(e)
    ensures if Agrees(e, exom)
            then LowerWithEnv(e, Some(exom), options, true) == Lower(MakeExplicit(e, exom), options)
            else LowerWithEnv(e, Some(exom), options, true).Err?
  {
    var head, args := HeadOf(e).value, e.items[1..];
    if OmitsExom(head, args) {
      LeafMadeExplicit(head, args, exom, options);
      var e' := MakeExplicit(e, exom);
      assert e'.items[0] == e.items[0] && e'.items[1..] == [Symbol(exom)] + args;
    } else {
      LeafAlreadyExplicit(head, args, exom, options);
    }
  }

  /** Lowering of several forms, in order. */
  function LowerAll(es: seq<Expr>, options: Options): Lowered {
    if es == [] then Ok([])
    else
      var first := Lower(es[0], options);
      if first.Err? then first
      else
        var others := LowerAll(es[1..], options);
        if others.Err? then others else Ok(first.value + others.value)
  }

  predicate AllAgree(children: seq<Expr>, exom: string) {
    forall i :: 0 <= i < |children| ==> IsChild(children[i]) && Agrees(children[i], exom)
  }

  function AllExplicit(children: seq<Expr>, exom: string): seq<Expr>
    requires AllAgree(children, exom)
  {
    if children == [] then [] else [MakeExplicit(children[0], exom)] + AllExplicit(children[1..], exom)
  }

  lemma {:induction false} ChildrenMadeExplicit(children: seq<Expr>, exom: string, options: Options)
    ensures LowerChildren(children, exom, options).Ok? ==> AllAgree(children, exom)
    ensures AllAgree(children, exom) ==>
              LowerChildren(children, exom, options) == LowerAll(AllExplicit(children, exom), options)
  {
    if children == [] {
    } else {
      ChildrenMadeExplicit(children[1..], exom, options);
      if IsChild(children[0]) {
        ChildMadeExplicit(children[0], exom, options);
      }
      if AllAgree(children[1..], exom) && IsChild(children[0]) && Agrees(children[0], exom) {
        forall i | 0 <= i < |children|
          ensures IsChild(children[i]) && Agrees(children[i], exom)
        {
          assert i > 0 ==> children[i] == children[1..][i - 1];
        }
      }
      if AllAgree(children, exom) {
        assert children[0] == children[0];
        assert AllExplicit(children, exom)[1..] == AllExplicit(children[1..], exom);
      }
    }
  }

  /** An `in-exom` block is accepted exactly when every child is a query, rule, assertion or retraction that
      does not name another exom and their explicit spellings are accepted one after the other; it then
      lowers to what they lower to, in order. */
  lemma InExomIsItsChildren(exom: string, children: seq<Expr>, options: Options, forms: seq<Form>)
    requires children != []
    ensures Lower(List([Symbol("in-exom"), Symbol(exom)] + children), options) == Ok(forms)
            <==> AllAgree(children, exom) && LowerAll(AllExplicit(children, exom), options) == Ok(forms)
  {
    var items := [Symbol("in-exom"), Symbol(exom)] + children;
    assert items[2..] == children && items[1] == Symbol(exom);
    assert HeadOf(List(items)) == Some("in-exom");
    assert Lower(List(items), options) == LowerInExom(items, options) == LowerChildren(children, exom, options);
    ChildrenMadeExplicit(children, exom, options);
  }
}
