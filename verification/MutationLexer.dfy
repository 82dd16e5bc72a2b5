/** `parse_fact_mutation_args`: the hand-written lexer over the inside of a fact mutation, and exactly when it
    reads back what the printer wrote. */
module MutationLexer {
  import opened FormSplitter
  import Lowering = RayfallLowering
  import opened RayfallSyntax
  import opened Text
  import opened Wrappers

  datatype LexError = ExpectedToken | ExpectedString | UnclosedString | ExpectedQuotedSymbol

  datatype MutationArgs = MutationArgs(exom: string, entity: string, pred: string, value: string)

  // ----- The tokens, on what is left of the input -----

  /** Only an escaped quote is undone. */
  function UnescapeQuotes(s: string): string {
    if s == "" then ""
    else if s[0] == '\\' && |s| > 1 && s[1] == '"' then "\"" + UnescapeQuotes(s[2..])
    else [s[0]] + UnescapeQuotes(s[1..])
  }

  function TokenLength(s: string): (n: nat)
    ensures n <= |s|
  {
    if s == "" || IsAsciiWhitespace(s[0]) || s[0] == ')' then 0 else 1 + TokenLength(s[1..])
  }

  /** Where the string after an opening quote closes. */
  function RawLength(s: string): (n: Option<nat>)
    ensures n.Some? ==> n.value < |s| && s[n.value] == '"'
  {
    if s == "" then None
    else if s[0] == '\\' then
      if |s| == 1 then None
      else
        var n := RawLength(s[2..]);
        if n.None? then n else Some(n.value + 2)
    else if s[0] == '"' then Some(0)
    else
      var n := RawLength(s[1..]);
      if n.None? then n else Some(n.value + 1)
  }

  function NextString(s: string): Result<(string, string), LexError> {
    var t := SkipAscii(s);
    if t == "" || t[0] != '"' then Err(ExpectedString)
    else
      var n := RawLength(t[1..]);
      if n.None? then Err(UnclosedString)
      else Ok((UnescapeQuotes(t[1..][..n.value]), t[1..][n.value + 1..]))
  }

  function NextToken(s: string): Result<(string, string), LexError> {
    var t := SkipAscii(s);
    if t == "" then Err(ExpectedToken)
    else if t[0] == '"' then NextString(t)
    else Ok((t[..TokenLength(t)], t[TokenLength(t)..]))
  }

  function NextQuotedSymbol(s: string): Result<(string, string), LexError> {
    var t := SkipAscii(s);
    if t == "" then Err(ExpectedQuotedSymbol)
    else NextToken(if t[0] == '\'' then t[1..] else t)
  }

  function ParseMutation(inner: string): Result<MutationArgs, LexError> {
    var exom :- NextToken(Trim(inner));
    var entity :- NextString(exom.1);
    var pred :- NextQuotedSymbol(entity.1);
    var value :- NextString(pred.1);
    Ok(MutationArgs(exom.0, entity.0, pred.0, value.0))
  }

  // ----- The loops -----

  function Shifted(offset: nat, n: Option<nat>): Option<nat> {
    if n.None? then None else Some(offset + n.value)
  }

  /** Where a string that goes on at `i` closes, counted from the start of `s`. */
  function CloseFrom(s: string, i: nat): Option<nat> {
    if i <= |s| then Shifted(i, RawLength(s[i..])) else None
  }

  lemma CloseStep(s: string, i: nat)
    requires i < |s|
    ensures CloseFrom(s, i) == if s[i] == '\\' then CloseFrom(s, i + 2)
                               else if s[i] == '"' then Some(i)
                               else CloseFrom(s, i + 1)
  {
    assert s[i..][1..] == s[i + 1..];
    if i + 1 < |s| {
      assert s[i..][2..] == s[i + 2..];
    }
  }

  /** Index of the closing quote. An escape at the very end carries the index past it. */
  method FindClosingQuote(s: string, start: nat) returns (r: Option<nat>)
    requires start <= |s|
    ensures r == CloseFrom(s, start)
  {
    hide CloseFrom;
    var i := start;
    while i < |s|
      invariant start <= i <= |s| + 1
      invariant CloseFrom(s, start) == CloseFrom(s, i)
    {
      CloseStep(s, i);
      if s[i] == '\\' {
        i := i + 2;
        continue;
      }
      if s[i] == '"' {
        return Some(i);
      }
      i := i + 1;
    }
    PastEnd(s, i);
    return None;
  }

  lemma PastEnd(s: string, i: nat)
    requires i >= |s|
    ensures CloseFrom(s, i) == None
  {
  }

  method ScanToken(s: string, start: nat) returns (i: nat)
    requires start <= |s|
    ensures i == start + TokenLength(s[start..])
  {
    i := start;
    while i < |s| && !IsAsciiWhitespace(s[i]) && s[i] != ')'
      invariant start <= i <= |s|
      invariant i - start + TokenLength(s[i..]) == TokenLength(s[start..])
    {
      assert s[i..][1..] == s[i + 1..];
      i := i + 1;
    }
  }

  lemma TokenFound(before: string, s: string, i: nat)
    requires i <= |s| && s[i..] == SkipAscii(before)
    ensures i == |s| ==> NextToken(before) == Err(ExpectedToken)
    ensures i < |s| && s[i] == '"' ==> NextToken(before) == NextString(s[i..])
    ensures i < |s| && s[i] != '"' ==>
              var end := i + TokenLength(s[i..]); NextToken(before) == Ok((s[i..end], s[end..]))
  {
    hide NextString, SkipAscii;
    if i < |s| {
      var t := s[i..];
      var n := TokenLength(t);
      assert t[..n] == s[i..i + n] && t[n..] == s[i + n..];
    }
  }

  lemma NotAString(before: string)
    requires SkipAscii(before) == "" || SkipAscii(before)[0] != '"'
    ensures NextString(before) == Err(ExpectedString)
  {
  }

  /** What the index of the closing quote says about the string literal at `i`. */
  lemma StringFound(before: string, s: string, i: nat, end: Option<nat>)
    requires i < |s| && s[i] == '"' && s[i..] == SkipAscii(before)
    requires end == CloseFrom(s, i + 1)
    ensures end.None? ==> NextString(before) == Err(UnclosedString)
    ensures end.Some? ==> i < end.value < |s|
    ensures end.Some? ==> NextString(before) == Ok((UnescapeQuotes(s[i + 1..end.value]), s[end.value + 1..]))
  {
    hide UnescapeQuotes, SkipAscii;
    var body := s[i..][1..];
    assert body == s[i + 1..];
    if end.Some? {
      assert s[i + 1..end.value] == body[..end.value - (i + 1)];
      assert s[end.value + 1..] == body[end.value - (i + 1) + 1..];
    }
  }

  /** A token read as specified; after a failure the rest does not matter. */
  predicate Reads(spec: Result<(string, string), LexError>, r: Result<string, LexError>, rest: string) {
    match spec
    case Err(e) => r == Err(e)
    case Ok((text, after)) => r == Ok(text) && rest == after
  }

  // ----- The lexer object -----

  class Lexer {
    const s: string
    var i: nat

    ghost predicate Valid()
      reads this
    {
      i <= |s|
    }

    function Rest(): string
      requires Valid()
      reads this
    {
      s[i..]
    }

    constructor (source: string)
      ensures Valid() && Rest() == Trim(source)
    {
      s := Trim(source);
      i := 0;
    }

    method SkipSpaces()
      requires Valid()
      modifies this
      ensures Valid() && Rest() == SkipAscii(old(Rest()))
    {
      while i < |s| && IsAsciiWhitespace(s[i])
        invariant Valid()
        invariant SkipAscii(Rest()) == SkipAscii(old(Rest()))
      {
        assert Rest()[1..] == s[i + 1..];
        i := i + 1;
      }
    }

    method TakeString() returns (r: Result<string, LexError>)
      requires Valid()
      modifies this
      ensures Valid() && Reads(NextString(old(Rest())), r, Rest())
    {
      hide NextString, UnescapeQuotes, RawLength, SkipAscii, CloseFrom;
      ghost var before := Rest();
      SkipSpaces();
      if i >= |s| || s[i] != '"' {
        NotAString(before);
        return Err(ExpectedString);
      }
      var end := FindClosingQuote(s, i + 1);
      StringFound(before, s, i, end);
      if end.None? {
        return Err(UnclosedString);
      }
      r := Ok(UnescapeQuotes(s[i + 1..end.value]));
      i := end.value + 1;
    }

    method TakeToken() returns (r: Result<string, LexError>)
      requires Valid()
      modifies this
      ensures Valid() && Reads(NextToken(old(Rest())), r, Rest())
    {
      hide NextToken, NextString, TokenLength, SkipAscii;
      SkipSpaces();
      TokenFound(old(Rest()), s, i);
      if i >= |s| {
        return Err(ExpectedToken);
      }
      if s[i] == '"' {
        r := TakeString();
        return;
      }
      var start := i;
      i := ScanToken(s, start);
      return Ok(s[start..i]);
    }

    method TakeQuotedSymbol() returns (r: Result<string, LexError>)
      requires Valid()
      modifies this
      ensures Valid() && Reads(NextQuotedSymbol(old(Rest())), r, Rest())
    {
      hide NextToken, SkipAscii;
      SkipSpaces();
      if i >= |s| {
        return Err(ExpectedQuotedSymbol);
      }
      if s[i] == '\'' {
        assert Rest()[1..] == s[i + 1..];
        i := i + 1;
      }
      r := TakeToken();
    }
  }

  /** `parse_fact_mutation_args` */
  method ParseMutationArgs(inner: string) returns (r: Result<MutationArgs, LexError>)
    ensures r == ParseMutation(inner)
  {
    hide NextToken, NextString, NextQuotedSymbol;
    var lexer := new Lexer(inner);
    var exom :- lexer.TakeToken();
    var entity :- lexer.TakeString();
    var pred :- lexer.TakeQuotedSymbol();
    var value :- lexer.TakeString();
    return Ok(MutationArgs(exom, entity, pred, value));
  }

  // ----- What becomes of an escaped string -----

  /** Characters whose escape the lexer leaves spelled out. */
  predicate StaysEscaped(c: char) {
    c == '\\' || c == '\n' || c == '\r' || c == '\t'
  }

  function Spelled(c: char): string {
    if StaysEscaped(c) then EscapeChar(c) else [c]
  }

  /** The text as the lexer reads it. */
  function SpelledOut(text: string): (r: string)
    ensures |r| >= |text|
  {
    if text == "" then "" else Spelled(text[0]) + SpelledOut(text[1..])
  }

  lemma EscapeStart(text: string)
    ensures EscapeString(text) != "" ==> EscapeString(text)[0] != '"'
  {
  }

  /** An escape is the character itself or a backslash and one more. */
  lemma EscapeShape(c: char)
    ensures (EscapeChar(c) == [c] && c != '\\' && c != '"' && !StaysEscaped(c))
            || (|EscapeChar(c)| == 2 && EscapeChar(c)[0] == '\\'
                && (EscapeChar(c)[1] == '"' <==> c == '"') && (c == '"' || StaysEscaped(c)))
  {
  }

  lemma UnescapePlain(c: char, tail: string)
    requires c != '\\' || tail == "" || tail[0] != '"'
    ensures UnescapeQuotes([c] + tail) == [c] + UnescapeQuotes(tail)
  {
    assert ([c] + tail)[1..] == tail;
  }

  lemma UnescapeQuote(tail: string)
    ensures UnescapeQuotes(['\\', '"'] + tail) == "\"" + UnescapeQuotes(tail)
  {
    assert (['\\', '"'] + tail)[2..] == tail;
  }

  lemma UnescapeOne(c: char, tail: string)
    requires tail != "" ==> tail[0] != '"'
    ensures UnescapeQuotes(EscapeChar(c) + tail) == Spelled(c) + UnescapeQuotes(tail)
  {
    hide EscapeChar, UnescapeQuotes;
    EscapeShape(c);
    var esc := EscapeChar(c);
    if |esc| == 1 {
      UnescapePlain(c, tail);
    } else if c == '"' {
      assert esc == ['\\', '"'];
      UnescapeQuote(tail);
    } else {
      assert esc + tail == [esc[0]] + ([esc[1]] + tail);
      UnescapePlain(esc[0], [esc[1]] + tail);
      UnescapePlain(esc[1], tail);
      assert [esc[0]] + ([esc[1]] + UnescapeQuotes(tail)) == esc + UnescapeQuotes(tail);
    }
  }

  lemma {:induction false} UnescapeEscaped(text: string)
    ensures UnescapeQuotes(EscapeString(text)) == SpelledOut(text)
  {
    hide UnescapeQuotes, EscapeChar;
    if text == "" {
      UnescapeNothing();
    } else {
      EscapeStart(text[1..]);
      UnescapeOne(text[0], EscapeString(text[1..]));
      UnescapeEscaped(text[1..]);
    }
  }

  lemma UnescapeNothing()
    ensures UnescapeQuotes("") == ""
  {
  }

  lemma {:induction false} SpelledOutIsSameIff(text: string)
    ensures SpelledOut(text) == text <==> forall c :: c in text ==> !StaysEscaped(c)
    ensures SpelledOut(text) != text ==> |SpelledOut(text)| > |text|
  {
    if text == "" {
    } else {
      SpelledOutIsSameIff(text[1..]);
      assert text == [text[0]] + text[1..];
      if StaysEscaped(text[0]) {
        assert text[0] in text;
      } else {
        assert SpelledOut(text)[1..] == SpelledOut(text[1..]);
      }
    }
  }

  // ----- Printed mutations -----

  lemma RawAtClose(s: string)
    requires s != "" && s[0] == '"'
    ensures RawLength(s) == Some(0)
  {
  }

  lemma {:induction false} RawLengthOf(text: string, rest: string)
    ensures RawLength(EscapeString(text) + ("\"" + rest)) == Some(|EscapeString(text)|)
  {
    hide EscapeChar, RawLength;
    var close := "\"" + rest;
    if text == "" {
      assert EscapeString(text) + close == close;
      RawAtClose(close);
    } else {
      var esc, tail := EscapeChar(text[0]), EscapeString(text[1..]) + close;
      RawLengthOf(text[1..], rest);
      assert EscapeString(text) + close == esc + tail;
      RawAfterEscaped(text[0], tail);
    }
  }

  lemma RawAtPlain(s: string)
    requires s != "" && s[0] != '\\' && s[0] != '"'
    ensures RawLength(s) == Shifted(1, RawLength(s[1..]))
  {
  }

  lemma RawAfterPlain(c: char, tail: string)
    requires c != '\\' && c != '"'
    ensures RawLength([c] + tail) == Shifted(1, RawLength(tail))
  {
    hide RawLength;
    assert ([c] + tail)[1..] == tail;
    RawAtPlain([c] + tail);
  }

  lemma RawAtEscape(s: string)
    requires |s| > 1 && s[0] == '\\'
    ensures RawLength(s) == Shifted(2, RawLength(s[2..]))
  {
  }

  lemma RawAfterPair(pair: string, tail: string)
    requires |pair| == 2 && pair[0] == '\\'
    ensures RawLength(pair + tail) == Shifted(2, RawLength(tail))
  {
    hide RawLength;
    assert (pair + tail)[2..] == tail;
    RawAtEscape(pair + tail);
  }

  lemma RawAfterEscaped(c: char, tail: string)
    requires RawLength(tail).Some?
    ensures RawLength(EscapeChar(c) + tail) == Some(|EscapeChar(c)| + RawLength(tail).value)
  {
    hide EscapeChar, RawLength;
    EscapeShape(c);
    var esc := EscapeChar(c);
    if |esc| == 1 {
      RawAfterPlain(c, tail);
    } else {
      RawAfterPair(esc, tail);
    }
  }

  lemma OneSpaceSkipped(t: string)
    requires t != "" && !IsAsciiWhitespace(t[0])
    ensures SkipAscii(t) == t && SkipAscii(" " + t) == t
  {
    assert (" " + t)[1..] == t;
  }

  /** A printed string, perhaps after a space, is read up to its closing quote. */
  lemma StringToken(text: string, rest: string)
    ensures NextString(Emit(String(text)) + rest) == Ok((SpelledOut(text), rest))
    ensures NextString(" " + (Emit(String(text)) + rest)) == Ok((SpelledOut(text), rest))
  {
    var esc := EscapeString(text);
    var t := Emit(String(text)) + rest;
    hide EscapeString, UnescapeQuotes, SpelledOut, SkipAscii;
    assert t[1..] == esc + ("\"" + rest);
    RawLengthOf(text, rest);
    UnescapeEscaped(text);
    assert t[1..][..|esc|] == esc && t[1..][|esc| + 1..] == rest;
    OneSpaceSkipped(t);
  }

  lemma {:induction false} TokenLengthOf(name: string, rest: string)
    requires forall i :: 0 <= i < |name| ==> IsSymbolChar(name[i])
    requires rest == "" || IsAsciiWhitespace(rest[0])
    ensures TokenLength(name + rest) == |name|
  {
    if name == "" {
      assert name + rest == rest;
    } else {
      assert (name + rest)[1..] == name[1..] + rest;
      TokenLengthOf(name[1..], rest);
    }
  }

  lemma SymbolToken(name: string, rest: string)
    requires IsSymbolName(name) && (rest == "" || IsAsciiWhitespace(rest[0]))
    ensures NextToken(name + rest) == Ok((name, rest))
  {
    var t := name + rest;
    assert t[0] == name[0] && !IsAsciiWhitespace(t[0]);
    TokenLengthOf(name, rest);
  }

  lemma QuotedToken(name: string, rest: string)
    requires IsSymbolName(name) && (rest == "" || IsAsciiWhitespace(rest[0]))
    ensures NextQuotedSymbol(" " + ("'" + name + rest)) == Ok((name, rest))
  {
    hide NextToken, SkipAscii;
    var t := "'" + name + rest;
    OneSpaceSkipped(t);
    assert t[1..] == name + rest;
    SymbolToken(name, rest);
  }

  /** `(assert-fact exom "entity" 'predicate "value")` and its retract form. */
  function MutationForm(op: string, args: MutationArgs): Expr {
    List([Symbol(op), Symbol(args.exom), String(args.entity), Quote(Symbol(args.pred)), String(args.value)])
  }

  /** The mutation's arguments with entity and value spelled out. */
  function SpelledArgs(args: MutationArgs): MutationArgs {
    args.(entity := SpelledOut(args.entity), value := SpelledOut(args.value))
  }

  lemma ItemsAfter(first: Expr, others: seq<Expr>)
    requires others != []
    ensures EmitItems([first] + others) == Emit(first) + (" " + EmitItems(others))
  {
    hide Emit;
    assert ([first] + others)[1..] == others;
  }

  lemma OneItem(e: Expr)
    ensures EmitItems([e]) == Emit(e)
  {
  }

  lemma PrintedArgs(args: MutationArgs)
    ensures var entity, value := Emit(String(args.entity)), Emit(String(args.value));
            EmitItems([Symbol(args.exom), String(args.entity), Quote(Symbol(args.pred)), String(args.value)])
            == args.exom + (" " + (entity + (" " + ("'" + args.pred + (" " + value)))))
  {
    var e0, e1, e2, e3 := Symbol(args.exom), String(args.entity), Quote(Symbol(args.pred)), String(args.value);
    assert Emit(e0) == args.exom && Emit(e2) == "'" + args.pred;
    hide Emit, EmitItems;
    OneItem(e3);
    ItemsAfter(e2, [e3]);
    ItemsAfter(e1, [e2, e3]);
    ItemsAfter(e0, [e1, e2, e3]);
    assert [e2] + [e3] == [e2, e3] && [e1] + [e2, e3] == [e1, e2, e3] && [e0] + [e1, e2, e3] == [e0, e1, e2, e3];
  }

  lemma ArgsLex(args: MutationArgs)
    requires IsSymbolName(args.exom) && IsSymbolName(args.pred)
    ensures var entity, value := Emit(String(args.entity)), Emit(String(args.value));
            var text := args.exom + (" " + (entity + (" " + ("'" + args.pred + (" " + value))))) + ")";
            Trim(text) == text && ParseMutation(text) == Ok(SpelledArgs(args))
  {
    var entity, value := Emit(String(args.entity)), Emit(String(args.value));
    var afterPredicate := " " + (value + ")");
    var afterEntity := " " + ("'" + args.pred + afterPredicate);
    var afterExom := " " + (entity + afterEntity);
    var text := args.exom + afterExom;
    assert text == args.exom + (" " + (entity + (" " + ("'" + args.pred + (" " + value))))) + ")";
    hide NextToken, NextString, NextQuotedSymbol, Emit, SpelledOut;
    TrimmedAlready(text);
    SymbolToken(args.exom, afterExom);
    StringToken(args.entity, afterEntity);
    QuotedToken(args.pred, afterPredicate);
    StringToken(args.value, ")");
  }

  lemma MutationNames(op: string, args: MutationArgs)
    requires Printable(MutationForm(op, args))
    ensures IsSymbolName(args.exom) && IsSymbolName(args.pred)
  {
    var items := MutationForm(op, args).items;
    assert Printable(items[1]) && Printable(items[3]) && Printable(items[3].inner);
  }

  lemma FormLexes(op: string, args: MutationArgs)
    requires Printable(MutationForm(op, args))
    ensures ParseMutation(InnerAfterSymbol(Emit(MutationForm(op, args)))) == Ok(SpelledArgs(args))
  {
    hide ParseMutation, InnerAfterSymbol, SpelledArgs, Emit, EmitItems, Printable, IsSymbolName;
    MutationNames(op, args);
    var items := MutationForm(op, args).items;
    assert items[1..] == [Symbol(args.exom), String(args.entity), Quote(Symbol(args.pred)), String(args.value)];
    InnerOfPrinted(items);
    PrintedArgs(args);
    ArgsLex(args);
  }

  // ----- Canonical mutations -----

  /** The canonical forms that name a whole fact. */
  predicate IsMutation(f: Lowering.Form) {
    f.AssertFact? || (f.RetractFact? && f.tuple.Some?)
  }

  function ArgsOf(f: Lowering.Form): MutationArgs
    requires IsMutation(f)
  {
    match f
    case AssertFact(exom, id, pred, value) => MutationArgs(exom, id, pred, value)
    case RetractFact(exom, id, tuple) => MutationArgs(exom, id, tuple.value.0, tuple.value.1)
  }

  lemma FormOfMutation(f: Lowering.Form)
    requires Lowering.Canonical(f) && IsMutation(f)
    ensures var op := if f.AssertFact? then "assert-fact" else "retract-fact";
            Lowering.ToExpr(f) == MutationForm(op, ArgsOf(f)) && Printable(MutationForm(op, ArgsOf(f)))
  {
    Lowering.CanonicalIsPrintable(f);
  }

  /** From a printed mutation the splitter tells its kind, and the splitter and the lexer together recover its
      arguments, spelled out. */
  lemma PrintedMutationLexes(f: Lowering.Form)
    requires Lowering.Canonical(f) && IsMutation(f)
    ensures Classify(Lowering.EmitForm(f)) == if f.AssertFact? then AssertFact else RetractFact
    ensures ParseMutation(InnerAfterSymbol(Lowering.EmitForm(f))) == Ok(SpelledArgs(ArgsOf(f)))
  {
    hide ParseMutation, InnerAfterSymbol, Classify, Emit, SpelledArgs;
    FormOfMutation(f);
    FormLexes(if f.AssertFact? then "assert-fact" else "retract-fact", ArgsOf(f));
    KindOfPrinted(Lowering.ToExpr(f).items);
  }

  /** The lexer agrees with the printed mutation exactly when neither string holds a backslash, a line feed,
      a carriage return or a tab. */
  lemma MutationAgreesIff(f: Lowering.Form)
    requires Lowering.Canonical(f) && IsMutation(f)
    ensures ParseMutation(InnerAfterSymbol(Lowering.EmitForm(f))) == Ok(ArgsOf(f))
            <==> forall c :: c in ArgsOf(f).entity + ArgsOf(f).value ==> !StaysEscaped(c)
  {
    hide ParseMutation, InnerAfterSymbol, SpelledOut, Lowering.EmitForm, Lowering.Canonical;
    var args := ArgsOf(f);
    PrintedMutationLexes(f);
    SpelledOutIsSameIff(args.entity);
    SpelledOutIsSameIff(args.value);
    assert forall c :: c in args.entity + args.value <==> c in args.entity || c in args.value;
  }
}
