/** The parser as the object the source defines: a source text and an index that the methods advance. */
module RayfallParser {
  import opened Wrappers
  import opened Text
  import opened RayfallSyntax

  /** Put what has been read so far before the outcome of reading the rest. */
  function After<T>(read: seq<T>, r: Result<(seq<T>, string), ParseError>): Result<(seq<T>, string), ParseError> {
    if r.Err? then r else Ok((read + r.value.0, r.value.1))
  }

  lemma AfterNothing<T>(r: Result<(seq<T>, string), ParseError>)
    ensures After([], r) == r
  {
    if r.Ok? {
      assert [] + r.value.0 == r.value.0;
    }
  }

  lemma AfterOne<T>(read: seq<T>, x: T, r: Result<(seq<T>, string), ParseError>)
    ensures After(read, After([x], r)) == After(read + [x], r)
  {
    if r.Ok? {
      assert read + ([x] + r.value.0) == (read + [x]) + r.value.0;
    }
  }

  class Parser {
    const source: string
    var index: nat

    ghost predicate Valid()
      reads this
    {
      index <= |source|
    }

    /** What is left of the input. */
    function Rest(): string
      requires Valid()
      reads this
    {
      source[index..]
    }

    constructor (source: string)
      ensures Valid() && this.source == source && Rest() == source
    {
      this.source := source;
      index := 0;
    }

    method SkipBlanks()
      requires Valid()
      modifies this
      ensures Valid() && old(index) <= index
      ensures Rest() == SkipBlank(old(Rest()))
    {
      while index < |source|
        invariant old(index) <= index <= |source|
        invariant SkipBlank(Rest()) == SkipBlank(old(Rest()))
      {
        if index + 1 < |source| && source[index] == ';' && source[index + 1] == ';' {
          ghost var comment := Rest();
          while index < |source| && source[index] != '\n'
            invariant old(index) <= index <= |source|
            invariant SkipLine(Rest()) == SkipLine(comment)
            invariant Rest() == comment || index > |source| - |comment|
          {
            assert Rest()[1..] == source[index + 1..];
            index := index + 1;
          }
          assert Rest() == SkipLine(comment);
          continue;
        }
        if IsWhitespace(source[index]) {
          assert Rest()[1..] == source[index + 1..];
          index := index + 1;
          continue;
        }
        break;
      }
    }

    method ParseStringLiteral() returns (r: Result<Expr, ParseError>)
      requires Valid() && Rest() != "" && Rest()[0] == '"'
      modifies this
      ensures Valid() && old(index) < index
      ensures match ParseStringTail(old(Rest())[1..])
              case Err(e) => r == Err(e)
              case Ok((text, rest)) => r == Ok(String(text)) && Rest() == rest
    {
      ghost var tail := Rest()[1..];
      index := index + 1;
      var out := "";
      AfterNothing(ParseStringTail(tail));
      while true
        invariant old(index) < index <= |source|
        invariant After(out, ParseStringTail(Rest())) == ParseStringTail(tail)
        decreases |source| - index
      {
        if index == |source| {
          return Err(UnterminatedString);
        }
        var ch := source[index];
        ghost var here := Rest();
        index := index + 1;
        assert here[1..] == Rest();
        if ch == '"' {
          break;
        }
        if ch == '\\' {
          if index == |source| {
            return Err(UnterminatedEscape);
          }
          var escaped := Unescaped(source[index]);
          index := index + 1;
          assert here[2..] == Rest();
          AfterOne(out, escaped, ParseStringTail(Rest()));
          out := out + [escaped];
        } else {
          AfterOne(out, ch, ParseStringTail(Rest()));
          out := out + [ch];
        }
      }
      assert out + "" == out;
      return Ok(String(out));
    }

    method ParseSymbolName() returns (r: Result<Expr, ParseError>)
      requires Valid()
      modifies this
      ensures Valid() && old(index) <= index
      ensures match ParseSymbol(old(Rest()))
              case Err(e) => r == Err(e)
              case Ok((e, rest)) => r == Ok(e) && Rest() == rest && old(index) < index
    {
      var start := index;
      while index < |source| && IsSymbolChar(source[index])
        invariant start <= index <= |source|
        invariant SymbolLength(source[start..]) == index - start + SymbolLength(Rest())
      {
        assert Rest()[1..] == source[index + 1..];
        index := index + 1;
      }
      if index == start {
        return Err(ExpectedSymbol);
      }
      assert source[start..][..index - start] == source[start..index];
      assert source[start..][index - start..] == Rest();
      return Ok(Symbol(source[start..index]));
    }

    method ParseExpression() returns (r: Result<Expr, ParseError>)
      requires Valid()
      modifies this
      ensures Valid() && old(index) <= index
      ensures match ParseExpr(old(Rest()))
              case Err(e) => r == Err(e)
              case Ok((e, rest)) => r == Ok(e) && Rest() == rest && old(index) < index
      decreases |source| - index, 1
    {
      ghost var before := Rest();
      SkipBlanks();
      if index == |source| {
        return Err(UnexpectedEnd);
      }
      var ch := source[index];
      ghost var t := Rest();
      if ch == '(' || ch == '[' {
        r := ParseList();
      } else if ch == ')' || ch == ']' {
        return Err(UnexpectedClose);
      } else if ch == '"' {
        r := ParseStringLiteral();
      } else if ch == '\'' {
        index := index + 1;
        assert Rest() == t[1..];
        r := ParseExpression();
        if r.Ok? {
          r := Ok(Quote(r.value));
        }
      } else {
        r := ParseSymbolName();
      }
    }

    method ParseList() returns (r: Result<Expr, ParseError>)
      requires Valid() && Rest() != "" && IsOpener(Rest()[0])
      modifies this
      ensures Valid() && old(index) < index
      ensures match ParseItems(old(Rest())[1..], CloserOf(old(Rest())[0]))
              case Err(e) => r == Err(e)
              case Ok((items, rest)) => r == Ok(List(items)) && Rest() == rest
      decreases |source| - index, 0
    {
      var closer := if source[index] == '(' then ')' else ']';
      ghost var body := Rest()[1..];
      index := index + 1;
      var items: seq<Expr> := [];
      AfterNothing(ParseItems(body, closer));
      while true
        invariant old(index) < index <= |source|
        invariant After(items, ParseItems(Rest(), closer)) == ParseItems(body, closer)
        decreases |source| - index
      {
        SkipBlanks();
        if index == |source| {
          return Err(UnterminatedList);
        }
        ghost var t := Rest();
        if source[index] == closer {
          index := index + 1;
          assert Rest() == t[1..];
          break;
        }
        SkipBlankIsStable(t);
        var item := ParseExpression();
        if item.Err? {
          return Err(item.error);
        }
        AfterOne(items, item.value, ParseItems(Rest(), closer));
        items := items + [item.value];
      }
      assert items + [] == items;
      return Ok(List(items));
    }
  }

  lemma SkipBlankIsStable(t: string)
    requires t != "" ==> !IsWhitespace(t[0]) && !StartsComment(t)
    ensures SkipBlank(t) == t
  {
  }

  function AfterForms(read: seq<Expr>, r: Result<seq<Expr>, ParseError>): Result<seq<Expr>, ParseError> {
    if r.Err? then r else Ok(read + r.value)
  }

  lemma AfterOneForm(read: seq<Expr>, e: Expr, r: Result<seq<Expr>, ParseError>)
    ensures AfterForms([], r) == r
    ensures AfterForms(read, AfterForms([e], r)) == AfterForms(read + [e], r)
  {
    if r.Ok? {
      assert [] + r.value == r.value;
      assert read + ([e] + r.value) == (read + [e]) + r.value;
    }
  }

  lemma FailureEnds(read: seq<Expr>, error: ParseError)
    ensures AfterForms(read, Err(error)) == Err(error)
  {
  }

  lemma FormsEnd(read: seq<Expr>)
    ensures AfterForms(read, Ok([])) == Ok(read)
  {
    assert read + [] == read;
  }

  /** One form, then the rest. */
  lemma FormsStep(s: string)
    ensures var t := SkipBlank(s);
            ParseForms(s) == if t == "" then Ok([])
                             else match ParseExpr(t)
                                  case Err(e) => Err(e)
                                  case Ok((e, rest)) => AfterForms([e], ParseForms(rest))
  {
    hide ParseExpr;
  }

  /** `parse_forms` */
  method ParseAllForms(source: string) returns (r: Result<seq<Expr>, ParseError>)
    ensures r == ParseForms(source)
  {
    hide ParseForms, ParseExpr, AfterForms, SkipBlank;
    var parser := new Parser(source);
    var out: seq<Expr> := [];
    AfterOneForm([], Symbol(""), ParseForms(source));
    while true
      invariant parser.Valid() && fresh(parser)
      invariant AfterForms(out, ParseForms(parser.Rest())) == ParseForms(source)
      decreases |parser.source| - parser.index
    {
      ghost var before := parser.Rest();
      parser.SkipBlanks();
      FormsStep(before);
      if parser.index == |parser.source| {
        break;
      }
      var form := parser.ParseExpression();
      if form.Err? {
        FailureEnds(out, form.error);
        return Err(form.error);
      }
      AfterOneForm(out, form.value, ParseForms(parser.Rest()));
      out := out + [form.value];
    }
    FormsEnd(out);
    return Ok(out);
  }
}
