/** What the parser makes of text the printer does not write: brackets, comments, escapes it does not need, and
    the errors. */
module SyntaxLaws {
  import opened Wrappers
  import opened Text
  import opened RayfallSyntax

  /** A symbol is made of everything but whitespace and the punctuation. */
  lemma SymbolCharIs(c: char)
    ensures IsSymbolChar(c) <==> !IsWhitespace(c) && c !in "()[]\"';"
  {
  }

  // ----- Blanks and comments -----

  lemma WhitespaceIsSkipped(c: char, s: string)
    requires IsWhitespace(c)
    ensures SkipBlank([c] + s) == SkipBlank(s)
  {
    assert ([c] + s)[1..] == s;
  }

  lemma {:induction false} LineEnds(text: string, rest: string)
    requires '\n' !in text && (rest == "" || rest[0] == '\n')
    ensures SkipLine(text + rest) == rest
  {
    if text == "" {
      assert text + rest == rest;
    } else {
      assert (text + rest)[1..] == text[1..] + rest;
      LineEnds(text[1..], rest);
    }
  }

  /** Two semicolons start a comment, which ends with its line or with the input. */
  lemma CommentIsSkipped(text: string, rest: string)
    requires '\n' !in text && (rest == "" || rest[0] == '\n')
    ensures SkipBlank(";;" + text + rest) == SkipBlank(rest)
  {
    var s := ";;" + text + rest;
    assert s == (";;" + text) + rest;
    LineEnds(";;" + text, rest);
  }

  /** One semicolon starts nothing. */
  lemma LoneSemicolon(rest: string)
    requires rest == "" || rest[0] != ';'
    ensures ParseExpr(";" + rest) == Err(ExpectedSymbol)
  {
    var s := ";" + rest;
    assert SkipBlank(s) == s;
    assert SymbolLength(s) == 0;
  }

  // ----- Strings -----

  /** After a backslash `n`, `r` and `t` are control characters, and every other character is itself. */
  lemma EscapeStandsFor(c: char, tail: string)
    requires ParseStringTail(tail).Ok?
    ensures var (text, rest) := ParseStringTail(tail).value;
            ParseStringTail(['\\', c] + tail)
            == Ok(([match c case 'n' => '\n' case 'r' => '\r' case 't' => '\t' case _ => c] + text, rest))
  {
    EscapePairReads(c, tail);
    hide ParseStringTail;
  }

  lemma StringErrors()
    ensures ParseStringTail("") == Err(UnterminatedString)
    ensures ParseStringTail("\\") == Err(UnterminatedEscape)
  {
  }

  /** An error in the rest of a string is the string's. */
  lemma StringErrorsPass(c: char, tail: string)
    requires ParseStringTail(tail).Err?
    ensures c != '"' && c != '\\' ==> ParseStringTail([c] + tail) == ParseStringTail(tail)
    ensures ParseStringTail(['\\', c] + tail) == ParseStringTail(tail)
  {
    assert ([c] + tail)[1..] == tail;
    var pair := ['\\', c];
    assert (pair + tail)[2..] == tail;
  }

  // ----- Lists -----

  /** The other closer. */
  function OtherCloser(closer: char): char {
    if closer == ')' then ']' else ')'
  }

  lemma ClosesAt(closer: char, rest: string)
    requires closer == ')' || closer == ']'
    ensures ParseItems([closer] + rest, closer) == Ok(([], rest))
    ensures ParseItems([OtherCloser(closer)] + rest, closer) == Err(UnexpectedClose)
  {
    var good, bad := [closer] + rest, [OtherCloser(closer)] + rest;
    SkipBlankAtToken(good);
    SkipBlankAtToken(bad);
    assert good[1..] == rest;
  }

  lemma ItemThen(e: Expr, after: string, closer: char)
    requires Printable(e) && Separates(after) && (closer == ')' || closer == ']')
    ensures ParseItems(Emit(e) + after, closer)
            == match ParseItems(after, closer)
               case Err(error) => Err(error)
               case Ok((items, rest)) => Ok(([e] + items, rest))
  {
    RoundTrip(e, after);
    EmitStart(e);
    SkipBlankAtToken(Emit(e) + after);
    hide ParseExpr, SkipBlank, Emit, Printable;
  }

  lemma SpaceThen(s: string, closer: char)
    ensures ParseItems(" " + s, closer) == ParseItems(s, closer)
  {
    BlankSkips(s);
    hide SkipBlank, ParseExpr;
  }

  /** Printed items read the same up to either closer, and the wrong closer is an error. */
  lemma {:induction false} ItemsUpTo(items: seq<Expr>, closer: char, rest: string)
    requires (closer == ')' || closer == ']') && forall x :: x in items ==> Printable(x)
    ensures ParseItems(EmitItems(items) + ([closer] + rest), closer) == Ok((items, rest))
    ensures ParseItems(EmitItems(items) + ([OtherCloser(closer)] + rest), closer) == Err(UnexpectedClose)
  {
    hide ParseItems, Emit, Printable;
    if items == [] {
      assert EmitItems(items) + ([closer] + rest) == [closer] + rest;
      assert EmitItems(items) + ([OtherCloser(closer)] + rest) == [OtherCloser(closer)] + rest;
      ClosesAt(closer, rest);
    } else {
      ItemsUpTo(items[1..], closer, rest);
      ItemsStep(items, [closer] + rest, closer);
      ItemsStep(items, [OtherCloser(closer)] + rest, closer);
      assert items == [items[0]] + items[1..];
    }
  }

  lemma ItemsStep(items: seq<Expr>, end: string, closer: char)
    requires items != [] && (forall x :: x in items ==> Printable(x)) && (closer == ')' || closer == ']')
    requires end != "" && (end[0] == ')' || end[0] == ']')
    ensures ParseItems(EmitItems(items) + end, closer)
            == match ParseItems(EmitItems(items[1..]) + end, closer)
               case Err(error) => Err(error)
               case Ok((others, rest)) => Ok(([items[0]] + others, rest))
  {
    hide ParseItems, Emit, Printable;
    var more := EmitItems(items[1..]) + end;
    if |items| == 1 {
      assert EmitItems(items) + end == Emit(items[0]) + end && more == end;
      ItemThen(items[0], end, closer);
    } else {
      assert EmitItems(items) + end == Emit(items[0]) + (" " + more);
      ItemThen(items[0], " " + more, closer);
      SpaceThen(more, closer);
    }
  }

  /** A list in brackets is the list in parentheses; a list closed by the other kind is refused. */
  lemma BracketsAreParentheses(items: seq<Expr>, rest: string)
    requires forall x :: x in items ==> Printable(x)
    ensures ParseExpr("[" + (EmitItems(items) + ("]" + rest))) == Ok((List(items), rest))
    ensures ParseExpr("(" + (EmitItems(items) + (")" + rest))) == Ok((List(items), rest))
    ensures ParseExpr("[" + (EmitItems(items) + (")" + rest))) == Err(UnexpectedClose)
    ensures ParseExpr("(" + (EmitItems(items) + ("]" + rest))) == Err(UnexpectedClose)
  {
    ItemsUpTo(items, ']', rest);
    ItemsUpTo(items, ')', rest);
    hide ParseItems, EmitItems, Printable;
    OpenedList('[', EmitItems(items) + ("]" + rest));
    OpenedList('(', EmitItems(items) + (")" + rest));
    OpenedList('[', EmitItems(items) + (")" + rest));
    OpenedList('(', EmitItems(items) + ("]" + rest));
  }

  lemma OpenedList(opener: char, s: string)
    requires opener == '(' || opener == '['
    ensures ParseExpr([opener] + s)
            == match ParseItems(s, if opener == '(' then ')' else ']')
               case Err(error) => Err(error)
               case Ok((items, rest)) => Ok((List(items), rest))
  {
    var t := [opener] + s;
    SkipBlankAtToken(t);
    assert t[1..] == s;
    hide ParseItems, SkipBlank;
  }

  // ----- Errors -----

  lemma EndOfInput(blank: string, closer: char)
    requires SkipBlank(blank) == ""
    ensures ParseExpr(blank) == Err(UnexpectedEnd) && ParseItems(blank, closer) == Err(UnterminatedList)
    ensures ParseForms(blank) == Ok([])
  {
  }

  lemma LoneCloser(closer: char, rest: string)
    requires closer == ')' || closer == ']'
    ensures ParseExpr([closer] + rest) == Err(UnexpectedClose)
  {
    SkipBlankAtToken([closer] + rest);
  }

  /** A source for one form must hold exactly one. */
  lemma OneForm(source: string)
    ensures ParseOne(source)
            == match ParseForms(source)
               case Err(error) => Err(error)
               case Ok(forms) => if |forms| == 1 then Ok(forms[0]) else Err(ExpectedOneForm)
  {
    hide ParseForms;
  }
}
