/** Rayfall expressions: the printer, the grammar the parser implements, and the round trip between them. */
module RayfallSyntax {
  import opened Wrappers
  import opened Text

  datatype Expr =
    | List(items: seq<Expr>)
    | Symbol(name: string)
    | String(text: string)
    | Quote(inner: Expr)

  datatype ParseError = UnexpectedEnd | UnexpectedClose | UnterminatedList | UnterminatedString
                      | UnterminatedEscape | ExpectedSymbol | ExpectedOneForm

  // ----- Printing -----

  function EscapeChar(c: char): string {
    if c == '\\' then "\\\\"
    else if c == '"' then "\\\""
    else if c == '\n' then "\\n"
    else if c == '\r' then "\\r"
    else if c == '\t' then "\\t"
    else [c]
  }

  function EscapeString(s: string): string {
    if s == "" then "" else EscapeChar(s[0]) + EscapeString(s[1..])
  }

  function Emit(e: Expr): string
    decreases e, 0
  {
    match e
    case List(items) => "(" + EmitItems(items) + ")"
    case Symbol(name) => name
    case String(text) => "\"" + EscapeString(text) + "\""
    case Quote(inner) => "'" + Emit(inner)
  }

  /** The items joined by single spaces. */
  function EmitItems(items: seq<Expr>): string
    decreases items, 1
  {
    if items == [] then ""
    else if |items| == 1 then Emit(items[0])
    else Emit(items[0]) + " " + EmitItems(items[1..])
  }

  // ----- The grammar, on what is left of the input -----

  /** Drop everything before the next line feed. */
  function SkipLine(s: string): (rest: string)
    ensures |rest| <= |s|
    ensures s != "" && s[0] != '\n' ==> |rest| < |s|
  {
    if s == "" || s[0] == '\n' then s else SkipLine(s[1..])
  }

  predicate StartsComment(s: string) {
    |s| >= 2 && s[0] == ';' && s[1] == ';'
  }

  function SkipBlank(s: string): (rest: string)
    ensures |rest| <= |s|
    ensures rest != "" ==> !IsWhitespace(rest[0]) && !StartsComment(rest)
    decreases |s|
  {
    if StartsComment(s) then SkipBlank(SkipLine(s))
    else if s != "" && IsWhitespace(s[0]) then SkipBlank(s[1..])
    else s
  }

  /** The characters that end a symbol, besides whitespace. */
  predicate IsDelimiter(c: char) {
    c == '(' || c == ')' || c == '[' || c == ']' || c == '"' || c == '\'' || c == ';'
  }

  predicate IsSymbolChar(c: char) {
    !IsWhitespace(c) && !IsDelimiter(c)
  }

  function SymbolLength(s: string): (n: nat)
    ensures n <= |s|
    ensures forall i :: 0 <= i < n ==> IsSymbolChar(s[i])
    ensures n < |s| ==> !IsSymbolChar(s[n])
  {
    if s == "" || !IsSymbolChar(s[0]) then 0 else 1 + SymbolLength(s[1..])
  }

  function ParseSymbol(s: string): (r: Result<(Expr, string), ParseError>)
    ensures r.Ok? ==> |r.value.1| < |s|
  {
    var n := SymbolLength(s);
    if n == 0 then Err(ExpectedSymbol) else Ok((Symbol(s[..n]), s[n..]))
  }

  function Unescaped(c: char): char {
    if c == 'n' then '\n' else if c == 'r' then '\r' else if c == 't' then '\t' else c
  }

  /** The rest of a string literal after its opening quote. */
  function ParseStringTail(s: string): (r: Result<(string, string), ParseError>)
    ensures r.Ok? ==> |r.value.1| < |s|
    decreases |s|
  {
    if s == "" then Err(UnterminatedString)
    else if s[0] == '"' then Ok(("", s[1..]))
    else if s[0] == '\\' then
      if |s| == 1 then Err(UnterminatedEscape)
      else
        var r := ParseStringTail(s[2..]);
        if r.Err? then r else Ok(([Unescaped(s[1])] + r.value.0, r.value.1))
    else
      var r := ParseStringTail(s[1..]);
      if r.Err? then r else Ok(([s[0]] + r.value.0, r.value.1))
  }

  predicate IsOpener(c: char) {
    c == '(' || c == '['
  }

  function CloserOf(opener: char): char {
    if opener == '(' then ')' else ']'
  }

  function ParseExpr(s: string): (r: Result<(Expr, string), ParseError>)
    ensures r.Ok? ==> |r.value.1| < |s|
    decreases |s|, 0
  {
    var t := SkipBlank(s);
    if t == "" then Err(UnexpectedEnd)
    else if IsOpener(t[0]) then
      var r := ParseItems(t[1..], CloserOf(t[0]));
      if r.Err? then Err(r.error) else Ok((List(r.value.0), r.value.1))
    else if t[0] == ')' || t[0] == ']' then Err(UnexpectedClose)
    else if t[0] == '"' then
      var r := ParseStringTail(t[1..]);
      if r.Err? then Err(r.error) else Ok((String(r.value.0), r.value.1))
    else if t[0] == '\'' then
      var r := ParseExpr(t[1..]);
      if r.Err? then r else Ok((Quote(r.value.0), r.value.1))
    else ParseSymbol(t)
  }

  /** The items of a list up to and including its closer. */
  function ParseItems(s: string, closer: char): (r: Result<(seq<Expr>, string), ParseError>)
    ensures r.Ok? ==> |r.value.1| < |s|
    decreases |s|, 1
  {
    var t := SkipBlank(s);
    if t == "" then Err(UnterminatedList)
    else if t[0] == closer then Ok(([], t[1..]))
    else
      var first := ParseExpr(t);
      if first.Err? then Err(first.error)
      else
        var r := ParseItems(first.value.1, closer);
        if r.Err? then r else Ok(([first.value.0] + r.value.0, r.value.1))
  }

  /** All top-level forms of a source. */
  function ParseForms(s: string): Result<seq<Expr>, ParseError>
    decreases |s|
  {
    var t := SkipBlank(s);
    if t == "" then Ok([])
    else
      var first := ParseExpr(t);
      if first.Err? then Err(first.error)
      else
        var r := ParseForms(first.value.1);
        if r.Err? then r else Ok([first.value.0] + r.value)
  }

  function ParseOne(s: string): Result<Expr, ParseError> {
    var r := ParseForms(s);
    if r.Err? then Err(r.error)
    else if |r.value| == 1 then Ok(r.value[0])
    else Err(ExpectedOneForm)
  }

  // ----- Printable expressions -----

  predicate IsSymbolName(name: string) {
    name != "" && forall i :: 0 <= i < |name| ==> IsSymbolChar(name[i])
  }

  /** Every symbol can be read back. */
  predicate Printable(e: Expr) {
    match e
    case List(items) => forall x :: x in items ==> Printable(x)
    case Symbol(name) => IsSymbolName(name)
    case String(_) => true
    case Quote(inner) => Printable(inner)
  }

  /** What may follow a printed expression so that its last symbol ends there. */
  predicate Separates(rest: string) {
    rest == "" || !IsSymbolChar(rest[0])
  }

  // ----- Everything printable parses back -----

  /** A printed expression starts with a character that is neither blank nor a semicolon. */
  lemma EmitStart(e: Expr)
    requires Printable(e)
    ensures Emit(e) != "" && !IsWhitespace(Emit(e)[0]) && Emit(e)[0] != ';' && Emit(e)[0] != ')' && Emit(e)[0] != ']'
  {
  }

  lemma SkipBlankAtToken(s: string)
    requires s != "" && !IsWhitespace(s[0]) && s[0] != ';'
    ensures SkipBlank(s) == s
  {
  }

  lemma {:induction false} SymbolLengthOf(name: string, rest: string)
    requires forall i :: 0 <= i < |name| ==> IsSymbolChar(name[i])
    requires Separates(rest)
    ensures SymbolLength(name + rest) == |name|
  {
    if name == "" {
      assert name + rest == rest;
    } else {
      assert (name + rest)[1..] == name[1..] + rest;
      SymbolLengthOf(name[1..], rest);
    }
  }

  lemma PlainReads(s: string)
    requires s != "" && s[0] != '"' && s[0] != '\\' && ParseStringTail(s[1..]).Ok?
    ensures var r := ParseStringTail(s[1..]).value; ParseStringTail(s) == Ok(([s[0]] + r.0, r.1))
  {
  }

  lemma PlainCharReads(c: char, tail: string)
    requires ParseStringTail(tail).Ok? && c != '"' && c != '\\'
    ensures ParseStringTail([c] + tail) == Ok(([c] + ParseStringTail(tail).value.0, ParseStringTail(tail).value.1))
  {
    hide ParseStringTail;
    assert ([c] + tail)[1..] == tail;
    PlainReads([c] + tail);
  }

  lemma PairReads(s: string)
    requires |s| > 1 && s[0] == '\\' && ParseStringTail(s[2..]).Ok?
    ensures var r := ParseStringTail(s[2..]).value; ParseStringTail(s) == Ok(([Unescaped(s[1])] + r.0, r.1))
  {
    hide Unescaped;
  }

  lemma EscapePairReads(x: char, tail: string)
    requires ParseStringTail(tail).Ok?
    ensures ParseStringTail(['\\', x] + tail)
            == Ok(([Unescaped(x)] + ParseStringTail(tail).value.0, ParseStringTail(tail).value.1))
  {
    hide Unescaped, ParseStringTail;
    var pair := ['\\', x];
    assert (pair + tail)[2..] == tail && (pair + tail)[1] == x;
    PairReads(pair + tail);
  }

  /** One escaped character reads back as itself. */
  lemma EscapedCharReads(c: char, tail: string)
    requires ParseStringTail(tail).Ok?
    ensures ParseStringTail(EscapeChar(c) + tail)
            == Ok(([c] + ParseStringTail(tail).value.0, ParseStringTail(tail).value.1))
  {
    hide ParseStringTail;
    var esc := EscapeChar(c);
    if |esc| == 2 {
      assert esc == ['\\', esc[1]] && Unescaped(esc[1]) == c;
      EscapePairReads(esc[1], tail);
    } else {
      PlainCharReads(c, tail);
    }
  }

  lemma CloseReads(rest: string)
    ensures ParseStringTail("\"" + rest) == Ok(("", rest))
  {
    assert ("\"" + rest)[1..] == rest;
  }

  /** Escaping and unescaping undo each other on every string. */
  lemma {:induction false} StringRoundTrip(text: string, rest: string)
    ensures ParseStringTail(EscapeString(text) + ("\"" + rest)) == Ok((text, rest))
  {
    hide ParseStringTail, EscapeChar;
    var close := "\"" + rest;
    if text == "" {
      assert EscapeString(text) + close == close;
      CloseReads(rest);
    } else {
      var tail := EscapeString(text[1..]) + close;
      StringRoundTrip(text[1..], rest);
      EscapedCharReads(text[0], tail);
      assert EscapeString(text) + close == EscapeChar(text[0]) + tail;
      assert text == [text[0]] + text[1..];
    }
  }

  lemma SymbolParses(name: string, rest: string)
    requires IsSymbolName(name) && Separates(rest)
    ensures ParseSymbol(name + rest) == Ok((Symbol(name), rest))
  {
    hide IsSymbolChar, SymbolLength;
    SymbolLengthOf(name, rest);
    assert (name + rest)[..|name|] == name && (name + rest)[|name|..] == rest;
  }

  /** The printed text of an expression parses back to that expression, leaving the rest of the input. */
  lemma {:induction false} RoundTrip(e: Expr, rest: string)
    requires Printable(e) && Separates(rest)
    ensures ParseExpr(Emit(e) + rest) == Ok((e, rest))
    decreases e, 0
  {
    hide SkipBlank, ParseSymbol, ParseStringTail, ParseItems, EscapeString, EmitItems, IsWhitespace;
    var s := Emit(e) + rest;
    EmitStart(e);
    SkipBlankAtToken(s);
    match e
    case List(items) =>
      assert s[1..] == EmitItems(items) + (")" + rest);
      ItemsRoundTrip(items, rest);
    case Symbol(name) =>
      SymbolParses(name, rest);
    case String(text) =>
      assert s[1..] == EscapeString(text) + ("\"" + rest);
      StringRoundTrip(text, rest);
    case Quote(inner) =>
      assert s[1..] == Emit(inner) + rest;
      RoundTrip(inner, rest);
  }

  lemma CloserReads(rest: string)
    ensures ParseItems(")" + rest, ')') == Ok(([], rest))
  {
    hide SkipBlank;
    var close := ")" + rest;
    SkipBlankAtToken(close);
    assert close[1..] == rest;
  }

  lemma {:induction false} ItemsRoundTrip(items: seq<Expr>, rest: string)
    requires forall x :: x in items ==> Printable(x)
    ensures ParseItems(EmitItems(items) + (")" + rest), ')') == Ok((items, rest))
    decreases items, 1
  {
    hide Emit, Printable, ParseItems, ParseExpr;
    var close := ")" + rest;
    if items == [] {
      assert EmitItems(items) + close == close;
      CloserReads(rest);
    } else {
      var more := EmitItems(items[1..]) + close;
      var after := if |items| == 1 then close else " " + more;
      assert EmitItems(items) + close == Emit(items[0]) + after;
      RoundTrip(items[0], after);
      ItemsRoundTrip(items[1..], rest);
      if |items| == 1 {
        assert more == close;
      } else {
        BlankBeforeItems(more);
      }
      FirstItemReads(items[0], after, items[1..], rest);
      assert items == [items[0]] + items[1..];
    }
  }

  lemma FirstItemReads(first: Expr, after: string, others: seq<Expr>, rest: string)
    requires Printable(first)
    requires ParseExpr(Emit(first) + after) == Ok((first, after))
    requires ParseItems(after, ')') == Ok((others, rest))
    ensures ParseItems(Emit(first) + after, ')') == Ok(([first] + others, rest))
  {
    EmitStart(first);
    SkipBlankAtToken(Emit(first) + after);
    hide SkipBlank, ParseExpr, Emit;
  }

  /** A space before the items makes no difference. */
  lemma BlankBeforeItems(s: string)
    ensures ParseItems(" " + s, ')') == ParseItems(s, ')')
  {
    BlankSkips(s);
    hide SkipBlank, ParseExpr;
  }

  lemma BlankSkips(s: string)
    ensures SkipBlank(" " + s) == SkipBlank(s)
  {
    assert (" " + s)[1..] == s;
  }

  /** The text from `emit` parses back to exactly one form, the expression printed. */
  lemma PrintedFormParses(e: Expr)
    requires Printable(e)
    ensures ParseOne(Emit(e)) == Ok(e)
  {
    RoundTrip(e, "");
    EmitStart(e);
    SkipBlankAtToken(Emit(e));
    assert Emit(e) + "" == Emit(e);
    assert ParseForms("") == Ok([]);
  }

  // ----- Everything parsed is printable -----

  lemma {:induction false} ParsedIsPrintable(s: string)
    requires ParseExpr(s).Ok?
    ensures Printable(ParseExpr(s).value.0)
    decreases |s|, 0
  {
    var t := SkipBlank(s);
    if IsOpener(t[0]) {
      ParsedItemsPrintable(t[1..], CloserOf(t[0]));
    } else if t[0] == '\'' {
      ParsedIsPrintable(t[1..]);
    }
  }

  lemma {:induction false} ParsedItemsPrintable(s: string, closer: char)
    requires ParseItems(s, closer).Ok?
    ensures forall x :: x in ParseItems(s, closer).value.0 ==> Printable(x)
    decreases |s|, 1
  {
    var t := SkipBlank(s);
    if t[0] != closer {
      ParsedIsPrintable(t);
      ParsedItemsPrintable(ParseExpr(t).value.1, closer);
    }
  }

  lemma {:induction false} ParsedFormsPrintable(s: string)
    requires ParseForms(s).Ok?
    ensures forall x :: x in ParseForms(s).value ==> Printable(x)
    decreases |s|
  {
    var t := SkipBlank(s);
    if t == "" {
    } else {
      ParsedIsPrintable(t);
      ParsedFormsPrintable(ParseExpr(t).value.1);
    }
  }

  lemma {:induction false} FormsRoundTrip(forms: seq<Expr>)
    requires forall x :: x in forms ==> Printable(x)
    ensures ParseForms(EmitItems(forms)) == Ok(forms)
  {
    if forms == [] {
    } else {
      var first := forms[0];
      var after := if |forms| == 1 then "" else " " + EmitItems(forms[1..]);
      assert EmitItems(forms) == Emit(first) + after;
      EmitStart(first);
      SkipBlankAtToken(Emit(first) + after);
      RoundTrip(first, after);
      FormsRoundTrip(forms[1..]);
      assert forms == [first] + forms[1..];
      if |forms| > 1 {
        assert after[1..] == EmitItems(forms[1..]);
      }
    }
  }

  /** Printing the forms of any accepted source and parsing that text gives the same forms. */
  lemma ReparsingIsStable(s: string)
    requires ParseForms(s).Ok?
    ensures ParseForms(EmitItems(ParseForms(s).value)) == ParseForms(s)
  {
    ParsedFormsPrintable(s);
    FormsRoundTrip(ParseForms(s).value);
  }
}
