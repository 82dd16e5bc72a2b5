/** Counting the arguments of a printed rule head. `tokenize_head_args` counts tokens of text, so it counts the
    arguments exactly when each of them is one token. */
module RuleHeads {
  import opened RayfallSyntax
  import opened RuleText
  import opened Text
  import opened Wrappers

  // ----- Text that closes its own tokens -----

  predicate QuoteCloses(s: string) {
    if s == "" then false
    else if s[0] == '\\' then |s| > 1 && QuoteCloses(s[2..])
    else s[0] == '"' || QuoteCloses(s[1..])
  }

  /** A string or parenthesis that opens `t` is closed in `t`. */
  predicate EndsInside(t: string)
    requires t != ""
  {
    && (t[0] == '"' ==> QuoteCloses(t[1..]))
    && (t[0] == '(' ==> BalancedLength(t[1..], 1).Some?)
  }

  /** Every token of the text that opens a string or parenthesis also closes it. */
  predicate ClosesTokens(s: string)
    decreases |s|
  {
    var t := TrimStart(s);
    t != "" ==> EndsInside(t) && ClosesTokens(t[TokenLength(t)..])
  }

  /** What follows an item of a printed list. */
  predicate SpaceFirst(rest: string) {
    rest == "" || IsWhitespace(rest[0])
  }

  lemma {:induction false} QuoteStays(s: string, rest: string)
    requires QuoteCloses(s)
    ensures QuotedLength(s + rest) == QuotedLength(s)
  {
    if s[0] == '\\' {
      assert (s + rest)[2..] == s[2..] + rest;
      QuoteStays(s[2..], rest);
    } else if s[0] != '"' {
      assert (s + rest)[1..] == s[1..] + rest;
      QuoteStays(s[1..], rest);
    }
  }

  lemma {:induction false} WordStays(s: string, rest: string)
    requires SpaceFirst(rest)
    ensures WordLength(s + rest) == WordLength(s)
  {
    if s == "" {
      assert s + rest == rest;
    } else {
      assert (s + rest)[1..] == s[1..] + rest;
      WordStays(s[1..], rest);
    }
  }

  lemma TokenStays(t: string, rest: string)
    requires t != "" && !IsWhitespace(t[0]) && EndsInside(t) && SpaceFirst(rest)
    ensures TokenLength(t + rest) == TokenLength(t)
  {
    hide QuoteCloses, QuotedLength, BalancedLength, WordLength;
    assert (t + rest)[1..] == t[1..] + rest;
    if t[0] == '"' {
      QuoteStays(t[1..], rest);
    } else if t[0] == '(' {
      BalancedPrefix(t[1..], rest, 1);
    } else {
      WordStays(t, rest);
    }
  }

  lemma {:induction false} TrimStays(s: string, rest: string)
    ensures TrimStart(s + rest) == if TrimStart(s) == "" then TrimStart(rest) else TrimStart(s) + rest
  {
    if s == "" {
      assert s + rest == rest;
    } else if IsWhitespace(s[0]) {
      assert (s + rest)[1..] == s[1..] + rest;
      TrimStays(s[1..], rest);
    }
  }

  lemma CountStep(s: string, t: string)
    requires t == TrimStart(s) && t != ""
    ensures TokenCount(s) == 1 + TokenCount(t[TokenLength(t)..])
  {
  }

  /** Text that closes its own tokens keeps them, whatever list item follows. */
  lemma {:induction false} TokensAdd(w: string, rest: string)
    requires ClosesTokens(w) && SpaceFirst(rest)
    ensures TokenCount(w + rest) == TokenCount(w) + TokenCount(rest)
    decreases |w|
  {
    hide TokenLength, EndsInside, TokenCount;
    var t := TrimStart(w);
    TrimStays(w, rest);
    if t == "" {
      TokenCountTrimmed(w + rest);
      TokenCountTrimmed(rest);
      NoTokensIn(w);
    } else {
      var n := TokenLength(t);
      TokenStays(t, rest);
      CountStep(w, t);
      CountStep(w + rest, t + rest);
      assert (t + rest)[n..] == t[n..] + rest;
      TokensAdd(t[n..], rest);
    }
  }

  lemma NoTokensIn(w: string)
    requires TrimStart(w) == ""
    ensures TokenCount(w) == 0
  {
  }

  // ----- The tokens of printed items -----

  /** A readable expression whose text closes its own tokens. */
  predicate SelfContained(e: Expr) {
    Printable(e) && ClosesTokens(Emit(e))
  }

  /** How many tokens the printed items are, each taken by itself. */
  function TokenSum(items: seq<Expr>): nat {
    if items == [] then 0 else TokenCount(Emit(items[0])) + TokenSum(items[1..])
  }

  lemma SpaceBeforeTokens(s: string)
    ensures TokenCount(" " + s) == TokenCount(s)
  {
    hide TokenCount;
    assert (" " + s)[1..] == s;
    TokenCountTrimmed(" " + s);
    TokenCountTrimmed(s);
  }

  lemma {:induction false} TokensOfItems(items: seq<Expr>)
    requires forall x :: x in items ==> SelfContained(x)
    ensures TokenCount(EmitItems(items)) == TokenSum(items)
  {
    if items == [] {
      NoTokensIn("");
    } else {
      hide TokenCount, SelfContained;
      var rest := if |items| == 1 then "" else " " + EmitItems(items[1..]);
      assert EmitItems(items) == Emit(items[0]) + rest;
      TokensOfItems(items[1..]);
      FirstItemAdds(items[0], rest);
      if |items| > 1 {
        SpaceBeforeTokens(EmitItems(items[1..]));
      }
    }
  }

  lemma FirstItemAdds(e: Expr, rest: string)
    requires SelfContained(e) && SpaceFirst(rest)
    ensures TokenCount(Emit(e) + rest) == TokenCount(Emit(e)) + TokenCount(rest)
  {
    hide TokenCount, ClosesTokens;
    TokensAdd(Emit(e), rest);
  }

  // ----- Which expressions are one token -----

  /** Symbols and strings are one token, lists when their raw parentheses balance at the end, and quotes when no
      whitespace is in them. */
  predicate OneToken(e: Expr) {
    && Printable(e)
    && (e.List? ==> IsPiece(Emit(e)))
    && (e.Quote? ==> forall c :: c in Emit(e) ==> !IsWhitespace(c))
  }

  lemma {:induction false} QuoteClosesOf(text: string)
    ensures QuoteCloses(EscapeString(text) + "\"")
    ensures QuotedLength(EscapeString(text) + "\"") == |EscapeString(text)| + 1
  {
    hide EscapeChar;
    if text == "" {
      assert EscapeString(text) + "\"" == "\"";
    } else {
      var esc, tail := EscapeChar(text[0]), EscapeString(text[1..]) + "\"";
      assert EscapeString(text) + "\"" == esc + tail;
      QuoteClosesOf(text[1..]);
      QuotedEscape(text[0], tail);
    }
  }

  lemma QuotedEscape(c: char, tail: string)
    ensures QuotedLength(EscapeChar(c) + tail) == |EscapeChar(c)| + QuotedLength(tail)
    ensures QuoteCloses(EscapeChar(c) + tail) == QuoteCloses(tail)
  {
    hide QuotedLength, QuoteCloses;
    var esc := EscapeChar(c);
    if |esc| == 2 {
      QuotedPair(esc, tail);
    } else {
      QuotedPlain(c, tail);
    }
  }

  lemma QuotedPair(pair: string, tail: string)
    requires |pair| == 2 && pair[0] == '\\'
    ensures QuotedLength(pair + tail) == 2 + QuotedLength(tail) && QuoteCloses(pair + tail) == QuoteCloses(tail)
  {
    hide QuotedLength, QuoteCloses;
    assert (pair + tail)[2..] == tail;
    QuotedAtPair(pair + tail);
  }

  lemma QuotedAtPair(s: string)
    requires |s| > 1 && s[0] == '\\'
    ensures QuotedLength(s) == 2 + QuotedLength(s[2..]) && QuoteCloses(s) == QuoteCloses(s[2..])
  {
  }

  lemma QuotedAtPlain(s: string)
    requires s != "" && s[0] != '\\' && s[0] != '"'
    ensures QuotedLength(s) == 1 + QuotedLength(s[1..]) && QuoteCloses(s) == QuoteCloses(s[1..])
  {
  }

  lemma QuotedPlain(c: char, tail: string)
    requires c != '\\' && c != '"'
    ensures QuotedLength([c] + tail) == 1 + QuotedLength(tail) && QuoteCloses([c] + tail) == QuoteCloses(tail)
  {
    hide QuotedLength, QuoteCloses;
    assert ([c] + tail)[1..] == tail;
    QuotedAtPlain([c] + tail);
  }

  lemma NoBlankInName(name: string)
    requires IsSymbolName(name)
    ensures forall i :: 0 <= i < |name| ==> !IsWhitespace(name[i])
    ensures name[0] != '"' && name[0] != '('
  {
    assert IsSymbolChar(name[0]);
  }

  lemma WholeWord(w: string)
    requires w != "" && w[0] != '"' && w[0] != '(' && forall c :: c in w ==> !IsWhitespace(c)
    ensures EndsInside(w) && TokenLength(w) == |w|
  {
    WordBefore(w, "");
    assert w + "" == w;
  }

  /** The first token of such an expression is all of it. */
  lemma OneTokenIsWhole(e: Expr)
    requires OneToken(e)
    ensures var t := Emit(e); t != "" && !IsWhitespace(t[0]) && EndsInside(t) && TokenLength(t) == |t|
  {
    hide BalancedLength, QuotedLength, WordLength, QuoteCloses, EscapeString, EmitItems;
    EmitStart(e);
    var t := Emit(e);
    match e
    case List(_) =>
    case Symbol(name) =>
      NoBlankInName(name);
      WholeWord(t);
    case String(text) =>
      assert t[1..] == EscapeString(text) + "\"";
      QuoteClosesOf(text);
    case Quote(_) =>
      WholeWord(t);
  }

  /** Text that is a single token. */
  lemma SingleToken(t: string)
    requires t != "" && !IsWhitespace(t[0]) && EndsInside(t) && TokenLength(t) == |t|
    ensures ClosesTokens(t) && TokenCount(t) == 1
  {
    assert TrimStart(t) == t && t[|t|..] == "";
  }

  lemma OneTokenCounts(e: Expr)
    requires OneToken(e)
    ensures SelfContained(e) && TokenCount(Emit(e)) == 1
  {
    hide TokenCount, TokenLength, EndsInside, ClosesTokens;
    OneTokenIsWhole(e);
    SingleToken(Emit(e));
  }

  /** A printed expression does not end in whitespace. */
  lemma {:induction false} EmitEnd(e: Expr)
    requires Printable(e)
    ensures Emit(e) != "" && !IsWhitespace(Emit(e)[|Emit(e)| - 1])
  {
    match e
    case List(_) =>
    case Symbol(name) =>
      assert IsSymbolChar(name[|name| - 1]);
    case String(_) =>
    case Quote(inner) =>
      EmitEnd(inner);
  }

  lemma {:induction false} InkCounts(s: string)
    requires s != "" && !IsWhitespace(s[|s| - 1])
    ensures TrimStart(s) != "" && TokenCount(s) >= 1
  {
    if IsWhitespace(s[0]) {
      InkCounts(s[1..]);
    }
  }

  /** Text that does not end with its first token has more. */
  lemma MoreTokens(t: string)
    requires t != "" && !IsWhitespace(t[0]) && !IsWhitespace(t[|t| - 1]) && TokenLength(t) < |t|
    ensures TokenCount(t) >= 2
  {
    hide TokenLength, TokenCount;
    var rest := t[TokenLength(t)..];
    assert rest[|rest| - 1] == t[|t| - 1];
    assert TrimStart(t) == t;
    CountStep(t, t);
    InkCounts(rest);
  }

  lemma ShorterToken(e: Expr)
    requires SelfContained(e) && !OneToken(e)
    ensures TokenLength(Emit(e)) < |Emit(e)|
  {
    hide EmitItems, WordLength, BalancedLength;
    EmitStart(e);
    var t := Emit(e);
    assert TrimStart(t) == t;
    if e.List? {
      assert BalancedLength(t[1..], 1).Some?;
    } else {
      assert e.Quote?;
    }
  }

  /** An expression that closes its own tokens counts once if and only if it is one token. */
  lemma CountsOnceIff(e: Expr)
    requires SelfContained(e)
    ensures TokenCount(Emit(e)) >= 1
    ensures TokenCount(Emit(e)) == 1 <==> OneToken(e)
  {
    EmitStart(e);
    EmitEnd(e);
    hide TokenCount, TokenLength, ClosesTokens, IsPiece;
    if OneToken(e) {
      OneTokenCounts(e);
    } else {
      ShorterToken(e);
      MoreTokens(Emit(e));
    }
  }

  lemma {:induction false} SumIsLengthIff(items: seq<Expr>)
    requires forall x :: x in items ==> SelfContained(x)
    ensures TokenSum(items) >= |items|
    ensures TokenSum(items) == |items| <==> forall x :: x in items ==> OneToken(x)
  {
    if items == [] {
    } else {
      hide SelfContained, OneToken, TokenCount;
      CountsOnceIff(items[0]);
      SumIsLengthIff(items[1..]);
      assert items == [items[0]] + items[1..];
    }
  }

  // ----- Printed heads -----

  lemma TokensOfHead(name: string, args: seq<Expr>)
    requires IsSymbolName(name) && forall x :: x in args ==> SelfContained(x)
    ensures TokenCount(EmitItems([Symbol(name)] + args)) == 1 + TokenSum(args)
  {
    OneTokenCounts(Symbol(name));
    hide SelfContained, TokenCount;
    var items := [Symbol(name)] + args;
    TokensOfItems(items);
    assert items[1..] == args;
  }

  lemma FirstWordOf(name: string, args: seq<Expr>)
    requires IsSymbolName(name)
    ensures FirstWord(EmitItems([Symbol(name)] + args)) == name
  {
    var items := [Symbol(name)] + args;
    assert items[1..] == args;
    var rest := if args == [] then "" else " " + EmitItems(args);
    assert EmitItems(items) == name + rest;
    assert IsSymbolChar(name[0]);
    assert TrimStart(name + rest) == name + rest;
    WordBefore(name, rest);
  }

  lemma HeadIsScanned(clauses: seq<Expr>)
    requires clauses != [] && IsPiece(Emit(clauses[0]))
    ensures var t := Trim(Emit(List(clauses)));
            StartsOpen(t) && ScanBalanced(TrimStart(t[1..])) == Some(Emit(clauses[0]))
  {
    hide ScanBalanced, BalancedLength, Emit;
    var text := "(" + EmitItems(clauses) + ")";
    assert Emit(List(clauses)) == text by {
      TextOfList(clauses);
    }
    var rest := if |clauses| == 1 then ")" else " " + EmitItems(clauses[1..]) + ")";
    TrimmedAlready(text);
    assert text[1..] == EmitItems(clauses) + ")";
    assert EmitItems(clauses) + ")" == Emit(clauses[0]) + rest;
    assert TrimStart(text[1..]) == text[1..];
    PieceIsScanned(Emit(clauses[0]), rest);
  }

  lemma TextOfList(items: seq<Expr>)
    ensures Emit(List(items)) == "(" + EmitItems(items) + ")"
    ensures Emit(List(items))[1..|Emit(List(items))| - 1] == EmitItems(items)
  {
    hide EmitItems;
  }

  /** A head whose raw parentheses balance at its end yields its predicate and the tokens of its text. */
  lemma HeadTokens(clauses: seq<Expr>, name: string, args: seq<Expr>)
    requires IsSymbolName(name) && clauses != [] && clauses[0] == List([Symbol(name)] + args)
    requires IsPiece(Emit(clauses[0]))
    ensures var n := TokenCount(EmitItems([Symbol(name)] + args));
            RuleHead(Emit(List(clauses))) == Ok((name, if n == 0 then 0 else n - 1))
  {
    hide ScanBalanced, TokenCount, Trim, TrimStart, FirstWord, Emit, EmitItems, IsPiece;
    TextOfList([Symbol(name)] + args);
    HeadIsScanned(clauses);
    FirstWordOf(name, args);
  }

  /** The head of a printed rule body yields its predicate and the tokens of its arguments: their number exactly
      when each is one token. */
  lemma HeadOfPrinted(clauses: seq<Expr>, name: string, args: seq<Expr>)
    requires IsSymbolName(name) && clauses != [] && clauses[0] == List([Symbol(name)] + args)
    requires IsPiece(Emit(clauses[0])) && forall x :: x in args ==> SelfContained(x)
    ensures RuleHead(Emit(List(clauses))) == Ok((name, TokenSum(args)))
    ensures RuleHead(Emit(List(clauses))) == Ok((name, |args|)) <==> forall x :: x in args ==> OneToken(x)
  {
    hide RuleHead, TokenCount, Emit, EmitItems, IsPiece, SelfContained, OneToken;
    HeadTokens(clauses, name, args);
    TokensOfHead(name, args);
    SumIsLengthIff(args);
  }

  /** Scanned together, a printed rule yields the predicate of its head, and its arity under the same condition. */
  lemma HeadOfPrintedRule(exom: Option<string>, clauses: seq<Expr>, name: string, args: seq<Expr>)
    requires ListsOnly(clauses) && (exom.Some? ==> IsSymbolName(exom.value)) && Segments(EmitItems(clauses))
    requires clauses[0] == List([Symbol(name)] + args)
    requires IsPiece(Emit(clauses[0])) && forall x :: x in args ==> SelfContained(x)
    ensures InlineBody(Emit(RuleForm(exom, clauses))).Ok?
    ensures var head := RuleHead(InlineBody(Emit(RuleForm(exom, clauses))).value);
            && head == Ok((name, TokenSum(args)))
            && (head == Ok((name, |args|)) <==> forall x :: x in args ==> OneToken(x))
  {
    hide InlineBody, RuleHead, Segments, IsPiece, SelfContained, OneToken;
    assert Printable(clauses[0]) && Printable(clauses[0].items[0]);
    InlineBodyIff(exom, clauses);
    HeadOfPrinted(clauses, name, args);
  }

  // ----- Quotes without strings -----

  predicate StringFree(e: Expr) {
    match e
    case List(items) => forall x :: x in items ==> StringFree(x)
    case Symbol(_) => true
    case String(_) => false
    case Quote(inner) => StringFree(inner)
  }

  /** No string opens in the text, and every parenthesis that opens also closes. */
  predicate AllClose(w: string) {
    w == "" || (w[0] != '"' && (w[0] == '(' ==> BalancedLength(w[1..], 1).Some?) && AllClose(w[1..]))
  }

  lemma {:induction false} FlatCloses(w: string)
    requires '"' !in w && '(' !in w
    ensures AllClose(w)
  {
    if w == "" {
    } else {
      FlatCloses(w[1..]);
    }
  }

  lemma {:induction false} JoinedClose(a: string, b: string)
    requires AllClose(a) && AllClose(b)
    ensures AllClose(a + b)
  {
    hide BalancedLength;
    if a == "" {
      assert a + b == b;
    } else {
      assert (a + b)[1..] == a[1..] + b;
      JoinedClose(a[1..], b);
      if a[0] == '(' {
        BalancedPrefix(a[1..], b, 1);
      }
    }
  }

  lemma {:induction false} DropCloses(w: string, n: nat)
    requires AllClose(w) && n <= |w|
    ensures AllClose(w[n..])
  {
    hide BalancedLength;
    if n == 0 {
      assert w[0..] == w;
    } else {
      DropCloses(w[1..], n - 1);
      assert w[n..] == w[1..][n - 1..];
    }
  }

  lemma {:induction false} TrimCloses(w: string)
    requires AllClose(w)
    ensures AllClose(TrimStart(w))
  {
    hide BalancedLength;
    if w != "" && IsWhitespace(w[0]) {
      TrimCloses(w[1..]);
    }
  }

  lemma {:induction false} ClosedTextClosesTokens(w: string)
    requires AllClose(w)
    ensures ClosesTokens(w)
    decreases |w|
  {
    hide BalancedLength, TokenLength;
    var t := TrimStart(w);
    TrimCloses(w);
    if t != "" {
      DropCloses(t, TokenLength(t));
      ClosedTextClosesTokens(t[TokenLength(t)..]);
    }
  }

  lemma {:induction false} StringFreeNests(e: Expr)
    requires StringFree(e)
    ensures NestedStrings(e)
  {
    match e
    case List(items) =>
      forall x | x in items
        ensures NestedStrings(x)
      {
        StringFreeNests(x);
      }
    case Symbol(_) =>
    case Quote(inner) =>
      StringFreeNests(inner);
  }

  lemma {:induction false} FreeTextCloses(e: Expr)
    requires Printable(e) && StringFree(e)
    ensures AllClose(Emit(e))
    decreases e, 0
  {
    hide BalancedLength, EmitItems;
    match e
    case List(items) =>
      FreeItemsClose(items);
      FlatCloses(")");
      JoinedClose(EmitItems(items), ")");
      StringFreeNests(e);
      ListIsPiece(e);
      assert Emit(e)[1..] == EmitItems(items) + ")";
    case Symbol(name) =>
      assert '"' !in name && '(' !in name;
      FlatCloses(name);
    case Quote(inner) =>
      FreeTextCloses(inner);
      FlatCloses("'");
      JoinedClose("'", Emit(inner));
  }

  lemma {:induction false} FreeItemsClose(items: seq<Expr>)
    requires forall x :: x in items ==> Printable(x) && StringFree(x)
    ensures AllClose(EmitItems(items))
    decreases items, 1
  {
    hide AllClose, Printable, StringFree, Emit;
    if items == [] {
      FlatCloses("");
    } else {
      FreeTextCloses(items[0]);
      if |items| > 1 {
        FreeItemsClose(items[1..]);
        FlatCloses(" ");
        JoinedClose(Emit(items[0]), " ");
        JoinedClose(Emit(items[0]) + " ", EmitItems(items[1..]));
      }
    }
  }

  lemma ListIsPiece(e: Expr)
    requires e.List? && Printable(e) && NestedStrings(e)
    ensures IsPiece(Emit(e))
  {
    hide BalancedLength, EmitItems;
    ListCloses(e, "");
    assert Emit(e) + "" == Emit(e);
  }

  /** An argument whose strings nest and whose quotes hold no string. */
  predicate PlainArgument(e: Expr) {
    Printable(e) && NestedStrings(e) && (e.Quote? ==> StringFree(e))
  }

  lemma PlainIsSelfContained(e: Expr)
    requires PlainArgument(e)
    ensures SelfContained(e)
  {
    hide Emit, IsPiece, NestedStrings, Printable, StringFree;
    if e.Quote? {
      FreeTextCloses(e);
      ClosedTextClosesTokens(Emit(e));
    } else {
      if e.List? {
        ListIsPiece(e);
      }
      OneTokenCounts(e);
    }
  }

  /** Of plain arguments only a quote with whitespace in it is miscounted. */
  lemma PlainHeadIff(clauses: seq<Expr>, name: string, args: seq<Expr>)
    requires IsSymbolName(name) && clauses != [] && clauses[0] == List([Symbol(name)] + args)
    requires forall x :: x in args ==> PlainArgument(x)
    ensures RuleHead(Emit(List(clauses))) == Ok((name, |args|))
            <==> forall x :: x in args && x.Quote? ==> forall c :: c in Emit(x) ==> !IsWhitespace(c)
  {
    hide RuleHead, Emit, IsPiece, SelfContained;
    forall x | x in args
      ensures SelfContained(x) && Printable(x) && NestedStrings(x) && (x.List? ==> IsPiece(Emit(x)))
    {
      PlainIsSelfContained(x);
      if x.List? {
        ListIsPiece(x);
      }
    }
    assert forall x :: x in clauses[0].items ==> x == Symbol(name) || x in args;
    hide PlainArgument;
    ListIsPiece(clauses[0]);
    HeadOfPrinted(clauses, name, args);
  }

  // ----- Heads that are miscounted, or counted right by accident -----

  const QUOTED: Expr := Quote(List([Symbol("a"), Symbol("b")]))

  lemma QuotedText()
    ensures Emit(QUOTED) == "'(a b)" && PlainArgument(QUOTED)
  {
    assert Printable(Symbol("a")) && Printable(Symbol("b")) && StringFree(QUOTED);
    StringFreeNests(QUOTED);
    assert [Symbol("a"), Symbol("b")] == [Symbol("a")] + [Symbol("b")];
    EmitAfterFirst(Symbol("a"), [Symbol("b")]);
    assert EmitItems([Symbol("b")]) == "b";
  }

  /** The first word and what follows it. */
  lemma WordThenTokens(word: string, rest: string)
    requires word != "" && word[0] != '"' && word[0] != '(' && forall c :: c in word ==> !IsWhitespace(c)
    ensures TokenCount(word + (" " + rest)) == 1 + TokenCount(rest)
    ensures TokenCount(word) == 1
  {
    hide TokenCount, TokenLength, EndsInside, ClosesTokens;
    WholeWord(word);
    SingleToken(word);
    TokensAdd(word, " " + rest);
    SpaceBeforeTokens(rest);
  }

  /** The head `(p '(a b))` has one argument and yields two. */
  lemma QuotedListCountsTwice()
    ensures PlainArgument(QUOTED)
    ensures RuleHead(Emit(List([List([Symbol("p")] + [QUOTED])]))) == Ok(("p", 2))
  {
    hide RuleHead, Emit, TokenCount, TokenSum, PlainArgument, IsPiece, SelfContained, OneToken;
    QuotedText();
    QuotedHeadText();
    TwoTokens();
    PlainIsSelfContained(QUOTED);
    OneSum(QUOTED);
    HeadOfPrinted([List([Symbol("p")] + [QUOTED])], "p", [QUOTED]);
  }

  lemma OneSum(e: Expr)
    ensures TokenSum([e]) == TokenCount(Emit(e))
  {
    hide TokenCount, Emit;
    assert TokenSum([]) == 0 && [e][1..] == [];
  }

  lemma QuotedHeadText()
    ensures IsPiece(Emit(List([Symbol("p")] + [QUOTED])))
  {
    QuotedText();
    var head := List([Symbol("p")] + [QUOTED]);
    assert Printable(Symbol("p")) && forall x :: x in head.items ==> x == Symbol("p") || x == QUOTED;
    hide Emit, IsPiece;
    ListIsPiece(head);
  }

  lemma TwoTokens()
    ensures TokenCount("'(a b)") == 2
  {
    hide TokenCount;
    assert "'(a b)" == "'(a" + (" " + "b)");
    WordThenTokens("'(a", "b)");
    WordThenTokens("b)", "");
  }

  /** A string token that never closes is all that is left. */
  lemma {:induction false} NeverClosed(s: string)
    requires '"' !in s && '\\' !in s
    ensures QuotedLength(s) == |s|
  {
    if s == "" {
    } else {
      NeverClosed(s[1..]);
    }
  }

  lemma OpenQuoteIsLast(s: string)
    requires '"' !in s && '\\' !in s
    ensures TokenCount("\"" + s) == 1
  {
    var t := "\"" + s;
    assert t[1..] == s && TrimStart(t) == t;
    NeverClosed(s);
    assert t[|t|..] == "";
  }

  const SWALLOWING: seq<Expr> := [Quote(List([String("a ")] + [Symbol("b")]))] + [Symbol("c")]

  lemma SwallowingQuote()
    ensures Emit(SWALLOWING[0]) == "'(\"a \" b)" && Printable(SWALLOWING[0]) && NestedStrings(SWALLOWING[0])
  {
    var items := [String("a ")] + [Symbol("b")];
    assert Printable(Symbol("b")) && Nested("a ", 0);
    assert forall x :: x in items ==> Printable(x) && NestedStrings(x);
    SwallowingString();
    SymbolText("b");
    EmitTwo(String("a "), Symbol("b"));
    TextOfList(items);
    hide EmitItems, EscapeString, Nested;
    assert "\"a \"" + " " + "b" == "\"a \" b";
  }

  lemma SwallowingString()
    ensures Emit(String("a ")) == "\"a \""
  {
    assert "a "[1..] == " " && " "[1..] == "" && EscapeString(" ") == " ";
  }

  lemma SwallowingText()
    ensures EmitItems([Symbol("p")] + SWALLOWING) == "p '(\"a \" b) c"
    ensures forall x :: x in SWALLOWING ==> Printable(x) && NestedStrings(x)
  {
    SwallowingQuote();
    SymbolText("p");
    SymbolText("c");
    assert forall x :: x in SWALLOWING ==> x == SWALLOWING[0] || x == Symbol("c");
    assert Printable(Symbol("c")) && NestedStrings(Symbol("c"));
    hide Emit, EmitItems, Printable, NestedStrings;
    EmitTwo(SWALLOWING[0], Symbol("c"));
    EmitAfterFirst(Symbol("p"), SWALLOWING);
  }

  lemma SymbolText(name: string)
    ensures Emit(Symbol(name)) == name
  {
  }

  lemma SwallowingTokens()
    ensures TokenCount("p '(\"a \" b) c") == 3
  {
    hide TokenCount;
    assert "p '(\"a \" b) c" == "p" + (" " + "'(\"a \" b) c");
    WordThenTokens("p", "'(\"a \" b) c");
    assert "'(\"a \" b) c" == "'(\"a" + (" " + "\" b) c");
    WordThenTokens("'(\"a", "\" b) c");
    assert "\" b) c" == "\"" + " b) c";
    OpenQuoteIsLast(" b) c");
  }

  lemma SwallowingHeadIsPiece()
    ensures IsPiece(Emit(List([Symbol("p")] + SWALLOWING)))
  {
    SwallowingText();
    var head := List([Symbol("p")] + SWALLOWING);
    assert Printable(Symbol("p")) && forall x :: x in head.items ==> x == Symbol("p") || x in SWALLOWING;
    hide Emit, IsPiece;
    ListIsPiece(head);
  }

  /** A quoted string may swallow what follows: the head `(p '("a " b) c)` has two arguments and yields two,
      although the first counts as two tokens and takes the second with it. */
  lemma SwallowedCountsRight()
    ensures !OneToken(SWALLOWING[0])
    ensures RuleHead(Emit(List([List([Symbol("p")] + SWALLOWING)]))) == Ok(("p", |SWALLOWING|))
  {
    SwallowedHasBlank();
    SwallowingText();
    SwallowingTokens();
    SwallowingHeadIsPiece();
    hide RuleHead, Emit, EmitItems, TokenCount, IsPiece, OneToken, Printable, NestedStrings;
    HeadTokens([List([Symbol("p")] + SWALLOWING)], "p", SWALLOWING);
  }

  lemma SwallowedHasBlank()
    ensures !OneToken(SWALLOWING[0])
  {
    SwallowingQuote();
    hide Emit, Printable;
    assert IsWhitespace(' ') && Emit(SWALLOWING[0])[4] == ' ' && SWALLOWING[0].Quote?;
  }

  /** A lone parenthesis may cut the head short: `(p ")")` has one argument, is read as `(p ")`, and yields one. */
  lemma CutHeadCountsRight()
    ensures !IsPiece(Emit(LONE_PAREN))
    ensures RuleHead(Emit(List([LONE_PAREN]))) == Ok(("p", 1))
  {
    LoneParenText();
    hide Emit, RuleHead, ScanBalanced, IsPiece;
    LoneParenIsNoPiece(Emit(LONE_PAREN));
    CutHeadText();
    CutHead("(p \")\"))");
  }

  lemma CutHeadText()
    ensures Emit(List([LONE_PAREN])) == "(" + "(p \")\"))"
  {
    LoneParenText();
    TextOfList([LONE_PAREN]);
    OneClause(LONE_PAREN);
    hide Emit, EmitItems;
    assert "(" + "(p \")\")" + ")" == "(" + "(p \")\"))";
  }

  lemma CutHead(rest: string)
    requires rest == "(p \")\"))"
    ensures RuleHead("(" + rest) == Ok(("p", 1))
  {
    LoneParenScan(rest);
    assert "(p \")"[1..4] == "p \"";
    CutTokens("p \"");
    hide RuleHead, ScanBalanced, TokenCount, FirstWord;
    YieldsHead(rest, "(p \")");
  }

  lemma YieldsHead(rest: string, head: string)
    requires rest != "" && !IsWhitespace(rest[|rest| - 1]) && rest[0] == '('
    requires ScanBalanced(rest) == Some(head) && |head| >= 2 && FirstWord(head[1..|head| - 1]) != ""
    ensures var inner := head[1..|head| - 1];
            RuleHead("(" + rest) == Ok((FirstWord(inner), if TokenCount(inner) == 0 then 0 else TokenCount(inner) - 1))
  {
    hide ScanBalanced, FirstWord, TokenCount;
    var t := "(" + rest;
    assert t[|t| - 1] == rest[|rest| - 1] && t[1..] == rest;
    TrimmedAlready(t);
    TrimmedAlready(rest);
  }

  lemma LoneParenIsNoPiece(p: string)
    requires p == "(p \")\")"
    ensures !IsPiece(p)
  {
    hide BalancedLength;
    assert p[1..] == "p \"" + ")\")";
    assert ")\")" == ")" + "\")";
    BalancedSkips("p \"", ")\")", 1);
    CloserBalances("\")");
  }

  lemma CloserBalances(rest: string)
    ensures BalancedLength(")" + rest, 1) == Some(1)
  {
  }

  lemma CutTokens(inner: string)
    requires inner == "p \""
    ensures TokenCount(inner) == 2 && FirstWord(inner) == "p"
  {
    hide TokenCount;
    assert inner == "p" + (" " + "\"");
    WordThenTokens("p", "\"");
    OpenQuoteIsLast("");
    assert "\"" + "" == "\"";
    assert TrimStart(inner) == inner;
    WordBefore("p", " \"");
    assert inner == "p" + " \"";
  }
}
