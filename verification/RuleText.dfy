/** The character scanners over stored rule lines, and their agreement with the printed rule. */
module RuleText {
  import Lowering = RayfallLowering
  import opened RayfallSyntax
  import opened Text
  import opened Wrappers

  datatype RuleError = ExpectedRule | MalformedRule | UnbalancedBody | EmptyBody | NoHead | EmptyHead

  // ----- What the scanners compute -----

  /** Index of the first opening parenthesis, or the length. */
  function FirstOpen(s: string): (n: nat)
    ensures n <= |s| && (n < |s| ==> s[n] == '(')
    ensures '(' !in s[..n]
  {
    if s == "" || s[0] == '(' then 0
    else
      assert s[..1 + FirstOpen(s[1..])] == [s[0]] + s[1..][..FirstOpen(s[1..])];
      1 + FirstOpen(s[1..])
  }

  /** How much text closes `depth` open parentheses. Strings are not looked at. */
  function BalancedLength(s: string, depth: nat): (n: Option<nat>)
    requires depth >= 1
    ensures n.Some? ==> 0 < n.value <= |s|
  {
    if s == "" then None
    else if s[0] == ')' && depth == 1 then Some(1)
    else Plus(1, BalancedLength(s[1..], if s[0] == '(' then depth + 1 else if s[0] == ')' then depth - 1 else depth))
  }

  function Plus(k: nat, n: Option<nat>): Option<nat> {
    if n.None? then None else Some(k + n.value)
  }

  /** The first balanced parenthesis. */
  function ScanBalanced(input: string): (r: Option<string>)
    ensures r.Some? ==> 2 <= |r.value| <= |input|
  {
    var start := FirstOpen(input);
    if start == |input| then None
    else
      var n := BalancedLength(input[start + 1..], 1);
      if n.None? then None else Some(input[start..start + 1 + n.value])
  }

  /** `str::find` */
  function IndexOf(s: string, sub: string): (i: Option<nat>)
    ensures i.Some? ==> i.value + |sub| <= |s|
  {
    if sub <= s then Some(0) else if s == "" then None else Plus(1, IndexOf(s[1..], sub))
  }

  function PartsOf(s: string): Result<seq<string>, RuleError>
    decreases |s|
  {
    var t := TrimStart(s);
    if t == "" || t[0] == ')' then Ok([])
    else
      var sub := ScanBalanced(t);
      if sub.None? then Err(UnbalancedBody)
      else
        var offset := IndexOf(t, sub.value);
        var rest :- PartsOf(t[(if offset.Some? then offset.value else 0) + |sub.value|..]);
        Ok([sub.value] + rest)
  }

  function JoinParts(parts: seq<string>): string {
    if parts == [] then ""
    else if |parts| == 1 then parts[0]
    else parts[0] + " " + JoinParts(parts[1..])
  }

  /** Length of the text before the first whitespace or opening parenthesis. */
  function NameLength(s: string): (n: nat)
    ensures n <= |s|
  {
    if s == "" || IsWhitespace(s[0]) || s[0] == '(' then 0 else 1 + NameLength(s[1..])
  }

  predicate StartsOpen(s: string) {
    s != "" && s[0] == '('
  }

  /** The clauses' text: after `(rule`, and after the exom name if there is one. */
  function BodyText(full: string): Result<string, RuleError> {
    var t := Trim(full);
    if !("(rule" <= t) then Err(ExpectedRule)
    else
      var s := TrimStart(t[5..]);
      if StartsOpen(s) then Ok(s)
      else if NameLength(s) == |s| then Err(MalformedRule)
      else Ok(TrimStart(s[NameLength(s)..]))
  }

  function InlineBody(full: string): Result<string, RuleError> {
    var body :- BodyText(full);
    var parts :- PartsOf(body);
    if parts == [] then Err(EmptyBody) else Ok("(" + JoinParts(parts) + ")")
  }

  /** The rest of a quoted token, closing quote included. */
  function QuotedLength(s: string): (n: nat)
    ensures n <= |s|
  {
    if s == "" then 0
    else if s[0] == '\\' then if |s| == 1 then 1 else 2 + QuotedLength(s[2..])
    else if s[0] == '"' then 1
    else 1 + QuotedLength(s[1..])
  }

  function TokenLength(t: string): (n: nat)
    requires t != "" && !IsWhitespace(t[0])
    ensures 0 < n <= |t|
  {
    if t[0] == '"' then 1 + QuotedLength(t[1..])
    else if t[0] == '(' then
      var n := BalancedLength(t[1..], 1);
      if n.None? then |t| else 1 + n.value
    else WordLength(t)
  }

  function TokenCount(s: string): nat
    decreases |s|
  {
    var t := TrimStart(s);
    if t == "" then 0 else 1 + TokenCount(t[TokenLength(t)..])
  }

  function RuleHead(inline: string): Result<(string, nat), RuleError> {
    var t := Trim(inline);
    var head := ScanBalanced(if StartsOpen(t) then TrimStart(t[1..]) else t);
    if head.None? then Err(NoHead)
    else
      var inner := head.value[1..|head.value| - 1];
      if FirstWord(inner) == "" then Err(EmptyHead)
      else Ok((FirstWord(inner), if TokenCount(inner) == 0 then 0 else TokenCount(inner) - 1))
  }

  // ----- The loops -----

  function DepthAfter(depth: int, c: char): int {
    if c == '(' then depth + 1 else if c == ')' then depth - 1 else depth
  }

  lemma BalancedAt(s: string, i: nat, depth: nat)
    requires i <= |s| && depth >= 1
    ensures i == |s| ==> BalancedLength(s[i..], depth) == None
    ensures i < |s| && DepthAfter(depth, s[i]) == 0 ==> BalancedLength(s[i..], depth) == Some(1)
    ensures i < |s| && DepthAfter(depth, s[i]) > 0 ==>
              BalancedLength(s[i..], depth) == Plus(1, BalancedLength(s[i + 1..], DepthAfter(depth, s[i])))
  {
    if i < |s| {
      assert s[i..][1..] == s[i + 1..];
    }
  }

  /** `scan_balanced_from_open` */
  method ScanBalancedFromOpen(input: string) returns (r: Option<string>)
    ensures r == ScanBalanced(input)
  {
    hide FirstOpen, BalancedLength;
    var start := FirstOpen(input);
    if start == |input| {
      return None;
    }
    var depth := 0;
    ghost var all := BalancedLength(input[start + 1..], 1);
    var i := start;
    while i < |input|
      invariant start <= i <= |input|
      invariant i == start ==> depth == 0
      invariant i > start ==> depth >= 1 && all == Plus(i - start - 1, BalancedLength(input[i..], depth))
    {
      if i > start {
        BalancedAt(input, i, depth);
      }
      depth := DepthAfter(depth, input[i]);
      i := i + 1;
      if depth == 0 {
        return Some(input[start..i]);
      }
    }
    BalancedAt(input, i, depth);
    return None;
  }

  /** `extract_inline_rule_body` */
  method ExtractInlineRuleBody(full: string) returns (r: Result<string, RuleError>)
    ensures r == InlineBody(full)
  {
    hide BodyText, ScanBalanced, IndexOf;
    var s :- BodyText(full);
    ghost var body := s;
    var parts: seq<string> := [];
    assert PartsAfter([], PartsOf(body)) == PartsOf(body) by {
      PartsAfterNothing(PartsOf(body));
    }
    while true
      invariant PartsAfter(parts, PartsOf(s)) == PartsOf(body)
      decreases |s|
    {
      PartsOfTrimmed(s);
      s := TrimStart(s);
      if s == "" || s[0] == ')' {
        break;
      }
      var sub := ScanBalancedFromOpen(s);
      if sub.None? {
        return Err(UnbalancedBody);
      }
      var found := IndexOf(s, sub.value);
      var offset := if found.Some? then found.value else 0;
      var rest := s[offset + |sub.value|..];
      PartsAfterOne(parts, sub.value, PartsOf(rest));
      parts := parts + [sub.value];
      s := rest;
    }
    assert parts + [] == parts;
    if parts == [] {
      return Err(EmptyBody);
    }
    return Ok("(" + JoinParts(parts) + ")");
  }

  function PartsAfter(read: seq<string>, r: Result<seq<string>, RuleError>): Result<seq<string>, RuleError> {
    if r.Err? then r else Ok(read + r.value)
  }

  lemma PartsAfterNothing(r: Result<seq<string>, RuleError>)
    ensures PartsAfter([], r) == r
  {
    if r.Ok? {
      assert [] + r.value == r.value;
    }
  }

  lemma PartsAfterOne(read: seq<string>, x: string, r: Result<seq<string>, RuleError>)
    ensures PartsAfter(read, PartsAfter([x], r)) == PartsAfter(read + [x], r)
  {
    if r.Ok? {
      assert read + ([x] + r.value) == (read + [x]) + r.value;
    }
  }

  lemma PartsOfTrimmed(s: string)
    ensures PartsOf(s) == PartsOf(TrimStart(s))
  {
    hide ScanBalanced, IndexOf;
    TrimStartTwice(s);
  }

  lemma TrimStartTwice(s: string)
    ensures TrimStart(TrimStart(s)) == TrimStart(s)
  {
  }

  method ScanQuoted(s: string, start: nat) returns (i: nat)
    requires start <= |s|
    ensures i == start + QuotedLength(s[start..])
  {
    i := start;
    while i < |s|
      invariant start <= i <= |s|
      invariant i + QuotedLength(s[i..]) == start + QuotedLength(s[start..])
    {
      var c := s[i];
      assert s[i..][1..] == s[i + 1..];
      assert i + 1 < |s| ==> s[i..][2..] == s[i + 2..];
      i := i + 1;
      if c == '\\' {
        if i < |s| {
          i := i + 1;
        }
        continue;
      }
      if c == '"' {
        break;
      }
    }
  }

  method ScanParen(s: string, start: nat) returns (i: nat)
    requires start < |s| && s[start] == '('
    ensures i == start + TokenLength(s[start..])
  {
    hide BalancedLength;
    ghost var all := BalancedLength(s[start + 1..], 1);
    assert s[start..][1..] == s[start + 1..];
    i := start + 1;
    var depth := 1;
    while i < |s|
      invariant start < i <= |s| && depth >= 1
      invariant all == Plus(i - start - 1, BalancedLength(s[i..], depth))
    {
      BalancedAt(s, i, depth);
      depth := DepthAfter(depth, s[i]);
      i := i + 1;
      if depth == 0 {
        break;
      }
    }
    if i == |s| && depth > 0 {
      BalancedAt(s, i, depth);
    }
  }

  /** `tokenize_head_args` */
  method TokenizeHeadArgs(inner: string) returns (count: nat)
    ensures count == if TokenCount(inner) == 0 then 0 else TokenCount(inner) - 1
  {
    hide TokenLength;
    count := 0;
    var seenPred := false;
    var s := inner;
    while true
      invariant TokenCount(inner) == TokenCount(s) + count + (if seenPred then 1 else 0)
      invariant count > 0 ==> seenPred
      decreases |s|
    {
      TokenCountTrimmed(s);
      s := TrimStart(s);
      if s == "" {
        break;
      }
      var end := ScanHeadToken(s);
      s := s[end..];
      if !seenPred {
        seenPred := true;
      } else {
        count := count + 1;
      }
    }
  }

  lemma TokenCountTrimmed(s: string)
    ensures TokenCount(s) == TokenCount(TrimStart(s))
  {
    hide TokenLength;
    TrimStartTwice(s);
  }

  method ScanHeadToken(s: string) returns (end: nat)
    requires s != "" && !IsWhitespace(s[0])
    ensures end == TokenLength(s)
  {
    hide QuotedLength, BalancedLength, WordLength;
    assert s[0..] == s;
    if s[0] == '"' {
      end := ScanQuoted(s, 1);
    } else if s[0] == '(' {
      end := ScanParen(s, 0);
    } else {
      end := WordLength(s);
    }
  }

  // ----- Balanced text -----

  /** Parentheses in the text nest, starting from `open` unclosed ones. */
  predicate Nested(text: string, open: nat) {
    if text == "" then open == 0
    else if text[0] == '(' then Nested(text[1..], open + 1)
    else if text[0] == ')' then open > 0 && Nested(text[1..], open - 1)
    else Nested(text[1..], open)
  }

  /** In every string of the expression parentheses nest. */
  predicate NestedStrings(e: Expr) {
    match e
    case List(items) => forall x :: x in items ==> NestedStrings(x)
    case Symbol(_) => true
    case String(text) => Nested(text, 0)
    case Quote(inner) => NestedStrings(inner)
  }

  lemma {:induction false} BalancedSkips(word: string, rest: string, depth: nat)
    requires depth >= 1 && '(' !in word && ')' !in word
    ensures BalancedLength(word + rest, depth) == Plus(|word|, BalancedLength(rest, depth))
    decreases |word|
  {
    if word == "" {
      assert word + rest == rest;
    } else {
      assert (word + rest)[1..] == word[1..] + rest;
      BalancedSkips(word[1..], rest, depth);
    }
  }

  lemma EscapeKeepsParens(c: char)
    ensures c == '(' || c == ')' ==> EscapeChar(c) == [c]
    ensures c != '(' && c != ')' ==> '(' !in EscapeChar(c) && ')' !in EscapeChar(c)
  {
  }

  lemma BalancedFirst(s: string, depth: nat)
    requires depth >= 1 && s != "" && (s[0] == '(' || (s[0] == ')' && depth > 1))
    ensures BalancedLength(s, depth)
            == Plus(1, BalancedLength(s[1..], if s[0] == '(' then depth + 1 else depth - 1))
  {
  }

  lemma BalancedStep(c: char, rest: string, depth: nat)
    requires depth >= 1 && (c == '(' || (c == ')' && depth > 1))
    ensures BalancedLength([c] + rest, depth)
            == Plus(1, BalancedLength(rest, if c == '(' then depth + 1 else depth - 1))
  {
    hide BalancedLength;
    assert ([c] + rest)[1..] == rest;
    BalancedFirst([c] + rest, depth);
  }

  lemma {:induction false} NestedTextBalances(text: string, open: nat, rest: string, depth: nat)
    requires depth >= 1 && Nested(text, open)
    ensures BalancedLength(EscapeString(text) + rest, depth + open)
            == Plus(|EscapeString(text)|, BalancedLength(rest, depth))
    decreases text
  {
    hide BalancedLength, EscapeChar;
    if text == "" {
      assert EscapeString(text) + rest == rest;
    } else {
      var c, tail := text[0], EscapeString(text[1..]) + rest;
      EscapeKeepsParens(c);
      assert EscapeString(text) + rest == EscapeChar(c) + tail;
      if c == '(' {
        NestedTextBalances(text[1..], open + 1, rest, depth);
        BalancedStep(c, tail, depth + open);
      } else if c == ')' {
        NestedTextBalances(text[1..], open - 1, rest, depth);
        BalancedStep(c, tail, depth + open);
      } else {
        NestedTextBalances(text[1..], open, rest, depth);
        BalancedSkips(EscapeChar(c), tail, depth + open);
      }
    }
  }

  lemma BracketsBalance(body: string, rest: string, depth: nat)
    requires depth >= 1
    requires BalancedLength(body + ([')'] + rest), depth + 1) == Plus(|body|, BalancedLength([')'] + rest, depth + 1))
    ensures BalancedLength(['('] + (body + ([')'] + rest)), depth) == Plus(|body| + 2, BalancedLength(rest, depth))
  {
    hide BalancedLength;
    BalancedStep('(', body + ([')'] + rest), depth);
    BalancedStep(')', rest, depth + 1);
  }

  /** Text that keeps the depth may be followed by more such text. */
  lemma BalanceCompose(a: string, b: string, rest: string, depth: nat)
    requires depth >= 1
    requires BalancedLength(a + (b + rest), depth) == Plus(|a|, BalancedLength(b + rest, depth))
    requires BalancedLength(b + rest, depth) == Plus(|b|, BalancedLength(rest, depth))
    ensures BalancedLength((a + b) + rest, depth) == Plus(|a + b|, BalancedLength(rest, depth))
  {
    hide BalancedLength;
    var more, whole := b + rest, a + (b + rest);
    BalanceAdds(whole, |a|, more, |b|, rest, depth);
    Regroup(a, b, rest);
  }

  lemma BalanceAdds(whole: string, j: nat, more: string, k: nat, rest: string, depth: nat)
    requires depth >= 1
    requires BalancedLength(whole, depth) == Plus(j, BalancedLength(more, depth))
    requires BalancedLength(more, depth) == Plus(k, BalancedLength(rest, depth))
    ensures BalancedLength(whole, depth) == Plus(j + k, BalancedLength(rest, depth))
  {
    hide BalancedLength;
  }

  lemma Regroup(a: string, b: string, c: string)
    ensures (a + b) + c == a + (b + c)
  {
  }

  lemma StringBalances(text: string, rest: string, depth: nat)
    requires Nested(text, 0) && depth >= 1
    ensures BalancedLength(Emit(String(text)) + rest, depth) == Plus(|Emit(String(text))|, BalancedLength(rest, depth))
  {
    hide BalancedLength, Nested, EscapeString;
    var esc := EscapeString(text);
    BalancedSkips("\"", rest, depth);
    NestedTextBalances(text, 0, "\"" + rest, depth);
    BalanceCompose(esc, "\"", rest, depth);
    BalancedSkips("\"", (esc + "\"") + rest, depth);
    BalanceCompose("\"", esc + "\"", rest, depth);
    assert Emit(String(text)) == "\"" + (esc + "\"");
  }

  /** Inside a parenthesis a printed expression leaves the scan at the depth it came with. */
  lemma {:induction false} PrintedBalances(e: Expr, rest: string, depth: nat)
    requires Printable(e) && NestedStrings(e) && depth >= 1
    ensures BalancedLength(Emit(e) + rest, depth) == Plus(|Emit(e)|, BalancedLength(rest, depth))
    decreases e, 0
  {
    hide BalancedLength, EmitItems;
    match e
    case List(items) =>
      ItemsBalance(items, [')'] + rest, depth + 1);
      BracketsBalance(EmitItems(items), rest, depth);
      assert Emit(e) + rest == ['('] + (EmitItems(items) + ([')'] + rest));
    case Symbol(name) =>
      assert '(' !in name && ')' !in name;
      BalancedSkips(name, rest, depth);
    case String(text) =>
      StringBalances(text, rest, depth);
    case Quote(inner) =>
      PrintedBalances(inner, rest, depth);
      BalancedSkips("'", Emit(inner) + rest, depth);
      BalanceCompose("'", Emit(inner), rest, depth);
  }

  lemma {:induction false} ItemsBalance(items: seq<Expr>, rest: string, depth: nat)
    requires depth >= 1 && forall x :: x in items ==> Printable(x) && NestedStrings(x)
    ensures BalancedLength(EmitItems(items) + rest, depth) == Plus(|EmitItems(items)|, BalancedLength(rest, depth))
    decreases items, 1
  {
    hide BalancedLength, Printable, NestedStrings, Emit;
    if items == [] {
      assert EmitItems(items) + rest == rest;
    } else if |items| == 1 {
      PrintedBalances(items[0], rest, depth);
    } else {
      ItemsBalance(items[1..], rest, depth);
      BalancedSkips(" ", EmitItems(items[1..]) + rest, depth);
      BalanceCompose(" ", EmitItems(items[1..]), rest, depth);
      PrintedBalances(items[0], (" " + EmitItems(items[1..])) + rest, depth);
      BalanceCompose(Emit(items[0]), " " + EmitItems(items[1..]), rest, depth);
      assert EmitItems(items) == Emit(items[0]) + (" " + EmitItems(items[1..]));
    }
  }

  /** What follows the opening parenthesis of a printed list closes at its end. */
  lemma ListCloses(e: Expr, rest: string)
    requires Printable(e) && NestedStrings(e) && e.List?
    ensures BalancedLength((Emit(e) + rest)[1..], 1) == Some(|Emit(e)| - 1)
  {
    assert (Emit(e) + rest)[1..] == EmitItems(e.items) + ([')'] + rest);
    ItemsBalance(e.items, [')'] + rest, 1);
  }

  // ----- Printed rules -----

  predicate ListsOnly(clauses: seq<Expr>) {
    clauses != [] && forall x :: x in clauses ==> x.List? && Printable(x)
  }

  function EmitEach(es: seq<Expr>): seq<string> {
    if es == [] then [] else [Emit(es[0])] + EmitEach(es[1..])
  }

  lemma {:induction false} JoinEmitted(es: seq<Expr>)
    ensures JoinParts(EmitEach(es)) == EmitItems(es) && |EmitEach(es)| == |es|
  {
    if es == [] {
    } else {
      JoinEmitted(es[1..]);
      assert EmitEach(es)[1..] == EmitEach(es[1..]);
    }
  }

  /** Text that the balancing scan takes as one clause. */
  predicate IsPiece(p: string) {
    StartsOpen(p) && BalancedLength(p[1..], 1) == Some(|p| - 1)
  }

  /** Pieces joined by single spaces: where the scan, which looks at no string, cuts the text. */
  predicate Segments(w: string)
    decreases |w|
  {
    && StartsOpen(w)
    && var n := BalancedLength(w[1..], 1);
       && n.Some?
       && (n.value + 1 == |w| || (w[n.value + 1] == ' ' && Segments(w[n.value + 2..])))
  }

  lemma {:induction false} BalancedPrefix(a: string, b: string, depth: nat)
    requires depth >= 1 && BalancedLength(a, depth).Some?
    ensures BalancedLength(a + b, depth) == BalancedLength(a, depth)
  {
    var next := DepthAfter(depth, a[0]);
    if next == 0 {
    } else {
      assert (a + b)[1..] == a[1..] + b;
      BalancedPrefix(a[1..], b, next);
    }
  }

  lemma {:induction false} BalancedTake(s: string, depth: nat)
    requires depth >= 1 && BalancedLength(s, depth).Some?
    ensures BalancedLength(s[..BalancedLength(s, depth).value], depth) == BalancedLength(s, depth)
  {
    var n, next := BalancedLength(s, depth).value, DepthAfter(depth, s[0]);
    if next == 0 {
    } else {
      assert s[..n][1..] == s[1..][..n - 1];
      BalancedTake(s[1..], next);
    }
  }

  lemma PieceIsScanned(p: string, rest: string)
    requires IsPiece(p)
    ensures ScanBalanced(p + rest) == Some(p) && IndexOf(p + rest, p) == Some(0)
  {
    hide BalancedLength;
    var s := p + rest;
    assert s[0] == '(' && FirstOpen(s) == 0;
    assert s[1..] == p[1..] + rest;
    BalancedPrefix(p[1..], rest, 1);
    assert s[..|p|] == p;
  }

  lemma PieceBeforeParts(p: string, rest: string)
    requires IsPiece(p)
    ensures PartsOf(p + rest) == PartsAfter([p], PartsOf(rest))
  {
    hide ScanBalanced, IndexOf;
    var s := p + rest;
    assert s[0] == '(' && TrimStart(s) == s;
    PieceIsScanned(p, rest);
    assert s[|p|..] == rest;
  }

  lemma PieceOfScan(s: string)
    requires ScanBalanced(s).Some?
    ensures IsPiece(ScanBalanced(s).value)
  {
    hide BalancedLength;
    var start, p := FirstOpen(s), ScanBalanced(s).value;
    var tail := s[start + 1..];
    BalancedTake(tail, 1);
    assert p[1..] == tail[..BalancedLength(tail, 1).value];
  }

  lemma SpaceBeforeParts(s: string)
    ensures PartsOf(" " + s) == PartsOf(s)
  {
    hide PartsOf;
    assert (" " + s)[1..] == s;
    PartsOfTrimmed(" " + s);
    PartsOfTrimmed(s);
  }

  lemma NoPartsAtClose()
    ensures PartsOf(")") == Ok([])
  {
    assert TrimStart(")") == ")";
  }

  /** Everything the scan collects is a piece. */
  lemma {:induction false} PartsArePieces(s: string)
    requires PartsOf(s).Ok?
    ensures forall p :: p in PartsOf(s).value ==> IsPiece(p)
    decreases |s|
  {
    hide ScanBalanced, IndexOf, IsPiece;
    var t := TrimStart(s);
    if t == "" || t[0] == ')' {
    } else {
      var sub, offset := ScanBalanced(t).value, IndexOf(t, ScanBalanced(t).value);
      PieceOfScan(t);
      PartsArePieces(t[(if offset.Some? then offset.value else 0) + |sub|..]);
    }
  }

  lemma SegmentsOfPiece(p: string, more: string)
    requires IsPiece(p) && (more == "" || (more[0] == ' ' && Segments(more[1..])))
    ensures Segments(p + more)
  {
    hide BalancedLength;
    var w := p + more;
    assert w[1..] == p[1..] + more;
    BalancedPrefix(p[1..], more, 1);
    assert more != "" ==> w[|p|] == more[0] && w[|p| + 1..] == more[1..];
  }

  lemma {:induction false} JoinIsSegments(parts: seq<string>)
    requires parts != [] && forall p :: p in parts ==> IsPiece(p)
    ensures Segments(JoinParts(parts))
  {
    hide IsPiece, Segments;
    if |parts| == 1 {
      SegmentsOfPiece(parts[0], "");
      assert parts[0] + "" == parts[0];
    } else {
      JoinIsSegments(parts[1..]);
      var more := " " + JoinParts(parts[1..]);
      assert more[1..] == JoinParts(parts[1..]);
      SegmentsOfPiece(parts[0], more);
      assert JoinParts(parts) == parts[0] + more;
    }
  }

  lemma FirstPiece(w: string) returns (p: string, more: string)
    requires Segments(w)
    ensures w == p + more && IsPiece(p) && (more == "" || (more[0] == ' ' && Segments(more[1..])))
  {
    hide BalancedLength;
    BalancedTake(w[1..], 1);
    var m := 1 + BalancedLength(w[1..], 1).value;
    p, more := w[..m], w[m..];
    assert p[1..] == w[1..][..m - 1];
    assert more != "" ==> more[1..] == w[m + 1..];
  }

  /** The scan of segmented text loses nothing. */
  lemma {:induction false} SegmentsAreJoined(w: string)
    requires Segments(w)
    ensures PartsOf(w + ")").Ok?
    ensures var parts := PartsOf(w + ")").value; parts != [] && JoinParts(parts) == w
    decreases |w|
  {
    hide PartsOf, Segments, IsPiece, JoinParts;
    var p, more := FirstPiece(w);
    if more == "" {
      LastPieceJoins(p);
      assert p + more == p;
    } else {
      SegmentsAreJoined(more[1..]);
      FirstPieceJoins(p, more[1..]);
      assert w == p + (" " + more[1..]);
    }
  }

  lemma LastPieceJoins(p: string)
    requires IsPiece(p)
    ensures PartsOf(p + ")") == Ok([p]) && JoinParts([p]) == p
  {
    hide PartsOf, IsPiece;
    PieceBeforeParts(p, ")");
    NoPartsAtClose();
    assert [p] + [] == [p];
  }

  lemma FirstPieceJoins(p: string, w: string)
    requires IsPiece(p) && PartsOf(w + ")").Ok? && PartsOf(w + ")").value != []
    requires JoinParts(PartsOf(w + ")").value) == w
    ensures PartsOf((p + (" " + w)) + ")") == Ok([p] + PartsOf(w + ")").value)
    ensures JoinParts([p] + PartsOf(w + ")").value) == p + (" " + w)
  {
    hide PartsOf, IsPiece;
    var rest := PartsOf(w + ")").value;
    PieceBeforeParts(p, " " + (w + ")"));
    SpaceBeforeParts(w + ")");
    assert (p + (" " + w)) + ")" == p + (" " + (w + ")"));
    assert ([p] + rest)[1..] == rest;
  }

  /** The canonical `(rule exom clause...)`, or the same without the exom. */
  function RuleForm(exom: Option<string>, clauses: seq<Expr>): Expr {
    if exom.Some? then Lowering.ToExpr(Lowering.Rule(exom.value, clauses)) else List([Symbol("rule")] + clauses)
  }

  lemma {:induction false} NameLengthOf(name: string, rest: string)
    requires forall i :: 0 <= i < |name| ==> IsSymbolChar(name[i])
    requires rest != "" && IsWhitespace(rest[0])
    ensures NameLength(name + rest) == |name|
  {
    if name == "" {
      assert name + rest == rest;
    } else {
      assert (name + rest)[1..] == name[1..] + rest;
      NameLengthOf(name[1..], rest);
    }
  }

  lemma EmitAfterFirst(first: Expr, others: seq<Expr>)
    requires others != []
    ensures EmitItems([first] + others) == Emit(first) + (" " + EmitItems(others))
  {
    hide Emit;
    assert ([first] + others)[1..] == others;
  }

  lemma EmitRule(exom: Option<string>, clauses: seq<Expr>)
    requires clauses != []
    ensures var named := if exom.Some? then exom.value + (" " + EmitItems(clauses)) else EmitItems(clauses);
            Emit(RuleForm(exom, clauses)) == "(rule" + (" " + (named + ")"))
  {
    var rule := Symbol("rule");
    if exom.Some? {
      var name := Symbol(exom.value);
      assert [rule, name] + clauses == [rule] + ([name] + clauses);
      EmitAfterFirst(rule, [name] + clauses);
      EmitAfterFirst(name, clauses);
    } else {
      EmitAfterFirst(rule, clauses);
    }
  }

  lemma DropLeadingSpace(s: string)
    requires s != "" && !IsWhitespace(s[0])
    ensures TrimStart(" " + s) == s && TrimStart(s) == s
  {
    assert (" " + s)[1..] == s;
  }

  lemma ClausesStart(clauses: seq<Expr>)
    requires ListsOnly(clauses)
    ensures EmitItems(clauses) != "" && EmitItems(clauses)[0] == '('
  {
    assert clauses[0].List?;
  }

  lemma BodyTextOf(exom: Option<string>, clauses: seq<Expr>)
    requires ListsOnly(clauses) && (exom.Some? ==> IsSymbolName(exom.value))
    ensures BodyText(Emit(RuleForm(exom, clauses))) == Ok(EmitItems(clauses) + ")")
  {
    assert clauses != [];
    hide Emit, EmitItems, ListsOnly, RuleForm, IsSymbolName, BodyText;
    EmitRule(exom, clauses);
    ClausesStart(clauses);
    var full, body := Emit(RuleForm(exom, clauses)), EmitItems(clauses) + ")";
    var named := if exom.Some? then exom.value + (" " + EmitItems(clauses)) else EmitItems(clauses);
    if exom.Some? {
      assert named + ")" == exom.value + (" " + body);
      BodyAfterName(full, exom.value, body);
    } else {
      BodyAfterRule(full, body);
    }
  }

  /** What `(rule` leaves, when its last character is not blank. */
  lemma RuleKeyword(full: string, s: string)
    requires full == "(rule" + (" " + s) && s != "" && !IsWhitespace(s[0]) && !IsWhitespace(s[|s| - 1])
    ensures Trim(full) == full && "(rule" <= full && TrimStart(full[5..]) == s
  {
    assert full[0] == '(' && full[|full| - 1] == s[|s| - 1];
    TrimmedAlready(full);
    assert full[..5] == "(rule" && full[5..] == " " + s;
    DropLeadingSpace(s);
  }

  lemma BodyAfterRule(full: string, body: string)
    requires full == "(rule" + (" " + body) && StartsOpen(body) && body[|body| - 1] == ')'
    ensures BodyText(full) == Ok(body)
  {
    hide Trim, TrimStart;
    RuleKeyword(full, body);
  }

  lemma BodyAfterName(full: string, name: string, body: string)
    requires IsSymbolName(name) && StartsOpen(body) && body[|body| - 1] == ')'
    requires full == "(rule" + (" " + (name + (" " + body)))
    ensures BodyText(full) == Ok(body)
  {
    hide Trim, TrimStart, NameLength;
    var s := name + (" " + body);
    assert IsSymbolChar(name[0]) && s[0] == name[0] && s[|s| - 1] == ')';
    RuleKeyword(full, s);
    NameLengthOf(name, " " + body);
    assert s[|name|..] == " " + body;
    DropLeadingSpace(body);
  }

  /** From a printed rule whose clauses are lists the inline body is exactly the printed list of its clauses if
      and only if the scan, which looks at no string, finds pieces joined by single spaces in their text. */
  lemma InlineBodyIff(exom: Option<string>, clauses: seq<Expr>)
    requires ListsOnly(clauses) && (exom.Some? ==> IsSymbolName(exom.value))
    ensures InlineBody(Emit(RuleForm(exom, clauses))) == Ok(Emit(List(clauses))) <==> Segments(EmitItems(clauses))
  {
    hide BodyText, PartsOf, Segments, IsPiece, JoinParts, RuleForm, ListsOnly, IsSymbolName, EmitItems;
    var w := EmitItems(clauses);
    BodyTextOf(exom, clauses);
    assert Emit(List(clauses)) == "(" + w + ")";
    hide Emit;
    if Segments(w) {
      SegmentsAreJoined(w);
    } else if PartsOf(w + ")").Ok? && PartsOf(w + ")").value != [] {
      var parts := PartsOf(w + ")").value;
      PartsArePieces(w + ")");
      JoinIsSegments(parts);
      SameInside(JoinParts(parts), w);
    }
  }

  lemma SameInside(a: string, b: string)
    ensures "(" + a + ")" == "(" + b + ")" ==> a == b
  {
    assert ("(" + a + ")")[1..|a| + 1] == a;
    assert ("(" + b + ")")[1..|b| + 1] == b;
  }

  lemma ListIsPiece(e: Expr)
    requires Printable(e) && NestedStrings(e) && e.List?
    ensures IsPiece(Emit(e))
  {
    hide BalancedLength;
    ListCloses(e, "");
    assert Emit(e) + "" == Emit(e);
  }

  lemma {:induction false} NestedArePieces(clauses: seq<Expr>)
    requires forall x :: x in clauses ==> x.List? && Printable(x) && NestedStrings(x)
    ensures forall p :: p in EmitEach(clauses) ==> IsPiece(p)
  {
    hide IsPiece, Printable, NestedStrings;
    if clauses == [] {
    } else {
      ListIsPiece(clauses[0]);
      NestedArePieces(clauses[1..]);
    }
  }

  /** It is enough that in every string parentheses nest. */
  lemma InlineBodyOfPrinted(exom: Option<string>, clauses: seq<Expr>)
    requires ListsOnly(clauses) && (exom.Some? ==> IsSymbolName(exom.value))
    requires forall x :: x in clauses ==> NestedStrings(x)
    ensures Segments(EmitItems(clauses))
    ensures InlineBody(Emit(RuleForm(exom, clauses))) == Ok(Emit(List(clauses)))
  {
    hide InlineBody, Segments, IsPiece, NestedStrings;
    NestedArePieces(clauses);
    JoinEmitted(clauses);
    JoinIsSegments(EmitEach(clauses));
    InlineBodyIff(exom, clauses);
  }

  const LONE_PAREN: Expr := List([Symbol("p"), String(")")])

  lemma LoneParenText()
    ensures Printable(LONE_PAREN) && Emit(LONE_PAREN) == "(p \")\")"
  {
    StringClause("p", ")");
  }

  lemma LoneParenScan(s: string)
    requires s == "(p \")\"))"
    ensures ScanBalanced(s) == Some("(p \")") && IndexOf(s, "(p \")") == Some(0) && s[5..] == "\"))"
  {
    assert s[..5] == "(p \")";
    assert s[1..] == "p \"" + ")\"))";
    BalancedSkips("p \"", ")\"))", 1);
    assert FirstOpen(s) == 0;
  }

  lemma LoneParenParts(s: string)
    requires s == "(p \")\"))"
    ensures PartsOf(s) == Err(UnbalancedBody)
  {
    TrimmedAlready(s);
    LoneParenScan(s);
    NoOpenIsRefused("\"))");
    hide ScanBalanced, IndexOf, TrimStart;
    assert s[0] == '(';
    var sub := ScanBalanced(s);
    assert sub.Some? && IndexOf(s, sub.value) == Some(0);
    assert PartsOf(s[0 + |sub.value|..]) == Err(UnbalancedBody);
  }

  lemma LoneParenRule(s: string)
    requires s == "(p \")\"))"
    ensures Printable(RuleForm(None, [LONE_PAREN])) && Emit(RuleForm(None, [LONE_PAREN])) == "(rule" + (" " + s)
  {
    LoneParenText();
    EmitRule(None, [LONE_PAREN]);
    OneClause(LONE_PAREN);
    hide Emit;
    assert s == "(p \")\")" + ")";
  }

  lemma OneClause(clause: Expr)
    requires Printable(clause)
    ensures EmitItems([clause]) == Emit(clause) && Printable(RuleForm(None, [clause]))
  {
    assert RuleForm(None, [clause]).items == [Symbol("rule"), clause];
  }

  /** A string with a lone parenthesis breaks the scan: `(rule (p ")"))` is refused. */
  lemma LoneParenIsRefused()
    ensures ListsOnly([LONE_PAREN]) && !Segments(EmitItems([LONE_PAREN]))
    ensures InlineBody(Emit(RuleForm(None, [LONE_PAREN]))) == Err(UnbalancedBody)
  {
    LoneParenText();
    assert ListsOnly([LONE_PAREN]);
    hide Emit, EmitItems, BodyText, PartsOf, RuleForm, Printable, Segments;
    var s := "(p \")\"))";
    LoneParenRule(s);
    BodyAfterRule(Emit(RuleForm(None, [LONE_PAREN])), s);
    LoneParenParts(s);
    InlineBodyIff(None, [LONE_PAREN]);
  }

  const OPENING := List([Symbol("p"), String("(")])
  const CLOSING := List([Symbol("q"), String(")")])
  const CROSSED: seq<Expr> := [OPENING] + [CLOSING]

  lemma OpeningText()
    ensures Printable(OPENING) && Emit(OPENING) == "(p \"(\")"
  {
    StringClause("p", "(");
  }

  lemma ClosingText()
    ensures Printable(CLOSING) && Emit(CLOSING) == "(q \")\")"
  {
    StringClause("q", ")");
  }

  lemma CrossedText()
    ensures ListsOnly(CROSSED) && EmitItems(CROSSED) == "(p \"(\") (q \")\")"
  {
    OpeningText();
    ClosingText();
    hide Printable, Emit, EmitItems;
    EmitTwo(OPENING, CLOSING);
    assert "(p \"(\")" + " " + "(q \")\")" == "(p \"(\") (q \")\")";
  }

  lemma EmitTwo(first: Expr, second: Expr)
    ensures EmitItems([first] + [second]) == Emit(first) + " " + Emit(second)
  {
    hide Emit;
    EmitAfterFirst(first, [second]);
    assert EmitItems([second]) == Emit(second);
  }

  lemma StringClause(name: string, text: string)
    requires IsSymbolName(name) && |text| == 1 && EscapeChar(text[0]) == text
    ensures var clause := List([Symbol(name), String(text)]);
            Printable(clause) && Emit(clause) == "(" + name + " \"" + text + "\")"
  {
    hide EscapeChar;
    var clause := List([Symbol(name), String(text)]);
    assert Printable(Symbol(name)) && text[1..] == "" && EscapeString(text) == text;
    hide EscapeString;
    assert [Symbol(name), String(text)] == [Symbol(name)] + [String(text)];
    EmitAfterFirst(Symbol(name), [String(text)]);
    assert EmitItems([String(text)]) == Emit(String(text));
  }

  lemma CrossedBalances()
    ensures BalancedLength("p \"(\") (q \")\")", 1) == Some(14)
  {
    hide BalancedLength;
    var end, tail, middle := "\"" + ")", "q \"" + (")" + ("\"" + ")")), " " + ("(" + ("q \"" + (")" + ("\"" + ")"))));
    LastClose();
    BalancedSkips("\"", ")", 1);
    BalancedStep(')', end, 2);
    BalancedSkips("q \"", ")" + end, 2);
    BalancedStep('(', tail, 1);
    BalancedSkips(" ", "(" + tail, 1);
    BalancedStep(')', middle, 2);
    BalancedSkips("\"", ")" + middle, 2);
    BalancedStep('(', "\"" + (")" + middle), 1);
    BalancedSkips("p \"", "(" + ("\"" + (")" + middle)), 1);
    assert "p \"(\") (q \")\")" == "p \"" + ("(" + ("\"" + (")" + middle)));
  }

  lemma LastClose()
    ensures BalancedLength(")", 1) == Some(1)
  {
  }

  /** Parentheses need not nest in each string: in `(p "(") (q ")")` the scan takes both clauses for one, and
      the text comes out whole all the same. */
  lemma CrossedComesOutRight()
    ensures !NestedStrings(CROSSED[0])
    ensures InlineBody(Emit(RuleForm(None, CROSSED))) == Ok(Emit(List(CROSSED)))
  {
    assert !Nested("(", 0) && !NestedStrings(CROSSED[0].items[1]);
    CrossedText();
    hide Emit, EmitItems, InlineBody, RuleForm, Segments, Printable, ListsOnly;
    CrossedSegments(EmitItems(CROSSED));
    InlineBodyIff(None, CROSSED);
  }

  lemma CrossedSegments(w: string)
    requires w == "(p \"(\") (q \")\")"
    ensures Segments(w)
  {
    hide BalancedLength;
    CrossedBalances();
    assert w[1..] == "p \"(\") (q \")\")";
  }

  lemma NoOpenIsRefused(s: string)
    requires s != "" && !IsWhitespace(s[0]) && s[0] != ')' && '(' !in s
    ensures PartsOf(s) == Err(UnbalancedBody)
  {
    assert TrimStart(s) == s;
    assert FirstOpen(s) == |s|;
  }
}
