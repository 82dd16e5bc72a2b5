/** What the hand-written scanners read and refuse on any text, printed or not. */
module ScannerLaws {
  import opened Wrappers
  import opened Text
  import FormSplitter
  import MutationLexer
  import RuleText

  // ----- The kind of a form -----

  /** Five words name a kind, and no other word does. */
  lemma KindIs(word: string)
    ensures FormSplitter.KindNamed(word)
            == match word
               case "assert-fact" => FormSplitter.AssertFact
               case "retract-fact" => FormSplitter.RetractFact
               case "rule" => FormSplitter.Rule
               case "query" => FormSplitter.Query
               case "in-exom" => FormSplitter.InExom
               case _ => FormSplitter.Other
  {
  }

  /** The first word decides, after an opening parenthesis if there is one. */
  lemma FirstWordDecides(word: string, rest: string)
    requires word != "" && word[0] != '(' && forall c :: c in word ==> !IsWhitespace(c)
    requires rest != "" ==> IsWhitespace(rest[0]) && !IsWhitespace(rest[|rest| - 1])
    ensures FormSplitter.Classify(word + rest) == FormSplitter.KindNamed(word)
    ensures FormSplitter.Classify("(" + (word + rest)) == FormSplitter.KindNamed(word)
  {
    hide FormSplitter.KindNamed;
    var t := word + rest;
    assert t[0] == word[0] && t[|t| - 1] == if rest == "" then word[|word| - 1] else rest[|rest| - 1];
    TrimmedAlready(t);
    WordBefore(word, rest);
    assert FirstWord(t) == word;
    var open := "(" + t;
    assert open[|open| - 1] == t[|t| - 1] && open[1..] == t;
    TrimmedAlready(open);
  }

  // ----- The tokens of a mutation -----

  lemma BlankIsSkipped(c: char, s: string)
    requires IsAsciiWhitespace(c)
    ensures SkipAscii([c] + s) == SkipAscii(s)
  {
    assert ([c] + s)[1..] == s;
  }

  lemma {:induction false} TokenUpTo(word: string, rest: string)
    requires forall c :: c in word ==> !IsAsciiWhitespace(c) && c != ')'
    requires rest == "" || IsAsciiWhitespace(rest[0]) || rest[0] == ')'
    ensures MutationLexer.TokenLength(word + rest) == |word|
  {
    if word == "" {
      assert word + rest == rest;
    } else {
      assert word[0] in word && (word + rest)[1..] == word[1..] + rest;
      TokenUpTo(word[1..], rest);
    }
  }

  /** A bare token ends before ASCII whitespace or a closing parenthesis. */
  lemma TokenReads(word: string, rest: string)
    requires word != "" && word[0] != '"' && forall c :: c in word ==> !IsAsciiWhitespace(c) && c != ')'
    requires rest == "" || IsAsciiWhitespace(rest[0]) || rest[0] == ')'
    ensures MutationLexer.NextToken(word + rest) == Ok((word, rest))
  {
    TokenUpTo(word, rest);
    var t := word + rest;
    assert SkipAscii(t) == t;
    assert t[..|word|] == word && t[|word|..] == rest;
  }

  lemma {:induction false} RawUpTo(raw: string, rest: string)
    requires '"' !in raw && '\\' !in raw
    ensures MutationLexer.RawLength(raw + ("\"" + rest)) == Some(|raw|)
  {
    if raw == "" {
      assert raw + ("\"" + rest) == "\"" + rest;
    } else {
      assert (raw + ("\"" + rest))[1..] == raw[1..] + ("\"" + rest);
      RawUpTo(raw[1..], rest);
    }
  }

  lemma {:induction false} NoEscapeStays(raw: string)
    requires '\\' !in raw
    ensures MutationLexer.UnescapeQuotes(raw) == raw
  {
    if raw == "" {
    } else {
      NoEscapeStays(raw[1..]);
      assert raw == [raw[0]] + raw[1..];
    }
  }

  /** A string without escapes is read as it stands; as the first argument it may stand for a token. */
  lemma StringReads(raw: string, rest: string)
    requires '"' !in raw && '\\' !in raw
    ensures MutationLexer.NextString("\"" + (raw + ("\"" + rest))) == Ok((raw, rest))
    ensures MutationLexer.NextToken("\"" + (raw + ("\"" + rest))) == Ok((raw, rest))
  {
    hide MutationLexer.RawLength, MutationLexer.UnescapeQuotes;
    var t := "\"" + (raw + ("\"" + rest));
    var body := raw + ("\"" + rest);
    assert SkipAscii(t) == t && t[1..] == body;
    RawUpTo(raw, rest);
    NoEscapeStays(raw);
    assert body[..|raw|] == raw && body[|raw| + 1..] == rest;
  }

  /** An escaped quote becomes a quote; every other escape stays as it is spelled. */
  lemma EscapeReads(c: char, raw: string)
    ensures MutationLexer.UnescapeQuotes(['\\', '"'] + raw) == "\"" + MutationLexer.UnescapeQuotes(raw)
    ensures c != '"' ==>
              MutationLexer.UnescapeQuotes(['\\', c] + raw) == "\\" + MutationLexer.UnescapeQuotes([c] + raw)
  {
    var quote, other := ['\\', '"'], ['\\', c];
    assert (quote + raw)[2..] == raw && (other + raw)[1..] == [c] + raw;
  }

  lemma {:induction false} NeverCloses(raw: string)
    requires '"' !in raw && '\\' !in raw
    ensures MutationLexer.RawLength(raw) == None
  {
    if raw == "" {
    } else {
      NeverCloses(raw[1..]);
    }
  }

  /** What is no string, or does not close, is refused. */
  lemma StringErrors(s: string, raw: string)
    requires '"' !in raw && '\\' !in raw
    ensures SkipAscii(s) == "" || SkipAscii(s)[0] != '"' ==>
              MutationLexer.NextString(s) == Err(MutationLexer.ExpectedString)
    ensures MutationLexer.NextString("\"" + raw) == Err(MutationLexer.UnclosedString)
    ensures SkipAscii(s) == "" ==> MutationLexer.NextToken(s) == Err(MutationLexer.ExpectedToken)
    ensures SkipAscii(s) == "" ==> MutationLexer.NextQuotedSymbol(s) == Err(MutationLexer.ExpectedQuotedSymbol)
  {
    NeverCloses(raw);
    assert ("\"" + raw)[1..] == raw && SkipAscii("\"" + raw) == "\"" + raw;
  }

  /** The quote before a predicate may be left out. */
  lemma QuoteIsOptional(word: string, rest: string)
    requires word != "" && word[0] != '"' && word[0] != '\''
    requires forall c :: c in word ==> !IsAsciiWhitespace(c) && c != ')'
    requires rest == "" || IsAsciiWhitespace(rest[0]) || rest[0] == ')'
    ensures MutationLexer.NextQuotedSymbol(word + rest) == Ok((word, rest))
    ensures MutationLexer.NextQuotedSymbol("'" + (word + rest)) == Ok((word, rest))
  {
    TokenReads(word, rest);
    var t := word + rest;
    assert t[0] == word[0] && SkipAscii(t) == t;
    assert ("'" + t)[1..] == t && SkipAscii("'" + t) == "'" + t;
    hide MutationLexer.NextToken;
  }

  /** The first argument that fails is the one reported. */
  lemma FirstFailureCounts(inner: string)
    ensures var exom := MutationLexer.NextToken(Trim(inner));
            exom.Err? ==> MutationLexer.ParseMutation(inner) == Err(exom.error)
    ensures var exom := MutationLexer.NextToken(Trim(inner));
            exom.Ok? && MutationLexer.NextString(exom.value.1).Err? ==>
              MutationLexer.ParseMutation(inner) == Err(MutationLexer.NextString(exom.value.1).error)
  {
    hide MutationLexer.NextToken, MutationLexer.NextString, MutationLexer.NextQuotedSymbol, Trim;
  }

  // ----- Rule text that is no rule -----

  /** Only text that starts with `(rule` is one. */
  lemma NoRule(full: string)
    requires !("(rule" <= Trim(full))
    ensures RuleText.InlineBody(full) == Err(RuleText.ExpectedRule)
  {
    hide Trim;
  }

  lemma {:induction false} NameUpTo(name: string, rest: string)
    requires '(' !in name && forall c :: c in name ==> !IsWhitespace(c)
    requires rest == "" || IsWhitespace(rest[0]) || rest[0] == '('
    ensures RuleText.NameLength(name + rest) == |name|
  {
    if name == "" {
      assert name + rest == rest;
    } else {
      assert (name + rest)[1..] == name[1..] + rest;
      NameUpTo(name[1..], rest);
    }
  }

  /** A rule of a name alone is malformed. */
  lemma NameAlone(name: string)
    requires '(' !in name && forall c :: c in name ==> !IsWhitespace(c)
    requires name != ""
    ensures RuleText.InlineBody("(rule" + (" " + name)) == Err(RuleText.MalformedRule)
    ensures RuleText.InlineBody("(rule") == Err(RuleText.MalformedRule)
  {
    var t := "(rule" + (" " + name);
    NameUpTo(name, "");
    assert name + "" == name && name[0] in name;
    AlreadyTrimmed(name);
    TrimLeading(name);
    assert t[|t| - 1] == name[|name| - 1] && t[0] == '(' && t[5..] == " " + name && "(rule" <= t;
    TrimmedAlready(t);
    TrimmedAlready("(rule");
    assert "(rule"[5..] == "" && TrimStart("") == "";
    hide TrimStart, Trim;
  }

  /** One without clauses is empty. */
  lemma NoClauses(name: string)
    requires '(' !in name && name != "" && forall c :: c in name ==> !IsWhitespace(c)
    ensures RuleText.InlineBody("(rule" + (" " + (name + " )"))) == Err(RuleText.EmptyBody)
  {
    var s := name + " )";
    var t := "(rule" + (" " + s);
    NameUpTo(name, " )");
    AlreadyTrimmed(s);
    TrimLeading(s);
    assert t[|t| - 1] == ')' && t[0] == '(' && t[5..] == " " + s && s[|name|..] == " )" && s[0] == name[0];
    assert "(rule" <= t;
    TrimmedAlready(t);
    TrimLeading(")");
    AlreadyTrimmed(")");
    assert " " + ")" == " )";
    hide TrimStart, Trim, RuleText.NameLength, RuleText.PartsOf;
    assert RuleText.BodyText(t) == Ok(")");
    NothingIn(")");
    hide RuleText.BodyText;
  }

  lemma TrimLeading(s: string)
    ensures TrimStart(" " + s) == TrimStart(s)
  {
    assert (" " + s)[1..] == s;
  }

  lemma NothingIn(s: string)
    requires s != "" && s[0] == ')'
    ensures RuleText.PartsOf(s) == Ok([])
  {
    AlreadyTrimmed(s);
  }

  /** Without a parenthesis there is no head, and a head needs a word. */
  lemma NoHead(inline: string)
    requires '(' !in inline && inline != "" && !IsWhitespace(inline[0]) && !IsWhitespace(inline[|inline| - 1])
    ensures RuleText.RuleHead(inline) == Err(RuleText.NoHead)
    ensures RuleText.RuleHead("()") == Err(RuleText.NoHead)
    ensures RuleText.RuleHead("(())") == Err(RuleText.EmptyHead)
  {
    TrimmedAlready(inline);
    assert RuleText.FirstOpen(inline) == |inline|;
    TrimmedAlready("()");
    assert "()"[1..] == ")" && TrimStart(")") == ")";
    TrimmedAlready("(())");
    assert "(())"[1..] == "())" && TrimStart("())") == "())";
    assert "())"[1..] == "))" && RuleText.BalancedLength("))", 1) == Some(1);
    assert "())"[0..2] == "()" && "()"[1..1] == "";
    assert FirstWord("") == "";
  }

  lemma {:induction false} FoundBehind(before: string, sub: string, rest: string)
    requires '(' !in before && sub != "" && sub[0] == '('
    ensures RuleText.IndexOf(before + (sub + rest), sub) == Some(|before|)
    ensures RuleText.FirstOpen(before + (sub + rest)) == |before|
  {
    var s := before + (sub + rest);
    if before == "" {
      assert s == sub + rest;
    } else {
      assert s[0] == before[0] && before[0] in before && s[1..] == before[1..] + (sub + rest);
      FoundBehind(before[1..], sub, rest);
    }
  }

  /** Text before a balanced clause is passed over. */
  lemma JunkIsSkipped(junk: string, clause: string, rest: string)
    requires junk != "" && '(' !in junk && junk[0] != ')' && !IsWhitespace(junk[0]) && RuleText.IsPiece(clause)
    ensures RuleText.PartsOf(junk + (clause + rest)) == RuleText.PartsAfter([clause], RuleText.PartsOf(rest))
  {
    hide RuleText.ScanBalanced, RuleText.IndexOf, RuleText.IsPiece, RuleText.PartsOf, TrimStart;
    var s := junk + (clause + rest);
    NotEmptyPiece(clause);
    FoundBehind(junk, clause, rest);
    PieceBehind(junk, clause, rest);
    assert s[0] == junk[0];
    AlreadyTrimmed(s);
    assert s[|junk| + |clause|..] == rest;
    OnePart(s, clause, |junk|);
  }

  lemma NotEmptyPiece(clause: string)
    requires RuleText.IsPiece(clause)
    ensures clause != "" && clause[0] == '('
  {
  }

  lemma AlreadyTrimmed(s: string)
    requires s != "" && !IsWhitespace(s[0])
    ensures TrimStart(s) == s
  {
  }

  lemma OnePart(s: string, clause: string, offset: nat)
    requires s != "" && s[0] != ')' && TrimStart(s) == s && offset + |clause| <= |s|
    requires RuleText.ScanBalanced(s) == Some(clause) && RuleText.IndexOf(s, clause) == Some(offset)
    ensures RuleText.PartsOf(s) == RuleText.PartsAfter([clause], RuleText.PartsOf(s[offset + |clause|..]))
  {
    hide RuleText.ScanBalanced, RuleText.IndexOf, TrimStart;
  }

  lemma PieceBehind(junk: string, clause: string, rest: string)
    requires '(' !in junk && RuleText.IsPiece(clause)
    ensures RuleText.ScanBalanced(junk + (clause + rest)) == Some(clause)
  {
    hide RuleText.BalancedLength, RuleText.FirstOpen, RuleText.IndexOf;
    var s := junk + (clause + rest);
    FoundBehind(junk, clause, rest);
    assert s[|junk| + 1..] == clause[1..] + rest;
    RuleText.BalancedPrefix(clause[1..], rest, 1);
    assert s[|junk|..|junk| + |clause|] == clause;
  }

  /** The head is the first balanced clause, whether or not the text opens with a parenthesis of its own. */
  lemma HeadBehind(junk: string, clause: string, rest: string)
    requires junk != "" && '(' !in junk && !IsWhitespace(junk[0]) && RuleText.IsPiece(clause)
    requires rest != "" ==> !IsWhitespace(rest[|rest| - 1])
    ensures RuleText.RuleHead(junk + (clause + rest)) == RuleText.RuleHead("(" + (clause + rest))
  {
    hide RuleText.ScanBalanced, RuleText.TokenCount, FirstWord, RuleText.IsPiece, RuleText.RuleHead, Trim, TrimStart;
    var body := clause + rest;
    NotEmptyPiece(clause);
    PieceBehind(junk, clause, rest);
    RuleText.PieceIsScanned(clause, rest);
    ClosesText(clause, rest);
    HeadFound(junk + body, junk + body, clause);
    assert ("(" + body)[1..] == body;
    HeadFound("(" + body, body, clause);
  }

  /** What the head yields. */
  function Yield(head: string): Result<(string, nat), RuleText.RuleError>
    requires |head| >= 2
  {
    var inner := head[1..|head| - 1];
    if FirstWord(inner) == "" then Err(RuleText.EmptyHead)
    else Ok((FirstWord(inner), if RuleText.TokenCount(inner) == 0 then 0 else RuleText.TokenCount(inner) - 1))
  }

  lemma HeadFound(t: string, scanned: string, head: string)
    requires t != "" && !IsWhitespace(t[0]) && !IsWhitespace(t[|t| - 1])
    requires scanned != "" && !IsWhitespace(scanned[0]) && scanned == if t[0] == '(' then t[1..] else t
    requires RuleText.ScanBalanced(scanned) == Some(head)
    ensures |head| >= 2 && RuleText.RuleHead(t) == Yield(head)
  {
    hide RuleText.ScanBalanced, RuleText.TokenCount, FirstWord;
    TrimmedAlready(t);
    AlreadyTrimmed(scanned);
    hide Trim, TrimStart;
  }

  lemma ClosesText(clause: string, rest: string)
    requires RuleText.IsPiece(clause) && (rest != "" ==> !IsWhitespace(rest[|rest| - 1]))
    ensures var t := clause + rest; t != "" && !IsWhitespace(t[0]) && !IsWhitespace(t[|t| - 1])
  {
    EndsWithCloser(clause[1..], 1);
    NotEmptyPiece(clause);
    hide RuleText.BalancedLength;
    if rest == "" {
      assert clause + rest == clause && clause[|clause| - 1] == clause[1..][|clause| - 2];
    }
  }

  lemma {:induction false} EndsWithCloser(s: string, depth: nat)
    requires depth >= 1 && RuleText.BalancedLength(s, depth).Some?
    ensures s[RuleText.BalancedLength(s, depth).value - 1] == ')'
  {
    if s[0] == ')' && depth == 1 {
    } else {
      EndsWithCloser(s[1..], if s[0] == '(' then depth + 1 else if s[0] == ')' then depth - 1 else depth);
    }
  }

  /** Only a list has an inside. */
  lemma NoInside(text: string)
    requires text != "" && text[0] != '(' && !IsWhitespace(text[0]) && !IsWhitespace(text[|text| - 1])
    ensures FormSplitter.InnerAfterSymbol(text) == "" && FormSplitter.InnerAfterSymbol("") == ""
  {
    TrimmedAlready(text);
    TrimmedAlready("");
  }
}
