/** `split_forms`: top-level forms found by balancing parentheses, and its agreement with the parser. */
module FormSplitter {
  import opened RayfallSyntax
  import opened Text
  import opened Wrappers

  datatype FormKind = AssertFact | RetractFact | Rule | Query | InExom | Other

  datatype TopLevelForm = TopLevelForm(kind: FormKind, source: string, inner: string)

  // ----- What the scanner computes -----

  function KindNamed(word: string): FormKind {
    if word == "assert-fact" then AssertFact
    else if word == "retract-fact" then RetractFact
    else if word == "rule" then Rule
    else if word == "query" then Query
    else if word == "in-exom" then InExom
    else Other
  }

  function StripOpen(s: string): string {
    if s != "" && s[0] == '(' then s[1..] else s
  }

  function Classify(form: string): FormKind {
    KindNamed(FirstWord(TrimStart(StripOpen(Trim(form)))))
  }

  /** Length of the text before the first whitespace or closing parenthesis. */
  function HeadLength(s: string): (n: nat)
    ensures n <= |s|
  {
    if s == "" || IsWhitespace(s[0]) || s[0] == ')' then 0 else 1 + HeadLength(s[1..])
  }

  function InnerAfterSymbol(form: string): string {
    var t := Trim(form);
    if t == "" || t[0] != '(' then ""
    else
      var rest := TrimStart(t[1..]);
      Trim(rest[HeadLength(rest)..])
  }

  function FormOf(text: string): TopLevelForm {
    TopLevelForm(Classify(text), text, InnerAfterSymbol(text))
  }

  /** Length of the text before the first ASCII whitespace. */
  function AtomLength(s: string): (n: nat)
    ensures n <= |s|
  {
    if s == "" || IsAsciiWhitespace(s[0]) then 0 else 1 + AtomLength(s[1..])
  }

  /** How far the balancing loop runs from a scanner state. */
  function FormLength(s: string, depth: int, inString: bool, escape: bool): (n: nat)
    ensures n <= |s| && (s != "" ==> n > 0)
  {
    if s == "" then 0
    else if inString then
      if escape then 1 + FormLength(s[1..], depth, true, false)
      else if s[0] == '\\' then 1 + FormLength(s[1..], depth, true, true)
      else 1 + FormLength(s[1..], depth, s[0] != '"', false)
    else if s[0] == '"' then 1 + FormLength(s[1..], depth, true, escape)
    else if s[0] == '(' then 1 + FormLength(s[1..], depth + 1, false, escape)
    else if s[0] == ')' then if depth == 1 then 1 else 1 + FormLength(s[1..], depth - 1, false, escape)
    else 1 + FormLength(s[1..], depth, false, escape)
  }

  function SplitForms(s: string): seq<TopLevelForm>
    decreases |s|, 1
  {
    SplitAt(SkipAscii(s))
  }

  function SplitAt(t: string): seq<TopLevelForm>
    requires t != "" ==> !IsAsciiWhitespace(t[0])
    decreases |t|, 0
  {
    if t == "" then []
    else if StartsComment(t) then SplitForms(SkipLine(t))
    else if t[0] != '(' then
      var n := AtomLength(t);
      [TopLevelForm(Other, t[..n], "")] + SplitForms(t[n..])
    else
      var n := FormLength(t, 0, false, false);
      [FormOf(t[..n])] + SplitForms(t[n..])
  }

  // ----- The loops -----

  method ScanForm(source: string, start: nat) returns (i: nat)
    requires start <= |source|
    ensures i == start + FormLength(source[start..], 0, false, false)
  {
    i := start;
    var depth, inString, escape := 0, false, false;
    while i < |source|
      invariant start <= i <= |source|
      invariant i + FormLength(source[i..], depth, inString, escape)
                == start + FormLength(source[start..], 0, false, false)
    {
      var b := source[i];
      assert source[i..][1..] == source[i + 1..];
      if inString {
        if escape {
          escape := false;
        } else if b == '\\' {
          escape := true;
        } else if b == '"' {
          inString := false;
        }
        i := i + 1;
        continue;
      }
      if b == '"' {
        inString := true;
        i := i + 1;
        continue;
      }
      if b == '(' {
        depth := depth + 1;
      } else if b == ')' {
        depth := depth - 1;
        i := i + 1;
        if depth == 0 {
          break;
        }
        continue;
      }
      i := i + 1;
    }
  }

  method SkipSpaces(source: string, start: nat) returns (i: nat)
    requires start <= |source|
    ensures start <= i <= |source| && source[i..] == SkipAscii(source[start..])
  {
    i := start;
    while i < |source| && IsAsciiWhitespace(source[i])
      invariant start <= i <= |source|
      invariant SkipAscii(source[i..]) == SkipAscii(source[start..])
    {
      assert source[i..][1..] == source[i + 1..];
      i := i + 1;
    }
  }

  method SkipToLineEnd(source: string, start: nat) returns (i: nat)
    requires start <= |source|
    ensures start <= i <= |source| && source[i..] == SkipLine(source[start..])
  {
    i := start;
    while i < |source| && source[i] != '\n'
      invariant start <= i <= |source|
      invariant SkipLine(source[i..]) == SkipLine(source[start..])
    {
      assert source[i..][1..] == source[i + 1..];
      i := i + 1;
    }
  }

  method ScanAtom(source: string, start: nat) returns (i: nat)
    requires start <= |source|
    ensures i == start + AtomLength(source[start..])
  {
    i := start;
    while i < |source| && !IsAsciiWhitespace(source[i])
      invariant start <= i <= |source|
      invariant i - start + AtomLength(source[i..]) == AtomLength(source[start..])
    {
      assert source[i..][1..] == source[i + 1..];
      i := i + 1;
    }
  }

  lemma SplitAfterSpaces(s: string)
    ensures SplitForms(s) == SplitForms(SkipAscii(s))
  {
    hide SplitAt;
    var t := SkipAscii(s);
    assert SkipAscii(t) == t;
  }

  lemma SplitAtComment(t: string)
    requires StartsComment(t)
    ensures SplitForms(t) == SplitForms(SkipLine(t))
  {
    assert SkipAscii(t) == t;
  }

  lemma SplitAtAtom(t: string)
    requires t != "" && !IsAsciiWhitespace(t[0]) && !StartsComment(t) && t[0] != '('
    ensures AtomLength(t) > 0
    ensures SplitForms(t) == [TopLevelForm(Other, t[..AtomLength(t)], "")] + SplitForms(t[AtomLength(t)..])
  {
    assert SkipAscii(t) == t;
  }

  lemma SplitAtForm(t: string, n: nat)
    requires t != "" && t[0] == '(' && n == FormLength(t, 0, false, false)
    ensures n > 0 && SplitForms(t) == [FormOf(t[..n])] + SplitForms(t[n..])
  {
    hide FormOf, FormLength;
    assert SkipAscii(t) == t;
  }

  /** One atom or one balanced form. */
  method TakeForm(source: string, start: nat) returns (i: nat, form: TopLevelForm)
    requires start < |source| && !IsAsciiWhitespace(source[start]) && !StartsComment(source[start..])
    ensures start < i <= |source| && SplitForms(source[start..]) == [form] + SplitForms(source[i..])
  {
    hide FormOf, SplitForms, FormLength, AtomLength;
    ghost var t := source[start..];
    if source[start] != '(' {
      SplitAtAtom(t);
      i := ScanAtom(source, start);
      form := TopLevelForm(Other, source[start..i], "");
    } else {
      i := ScanForm(source, start);
      SplitAtForm(t, i - start);
      form := FormOf(source[start..i]);
    }
    assert source[start..i] == t[..i - start] && source[i..] == t[i - start..];
  }

  /** `split_forms` */
  method Split(source: string) returns (out: seq<TopLevelForm>)
    ensures out == SplitForms(source)
  {
    hide FormOf, SplitForms;
    out := [];
    var i := 0;
    assert source[0..] == source;
    while i < |source|
      invariant 0 <= i <= |source|
      invariant out + SplitForms(source[i..]) == SplitForms(source)
    {
      SplitAfterSpaces(source[i..]);
      i := SkipSpaces(source, i);
      if i == |source| {
        break;
      }
      if source[i] == ';' && i + 1 < |source| && source[i + 1] == ';' {
        SplitAtComment(source[i..]);
        i := SkipToLineEnd(source, i);
      } else {
        var form;
        i, form := TakeForm(source, i);
        OneMore(out, form, SplitForms(source[i..]));
        out := out + [form];
      }
    }
    SplitNothing();
    assert source[|source|..] == "" && out + [] == out;
  }

  lemma OneMore<T>(out: seq<T>, x: T, rest: seq<T>)
    ensures out + ([x] + rest) == (out + [x]) + rest
  {
  }

  lemma SplitNothing()
    ensures SplitForms("") == []
  {
  }

  // ----- Printed forms are found whole -----

  /** A string literal is crossed without touching the depth. */
  lemma {:induction false} StringScans(text: string, rest: string, depth: int)
    ensures FormLength(EscapeString(text) + ("\"" + rest), depth, true, false)
            == |EscapeString(text)| + 1 + FormLength(rest, depth, false, false)
  {
    hide FormLength, EscapeChar;
    var close := "\"" + rest;
    if text == "" {
      assert EscapeString(text) + close == close;
      QuoteScans(rest, depth);
    } else {
      var esc, tail := EscapeChar(text[0]), EscapeString(text[1..]) + close;
      StringScans(text[1..], rest, depth);
      assert EscapeString(text) + close == esc + tail;
      EscapedCharScans(text[0], tail, depth);
    }
  }

  lemma QuoteScans(rest: string, depth: int)
    ensures FormLength("\"" + rest, depth, true, false) == 1 + FormLength(rest, depth, false, false)
  {
    assert ("\"" + rest)[1..] == rest;
  }

  lemma EscapedCharScans(c: char, tail: string, depth: int)
    ensures FormLength(EscapeChar(c) + tail, depth, true, false)
            == |EscapeChar(c)| + FormLength(tail, depth, true, false)
  {
    var esc := EscapeChar(c);
    var s := esc + tail;
    assert s[0] == esc[0] && s[|esc|..] == tail;
    if |esc| == 2 {
      assert s[1] == esc[1] && s[1..][1..] == tail;
    }
  }

  lemma {:induction false} SymbolScans(name: string, rest: string, depth: int)
    requires forall i :: 0 <= i < |name| ==> IsSymbolChar(name[i])
    ensures FormLength(name + rest, depth, false, false) == |name| + FormLength(rest, depth, false, false)
  {
    if name == "" {
      assert name + rest == rest;
    } else {
      assert (name + rest)[1..] == name[1..] + rest;
      SymbolScans(name[1..], rest, depth);
    }
  }

  lemma OpenScans(tail: string, depth: int)
    ensures FormLength("(" + tail, depth, false, false) == 1 + FormLength(tail, depth + 1, false, false)
  {
    assert ("(" + tail)[1..] == tail;
  }

  lemma CloseScans(tail: string, depth: int)
    ensures FormLength(")" + tail, depth, false, false)
            == if depth == 1 then 1 else 1 + FormLength(tail, depth - 1, false, false)
  {
    assert (")" + tail)[1..] == tail;
  }

  /** A quotation mark or a quote sign outside strings. */
  lemma MarkScans(tail: string, depth: int)
    ensures FormLength("\"" + tail, depth, false, false) == 1 + FormLength(tail, depth, true, false)
    ensures FormLength("'" + tail, depth, false, false) == 1 + FormLength(tail, depth, false, false)
    ensures FormLength(" " + tail, depth, false, false) == 1 + FormLength(tail, depth, false, false)
  {
    assert ("\"" + tail)[1..] == tail && ("'" + tail)[1..] == tail && (" " + tail)[1..] == tail;
  }

  /** Inside a form a printed expression leaves the scanner at the depth it came with. */
  lemma {:induction false} PrintedScans(e: Expr, rest: string, depth: int)
    requires Printable(e) && depth >= 1
    ensures FormLength(Emit(e) + rest, depth, false, false) == |Emit(e)| + FormLength(rest, depth, false, false)
    decreases e, 0
  {
    hide FormLength, EmitItems, EscapeString;
    var s := Emit(e) + rest;
    match e
    case List(items) =>
      OpenScans(EmitItems(items) + (")" + rest), depth);
      ItemsScan(items, ")" + rest, depth + 1);
      CloseScans(rest, depth + 1);
      assert s == "(" + (EmitItems(items) + (")" + rest));
    case Symbol(name) =>
      SymbolScans(name, rest, depth);
    case String(text) =>
      MarkScans(EscapeString(text) + ("\"" + rest), depth);
      StringScans(text, rest, depth);
      assert s == "\"" + (EscapeString(text) + ("\"" + rest));
    case Quote(inner) =>
      MarkScans(Emit(inner) + rest, depth);
      PrintedScans(inner, rest, depth);
      assert s == "'" + (Emit(inner) + rest);
  }

  lemma {:induction false} ItemsScan(items: seq<Expr>, rest: string, depth: int)
    requires depth >= 1 && forall x :: x in items ==> Printable(x)
    ensures FormLength(EmitItems(items) + rest, depth, false, false)
            == |EmitItems(items)| + FormLength(rest, depth, false, false)
    decreases items, 1
  {
    if items == [] {
      assert EmitItems(items) + rest == rest;
    } else if |items| == 1 {
      PrintedScans(items[0], rest, depth);
    } else {
      hide FormLength, Emit, Printable;
      var more := EmitItems(items[1..]) + rest;
      PrintedScans(items[0], " " + more, depth);
      MarkScans(more, depth);
      ItemsScan(items[1..], rest, depth);
      assert EmitItems(items) + rest == Emit(items[0]) + (" " + more);
    }
  }

  /** The scan of a printed list ends exactly at its closing parenthesis. */
  lemma PrintedListIsOneForm(e: Expr, rest: string)
    requires Printable(e) && e.List?
    ensures FormLength(Emit(e) + rest, 0, false, false) == |Emit(e)|
  {
    hide FormLength, EmitItems;
    OpenScans(EmitItems(e.items) + (")" + rest), 0);
    ItemsScan(e.items, ")" + rest, 1);
    CloseScans(rest, 1);
    assert Emit(e) + rest == "(" + (EmitItems(e.items) + (")" + rest));
  }

  // ----- Blank text between forms -----

  /** Text the parser skips: whitespace and `;;` comment lines. A comment may run to the end of the `last` gap. */
  predicate IsBlank(g: string, last: bool)
    decreases |g|
  {
    if g == "" then true
    else if IsWhitespace(g[0]) then IsBlank(g[1..], last)
    else StartsComment(g) && (if SkipLine(g) == "" then last else IsBlank(SkipLine(g), last))
  }

  /** Outside its comments, blank text is ASCII whitespace. */
  predicate AsciiOutside(g: string)
    decreases |g|
  {
    if g == "" then true
    else if StartsComment(g) then AsciiOutside(SkipLine(g))
    else IsAsciiWhitespace(g[0]) && AsciiOutside(g[1..])
  }

  lemma {:induction false} SkipLineBefore(g: string, s: string)
    requires SkipLine(g) != ""
    ensures SkipLine(g + s) == SkipLine(g) + s
  {
    if g[0] != '\n' {
      assert (g + s)[1..] == g[1..] + s;
      SkipLineBefore(g[1..], s);
    }
  }

  lemma {:induction false} SplitterSkipsGap(g: string, last: bool, s: string)
    requires IsBlank(g, last) && AsciiOutside(g) && (last ==> s == "")
    ensures SplitForms(g + s) == SplitForms(s)
    decreases |g|
  {
    hide SplitForms;
    if g == "" {
      assert g + s == s;
    } else if IsAsciiWhitespace(g[0]) {
      assert (g + s)[1..] == g[1..] + s;
      SplitterSkipsGap(g[1..], last, s);
      SplitAfterSpaces(g + s);
      SplitAfterSpaces(g[1..] + s);
    } else {
      CommentIsSkipped(g, last, s);
      SplitterSkipsGap(SkipLine(g), last, s);
      SplitAtComment(g + s);
    }
  }

  /** The comment a gap starts with ends inside the gap, unless nothing follows. */
  lemma CommentIsSkipped(g: string, last: bool, s: string)
    requires IsBlank(g, last) && StartsComment(g) && (last ==> s == "")
    ensures SkipLine(g + s) == SkipLine(g) + s && IsBlank(SkipLine(g), last)
  {
    if SkipLine(g) == "" {
      assert g + s == g;
    } else {
      SkipLineBefore(g, s);
    }
  }

  /** Other whitespace starts an atom. */
  lemma {:induction false} WideSpaceStartsAtom(g: string, last: bool, s: string)
    requires IsBlank(g, last) && !AsciiOutside(g) && (last ==> s == "")
    ensures var out := SplitForms(g + s); out != [] && out[0].source != "" && out[0].source[0] != '('
    decreases |g|
  {
    hide SplitForms;
    if StartsComment(g) {
      CommentIsSkipped(g, last, s);
      WideSpaceStartsAtom(SkipLine(g), last, s);
      SplitAtComment(g + s);
    } else if IsAsciiWhitespace(g[0]) {
      assert (g + s)[1..] == g[1..] + s;
      WideSpaceStartsAtom(g[1..], last, s);
      SplitAfterSpaces(g + s);
      SplitAfterSpaces(g[1..] + s);
    } else {
      assert (g + s)[0] == g[0];
      SplitAtAtom(g + s);
    }
  }

  lemma {:induction false} ParserSkipsGap(g: string, last: bool, s: string)
    requires IsBlank(g, last) && (last ==> s == "")
    ensures SkipBlank(g + s) == SkipBlank(s)
    decreases |g|
  {
    if g == "" {
      assert g + s == s;
    } else if IsWhitespace(g[0]) {
      assert (g + s)[1..] == g[1..] + s;
      ParserSkipsGap(g[1..], last, s);
    } else {
      CommentIsSkipped(g, last, s);
      ParserSkipsGap(SkipLine(g), last, s);
    }
  }

  /** Every gap is text the parser skips. */
  predicate BlankGaps(gaps: seq<string>) {
    gaps != [] && forall i :: 0 <= i < |gaps| ==> IsBlank(gaps[i], i == |gaps| - 1)
  }

  lemma LaterGaps(gaps: seq<string>)
    requires BlankGaps(gaps) && |gaps| > 1
    ensures IsBlank(gaps[0], false) && BlankGaps(gaps[1..])
  {
  }

  /** The printed forms, with a gap before each and one at the end. */
  function Layout(forms: seq<Expr>, gaps: seq<string>): string
    requires |gaps| == |forms| + 1
  {
    if forms == [] then gaps[0] else gaps[0] + (Emit(forms[0]) + Layout(forms[1..], gaps[1..]))
  }

  /** What the splitter should report. */
  function FormsOf(forms: seq<Expr>): seq<TopLevelForm> {
    if forms == [] then [] else [FormOf(Emit(forms[0]))] + FormsOf(forms[1..])
  }

  lemma ListBeforeForms(e: Expr, rest: string)
    requires Printable(e) && e.List?
    ensures SplitForms(Emit(e) + rest) == [FormOf(Emit(e))] + SplitForms(rest)
  {
    hide FormOf, SplitForms, FormLength;
    var s := Emit(e) + rest;
    assert s[0] == '(';
    PrintedListIsOneForm(e, rest);
    SplitAtForm(s, |Emit(e)|);
    assert s[..|Emit(e)|] == Emit(e) && s[|Emit(e)|..] == rest;
  }

  /** Printed list forms, laid out with any gaps the parser skips, are split into exactly those forms if and
      only if all whitespace outside comments is ASCII. */
  lemma {:induction false} SplitPrintedForms(forms: seq<Expr>, gaps: seq<string>)
    requires |gaps| == |forms| + 1 && BlankGaps(gaps)
    requires forall x :: x in forms ==> Printable(x) && x.List?
    ensures SplitForms(Layout(forms, gaps)) == FormsOf(forms) <==> forall g :: g in gaps ==> AsciiOutside(g)
  {
    hide FormOf, SplitForms, IsBlank, Printable, AsciiOutside;
    if forms == [] {
      LastGap(gaps[0]);
    } else {
      var rest := Layout(forms[1..], gaps[1..]);
      LaterGaps(gaps);
      SplitPrintedForms(forms[1..], gaps[1..]);
      if AsciiOutside(gaps[0]) {
        SplitterSkipsGap(gaps[0], false, Emit(forms[0]) + rest);
        ListBeforeForms(forms[0], rest);
        SameTails(FormOf(Emit(forms[0])), SplitForms(rest), FormsOf(forms[1..]));
        assert forall g :: g in gaps <==> g == gaps[0] || g in gaps[1..];
      } else {
        WideSpaceStartsAtom(gaps[0], false, Emit(forms[0]) + rest);
        SourceStartsOpen(forms[0]);
        assert gaps[0] in gaps;
      }
    }
  }

  lemma LastGap(g: string)
    requires IsBlank(g, true)
    ensures SplitForms(g) == [] <==> AsciiOutside(g)
  {
    hide SplitForms, IsBlank, AsciiOutside;
    assert g + "" == g;
    if AsciiOutside(g) {
      SplitterSkipsGap(g, true, "");
      SplitNothing();
    } else {
      WideSpaceStartsAtom(g, true, "");
    }
  }

  lemma SameTails<T>(x: T, a: seq<T>, b: seq<T>)
    ensures [x] + a == [x] + b <==> a == b
  {
    assert ([x] + a)[1..] == a && ([x] + b)[1..] == b;
  }

  lemma SourceStartsOpen(e: Expr)
    requires e.List?
    ensures FormOf(Emit(e)).source != "" && FormOf(Emit(e)).source[0] == '('
  {
    hide Classify, InnerAfterSymbol;
  }

  lemma LayoutSeparates(forms: seq<Expr>, gaps: seq<string>)
    requires |gaps| == |forms| + 1 && BlankGaps(gaps)
    requires forall x :: x in forms ==> x.List?
    ensures Separates(Layout(forms, gaps))
  {
    assert IsBlank(gaps[0], |gaps| == 1);
    if gaps[0] == "" && forms != [] {
      assert Layout(forms, gaps) == Emit(forms[0]) + Layout(forms[1..], gaps[1..]);
    }
  }

  /** The parser reads those forms from the same text, whatever its whitespace. */
  lemma {:induction false} ParserAgrees(forms: seq<Expr>, gaps: seq<string>)
    requires |gaps| == |forms| + 1 && BlankGaps(gaps)
    requires forall x :: x in forms ==> Printable(x) && x.List?
    ensures ParseForms(Layout(forms, gaps)) == Ok(forms)
  {
    hide IsBlank, Printable;
    if forms == [] {
      ParserSkipsGap(gaps[0], true, "");
      assert gaps[0] + "" == gaps[0];
    } else {
      hide ParseForms;
      var rest := Layout(forms[1..], gaps[1..]);
      LaterGaps(gaps);
      ParserSkipsGap(gaps[0], false, Emit(forms[0]) + rest);
      LayoutSeparates(forms[1..], gaps[1..]);
      ParserAgrees(forms[1..], gaps[1..]);
      FormBeforeForms(gaps[0] + (Emit(forms[0]) + rest), forms[0], rest);
      assert forms == [forms[0]] + forms[1..];
    }
  }

  /** A no-break space before `(a)`: the parser skips it, the splitter takes the whole text for one atom. */
  lemma NoBreakSpaceIsAnAtom()
    ensures SplitForms("\U{A0}(a)") == [TopLevelForm(Other, "\U{A0}(a)", "")]
    ensures ParseForms("\U{A0}(a)") == Ok([List([Symbol("a")])])
  {
    hide SplitForms, ParseForms;
    OneAtom("\U{A0}(a)");
    NoBreakSpaceIsBlank("\U{A0}(a)");
  }

  lemma OneAtom(t: string)
    requires t == "\U{A0}(a)"
    ensures SplitForms(t) == [TopLevelForm(Other, t, "")]
  {
    hide SplitForms;
    assert AtomLength(t) == |t| by {
      assert t[1..] == "(a)" && "(a)"[1..] == "a)" && "a)"[1..] == ")" && ")"[1..] == "";
    }
    SplitAtAtom(t);
    SplitNothing();
    assert t[..|t|] == t && t[|t|..] == "";
  }

  lemma NoBreakSpaceIsBlank(t: string)
    requires t == "\U{A0}(a)"
    ensures ParseForms(t) == Ok([List([Symbol("a")])])
  {
    var form := List([Symbol("a")]);
    assert EmitItems([Symbol("a")]) == "a" && Emit(form) == "(a)";
    assert t[1..] == "(a)" && SkipBlank(t) == SkipBlank("(a)");
    assert "(a)" + "" == "(a)" && Printable(form);
    hide Emit, EmitItems, ParseExpr, SkipBlank, Printable;
    NothingParses();
    FormBeforeForms(t, form, "");
    assert [form] + [] == [form];
  }

  lemma NothingParses()
    ensures ParseForms("") == Ok([])
  {
  }

  lemma FormBeforeForms(s: string, e: Expr, rest: string)
    requires Printable(e) && Separates(rest) && ParseForms(rest).Ok?
    requires SkipBlank(s) == SkipBlank(Emit(e) + rest)
    ensures ParseForms(s) == Ok([e] + ParseForms(rest).value)
  {
    EmitStart(e);
    SkipBlankAtToken(Emit(e) + rest);
    RoundTrip(e, rest);
  }

  // ----- Kinds -----

  /** What a form is by its head symbol; a head that stands alone is never recognised. */
  function KindOf(items: seq<Expr>): FormKind {
    if |items| >= 2 && items[0].Symbol? then KindNamed(items[0].name) else Other
  }

  lemma WordWithMark(word: string)
    requires exists i :: 0 <= i < |word| && IsDelimiter(word[i])
    ensures KindNamed(word) == Other
  {
  }

  /** The kind found in the text is that of the parsed form. */
  lemma KindOfPrinted(items: seq<Expr>)
    requires Printable(List(items))
    ensures Classify(Emit(List(items))) == KindOf(items)
  {
    var text := Emit(List(items));
    var body := EmitItems(items) + ")";
    TrimmedAlready(text);
    assert text[1..] == body;
    if items == [] {
      assert body == ")";
      WordBefore(body, "");
      assert body + "" == body;
      assert body[0] == ')';
      WordWithMark(body);
    } else {
      EmitStart(items[0]);
      var after := if |items| == 1 then ")" else " " + EmitItems(items[1..]) + ")";
      assert body == Emit(items[0]) + after;
      assert TrimStart(body) == body;
      HeadWord(items[0], after, body);
      var word := FirstWord(TrimStart(body));
      if items[0].Symbol? && |items| >= 2 {
        assert word == items[0].name;
      } else {
        WordWithMark(word);
      }
    }
  }

  /** The first word starts with the head; it is the head's name only if whitespace follows. */
  lemma HeadWord(head: Expr, after: string, body: string)
    requires Printable(head) && body == Emit(head) + after && after != "" && (after == ")" || IsWhitespace(after[0]))
    ensures var word := body[..WordLength(body)];
            if head.Symbol? && IsWhitespace(after[0]) then word == head.name
            else exists i :: 0 <= i < |word| && IsDelimiter(word[i])
  {
    if head.Symbol? {
      if after == ")" {
        WordBefore(body, "");
        assert body + "" == body;
        assert IsDelimiter(body[|body| - 1]);
      } else {
        WordBefore(head.name, after);
      }
    } else {
      EmitStart(head);
      assert IsDelimiter(body[0]) && !IsWhitespace(body[0]);
      assert body[..WordLength(body)][0] == body[0];
    }
  }

  lemma {:induction false} HeadLengthOf(name: string, rest: string)
    requires forall i :: 0 <= i < |name| ==> IsSymbolChar(name[i])
    requires rest != "" && (IsWhitespace(rest[0]) || rest[0] == ')')
    ensures HeadLength(name + rest) == |name|
  {
    if name == "" {
      assert name + rest == rest;
    } else {
      assert (name + rest)[1..] == name[1..] + rest;
      HeadLengthOf(name[1..], rest);
    }
  }

  lemma TrimOneSpace(s: string)
    requires s != "" && !IsWhitespace(s[0]) && !IsWhitespace(s[|s| - 1])
    ensures Trim(" " + s) == s
  {
    assert (" " + s)[1..] == s;
    TrimmedAlready(s);
  }

  /** Trimming takes away the space before the remaining items and nothing else. */
  lemma TrimBeforeItems(items: seq<Expr>)
    requires items != [] && forall x :: x in items ==> Printable(x)
    ensures Trim(" " + (EmitItems(items) + ")")) == EmitItems(items) + ")"
  {
    hide Trim;
    EmitStart(items[0]);
    assert EmitItems(items)[0] == Emit(items[0])[0];
    TrimOneSpace(EmitItems(items) + ")");
  }

  /** What is left after the head symbol: the other items and the closing parenthesis. */
  lemma InnerOfPrinted(items: seq<Expr>)
    requires Printable(List(items)) && items != [] && items[0].Symbol?
    ensures InnerAfterSymbol(Emit(List(items))) == EmitItems(items[1..]) + ")"
  {
    var text := Emit(List(items));
    var name := items[0].name;
    var others := EmitItems(items[1..]) + ")";
    var after := if |items| == 1 then ")" else " " + others;
    TrimmedAlready(text);
    assert text[1..] == EmitItems(items) + ")";
    assert EmitItems(items) + ")" == name + after;
    hide TrimStart, TrimEnd;
    EmitStart(items[0]);
    NoSpaceAhead(text[1..]);
    HeadLengthOf(name, after);
    assert text[1..][|name|..] == after;
    if |items| == 1 {
      assert others == ")";
      TrimmedAlready(others);
    } else {
      TrimBeforeItems(items[1..]);
    }
  }

  lemma NoSpaceAhead(s: string)
    requires s != "" && !IsWhitespace(s[0])
    ensures TrimStart(s) == s
  {
  }
}
